/**
  The value held under one Redis sorted-set key, and the meaning of the
  sorted-set commands the Highscore class sends (ZSCORE, ZADD, ZREM,
  ZREMRANGEBYSCORE, ZINCRBY, ZCOUNT, ZRANK, ZRANGE, ZRANGEBYSCORE ... LIMIT).

  A set is a sequence of (member, score) entries in ascending score order
  with every member at most once. Among equal scores a member added later
  stands after the ones already there.
 */
module SortedSet {
  import opened Wrappers

  datatype Entry = Entry(member: string, score: real)

  type ZSet = seq<Entry>

  /** A score bound as the commands take it: `-inf`, an inclusive finite
      bound, or `+inf`. */
  datatype Bound = NegInf | At(value: real) | PosInf

  predicate AtLeast(x: real, min: Bound) {
    match min
    case NegInf => true
    case At(v) => v <= x
    case PosInf => false
  }

  predicate AtMost(x: real, max: Bound) {
    match max
    case NegInf => false
    case At(v) => x <= v
    case PosInf => true
  }

  /** `min <= x <= max`, both ends inclusive. */
  predicate InRange(x: real, min: Bound, max: Bound) {
    AtLeast(x, min) && AtMost(x, max)
  }

  predicate Sorted(z: ZSet) {
    forall i, j :: 0 <= i < j < |z| ==> z[i].score <= z[j].score
  }

  predicate Distinct(z: ZSet) {
    forall i, j :: 0 <= i < j < |z| ==> z[i].member != z[j].member
  }

  /** What every sorted-set key holds: ascending scores, unique members. */
  predicate Valid(z: ZSet) {
    Sorted(z) && Distinct(z)
  }

  // ---------------------------------------------------------------------
  // Filtering

  /** Which entries a filtering pass keeps. */
  datatype Criterion =
    | ScoreIn(min: Bound, max: Bound)
    | ScoreOutside(min: Bound, max: Bound)
    | OtherThan(member: string)

  predicate Keeps(c: Criterion, e: Entry) {
    match c
    case ScoreIn(min, max) => InRange(e.score, min, max)
    case ScoreOutside(min, max) => !InRange(e.score, min, max)
    case OtherThan(m) => e.member != m
  }

  /** The entries of `z` that `c` keeps, in their order in `z`. */
  function Where(z: ZSet, c: Criterion): (r: ZSet)
    ensures |r| <= |z|
    ensures forall e :: e in r <==> e in z && Keeps(c, e)
  {
    if z == [] then
      []
    else
      assert forall e :: e in z <==> e == z[0] || e in z[1..];
      if Keeps(c, z[0]) then [z[0]] + Where(z[1..], c) else Where(z[1..], c)
  }

  /** The head of a sorted set scores no more than anything after it. */
  lemma SortedHead(z: ZSet)
    requires Sorted(z) && z != []
    ensures Sorted(z[1..])
    ensures forall e :: e in z[1..] ==> z[0].score <= e.score
  {
    forall e | e in z[1..] ensures z[0].score <= e.score {
      var k :| 0 <= k < |z[1..]| && z[1..][k] == e;
      assert z[k + 1] == e;
    }
  }

  /** The head of a set with unique members shares its member with nothing
      after it. */
  lemma DistinctHead(z: ZSet)
    requires Distinct(z) && z != []
    ensures Distinct(z[1..])
    ensures forall e :: e in z[1..] ==> z[0].member != e.member
  {
    forall e | e in z[1..] ensures z[0].member != e.member {
      var k :| 0 <= k < |z[1..]| && z[1..][k] == e;
      assert z[k + 1] == e;
    }
  }

  lemma PrependSorted(x: Entry, w: ZSet)
    requires Sorted(w)
    requires forall e :: e in w ==> x.score <= e.score
    ensures Sorted([x] + w)
  {
    var z := [x] + w;
    forall i, j | 0 <= i < j < |z| ensures z[i].score <= z[j].score {
      if i == 0 {
        assert z[j] == w[j - 1];
        assert w[j - 1] in w;
      }
    }
  }

  lemma PrependDistinct(x: Entry, w: ZSet)
    requires Distinct(w)
    requires forall e :: e in w ==> x.member != e.member
    ensures Distinct([x] + w)
  {
    var z := [x] + w;
    forall i, j | 0 <= i < j < |z| ensures z[i].member != z[j].member {
      if i == 0 {
        assert z[j] == w[j - 1];
        assert w[j - 1] in w;
      }
    }
  }

  /** Filtering keeps a set in ascending order. */
  lemma {:induction false} WhereSorted(z: ZSet, c: Criterion)
    requires Sorted(z)
    ensures Sorted(Where(z, c))
  {
    if z != [] {
      SortedHead(z);
      WhereSorted(z[1..], c);
      if Keeps(c, z[0]) {
        PrependSorted(z[0], Where(z[1..], c));
      }
    }
  }

  /** Filtering keeps members unique. */
  lemma {:induction false} WhereDistinct(z: ZSet, c: Criterion)
    requires Distinct(z)
    ensures Distinct(Where(z, c))
  {
    if z != [] {
      DistinctHead(z);
      WhereDistinct(z[1..], c);
      if Keeps(c, z[0]) {
        PrependDistinct(z[0], Where(z[1..], c));
      }
    }
  }

  /** A filter that keeps every entry gives back the set itself. */
  lemma {:induction false} WhereKeepsAll(z: ZSet, c: Criterion)
    requires forall i :: 0 <= i < |z| ==> Keeps(c, z[i])
    ensures Where(z, c) == z
  {
    if z != [] {
      assert Keeps(c, z[0]);
      WhereKeepsAll(z[1..], c);
      assert [z[0]] + z[1..] == z;
    }
  }

  /** A filter that keeps no entry gives the empty set. */
  lemma WhereKeepsNone(z: ZSet, c: Criterion)
    requires forall i :: 0 <= i < |z| ==> !Keeps(c, z[i])
    ensures Where(z, c) == []
  {
  }

  // ---------------------------------------------------------------------
  // ZRANK and ZSCORE

  /** ZRANK: the zero-based position of `m`, or none when `m` is absent. */
  function Position(z: ZSet, m: string): (r: Option<nat>)
    ensures r.Some? ==> r.value < |z| && z[r.value].member == m
  {
    if z == [] then
      None
    else if z[0].member == m then
      Some(0)
    else
      match Position(z[1..], m)
      case None => None
      case Some(i) => Some(i + 1)
  }

  /** ZRANK answers none exactly when no entry holds `m`. */
  lemma {:induction false} PositionNoneIffAbsent(z: ZSet, m: string)
    ensures Position(z, m).None? <==> forall i :: 0 <= i < |z| ==> z[i].member != m
  {
    if z != [] && z[0].member != m {
      PositionNoneIffAbsent(z[1..], m);
      assert forall i :: 1 <= i < |z| ==> z[i] == z[1..][i - 1];
    }
  }

  /** With unique members, ZRANK of a member is the one position holding it. */
  lemma PositionOfPresent(z: ZSet, m: string, i: nat)
    requires Distinct(z) && i < |z| && z[i].member == m
    ensures Position(z, m) == Some(i)
  {
    PositionNoneIffAbsent(z, m);
  }

  /** ZSCORE: the score stored for `m`, or none when `m` is absent. */
  function Score(z: ZSet, m: string): (r: Option<real>)
    ensures r.Some? ==> Entry(m, r.value) in z
  {
    match Position(z, m)
    case None => None
    case Some(i) => Some(z[i].score)
  }

  /** ZSCORE answers none exactly when no entry holds `m`. */
  lemma ScoreNoneIffAbsent(z: ZSet, m: string)
    ensures Score(z, m).None? <==> forall i :: 0 <= i < |z| ==> z[i].member != m
  {
    PositionNoneIffAbsent(z, m);
  }

  /** With unique members, ZSCORE of a member is the score stored beside it. */
  lemma ScoreOfPresent(z: ZSet, m: string, i: nat)
    requires Distinct(z) && i < |z| && z[i].member == m
    ensures Score(z, m) == Some(z[i].score)
  {
    PositionOfPresent(z, m, i);
  }

  /** In a set with unique members, the entries of a run of consecutive
      positions starting at `k` are found at positions `k`, `k + 1`, ... */
  lemma PositionsOfWindow(z: ZSet, k: nat, w: ZSet)
    requires Distinct(z) && k + |w| <= |z| && w == z[k..k + |w|]
    ensures forall i :: 0 <= i < |w| ==> Position(z, w[i].member) == Some(k + i)
  {
    forall i | 0 <= i < |w| ensures Position(z, w[i].member) == Some(k + i) {
      assert w[i] == z[k + i];
      PositionOfPresent(z, w[i].member, k + i);
    }
  }

  // ---------------------------------------------------------------------
  // ZREM, ZADD, ZINCRBY

  /** ZREM: every entry for `m` is gone and every other entry stays. */
  function Remove(z: ZSet, m: string): (r: ZSet)
    ensures forall e :: e in r <==> e in z && e.member != m
  {
    Where(z, OtherThan(m))
  }

  /** Places `e` after every entry that scores no more than it. */
  function Insert(z: ZSet, e: Entry): (r: ZSet)
    ensures |r| == |z| + 1
    ensures forall x :: x in r <==> x in z || x == e
  {
    if z == [] || e.score < z[0].score then
      [e] + z
    else
      assert forall x :: x in z <==> x == z[0] || x in z[1..];
      [z[0]] + Insert(z[1..], e)
  }

  lemma {:induction false} InsertSorted(z: ZSet, e: Entry)
    requires Sorted(z)
    ensures Sorted(Insert(z, e))
  {
    if z == [] {
    } else if e.score < z[0].score {
      SortedHead(z);
      assert z == [z[0]] + z[1..];
      PrependSorted(e, z);
    } else {
      SortedHead(z);
      InsertSorted(z[1..], e);
      PrependSorted(z[0], Insert(z[1..], e));
    }
  }

  lemma {:induction false} InsertDistinct(z: ZSet, e: Entry)
    requires Distinct(z)
    requires forall x :: x in z ==> x.member != e.member
    ensures Distinct(Insert(z, e))
  {
    if z == [] {
    } else if e.score < z[0].score {
      PrependDistinct(e, z);
    } else {
      DistinctHead(z);
      InsertDistinct(z[1..], e);
      assert z[0] in z;
      PrependDistinct(z[0], Insert(z[1..], e));
    }
  }

  /** ZADD of one member: its old entry, if any, is replaced by the new score. */
  function Add(z: ZSet, m: string, s: real): (r: ZSet)
    ensures Entry(m, s) in r
    ensures forall e :: e in r <==> e == Entry(m, s) || (e in z && e.member != m)
  {
    Insert(Remove(z, m), Entry(m, s))
  }

  /** ZADD keeps a set sorted with unique members. */
  lemma AddValid(z: ZSet, m: string, s: real)
    requires Valid(z)
    ensures Valid(Add(z, m, s))
  {
    WhereSorted(z, OtherThan(m));
    WhereDistinct(z, OtherThan(m));
    InsertSorted(Remove(z, m), Entry(m, s));
    InsertDistinct(Remove(z, m), Entry(m, s));
  }

  /** After ZADD, ZSCORE reads back the score written for `m` and the score of
      every other member is what it was. */
  lemma ScoreAfterAdd(z: ZSet, m: string, s: real, other: string)
    requires Distinct(z)
    ensures Score(Add(z, m, s), m) == Some(s)
    ensures other != m ==> Score(Add(z, m, s), other) == Score(z, other)
  {
    var a := Add(z, m, s);
    WhereDistinct(z, OtherThan(m));
    InsertDistinct(Remove(z, m), Entry(m, s));
    var k :| 0 <= k < |a| && a[k] == Entry(m, s);
    ScoreOfPresent(a, m, k);
    if other != m {
      match Score(z, other)
      case Some(t) =>
        assert Entry(other, t) in a;
        var j :| 0 <= j < |a| && a[j] == Entry(other, t);
        ScoreOfPresent(a, other, j);
      case None =>
        ScoreNoneIffAbsent(z, other);
        ScoreNoneIffAbsent(a, other);
        forall i | 0 <= i < |a| ensures a[i].member != other {
          assert a[i] in a;
        }
    }
  }

  /** After ZREM, ZSCORE of the removed member is none, and every other
      member's score is unchanged. */
  lemma ScoreAfterRemove(z: ZSet, m: string, other: string)
    requires Distinct(z)
    ensures Score(Remove(z, m), m).None?
    ensures other != m ==> Score(Remove(z, m), other) == Score(z, other)
  {
    var r := Remove(z, m);
    WhereDistinct(z, OtherThan(m));
    ScoreNoneIffAbsent(r, m);
    forall i | 0 <= i < |r| ensures r[i].member != m {
      assert r[i] in r;
    }
    if other != m {
      match Score(z, other)
      case Some(t) =>
        assert Entry(other, t) in r;
        var j :| 0 <= j < |r| && r[j] == Entry(other, t);
        ScoreOfPresent(r, other, j);
      case None =>
        ScoreNoneIffAbsent(z, other);
        ScoreNoneIffAbsent(r, other);
        forall i | 0 <= i < |r| ensures r[i].member != other {
          assert r[i] in r;
        }
    }
  }

  /** ZINCRBY: adds `d` to the score of `m`, counting an absent member as 0,
      and gives the new score together with the new set. */
  function IncrBy(z: ZSet, m: string, d: real): (r: (real, ZSet))
    ensures Entry(m, r.0) in r.1
  {
    var current := match Score(z, m) case Some(x) => x case None => 0.0;
    var updated := current + d;
    (updated, Add(z, m, updated))
  }

  /** ZINCRBY is ZADD of the old score (0 when absent) plus the delta. */
  lemma IncrByScore(z: ZSet, m: string, d: real, other: string)
    requires Valid(z)
    ensures var (n, z') := IncrBy(z, m, d);
      && n == (if Score(z, m).Some? then Score(z, m).value else 0.0) + d
      && Valid(z')
      && Score(z', m) == Some(n)
      && (other != m ==> Score(z', other) == Score(z, other))
  {
    var (n, z') := IncrBy(z, m, d);
    AddValid(z, m, n);
    ScoreAfterAdd(z, m, n, other);
  }

  /** ZINCRBY by `up` followed by ZINCRBY by `down = -up` leaves the member
      with the score it had before, 0 when it had none. */
  lemma IncrByUndone(z: ZSet, m: string, up: real, down: real)
    requires Valid(z) && up + down == 0.0
    ensures var (n, z') := IncrBy(IncrBy(z, m, up).1, m, down);
      && n == (if Score(z, m).Some? then Score(z, m).value else 0.0)
      && Score(z', m) == Some(n)
  {
    IncrByScore(z, m, up, m);
    IncrByScore(IncrBy(z, m, up).1, m, down, m);
  }

  // ---------------------------------------------------------------------
  // ZRANGE

  /**
    ZRANGE start stop: the entries at zero-based positions `start..stop`,
    both inclusive. A negative index counts from the end (-1 is the last
    entry); a start before the first entry is clamped to 0 and a stop past
    the last entry to the last one; an empty window gives no entries.
   */
  function Range(z: ZSet, start: int, stop: int): (r: ZSet)
    ensures |r| <= |z|
  {
    var n := |z|;
    var from := if start < 0 then n + start else start;
    var to := if stop < 0 then n + stop else stop;
    var from := if from < 0 then 0 else from;
    if from > to || from >= n then [] else z[from..if to >= n then n else to + 1]
  }

  function Min(a: int, b: int): int {
    if a < b then a else b
  }

  /** With a non-negative start and at least one position, ZRANGE gives the
      entries from `start` on, `count` of them or fewer when the set ends
      first. */
  lemma RangeWindow(z: ZSet, start: nat, count: nat)
    requires count >= 1
    ensures Range(z, start, start + count - 1) == z[Min(start, |z|)..Min(start + count, |z|)]
    ensures |Range(z, start, start + count - 1)| <= count
  {
  }

  // ---------------------------------------------------------------------
  // ZRANGEBYSCORE ... LIMIT, ZCOUNT, ZREMRANGEBYSCORE

  /**
    ZRANGEBYSCORE min max LIMIT offset count: the entries scoring within
    `[min, max]` in ascending order, the first `offset` of them skipped, at
    most `count` of them, or all when `count` is negative.
   */
  function RangeByScore(z: ZSet, min: Bound, max: Bound, offset: nat, count: int): (r: ZSet)
    ensures count >= 0 ==> |r| <= count
    ensures forall e :: e in r ==> e in z && InRange(e.score, min, max)
  {
    var matched := Where(z, ScoreIn(min, max));
    var rest := if offset <= |matched| then matched[offset..] else [];
    assert forall e :: e in rest ==> e in matched;
    var r := if 0 <= count < |rest| then rest[..count] else rest;
    assert forall e :: e in r ==> e in rest;
    r
  }

  /** The number of entries scoring below `x`. */
  function CountBelow(z: ZSet, x: real): (n: nat)
    ensures n <= |z|
  {
    |Where(z, ScoreOutside(At(x), PosInf))|
  }

  /** In a sorted set the entries scoring at least `x` are exactly those from
      position CountBelow(z, x) on. */
  lemma {:induction false} AtLeastIsSuffix(z: ZSet, x: real)
    requires Sorted(z)
    ensures Where(z, ScoreIn(At(x), PosInf)) == z[CountBelow(z, x)..]
    ensures forall i :: 0 <= i < CountBelow(z, x) ==> z[i].score < x
    ensures forall i :: CountBelow(z, x) <= i < |z| ==> x <= z[i].score
  {
    if z != [] {
      if x <= z[0].score {
        assert forall i :: 0 <= i < |z| ==> x <= z[i].score;
        WhereKeepsAll(z, ScoreIn(At(x), PosInf));
        WhereKeepsNone(z, ScoreOutside(At(x), PosInf));
      } else {
        SortedHead(z);
        AtLeastIsSuffix(z[1..], x);
        assert z[1..][CountBelow(z[1..], x)..] == z[CountBelow(z, x)..];
        forall i | 0 < i < |z| ensures z[i] == z[1..][i - 1] { }
      }
    }
  }

  /** No more entries score below an entry's score than its zero-based position. */
  lemma CountBelowAtMost(z: ZSet, i: nat)
    requires Sorted(z) && i < |z|
    ensures CountBelow(z, z[i].score) <= i
  {
    AtLeastIsSuffix(z, z[i].score);
  }

  /** When no other entry shares an entry's score, exactly the entries before
      it score less. */
  lemma CountBelowUnique(z: ZSet, i: nat)
    requires Sorted(z) && i < |z|
    requires forall j :: 0 <= j < |z| && j != i ==> z[j].score != z[i].score
    ensures CountBelow(z, z[i].score) == i
  {
    var k := CountBelow(z, z[i].score);
    AtLeastIsSuffix(z, z[i].score);
    if k < i {
      assert z[i].score <= z[k].score <= z[i].score;
    }
  }

  /** On a sorted set, ZRANGEBYSCORE x +inf LIMIT 0 count gives a run of
      consecutive entries that starts at position CountBelow(z, x). */
  lemma ScoreRangeIsWindow(z: ZSet, x: real, count: int)
    requires Sorted(z)
    ensures var rows := RangeByScore(z, At(x), PosInf, 0, count);
      var k := CountBelow(z, x);
      && k + |rows| <= |z|
      && rows == z[k..k + |rows|]
      && (count < 0 ==> k + |rows| == |z|)
      && (count >= 0 ==> |rows| == Min(count, |z| - k))
  {
    AtLeastIsSuffix(z, x);
  }

  /** ZCOUNT min max: the number of entries scoring within `[min, max]`. */
  function Count(z: ZSet, min: Bound, max: Bound): (n: nat)
    ensures n <= |z|
  {
    |Where(z, ScoreIn(min, max))|
  }

  /** ZREMRANGEBYSCORE min max: the entries scoring within `[min, max]` are
      gone and all others stay. */
  function RemoveRangeByScore(z: ZSet, min: Bound, max: Bound): (r: ZSet)
    ensures forall e :: e in r <==> e in z && !InRange(e.score, min, max)
  {
    Where(z, ScoreOutside(min, max))
  }

  /** The members scoring within `[min, max]`. */
  function MembersIn(z: ZSet, min: Bound, max: Bound): set<string> {
    set i | 0 <= i < |z| && InRange(z[i].score, min, max) :: z[i].member
  }

  /** The members in range are the head's, when it scores in range, and the
      tail's. */
  lemma MembersInCons(z: ZSet, min: Bound, max: Bound)
    requires z != []
    ensures MembersIn(z, min, max)
      == (if InRange(z[0].score, min, max) then {z[0].member} else {}) + MembersIn(z[1..], min, max)
  {
    var head := if InRange(z[0].score, min, max) then {z[0].member} else {};
    var tail := MembersIn(z[1..], min, max);
    forall m | m in MembersIn(z, min, max) ensures m in head + tail {
      var i :| 0 <= i < |z| && InRange(z[i].score, min, max) && z[i].member == m;
      if i > 0 {
        assert z[1..][i - 1] == z[i];
      }
    }
    forall m | m in tail ensures m in MembersIn(z, min, max) {
      var i :| 0 <= i < |z[1..]| && InRange(z[1..][i].score, min, max) && z[1..][i].member == m;
      assert z[i + 1] == z[1..][i];
    }
  }

  /** In a set of distinct members the head's member is none of the tail's. */
  lemma HeadNotInTail(z: ZSet, min: Bound, max: Bound)
    requires Distinct(z) && z != []
    ensures z[0].member !in MembersIn(z[1..], min, max)
  {
    forall i | 0 <= i < |z[1..]| ensures z[1..][i].member != z[0].member {
      assert z[1..][i] == z[i + 1];
    }
  }

  /** ZCOUNT counts each member scoring within the inclusive range once, the
      ones scoring exactly `min` or `max` among them. */
  lemma {:induction false} CountIsMembers(z: ZSet, min: Bound, max: Bound)
    requires Distinct(z)
    ensures Count(z, min, max) == |MembersIn(z, min, max)|
  {
    if z != [] {
      DistinctHead(z);
      CountIsMembers(z[1..], min, max);
      MembersInCons(z, min, max);
      HeadNotInTail(z, min, max);
    }
  }

  /** ZCOUNT -inf +inf counts the whole set. */
  lemma CountAll(z: ZSet)
    ensures Count(z, NegInf, PosInf) == |z|
  {
    WhereKeepsAll(z, ScoreIn(NegInf, PosInf));
  }

  /** ZREMRANGEBYSCORE -inf +inf empties the set. */
  lemma RemoveAllEmpties(z: ZSet)
    ensures RemoveRangeByScore(z, NegInf, PosInf) == []
  {
    WhereKeepsNone(z, ScoreOutside(NegInf, PosInf));
  }

  /** ZREMRANGEBYSCORE removes exactly as many entries as ZCOUNT counts over
      the same range. */
  lemma {:induction false} RemovedAreCounted(z: ZSet, min: Bound, max: Bound)
    ensures |RemoveRangeByScore(z, min, max)| + Count(z, min, max) == |z|
  {
    if z != [] {
      RemovedAreCounted(z[1..], min, max);
    }
  }
}
