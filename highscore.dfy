/**
  The Highscore leaderboard: a namespace (the Redis key) over one sorted set
  of user ids and scores, with score updates, counts, 1-based ranks and two
  ways of listing ranked entries.
 */
module Leaderboard {
  import opened Wrappers
  import opened Identifiers
  import opened SortedSet
  import opened RedisModel

  const Version: string := "0.0.1"

  /** The one exception the class raises itself: InvalidArgumentException. */
  datatype Error = InvalidArgument(message: string)

  const NamespaceError: Error := InvalidArgument("Namespace must be string and length > 0")
  const UserIdError: Error := InvalidArgument("UserId must be string and length > 0")

  /** One row of a listing: `{userId, score, rank}`. */
  datatype RankedEntry = RankedEntry(userId: string, score: real, rank: int)

  /** Every member of the set is a key the sanitiser leaves unchanged, as
      every write of this class keeps it (WritesKeepSanitised). */
  predicate SanitisedMembers(z: ZSet) {
    forall i :: 0 <= i < |z| ==> IsKey(z[i].member)
  }

  /**
    What rank() answers for `userId` on the set `z`: the sanitiser's
    exception, or ZRANK's zero-based position plus one. ZRANK answers null
    for an absent member and PHP evaluates `null + 1` to 1, so an absent
    member reads as rank 1.
   */
  function RankOf(z: ZSet, userId: Value): (r: Result<int, Error>)
    ensures r.Failure? <==> Normalize(userId).None?
    ensures r.Failure? ==> r.error == UserIdError
    ensures r.Success? ==> 1 <= r.value
    ensures r.Success? && Position(z, Normalize(userId).value).Some? ==>
      r.value <= |z| && z[r.value - 1].member == Normalize(userId).value
  {
    if Normalize(userId).None? then Failure(UserIdError)
    else Success(OneBased(Position(z, Normalize(userId).value)))
  }

  /** ZRANK's zero-based answer plus one, where PHP reads `null + 1` as 1. */
  function OneBased(zeroBasedRank: Option<nat>): int {
    match zeroBasedRank
    case Some(i) => i + 1
    case None => 1
  }

  /** A present member's rank is above the number of members scoring less
      than it, and equals that number plus one when no other member has the
      same score. */
  lemma RankCountsLowerScores(z: ZSet, u: string)
    requires SortedSet.Valid(z) && IsKey(u) && Score(z, u).Some?
    ensures var s := Score(z, u).value;
      var r := RankOf(z, Str(u));
      && r.Success?
      && CountBelow(z, s) < r.value <= |z|
      && ((forall i :: 0 <= i < |z| && z[i].member != u ==> z[i].score != s) ==> r.value == CountBelow(z, s) + 1)
  {
    var i := Position(z, u).value;
    var s := z[i].score;
    NormalizeKeepsKeys(u);
    CountBelowAtMost(z, i);
    if forall j :: 0 <= j < |z| && z[j].member != u ==> z[j].score != s {
      forall j | 0 <= j < |z| && j != i ensures z[j].score != s {
        assert z[j].member != z[i].member;
      }
      CountBelowUnique(z, i);
    }
  }

  /** rank() of a sanitised member at zero-based position `i` is `i + 1`. */
  lemma RankOfPresent(z: ZSet, u: string, i: nat)
    requires IsKey(u) && Position(z, u) == Some(i)
    ensures RankOf(z, Str(u)) == Success(i + 1)
  {
    NormalizeKeepsKeys(u);
  }

  /** An absent member reads as rank 1, the same as the lowest-scoring one. */
  lemma RankOfAbsent(z: ZSet, userId: Value)
    requires Normalize(userId).Some? && Score(z, Normalize(userId).value).None?
    ensures RankOf(z, userId) == Success(1)
  {
  }

  /** On a sorted set, the rows of ZRANGEBYSCORE start +inf LIMIT 0 limit sit
      at consecutive positions from CountBelow(z, start) on. */
  lemma ScoreListingPositions(z: ZSet, start: real, limit: int)
    requires SortedSet.Valid(z)
    ensures var rows := RangeByScore(z, At(start), PosInf, 0, limit);
      forall i :: 0 <= i < |rows| ==> Position(z, rows[i].member) == Some(CountBelow(z, start) + i)
  {
    var rows := RangeByScore(z, At(start), PosInf, 0, limit);
    var k := CountBelow(z, start);
    assert k + |rows| <= |z| && rows == z[k..k + |rows|] by {
      ScoreRangeIsWindow(z, start, limit);
    }
    PositionsOfWindow(z, k, rows);
  }

  /** When the first of those rows holds a sanitised key, rank() of it is
      its position plus one: CountBelow(z, start) + 1. */
  lemma ScoreListingFirstRank(z: ZSet, start: real, limit: int)
    requires SortedSet.Valid(z)
    requires RangeByScore(z, At(start), PosInf, 0, limit) != []
    requires IsKey(RangeByScore(z, At(start), PosInf, 0, limit)[0].member)
    ensures RankOf(z, Str(RangeByScore(z, At(start), PosInf, 0, limit)[0].member)) == Success(CountBelow(z, start) + 1)
  {
    var rows := RangeByScore(z, At(start), PosInf, 0, limit);
    ScoreListingPositions(z, start, limit);
    RankOfPresent(z, rows[0].member, CountBelow(z, start));
  }

  /** Every row of a listing of a set of sanitised members holds a sanitised
      key, the first row among them. */
  lemma SanitisedRows(z: ZSet, start: real, limit: int)
    requires SanitisedMembers(z)
    ensures SanitisedMembers(RangeByScore(z, At(start), PosInf, 0, limit))
  {
    DrawnKeepsSanitised(z, RangeByScore(z, At(start), PosInf, 0, limit));
  }

  /** Entries all drawn from a set of sanitised members hold sanitised keys. */
  lemma DrawnKeepsSanitised(z: ZSet, r: ZSet)
    requires SanitisedMembers(z) && forall e :: e in r ==> e in z
    ensures SanitisedMembers(r)
  {
    forall i | 0 <= i < |r| ensures IsKey(r[i].member) {
      assert r[i] in r;
      var j :| 0 <= j < |z| && z[j] == r[i];
    }
  }

  /** Every write of the class keeps a set of sanitised members one: set()
      and increment() write sanitised keys only, and remove() and clear()
      only delete. */
  lemma WritesKeepSanitised(z: ZSet, u: string, score: real, delta: real, min: Bound, max: Bound)
    requires SanitisedMembers(z) && IsKey(u)
    ensures SanitisedMembers(Add(z, u, score))
    ensures SanitisedMembers(IncrBy(z, u, delta).1)
    ensures SanitisedMembers(SortedSet.Remove(z, u))
    ensures SanitisedMembers(RemoveRangeByScore(z, min, max))
  {
    forall s: real | true ensures SanitisedMembers(Add(z, u, s)) {
      var a := Add(z, u, s);
      forall i | 0 <= i < |a| ensures IsKey(a[i].member) {
        assert a[i] in a;
        if a[i] != Entry(u, s) {
          var j :| 0 <= j < |z| && z[j] == a[i];
        }
      }
    }
    DrawnKeepsSanitised(z, SortedSet.Remove(z, u));
    DrawnKeepsSanitised(z, RemoveRangeByScore(z, min, max));
  }

  /** Rows numbered consecutively from `first`, as both listings build them. */
  function Numbered(rows: ZSet, first: int): (r: seq<RankedEntry>)
    ensures |r| == |rows|
    ensures forall i :: 0 <= i < |rows| ==> r[i] == RankedEntry(rows[i].member, rows[i].score, first + i)
  {
    seq(|rows|, i requires 0 <= i < |rows| => RankedEntry(rows[i].member, rows[i].score, first + i))
  }

  /** The score listing holds at most `limit` rows (any number when `limit`
      is negative), each scoring at least `start`, whatever it is numbered from. */
  lemma ScoreListingScores(z: ZSet, start: real, limit: int, first: int)
    ensures var listing := Numbered(RangeByScore(z, At(start), PosInf, 0, limit), first);
      && (limit >= 0 ==> |listing| <= limit)
      && forall i :: 0 <= i < |listing| ==> start <= listing[i].score
  {
    var rows := RangeByScore(z, At(start), PosInf, 0, limit);
    forall i | 0 <= i < |rows| ensures start <= rows[i].score {
      assert rows[i] in rows;
    }
  }

  /** Numbered from CountBelow(z, start) + 1, every row of the score listing
      carries its entry's 1-based rank in the set. */
  lemma ScoreListingTrueRanks(z: ZSet, start: real, limit: int)
    requires SortedSet.Valid(z)
    ensures var listing := Numbered(RangeByScore(z, At(start), PosInf, 0, limit), CountBelow(z, start) + 1);
      forall i :: 0 <= i < |listing| ==> Position(z, listing[i].userId) == Some(listing[i].rank - 1)
  {
    ScoreListingPositions(z, start, limit);
    NumberedAtPositions(z, RangeByScore(z, At(start), PosInf, 0, limit), CountBelow(z, start));
  }

  /** Rows found at consecutive positions from `k` on, numbered from `k + 1`,
      each carry their 1-based rank. */
  lemma NumberedAtPositions(z: ZSet, rows: ZSet, k: nat)
    requires forall i :: 0 <= i < |rows| ==> Position(z, rows[i].member) == Some(k + i)
    ensures var listing := Numbered(rows, k + 1);
      forall i :: 0 <= i < |listing| ==> Position(z, listing[i].userId) == Some(listing[i].rank - 1)
  {
    var listing := Numbered(rows, k + 1);
    forall i | 0 <= i < |listing| ensures Position(z, listing[i].userId) == Some(listing[i].rank - 1) {
      assert listing[i].userId == rows[i].member && listing[i].rank - 1 == k + i;
    }
  }

  /** For 1-based `start` and `limit` of at least 1, the rank listing is the
      run of entries from zero-based position `start - 1` on, at most `limit`
      of them, numbered from 1. */
  lemma RankListingWindow(z: ZSet, start: int, limit: int)
    requires start >= 1 && limit >= 1
    ensures var listing := Numbered(Range(z, start - 1, (start - 1) + (limit - 1)), 1);
      && listing == Numbered(z[Min(start - 1, |z|)..Min(start - 1 + limit, |z|)], 1)
      && |listing| <= limit
  {
    RangeWindow(z, start - 1, limit);
  }

  /** With unique members, the entry in row `i` of the rank listing stands at
      zero-based position `start - 1 + i`: its true rank is `start + i`, while
      the row is numbered `i + 1`. */
  lemma RankListingPositions(z: ZSet, start: int, limit: int)
    requires Distinct(z) && start >= 1 && limit >= 1
    ensures var listing := Numbered(Range(z, start - 1, (start - 1) + (limit - 1)), 1);
      forall i :: 0 <= i < |listing| ==>
        && listing[i].rank == i + 1
        && Position(z, listing[i].userId) == Some(start - 1 + i)
  {
    var rows := Range(z, start - 1, (start - 1) + (limit - 1));
    RangeWindow(z, start - 1, limit);
    if start - 1 < |z| {
      PositionsOfWindow(z, start - 1, rows);
    }
  }

  /** ZRANGE 0 -1 is the whole set, so listByRank(1, 0) lists every entry. */
  lemma ZeroLimitListsAll(z: ZSet)
    ensures Range(z, 1 - 1, (1 - 1) + (0 - 1)) == z
  {
  }

  /** ZRANGE -1 -1 is the last entry, so listByRank(0, 1) lists the
      highest-scoring entry. */
  lemma ZeroStartListsLast(z: ZSet)
    requires z != []
    ensures Range(z, 0 - 1, (0 - 1) + (1 - 1)) == [z[|z| - 1]]
  {
  }

  /** listByRank(1, 2) on A scoring 12 and B scoring 34 lists both, ranked 1 and 2. */
  lemma ListByRankExample()
    ensures var z := [Entry("A", 12.0), Entry("B", 34.0)];
      Numbered(Range(z, 1 - 1, (1 - 1) + (2 - 1)), 1) == [RankedEntry("A", 12.0, 1), RankedEntry("B", 34.0, 2)]
  {
  }

  /** listByScore(12, 2) on the same set: both entries score at least 12,
      and numbered from rank() of A they are ranked 1 and 2. */
  lemma ListByScoreExample(z: ZSet)
    requires z == [Entry("A", 12.0), Entry("B", 34.0)]
    ensures var rows := RangeByScore(z, At(12.0), PosInf, 0, 2);
      && rows == z
      && Numbered(rows, 1) == [RankedEntry("A", 12.0, 1), RankedEntry("B", 34.0, 2)]
  {
    assert Numbered(z, 1) == [RankedEntry("A", 12.0, 1), RankedEntry("B", 34.0, 2)] by {
      assert Numbered(z, 1)[0] == RankedEntry("A", 12.0, 1);
      assert Numbered(z, 1)[1] == RankedEntry("B", 34.0, 2);
    }
    assert Keeps(ScoreIn(At(12.0), PosInf), z[0]) && Keeps(ScoreIn(At(12.0), PosInf), z[1]);
    WhereKeepsAll(z, ScoreIn(At(12.0), PosInf));
  }

  /** In the same example, A is at position 0, so rank() of A is 1. */
  lemma ListByScoreExampleFirstRank(z: ZSet)
    requires z == [Entry("A", 12.0), Entry("B", 34.0)]
    ensures RankOf(z, Str(z[0].member)) == Success(1)
  {
    assert IsKey(z[0].member);
  }

  /** The amount decrement() hands to increment(): `-1 * delta`. */
  function Negated(delta: real): real {
    -1.0 * delta
  }

  class Highscore {
    /** The Redis handle the leaderboard was given; it is shared, not owned. */
    const redis: Redis
    /** The sanitised namespace, the Redis key of the leaderboard. */
    const namespace: string

    /** The sanitising steps applied to a by-reference argument: coerce an
        integer to its decimal string, trim a string, reject anything that is
        not a non-empty string afterwards with `error`. */
    static method Sanitize(value: Value, error: Error) returns (r: Result<string, Error>)
      ensures Normalize(value).None? ==> r == Failure(error)
      ensures Normalize(value).Some? ==> r == Success(Normalize(value).value)
      ensures r.Success? ==> IsKey(r.value)
    {
      var v := value;
      if v.Int? {
        v := Str(IntToString(v.n));
      }
      assert v == Coerce(value);
      if v.Str? {
        v := Str(Trim(v.s));
      }
      assert v == TrimString(Coerce(value));
      if !v.Str? || |v.s| == 0 {
        return Failure(error);
      }
      return Success(v.s);
    }

    static method SanitizeNamespace(namespace: Value) returns (r: Result<string, Error>)
      ensures Normalize(namespace).None? ==> r == Failure(NamespaceError)
      ensures Normalize(namespace).Some? ==> r == Success(Normalize(namespace).value)
      ensures r.Success? ==> IsKey(r.value)
    {
      r := Sanitize(namespace, NamespaceError);
    }

    static method SanitizeUserId(userId: Value) returns (r: Result<string, Error>)
      ensures Normalize(userId).None? ==> r == Failure(UserIdError)
      ensures Normalize(userId).Some? ==> r == Success(Normalize(userId).value)
      ensures r.Success? ==> IsKey(r.value)
    {
      r := Sanitize(userId, UserIdError);
    }

    /** Stores the handle and a namespace that has already been sanitised. */
    constructor (redis: Redis, namespace: string)
      requires IsKey(namespace)
      ensures this.redis == redis && this.namespace == namespace
    {
      this.redis := redis;
      this.namespace := namespace;
    }

    /** `new Highscore($redis, $namespace)`: the sanitised namespace is stored
        for good, or InvalidArgumentException is raised and no object made. */
    static method Create(redis: Redis, namespace: Value) returns (r: Result<Highscore, Error>)
      ensures Normalize(namespace).None? ==> r == Failure(NamespaceError)
      ensures Normalize(namespace).Some? ==>
        && r.Success? && fresh(r.value) && IsKey(r.value.namespace)
        && r.value.redis == redis && r.value.namespace == Normalize(namespace).value
    {
      var sanitised :- SanitizeNamespace(namespace);
      var h := new Highscore(redis, sanitised);
      return Success(h);
    }

    /** get(): the user's score, or null when the user has none. */
    method Get(userId: Value) returns (r: Result<Option<real>, Error>)
      ensures Normalize(userId).None? ==> r == Failure(UserIdError)
      ensures Normalize(userId).Some? ==> r == Success(Score(redis.ZSetAt(namespace), Normalize(userId).value))
    {
      var u :- SanitizeUserId(userId);
      var score := redis.ZScore(namespace, u);
      return Success(score);
    }

    /** set(): writes the score, replacing any previous one, and answers the
        score it was given. */
    method Set(userId: Value, score: real) returns (r: Result<real, Error>)
      requires redis.Valid()
      modifies redis
      ensures redis.Valid()
      ensures Normalize(userId).None? ==> r == Failure(UserIdError) && redis.data == old(redis.data)
      ensures Normalize(userId).Some? ==>
        && r == Success(score)
        && redis.data == old(redis.data)[namespace := Add(old(redis.ZSetAt(namespace)), Normalize(userId).value, score)]
    {
      var u :- SanitizeUserId(userId);
      redis.ZAdd(namespace, score, u);
      return Success(score);
    }

    /** remove(): deletes the user's entry if there is one and answers the
        leaderboard itself, for chaining. */
    method Remove(userId: Value) returns (r: Result<Highscore, Error>)
      requires redis.Valid()
      modifies redis
      ensures redis.Valid()
      ensures Normalize(userId).None? ==> r == Failure(UserIdError) && redis.data == old(redis.data)
      ensures Normalize(userId).Some? ==>
        && r == Success(this)
        && redis.data == old(redis.data)[namespace := SortedSet.Remove(old(redis.ZSetAt(namespace)), Normalize(userId).value)]
    {
      var u :- SanitizeUserId(userId);
      redis.ZRem(namespace, u);
      return Success(this);
    }

    /** clear(): removes every entry of the namespace, scores -inf to +inf,
        and answers the leaderboard itself. */
    method Clear() returns (r: Highscore)
      requires redis.Valid()
      modifies redis
      ensures redis.Valid() && r == this
      ensures redis.data == old(redis.data)[namespace := []]
    {
      RemoveAllEmpties(redis.ZSetAt(namespace));
      redis.ZRemRangeByScore(namespace, NegInf, PosInf);
      return this;
    }

    /** increment(): adds `delta` to the user's score, starting from 0 for a
        user without one, and answers the new score. */
    method Increment(userId: Value, delta: real) returns (r: Result<real, Error>)
      requires redis.Valid()
      modifies redis
      ensures redis.Valid()
      ensures Normalize(userId).None? ==> r == Failure(UserIdError) && redis.data == old(redis.data)
      ensures Normalize(userId).Some? ==>
        var incremented := IncrBy(old(redis.ZSetAt(namespace)), Normalize(userId).value, delta);
        r == Success(incremented.0) && redis.data == old(redis.data)[namespace := incremented.1]
    {
      var u :- SanitizeUserId(userId);
      var updated := redis.ZIncrBy(namespace, delta, u);
      return Success(updated);
    }

    /** decrement(): exactly increment() by `-1 * delta`; the user id is
        sanitised here and once more by increment(). */
    method Decrement(userId: Value, delta: real) returns (r: Result<real, Error>)
      requires redis.Valid()
      modifies redis
      ensures redis.Valid()
      ensures Normalize(userId).None? ==> r == Failure(UserIdError) && redis.data == old(redis.data)
      ensures Normalize(userId).Some? ==>
        var incremented := IncrBy(old(redis.ZSetAt(namespace)), Normalize(userId).value, Negated(delta));
        r == Success(incremented.0) && redis.data == old(redis.data)[namespace := incremented.1]
    {
      var u :- SanitizeUserId(userId);
      NormalizeKeepsKeys(u);
      r := Increment(Str(u), Negated(delta));
    }

    /** count(): the number of entries in the namespace. */
    method Count() returns (n: nat)
      ensures n == |redis.ZSetAt(namespace)|
    {
      n := redis.ZCount(namespace, NegInf, PosInf);
      CountAll(redis.ZSetAt(namespace));
    }

    /** countByScore(): the number of users scoring from `min` to `max`, both
        inclusive. */
    method CountByScore(min: real, max: real) returns (n: nat)
      ensures n == SortedSet.Count(redis.ZSetAt(namespace), At(min), At(max))
      ensures redis.Valid() ==> n == |MembersIn(redis.ZSetAt(namespace), At(min), At(max))|
    {
      n := redis.ZCount(namespace, At(min), At(max));
      if redis.Valid() {
        CountIsMembers(redis.ZSetAt(namespace), At(min), At(max));
      }
    }

    /** rank(): the user's 1-based rank in ascending score order. */
    method Rank(userId: Value) returns (r: Result<int, Error>)
      ensures r == RankOf(redis.ZSetAt(namespace), userId)
      ensures r.Success? ==> 1 <= r.value
    {
      var u :- SanitizeUserId(userId);
      var zeroBasedRank := redis.ZRank(namespace, u);
      return Success(OneBased(zeroBasedRank));
    }

    /** The loop both listings share: row `i` becomes `{userId, score, first + i}`. */
    static method NumberRows(rows: ZSet, first: int) returns (result: seq<RankedEntry>)
      ensures result == Numbered(rows, first)
    {
      result := [];
      var offset := 0;
      while offset < |rows|
        invariant 0 <= offset <= |rows|
        invariant |result| == offset
        invariant forall i :: 0 <= i < offset ==> result[i] == RankedEntry(rows[i].member, rows[i].score, first + i)
      {
        result := result + [RankedEntry(rows[offset].member, rows[offset].score, first + offset)];
        offset := offset + 1;
      }
    }

    /**
      listByRank(): the entries at 1-based ranks `start` to
      `start + limit - 1`, asked of ZRANGE as the zero-based inclusive window
      `[start - 1, (start - 1) + (limit - 1)]`. Each row keeps the user id and
      score of its entry, and its `rank` is its position in the returned list
      counted from 1, not its rank in the whole leaderboard: the entry in row
      `i` stands at zero-based position `start - 1 + i` (RankListingWindow,
      RankListingPositions).
     */
    method ListByRank(start: int, limit: int) returns (result: seq<RankedEntry>)
      ensures result == Numbered(Range(redis.ZSetAt(namespace), start - 1, (start - 1) + (limit - 1)), 1)
      ensures start >= 1 && limit >= 1 ==> |result| <= limit
    {
      var first := start - 1;
      var span := limit - 1;
      var rows := redis.ZRange(namespace, first, first + span);
      result := NumberRows(rows, 1);
      if start >= 1 && limit >= 1 {
        RangeWindow(redis.ZSetAt(namespace), start - 1, limit);
      }
    }

    /**
      listByScore(): up to `limit` entries scoring at least `start`, in
      ascending order (all of them when `limit` is negative). The first row's
      rank is asked of rank() and each later row is numbered one more than
      the row before. With no row at all the code reads `$rows[0][0]` as null
      and rank(null) raises the user-id InvalidArgumentException. When the
      first row holds a sanitised key, as it does when every member was
      written through this class (WritesKeepSanitised, SanitisedRows), rank()
      of it is CountBelow(start) + 1 (ScoreListingFirstRank), so the listing
      carries true ranks (ScoreListingTrueRanks).
     */
    method ListByScore(start: real, limit: int) returns (r: Result<seq<RankedEntry>, Error>)
      ensures var z := redis.ZSetAt(namespace);
        var rows := RangeByScore(z, At(start), PosInf, 0, limit);
        var firstRank := RankOf(z, if rows == [] then Null else Str(rows[0].member));
        && (firstRank.Failure? ==> r == Failure(firstRank.error))
        && (firstRank.Success? ==> r == Success(Numbered(rows, firstRank.value)))
      ensures RangeByScore(redis.ZSetAt(namespace), At(start), PosInf, 0, limit) == [] ==> r == Failure(UserIdError)
      ensures r.Success? ==> |r.value| >= 1 && (limit >= 0 ==> |r.value| <= limit)
    {
      var rows := redis.ZRangeByScore(namespace, At(start), PosInf, 0, limit);
      var first := if rows == [] then Null else Str(rows[0].member);
      var firstRank :- Rank(first);
      var result := NumberRows(rows, firstRank);
      return Success(result);
    }
  }

  /** A client of the class: the score set() writes is the score get() reads. */
  method SetThenGet(h: Highscore, userId: Value, score: real) returns (read: Result<Option<real>, Error>)
    requires h.redis.Valid() && Normalize(userId).Some?
    modifies h.redis
    ensures read == Success(Some(score))
  {
    var written := h.Set(userId, score);
    ScoreAfterAdd(old(h.redis.ZSetAt(h.namespace)), Normalize(userId).value, score, Normalize(userId).value);
    read := h.Get(userId);
  }

  /** A client of the class: after increment() and decrement() by the same
      amount, get() reads the score the user started with (0 for a new user). */
  method IncrementThenDecrement(h: Highscore, userId: Value, delta: real) returns (read: Result<Option<real>, Error>)
    requires h.redis.Valid() && Normalize(userId).Some?
    modifies h.redis
    ensures var before := Score(old(h.redis.ZSetAt(h.namespace)), Normalize(userId).value);
      read == Success(Some(if before.Some? then before.value else 0.0))
  {
    var up := h.Increment(userId, delta);
    var down := h.Decrement(userId, delta);
    IncrByUndone(old(h.redis.ZSetAt(h.namespace)), Normalize(userId).value, delta, Negated(delta));
    read := h.Get(userId);
  }

  /** A client of the class: get() reads null right after remove(). */
  method RemoveThenGet(h: Highscore, userId: Value) returns (read: Result<Option<real>, Error>)
    requires h.redis.Valid() && Normalize(userId).Some?
    modifies h.redis
    ensures read == Success(None)
  {
    var removed := h.Remove(userId);
    ScoreAfterRemove(old(h.redis.ZSetAt(h.namespace)), Normalize(userId).value, Normalize(userId).value);
    read := h.Get(userId);
  }

  /** A client of the class: count() reads 0 right after clear(). */
  method ClearThenCount(h: Highscore) returns (n: nat)
    requires h.redis.Valid()
    modifies h.redis
    ensures n == 0
  {
    var same := h.Clear();
    n := h.Count();
  }
}
