/**
  The Redis connection handle the Highscore class is given, reduced to the
  sorted sets it stores under each key and the sorted-set commands the class
  sends. Each command reads or replaces the set under one key and leaves
  every other key alone.
 */
module RedisModel {
  import opened Wrappers
  import opened SortedSet

  class Redis {
    /** The sorted set stored under each key. */
    var data: map<string, ZSet>

    /** Every stored set is in ascending score order with unique members. */
    ghost predicate Valid()
      reads this
    {
      forall key :: key in data ==> SortedSet.Valid(data[key])
    }

    /** The set under `key`; a key that was never written reads as empty. */
    function ZSetAt(key: string): ZSet
      reads this
    {
      if key in data then data[key] else []
    }

    constructor ()
      ensures Valid() && data == map[]
    {
      data := map[];
    }

    /** ZSCORE key member */
    method ZScore(key: string, member: string) returns (score: Option<real>)
      ensures score == Score(ZSetAt(key), member)
    {
      score := Score(ZSetAt(key), member);
    }

    /** ZADD key score member */
    method ZAdd(key: string, score: real, member: string)
      requires Valid()
      modifies this
      ensures Valid()
      ensures data == old(data)[key := Add(old(ZSetAt(key)), member, score)]
    {
      AddValid(ZSetAt(key), member, score);
      data := data[key := Add(ZSetAt(key), member, score)];
    }

    /** ZREM key member */
    method ZRem(key: string, member: string)
      requires Valid()
      modifies this
      ensures Valid()
      ensures data == old(data)[key := Remove(old(ZSetAt(key)), member)]
    {
      WhereSorted(ZSetAt(key), OtherThan(member));
      WhereDistinct(ZSetAt(key), OtherThan(member));
      data := data[key := Remove(ZSetAt(key), member)];
    }

    /** ZREMRANGEBYSCORE key min max */
    method ZRemRangeByScore(key: string, min: Bound, max: Bound)
      requires Valid()
      modifies this
      ensures Valid()
      ensures data == old(data)[key := RemoveRangeByScore(old(ZSetAt(key)), min, max)]
    {
      WhereSorted(ZSetAt(key), ScoreOutside(min, max));
      WhereDistinct(ZSetAt(key), ScoreOutside(min, max));
      data := data[key := RemoveRangeByScore(ZSetAt(key), min, max)];
    }

    /** ZINCRBY key delta member: answers the new score. */
    method ZIncrBy(key: string, delta: real, member: string) returns (score: real)
      requires Valid()
      modifies this
      ensures Valid()
      ensures (score, ZSetAt(key)) == IncrBy(old(ZSetAt(key)), member, delta)
      ensures data == old(data)[key := IncrBy(old(ZSetAt(key)), member, delta).1]
    {
      var (updated, z) := IncrBy(ZSetAt(key), member, delta);
      IncrByScore(ZSetAt(key), member, delta, member);
      data := data[key := z];
      score := updated;
    }

    /** ZCOUNT key min max */
    method ZCount(key: string, min: Bound, max: Bound) returns (n: nat)
      ensures n == Count(ZSetAt(key), min, max)
    {
      n := Count(ZSetAt(key), min, max);
    }

    /** ZRANK key member */
    method ZRank(key: string, member: string) returns (rank: Option<nat>)
      ensures rank == Position(ZSetAt(key), member)
    {
      rank := Position(ZSetAt(key), member);
    }

    /** ZRANGE key start stop WITHSCORES */
    method ZRange(key: string, start: int, stop: int) returns (rows: ZSet)
      ensures rows == Range(ZSetAt(key), start, stop)
    {
      rows := Range(ZSetAt(key), start, stop);
    }

    /** ZRANGEBYSCORE key min max WITHSCORES LIMIT offset count */
    method ZRangeByScore(key: string, min: Bound, max: Bound, offset: nat, count: int) returns (rows: ZSet)
      ensures rows == RangeByScore(ZSetAt(key), min, max, offset, count)
    {
      rows := RangeByScore(ZSetAt(key), min, max, offset, count);
    }
  }
}
