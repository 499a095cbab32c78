/**
 * The Redis database the memory manager talks to, reduced to the three
 * sorted-set commands it uses: ZADD, ZRANGE ... BYSCORE and EXISTS. Every
 * key holds one non-empty sorted set (Redis deletes a sorted set that
 * becomes empty, and these commands never empty one).
 */
module Redis {

  import opened SortedSet

  type Db = map<string, seq<Entry>>

  /** The sorted set at `key`; a missing key reads as an empty set. */
  function Lookup(db: Db, key: string): seq<Entry>
  {
    if key in db then db[key] else []
  }

  class RedisStore {

    var data: Db

    ghost predicate Valid()
      reads this
    {
      forall k :: k in data ==> WellFormed(data[k]) && data[k] != []
    }

    constructor ()
      ensures Valid() && data == map[]
    {
      data := map[];
    }

    /** ZADD key score member; the reply is the number of members added. */
    method ZAdd(key: string, score: int, member: string) returns (added: nat)
      requires Valid()
      modifies this
      ensures Valid()
      ensures data == old(data)[key := SortedSet.ZAdd(Lookup(old(data), key), member, score)]
      ensures added == if member in Scores(Lookup(old(data), key)) then 0 else 1
      ensures |Lookup(data, key)| == |Lookup(old(data), key)| + added
    {
      var z := Lookup(data, key);
      ZAddWellFormed(z, member, score);
      ZAddSize(z, member, score);
      added := if member in Scores(z) then 0 else 1;
      data := data[key := SortedSet.ZAdd(z, member, score)];
    }

    /** ZRANGE key lo hi BYSCORE. */
    method ZRangeByScore(key: string, lo: int, hi: int) returns (members: seq<string>)
      requires Valid()
      ensures members == RangeByScore(Lookup(data, key), lo, hi)
      ensures IsScoreRange(Scores(Lookup(data, key)), lo, hi, members)
    {
      RangeByScoreSpec(Lookup(data, key), lo, hi);
      members := RangeByScore(Lookup(data, key), lo, hi);
    }

    /** EXISTS key. */
    method Exists(key: string) returns (found: bool)
      requires Valid()
      ensures found <==> key in data
      ensures found <==> Lookup(data, key) != []
    {
      found := key in data;
    }
  }
}
