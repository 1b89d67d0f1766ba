/** The in-process counter store (backend/internal/rate-limiter/memory.go). */
module MemoryStores {
  import opened BucketNames
  import opened Counters

  class MemoryBucket {
    var count: nat
    var expiresAt: Time

    constructor (expiresAt: Time)
      ensures count == 0 && this.expiresAt == expiresAt
    {
      this.count := 0;
      this.expiresAt := expiresAt;
    }
  }

  class MemoryStore {
    var buckets: map<string, MemoryBucket>

    /** Every bucket object this store has held. */
    ghost var owned: set<MemoryBucket>

    /** No two names share a bucket object, so counting one never counts another. */
    ghost predicate Valid()
      reads this
    {
      && (forall k | k in buckets :: buckets[k] in owned)
      && forall j, k | j in buckets && k in buckets && buckets[j] == buckets[k] :: j == k
    }

    ghost function Contents(): Buckets
      reads this, buckets.Values
    {
      map k | k in buckets :: Bucket(buckets[k].count, buckets[k].expiresAt)
    }

    constructor ()
      ensures Valid() && Contents() == map[] && owned == {}
    {
      buckets, owned := map[], {};
    }

    /** Drops expired buckets one by one. */
    method Sweep(now: Time)
      requires Valid()
      modifies this
      ensures Valid() && Contents() == Swept(old(Contents()), now)
      ensures owned == old(owned)
    {
      var names := buckets.Keys;
      while names != {}
        invariant names <= old(buckets.Keys) && owned == old(owned)
        invariant forall k :: k in buckets <==>
                    k in old(buckets) && (k in names || old(buckets[k].expiresAt) > now)
        invariant forall k | k in buckets :: buckets[k] == old(buckets)[k]
        decreases |names|
      {
        var k :| k in names;
        names := names - {k};
        if buckets[k].expiresAt <= now {
          buckets := buckets - {k};
        }
      }
    }

    /** The live bucket for `key`, created when there is none. Called on a swept store. */
    method Open(key: string, window: Duration, now: Time) returns (bucket: MemoryBucket)
      requires Valid() && Swept(Contents(), now) == Contents()
      modifies this
      ensures Valid() && key in buckets && buckets[key] == bucket
      ensures Bucket(bucket.count, bucket.expiresAt) == Current(old(Contents()), key, window, now)
      ensures Contents() == old(Contents())[key := Current(old(Contents()), key, window, now)]
      ensures fresh(owned - old(owned))
    {
      if key !in buckets || buckets[key].expiresAt <= now {
        assert key !in Swept(Contents(), now);
        bucket := new MemoryBucket(now + window);
        buckets := buckets[key := bucket];
        owned := owned + {bucket};
      } else {
        bucket := buckets[key];
      }
    }

    /** Counts one hit in place; no other name's bucket is touched. */
    method Count(key: string)
      requires Valid() && key in buckets
      modifies buckets[key]
      ensures Valid() && Contents() == old(Contents())[key := Bumped(old(Contents())[key])]
    {
      buckets[key].count := buckets[key].count + 1;
    }

    method Incr(key: string, window: Duration, now: Time) returns (reply: Reply)
      requires Valid()
      modifies this, owned
      ensures Valid() && fresh(owned - old(owned))
      ensures Contents() == Apply(old(Contents()), Hit(key, window, now))
      ensures reply == ReplyTo(old(Contents()), Hit(key, window, now))
    {
      ghost var before := Contents();
      Sweep(now);
      SweptTwice(before, key, window, now);
      var bucket := Open(key, window, now);
      Count(key);
      reply := Reply(bucket.count, bucket.expiresAt - now);
    }

    static lemma SweptTwice(m: Buckets, key: string, window: Duration, now: Time)
      ensures Swept(Swept(m, now), now) == Swept(m, now)
      ensures Current(Swept(m, now), key, window, now) == Current(m, key, window, now)
    {
    }

    method Del(keys: seq<string>)
      requires Valid()
      modifies this
      ensures Valid() && Contents() == Apply(old(Contents()), Clear(set k | k in keys))
      ensures owned == old(owned)
    {
      for i := 0 to |keys|
        invariant owned == old(owned)
        invariant forall k :: k in buckets <==> k in old(buckets) && k !in keys[..i]
        invariant forall k | k in buckets :: buckets[k] == old(buckets)[k]
      {
        buckets := buckets - {keys[i]};
      }
      assert keys[..|keys|] == keys;
    }
  }
}
