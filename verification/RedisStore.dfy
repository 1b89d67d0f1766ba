/**
 The Redis counter store (backend/internal/rate-limiter/redis.go), and its
 agreement with the in-process one.

 A Redis server counts time in milliseconds. Whether a key can still be read in
 the very millisecond its expiry names is a property of the server, so it is a
 parameter (`lingers`) and the results cover both answers.
 */
module RedisStores {
  import opened Wrappers
  import opened BucketNames
  import opened Counters

  const MILLISECOND: int := 1_000_000

  datatype RedisKey = RedisKey(count: int, expireAt: Option<int>)

  type RedisKeys = map<string, RedisKey>

  predicate Gone(k: RedisKey, now: int, lingers: bool) {
    k.expireAt.Some? && (if lingers then now > k.expireAt.value else now >= k.expireAt.value)
  }

  /* ---- The three commands of the script ---------------------------------- */

  function IncrCommand(m: RedisKeys, name: string, now: int, lingers: bool): RedisKeys {
    var base := if name in m && !Gone(m[name], now, lingers) then m[name] else RedisKey(0, None);
    m[name := base.(count := base.count + 1)]
  }

  /** PEXPIRE deletes the key at once when asked for a life that is not positive. */
  function PExpireCommand(m: RedisKeys, name: string, life: int, now: int): RedisKeys {
    if name !in m then m
    else if life <= 0 then m - {name}
    else m[name := m[name].(expireAt := Some(now + life))]
  }

  /** PTTL: -2 without a key, -1 without an expiry, otherwise what is left. */
  function PTtlCommand(m: RedisKeys, name: string, now: int): int {
    if name !in m then -2
    else match m[name].expireAt
      case None => -1
      case Some(at) => if at - now < 0 then 0 else at - now
  }

  function ApplyRedis(m: RedisKeys, e: Event, lingers: bool): RedisKeys {
    match e
    case Clear(names) => m - names
    case Hit(name, window, at) =>
      var m1 := IncrCommand(m, name, at / MILLISECOND, lingers);
      if m1[name].count == 1 then PExpireCommand(m1, name, window / MILLISECOND, at / MILLISECOND) else m1
  }

  function ReplyFromRedis(m: RedisKeys, e: Event, lingers: bool): (int, Duration)
    requires e.Hit?
  {
    var count := IncrCommand(m, e.name, e.at / MILLISECOND, lingers)[e.name].count;
    var left := PTtlCommand(ApplyRedis(m, e, lingers), e.name, e.at / MILLISECOND);
    (count, if left < 0 then e.window else left * MILLISECOND)
  }

  function RunRedis(m: RedisKeys, h: seq<Event>, lingers: bool): RedisKeys {
    if h == [] then m else ApplyRedis(RunRedis(m, h[..|h| - 1], lingers), h[|h| - 1], lingers)
  }

  class RedisStore {
    var keys: RedisKeys
    var calls: nat
    const lingers: bool
    const faults: nat -> Fault

    constructor (lingers: bool, faults: nat -> Fault)
      ensures keys == map[] && calls == 0 && this.lingers == lingers && this.faults == faults
    {
      keys, calls := map[], 0;
      this.lingers, this.faults := lingers, faults;
    }

    /** INCR, PEXPIRE on the first hit, PTTL, with nothing in between. */
    method IncrScript(name: string, life: int, now: int) returns (count: int, left: int)
      modifies this`keys
      ensures count == IncrCommand(old(keys), name, now, lingers)[name].count
      ensures keys == (var m := IncrCommand(old(keys), name, now, lingers);
                       if count == 1 then PExpireCommand(m, name, life, now) else m)
      ensures left == PTtlCommand(keys, name, now)
    {
      keys := IncrCommand(keys, name, now, lingers);
      count := keys[name].count;
      if count == 1 {
        keys := PExpireCommand(keys, name, life, now);
      }
      left := PTtlCommand(keys, name, now);
    }

    method Incr(key: string, window: Duration, now: Time) returns (r: Option<(int, Duration)>)
      modifies this`keys, this`calls
      ensures calls == old(calls) + 1
      ensures match faults(old(calls))
              case RequestLost => r == None && keys == old(keys)
              case ReplyLost => r == None && keys == ApplyRedis(old(keys), Hit(key, window, now), lingers)
              case Answered => r == Some(ReplyFromRedis(old(keys), Hit(key, window, now), lingers)) &&
                               keys == ApplyRedis(old(keys), Hit(key, window, now), lingers)
    {
      var fault := faults(calls);
      calls := calls + 1;
      if fault == RequestLost {
        return None;
      }
      var count, left := IncrScript(key, window / MILLISECOND, now / MILLISECOND);
      if fault == ReplyLost {
        return None;
      }
      var ttl := left * MILLISECOND;
      if left < 0 {
        ttl := window;
      }
      r := Some((count, ttl));
    }

    method Del(names: seq<string>) returns (ok: bool)
      modifies this`keys, this`calls
      ensures names == [] ==> ok && keys == old(keys) && calls == old(calls)
      ensures names != [] ==>
                && calls == old(calls) + 1
                && ok == faults(old(calls)).Answered?
                && keys == (if faults(old(calls)).RequestLost? then old(keys)
                            else ApplyRedis(old(keys), Clear(set n | n in names), lingers))
    {
      if names == [] {
        return true;
      }
      var fault := faults(calls);
      calls := calls + 1;
      if fault != RequestLost {
        keys := keys - set n | n in names;
      }
      ok := fault == Answered;
    }
  }

  /* ---- No key without an expiry ------------------------------------------ */

  /** However hits and clears are mixed, no key is ever left without an expiry. */
  lemma {:induction false} EveryKeyExpires(h: seq<Event>, lingers: bool, k: string)
    requires k in RunRedis(map[], h, lingers)
    ensures RunRedis(map[], h, lingers)[k].expireAt.Some?
    ensures RunRedis(map[], h, lingers)[k].count >= 1
  {
    var p, e := h[..|h| - 1], h[|h| - 1];
    if k in RunRedis(map[], p, lingers) {
      EveryKeyExpires(p, lingers, k);
    }
  }

  /* ---- Agreement with memory --------------------------------------------- */

  predicate WholeMillis(e: Event) {
    e.Hit? ==> e.at % MILLISECOND == 0 && e.window % MILLISECOND == 0 && e.window > 0
  }

  /** The Redis key a live or dead memory bucket corresponds to. */
  function Mirror(m: Buckets): RedisKeys {
    map k | k in m :: RedisKey(m[k].count, Some(m[k].expiresAt / MILLISECOND))
  }

  /** The event is not a hit in the instant its bucket expires. */
  ghost predicate OffExpiry(h: seq<Event>, e: Event) {
    e.Hit? && e.name in RunUnswept(map[], h) ==> RunUnswept(map[], h)[e.name].expiresAt != e.at
  }

  lemma {:induction false} BucketsInMillis(h: seq<Event>, k: string)
    requires forall i | 0 <= i < |h| :: WholeMillis(h[i])
    requires k in RunUnswept(map[], h)
    ensures RunUnswept(map[], h)[k].expiresAt % MILLISECOND == 0 && RunUnswept(map[], h)[k].count >= 1
  {
    var p, e := h[..|h| - 1], h[|h| - 1];
    assert WholeMillis(e);
    if k in RunUnswept(map[], p) {
      BucketsInMillis(p, k);
    }
  }

  lemma Millis(a: int, b: int)
    requires a % MILLISECOND == 0 && b % MILLISECOND == 0
    ensures a / MILLISECOND < b / MILLISECOND <==> a < b
    ensures (a + b) / MILLISECOND == a / MILLISECOND + b / MILLISECOND
    ensures (a + b) % MILLISECOND == 0
    ensures (a / MILLISECOND - b / MILLISECOND) * MILLISECOND == a - b
  {
  }

  lemma MirroredHit(m: Buckets, e: Event, lingers: bool)
    requires e.Hit? && WholeMillis(e) && e.window / MILLISECOND > 0
    requires (e.at + e.window) / MILLISECOND == e.at / MILLISECOND + e.window / MILLISECOND
    requires (e.window / MILLISECOND) * MILLISECOND == e.window
    requires e.name in m ==>
               && m[e.name].count >= 1
               && (m[e.name].expiresAt > e.at <==> !Gone(Mirror(m)[e.name], e.at / MILLISECOND, lingers))
               && (m[e.name].expiresAt / MILLISECOND - e.at / MILLISECOND) * MILLISECOND == m[e.name].expiresAt - e.at
    ensures ApplyRedis(Mirror(m), e, lingers) == Mirror(ApplyUnswept(m, e))
    ensures ReplyFromRedis(Mirror(m), e, lingers) == (var r := ReplyTo(m, e); (r.count, r.ttl))
  {
    var now, life := e.at / MILLISECOND, e.window / MILLISECOND;
    var m1 := IncrCommand(Mirror(m), e.name, now, lingers);
    var r := ApplyRedis(Mirror(m), e, lingers);
    if e.name in m && m[e.name].expiresAt > e.at {
      assert r[e.name] == RedisKey(m[e.name].count + 1, Some(m[e.name].expiresAt / MILLISECOND));
    } else {
      assert m1[e.name].count == 1;
      assert r[e.name] == RedisKey(1, Some(now + life));
    }
    assert ApplyUnswept(m, e)[e.name] == Bumped(Current(m, e.name, e.window, e.at));
  }

  /** One hit on a mirrored store: same reply, and the stores stay mirrored. */
  lemma MirroredStep(h: seq<Event>, e: Event, lingers: bool)
    requires forall i | 0 <= i < |h| :: WholeMillis(h[i])
    requires WholeMillis(e) && (lingers ==> OffExpiry(h, e))
    ensures ApplyRedis(Mirror(RunUnswept(map[], h)), e, lingers) == Mirror(ApplyUnswept(RunUnswept(map[], h), e))
    ensures e.Hit? ==> ReplyFromRedis(Mirror(RunUnswept(map[], h)), e, lingers) ==
                       (var r := ReplyTo(RunUnswept(map[], h), e); (r.count, r.ttl))
  {
    var m := RunUnswept(map[], h);
    if e.Hit? {
      Millis(e.at, e.window);
      Millis(0, e.window);
      Millis(e.at + e.window, e.at);
      if e.name in m {
        BucketsInMillis(h, e.name);
        Millis(e.at, m[e.name].expiresAt);
        Millis(m[e.name].expiresAt, e.at);
      }
      MirroredHit(m, e, lingers);
    }
  }

  lemma {:induction false} RedisMirrorsMemory(h: seq<Event>, lingers: bool)
    requires forall i | 0 <= i < |h| :: WholeMillis(h[i])
    requires lingers ==> forall i | 0 <= i < |h| :: OffExpiry(h[..i], h[i])
    ensures RunRedis(map[], h, lingers) == Mirror(RunUnswept(map[], h))
  {
    if h != [] {
      var p, e := h[..|h| - 1], h[|h| - 1];
      assert forall i | 0 <= i < |p| :: p[..i] == h[..i] && p[i] == h[i];
      RedisMirrorsMemory(p, lingers);
      assert OffExpiry(h[..|p|], h[|p|]) == OffExpiry(p, e);
      MirroredStep(p, e, lingers);
    }
  }

  /** Both stores give the hit `e` the same count and the same life. */
  ghost predicate AnsweredAlike(h: seq<Event>, e: Event, lingers: bool)
    requires e.Hit?
  {
    ReplyFromRedis(RunRedis(map[], h, lingers), e, lingers) ==
    (var r := ReplyTo(Run(map[], h), e); (r.count, r.ttl))
  }

  /**
   On a shared millisecond clock, after a history in which no hit landed on its bucket's expiry,
   the two stores answer the next hit alike exactly when it does not either, or when keys cannot
   be read in the millisecond of their expiry.
   */
  lemma StoresAgree(h: seq<Event>, e: Event, lingers: bool)
    requires e.Hit? && WholeMillis(e) && Ordered(h, e.at)
    requires forall i | 0 <= i < |h| :: WholeMillis(h[i])
    requires lingers ==> forall i | 0 <= i < |h| :: OffExpiry(h[..i], h[i])
    ensures AnsweredAlike(h, e, lingers) <==> (lingers ==> OffExpiry(h, e))
  {
    RedisMirrorsMemory(h, lingers);
    SweepIsInvisible(h, e);
    if lingers && !OffExpiry(h, e) {
      BucketsInMillis(h, e.name);
      CountedOn(RunUnswept(map[], h), e);
    } else {
      MirroredStep(h, e, lingers);
    }
  }

  /** At its expiry a lingering key counts on, while memory starts again. */
  lemma CountedOn(m: Buckets, e: Event)
    requires e.Hit? && e.name in m && m[e.name].expiresAt == e.at && m[e.name].count >= 1
    ensures ReplyTo(m, e).count == 1
    ensures ReplyFromRedis(Mirror(m), e, true).0 == m[e.name].count + 1
  {
  }

  /**
   For every ordered whole-millisecond history: a server that still serves a key in the
   millisecond of its expiry answers every hit as memory does exactly when no hit lands in the
   expiry of its bucket.
   */
  lemma {:induction false} HistoriesAgree(h: seq<Event>, now: Time)
    requires Ordered(h, now) && forall i | 0 <= i < |h| :: WholeMillis(h[i])
    ensures (forall i | 0 <= i < |h| && h[i].Hit? :: AnsweredAlike(h[..i], h[i], true))
       <==> (forall i | 0 <= i < |h| :: OffExpiry(h[..i], h[i]))
  {
    hide AnsweredAlike, OffExpiry, Ordered;
    if h != [] {
      var n := |h| - 1;
      var p := h[..n];
      OrderedPrefix(h, now, n);
      HistoriesAgree(p, now);
      forall i | 0 <= i < n
        ensures p[..i] == h[..i] && p[i] == h[i]
      {
      }
      ClearsAreOff(p, h[n]);
      if h[n].Hit? && forall i | 0 <= i < n :: OffExpiry(p[..i], p[i]) {
        StoresAgree(p, h[n], true);
      }
    }
  }

  lemma ClearsAreOff(h: seq<Event>, e: Event)
    ensures e.Clear? ==> OffExpiry(h, e)
  {
  }

  /** An instance: a second hit one window after the first is answered differently. */
  lemma LingeringStoresDisagree()
    ensures var first, second := Hit("k", SECOND, 0), Hit("k", SECOND, SECOND);
            && ReplyTo(Run(map[], [first]), second).count == 1
            && ReplyFromRedis(RunRedis(map[], [first], true), second, true).0 == 2
  {
    var first, second := Hit("k", SECOND, 0), Hit("k", SECOND, SECOND);
    assert [first][..0] == [];
    assert Run(map[], [first]) == Apply(Run(map[], []), first);
    assert RunRedis(map[], [first], true) == ApplyRedis(RunRedis(map[], [], true), first, true);
  }

  /** A window under a millisecond: the key is deleted at once and each hit is told one of a full window. */
  lemma ShortWindowsCountOne(m: RedisKeys, name: string, window: Duration, at: Time, lingers: bool)
    requires 0 <= window < MILLISECOND
    requires name in m ==> Gone(m[name], at / MILLISECOND, lingers)
    ensures var e := Hit(name, window, at);
            ReplyFromRedis(m, e, lingers) == (1, window) && name !in ApplyRedis(m, e, lingers)
  {
  }
}
