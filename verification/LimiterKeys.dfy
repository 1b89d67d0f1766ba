/**
 Keys do not disturb each other: what a call is told depends on the calls that share a key with
 it and on no others (backend/internal/rate-limiter/limiter.go, bucket and Allow).
 */
module LimiterKeys {
  import opened Wrappers
  import opened BucketNames
  import opened Counters
  import opened Limiters
  import opened LimiterRuns
  import opened LimiterBounds
  import opened LimiterOrder
  import opened RedisStores

  /** The first 128 bits of the digests tell the values apart. */
  predicate ToldApart(sha: Digest, a: Key, b: Key) {
    sha(a.value)[..16] == sha(b.value)[..16] ==> a.value == b.value
  }

  /** They do so for every key of the run against every key of the call. */
  predicate AllToldApart(sha: Digest, calls: seq<Call>, keys: seq<Key>) {
    forall i, k, l | 0 <= i < |calls| && k in calls[i].keys && l in keys :: ToldApart(sha, k, l)
  }

  predicate SharesAKey(call: Call, keys: seq<Key>) {
    exists k | k in call.keys :: k in keys
  }

  /** The run without the calls that share no key with `keys`. */
  function Sharing(calls: seq<Call>, keys: seq<Key>): seq<Call> {
    if calls == [] then [] else
      Sharing(calls[..|calls| - 1], keys) +
      (if SharesAKey(calls[|calls| - 1], keys) then [calls[|calls| - 1]] else [])
  }

  /** A call of other keys touches none of the counters. */
  lemma OthersMatchNothing(cfg: Config, call: Call, keys: seq<Key>, c: Charge)
    requires c.key in keys && !SharesAKey(call, keys)
    requires forall k, l | k in call.keys && l in keys :: ToldApart(cfg.sha, k, l)
    ensures Matching(cfg.sha, Charges(cfg.policy, call.keys), c) == 0
  {
    hide ChargesTo, RulesFor;
    var cs := Charges(cfg.policy, call.keys);
    MatchingMember(cfg.sha, cs, c);
    forall d | d in cs
      ensures !SameCounter(cfg.sha, d, c)
    {
      ChargesMembers(cfg.policy, call.keys, d);
      assert d.key in call.keys && c.key in keys;
      assert ToldApart(cfg.sha, d.key, c.key);
      assert d.key != c.key;
    }
  }

  lemma {:induction false} SharingIsGood(cfg: Config, calls: seq<Call>, keys: seq<Key>, now: Time)
    requires GoodRun(cfg, calls, now)
    ensures GoodRun(cfg, Sharing(calls, keys), now)
    ensures forall t | GoodRun(cfg, calls, t) :: GoodRun(cfg, Sharing(calls, keys), t)
    decreases |calls|
  {
    hide SharesAKey, GoodKeys;
    if calls != [] {
      var n := |calls| - 1;
      GoodRunPrefix(cfg, calls, now, n);
      SharingIsGood(cfg, calls[..n], keys, now);
      assert GoodRun(cfg, Sharing(calls[..n], keys), calls[n].now);
      assert forall i | 0 <= i < |Sharing(calls[..n], keys)| :: Sharing(calls[..n], keys)[i].now <= calls[n].now;
    }
  }

  lemma ToldApartInPrefix(sha: Digest, calls: seq<Call>, keys: seq<Key>, n: nat)
    requires n < |calls| && AllToldApart(sha, calls, keys)
    ensures AllToldApart(sha, calls[..n], keys)
    ensures forall k, l | k in calls[n].keys && l in keys :: ToldApart(sha, k, l)
  {
    hide ToldApart;
    assert forall i | 0 <= i < n :: calls[..n][i] == calls[i];
  }

  /** One spending, begun at one time. */
  predicate SameSpending(cfg: Config, calls: seq<Call>, calls': seq<Call>, c: Charge, now: Time) {
    && Spent(cfg, calls', c, now) == Spent(cfg, calls, c, now)
    && (Spent(cfg, calls, c, now) > 0 ==> FirstSpent(cfg, calls', c, now) == FirstSpent(cfg, calls, c, now))
  }

  lemma OneMoreCall(cfg: Config, calls: seq<Call>, calls': seq<Call>, call: Call, c: Charge, now: Time)
    requires SameSpending(cfg, calls, calls', c, now)
    ensures SameSpending(cfg, calls + [call], calls' + [call], c, now)
  {
    hide Matching, InWindow, ChargesTo;
    assert (calls + [call])[..|calls|] == calls && (calls' + [call])[..|calls'|] == calls';
  }

  lemma OneCallOfOthers(cfg: Config, calls: seq<Call>, call: Call, c: Charge, now: Time)
    requires Matching(cfg.sha, Charges(cfg.policy, call.keys), c) == 0
    ensures SameSpending(cfg, calls, calls + [call], c, now)
  {
    hide Matching, InWindow, ChargesTo;
    assert (calls + [call])[..|calls|] == calls;
  }

  lemma SpendingIsTransitive(cfg: Config, a: seq<Call>, b: seq<Call>, d: seq<Call>, c: Charge, now: Time)
    requires SameSpending(cfg, a, b, c, now) && SameSpending(cfg, a, d, c, now)
    ensures SameSpending(cfg, b, d, c, now)
  {
    hide Spent, FirstSpent;
  }

  /** What the counter of `c` has been charged, and when first, is the same without the other calls. */
  lemma {:induction false} SharingSpends(cfg: Config, calls: seq<Call>, keys: seq<Key>, c: Charge, now: Time)
    requires c.key in keys && AllToldApart(cfg.sha, calls, keys)
    ensures SameSpending(cfg, calls, Sharing(calls, keys), c, now)
    decreases |calls|
  {
    if calls == [] {
      hide SharesAKey;
      assert SameSpending(cfg, [], [], c, now);
    } else {
      hide SharesAKey, Matching, ToldApart, AllToldApart, SameSpending, ChargesTo;
      var n := |calls| - 1;
      var p, call := calls[..n], calls[n];
      ToldApartInPrefix(cfg.sha, calls, keys, n);
      SharingSpends(cfg, p, keys, c, now);
      var s := Sharing(p, keys);
      assert calls == p + [call];
      if SharesAKey(call, keys) {
        OneMoreCall(cfg, p, s, call, c, now);
      } else {
        assert s + [] == s;
        OthersMatchNothing(cfg, call, keys, c);
        OneCallOfOthers(cfg, p, call, c, now);
        SpendingIsTransitive(cfg, p, calls, s, c, now);
      }
    }
  }

  /** Both runs bring the call's i-th bucket to one count, with one remaining life. */
  lemma SameCountAndLife(cfg: Config, calls: seq<Call>, keys: seq<Key>, now: Time, i: nat)
    requires GoodRun(cfg, calls, now) && GoodKeys(keys) && AllToldApart(cfg.sha, calls, keys)
    requires i < |Charges(cfg.policy, keys)|
    ensures var h := Hits(cfg.sha, Charges(cfg.policy, keys), now);
            var m, m' := Run(map[], History(cfg, calls)), Run(map[], History(cfg, Sharing(calls, keys)));
            CountAt(m, h, i) == CountAt(m', h, i) && TtlAt(m, h, i) == TtlAt(m', h, i)
  {
    hide BucketName, Run, ReplyTo, ChargesTo, Spent, FirstSpent, AllToldApart, GoodRun, Sharing, History, Hits, CountAt, TtlAt, Matching, GoodKeys;
    var c := Charges(cfg.policy, keys)[i];
    var rest := Sharing(calls, keys);
    SharingIsGood(cfg, calls, keys, now);
    ChargesMembers(cfg.policy, keys, c);
    SharingSpends(cfg, calls, keys, c, now);
    ReplyToCharge(cfg, calls, keys, now, i);
    ReplyToCharge(cfg, rest, keys, now, i);
    LifeFromFirstCharge(cfg, calls, keys, now, i);
    LifeFromFirstCharge(cfg, rest, keys, now, i);
  }

  lemma SameReply(m: Buckets, m': Buckets, h: seq<Event>, i: nat)
    requires i < |h| && AllHits(h)
    requires CountAt(m, h, i) == CountAt(m', h, i) && TtlAt(m, h, i) == TtlAt(m', h, i)
    ensures Answer(ServeAll(InMemory(m), h[..i]), h[i]) == Answer(ServeAll(InMemory(m'), h[..i]), h[i])
  {
    hide Run, ReplyTo;
    ServeInMemory(m, h[..i]);
    ServeInMemory(m', h[..i]);
  }

  /**
   Where the first 128 bits of the digest tell key values apart, a call is told what it would be
   told if every call sharing no key with it had not been made: the same verdict and the same wait.
   */
  lemma OtherKeysDoNotMatter(cfg: Config, calls: seq<Call>, keys: seq<Key>, now: Time)
    requires GoodRun(cfg, calls, now) && GoodKeys(keys) && AllToldApart(cfg.sha, calls, keys)
    ensures DecisionOn(cfg, calls, keys, now) == DecisionOn(cfg, Sharing(calls, keys), keys, now)
  {
    hide BucketName, Run, Verdict, ChargesTo, Answer, ServeAll, AllToldApart, GoodRun, Sharing;
    var cs := Charges(cfg.policy, keys);
    var h := Hits(cfg.sha, cs, now);
    var a, b := InMemory(Run(map[], History(cfg, calls))), InMemory(Run(map[], History(cfg, Sharing(calls, keys))));
    forall i | 0 <= i < |h|
      ensures Answer(ServeAll(a, h[..i]), h[i]) == Answer(ServeAll(b, h[..i]), h[i])
    {
      SameCountAndLife(cfg, calls, keys, now, i);
      SameReply(a.buckets, b.buckets, h, i);
    }
    SameAnswers(a, b, cs, h);
  }

  lemma {:induction false} SharingInMillis(calls: seq<Call>, keys: seq<Key>)
    requires MilliCalls(calls)
    ensures MilliCalls(Sharing(calls, keys))
  {
    hide SharesAKey;
    if calls != [] {
      SharingInMillis(calls[..|calls| - 1], keys);
    }
  }

  /** The same over Redis on whole-millisecond readings, whether or not keys linger. */
  lemma OtherKeysDoNotMatterOverRedis(cfg: Config, calls: seq<Call>, keys: seq<Key>, now: Time, lingers: bool)
    requires GoodRun(cfg, calls, now) && GoodKeys(keys) && AllToldApart(cfg.sha, calls, keys)
    requires MilliCalls(calls) && now % MILLISECOND == 0
    ensures var cs := Charges(cfg.policy, keys);
            Verdict(RedisAfter(cfg, calls, lingers), cs, Hits(cfg.sha, cs, now)) ==
            Verdict(RedisAfter(cfg, Sharing(calls, keys), lingers), cs, Hits(cfg.sha, cs, now))
  {
    hide *;
    OtherKeysDoNotMatter(cfg, calls, keys, now);
    SharingIsGood(cfg, calls, keys, now);
    SharingInMillis(calls, keys);
    LimitersAgree(cfg, calls, keys, now, lingers);
    LimitersAgree(cfg, Sharing(calls, keys), keys, now, lingers);
  }
}
