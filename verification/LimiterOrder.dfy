/**
 The order of a call's keys does not matter, a decision over Redis is the
 decision over memory, and the `Limiter` class computes these decisions.
 */
module LimiterOrder {
  import opened Wrappers
  import opened BucketNames
  import opened Counters
  import opened RedisStores
  import opened Limiters
  import opened LimiterRuns

  /* ---- The class and the run semantics ----------------------------------- */

  /** What `Limiter.Allow` and `Limiter.Reset` leave in memory, in terms of the run's history. */
  lemma ClassFollowsRun(cfg: Config, calls: seq<Call>, call: Call, clock: nat -> Time, from: nat)
    requires forall k | from <= k < from + 2 * |Charges(cfg.policy, call.keys)| :: clock(k) == call.now
    ensures var cs := Charges(cfg.policy, call.keys);
            var st := InMemory(Run(map[], History(cfg, calls)));
            var after := InMemory(Run(map[], History(cfg, calls + [call])));
            if call.Allow? then
              var h := Stamped(cfg.sha, cs, clock, from);
              ServeAll(st, h) == after && Verdict(st, cs, h) == DecisionOn(cfg, calls, call.keys, call.now)
            else
              var names := ResetNames(cfg.sha, cs, clock, from);
              (if cs == [] then st else Serve(st, Clear(set x | x in names))) == after
  {
    hide BucketName, Verdict, ChargesTo;
    var cs := Charges(cfg.policy, call.keys);
    var past := History(cfg, calls);
    assert (calls + [call])[..|calls|] == calls;
    if call.Allow? {
      StampedIsHits(cfg.sha, cs, clock, from, call.now);
      ServeInMemory(Run(map[], past), Hits(cfg.sha, cs, call.now));
      RunConcat(map[], past, Hits(cfg.sha, cs, call.now));
    } else {
      ResetNamesAre(cfg.sha, cs, clock, from, call.now);
      if cs == [] {
        assert past + CallEvents(cfg, call) == past;
      } else {
        assert (past + CallEvents(cfg, call))[..|past|] == past;
      }
    }
  }

  /* ---- Order of the keys ------------------------------------------------- */

  lemma {:induction false} ChargesConcat(policy: Policy, keys: seq<Key>, rest: seq<Key>)
    ensures Charges(policy, keys + rest) == Charges(policy, keys) + Charges(policy, rest)
    decreases |rest|
  {
    if rest == [] {
      assert keys + rest == keys;
    } else {
      var n := |rest| - 1;
      ChargesConcat(policy, keys, rest[..n]);
      ChargesSnoc(policy, rest);
      ChargesSnoc(policy, keys + rest);
      assert (keys + rest)[..|keys + rest| - 1] == keys + rest[..n];
    }
  }

  lemma ChargesSnoc(policy: Policy, keys: seq<Key>)
    requires keys != []
    ensures Charges(policy, keys) == Charges(policy, keys[..|keys| - 1]) + Charges(policy, [keys[|keys| - 1]])
  {
    var n := |keys| - 1;
    ChargesToPrefix(policy, keys, n, 0, n);
    ChargesToShift(policy, keys, n, |RulesFor(policy, keys[n])|);
    ChargesToPrefix(policy, keys, n, 0, n);
  }

  lemma {:induction false} ChargesToPrefix(policy: Policy, keys: seq<Key>, i: nat, j: nat, n: nat)
    requires i <= n <= |keys| && (i == n ==> j == 0) && (i < n ==> j <= |RulesFor(policy, keys[i])|)
    ensures ChargesTo(policy, keys, i, j) == ChargesTo(policy, keys[..n], i, j)
    decreases i, j
  {
    if j > 0 {
      ChargesToPrefix(policy, keys, i, j - 1, n);
    } else if i > 0 {
      ChargesToPrefix(policy, keys, i - 1, |RulesFor(policy, keys[i - 1])|, n);
    }
  }

  lemma {:induction false} ChargesToShift(policy: Policy, keys: seq<Key>, n: nat, j: nat)
    requires n < |keys| && j <= |RulesFor(policy, keys[n])|
    ensures ChargesTo(policy, keys, n, j) == ChargesTo(policy, keys, n, 0) + ChargesTo(policy, [keys[n]], 0, j)
    decreases j
  {
    if j > 0 {
      ChargesToShift(policy, keys, n, j - 1);
    }
  }

  lemma Around<T>(a: seq<T>, k: T, b: seq<T>)
    ensures multiset(a + [k] + b) == multiset(a + b) + multiset{k}
  {
  }

  lemma Extract<T>(s: seq<T>, t: seq<T>) returns (j: nat)
    requires s != [] && multiset(s) == multiset(t)
    ensures j < |t| && t[j] == s[|s| - 1]
    ensures multiset(s[..|s| - 1]) == multiset(t[..j] + t[j + 1..])
  {
    var p, k := s[..|s| - 1], s[|s| - 1];
    Around(p, k, []);
    assert s == p + [k] + [] && p + [] == p;
    SameMembers(s, t);
    assert k in t;
    j :| 0 <= j < |t| && t[j] == k;
    Around(t[..j], k, t[j + 1..]);
    assert t == t[..j] + [k] + t[j + 1..];
    Cancel(multiset(p), multiset(t[..j] + t[j + 1..]), k);
  }

  lemma Cancel<T>(a: multiset<T>, b: multiset<T>, k: T)
    requires a + multiset{k} == b + multiset{k}
    ensures a == b
  {
    assert a == (a + multiset{k}) - multiset{k} && b == (b + multiset{k}) - multiset{k};
  }

  lemma ChargesAround(policy: Policy, a: seq<Key>, k: Key, b: seq<Key>)
    ensures multiset(Charges(policy, a + [k] + b)) == multiset(Charges(policy, a + b)) + multiset(Charges(policy, [k]))
  {
    hide ChargesTo;
    ChargesConcat(policy, a + [k], b);
    ChargesConcat(policy, a, [k]);
    ChargesConcat(policy, a, b);
  }

  /** Reordering the keys only reorders the charges. */
  lemma {:induction false} PermutedCharges(policy: Policy, keys: seq<Key>, keys': seq<Key>)
    requires multiset(keys) == multiset(keys')
    ensures multiset(Charges(policy, keys)) == multiset(Charges(policy, keys'))
    decreases |keys|
  {
    hide ChargesTo;
    SameMembers(keys, keys');
    if keys != [] {
      var j := Extract(keys, keys');
      var n := |keys| - 1;
      PermutedCharges(policy, keys[..n], keys'[..j] + keys'[j + 1..]);
      ChargesAround(policy, keys[..n], keys[n], []);
      ChargesAround(policy, keys'[..j], keys[n], keys'[j + 1..]);
      assert keys == keys[..n] + [keys[n]] + [] && keys[..n] + [] == keys[..n];
      assert keys' == keys'[..j] + [keys[n]] + keys'[j + 1..];
    }
  }

  lemma TwoPlaces<T>(s: seq<T>, i: nat, j: nat)
    requires i < j < |s| && s[i] == s[j]
    ensures multiset(s)[s[i]] >= 2
  {
    assert s == s[..j] + [s[j]] + s[j + 1..];
    assert s[i] in multiset(s[..j]) by {
      assert s[..j][i] == s[i];
    }
  }

  lemma PlacesOf<T>(s: seq<T>, x: T) returns (i: nat, j: nat)
    requires multiset(s)[x] >= 2
    ensures i < j < |s| && s[i] == x && s[j] == x
  {
    assert x in s;
    i :| 0 <= i < |s| && s[i] == x;
    assert s == s[..i] + [s[i]] + s[i + 1..];
    if x in multiset(s[i + 1..]) {
      var k :| 0 <= k < |s[i + 1..]| && s[i + 1..][k] == x;
      j := i + 1 + k;
    } else {
      assert x in multiset(s[..i]);
      var k :| 0 <= k < |s[..i]| && s[..i][k] == x;
      i, j := k, i;
    }
  }

  lemma PermutedDistinct(sha: Digest, cs: seq<Charge>, cs': seq<Charge>)
    requires multiset(cs) == multiset(cs') && Distinct(sha, cs)
    ensures Distinct(sha, cs')
  {
    forall i, j | 0 <= i < j < |cs'|
      ensures !SameCounter(sha, cs'[i], cs'[j])
    {
      var x, y := cs'[i], cs'[j];
      if x == y {
        TwoPlaces(cs', i, j);
        var a, b := PlacesOf(cs, x);
        assert !SameCounter(sha, cs[a], cs[b]);
      } else {
        assert x in multiset(cs) && y in multiset(cs);
        var a :| 0 <= a < |cs| && cs[a] == x;
        var b :| 0 <= b < |cs| && cs[b] == y;
        assert !SameCounter(sha, cs[if a < b then a else b], cs[if a < b then b else a]);
      }
    }
  }

  /** Simultaneous hits on other names leave a bucket's next reply alone. */
  lemma {:induction false} OthersDoNotMatter(m: Buckets, h: seq<Event>, name: string, w: Duration, now: Time)
    requires forall i | 0 <= i < |h| :: h[i].Hit? && h[i].at == now && h[i].name != name
    ensures Current(Run(m, h), name, w, now) == Current(m, name, w, now)
  {
    if h != [] {
      OthersDoNotMatter(m, h[..|h| - 1], name, w, now);
    }
  }

  lemma DistinctNames(sha: Digest, cs: seq<Charge>, now: Time, i: nat, j: nat)
    requires Distinct(sha, cs) && i < |cs| && j < |cs| && i != j && forall c | c in cs :: GoodCharge(c)
    ensures Hits(sha, cs, now)[i].name != Hits(sha, cs, now)[j].name
  {
    hide BucketName;
    NameInjective(sha, cs[i], now, cs[j], now);
    assert !SameCounter(sha, cs[if i < j then i else j], cs[if i < j then j else i]);
  }

  /** With counters of their own, every charge is answered as if it were alone. */
  lemma AnsweredAlone(m: Buckets, sha: Digest, cs: seq<Charge>, now: Time, i: nat)
    requires Distinct(sha, cs) && i < |cs| && forall c | c in cs :: GoodCharge(c)
    ensures var h := Hits(sha, cs, now);
            ReplyTo(Run(m, h[..i]), h[i]) == ReplyTo(m, Hit(BucketName(sha, cs[i], now), cs[i].rule.window, now))
  {
    hide BucketName;
    var h := Hits(sha, cs, now);
    forall j | 0 <= j < i
      ensures h[j].name != h[i].name
    {
      DistinctNames(sha, cs, now, i, j);
    }
    OthersDoNotMatter(m, h[..i], h[i].name, h[i].window, now);
  }

  lemma LastHit(m: Buckets, sha: Digest, cs: seq<Charge>, now: Time)
    requires Distinct(sha, cs) && cs != [] && forall c | c in cs :: GoodCharge(c)
    ensures var n := |cs| - 1;
            var name := BucketName(sha, cs[n], now);
            && (forall c | c in cs[..n] :: BucketName(sha, c, now) != name)
            && Run(m, Hits(sha, cs, now)) ==
               Swept(Run(m, Hits(sha, cs[..n], now)), now)[name := Bumped(Current(m, name, cs[n].rule.window, now))]
  {
    hide BucketName;
    var n := |cs| - 1;
    var h, name := Hits(sha, cs[..n], now), BucketName(sha, cs[n], now);
    HitsSnoc(sha, cs, now);
    assert Hits(sha, cs, now)[..n] == h;
    forall j | 0 <= j < n
      ensures BucketName(sha, cs[..n][j], now) != name
    {
      DistinctNames(sha, cs, now, n, j);
    }
    OthersDoNotMatter(m, h, name, cs[n].rule.window, now);
  }

  /** What a whole call leaves: every charged bucket counted once, the rest swept. */
  lemma {:induction false} CallLeaves(m: Buckets, sha: Digest, cs: seq<Charge>, now: Time, k: string)
    requires Distinct(sha, cs) && cs != [] && forall c | c in cs :: GoodCharge(c)
    ensures var after := Run(m, Hits(sha, cs, now));
            && (forall c | c in cs && BucketName(sha, c, now) == k ::
                  k in after && after[k] == Bumped(Current(m, k, c.rule.window, now)))
            && ((forall c | c in cs :: BucketName(sha, c, now) != k) ==>
                  (k in after <==> k in Swept(m, now)) && (k in after ==> after[k] == m[k]))
    decreases |cs|
  {
    hide BucketName, Hits;
    var n := |cs| - 1;
    assert cs == cs[..n] + [cs[n]];
    LastHit(m, sha, cs, now);
    if n > 0 {
      CallLeaves(m, sha, cs[..n], now, k);
      WindowsPositive(cs);
    } else {
      assert cs[..n] == [] && Hits(sha, [], now) == [];
    }
  }

  lemma WindowsPositive(cs: seq<Charge>)
    requires forall c | c in cs :: GoodCharge(c)
    ensures forall c | c in cs :: c.rule.window > 0
  {
  }

  /** Reordering the keys of a call changes neither its decision, nor its wait, nor any counter. */
  lemma OrderDoesNotMatter(cfg: Config, calls: seq<Call>, keys: seq<Key>, keys': seq<Key>, now: Time)
    requires GoodPolicy(cfg.policy) && GoodKeys(keys) && multiset(keys) == multiset(keys')
    requires Distinct(cfg.sha, Charges(cfg.policy, keys))
    ensures DecisionOn(cfg, calls, keys, now) == DecisionOn(cfg, calls, keys', now)
    ensures Run(map[], History(cfg, calls + [Allow(keys, now)])) ==
            Run(map[], History(cfg, calls + [Allow(keys', now)]))
  {
    hide BucketName, Verdict, ChargesTo, Run;
    var cs, cs' := Charges(cfg.policy, keys), Charges(cfg.policy, keys');
    var m := Run(map[], History(cfg, calls));
    PermutedCharges(cfg.policy, keys, keys');
    PermutedDistinct(cfg.sha, cs, cs');
    SameMembers(cs, cs');
    SameMembers(keys, keys');
    ChargesGood(cfg.policy, keys);
    SameVerdict(m, cfg.sha, cs, cs', now);
    SameLeft(m, cfg.sha, cs, cs', now);
    assert (calls + [Allow(keys, now)])[..|calls|] == calls && (calls + [Allow(keys', now)])[..|calls|] == calls;
    RunConcat(map[], History(cfg, calls), Hits(cfg.sha, cs, now));
    RunConcat(map[], History(cfg, calls), Hits(cfg.sha, cs', now));
  }

  lemma SameMembers<T>(s: seq<T>, t: seq<T>)
    requires multiset(s) == multiset(t)
    ensures forall x :: x in s <==> x in t
    ensures |s| == |t|
  {
    assert |multiset(s)| == |s| && |multiset(t)| == |t|;
    assert forall x :: x in s <==> x in multiset(s);
    assert forall x :: x in t <==> x in multiset(t);
  }

  lemma SameLeft(m: Buckets, sha: Digest, cs: seq<Charge>, cs': seq<Charge>, now: Time)
    requires Distinct(sha, cs) && Distinct(sha, cs') && |cs| == |cs'|
    requires forall c :: c in cs <==> c in cs'
    requires forall c | c in cs :: GoodCharge(c)
    ensures Run(m, Hits(sha, cs, now)) == Run(m, Hits(sha, cs', now))
  {
    hide BucketName, GoodCharge;
    if cs != [] {
      var a, b := Run(m, Hits(sha, cs, now)), Run(m, Hits(sha, cs', now));
      forall k: string
        ensures k in a <==> k in b
        ensures k in a ==> a[k] == b[k]
      {
        CallLeaves(m, sha, cs, now, k);
        CallLeaves(m, sha, cs', now, k);
        if c :| c in cs && BucketName(sha, c, now) == k {
          assert c in cs';
        }
      }
    }
  }

  /** One charge's trip and wait, on the store as the call found it. */
  predicate TripsAlone(m: Buckets, sha: Digest, c: Charge, now: Time) {
    ReplyTo(m, Hit(BucketName(sha, c, now), c.rule.window, now)).count > c.rule.limit
  }

  function WaitAlone(m: Buckets, sha: Digest, c: Charge, now: Time): Duration {
    ReplyTo(m, Hit(BucketName(sha, c, now), c.rule.window, now)).ttl
  }

  /** A decision described without reference to order. */
  lemma VerdictWithoutOrder(m: Buckets, sha: Digest, cs: seq<Charge>, now: Time)
    requires Distinct(sha, cs) && forall c | c in cs :: GoodCharge(c)
    ensures var d := Verdict(InMemory(m), cs, Hits(sha, cs, now));
            && (d.allowed <==> forall c | c in cs :: !TripsAlone(m, sha, c, now))
            && d.retryAfter >= 0
            && (forall c | c in cs && TripsAlone(m, sha, c, now) :: WaitAlone(m, sha, c, now) <= d.retryAfter)
            && (d.retryAfter > 0 ==>
                  exists c | c in cs :: TripsAlone(m, sha, c, now) && WaitAlone(m, sha, c, now) == d.retryAfter)
  {
    hide BucketName, Run, Verdict, GoodCharge, Distinct, ReplyTo;
    var h := Hits(sha, cs, now);
    VerdictMeaning(m, cs, h);
    forall i | 0 <= i < |cs|
      ensures Trips(m, cs, h, i) == TripsAlone(m, sha, cs[i], now) && TtlAt(m, h, i) == WaitAlone(m, sha, cs[i], now)
    {
      AnsweredAlone(m, sha, cs, now, i);
    }
    if Verdict(InMemory(m), cs, h).retryAfter > 0 {
      var i := WaitIsSomeRules(m, cs, h);
      assert cs[i] in cs;
    }
  }

  lemma SameVerdict(m: Buckets, sha: Digest, cs: seq<Charge>, cs': seq<Charge>, now: Time)
    requires Distinct(sha, cs) && Distinct(sha, cs')
    requires forall c :: c in cs <==> c in cs'
    requires forall c | c in cs :: GoodCharge(c)
    ensures Verdict(InMemory(m), cs, Hits(sha, cs, now)) == Verdict(InMemory(m), cs', Hits(sha, cs', now))
  {
    hide BucketName, Verdict, GoodCharge, Distinct, ReplyTo, TripsAlone, WaitAlone;
    VerdictWithoutOrder(m, sha, cs, now);
    VerdictWithoutOrder(m, sha, cs', now);
    var d, d' := Verdict(InMemory(m), cs, Hits(sha, cs, now)), Verdict(InMemory(m), cs', Hits(sha, cs', now));
    assert d.retryAfter <= d'.retryAfter;
    assert d'.retryAfter <= d.retryAfter;
  }

  /** A call counts every one of its buckets exactly once, whatever it decides. */
  lemma EveryBucketIsCountedOnce(cfg: Config, calls: seq<Call>, keys: seq<Key>, now: Time, c: Charge)
    requires GoodRun(cfg, calls, now) && GoodKeys(keys) && c in Charges(cfg.policy, keys)
    requires Distinct(cfg.sha, Charges(cfg.policy, keys))
    ensures var name := BucketName(cfg.sha, c, now);
            var before := Run(map[], History(cfg, calls));
            var after := Run(map[], History(cfg, calls + [Allow(keys, now)]));
            name in after && after[name].count ==
            (if name in before && before[name].expiresAt > now then before[name].count else 0) + 1
  {
    hide BucketName, ChargesTo;
    var cs := Charges(cfg.policy, keys);
    ChargesGood(cfg.policy, keys);
    assert (calls + [Allow(keys, now)])[..|calls|] == calls;
    RunConcat(map[], History(cfg, calls), Hits(cfg.sha, cs, now));
    CallLeaves(Run(map[], History(cfg, calls)), cfg.sha, cs, now, BucketName(cfg.sha, c, now));
  }

  /* ---- Redis ------------------------------------------------------------- */

  function Reliable(n: nat): Fault { Answered }

  function RedisAfter(cfg: Config, calls: seq<Call>, lingers: bool): StoreState {
    InRedis(RunRedis(map[], History(cfg, calls), lingers), 0, lingers, Reliable)
  }

  lemma {:induction false} ServeInRedis(m: RedisKeys, h: seq<Event>, lingers: bool)
    ensures ServeAll(InRedis(m, 0, lingers, Reliable), h) == InRedis(RunRedis(m, h, lingers), |h|, lingers, Reliable)
  {
    if h != [] {
      ServeInRedis(m, h[..|h| - 1], lingers);
    }
  }

  lemma {:induction false} RunRedisConcat(m: RedisKeys, a: seq<Event>, b: seq<Event>, lingers: bool)
    ensures RunRedis(m, a + b, lingers) == RunRedis(RunRedis(m, a, lingers), b, lingers)
    decreases |b|
  {
    if b == [] {
      assert a + b == a;
    } else {
      assert (a + b)[..|a + b| - 1] == a + b[..|b| - 1];
      RunRedisConcat(m, a, b[..|b| - 1], lingers);
    }
  }

  lemma {:induction false} UnsweptFromHits(h: seq<Event>, k: string) returns (i: nat)
    requires k in RunUnswept(map[], h)
    ensures i < |h| && h[i].Hit? && h[i].name == k && RunUnswept(map[], h)[k].expiresAt == h[i].at + h[i].window
  {
    var p, e := h[..|h| - 1], h[|h| - 1];
    var m := RunUnswept(map[], p);
    if e.Hit? && e.name == k && !(k in m && m[k].expiresAt > e.at) {
      i := |p|;
    } else {
      i := UnsweptFromHits(p, k);
    }
  }

  /** A promptly named hit never lands on the expiry of its bucket, because its window ends first. */
  lemma PromptIsOffExpiry(sha: Digest, h: seq<Event>, e: Event)
    requires Prompt(sha, h + [e])
    ensures OffExpiry(h, e)
  {
    hide BucketName;
    if e.Hit? && e.name in RunUnswept(map[], h) {
      assert (h + [e])[|h|] == e && PromptHit(sha, e);
      var c: Charge :| GoodCharge(c) && e.name == BucketName(sha, c, e.at) && e.window == c.rule.window;
      assert forall i | 0 <= i < |h| :: (h + [e])[i] == h[i];
      PromptHitsStayInWindow(sha, h, c, e.at);
      var i := UnsweptFromHits(h, e.name);
    }
  }

  /** A history of whole milliseconds is answered alike, event by event. */
  lemma PromptStoresAgree(sha: Digest, h: seq<Event>, e: Event, lingers: bool)
    requires e.Hit? && Ordered(h, e.at) && Prompt(sha, h + [e])
    requires WholeMillis(e) && forall i | 0 <= i < |h| :: WholeMillis(h[i])
    ensures ReplyFromRedis(RunRedis(map[], h, lingers), e, lingers) ==
            (var r := ReplyTo(Run(map[], h), e); (r.count, r.ttl))
  {
    PromptIsOffExpiry(sha, h, e);
    forall i | 0 <= i < |h|
      ensures OffExpiry(h[..i], h[i])
    {
      var p := h[..i] + [h[i]];
      assert forall j | 0 <= j < |p| :: p[j] == (h + [e])[j];
      PromptIsOffExpiry(sha, h[..i], h[i]);
    }
    StoresAgree(h, e, lingers);
    assert AnsweredAlike(h, e, lingers);
  }

  predicate MilliCalls(calls: seq<Call>) {
    forall i | 0 <= i < |calls| :: calls[i].now % MILLISECOND == 0
  }

  lemma SecondsAreMillis(w: Duration)
    requires WholeSeconds(w)
    ensures w % MILLISECOND == 0
  {
    assert w == MILLISECOND * (1000 * (w / SECOND));
  }

  lemma {:induction false} HistoryInMillis(cfg: Config, calls: seq<Call>, now: Time)
    requires GoodRun(cfg, calls, now) && MilliCalls(calls)
    ensures forall i | 0 <= i < |History(cfg, calls)| :: WholeMillis(History(cfg, calls)[i])
    decreases |calls|
  {
    hide BucketName, ChargesTo;
    if calls != [] {
      var n := |calls| - 1;
      GoodRunPrefix(cfg, calls, now, n);
      HistoryInMillis(cfg, calls[..n], now);
      HitsInMillis(cfg, Charges(cfg.policy, calls[n].keys), calls[n].keys, calls[n].now);
    }
  }

  lemma HitsInMillis(cfg: Config, cs: seq<Charge>, keys: seq<Key>, now: Time)
    requires GoodPolicy(cfg.policy) && GoodKeys(keys) && now % MILLISECOND == 0 && cs == Charges(cfg.policy, keys)
    ensures forall i | 0 <= i < |cs| :: WholeMillis(Hits(cfg.sha, cs, now)[i])
  {
    hide BucketName, ChargesTo;
    ChargesGood(cfg.policy, keys);
    forall i | 0 <= i < |cs|
      ensures WholeMillis(Hits(cfg.sha, cs, now)[i])
    {
      assert GoodCharge(cs[i]);
      SecondsAreMillis(cs[i].rule.window);
    }
  }

  /**
   On every run of whole-millisecond readings, a limiter over Redis takes the
   decision a limiter over memory takes, with the same wait, whether or not
   keys linger through the millisecond of their expiry.
   */
  lemma LimitersAgree(cfg: Config, calls: seq<Call>, keys: seq<Key>, now: Time, lingers: bool)
    requires GoodRun(cfg, calls, now) && GoodKeys(keys) && MilliCalls(calls) && now % MILLISECOND == 0
    ensures var cs := Charges(cfg.policy, keys);
            Verdict(RedisAfter(cfg, calls, lingers), cs, Hits(cfg.sha, cs, now)) == DecisionOn(cfg, calls, keys, now)
  {
    hide Verdict, BucketName, ChargesTo, Answer, ServeAll, RedisAfter, Run;
    var cs := Charges(cfg.policy, keys);
    var h := Hits(cfg.sha, cs, now);
    var r, m := RedisAfter(cfg, calls, lingers), InMemory(Run(map[], History(cfg, calls)));
    forall i | 0 <= i < |h|
      ensures Answer(ServeAll(r, h[..i]), h[i]) == Answer(ServeAll(m, h[..i]), h[i])
    {
      SameAnswer(cfg, calls, keys, now, i, lingers);
    }
    SameAnswers(r, m, cs, h);
  }

  lemma {:induction false} SameAnswers(a: StoreState, b: StoreState, cs: seq<Charge>, h: seq<Event>)
    requires |cs| == |h| && AllHits(h)
    requires forall i | 0 <= i < |h| :: Answer(ServeAll(a, h[..i]), h[i]) == Answer(ServeAll(b, h[..i]), h[i])
    ensures Verdict(a, cs, h) == Verdict(b, cs, h)
    decreases |cs|
  {
    hide Answer, ServeAll, Tally;
    if cs != [] {
      var n := |cs| - 1;
      assert forall i | 0 <= i < n :: h[..n][..i] == h[..i];
      SameAnswers(a, b, cs[..n], h[..n]);
    }
  }

  lemma SameAnswer(cfg: Config, calls: seq<Call>, keys: seq<Key>, now: Time, i: nat, lingers: bool)
    requires GoodRun(cfg, calls, now) && GoodKeys(keys) && MilliCalls(calls) && now % MILLISECOND == 0
    requires i < |Charges(cfg.policy, keys)|
    ensures var h := Hits(cfg.sha, Charges(cfg.policy, keys), now);
            Answer(ServeAll(RedisAfter(cfg, calls, lingers), h[..i]), h[i]) ==
            Answer(ServeAll(InMemory(Run(map[], History(cfg, calls))), h[..i]), h[i])
  {
    hide BucketName, ChargesTo, ReplyFromRedis, ReplyTo, Ordered, Prompt, WholeMillis;
    var cs := Charges(cfg.policy, keys);
    var past, h := History(cfg, calls), Hits(cfg.sha, cs, now);
    HistoryShape(cfg, calls, now);
    HistoryInMillis(cfg, calls, now);
    ChargesGood(cfg.policy, keys);
    HitsInMillis(cfg, cs, keys, now);
    var upto := past + h[..i];
    assert h[..i] == Hits(cfg.sha, cs[..i], now) && h[..i + 1] == Hits(cfg.sha, cs[..i + 1], now);
    PartialCall(cfg, past, cs, now, i);
    PartialCall(cfg, past, cs, now, i + 1);
    assert past + h[..i + 1] == upto + [h[i]];
    PromptStoresAgree(cfg.sha, upto, h[i], lingers);
    ServeInMemory(Run(map[], past), h[..i]);
    RunConcat(map[], past, h[..i]);
    ServeInRedis(RunRedis(map[], past, lingers), h[..i], lingers);
    RunRedisConcat(map[], past, h[..i], lingers);
  }
}
