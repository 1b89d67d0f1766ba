/**
 Whole runs of the in-memory limiter, one clock reading per call: what a
 decision says about the requests made so far.
 */
module LimiterRuns {
  import opened Wrappers
  import opened BucketNames
  import opened Counters
  import opened Limiters

  datatype Config = Config(sha: Digest, policy: Policy)

  datatype Call = Allow(keys: seq<Key>, now: Time) | Reset(keys: seq<Key>, now: Time)

  /** The hits of one call when every clock reading in it is `now`. */
  function Hits(sha: Digest, cs: seq<Charge>, now: Time): (h: seq<Event>)
    ensures |h| == |cs| && AllHits(h)
  {
    seq(|cs|, i requires 0 <= i < |cs| => Hit(BucketName(sha, cs[i], now), cs[i].rule.window, now))
  }

  function CallEvents(cfg: Config, call: Call): seq<Event> {
    var cs := Charges(cfg.policy, call.keys);
    if call.Allow? then Hits(cfg.sha, cs, call.now)
    else if cs == [] then []
    else [Clear(set c | c in cs :: BucketName(cfg.sha, c, call.now))]
  }

  function History(cfg: Config, calls: seq<Call>): seq<Event> {
    if calls == [] then [] else History(cfg, calls[..|calls| - 1]) + CallEvents(cfg, calls[|calls| - 1])
  }

  /** The decision on `keys` at `now`, after `calls`. */
  function DecisionOn(cfg: Config, calls: seq<Call>, keys: seq<Key>, now: Time): Decision {
    var cs := Charges(cfg.policy, keys);
    Verdict(InMemory(Run(map[], History(cfg, calls))), cs, Hits(cfg.sha, cs, now))
  }

  /* ---- What a run may contain -------------------------------------------- */

  predicate GoodKey(k: Key) {
    ':' !in k.scope && ':' !in k.kind
  }

  predicate GoodKeys(keys: seq<Key>) {
    forall k | k in keys :: GoodKey(k)
  }

  predicate GoodPolicy(p: Policy) {
    forall k | k in p :: forall r | r in p[k] :: WholeSeconds(r.window)
  }

  /** Colon-free identifiers, whole-second windows, and a clock that never goes back. */
  ghost predicate GoodRun(cfg: Config, calls: seq<Call>, now: Time) {
    && GoodPolicy(cfg.policy)
    && (forall i | 0 <= i < |calls| :: GoodKeys(calls[i].keys) && calls[i].now <= now)
    && (forall i, j | 0 <= i < j < |calls| :: calls[i].now <= calls[j].now)
  }

  lemma GoodRunPrefix(cfg: Config, calls: seq<Call>, now: Time, n: nat)
    requires GoodRun(cfg, calls, now) && n <= |calls|
    ensures GoodRun(cfg, calls[..n], now)
    ensures n < |calls| ==> GoodRun(cfg, calls[..n], calls[n].now)
  {
  }

  /** The charges of a call are exactly its keys paired with their rules. */
  lemma {:induction false} MembersOfChargesTo(policy: Policy, keys: seq<Key>, i: nat, j: nat, c: Charge)
    requires i <= |keys| && (i == |keys| ==> j == 0) && (i < |keys| ==> j <= |RulesFor(policy, keys[i])|)
    ensures c in ChargesTo(policy, keys, i, j) <==>
            || (c.key in keys[..i] && c.rule in RulesFor(policy, c.key))
            || (i < |keys| && c.key == keys[i] && c.rule in RulesFor(policy, keys[i])[..j])
    decreases i, j
  {
    if j > 0 {
      MembersOfChargesTo(policy, keys, i, j - 1, c);
      assert RulesFor(policy, keys[i])[..j] == RulesFor(policy, keys[i])[..j - 1] + [RulesFor(policy, keys[i])[j - 1]];
    } else if i > 0 {
      var rules := RulesFor(policy, keys[i - 1]);
      MembersOfChargesTo(policy, keys, i - 1, |rules|, c);
      assert rules[..|rules|] == rules;
      assert keys[..i] == keys[..i - 1] + [keys[i - 1]];
    }
  }

  lemma ChargesMembers(policy: Policy, keys: seq<Key>, c: Charge)
    ensures c in Charges(policy, keys) <==> c.key in keys && c.rule in RulesFor(policy, c.key)
  {
    MembersOfChargesTo(policy, keys, |keys|, 0, c);
    assert keys[..|keys|] == keys;
  }

  lemma ChargesGood(policy: Policy, keys: seq<Key>)
    requires GoodPolicy(policy) && GoodKeys(keys)
    ensures forall c | c in Charges(policy, keys) :: GoodCharge(c)
  {
    forall c | c in Charges(policy, keys)
      ensures GoodCharge(c)
    {
      ChargesMembers(policy, keys, c);
    }
  }

  /* ---- The history of a run ---------------------------------------------- */

  /** Every hit was named by the very reading that counted it. */
  ghost predicate Prompt(sha: Digest, h: seq<Event>) {
    forall i | 0 <= i < |h| && h[i].Hit? :: PromptHit(sha, h[i])
  }

  ghost predicate PromptHit(sha: Digest, e: Event)
    requires e.Hit?
  {
    exists c: Charge :: GoodCharge(c) && e.name == BucketName(sha, c, e.at) && e.window == c.rule.window
  }

  lemma {:induction false} HistoryShape(cfg: Config, calls: seq<Call>, now: Time)
    requires GoodRun(cfg, calls, now)
    ensures Ordered(History(cfg, calls), now) && Prompt(cfg.sha, History(cfg, calls))
  {
    hide BucketName;
    if calls != [] {
      var n := |calls| - 1;
      GoodRunPrefix(cfg, calls, now, n);
      HistoryShape(cfg, calls[..n], calls[n].now);
      CallShape(cfg, History(cfg, calls[..n]), calls[n]);
    }
  }

  lemma CallShape(cfg: Config, h: seq<Event>, call: Call)
    requires GoodPolicy(cfg.policy) && GoodKeys(call.keys)
    requires Ordered(h, call.now) && Prompt(cfg.sha, h)
    ensures Ordered(h + CallEvents(cfg, call), call.now) && Prompt(cfg.sha, h + CallEvents(cfg, call))
  {
    hide BucketName;
    var cs, es := Charges(cfg.policy, call.keys), CallEvents(cfg, call);
    ChargesGood(cfg.policy, call.keys);
    forall i | 0 <= i < |es| && es[i].Hit?
      ensures PromptHit(cfg.sha, es[i]) && es[i].at == call.now
    {
      assert GoodCharge(cs[i]) && es[i].name == BucketName(cfg.sha, cs[i], es[i].at);
    }
  }

  /** Hits that share a charge's bucket name fall in its aligned window and use its window length. */
  lemma PromptHitsStayInWindow(sha: Digest, h: seq<Event>, c: Charge, t: Time)
    requires Prompt(sha, h) && GoodCharge(c)
    ensures OnlyFrom(h, BucketName(sha, c, t), c.rule.window, Truncate(t, c.rule.window))
  {
    hide BucketName;
    var name := BucketName(sha, c, t);
    forall i | 0 <= i < |h| && h[i].Hit? && h[i].name == name
      ensures h[i].window == c.rule.window && Truncate(t, c.rule.window) <= h[i].at
    {
      assert PromptHit(sha, h[i]);
      var d: Charge :| GoodCharge(d) && h[i].name == BucketName(sha, d, h[i].at) && h[i].window == d.rule.window;
      NameInjective(sha, d, h[i].at, c, t);
    }
  }

  /* ---- Spending, without bucket names ------------------------------------ */

  /** How many charges of a call share the counter of `c`. */
  function Matching(sha: Digest, cs: seq<Charge>, c: Charge): nat {
    if cs == [] then 0 else
      Matching(sha, cs[..|cs| - 1], c) + (if SameCounter(sha, cs[|cs| - 1], c) then 1 else 0)
  }

  lemma {:induction false} MatchingMember(sha: Digest, cs: seq<Charge>, c: Charge)
    ensures Matching(sha, cs, c) > 0 <==> exists d | d in cs :: SameCounter(sha, d, c)
  {
    if cs != [] {
      var p, last := cs[..|cs| - 1], cs[|cs| - 1];
      MatchingMember(sha, p, c);
      assert cs == p + [last];
      if SameCounter(sha, last, c) {
        assert last in cs;
      }
    }
  }

  predicate InWindow(t: Time, now: Time, w: Duration) {
    Truncate(t, w) == Truncate(now, w)
  }

  /** Charges to the counter of `c` in the aligned window of `now` since it was last reset. */
  function Spent(cfg: Config, calls: seq<Call>, c: Charge, now: Time): nat {
    if calls == [] then 0 else
      var before := Spent(cfg, calls[..|calls| - 1], c, now);
      var call := calls[|calls| - 1];
      var m := Matching(cfg.sha, Charges(cfg.policy, call.keys), c);
      if !InWindow(call.now, now, c.rule.window) then before
      else if call.Allow? then before + m
      else if m > 0 then 0
      else before
  }

  lemma {:induction false} SinceAfterHits(cfg: Config, h: seq<Event>, cs: seq<Charge>, t: Time, c: Charge, now: Time)
    requires GoodCharge(c) && forall d | d in cs :: GoodCharge(d)
    ensures Since(h + Hits(cfg.sha, cs, t), BucketName(cfg.sha, c, now)) ==
            Since(h, BucketName(cfg.sha, c, now)) +
            (if InWindow(t, now, c.rule.window) then Matching(cfg.sha, cs, c) else 0)
    decreases |cs|
  {
    hide BucketName;
    if cs == [] {
      assert h + Hits(cfg.sha, cs, t) == h;
    } else {
      var n := |cs| - 1;
      assert cs[n] in cs && forall d | d in cs[..n] :: d in cs;
      SinceAfterHits(cfg, h, cs[..n], t, c, now);
      HitsSnoc(cfg.sha, cs, t);
      var all := h + Hits(cfg.sha, cs, t);
      assert all[..|all| - 1] == h + Hits(cfg.sha, cs[..n], t);
      NameInjective(cfg.sha, cs[n], t, c, now);
    }
  }

  lemma HitsSnoc(sha: Digest, cs: seq<Charge>, t: Time)
    requires cs != []
    ensures Hits(sha, cs, t) == Hits(sha, cs[..|cs| - 1], t) + [Hit(BucketName(sha, cs[|cs| - 1], t), cs[|cs| - 1].rule.window, t)]
  {
    hide BucketName;
  }

  /** With one reading per call, the class charges exactly the hits of the run semantics. */
  lemma {:induction false} StampedIsHits(sha: Digest, cs: seq<Charge>, clock: nat -> Time, from: nat, now: Time)
    requires forall k | from <= k < from + 2 * |cs| :: clock(k) == now
    ensures Stamped(sha, cs, clock, from) == Hits(sha, cs, now)
    decreases |cs|
  {
    hide BucketName;
    if cs != [] {
      StampedIsHits(sha, cs[..|cs| - 1], clock, from, now);
      HitsSnoc(sha, cs, now);
    }
  }

  lemma {:induction false} ResetNamesAre(sha: Digest, cs: seq<Charge>, clock: nat -> Time, from: nat, now: Time)
    requires forall k | from <= k < from + |cs| :: clock(k) == now
    ensures (set x | x in ResetNames(sha, cs, clock, from)) == (set c | c in cs :: BucketName(sha, c, now))
    decreases |cs|
  {
    hide BucketName;
    if cs != [] {
      var p, c := cs[..|cs| - 1], cs[|cs| - 1];
      ResetNamesAre(sha, p, clock, from, now);
      assert cs == p + [c];
      var a, b := (set x | x in ResetNames(sha, p, clock, from)), (set d | d in p :: BucketName(sha, d, now));
      assert ResetNames(sha, cs, clock, from) == ResetNames(sha, p, clock, from) + [BucketName(sha, c, now)];
      assert (set x | x in ResetNames(sha, cs, clock, from)) == a + {BucketName(sha, c, now)};
      assert (set d | d in cs :: BucketName(sha, d, now)) == b + {BucketName(sha, c, now)};
    }
  }

  /** A bucket's hits since its last clear are the spending on its counter. */
  lemma {:induction false} SpentIsSince(cfg: Config, calls: seq<Call>, c: Charge, now: Time, last: Time)
    requires GoodRun(cfg, calls, last) && GoodCharge(c)
    ensures Since(History(cfg, calls), BucketName(cfg.sha, c, now)) == Spent(cfg, calls, c, now)
    decreases |calls|
  {
    hide BucketName;
    if calls != [] {
      var n := |calls| - 1;
      GoodRunPrefix(cfg, calls, last, n);
      SpentIsSince(cfg, calls[..n], c, now, last);
      var h, call := History(cfg, calls[..n]), calls[n];
      var cs := Charges(cfg.policy, call.keys);
      ChargesGood(cfg.policy, call.keys);
      if call.Allow? {
        SinceAfterHits(cfg, h, cs, call.now, c, now);
      } else {
        SinceAfterReset(cfg, h, cs, call.now, c, now);
        if cs == [] {
          assert h + CallEvents(cfg, call) == h;
        }
      }
    }
  }

  lemma SinceAfterReset(cfg: Config, h: seq<Event>, cs: seq<Charge>, t: Time, c: Charge, now: Time)
    requires GoodCharge(c) && forall d | d in cs :: GoodCharge(d)
    ensures Since(h + [Clear(set d | d in cs :: BucketName(cfg.sha, d, t))], BucketName(cfg.sha, c, now)) ==
            if InWindow(t, now, c.rule.window) && Matching(cfg.sha, cs, c) > 0 then 0
            else Since(h, BucketName(cfg.sha, c, now))
  {
    hide BucketName;
    var name := BucketName(cfg.sha, c, now);
    var names := set d | d in cs :: BucketName(cfg.sha, d, t);
    assert (h + [Clear(names)])[..|h|] == h;
    MatchingMember(cfg.sha, cs, c);
    forall d | d in cs
      ensures BucketName(cfg.sha, d, t) == name <==> SameCounter(cfg.sha, d, c) && InWindow(t, now, c.rule.window)
    {
      NameInjective(cfg.sha, d, t, c, now);
    }
    assert name in names <==> exists d | d in cs :: BucketName(cfg.sha, d, t) == name;
  }

  /* ---- Decisions --------------------------------------------------------- */

  function CountAt(m: Buckets, h: seq<Event>, i: nat): int
    requires i < |h| && AllHits(h)
  {
    ReplyTo(Run(m, h[..i]), h[i]).count
  }

  function TtlAt(m: Buckets, h: seq<Event>, i: nat): Duration
    requires i < |h| && AllHits(h)
  {
    ReplyTo(Run(m, h[..i]), h[i]).ttl
  }

  lemma {:induction false} ServeInMemory(m: Buckets, h: seq<Event>)
    ensures ServeAll(InMemory(m), h) == InMemory(Run(m, h))
  {
    if h != [] {
      ServeInMemory(m, h[..|h| - 1]);
    }
  }

  predicate Trips(m: Buckets, cs: seq<Charge>, h: seq<Event>, i: nat)
    requires i < |cs| == |h| && AllHits(h)
  {
    CountAt(m, h, i) > cs[i].rule.limit
  }

  lemma PrefixReplies(m: Buckets, cs: seq<Charge>, h: seq<Event>, n: nat)
    requires |cs| == |h| && AllHits(h) && n < |cs|
    ensures forall i | 0 <= i < n ::
              TtlAt(m, h[..n], i) == TtlAt(m, h, i) && Trips(m, cs[..n], h[..n], i) == Trips(m, cs, h, i)
  {
    hide ReplyTo, Run;
    forall i | 0 <= i < n
      ensures h[..n][..i] == h[..i]
    {
    }
  }

  lemma VerdictInMemory(m: Buckets, cs: seq<Charge>, h: seq<Event>, n: nat)
    requires |cs| == |h| == n + 1 && AllHits(h)
    ensures Verdict(InMemory(m), cs, h) ==
            Tally(Verdict(InMemory(m), cs[..n], h[..n]), cs[n].rule, Some((CountAt(m, h, n), TtlAt(m, h, n))))
  {
    hide ReplyTo, Run, Tally;
    ServeInMemory(m, h[..n]);
  }

  lemma NothingDecided(m: Buckets)
    ensures Verdict(InMemory(m), [], []) == Decision(true, 0)
  {
  }

  lemma {:induction false} AllowedInMemory(m: Buckets, cs: seq<Charge>, h: seq<Event>)
    requires |cs| == |h| && AllHits(h)
    ensures Verdict(InMemory(m), cs, h).allowed <==> forall i | 0 <= i < |cs| :: !Trips(m, cs, h, i)
    decreases |cs|
  {
    hide ReplyTo, Run, Tally, CountAt, TtlAt, Trips, Verdict;
    NothingDecided(m);
    if cs != [] {
      var n := |cs| - 1;
      AllowedInMemory(m, cs[..n], h[..n]);
      PrefixReplies(m, cs, h, n);
      VerdictInMemory(m, cs, h, n);
      TallyMeaning(m, cs, h, Verdict(InMemory(m), cs[..n], h[..n]));
    }
  }

  lemma {:induction false} WaitCovers(m: Buckets, cs: seq<Charge>, h: seq<Event>)
    requires |cs| == |h| && AllHits(h)
    ensures forall i | 0 <= i < |cs| && Trips(m, cs, h, i) :: TtlAt(m, h, i) <= Verdict(InMemory(m), cs, h).retryAfter
    ensures Verdict(InMemory(m), cs, h).retryAfter >= 0
    decreases |cs|
  {
    hide ReplyTo, Run, Tally, CountAt, TtlAt, Trips, Verdict;
    NothingDecided(m);
    if cs != [] {
      var n := |cs| - 1;
      WaitCovers(m, cs[..n], h[..n]);
      PrefixReplies(m, cs, h, n);
      VerdictInMemory(m, cs, h, n);
      TallyMeaning(m, cs, h, Verdict(InMemory(m), cs[..n], h[..n]));
    }
  }

  /** A decision allows exactly when no rule trips, and its wait covers every tripped rule's. */
  lemma VerdictMeaning(m: Buckets, cs: seq<Charge>, h: seq<Event>)
    requires |cs| == |h| && AllHits(h)
    ensures var d := Verdict(InMemory(m), cs, h);
            && (d.allowed <==> forall i | 0 <= i < |cs| :: !Trips(m, cs, h, i))
            && (forall i | 0 <= i < |cs| && Trips(m, cs, h, i) :: TtlAt(m, h, i) <= d.retryAfter)
            && d.retryAfter >= 0
  {
    hide Verdict, Trips, TtlAt;
    AllowedInMemory(m, cs, h);
    WaitCovers(m, cs, h);
  }

  lemma TallyMeaning(m: Buckets, cs: seq<Charge>, h: seq<Event>, p: Decision)
    requires 0 < |cs| == |h| && AllHits(h)
    ensures var n := |cs| - 1;
            var d := Tally(p, cs[n].rule, Some((CountAt(m, h, n), TtlAt(m, h, n))));
            && (d.allowed <==> p.allowed && !Trips(m, cs, h, n))
            && d.retryAfter >= p.retryAfter
            && (Trips(m, cs, h, n) ==> TtlAt(m, h, n) <= d.retryAfter)
            && (d.retryAfter > p.retryAfter ==> Trips(m, cs, h, n) && TtlAt(m, h, n) == d.retryAfter)
  {
    hide ReplyTo, Run;
  }

  /** A positive wait is the wait of some tripped rule. */
  lemma {:induction false} WaitIsSomeRules(m: Buckets, cs: seq<Charge>, h: seq<Event>) returns (i: nat)
    requires |cs| == |h| && AllHits(h) && Verdict(InMemory(m), cs, h).retryAfter > 0
    ensures i < |cs| && Trips(m, cs, h, i) && TtlAt(m, h, i) == Verdict(InMemory(m), cs, h).retryAfter
    decreases |cs|
  {
    hide ReplyTo, Run, Serve, Apply, Answer, ServeAll, Tally, CountAt, TtlAt, Trips;
    var n := |cs| - 1;
    PrefixReplies(m, cs, h, n);
    VerdictInMemory(m, cs, h, n);
    var p := Verdict(InMemory(m), cs[..n], h[..n]);
    TallyMeaning(m, cs, h, p);
    if Verdict(InMemory(m), cs, h).retryAfter == p.retryAfter {
      i := WaitIsSomeRules(m, cs[..n], h[..n]);
    } else {
      i := n;
    }
  }

  /** The reply to charge i of a call counts this window's spending, the call's own included. */
  lemma ReplyToCharge(cfg: Config, calls: seq<Call>, keys: seq<Key>, now: Time, i: nat)
    requires GoodRun(cfg, calls, now) && GoodKeys(keys) && i < |Charges(cfg.policy, keys)|
    ensures var cs := Charges(cfg.policy, keys);
            var w := cs[i].rule.window;
            var m, h := Run(map[], History(cfg, calls)), Hits(cfg.sha, cs, now);
            && CountAt(m, h, i) == Spent(cfg, calls, cs[i], now) + Matching(cfg.sha, cs[..i], cs[i]) + 1
            && 0 < TtlAt(m, h, i) <= w
            && Truncate(now, w) + w <= now + TtlAt(m, h, i)
  {
    hide BucketName;
    var cs := Charges(cfg.policy, keys);
    var past, h := History(cfg, calls), Hits(cfg.sha, cs, now);
    var c := cs[i];
    var start := Truncate(now, c.rule.window);
    ChargesGood(cfg.policy, keys);
    HistoryShape(cfg, calls, now);
    var upto := past + h[..i];
    assert h[..i] == Hits(cfg.sha, cs[..i], now);
    PartialCall(cfg, past, cs, now, i);
    PromptHitsStayInWindow(cfg.sha, upto, c, now);
    RunConcat(map[], past, h[..i]);
    ReplyCountsHistory(upto, h[i], start);
    SinceAfterHits(cfg, past, cs[..i], now, c, now);
    SpentIsSince(cfg, calls, c, now, now);
    if Since(upto, h[i].name) > 0 {
      FirstSinceBounds(upto, h[i].name, start, now);
    }
  }

  lemma PartialCall(cfg: Config, past: seq<Event>, cs: seq<Charge>, now: Time, i: nat)
    requires Ordered(past, now) && Prompt(cfg.sha, past) && i <= |cs|
    requires forall c | c in cs :: GoodCharge(c)
    ensures Ordered(past + Hits(cfg.sha, cs[..i], now), now) && Prompt(cfg.sha, past + Hits(cfg.sha, cs[..i], now))
  {
    hide BucketName;
    var h := Hits(cfg.sha, cs[..i], now);
    forall j | 0 <= j < |h|
      ensures PromptHit(cfg.sha, h[j])
    {
      assert cs[j] in cs;
      assert GoodCharge(cs[j]) && h[j].name == BucketName(cfg.sha, cs[j], h[j].at);
    }
  }

  /** No two charges of the call share a counter. */
  predicate Distinct(sha: Digest, cs: seq<Charge>) {
    forall i, j | 0 <= i < j < |cs| :: !SameCounter(sha, cs[i], cs[j])
  }

  lemma {:induction false} DistinctMatching(sha: Digest, cs: seq<Charge>, i: nat)
    requires Distinct(sha, cs) && i < |cs|
    ensures Matching(sha, cs[..i], cs[i]) == 0
  {
    MatchingMember(sha, cs[..i], cs[i]);
  }

  /**
   The refinement: a call whose charges have counters of their own is allowed
   exactly when each of them still has room in its aligned window.
   */
  lemma AllowedIffRoom(cfg: Config, calls: seq<Call>, keys: seq<Key>, now: Time)
    requires GoodRun(cfg, calls, now) && GoodKeys(keys) && Distinct(cfg.sha, Charges(cfg.policy, keys))
    ensures DecisionOn(cfg, calls, keys, now).allowed <==>
            forall c | c in Charges(cfg.policy, keys) :: Spent(cfg, calls, c, now) < c.rule.limit
  {
    hide BucketName, Verdict, Spent;
    var cs := Charges(cfg.policy, keys);
    var m, h := Run(map[], History(cfg, calls)), Hits(cfg.sha, cs, now);
    VerdictMeaning(m, cs, h);
    forall i | 0 <= i < |cs|
      ensures Trips(m, cs, h, i) <==> Spent(cfg, calls, cs[i], now) >= cs[i].rule.limit
    {
      ReplyToCharge(cfg, calls, keys, now, i);
      DistinctMatching(cfg.sha, cs, i);
    }
  }

  /** Even when charges share counters, an allowed call found room in every one of them. */
  lemma AllowedFindsRoom(cfg: Config, calls: seq<Call>, keys: seq<Key>, now: Time, c: Charge)
    requires GoodRun(cfg, calls, now) && GoodKeys(keys) && c in Charges(cfg.policy, keys)
    requires DecisionOn(cfg, calls, keys, now).allowed
    ensures Spent(cfg, calls, c, now) < c.rule.limit
  {
    hide BucketName, Verdict, Spent;
    var cs := Charges(cfg.policy, keys);
    var m, h := Run(map[], History(cfg, calls)), Hits(cfg.sha, cs, now);
    VerdictMeaning(m, cs, h);
    var i :| 0 <= i < |cs| && cs[i] == c;
    ReplyToCharge(cfg, calls, keys, now, i);
    assert !Trips(m, cs, h, i);
  }
}
