/** What RetryAfter promises over whole runs of the limiter. */
module LimiterBounds {
  import opened Wrappers
  import opened BucketNames
  import opened Counters
  import opened Limiters
  import opened LimiterRuns

  lemma {:induction false} SpentInOneWindow(cfg: Config, calls: seq<Call>, c: Charge, t: Time, u: Time)
    requires InWindow(t, u, c.rule.window)
    ensures Spent(cfg, calls, c, t) == Spent(cfg, calls, c, u)
    decreases |calls|
  {
    if calls != [] {
      SpentInOneWindow(cfg, calls[..|calls| - 1], c, t, u);
    }
  }

  /* ---- RetryAfter -------------------------------------------------------- */

  /** The wait of a denial is positive, is some tripped rule's remaining life, and covers them all. */
  lemma RetryAfterMeaning(cfg: Config, calls: seq<Call>, keys: seq<Key>, now: Time) returns (i: nat)
    requires GoodRun(cfg, calls, now) && GoodKeys(keys) && !DecisionOn(cfg, calls, keys, now).allowed
    ensures var cs := Charges(cfg.policy, keys);
            var m, h := Run(map[], History(cfg, calls)), Hits(cfg.sha, cs, now);
            var wait := DecisionOn(cfg, calls, keys, now).retryAfter;
            && i < |cs| && Trips(m, cs, h, i) && wait == TtlAt(m, h, i) && 0 < wait <= cs[i].rule.window
            && forall j | 0 <= j < |cs| && Trips(m, cs, h, j) :: 0 < TtlAt(m, h, j) <= wait
  {
    hide BucketName, Verdict, Run, TtlAt, CountAt, Hits, ChargesTo;
    var cs := Charges(cfg.policy, keys);
    var m, h := Run(map[], History(cfg, calls)), Hits(cfg.sha, cs, now);
    VerdictMeaning(m, cs, h);
    forall j | 0 <= j < |cs|
      ensures TtlAt(m, h, j) > 0
    {
      ReplyToCharge(cfg, calls, keys, now, j);
    }
    i := WaitIsSomeRules(m, cs, h);
    ReplyToCharge(cfg, calls, keys, now, i);
  }

  lemma {:induction false} FirstStaysFirst(past: seq<Event>, h: seq<Event>, name: string)
    requires AllHits(h) && Since(past, name) > 0
    ensures Since(past + h, name) > 0 && FirstSince(past + h, name) == FirstSince(past, name)
    decreases |h|
  {
    if h == [] {
      assert past + h == past;
    } else {
      assert (past + h)[..|past + h| - 1] == past + h[..|h| - 1];
      FirstStaysFirst(past, h[..|h| - 1], name);
    }
  }

  /** When the counter of `c` was first charged in the aligned window of `now` since it was last reset. */
  function FirstSpent(cfg: Config, calls: seq<Call>, c: Charge, now: Time): Time
    requires Spent(cfg, calls, c, now) > 0
  {
    var p := calls[..|calls| - 1];
    if Spent(cfg, p, c, now) > 0 then FirstSpent(cfg, p, c, now) else calls[|calls| - 1].now
  }

  /** Hits at one instant on a bucket not in use make that instant its first. */
  lemma {:induction false} FirstOfHits(past: seq<Event>, h: seq<Event>, name: string, now: Time)
    requires AllHits(h) && Since(past, name) == 0 && Since(past + h, name) > 0
    requires forall i | 0 <= i < |h| :: h[i].at == now
    ensures FirstSince(past + h, name) == now
    decreases |h|
  {
    assert past + [] == past;
    if h != [] {
      var p := h[..|h| - 1];
      assert (past + h)[..|past + h| - 1] == past + p;
      if Since(past + p, name) > 0 {
        FirstOfHits(past, p, name, now);
      }
    }
  }

  /** The first hit a bucket remembers is the first charge to its counter. */
  lemma {:induction false} FirstSpentIsFirstSince(cfg: Config, calls: seq<Call>, c: Charge, now: Time, last: Time)
    requires GoodRun(cfg, calls, last) && GoodCharge(c) && Spent(cfg, calls, c, now) > 0
    ensures var name := BucketName(cfg.sha, c, now);
            Since(History(cfg, calls), name) > 0
            && FirstSince(History(cfg, calls), name) == FirstSpent(cfg, calls, c, now)
    decreases |calls|
  {
    hide BucketName, ChargesTo, Matching, Hits;
    var n, name := |calls| - 1, BucketName(cfg.sha, c, now);
    var past, call := History(cfg, calls[..n]), calls[n];
    var events := CallEvents(cfg, call);
    GoodRunPrefix(cfg, calls, last, n);
    SpentIsSince(cfg, calls, c, now, last);
    SpentIsSince(cfg, calls[..n], c, now, last);
    if Spent(cfg, calls[..n], c, now) > 0 {
      FirstSpentIsFirstSince(cfg, calls[..n], c, now, last);
      if call.Allow? {
        FirstStaysFirst(past, events, name);
      } else if events == [] {
        assert past + events == past;
      } else {
        assert (past + events)[..|past|] == past;
      }
    } else {
      HitsAtOnce(cfg.sha, Charges(cfg.policy, call.keys), call.now);
      FirstOfHits(past, events, name, call.now);
    }
  }

  lemma HitsAtOnce(sha: Digest, cs: seq<Charge>, now: Time)
    ensures forall i | 0 <= i < |cs| :: Hits(sha, cs, now)[i].at == now
  {
    hide BucketName;
  }

  /**
   The life of a counter: it ends one window after the first charge to it in the current window
   since its last reset, which is this call itself when there was none.
   */
  lemma LifeFromFirstCharge(cfg: Config, calls: seq<Call>, keys: seq<Key>, now: Time, i: nat)
    requires GoodRun(cfg, calls, now) && GoodKeys(keys) && i < |Charges(cfg.policy, keys)|
    ensures var c := Charges(cfg.policy, keys)[i];
            TtlAt(Run(map[], History(cfg, calls)), Hits(cfg.sha, Charges(cfg.policy, keys), now), i) ==
            (if Spent(cfg, calls, c, now) > 0 then FirstSpent(cfg, calls, c, now) else now) + c.rule.window - now
  {
    hide BucketName, Run, ReplyTo, ChargesTo, Spent;
    var cs := Charges(cfg.policy, keys);
    var past, h, c := History(cfg, calls), Hits(cfg.sha, cs, now), cs[i];
    ChargesGood(cfg.policy, keys);
    HistoryShape(cfg, calls, now);
    assert h[..i] == Hits(cfg.sha, cs[..i], now);
    PartialCall(cfg, past, cs, now, i);
    var upto := past + h[..i];
    PromptHitsStayInWindow(cfg.sha, upto, c, now);
    RunConcat(map[], past, h[..i]);
    ReplyCountsHistory(upto, h[i], Truncate(now, c.rule.window));
    SpentIsSince(cfg, calls, c, now, now);
    HitsAtOnce(cfg.sha, cs[..i], now);
    if Spent(cfg, calls, c, now) > 0 {
      FirstSpentIsFirstSince(cfg, calls, c, now, now);
      FirstStaysFirst(past, h[..i], h[i].name);
    } else if Since(upto, h[i].name) > 0 {
      FirstOfHits(past, h[..i], h[i].name, now);
    }
  }

  lemma {:induction false} NothingSpentYet(cfg: Config, calls: seq<Call>, c: Charge, now: Time, t: Time)
    requires GoodRun(cfg, calls, now) && c.rule.window > 0
    requires Truncate(now, c.rule.window) < Truncate(t, c.rule.window)
    ensures Spent(cfg, calls, c, t) == 0
    decreases |calls|
  {
    if calls != [] {
      var n := |calls| - 1;
      GoodRunPrefix(cfg, calls, now, n);
      NothingSpentYet(cfg, calls[..n], c, now, t);
      SameWindow(calls[n].now, now, c.rule.window);
    }
  }

  /** What one more call at `now` leaves spent at a later instant. */
  lemma SpentNext(cfg: Config, calls: seq<Call>, keys: seq<Key>, now: Time, c: Charge, t: Time)
    requires GoodRun(cfg, calls, now) && GoodKeys(keys) && now <= t && c in Charges(cfg.policy, keys)
    requires Distinct(cfg.sha, Charges(cfg.policy, keys))
    ensures GoodRun(cfg, calls + [Allow(keys, now)], t) && WholeSeconds(c.rule.window)
    ensures Spent(cfg, calls + [Allow(keys, now)], c, t) ==
            if t < Truncate(now, c.rule.window) + c.rule.window then Spent(cfg, calls, c, now) + 1 else 0
  {
    hide ChargesTo;
    var cs := Charges(cfg.policy, keys);
    var next := calls + [Allow(keys, now)];
    assert next[..|calls|] == calls;
    ChargesGood(cfg.policy, keys);
    assert GoodCharge(c);
    SameWindow(now, t, c.rule.window);
    MatchingOnce(cfg.sha, cs, c);
    if InWindow(now, t, c.rule.window) {
      SpentInOneWindow(cfg, calls, c, now, t);
    } else {
      NothingSpentYet(cfg, calls, c, now, t);
    }
  }

  lemma {:induction false} MatchingOnce(sha: Digest, cs: seq<Charge>, c: Charge)
    requires Distinct(sha, cs) && c in cs
    ensures Matching(sha, cs, c) == 1
  {
    var p, last := cs[..|cs| - 1], cs[|cs| - 1];
    if last == c {
      DistinctMatching(sha, cs, |cs| - 1);
    } else {
      assert cs == p + [last];
      var i :| 0 <= i < |p| && p[i] == c;
      assert !SameCounter(sha, cs[i], cs[|cs| - 1]);
      MatchingOnce(sha, p, c);
    }
  }

  /**
   The instant a rule refills. With no other traffic, a rule that tripped at
   `now` has room again at `t` exactly when its aligned window is over.
   */
  lemma RefillInstant(cfg: Config, calls: seq<Call>, keys: seq<Key>, now: Time, c: Charge, t: Time)
    requires GoodRun(cfg, calls, now) && GoodKeys(keys) && now <= t && c in Charges(cfg.policy, keys)
    requires Distinct(cfg.sha, Charges(cfg.policy, keys)) && c.rule.limit > 0
    requires Spent(cfg, calls, c, now) >= c.rule.limit
    ensures Spent(cfg, calls + [Allow(keys, now)], c, t) < c.rule.limit <==>
            t >= Truncate(now, c.rule.window) + c.rule.window
  {
    SpentNext(cfg, calls, keys, now, c, t);
  }

  /** Waiting out RetryAfter refills every rule that tripped. */
  lemma WaitingSuffices(cfg: Config, calls: seq<Call>, keys: seq<Key>, now: Time, c: Charge, t: Time)
    requires GoodRun(cfg, calls, now) && GoodKeys(keys) && c in Charges(cfg.policy, keys)
    requires Distinct(cfg.sha, Charges(cfg.policy, keys)) && c.rule.limit > 0
    requires Spent(cfg, calls, c, now) >= c.rule.limit
    requires t >= now + DecisionOn(cfg, calls, keys, now).retryAfter
    ensures !DecisionOn(cfg, calls, keys, now).allowed
    ensures Spent(cfg, calls + [Allow(keys, now)], c, t) < c.rule.limit
  {
    hide BucketName, Verdict, Run, TtlAt, CountAt, Hits, ChargesTo;
    var cs := Charges(cfg.policy, keys);
    var m, h := Run(map[], History(cfg, calls)), Hits(cfg.sha, cs, now);
    AllowedIffRoom(cfg, calls, keys, now);
    VerdictMeaning(m, cs, h);
    var i :| 0 <= i < |cs| && cs[i] == c;
    ReplyToCharge(cfg, calls, keys, now, i);
    assert Trips(m, cs, h, i);
    RefillInstant(cfg, calls, keys, now, c, t);
  }

  /** Whether the same call is allowed later, for every rule at once. */
  lemma NextDecision(cfg: Config, calls: seq<Call>, keys: seq<Key>, now: Time, t: Time)
    requires GoodRun(cfg, calls, now) && GoodKeys(keys) && now <= t
    requires Distinct(cfg.sha, Charges(cfg.policy, keys))
    ensures DecisionOn(cfg, calls + [Allow(keys, now)], keys, t).allowed <==>
            forall c | c in Charges(cfg.policy, keys) ::
              (if t < Truncate(now, c.rule.window) + c.rule.window then Spent(cfg, calls, c, now) + 1 else 0)
              < c.rule.limit
  {
    hide DecisionOn, ChargesTo, Spent;
    var next := calls + [Allow(keys, now)];
    assert GoodRun(cfg, next, t);
    AllowedIffRoom(cfg, next, keys, t);
    forall c | c in Charges(cfg.policy, keys)
      ensures Spent(cfg, next, c, t) ==
              if t < Truncate(now, c.rule.window) + c.rule.window then Spent(cfg, calls, c, now) + 1 else 0
    {
      SpentNext(cfg, calls, keys, now, c, t);
    }
  }

  /* ---- The Retry-After header -------------------------------------------- */

  /** Seconds written to the header: the wait without its fraction, at least one. */
  function RetrySeconds(wait: Duration): int {
    if InSeconds(wait) < 1 then 1 else InSeconds(wait)
  }

  /** The header covers the wait exactly when dropping the fraction lost nothing. */
  lemma HeaderCoversWait(wait: Duration)
    requires wait > 0
    ensures RetrySeconds(wait) >= 1
    ensures RetrySeconds(wait) * SECOND >= wait <==> wait <= SECOND || wait % SECOND == 0
  {
  }

  const WITNESS_POLICY: Policy := map["login:ip" := [Rule(1, 60 * SECOND), Rule(2, 3600 * SECOND)]]
  const WITNESS_KEY: Key := Key("login", "ip", "192.0.2.60")

  /**
   A client that obeys the header can still be refused: denied half a second
   into a minute, it is told 59 seconds and comes back half a second early.
   A client that waits the full RetryAfter passes the rule that tripped but is
   refused by the hourly rule, which was at its limit without being over it.
   */
  lemma WaitingMayNotBeEnough(sha: Digest)
    ensures var cfg := Config(sha, WITNESS_POLICY);
            var calls, keys, now := [Allow([WITNESS_KEY], 0)], [WITNESS_KEY], SECOND / 2;
            var d := DecisionOn(cfg, calls, keys, now);
            var next := calls + [Allow(keys, now)];
            && !d.allowed && d.retryAfter == 59 * SECOND + SECOND / 2 && RetrySeconds(d.retryAfter) == 59
            && now + RetrySeconds(d.retryAfter) * SECOND < 60 * SECOND
            && Spent(cfg, next, Charge(WITNESS_KEY, Rule(1, 60 * SECOND)), now + 59 * SECOND) == 2
            && !DecisionOn(cfg, next, keys, now + 59 * SECOND).allowed
            && Spent(cfg, next, Charge(WITNESS_KEY, Rule(1, 60 * SECOND)), now + d.retryAfter) == 0
            && !DecisionOn(cfg, next, keys, now + d.retryAfter).allowed
  {
    hide BucketName, Verdict, Run, Hits;
    var cfg := Config(sha, WITNESS_POLICY);
    var minute, hour := Charge(WITNESS_KEY, Rule(1, 60 * SECOND)), Charge(WITNESS_KEY, Rule(2, 3600 * SECOND));
    var calls, keys, now := [Allow([WITNESS_KEY], 0)], [WITNESS_KEY], SECOND / 2;
    var cs := Charges(cfg.policy, keys);
    WitnessCharges();
    assert calls[..0] == [];
    assert Spent(cfg, [], minute, 0) == 0 && Spent(cfg, [], hour, 0) == 0;
    assert [] + [Allow(keys, 0)] == calls;
    SpentNext(cfg, [], keys, 0, minute, now);
    SpentNext(cfg, [], keys, 0, hour, now);
    AllowedIffRoom(cfg, calls, keys, now);
    var i := RetryAfterMeaning(cfg, calls, keys, now);
    WitnessWait(sha, i);
    SpentNext(cfg, calls, keys, now, minute, now + 59 * SECOND);
    SpentNext(cfg, calls, keys, now, minute, 60 * SECOND);
    NextDecision(cfg, calls, keys, now, now + 59 * SECOND);
    NextDecision(cfg, calls, keys, now, 60 * SECOND);
  }

  lemma WitnessCharges()
    ensures GoodPolicy(WITNESS_POLICY) && GoodKey(WITNESS_KEY)
    ensures Charges(WITNESS_POLICY, [WITNESS_KEY]) ==
            [Charge(WITNESS_KEY, Rule(1, 60 * SECOND)), Charge(WITNESS_KEY, Rule(2, 3600 * SECOND))]
    ensures forall sha: Digest :: Distinct(sha, Charges(WITNESS_POLICY, [WITNESS_KEY]))
  {
    var keys := [WITNESS_KEY];
    assert PolicyKey("login", "ip") == "login:ip";
    assert RulesFor(WITNESS_POLICY, WITNESS_KEY) == WITNESS_POLICY["login:ip"];
    assert ChargesTo(WITNESS_POLICY, keys, 0, 0) == [];
    assert ChargesTo(WITNESS_POLICY, keys, 0, 1) == [Charge(WITNESS_KEY, Rule(1, 60 * SECOND))];
    assert Charges(WITNESS_POLICY, keys) == ChargesTo(WITNESS_POLICY, keys, 0, 2);
  }

  /** Only the minute rule trips, with the life left after its first hit at time zero. */
  lemma WitnessWait(sha: Digest, i: nat)
    requires i < 2
    ensures var cfg := Config(sha, WITNESS_POLICY);
            var calls, keys, now := [Allow([WITNESS_KEY], 0)], [WITNESS_KEY], SECOND / 2;
            var cs := Charges(cfg.policy, keys);
            var m, h := Run(map[], History(cfg, calls)), Hits(cfg.sha, cs, now);
            && |cs| == 2 && (Trips(m, cs, h, i) <==> i == 0)
            && (i == 0 ==> TtlAt(m, h, i) == 59 * SECOND + SECOND / 2)
  {
    hide BucketName, Run, ReplyTo, Hits, ChargesTo, RulesFor;
    var cfg := Config(sha, WITNESS_POLICY);
    var calls, keys, now := [Allow([WITNESS_KEY], 0)], [WITNESS_KEY], SECOND / 2;
    var cs := Charges(cfg.policy, keys);
    WitnessCharges();
    assert calls[..0] == [];
    assert GoodRun(cfg, calls, now);
    ReplyToCharge(cfg, calls, keys, now, i);
    DistinctMatching(sha, cs, i);
    assert [] + [Allow(keys, 0)] == calls;
    SpentNext(cfg, [], keys, 0, cs[i], now);
    if i == 0 {
      LifeFromFirstCharge(cfg, calls, keys, now, i);
      assert calls[..|calls| - 1] == [] && Spent(cfg, [], cs[i], now) == 0;
    }
  }
}
