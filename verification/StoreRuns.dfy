/**
 Whole runs of the limiter over either store, with any requests and replies lost: what calls leave
 behind, and how many of them a rule lets through.
 */
module StoreRuns {
  import opened Wrappers
  import opened BucketNames
  import opened Counters
  import opened RedisStores
  import opened Limiters
  import opened LimiterRuns
  import opened StoreCounts

  /* ---- what a run leaves -------------------------------------------------------- */

  /** How many of the hits a call makes one after another are answered before one is not. */
  function AnsweredHits(st: StoreState, h: seq<Event>): (n: nat)
    requires AllHits(h)
    ensures n <= |h|
  {
    if h == [] then 0 else
      var k := |h| - 1;
      var n := AnsweredHits(st, h[..k]);
      if n < k || Answer(ServeAll(st, h[..k]), h[k]).None? then n else k + 1
  }

  lemma {:induction false} FirstUnanswered(st: StoreState, h: seq<Event>)
    requires AllHits(h)
    ensures forall i | 0 <= i < AnsweredHits(st, h) :: Answer(ServeAll(st, h[..i]), h[i]).Some?
    ensures AnsweredHits(st, h) < |h| ==> Answer(ServeAll(st, h[..AnsweredHits(st, h)]), h[AnsweredHits(st, h)]).None?
    decreases |h|
  {
    hide Answer, ServeAll;
    if h != [] {
      var k := |h| - 1;
      FirstUnanswered(st, h[..k]);
      assert forall i | 0 <= i < k :: h[..k][..i] == h[..i] && h[..k][i] == h[i];
    }
  }

  /** The hits a call sends: those answered, and the first that is not. */
  function Made(st: StoreState, h: seq<Event>): (made: seq<Event>)
    requires AllHits(h)
    ensures made <= h
  {
    var n := AnsweredHits(st, h);
    if n < |h| then h[..n + 1] else h
  }

  function EventsOf(st: StoreState, cfg: Config, call: Call): seq<Event> {
    if call.Allow? then Made(st, Hits(cfg.sha, Charges(cfg.policy, call.keys), call.now)) else CallEvents(cfg, call)
  }

  /** Everything the calls of a run send to a store that starts as `init`. */
  function Log(init: StoreState, cfg: Config, calls: seq<Call>): seq<Event> {
    if calls == [] then [] else
      var before := Log(init, cfg, calls[..|calls| - 1]);
      before + EventsOf(ServeAll(init, before), cfg, calls[|calls| - 1])
  }

  /** A call on `keys` at `now`, after `calls`, is let through: everything answered and nothing tripped. */
  predicate AllowedOn(init: StoreState, cfg: Config, calls: seq<Call>, keys: seq<Key>, now: Time) {
    var cs := Charges(cfg.policy, keys);
    Verdict(ServeAll(init, Log(init, cfg, calls)), cs, Hits(cfg.sha, cs, now)).allowed
  }

  lemma {:induction false} ServeAllConcat(st: StoreState, a: seq<Event>, b: seq<Event>)
    ensures ServeAll(st, a + b) == ServeAll(ServeAll(st, a), b)
    decreases |b|
  {
    hide Serve;
    if b == [] {
      assert a + b == a;
    } else {
      assert (a + b)[..|a + b| - 1] == a + b[..|b| - 1];
      ServeAllConcat(st, a, b[..|b| - 1]);
    }
  }

  /** A call is let through exactly when each of its hits is answered with a count within its rule. */
  lemma {:induction false} AllowedMeaning(st: StoreState, cs: seq<Charge>, h: seq<Event>)
    requires |cs| == |h| && AllHits(h)
    ensures Verdict(st, cs, h).allowed <==> forall i | 0 <= i < |h| :: Within(st, cs, h, i)
    decreases |cs|
  {
    hide Answer, ServeAll;
    if cs != [] {
      var n := |cs| - 1;
      AllowedMeaning(st, cs[..n], h[..n]);
      forall i | 0 <= i < n
        ensures Within(st, cs[..n], h[..n], i) == Within(st, cs, h, i)
      {
        assert h[..n][..i] == h[..i];
      }
      assert Verdict(st, cs, h).allowed <==> Verdict(st, cs[..n], h[..n]).allowed && Within(st, cs, h, n);
      if Verdict(st, cs, h).allowed {
        forall i | 0 <= i < |h|
          ensures Within(st, cs, h, i)
        {
          assert i < n ==> Within(st, cs[..n], h[..n], i);
        }
      } else if Verdict(st, cs[..n], h[..n]).allowed {
        assert !Within(st, cs, h, n);
      } else {
        var i :| 0 <= i < n && !Within(st, cs[..n], h[..n], i);
        assert !Within(st, cs, h, i);
      }
    }
  }

  lemma AllowedIsAnswered(st: StoreState, cs: seq<Charge>, h: seq<Event>)
    requires |cs| == |h| && AllHits(h) && Verdict(st, cs, h).allowed
    ensures AllAnswered(st, h)
  {
    hide Answer, ServeAll, Verdict;
    AllowedMeaning(st, cs, h);
    forall i | 0 <= i < |h|
      ensures Answer(ServeAll(st, h[..i]), h[i]).Some?
    {
      assert Within(st, cs, h, i);
    }
  }

  /** Hit `i` is answered with a count within its rule's limit. */
  predicate Within(st: StoreState, cs: seq<Charge>, h: seq<Event>, i: nat)
    requires i < |cs| == |h| && AllHits(h)
  {
    var answer := Answer(ServeAll(st, h[..i]), h[i]);
    answer.Some? && answer.value.0 <= cs[i].rule.limit
  }

  /**
   What the `Limiter` class does with one clock value is a step of the run: the same hits reach
   the same store, and the decision allows exactly when the run says so.
   */
  lemma ClassFollowsStore(init: StoreState, cfg: Config, calls: seq<Call>, keys: seq<Key>, now: Time, clock: nat -> Time,
                          from: nat, readings: nat, after: StoreState, n: nat, d: Decision)
    requires forall k | from <= k < from + 2 * |Charges(cfg.policy, keys)| :: clock(k) == now
    requires var st, cs := ServeAll(init, Log(init, cfg, calls)), Charges(cfg.policy, keys);
             || Consumed(st, after, cfg.sha, cs, clock, from, readings, d)
             || FailedAt(st, after, cfg.sha, cs, clock, from, n, d)
    ensures after == ServeAll(init, Log(init, cfg, calls + [Allow(keys, now)]))
    ensures d.allowed <==> AllowedOn(init, cfg, calls, keys, now)
  {
    hide BucketName, Verdict, ServeAll, Serve, Answer, ChargesTo;
    var log, cs := Log(init, cfg, calls), Charges(cfg.policy, keys);
    var st, h := ServeAll(init, log), Hits(cfg.sha, cs, now);
    StampedIsHits(cfg.sha, cs, clock, from, now);
    assert (calls + [Allow(keys, now)])[..|calls|] == calls;
    ServeAllConcat(init, log, Made(st, h));
    if FailedAt(st, after, cfg.sha, cs, clock, from, n, d) {
      StampedIsHits(cfg.sha, cs[..n], clock, from, now);
      FailedMade(st, cs, h, n, now, cfg.sha);
    } else {
      AllAnsweredMade(st, h);
    }
  }

  /** The same for a reset. */
  lemma ResetFollowsStore(init: StoreState, cfg: Config, calls: seq<Call>, keys: seq<Key>, now: Time,
                          clock: nat -> Time, from: nat)
    requires forall k | from <= k < from + |Charges(cfg.policy, keys)| :: clock(k) == now
    ensures var st, cs := ServeAll(init, Log(init, cfg, calls)), Charges(cfg.policy, keys);
            var names := ResetNames(cfg.sha, cs, clock, from);
            (if cs == [] then st else Serve(st, Clear(set x | x in names))) ==
            ServeAll(init, Log(init, cfg, calls + [Reset(keys, now)]))
  {
    hide BucketName, ServeAll, Serve, ChargesTo, ResetNames;
    var log, cs := Log(init, cfg, calls), Charges(cfg.policy, keys);
    var next := calls + [Reset(keys, now)];
    assert next[..|calls|] == calls;
    ResetNamesAre(cfg.sha, cs, clock, from, now);
    if cs == [] {
      assert log + [] == log;
    } else {
      var e := Clear(set c | c in cs :: BucketName(cfg.sha, c, now));
      ServeLast(init, log + [e]);
      assert (log + [e])[..|log|] == log;
    }
  }

  lemma AllAnsweredMade(st: StoreState, h: seq<Event>)
    requires AllHits(h) && AllAnswered(st, h)
    ensures Made(st, h) == h
  {
    hide Answer, ServeAll;
    FirstUnanswered(st, h);
  }

  lemma FailedMade(st: StoreState, cs: seq<Charge>, h: seq<Event>, n: nat, now: Time, sha: Digest)
    requires n < |cs| && h == Hits(sha, cs, now)
    requires AllAnswered(st, Hits(sha, cs[..n], now)) && Answer(ServeAll(st, Hits(sha, cs[..n], now)), h[n]) == None
    ensures ServeAll(st, Made(st, h)) == Serve(ServeAll(st, Hits(sha, cs[..n], now)), h[n])
    ensures !Verdict(st, cs, h).allowed
  {
    hide BucketName, Verdict, Serve, Answer, ServeAll;
    var p := Hits(sha, cs[..n], now);
    assert p == h[..n];
    forall i | 0 <= i < n
      ensures Answer(ServeAll(st, h[..i]), h[i]).Some?
    {
      assert p[..i] == h[..i] && p[i] == h[i];
    }
    FirstUnanswered(st, h);
    assert AnsweredHits(st, h) == n;
    assert Made(st, h) == h[..n + 1];
    ServeLast(st, h[..n + 1]);
    assert h[..n + 1][..n] == h[..n];
    AllowedMeaning(st, cs, h);
    assert !Within(st, cs, h, n);
  }

  lemma ServeLast(st: StoreState, h: seq<Event>)
    requires h != []
    ensures ServeAll(st, h) == Serve(ServeAll(st, h[..|h| - 1]), h[|h| - 1])
  {
    hide Serve;
  }

  /** Over memory, where nothing is lost, this is the run of `LimiterRuns`. */
  lemma {:induction false} MemoryRunsAgree(cfg: Config, calls: seq<Call>, keys: seq<Key>, now: Time)
    ensures Log(InMemory(map[]), cfg, calls) == History(cfg, calls)
    ensures AllowedOn(InMemory(map[]), cfg, calls, keys, now) == DecisionOn(cfg, calls, keys, now).allowed
    decreases |calls|
  {
    hide BucketName, Verdict, ChargesTo;
    var init := InMemory(map[]);
    if calls != [] {
      var p, call := calls[..|calls| - 1], calls[|calls| - 1];
      MemoryRunsAgree(cfg, p, keys, now);
      if call.Allow? {
        MemoryAnswers(Run(map[], History(cfg, p)), Hits(cfg.sha, Charges(cfg.policy, call.keys), call.now));
      }
      ServeInMemory(map[], History(cfg, p));
    }
    ServeInMemory(map[], History(cfg, calls));
  }

  lemma MemoryAnswers(m: Buckets, h: seq<Event>)
    requires AllHits(h)
    ensures Made(InMemory(m), h) == h
  {
    hide ReplyTo, Run;
    forall i | 0 <= i < |h|
      ensures Answer(ServeAll(InMemory(m), h[..i]), h[i]).Some?
    {
      ServeInMemory(m, h[..i]);
    }
    AllAnsweredMade(InMemory(m), h);
  }

  /* ---- the shape of a log ---------------------------------------------------------- */

  lemma {:induction false} LogShape(init: StoreState, cfg: Config, calls: seq<Call>, now: Time)
    requires GoodRun(cfg, calls, now)
    ensures Ordered(Log(init, cfg, calls), now) && Prompt(cfg.sha, Log(init, cfg, calls))
    decreases |calls|
  {
    hide BucketName, ServeAll, Ordered, Prompt;
    if calls == [] {
      NothingLogged(cfg.sha, now);
    } else {
      var n := |calls| - 1;
      GoodRunPrefix(cfg, calls, now, n);
      var before := Log(init, cfg, calls[..n]);
      LogShape(init, cfg, calls[..n], calls[n].now);
      CallKeepsShape(init, cfg, before, calls[n]);
      OrderedLater(Log(init, cfg, calls), calls[n].now, now);
    }
  }

  lemma NothingLogged(sha: Digest, now: Time)
    ensures Ordered([], now) && Prompt(sha, [])
  {
  }

  lemma OrderedLater(h: seq<Event>, now: Time, later: Time)
    requires Ordered(h, now) && now <= later
    ensures Ordered(h, later)
  {
  }

  lemma CallKeepsShape(init: StoreState, cfg: Config, before: seq<Event>, call: Call)
    requires GoodPolicy(cfg.policy) && GoodKeys(call.keys)
    requires Ordered(before, call.now) && Prompt(cfg.sha, before)
    ensures var after := before + EventsOf(ServeAll(init, before), cfg, call);
            Ordered(after, call.now) && Prompt(cfg.sha, after)
  {
    hide BucketName, ServeAll, Ordered, Prompt, AnsweredHits;
    var cs := Charges(cfg.policy, call.keys);
    ChargesGood(cfg.policy, call.keys);
    if call.Allow? {
      var h := Hits(cfg.sha, cs, call.now);
      var made := Made(ServeAll(init, before), h);
      assert made == Hits(cfg.sha, cs[..|made|], call.now);
      PartialCall(cfg, before, cs, call.now, |made|);
    } else {
      CallShape(cfg, before, call);
    }
  }

  /* ---- how many calls a rule lets through -------------------------------------------- */

  function AtLeastZero(n: int): nat {
    if n < 0 then 0 else n
  }

  /** The call's hit for the charge `c` is made and answered with a count within its limit. */
  predicate WithinRule(init: StoreState, cfg: Config, calls: seq<Call>, keys: seq<Key>, now: Time, c: Charge) {
    var st, cs := ServeAll(init, Log(init, cfg, calls)), Charges(cfg.policy, keys);
    exists i | 0 <= i < |cs| :: WithinAt(st, cs, Hits(cfg.sha, cs, now), i, c)
  }

  predicate WithinAt(st: StoreState, cs: seq<Charge>, h: seq<Event>, i: nat, c: Charge)
    requires i < |cs| == |h| && AllHits(h)
  {
    cs[i] == c && i < |Made(st, h)| && Within(st, cs, h, i)
  }

  /** A call let through was within every one of its rules. */
  lemma AllowedIsWithin(init: StoreState, cfg: Config, calls: seq<Call>, keys: seq<Key>, now: Time, c: Charge)
    requires AllowedOn(init, cfg, calls, keys, now) && c in Charges(cfg.policy, keys)
    ensures WithinRule(init, cfg, calls, keys, now, c)
  {
    hide BucketName, ServeAll, Verdict, Answer;
    var st, cs := ServeAll(init, Log(init, cfg, calls)), Charges(cfg.policy, keys);
    var h := Hits(cfg.sha, cs, now);
    AllowedMeaning(st, cs, h);
    AllowedIsAnswered(st, cs, h);
    AllAnsweredMade(st, h);
    var i :| 0 <= i < |cs| && cs[i] == c;
    assert WithinAt(st, cs, h, i, c);
  }

  /** Call `i` is within the rule of `c`, read in [lo, hi), whatever its other rules said. */
  predicate PassedAt(init: StoreState, cfg: Config, calls: seq<Call>, i: nat, c: Charge, lo: Time, hi: Time)
    requires i < |calls|
  {
    calls[i].Allow? && lo <= calls[i].now < hi && WithinRule(init, cfg, calls[..i], calls[i].keys, calls[i].now, c)
  }

  /** Number of such calls from position `from` on. */
  function Passed(init: StoreState, cfg: Config, calls: seq<Call>, from: nat, c: Charge, lo: Time, hi: Time): nat
    requires from <= |calls|
    decreases |calls|
  {
    if |calls| == from then 0 else
      Passed(init, cfg, calls[..|calls| - 1], from, c, lo, hi) +
      (if PassedAt(init, cfg, calls, |calls| - 1, c, lo, hi) then 1 else 0)
  }

  /** No call from `from` on resets the counter of `c`. */
  predicate NoReset(cfg: Config, calls: seq<Call>, from: nat, c: Charge) {
    forall i | from <= i < |calls| && calls[i].Reset? ::
      Matching(cfg.sha, Charges(cfg.policy, calls[i].keys), c) == 0
  }

  /** More calls can only add admissions, and one within its limit adds one. */
  lemma {:induction false} AdmissionsGrow(st: StoreState, h: seq<Event>, x: seq<Event>, from: nat, name: string,
                                          until: Time, limit: int)
    requires from <= |h|
    ensures AdmissionsOver(st, h + x, from, name, until, limit) >=
            AdmissionsOver(st, h, from, name, until, limit) +
            (if exists j | |h| <= j < |h + x| :: AdmittedOver(st, h + x, j, name, until, limit) then 1 else 0)
    decreases |x|
  {
    hide AdmittedOver;
    if x == [] {
      assert h + x == h;
    } else {
      var y, n := x[..|x| - 1], |x| - 1;
      AdmissionsGrow(st, h, y, from, name, until, limit);
      assert (h + x)[..|h + x| - 1] == h + y;
      forall j | |h| <= j < |h + y|
        ensures AdmittedOver(st, h + x, j, name, until, limit) == AdmittedOver(st, h + y, j, name, until, limit)
      {
        assert (h + x)[..j] == (h + y)[..j] && (h + x)[j] == (h + y)[j];
        SameAdmission(st, h + x, h + y, j, name, until, limit);
      }
    }
  }

  lemma SameAdmission(st: StoreState, h: seq<Event>, g: seq<Event>, j: nat, name: string, until: Time, limit: int)
    requires j < |h| && j < |g| && h[..j] == g[..j] && h[j] == g[j]
    ensures AdmittedOver(st, h, j, name, until, limit) == AdmittedOver(st, g, j, name, until, limit)
  {
    hide Answer, ServeAll;
  }

  /** A call within its rule makes an admitted hit on the bucket of the window it is read in. */
  lemma WithinIsAdmitted(init: StoreState, cfg: Config, calls: seq<Call>, keys: seq<Key>, now: Time, c: Charge,
                         t: Time) returns (j: nat)
    requires WithinRule(init, cfg, calls, keys, now, c) && GoodCharge(c) && InWindow(now, t, c.rule.window)
    ensures var before := Log(init, cfg, calls);
            var made := EventsOf(ServeAll(init, before), cfg, Allow(keys, now));
            && j < |made|
            && AdmittedOver(init, before + made, |before| + j, BucketName(cfg.sha, c, t),
                            Truncate(t, c.rule.window) + c.rule.window, AtLeastZero(c.rule.limit))
  {
    hide BucketName, ServeAll, Answer, AnsweredHits, Log;
    var before, cs := Log(init, cfg, calls), Charges(cfg.policy, keys);
    var st, h := ServeAll(init, before), Hits(cfg.sha, cs, now);
    j :| 0 <= j < |cs| && WithinAt(st, cs, h, j, c);
    var made := Made(st, h);
    NameInjective(cfg.sha, c, now, c, t);
    SameWindow(now, t, c.rule.window);
    ServeAllConcat(init, before, made[..j]);
    assert (before + made)[..|before| + j] == before + made[..j];
    assert made[..j] == h[..j] && (before + made)[|before| + j] == h[j];
  }

  lemma {:induction false} LogGrows(init: StoreState, cfg: Config, calls: seq<Call>, from: nat)
    requires from <= |calls|
    ensures |Log(init, cfg, calls[..from])| <= |Log(init, cfg, calls)|
    ensures Log(init, cfg, calls[..from]) <= Log(init, cfg, calls)
    decreases |calls|
  {
    hide ServeAll, EventsOf;
    if from < |calls| {
      var n := |calls| - 1;
      assert calls[..n][..from] == calls[..from];
      LogGrows(init, cfg, calls[..n], from);
    } else {
      assert calls[..from] == calls;
    }
  }

  /** Calls a rule lets through in one window are admissions of its bucket. */
  lemma {:induction false} PassedIsAdmitted(init: StoreState, cfg: Config, calls: seq<Call>, from: nat, c: Charge, t: Time)
    requires from <= |calls| && GoodCharge(c)
    ensures var start := Truncate(t, c.rule.window);
            && |Log(init, cfg, calls[..from])| <= |Log(init, cfg, calls)|
            && Passed(init, cfg, calls, from, c, start, start + c.rule.window) <=
               AdmissionsOver(init, Log(init, cfg, calls), |Log(init, cfg, calls[..from])|, BucketName(cfg.sha, c, t),
                              start + c.rule.window, AtLeastZero(c.rule.limit))
    decreases |calls|
  {
    hide BucketName, ServeAll, EventsOf, WithinRule, AdmittedOver, Truncate;
    LogGrows(init, cfg, calls, from);
    if from < |calls| {
      var n := |calls| - 1;
      var w, start := c.rule.window, Truncate(t, c.rule.window);
      var name, cap := BucketName(cfg.sha, c, t), AtLeastZero(c.rule.limit);
      assert calls[..n][..from] == calls[..from];
      PassedIsAdmitted(init, cfg, calls[..n], from, c, t);
      var before := Log(init, cfg, calls[..n]);
      var made := EventsOf(ServeAll(init, before), cfg, calls[n]);
      AdmissionsGrow(init, before, made, |Log(init, cfg, calls[..from])|, name, start + w, cap);
      if PassedAt(init, cfg, calls, n, c, start, start + w) {
        SameWindow(t, calls[n].now, w);
        var j := WithinIsAdmitted(init, cfg, calls[..n], calls[n].keys, calls[n].now, c, t);
        assert AdmittedOver(init, before + made, |before| + j, name, start + w, cap);
        assert calls[n] == Allow(calls[n].keys, calls[n].now);
      }
    }
  }

  /** Without a reset of its counter, nothing clears the bucket of `c`. */
  lemma {:induction false} NoResetNoClear(init: StoreState, cfg: Config, calls: seq<Call>, from: nat, c: Charge,
                                          t: Time, now: Time)
    requires GoodRun(cfg, calls, now) && from <= |calls| && GoodCharge(c) && NoReset(cfg, calls, from, c)
    ensures Uncleared(init, Log(init, cfg, calls), |Log(init, cfg, calls[..from])|, BucketName(cfg.sha, c, t))
    decreases |calls|
  {
    hide BucketName, Log, EventsOf, Uncleared, ChargesTo, Matching, GoodCharge;
    var name := BucketName(cfg.sha, c, t);
    if from == |calls| {
      assert calls[..from] == calls;
      NothingAfter(init, Log(init, cfg, calls), name);
    } else {
      var n := |calls| - 1;
      assert calls[..n][..from] == calls[..from];
      NoResetNoClear(init, cfg, calls[..n], from, c, t, now);
      var before := Log(init, cfg, calls[..n]);
      LogSnoc(init, cfg, calls);
      ClearsOthers(init, cfg, before, calls[n], c, t);
      UnclearedConcat(init, before, EventsOf(ServeAll(init, before), cfg, calls[n]),
                      |Log(init, cfg, calls[..from])|, name);
    }
  }

  lemma NothingAfter(st: StoreState, h: seq<Event>, name: string)
    ensures Uncleared(st, h, |h|, name)
  {
  }

  lemma LogSnoc(init: StoreState, cfg: Config, calls: seq<Call>)
    requires calls != []
    ensures var before := Log(init, cfg, calls[..|calls| - 1]);
            Log(init, cfg, calls) == before + EventsOf(ServeAll(init, before), cfg, calls[|calls| - 1])
  {
    hide EventsOf, ServeAll;
  }

  lemma UnclearedConcat(st: StoreState, h: seq<Event>, x: seq<Event>, from: nat, name: string)
    requires Uncleared(st, h, from, name) && forall i | 0 <= i < |x| && x[i].Clear? :: name !in x[i].names
    ensures Uncleared(st, h + x, from, name)
  {
    forall i | from <= i < |h + x| && (h + x)[i].Clear? && Arrives(st, i)
      ensures name !in (h + x)[i].names
    {
      if i < |h| {
        assert (h + x)[i] == h[i];
      } else {
        assert (h + x)[i] == x[i - |h|];
      }
    }
  }

  lemma ClearsOthers(init: StoreState, cfg: Config, before: seq<Event>, call: Call, c: Charge, t: Time)
    requires GoodPolicy(cfg.policy) && GoodKeys(call.keys) && GoodCharge(c)
    requires call.Reset? ==> Matching(cfg.sha, Charges(cfg.policy, call.keys), c) == 0
    ensures var made := EventsOf(ServeAll(init, before), cfg, call);
            forall i | 0 <= i < |made| && made[i].Clear? :: BucketName(cfg.sha, c, t) !in made[i].names
  {
    hide BucketName, ServeAll, ChargesTo, AnsweredHits;
    var cs := Charges(cfg.policy, call.keys);
    if call.Reset? {
      ChargesGood(cfg.policy, call.keys);
      MatchingMember(cfg.sha, cs, c);
      forall d | d in cs
        ensures BucketName(cfg.sha, d, call.now) != BucketName(cfg.sha, c, t)
      {
        NameInjective(cfg.sha, d, call.now, c, t);
      }
    }
  }

  /** Windows of whole seconds start and last whole milliseconds. */
  lemma WholeMilliseconds(t: Time, w: Duration)
    requires WholeSeconds(w)
    ensures MillisWindow(Truncate(t, w), w)
  {
    WholeSecondStart(t, w);
    SecondsInMillis(Truncate(t, w));
    SecondsInMillis(w);
  }

  lemma SecondsInMillis(n: int)
    requires n % SECOND == 0
    ensures n % MILLISECOND == 0
  {
  }

  /**
   The cap, over either store and whatever requests and replies are lost: between Resets of its
   counter, at most `limit` calls read in one aligned window are within a rule for one key.
   */
  lemma WindowCap(init: StoreState, cfg: Config, calls: seq<Call>, from: nat, c: Charge, t: Time, last: Time)
    requires Empty(init) && GoodRun(cfg, calls, last) && from <= |calls| && GoodCharge(c)
    requires NoReset(cfg, calls, from, c)
    ensures var start := Truncate(t, c.rule.window);
            Passed(init, cfg, calls, from, c, start, start + c.rule.window) <= AtLeastZero(c.rule.limit)
  {
    hide BucketName, ServeAll, Ordered, Prompt, Log, Passed, OnlyFrom, Truncate, WholeSeconds, Uncleared, NoReset;
    var start, name := Truncate(t, c.rule.window), BucketName(cfg.sha, c, t);
    var log := Log(init, cfg, calls);
    PassedIsAdmitted(init, cfg, calls, from, c, t);
    LogShape(init, cfg, calls, last);
    PromptHitsStayInWindow(cfg.sha, log, c, t);
    WholeMilliseconds(t, c.rule.window);
    NoResetNoClear(init, cfg, calls, from, c, t, last);
    LimitHoldsOver(init, log, |Log(init, cfg, calls[..from])|, name, c.rule.window, start,
                   AtLeastZero(c.rule.limit), last);
  }

  /* ---- any interval ------------------------------------------------------------------ */

  lemma {:induction false} PassedSplit(init: StoreState, cfg: Config, calls: seq<Call>, from: nat, c: Charge,
                                       lo: Time, mid: Time, hi: Time)
    requires from <= |calls| && lo <= mid <= hi
    ensures Passed(init, cfg, calls, from, c, lo, hi) ==
            Passed(init, cfg, calls, from, c, lo, mid) + Passed(init, cfg, calls, from, c, mid, hi)
    decreases |calls|
  {
    if |calls| > from {
      hide WithinRule;
      PassedSplit(init, cfg, calls[..|calls| - 1], from, c, lo, mid, hi);
    }
  }

  lemma {:induction false} ManyWindowsCap(init: StoreState, cfg: Config, calls: seq<Call>, from: nat, c: Charge, t: Time,
                                          n: nat, last: Time)
    requires Empty(init) && GoodRun(cfg, calls, last) && from <= |calls| && GoodCharge(c)
    requires NoReset(cfg, calls, from, c)
    ensures var start := Truncate(t, c.rule.window);
            Passed(init, cfg, calls, from, c, start, start + n * c.rule.window) <= AtLeastZero(c.rule.limit) * n
    decreases n
  {
    hide Passed, Truncate, AtLeastZero, NoReset, WholeSeconds, Empty;
    var w, start, cap := c.rule.window, Truncate(t, c.rule.window), AtLeastZero(c.rule.limit);
    if n == 0 {
      PassedSplit(init, cfg, calls, from, c, start, start, start);
    } else {
      ManyWindowsCap(init, cfg, calls, from, c, t, n - 1, last);
      var mid, end := start + (n - 1) * w, start + n * w;
      PositiveWindow(c);
      OneMore(w, n);
      OneMore(cap, n);
      NextStart(t, w, n - 1);
      PassedSplit(init, cfg, calls, from, c, start, mid, end);
      WindowCap(init, cfg, calls, from, c, mid, last);
    }
  }

  lemma PositiveWindow(c: Charge)
    requires GoodCharge(c)
    ensures c.rule.window > 0
  {
  }

  lemma OneMore(w: int, n: int)
    requires n >= 1
    ensures n * w == (n - 1) * w + w && w * n == w * (n - 1) + w
    ensures w >= 0 ==> (n - 1) * w >= 0
  {
  }

  /** A whole number of windows after a window's start another one starts. */
  lemma NextStart(t: Time, w: Duration, n: nat)
    requires w > 0
    ensures Truncate(Truncate(t, w) + n * w, w) == Truncate(t, w) + n * w
  {
    hide Truncate;
    var q := t / w;
    assert Truncate(t, w) == w * q;
    Distributes(w, q, n);
    Aligned(w, q + n);
  }

  lemma Distributes(w: int, q: int, n: int)
    ensures w * q + n * w == w * (q + n)
  {
  }

  lemma Aligned(w: Duration, q: int)
    requires w > 0
    ensures Truncate(w * q, w) == w * q
  {
    var a := w * q;
    var k := a / w;
    assert a == w * k + a % w;
    if k < q {
      Scaled(w, k + 1, q);
    } else if q < k {
      Scaled(w, q + 1, k);
    }
  }

  function CeilDiv(n: int, d: int): int
    requires d > 0
  {
    (n + d - 1) / d
  }

  /**
   Sliding bound, over either store and whatever is lost: without Resets of its counter, in every
   half-open interval of length `len` at most limit * (ceil(len / window) + 1) calls are within a
   rule for one key, so at most twice the limit in one window. Calls let through are within all.
   */
  lemma SlidingBound(init: StoreState, cfg: Config, calls: seq<Call>, from: nat, c: Charge, lo: Time, len: Duration,
                     last: Time)
    requires Empty(init) && GoodRun(cfg, calls, last) && from <= |calls| && GoodCharge(c)
    requires NoReset(cfg, calls, from, c) && len >= 0
    ensures Passed(init, cfg, calls, from, c, lo, lo + len) <=
            AtLeastZero(c.rule.limit) * (CeilDiv(len, c.rule.window) + 1)
    ensures len == c.rule.window ==>
              Passed(init, cfg, calls, from, c, lo, lo + len) <= 2 * AtLeastZero(c.rule.limit)
  {
    hide Passed, NoReset, Empty;
    var w := c.rule.window;
    var start, n := Truncate(lo, w), CeilDiv(len, w) + 1;
    Covered(len, w);
    assert lo + len <= start + n * w;
    ManyWindowsCap(init, cfg, calls, from, c, lo, n, last);
    PassedSplit(init, cfg, calls, from, c, start, lo, start + n * w);
    PassedSplit(init, cfg, calls, from, c, lo, lo + len, start + n * w);
  }

  lemma Covered(len: int, w: int)
    requires len >= 0 && w > 0
    ensures CeilDiv(len, w) >= 0 && len + w <= (CeilDiv(len, w) + 1) * w
    ensures len == w ==> CeilDiv(len, w) == 1
  {
    var q := CeilDiv(len, w);
    assert len + w - 1 == q * w + (len + w - 1) % w;
    assert (q + 1) * w == q * w + w;
  }
}
