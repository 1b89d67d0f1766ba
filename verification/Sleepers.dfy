/**
 A goroutine that sleeps a whole window between naming a bucket and counting in it: why the limit
 is about hits read before the window ends.
 */
module Sleepers {
  import opened Wrappers
  import opened BucketNames
  import opened Counters
  import opened Limiters
  import opened LimiterRuns
  import opened Interleaving

  const SLEEPER_POLICY: Policy := map["login:ip" := [Rule(1, 60 * SECOND)]]
  const SLEEPER_KEY: Key := Key("login", "ip", "192.0.2.60")

  /** Two attempts named in one minute; the second sleeps for a minute before it counts. */
  const SLEEPER_STEPS: seq<Step> := [
    BeginAllow(0, [SLEEPER_KEY]), BeginAllow(1, [SLEEPER_KEY]), Name(0), Name(1), Count(0), Return(0),
    Tick(60 * SECOND), Count(1), Return(1)
  ]

  lemma SleeperCharges()
    ensures GoodPolicy(SLEEPER_POLICY) && GoodKeys([SLEEPER_KEY])
    ensures Charges(SLEEPER_POLICY, [SLEEPER_KEY]) == [Charge(SLEEPER_KEY, Rule(1, 60 * SECOND))]
  {
    var keys := [SLEEPER_KEY];
    assert PolicyKey("login", "ip") == "login:ip";
    assert RulesFor(SLEEPER_POLICY, SLEEPER_KEY) == SLEEPER_POLICY["login:ip"];
    assert ChargesTo(SLEEPER_POLICY, keys, 0, 0) == [];
    assert Charges(SLEEPER_POLICY, keys) == ChargesTo(SLEEPER_POLICY, keys, 0, 1);
  }

  /**
   With a limit of one, both attempts pass in a reachable state, both counted in the bucket of the
   same minute: the second was read as that bucket's first hit expired.
   */
  lemma SleeperIsAdmitted(sha: Digest)
    ensures var cfg := Config(sha, SLEEPER_POLICY);
            var s0 := State(0, InMemory(map[]), map[], [], [], {});
            var end := After(cfg, s0, SLEEPER_STEPS);
            && Initial(s0) && end.Some? && end.value.passed == {0, 1}
            && EventsName(sha, end.value.log, BucketName(sha, Charge(SLEEPER_KEY, Rule(1, 60 * SECOND)), 0))
  {
    hide BucketName, ChargesTo, RulesFor, Next, After, Enabled;
    var cfg := Config(sha, SLEEPER_POLICY);
    var c := Charge(SLEEPER_KEY, Rule(1, 60 * SECOND));
    var name, w := BucketName(sha, c, 0), 60 * SECOND;
    var fresh0, done0 := Charging(0, [c], Some(0), true), Charging(0, [], None, true);
    var fresh1, done1 := Charging(1, [c], Some(0), true), Charging(1, [], None, true);
    var hit0, hit1 := Counted(0, c, 0, 0, Some(1)), Counted(1, c, 0, w, Some(1));
    var keys := [[SLEEPER_KEY], [SLEEPER_KEY]];
    var s0 := State(0, InMemory(map[]), map[], [], [], {});
    var s4 := State(0, InMemory(map[]), map[0 := fresh0, 1 := fresh1], [], keys, {});
    var s5 := State(0, InMemory(map[name := Bucket(1, w)]), map[0 := done0, 1 := fresh1], [hit0], keys, {});
    var s6 := s5.(threads := map[1 := fresh1], passed := {0});
    var s7 := s6.(clock := w);
    var s8 := s7.(store := InMemory(map[name := Bucket(1, w + w)]), threads := map[1 := done1], log := [hit0, hit1]);
    var s9 := s8.(threads := map[], passed := {0, 1});
    BothNamed(cfg, s0, s4);
    FirstCounts(cfg, s4, s5);
    StepTo(cfg, s0, 4, s4, s5);
    FirstReturns(cfg, s5, s6);
    StepTo(cfg, s0, 5, s5, s6);
    SleeperWakes(cfg, s6, s7);
    StepTo(cfg, s0, 6, s6, s7);
    SecondCounts(cfg, s7, s8);
    StepTo(cfg, s0, 7, s7, s8);
    SecondReturns(cfg, s8, s9);
    StepTo(cfg, s0, 8, s8, s9);
    assert SLEEPER_STEPS[..9] == SLEEPER_STEPS;
  }

  /** Two hits on the one bucket. */
  predicate EventsName(sha: Digest, log: seq<Entry>, name: string) {
    |log| == 2 && forall i | 0 <= i < 2 :: log[i].Counted? && EventOf(sha, log[i]).name == name
  }

  lemma StepTo(cfg: Config, s0: State, n: nat, s: State, s': State)
    requires n < |SLEEPER_STEPS| && After(cfg, s0, SLEEPER_STEPS[..n]) == Some(s)
    requires Enabled(s, SLEEPER_STEPS[n]) && s' == Next(cfg, s, SLEEPER_STEPS[n])
    ensures After(cfg, s0, SLEEPER_STEPS[..n + 1]) == Some(s')
  {
    hide Next, Enabled;
    assert SLEEPER_STEPS[..n + 1][..n] == SLEEPER_STEPS[..n];
  }

  lemma BothNamed(cfg: Config, s0: State, s4: State)
    requires cfg.policy == SLEEPER_POLICY && s0 == State(0, InMemory(map[]), map[], [], [], {})
    requires var c := Charge(SLEEPER_KEY, Rule(1, 60 * SECOND));
             s4 == State(0, InMemory(map[]),
                         map[0 := Charging(0, [c], Some(0), true), 1 := Charging(1, [c], Some(0), true)], [],
                         [[SLEEPER_KEY], [SLEEPER_KEY]], {})
    ensures After(cfg, s0, SLEEPER_STEPS[..4]) == Some(s4)
  {
    hide BucketName, ChargesTo, RulesFor, After;
    SleeperCharges();
    var c := Charge(SLEEPER_KEY, Rule(1, 60 * SECOND));
    var start0, start1 := Charging(0, [c], None, true), Charging(1, [c], None, true);
    var s1 := s0.(threads := map[0 := start0], attempts := [[SLEEPER_KEY]]);
    var s2 := s1.(threads := map[0 := start0, 1 := start1], attempts := [[SLEEPER_KEY], [SLEEPER_KEY]]);
    var s3 := s2.(threads := map[0 := start0.(named := Some(0)), 1 := start1]);
    AtStart(cfg, s0);
    assert s1 == Next(cfg, s0, SLEEPER_STEPS[0]);
    StepTo(cfg, s0, 0, s0, s1);
    assert s2 == Next(cfg, s1, SLEEPER_STEPS[1]);
    StepTo(cfg, s0, 1, s1, s2);
    assert s3 == Next(cfg, s2, SLEEPER_STEPS[2]);
    StepTo(cfg, s0, 2, s2, s3);
    assert s4 == Next(cfg, s3, SLEEPER_STEPS[3]);
    StepTo(cfg, s0, 3, s3, s4);
  }

  lemma AtStart(cfg: Config, s0: State)
    ensures After(cfg, s0, SLEEPER_STEPS[..0]) == Some(s0)
  {
  }

  lemma FirstCounts(cfg: Config, s: State, s': State)
    requires var c := Charge(SLEEPER_KEY, Rule(1, 60 * SECOND));
             && s.clock == 0 && s.store == InMemory(map[]) && s.log == []
             && s.threads == map[0 := Charging(0, [c], Some(0), true), 1 := Charging(1, [c], Some(0), true)]
             && s' == s.(store := InMemory(map[BucketName(cfg.sha, c, 0) := Bucket(1, 60 * SECOND)]),
                         threads := map[0 := Charging(0, [], None, true), 1 := Charging(1, [c], Some(0), true)],
                         log := [Counted(0, c, 0, 0, Some(1))])
    ensures Enabled(s, Count(0)) && s' == Next(cfg, s, Count(0))
  {
    hide BucketName;
    assert s.threads[0].todo[1..] == [];
  }

  lemma FirstReturns(cfg: Config, s: State, s': State)
    requires 0 in s.threads && s.threads[0] == Charging(0, [], None, true) && s.passed == {}
    requires s' == s.(threads := s.threads - {0}, passed := {0})
    ensures Enabled(s, Return(0)) && s' == Next(cfg, s, Return(0))
  {
  }

  lemma SleeperWakes(cfg: Config, s: State, s': State)
    requires s.clock == 0 && s' == s.(clock := 60 * SECOND)
    ensures Enabled(s, Tick(60 * SECOND)) && s' == Next(cfg, s, Tick(60 * SECOND))
  {
  }

  lemma SecondCounts(cfg: Config, s: State, s': State)
    requires var c := Charge(SLEEPER_KEY, Rule(1, 60 * SECOND));
             && s.clock == 60 * SECOND && s.log == [Counted(0, c, 0, 0, Some(1))]
             && s.store == InMemory(map[BucketName(cfg.sha, c, 0) := Bucket(1, 60 * SECOND)])
             && s.threads == map[1 := Charging(1, [c], Some(0), true)]
             && s' == s.(store := InMemory(map[BucketName(cfg.sha, c, 0) := Bucket(1, 120 * SECOND)]),
                         threads := map[1 := Charging(1, [], None, true)],
                         log := s.log + [Counted(1, c, 0, 60 * SECOND, Some(1))])
    ensures Enabled(s, Count(1)) && s' == Next(cfg, s, Count(1))
  {
    hide BucketName;
    assert s.threads[1].todo[1..] == [];
  }

  lemma SecondReturns(cfg: Config, s: State, s': State)
    requires s.threads == map[1 := Charging(1, [], None, true)] && s.passed == {0}
    requires s' == s.(threads := map[], passed := {0, 1})
    ensures Enabled(s, Return(1)) && s' == Next(cfg, s, Return(1))
  {
  }
}
