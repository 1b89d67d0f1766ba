/**
 The caps on login attempts with goroutines interleaved, over either store: attempts that sleep
 anywhere between naming a bucket and counting in it, alongside resets and every other endpoint's
 calls, with any requests and replies to the store lost.
 */
module LoginInterleaving {
  import opened Wrappers
  import opened Text
  import opened Emails
  import opened BucketNames
  import opened Limiters
  import opened LimiterRuns
  import opened Interleaving
  import opened Login

  /** The attempts that pass and hit the key's counter for the rule in the window of `t`, from entry `from` on. */
  function PassedIn(sha: Digest, s: State, from: nat, key: Key, rule: Rule, t: Time): set<nat> {
    MarkedIn(sha, s.passed, s.log, from, Charge(key, rule), t)
  }

  /** Every attempt that passes with the key is such a one, in the window its bucket was named for, if it counted before that ended. */
  lemma PassingAttemptIsMarked(cfg: Config, s0: State, steps: seq<Step>, s: State, a: nat, key: Key, rule: Rule)
    returns (i: nat)
    requires Initial(s0) && After(cfg, s0, steps) == Some(s) && a in s.passed && rule in RulesFor(cfg.policy, key)
    ensures a < |s.attempts|
    ensures key in s.attempts[a] ==>
              && i < |s.log| && HitBy(s.log, i, a, Charge(key, rule))
              && WithinLimit(s.log[i].answer, rule.limit)
              && (s.log[i].at < Truncate(s.log[i].namedAt, rule.window) + rule.window ==>
                    a in PassedIn(cfg.sha, s, i, key, rule, s.log[i].namedAt))
  {
    hide ChargesTo, WithinLimit, RulesFor, After;
    i := PassingIsCounted(cfg, s0, steps, s, a, Charge(key, rule));
    ChargesMembers(cfg.policy, s.attempts[a], Charge(key, rule));
    if key in s.attempts[a] && s.log[i].at < Truncate(s.log[i].namedAt, rule.window) + rule.window {
      assert Marks(cfg.sha, s.log, i, a, Charge(key, rule), s.log[i].namedAt);
    }
  }

  /** The attempt has a hit in the counter, answered within the rule. */
  ghost predicate CountedWithin(s: State, a: nat, c: Charge) {
    exists i: nat | i < |s.log| :: HitBy(s.log, i, a, c) && WithinLimit(s.log[i].answer, c.rule.limit)
  }

  /**
   So a login that passes has counted against its client and against the one address its spelling
   folds to, within every rule of both.
   */
  lemma PassingLoginIsCounted(cfg: Config, s0: State, steps: seq<Step>, s: State, a: nat,
                              lower: Lower, client: string, email: string)
    requires Initial(s0) && After(cfg, s0, steps) == Some(s) && a in s.passed
    requires a < |s.attempts| && s.attempts[a] == LoginKeys(lower, client, email)
    ensures var address, origin := Key("login", "email", lower(TrimSpace(email))), Key("login", "ip", client);
            && (forall rule | rule in RulesFor(cfg.policy, address) :: CountedWithin(s, a, Charge(address, rule)))
            && (forall rule | rule in RulesFor(cfg.policy, origin) :: CountedWithin(s, a, Charge(origin, rule)))
  {
    hide ChargesTo, WithinLimit, RulesFor, After, Initial, TrimSpace;
    var address, origin := Key("login", "email", lower(TrimSpace(email))), Key("login", "ip", client);
    assert address in s.attempts[a] && origin in s.attempts[a];
    forall rule | rule in RulesFor(cfg.policy, address)
      ensures CountedWithin(s, a, Charge(address, rule))
    {
      var i := PassingAttemptIsMarked(cfg, s0, steps, s, a, address, rule);
    }
    forall rule | rule in RulesFor(cfg.policy, origin)
      ensures CountedWithin(s, a, Charge(origin, rule))
    {
      var i := PassingAttemptIsMarked(cfg, s0, steps, s, a, origin, rule);
    }
  }

  /**
   However the goroutines of any endpoints interleave and whatever the store loses: between clears
   of an address's buckets, at most 5 of the attempts that pass hit the bucket of one aligned five
   minutes before those end, and at most 20 that of one aligned hour. Only attempts that pass reach
   the password check.
   */
  lemma AttemptCapUnderInterleaving(sha: Digest, s0: State, steps: seq<Step>, s: State, from: nat,
                                    address: string, t: Time)
    requires Initial(s0) && After(Config(sha, DEFAULT_POLICY), s0, steps) == Some(s) && from <= |s.log|
    requires NotCleared(s0.store, sha, s.log, from, Charge(EmailKey(address), Rule(5, 5 * MINUTE)), t)
    requires NotCleared(s0.store, sha, s.log, from, Charge(EmailKey(address), Rule(20, HOUR)), t)
    ensures RulesFor(DEFAULT_POLICY, EmailKey(address)) == [Rule(5, 5 * MINUTE), Rule(20, HOUR)]
    ensures |PassedIn(sha, s, from, EmailKey(address), Rule(5, 5 * MINUTE), t)| <= 5
    ensures |PassedIn(sha, s, from, EmailKey(address), Rule(20, HOUR), t)| <= 20
  {
    hide BucketName, After, RulesFor, NotCleared, MarkedIn;
    EmailRules(address);
    var cfg := Config(sha, DEFAULT_POLICY);
    AttemptsUnderInterleaving(cfg, s0, steps, s, from, Charge(EmailKey(address), Rule(5, 5 * MINUTE)), t);
    AttemptsUnderInterleaving(cfg, s0, steps, s, from, Charge(EmailKey(address), Rule(20, HOUR)), t);
  }

  /** The same for a client address, whatever accounts its attempts are for: 10 a minute and 60 an hour. */
  lemma ClientCapUnderInterleaving(sha: Digest, s0: State, steps: seq<Step>, s: State, from: nat,
                                   client: string, t: Time)
    requires Initial(s0) && After(Config(sha, DEFAULT_POLICY), s0, steps) == Some(s) && from <= |s.log|
    requires NotCleared(s0.store, sha, s.log, from, Charge(ClientKey(SCOPE_LOGIN, client), Rule(10, MINUTE)), t)
    requires NotCleared(s0.store, sha, s.log, from, Charge(ClientKey(SCOPE_LOGIN, client), Rule(60, HOUR)), t)
    ensures RulesFor(DEFAULT_POLICY, ClientKey(SCOPE_LOGIN, client)) == [Rule(10, MINUTE), Rule(60, HOUR)]
    ensures |PassedIn(sha, s, from, ClientKey(SCOPE_LOGIN, client), Rule(10, MINUTE), t)| <= 10
    ensures |PassedIn(sha, s, from, ClientKey(SCOPE_LOGIN, client), Rule(60, HOUR), t)| <= 60
  {
    hide BucketName, After, RulesFor, NotCleared, MarkedIn;
    ClientRules(client);
    var cfg := Config(sha, DEFAULT_POLICY);
    AttemptsUnderInterleaving(cfg, s0, steps, s, from, Charge(ClientKey(SCOPE_LOGIN, client), Rule(10, MINUTE)), t);
    AttemptsUnderInterleaving(cfg, s0, steps, s, from, Charge(ClientKey(SCOPE_LOGIN, client), Rule(60, HOUR)), t);
  }
}
