/**
 The login handler and what reaches the password check
 (backend/internal/http/handlers/auth.go, backend/internal/rate-limiter/middleware.go).
 */
module Login {
  import opened Wrappers
  import opened Text
  import opened BucketNames
  import opened Counters
  import opened Limiters
  import opened LimiterRuns
  import opened LimiterBounds
  import opened StoreCounts
  import opened StoreRuns
  import opened Emails

  function ClientKey(scope: string, client: string): Key {
    Key(scope, KEY_IP, client)
  }

  function EmailKey(address: string): Key {
    Key(SCOPE_LOGIN, KEY_EMAIL, address)
  }

  function LoginKeys(lower: Lower, client: string, email: string): seq<Key> {
    [ClientKey(SCOPE_LOGIN, client), EmailKey(NormalizeEmail(lower, email))]
  }

  /** How the service answers once the request is let through. */
  datatype Verified = Accepted | IncorrectCredentials | Broken

  datatype Response = LoggedIn | Unauthorized | ServerError | TooManyRequests(retryAfter: int)

  lemma {:induction false} StampedPrefix(sha: Digest, cs: seq<Charge>, clock: nat -> Time, from: nat, n: nat)
    requires n < |cs|
    ensures var h := Stamped(sha, cs, clock, from);
            && h[..n] == Stamped(sha, cs[..n], clock, from)
            && h[n] == Hit(BucketName(sha, cs[n], clock(from + 2 * n)), cs[n].rule.window, clock(from + 2 * n + 1))
    decreases |cs|
  {
    hide BucketName;
    var k := |cs| - 1;
    if n < k {
      StampedPrefix(sha, cs[..k], clock, from, n);
      assert cs[..k][..n] == cs[..n];
    }
  }

  /** A call that stopped at a store error did not have all its hits answered. */
  lemma FailedIsUnanswered(before: StoreState, after: StoreState, sha: Digest, cs: seq<Charge>,
                           clock: nat -> Time, from: nat, n: nat, d: Decision)
    requires FailedAt(before, after, sha, cs, clock, from, n, d)
    ensures !AllAnswered(before, Stamped(sha, cs, clock, from))
  {
    hide BucketName, Stamped, ServeAll, Answer;
    StampedPrefix(sha, cs, clock, from, n);
  }

  /**
   A request may proceed exactly when every bucket answered and no rule tripped, over either
   store. Otherwise it is told to wait at least a second: the decision's wait when the buckets
   answered, the window of the rule that met the store error when not.
   */
  method AllowRequest(limiter: Limiter, keys: seq<Key>) returns (ok: bool, retryAfter: int)
    requires limiter.Valid()
    modifies limiter.Footprint()
    ensures limiter.Valid() && fresh(limiter.Footprint() - old(limiter.Footprint()))
    ensures var cs := Charges(limiter.policy, keys);
            var h := Stamped(limiter.sha, cs, limiter.clock, old(limiter.readings));
            && (ok <==> AllAnswered(old(limiter.State()), h) && Verdict(old(limiter.State()), cs, h).allowed)
            && (AllAnswered(old(limiter.State()), h) ==>
                  && limiter.State() == ServeAll(old(limiter.State()), h)
                  && limiter.readings == old(limiter.readings) + 2 * |cs|
                  && retryAfter == RetrySeconds(Verdict(old(limiter.State()), cs, h).retryAfter))
            && (!AllAnswered(old(limiter.State()), h) ==>
                  exists n: nat | n < |cs| ::
                    && retryAfter == RetrySeconds(cs[n].rule.window)
                    && FailedAt(old(limiter.State()), limiter.State(), limiter.sha, cs, limiter.clock,
                                old(limiter.readings), n, Decision(false, cs[n].rule.window)))
            && (limiter.store.Memory? ==> AllAnswered(old(limiter.State()), h))
    ensures retryAfter >= 1
  {
    hide BucketName, Verdict, ServeAll, ChargesTo, Answer, Serve, FailedAt, AllAnswered, Stamped;
    ghost var before, from := limiter.State(), limiter.readings;
    var decision, failed := limiter.Allow(keys);
    if failed {
      ghost var cs := Charges(limiter.policy, keys);
      ghost var n: nat :| FailedAt(before, limiter.State(), limiter.sha, cs, limiter.clock, from, n, decision);
      FailedIsUnanswered(before, limiter.State(), limiter.sha, cs, limiter.clock, from, n, decision);
      FailureIsTheRules(before, limiter.State(), limiter.sha, cs, limiter.clock, from, n, decision);
    }
    ok := !failed && decision.allowed;
    retryAfter := RetrySeconds(decision.retryAfter);
  }

  lemma FailureIsTheRules(before: StoreState, after: StoreState, sha: Digest, cs: seq<Charge>,
                          clock: nat -> Time, from: nat, n: nat, d: Decision)
    requires FailedAt(before, after, sha, cs, clock, from, n, d)
    ensures n < |cs| && d == Decision(false, cs[n].rule.window)
  {
  }

  /**
   Consume the buckets, check the password, clear the buckets on success, over either store. The
   check decides the response exactly when every bucket answered and no rule tripped: only an
   accepted password logs in and clears, a wrong one is unauthorized and leaves the attempt's hits
   counted, and a failed clear costs the response nothing.
   */
  method Authenticate(limiter: Limiter, lower: Lower, client: string, email: string, check: Verified)
    returns (r: Response)
    requires limiter.Valid()
    modifies limiter.Footprint()
    ensures limiter.Valid() && fresh(limiter.Footprint() - old(limiter.Footprint()))
    ensures var before, cs := old(limiter.State()), Charges(limiter.policy, LoginKeys(lower, client, email));
            var h := Stamped(limiter.sha, cs, limiter.clock, old(limiter.readings));
            var names := ResetNames(limiter.sha, cs, limiter.clock, old(limiter.readings) + 2 * |cs|);
            if AllAnswered(before, h) && Verdict(before, cs, h).allowed then
              && (r.LoggedIn? <==> check.Accepted?)
              && (r.Unauthorized? <==> check.IncorrectCredentials?)
              && (r.ServerError? <==> check.Broken?)
              && (check.Accepted? && cs != [] ==>
                    limiter.State() == Serve(ServeAll(before, h), Clear(set x | x in names)))
              && (!check.Accepted? || cs == [] ==> limiter.State() == ServeAll(before, h))
            else
              && r.TooManyRequests? && r.retryAfter >= 1
              && (AllAnswered(before, h) ==>
                    && limiter.State() == ServeAll(before, h)
                    && r.retryAfter == RetrySeconds(Verdict(before, cs, h).retryAfter))
              && (!AllAnswered(before, h) ==>
                    exists n: nat | n < |cs| ::
                      FailedAt(before, limiter.State(), limiter.sha, cs, limiter.clock,
                               old(limiter.readings), n, Decision(false, cs[n].rule.window)))
  {
    hide BucketName, Verdict, ServeAll, ChargesTo, Answer, Serve, AllAnswered, FailedAt, Stamped;
    var keys := LoginKeys(lower, client, email);
    var ok, wait := AllowRequest(limiter, keys);
    if !ok {
      return TooManyRequests(wait);
    }
    match check {
      case IncorrectCredentials => return Unauthorized;
      case Broken => return ServerError;
      case Accepted =>
        var _ := limiter.Reset(keys);
        return LoggedIn;
    }
  }

  /* ---- Runs of logins ---------------------------------------------------- */

  /** The limiter calls logins make, interleaved with other endpoints' in any way. */
  datatype Event =
    | Attempt(client: string, email: string, now: Time)
    | Succeeded(client: string, email: string, now: Time)
    | Elsewhere(call: Call)

  function CallOf(lower: Lower, e: Event): Call {
    match e
    case Attempt(client, email, now) => Allow(LoginKeys(lower, client, email), now)
    case Succeeded(client, email, now) => Reset(LoginKeys(lower, client, email), now)
    case Elsewhere(call) => call
  }

  function CallsOf(lower: Lower, events: seq<Event>): (calls: seq<Call>)
    ensures |calls| == |events|
  {
    seq(|events|, i requires 0 <= i < |events| => CallOf(lower, events[i]))
  }

  /** Other endpoints never touch a login counter. */
  predicate Separate(events: seq<Event>) {
    forall i | 0 <= i < |events| && events[i].Elsewhere? ::
      forall k | k in events[i].call.keys :: k.scope != SCOPE_LOGIN
  }

  /** No successful login from `from` on was to an address with the first 128 bits of this one's digest. */
  predicate NoSuccess(sha: Digest, lower: Lower, events: seq<Event>, from: nat, address: string) {
    forall i | from <= i < |events| && events[i].Succeeded? ::
      sha(lower(TrimSpace(events[i].email)))[..16] != sha(address)[..16]
  }

  /** No successful login from `from` on came from a client with the first 128 bits of this one's digest. */
  predicate NoSuccessFrom(sha: Digest, events: seq<Event>, from: nat, client: string) {
    forall i | from <= i < |events| && events[i].Succeeded? ::
      sha(events[i].client)[..16] != sha(client)[..16]
  }

  lemma DefaultRules()
    ensures GoodPolicy(DEFAULT_POLICY)
    ensures RulesFor(DEFAULT_POLICY, EmailKey("")) == [Rule(5, 5 * MINUTE), Rule(20, HOUR)]
    ensures RulesFor(DEFAULT_POLICY, ClientKey(SCOPE_LOGIN, "")) == [Rule(10, MINUTE), Rule(60, HOUR)]
  {
    assert PolicyKey(SCOPE_LOGIN, KEY_EMAIL) == "login:email" && PolicyKey(SCOPE_LOGIN, KEY_IP) == "login:ip";
    assert PolicyKey(SCOPE_SIGNUP, KEY_IP) == "signup:ip";
    assert PolicyKey(SCOPE_RESET_PASSWORD, KEY_USER) == "reset_password:user";
  }

  /** The whole of the default policy: four limited keys, and every other key unlimited. */
  lemma DefaultTable(key: Key)
    requires GoodKey(key)
    ensures RulesFor(DEFAULT_POLICY, key) ==
            if key.scope == "login" && key.kind == "ip" then
              [Rule(10, 60_000_000_000), Rule(60, 3_600_000_000_000)]
            else if key.scope == "login" && key.kind == "email" then
              [Rule(5, 300_000_000_000), Rule(20, 3_600_000_000_000)]
            else if key.scope == "signup" && key.kind == "ip" then
              [Rule(3, 600_000_000_000), Rule(10, 86_400_000_000_000)]
            else if key.scope == "reset_password" && key.kind == "user" then [Rule(5, 900_000_000_000)]
            else []
  {
    var k := PolicyKey(key.scope, key.kind);
    if k in DEFAULT_POLICY {
      if k == PolicyKey("login", "ip") {
        FieldsUnique(key.scope, key.kind, ':', "login", "ip");
      } else if k == PolicyKey("login", "email") {
        FieldsUnique(key.scope, key.kind, ':', "login", "email");
      } else if k == PolicyKey("signup", "ip") {
        FieldsUnique(key.scope, key.kind, ':', "signup", "ip");
      } else {
        FieldsUnique(key.scope, key.kind, ':', "reset_password", "user");
      }
    }
    DefaultRules();
  }

  lemma EmailRules(address: string)
    ensures GoodPolicy(DEFAULT_POLICY) && GoodKey(EmailKey(address))
    ensures RulesFor(DEFAULT_POLICY, EmailKey(address)) == [Rule(5, 5 * MINUTE), Rule(20, HOUR)]
  {
    DefaultRules();
  }

  lemma ClientRules(client: string)
    ensures GoodPolicy(DEFAULT_POLICY) && GoodKey(ClientKey(SCOPE_LOGIN, client))
    ensures RulesFor(DEFAULT_POLICY, ClientKey(SCOPE_LOGIN, client)) == [Rule(10, MINUTE), Rule(60, HOUR)]
  {
    DefaultRules();
  }

  /** A login key of one of the two types. */
  predicate LoginKey(key: Key) {
    key.scope == SCOPE_LOGIN && (key.kind == KEY_EMAIL || key.kind == KEY_IP)
  }

  /** No success from `from` on clears the counters of this key. */
  predicate NotClearedBy(sha: Digest, lower: Lower, events: seq<Event>, from: nat, key: Key) {
    if key.kind == KEY_EMAIL then NoSuccess(sha, lower, events, from, key.value)
    else NoSuccessFrom(sha, events, from, key.value)
  }

  /** Only a success for the address, or from the client, resets its counter. */
  lemma OnlySuccessResets(sha: Digest, lower: Lower, events: seq<Event>, from: nat, key: Key, rule: Rule)
    requires Separate(events) && LoginKey(key) && NotClearedBy(sha, lower, events, from, key)
    ensures NoReset(Config(sha, DEFAULT_POLICY), CallsOf(lower, events), from, Charge(key, rule))
  {
    hide BucketName, ChargesTo, RulesFor;
    var calls, c := CallsOf(lower, events), Charge(key, rule);
    forall i | from <= i < |calls| && calls[i].Reset?
      ensures Matching(sha, Charges(DEFAULT_POLICY, calls[i].keys), c) == 0
    {
      var cs := Charges(DEFAULT_POLICY, calls[i].keys);
      MatchingMember(sha, cs, c);
      forall d | d in cs
        ensures !SameCounter(sha, d, c)
      {
        ChargesMembers(DEFAULT_POLICY, calls[i].keys, d);
        assert d.key in calls[i].keys;
        if events[i].Elsewhere? {
          assert d.key.scope != SCOPE_LOGIN;
        } else {
          assert KEY_IP != KEY_EMAIL;
        }
      }
    }
  }

  /** The attempt is for the key's address, in any spelling that folds to it, or from its client. */
  predicate Concerns(lower: Lower, client: string, email: string, key: Key) {
    if key.kind == KEY_EMAIL then lower(TrimSpace(email)) == key.value else client == key.value
  }

  /** Such an attempt is charged to the key. */
  lemma ConcernedKeyIsCharged(lower: Lower, client: string, email: string, key: Key)
    requires LoginKey(key)
    ensures Concerns(lower, client, email, key) <==> key in LoginKeys(lower, client, email)
  {
    hide TrimSpace;
    assert KEY_IP != KEY_EMAIL;
  }

  /**
   An attempt is charged to each counter of its client and of its address, within every rule of
   either; a success empties every one of them.
   */
  lemma AttemptsCountAndSuccessClears(sha: Digest, lower: Lower, events: seq<Event>, client: string, email: string,
                                      now: Time, key: Key, rule: Rule)
    requires LoginKey(key) && Concerns(lower, client, email, key) && rule in RulesFor(DEFAULT_POLICY, key)
    ensures var cfg, c := Config(sha, DEFAULT_POLICY), Charge(key, rule);
            && Spent(cfg, CallsOf(lower, events + [Attempt(client, email, now)]), c, now) >
               Spent(cfg, CallsOf(lower, events), c, now)
            && Spent(cfg, CallsOf(lower, events + [Succeeded(client, email, now)]), c, now) == 0
  {
    hide ChargesTo, RulesFor, SameCounter, Truncate, TrimSpace, Concerns, LoginKeys;
    ConcernedKeyIsCharged(lower, client, email, key);
    var keys, c := LoginKeys(lower, client, email), Charge(key, rule);
    ChargesMembers(DEFAULT_POLICY, keys, c);
    MatchingMember(sha, Charges(DEFAULT_POLICY, keys), c);
    assert SameCounter(sha, c, c) by { SameAsItself(sha, c); }
    var tried, cleared := events + [Attempt(client, email, now)], events + [Succeeded(client, email, now)];
    var n := |events|;
    assert CallsOf(lower, tried)[..n] == CallsOf(lower, events) == CallsOf(lower, cleared)[..n];
    assert CallsOf(lower, tried)[n] == Allow(keys, now) && CallsOf(lower, cleared)[n] == Reset(keys, now);
  }

  lemma SameAsItself(sha: Digest, c: Charge)
    ensures SameCounter(sha, c, c)
  {
  }

  /** Attempt `i` concerns the key, was made in [lo, hi), and reaches the password check. */
  predicate ReachedAt(init: StoreState, sha: Digest, lower: Lower, events: seq<Event>, i: nat, key: Key,
                      lo: Time, hi: Time)
    requires i < |events|
  {
    && events[i].Attempt? && Concerns(lower, events[i].client, events[i].email, key) && lo <= events[i].now < hi
    && AllowedOn(init, Config(sha, DEFAULT_POLICY), CallsOf(lower, events[..i]),
                 LoginKeys(lower, events[i].client, events[i].email), events[i].now)
  }

  function Reached(init: StoreState, sha: Digest, lower: Lower, events: seq<Event>, from: nat, key: Key,
                   lo: Time, hi: Time): nat
    requires from <= |events|
    decreases |events|
  {
    if |events| == from then 0 else
      Reached(init, sha, lower, events[..|events| - 1], from, key, lo, hi) +
      (if ReachedAt(init, sha, lower, events, |events| - 1, key, lo, hi) then 1 else 0)
  }

  /** An attempt that reaches the password check was within each rule of the key. */
  lemma ReachedIsWithin(init: StoreState, sha: Digest, lower: Lower, events: seq<Event>, n: nat, key: Key, rule: Rule,
                        lo: Time, hi: Time)
    requires n < |events| && LoginKey(key) && rule in RulesFor(DEFAULT_POLICY, key)
    requires ReachedAt(init, sha, lower, events, n, key, lo, hi)
    ensures PassedAt(init, Config(sha, DEFAULT_POLICY), CallsOf(lower, events), n, Charge(key, rule), lo, hi)
  {
    hide AllowedOn, WithinRule, ChargesTo, RulesFor, LoginKeys, Concerns;
    ConcernedKeyIsCharged(lower, events[n].client, events[n].email, key);
    var calls := CallsOf(lower, events);
    assert calls[..n] == CallsOf(lower, events[..n]);
    ChargesMembers(DEFAULT_POLICY, calls[n].keys, Charge(key, rule));
    AllowedIsWithin(init, Config(sha, DEFAULT_POLICY), calls[..n], calls[n].keys, calls[n].now, Charge(key, rule));
  }

  lemma {:induction false} ReachedIsPassed(init: StoreState, sha: Digest, lower: Lower, events: seq<Event>, from: nat,
                                           key: Key, rule: Rule, lo: Time, hi: Time)
    requires from <= |events| && LoginKey(key) && rule in RulesFor(DEFAULT_POLICY, key)
    ensures Reached(init, sha, lower, events, from, key, lo, hi) <=
            Passed(init, Config(sha, DEFAULT_POLICY), CallsOf(lower, events), from, Charge(key, rule), lo, hi)
    decreases |events|
  {
    if |events| > from {
      hide ReachedAt, PassedAt, RulesFor, CallOf, LoginKey;
      var n := |events| - 1;
      assert CallsOf(lower, events)[..n] == CallsOf(lower, events[..n]);
      ReachedIsPassed(init, sha, lower, events[..n], from, key, rule, lo, hi);
      if ReachedAt(init, sha, lower, events, n, key, lo, hi) {
        ReachedIsWithin(init, sha, lower, events, n, key, rule, lo, hi);
      }
    }
  }

  /** One rule's cap on the attempts that use a key, over either store with any faults. */
  lemma RuleCap(init: StoreState, sha: Digest, lower: Lower, events: seq<Event>, from: nat, key: Key, rule: Rule,
                t: Time, last: Time)
    requires Empty(init) && GoodRun(Config(sha, DEFAULT_POLICY), CallsOf(lower, events), last)
    requires Separate(events) && from <= |events| && LoginKey(key) && NotClearedBy(sha, lower, events, from, key)
    requires rule in RulesFor(DEFAULT_POLICY, key) && GoodCharge(Charge(key, rule)) && rule.limit >= 0
    ensures var start := Truncate(t, rule.window);
            Reached(init, sha, lower, events, from, key, start, start + rule.window) <= rule.limit
  {
    hide Empty, GoodRun, Separate, NotClearedBy, RulesFor, Reached, Passed, GoodCharge, Truncate, NoReset;
    var start := Truncate(t, rule.window);
    OnlySuccessResets(sha, lower, events, from, key, rule);
    ReachedIsPassed(init, sha, lower, events, from, key, rule, start, start + rule.window);
    WindowCap(init, Config(sha, DEFAULT_POLICY), CallsOf(lower, events), from, Charge(key, rule), t, last);
  }

  /**
   Account attempt cap, over memory or over Redis with any requests and replies lost. Between
   successful logins to one normalised address, at most 5 attempts per aligned five minutes and
   20 per aligned hour reach the password check, whatever spellings or client addresses are used.
   */
  lemma AttemptCap(init: StoreState, sha: Digest, lower: Lower, events: seq<Event>, from: nat, address: string, t: Time,
                   last: Time)
    requires Empty(init) && GoodRun(Config(sha, DEFAULT_POLICY), CallsOf(lower, events), last)
    requires Separate(events) && from <= |events| && NoSuccess(sha, lower, events, from, address)
    ensures var short, hour := Truncate(t, 5 * MINUTE), Truncate(t, HOUR);
            && Reached(init, sha, lower, events, from, EmailKey(address), short, short + 5 * MINUTE) <= 5
            && Reached(init, sha, lower, events, from, EmailKey(address), hour, hour + HOUR) <= 20
  {
    hide Empty, GoodRun, Separate, NoSuccess, RulesFor, Reached, Truncate;
    EmailRules(address);
    RuleCap(init, sha, lower, events, from, EmailKey(address), Rule(5, 5 * MINUTE), t, last);
    RuleCap(init, sha, lower, events, from, EmailKey(address), Rule(20, HOUR), t, last);
  }

  /**
   Between successful logins from one client address, at most 10 of its attempts per aligned
   minute and 60 per aligned hour reach the password check, whatever accounts they are for.
   */
  lemma ClientCap(init: StoreState, sha: Digest, lower: Lower, events: seq<Event>, from: nat, client: string, t: Time,
                  last: Time)
    requires Empty(init) && GoodRun(Config(sha, DEFAULT_POLICY), CallsOf(lower, events), last)
    requires Separate(events) && from <= |events| && NoSuccessFrom(sha, events, from, client)
    ensures var minute, hour := Truncate(t, MINUTE), Truncate(t, HOUR);
            var key := ClientKey(SCOPE_LOGIN, client);
            && Reached(init, sha, lower, events, from, key, minute, minute + MINUTE) <= 10
            && Reached(init, sha, lower, events, from, key, hour, hour + HOUR) <= 60
  {
    hide Empty, GoodRun, Separate, NoSuccessFrom, RulesFor, Reached, Truncate;
    assert KEY_IP != KEY_EMAIL;
    ClientRules(client);
    RuleCap(init, sha, lower, events, from, ClientKey(SCOPE_LOGIN, client), Rule(10, MINUTE), t, last);
    RuleCap(init, sha, lower, events, from, ClientKey(SCOPE_LOGIN, client), Rule(60, HOUR), t, last);
  }
}
