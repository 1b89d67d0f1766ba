/** The fixed-window limiter over either store (backend/internal/rate-limiter/limiter.go). */
module Limiters {
  import opened Wrappers
  import opened BucketNames
  import opened Counters
  import opened MemoryStores
  import opened RedisStores

  type Policy = map<string, seq<Rule>>

  function PolicyKey(scope: string, kind: string): string {
    scope + ":" + kind
  }

  const SCOPE_LOGIN: string := "login"
  const SCOPE_SIGNUP: string := "signup"
  const SCOPE_RESET_PASSWORD: string := "reset_password"
  const KEY_IP: string := "ip"
  const KEY_EMAIL: string := "email"
  const KEY_USER: string := "user"
  const MINUTE: int := 60 * SECOND
  const HOUR: int := 3600 * SECOND

  const DEFAULT_POLICY: Policy := map[
    PolicyKey(SCOPE_LOGIN, KEY_IP) := [Rule(10, MINUTE), Rule(60, HOUR)],
    PolicyKey(SCOPE_LOGIN, KEY_EMAIL) := [Rule(5, 5 * MINUTE), Rule(20, HOUR)],
    PolicyKey(SCOPE_SIGNUP, KEY_IP) := [Rule(3, 10 * MINUTE), Rule(10, 24 * HOUR)],
    PolicyKey(SCOPE_RESET_PASSWORD, KEY_USER) := [Rule(5, 15 * MINUTE)]
  ]

  /** A missing entry means the endpoint is not limited. */
  function RulesFor(policy: Policy, key: Key): seq<Rule> {
    var k := PolicyKey(key.scope, key.kind);
    if k in policy then policy[k] else []
  }

  /** The (key, rule) pairs consumed before rule j of key i. */
  function ChargesTo(policy: Policy, keys: seq<Key>, i: nat, j: nat): seq<Charge>
    requires i <= |keys| && (i == |keys| ==> j == 0) && (i < |keys| ==> j <= |RulesFor(policy, keys[i])|)
    decreases i, j
  {
    if j > 0 then ChargesTo(policy, keys, i, j - 1) + [Charge(keys[i], RulesFor(policy, keys[i])[j - 1])]
    else if i > 0 then ChargesTo(policy, keys, i - 1, |RulesFor(policy, keys[i - 1])|)
    else []
  }

  /** Every (key, rule) pair a call consumes, in order. */
  function Charges(policy: Policy, keys: seq<Key>): seq<Charge> {
    ChargesTo(policy, keys, |keys|, 0)
  }

  datatype Decision = Decision(allowed: bool, retryAfter: Duration)

  /* ---- Either store, seen from outside ----------------------------------- */

  datatype StoreState =
    | InMemory(buckets: Buckets)
    | InRedis(keys: RedisKeys, calls: nat, lingers: bool, faults: nat -> Fault)

  function Serve(st: StoreState, e: Event): StoreState {
    match st
    case InMemory(m) => InMemory(Apply(m, e))
    case InRedis(m, c, lingers, faults) =>
      InRedis(if faults(c).RequestLost? then m else ApplyRedis(m, e, lingers), c + 1, lingers, faults)
  }

  /** Count and remaining life, or None for a store error. */
  function Answer(st: StoreState, e: Event): Option<(int, Duration)>
    requires e.Hit?
  {
    match st
    case InMemory(m) => var r := ReplyTo(m, e); Some((r.count, r.ttl))
    case InRedis(m, c, lingers, faults) =>
      if faults(c).Answered? then Some(ReplyFromRedis(m, e, lingers)) else None
  }

  function ServeAll(st: StoreState, h: seq<Event>): StoreState {
    if h == [] then st else Serve(ServeAll(st, h[..|h| - 1]), h[|h| - 1])
  }

  predicate AllHits(h: seq<Event>) {
    forall i | 0 <= i < |h| :: h[i].Hit?
  }

  /** No hit of `h` meets a store error. */
  ghost predicate AllAnswered(st: StoreState, h: seq<Event>)
    requires AllHits(h)
  {
    forall i | 0 <= i < |h| :: Answer(ServeAll(st, h[..i]), h[i]).Some?
  }

  /** One more reply folded into a decision. */
  function Tally(d: Decision, rule: Rule, answer: Option<(int, Duration)>): Decision {
    match answer
    case None => Decision(false, rule.window)
    case Some((count, ttl)) =>
      if count > rule.limit then Decision(false, if ttl > d.retryAfter then ttl else d.retryAfter) else d
  }

  /** The decision over charges whose hits are `h`: denied by any tripped rule, for the longest wait. */
  function Verdict(st: StoreState, cs: seq<Charge>, h: seq<Event>): Decision
    requires |cs| == |h| && AllHits(h)
  {
    if cs == [] then Decision(true, 0) else
      var n := |cs| - 1;
      Tally(Verdict(st, cs[..n], h[..n]), cs[n].rule, Answer(ServeAll(st, h[..n]), h[n]))
  }

  /**
   The hits a call makes when reading number `from + 2i` of the clock names
   charge i and the next reading counts it.
   */
  function Stamped(sha: Digest, cs: seq<Charge>, clock: nat -> Time, from: nat): (h: seq<Event>)
    ensures |h| == |cs| && AllHits(h)
  {
    if cs == [] then [] else
      var n := |cs| - 1;
      Stamped(sha, cs[..n], clock, from) +
      [Hit(BucketName(sha, cs[n], clock(from + 2 * n)), cs[n].rule.window, clock(from + 2 * n + 1))]
  }

  /** All of `cs` were charged without a store error, with decision `d`. */
  ghost predicate Consumed(before: StoreState, after: StoreState, sha: Digest, cs: seq<Charge>,
                           clock: nat -> Time, from: nat, readings: nat, d: Decision) {
    var h := Stamped(sha, cs, clock, from);
    && AllAnswered(before, h) && after == ServeAll(before, h) && d == Verdict(before, cs, h)
    && readings == from + 2 * |cs|
  }

  /** The call stopped at charge n, whose hit met a store error. */
  ghost predicate FailedAt(before: StoreState, after: StoreState, sha: Digest, cs: seq<Charge>,
                           clock: nat -> Time, from: nat, n: nat, d: Decision) {
    && n < |cs| && d == Decision(false, cs[n].rule.window)
    && var h := Stamped(sha, cs[..n], clock, from);
       var e := Hit(BucketName(sha, cs[n], clock(from + 2 * n)), cs[n].rule.window, clock(from + 2 * n + 1));
       && AllAnswered(before, h) && Answer(ServeAll(before, h), e) == None
       && after == Serve(ServeAll(before, h), e)
  }

  function ResetNames(sha: Digest, cs: seq<Charge>, clock: nat -> Time, from: nat): (names: seq<string>)
    ensures |names| == |cs|
  {
    if cs == [] then [] else
      var n := |cs| - 1;
      ResetNames(sha, cs[..n], clock, from) + [BucketName(sha, cs[n], clock(from + n))]
  }

  /* ---- The limiter ------------------------------------------------------- */

  datatype Store = Memory(memory: MemoryStore) | Redis(redis: RedisStore)

  class Limiter {
    const store: Store
    const policy: Policy
    const sha: Digest

    /** The clock, as the sequence of its readings; the memory store shares it. */
    const clock: nat -> Time
    var readings: nat

    ghost predicate Valid()
      reads if store.Memory? then {store.memory} else {}
    {
      store.Memory? ==> store.memory.Valid()
    }

    ghost function Footprint(): set<object>
      reads if store.Memory? then {store.memory} else {}
    {
      {this} + if store.Memory? then {store.memory} + store.memory.owned else {store.redis}
    }

    ghost function State(): StoreState
      reads if store.Memory? then {store.memory} + store.memory.buckets.Values else {}
      reads if store.Redis? then {store.redis} else {}
    {
      match store
      case Memory(m) => InMemory(m.Contents())
      case Redis(r) => InRedis(r.keys, r.calls, r.lingers, r.faults)
    }

    constructor (store: Store, policy: Policy, sha: Digest, clock: nat -> Time)
      ensures this.store == store && this.policy == policy && this.sha == sha && this.clock == clock
      ensures readings == 0
    {
      this.store, this.policy, this.sha, this.clock := store, policy, sha, clock;
      readings := 0;
    }

    method Now() returns (t: Time)
      modifies this`readings
      ensures t == clock(old(readings)) && readings == old(readings) + 1
    {
      t := clock(readings);
      readings := readings + 1;
    }

    method Incr(name: string, window: Duration, now: Time) returns (r: Option<(int, Duration)>)
      requires Valid()
      modifies Footprint() - {this}
      ensures Valid() && fresh(Footprint() - old(Footprint()))
      ensures State() == Serve(old(State()), Hit(name, window, now))
      ensures r == Answer(old(State()), Hit(name, window, now))
      ensures store.Memory? ==> r != None
    {
      match store {
        case Memory(m) =>
          var reply := m.Incr(name, window, now);
          r := Some((reply.count, reply.ttl));
        case Redis(s) =>
          r := s.Incr(name, window, now);
      }
    }

    /** Names and counts one charge and folds the reply into the decision. */
    method Consume(c: Charge, d: Decision) returns (d': Decision, failed: bool)
      requires Valid()
      modifies Footprint()
      ensures Valid() && fresh(Footprint() - old(Footprint()))
      ensures readings == old(readings) + 2
      ensures var e := Hit(BucketName(sha, c, clock(old(readings))), c.rule.window, clock(old(readings) + 1));
              && State() == Serve(old(State()), e)
              && d' == Tally(d, c.rule, Answer(old(State()), e))
              && failed == (Answer(old(State()), e) == None)
      ensures store.Memory? ==> !failed
    {
      hide BucketName, Serve, Answer;
      var named := Now();
      var name := BucketName(sha, c, named);
      var now := Now();
      var reply := Incr(name, c.rule.window, now);
      if reply == None {
        return Decision(false, c.rule.window), true;
      }
      d', failed := d, false;
      var (count, ttl) := reply.value;
      if count > c.rule.limit {
        d' := d'.(allowed := false);
        if ttl > d'.retryAfter {
          d' := d'.(retryAfter := ttl);
        }
      }
    }

    /** Consumes every rule of every key, stopping only at a store error. */
    method Allow(keys: seq<Key>) returns (decision: Decision, failed: bool)
      requires Valid()
      modifies Footprint()
      ensures Valid() && fresh(Footprint() - old(Footprint()))
      ensures store.Memory? ==> !failed
      ensures !failed ==>
                Consumed(old(State()), State(), sha, Charges(policy, keys), clock, old(readings), readings, decision)
      ensures failed ==>
                exists n: nat ::
                  FailedAt(old(State()), State(), sha, Charges(policy, keys), clock, old(readings), n, decision)
    {
      hide BucketName, Stamped, ServeAll, Serve, Answer, AllAnswered, Verdict, Tally, Consumed, FailedAt;
      decision, failed := Decision(true, 0), false;
      ghost var st, from := State(), readings;
      ghost var done: seq<Charge> := [];
      NothingConsumed(st, sha, clock, from);
      var i := 0;
      while i < |keys|
        invariant 0 <= i <= |keys| && Valid() && fresh(Footprint() - old(Footprint())) && !failed
        invariant done == ChargesTo(policy, keys, i, 0)
        invariant readings == from + 2 * |done|
        invariant Consumed(st, State(), sha, done, clock, from, readings, decision)
      {
        var rules := RulesFor(policy, keys[i]);
        var j := 0;
        while j < |rules|
          invariant 0 <= j <= |rules| && Valid() && fresh(Footprint() - old(Footprint())) && !failed
          invariant done == ChargesTo(policy, keys, i, j)
          invariant readings == from + 2 * |done|
          invariant Consumed(st, State(), sha, done, clock, from, readings, decision)
        {
          var c := Charge(keys[i], rules[j]);
          ChargesCover(policy, keys, i, j);
          ConsumeNext(st, State(), sha, Charges(policy, keys), |done|, clock, from, decision);
          decision, failed := Consume(c, decision);
          if failed {
            return;
          }
          done := done + [c];
          j := j + 1;
        }
        i := i + 1;
      }
    }

    /** Names every bucket the keys address, one clock reading each. */
    method NameAll(keys: seq<Key>) returns (names: seq<string>)
      modifies this`readings
      ensures names == ResetNames(sha, Charges(policy, keys), clock, old(readings))
      ensures readings == old(readings) + |Charges(policy, keys)|
    {
      hide BucketName, ResetNames;
      NoNames(sha, clock, readings);
      names := [];
      ghost var done: seq<Charge> := [];
      var i := 0;
      while i < |keys|
        invariant 0 <= i <= |keys| && done == ChargesTo(policy, keys, i, 0)
        invariant names == ResetNames(sha, done, clock, old(readings)) && readings == old(readings) + |done|
      {
        var rules := RulesFor(policy, keys[i]);
        var j := 0;
        while j < |rules|
          invariant 0 <= j <= |rules|
          invariant done == ChargesTo(policy, keys, i, j)
          invariant names == ResetNames(sha, done, clock, old(readings)) && readings == old(readings) + |done|
        {
          var c := Charge(keys[i], rules[j]);
          var named := Now();
          ResetNamesSnoc(sha, done, clock, old(readings), c);
          names := names + [BucketName(sha, c, named)];
          done := done + [c];
          j := j + 1;
        }
        i := i + 1;
      }
    }

    /** Forgets the counters the keys address at this moment, and reports whether the store answered. */
    method Reset(keys: seq<Key>) returns (ok: bool)
      requires Valid()
      modifies Footprint()
      ensures Valid() && Footprint() == old(Footprint())
      ensures var cs := Charges(policy, keys);
              var names := ResetNames(sha, cs, clock, old(readings));
              && readings == old(readings) + |cs|
              && State() == (if cs == [] then old(State()) else Serve(old(State()), Clear(set x | x in names)))
              && (ok <==> cs == [] || store.Memory? || store.redis.faults(old(store.redis.calls)).Answered?)
    {
      var names := NameAll(keys);
      if |names| == 0 {
        return true;
      }
      match store {
        case Memory(m) =>
          m.Del(names);
          ok := true;
        case Redis(r) =>
          ok := r.Del(names);
      }
    }
  }

  lemma {:induction false} ChargesPrefix(policy: Policy, keys: seq<Key>, i: nat, j: nat)
    requires i < |keys| && j <= |RulesFor(policy, keys[i])|
    ensures ChargesTo(policy, keys, i, j) <= Charges(policy, keys)
    decreases |keys| - i, |RulesFor(policy, keys[i])| - j
  {
    if j < |RulesFor(policy, keys[i])| {
      ChargesPrefix(policy, keys, i, j + 1);
      assert ChargesTo(policy, keys, i, j) <= ChargesTo(policy, keys, i, j + 1);
    } else if i + 1 < |keys| {
      ChargesPrefix(policy, keys, i + 1, 0);
    }
  }

  /** Where rule j of key i sits in the whole list of charges. */
  lemma ChargesCover(policy: Policy, keys: seq<Key>, i: nat, j: nat)
    requires i < |keys| && j < |RulesFor(policy, keys[i])|
    ensures var done, all := ChargesTo(policy, keys, i, j), Charges(policy, keys);
            |done| < |all| && all[..|done|] == done && all[|done|] == Charge(keys[i], RulesFor(policy, keys[i])[j])
  {
    ChargesPrefix(policy, keys, i, j + 1);
  }

  lemma StampedSnoc(sha: Digest, cs: seq<Charge>, clock: nat -> Time, from: nat, c: Charge)
    ensures Stamped(sha, cs + [c], clock, from) ==
            Stamped(sha, cs, clock, from) +
            [Hit(BucketName(sha, c, clock(from + 2 * |cs|)), c.rule.window, clock(from + 2 * |cs| + 1))]
  {
    hide BucketName;
    assert (cs + [c])[..|cs|] == cs;
  }

  lemma NoNames(sha: Digest, clock: nat -> Time, from: nat)
    ensures ResetNames(sha, [], clock, from) == []
  {
  }

  lemma ResetNamesSnoc(sha: Digest, cs: seq<Charge>, clock: nat -> Time, from: nat, c: Charge)
    ensures ResetNames(sha, cs + [c], clock, from) ==
            ResetNames(sha, cs, clock, from) + [BucketName(sha, c, clock(from + |cs|))]
  {
    hide BucketName;
    assert (cs + [c])[..|cs|] == cs;
  }

  lemma VerdictSnoc(st: StoreState, cs: seq<Charge>, h: seq<Event>, c: Charge, e: Event)
    requires |cs| == |h| && AllHits(h) && e.Hit?
    ensures ServeAll(st, h + [e]) == Serve(ServeAll(st, h), e)
    ensures AllHits(h + [e])
    ensures AllAnswered(st, h) && Answer(ServeAll(st, h), e).Some? ==> AllAnswered(st, h + [e])
    ensures Verdict(st, cs + [c], h + [e]) == Tally(Verdict(st, cs, h), c.rule, Answer(ServeAll(st, h), e))
  {
    assert (h + [e])[..|h|] == h && (cs + [c])[..|cs|] == cs;
    forall i | 0 <= i < |h|
      ensures (h + [e])[..i] == h[..i]
    {
    }
  }

  lemma NothingConsumed(st: StoreState, sha: Digest, clock: nat -> Time, from: nat)
    ensures Consumed(st, st, sha, [], clock, from, from, Decision(true, 0))
  {
  }

  /** One more answered charge extends what was consumed; an unanswered one ends the call. */
  lemma ConsumeNext(before: StoreState, st: StoreState, sha: Digest, all: seq<Charge>, n: nat, clock: nat -> Time,
                    from: nat, d: Decision)
    requires n < |all| && Consumed(before, st, sha, all[..n], clock, from, from + 2 * n, d)
    ensures var c := all[n];
            var e := Hit(BucketName(sha, c, clock(from + 2 * n)), c.rule.window, clock(from + 2 * n + 1));
            var d' := Tally(d, c.rule, Answer(st, e));
            && (Answer(st, e) != None ==>
                  Consumed(before, Serve(st, e), sha, all[..n] + [c], clock, from, from + 2 * n + 2, d'))
            && (Answer(st, e) == None ==> FailedAt(before, Serve(st, e), sha, all, clock, from, n, d'))
  {
    hide BucketName, Answer, Serve, AllAnswered;
    var c, done := all[n], all[..n];
    var e := Hit(BucketName(sha, c, clock(from + 2 * n)), c.rule.window, clock(from + 2 * n + 1));
    VerdictSnoc(before, done, Stamped(sha, done, clock, from), c, e);
    StampedSnoc(sha, done, clock, from, c);
  }
}
