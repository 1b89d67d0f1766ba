/**
 The limiter under concurrency, over either store. Goroutines name buckets and call the store in
 any interleaving, so a bucket may be hit long after it was named; each call on the store is one
 atomic step, which may lose its request or its reply.
 */
module Interleaving {
  import opened Wrappers
  import opened BucketNames
  import opened Counters
  import opened RedisStores
  import opened Limiters
  import opened LimiterRuns
  import opened StoreCounts
  import StoreRuns

  /**
   A goroutine between two steps. One in Allow carries the number of its attempt, what is left to
   consume, the reading that named the next charge, and whether every reply so far was within its
   rule.
   */
  datatype Thread =
    | Charging(attempt: nat, todo: seq<Charge>, named: Option<Time>, within: bool)
    | Clearing(todo: seq<Charge>, names: set<string>)

  /** What the store has been asked so far, and the count it answered. */
  datatype Entry =
    | Counted(attempt: nat, charge: Charge, namedAt: Time, at: Time, answer: Option<int>)
    | Cleared(names: set<string>)

  /** `attempts` are the calls of Allow begun so far, `passed` those that returned allowed. */
  datatype State = State(clock: Time, store: StoreState, threads: map<nat, Thread>, log: seq<Entry>,
                         attempts: seq<seq<Key>>, passed: set<nat>)

  datatype Step =
    | Tick(elapsed: nat)
    | BeginAllow(tid: nat, keys: seq<Key>)
    | Name(tid: nat)
    | Count(tid: nat)
    | Return(tid: nat)
    | BeginReset(tid: nat, keys: seq<Key>)
    | NameForReset(tid: nat)
    | Delete(tid: nat)

  predicate Consuming(s: State, tid: nat) {
    tid in s.threads && s.threads[tid].Charging? && s.threads[tid].todo != []
  }

  predicate Resetting(s: State, tid: nat) {
    tid in s.threads && s.threads[tid].Clearing?
  }

  predicate Enabled(s: State, step: Step) {
    match step
    case Tick(_) => true
    case BeginAllow(tid, keys) => tid !in s.threads && GoodKeys(keys)
    case BeginReset(tid, keys) => tid !in s.threads && GoodKeys(keys)
    case Name(tid) => Consuming(s, tid) && s.threads[tid].named == None
    case Count(tid) => Consuming(s, tid) && s.threads[tid].named.Some?
    case Return(tid) => tid in s.threads && s.threads[tid].Charging? && s.threads[tid].todo == []
    case NameForReset(tid) => Resetting(s, tid) && s.threads[tid].todo != []
    case Delete(tid) => Resetting(s, tid) && s.threads[tid].todo == []
  }

  /** The hit a goroutine is about to make. */
  function HitOf(cfg: Config, s: State, tid: nat): Event
    requires Enabled(s, Count(tid))
  {
    var th := s.threads[tid];
    Hit(BucketName(cfg.sha, th.todo[0], th.named.value), th.todo[0].rule.window, s.clock)
  }

  function CountOf(answer: Option<(int, Duration)>): Option<int> {
    match answer case None => None case Some((count, _)) => Some(count)
  }

  predicate WithinLimit(answer: Option<int>, limit: int) {
    answer.Some? && answer.value <= limit
  }

  /** A store error ends the call denied; otherwise the next charge follows. */
  function Resumed(th: Thread, answer: Option<int>): Thread
    requires th.Charging? && th.todo != []
  {
    if answer == None then Charging(th.attempt, [], None, false)
    else Charging(th.attempt, th.todo[1..], None, th.within && WithinLimit(answer, th.todo[0].rule.limit))
  }

  /** One atomic step. Only Count and Delete touch the store. */
  function Next(cfg: Config, s: State, step: Step): State
    requires Enabled(s, step)
  {
    match step
    case Tick(d) => s.(clock := s.clock + d)
    case BeginAllow(tid, keys) =>
      s.(threads := s.threads[tid := Charging(|s.attempts|, Charges(cfg.policy, keys), None, true)],
         attempts := s.attempts + [keys])
    case BeginReset(tid, keys) => s.(threads := s.threads[tid := Clearing(Charges(cfg.policy, keys), {})])
    case Name(tid) => s.(threads := s.threads[tid := s.threads[tid].(named := Some(s.clock))])
    case Count(tid) =>
      var th, e := s.threads[tid], HitOf(cfg, s, tid);
      var answer := CountOf(Answer(s.store, e));
      s.(store := Serve(s.store, e),
         threads := s.threads[tid := Resumed(th, answer)],
         log := s.log + [Counted(th.attempt, th.todo[0], th.named.value, s.clock, answer)])
    case Return(tid) =>
      s.(threads := s.threads - {tid},
         passed := if s.threads[tid].within then s.passed + {s.threads[tid].attempt} else s.passed)
    case NameForReset(tid) =>
      var th := s.threads[tid];
      s.(threads := s.threads[tid := Clearing(th.todo[1..], th.names + {BucketName(cfg.sha, th.todo[0], s.clock)})])
    case Delete(tid) =>
      var names := s.threads[tid].names;
      if names == {} then s.(threads := s.threads - {tid})
      else s.(store := Serve(s.store, Clear(names)), threads := s.threads - {tid}, log := s.log + [Cleared(names)])
  }

  predicate Initial(s: State) {
    Empty(s.store) && s.threads == map[] && s.log == [] && s.attempts == [] && s.passed == {}
  }

  /** The state a run ends in, if every step of it was enabled. */
  function After(cfg: Config, s0: State, steps: seq<Step>): Option<State> {
    if steps == [] then Some(s0) else
      var n := |steps| - 1;
      match After(cfg, s0, steps[..n])
      case None => None
      case Some(s) => if Enabled(s, steps[n]) then Some(Next(cfg, s, steps[n])) else None
  }

  /* ---- What every reachable state satisfies: the store ------------------------ */

  function EventOf(sha: Digest, e: Entry): Event {
    match e
    case Counted(_, c, namedAt, at, _) => Hit(BucketName(sha, c, namedAt), c.rule.window, at)
    case Cleared(names) => Clear(names)
  }

  function Events(sha: Digest, log: seq<Entry>): (h: seq<Event>)
    ensures |h| == |log|
  {
    seq(|log|, i requires 0 <= i < |log| => EventOf(sha, log[i]))
  }

  predicate GoodThread(th: Thread, now: Time) {
    && (forall c | c in th.todo :: GoodCharge(c))
    && (th.Charging? && th.named.Some? ==> th.named.value <= now)
  }

  /** An entry was named before it was counted, and its count is the store's answer to it. */
  ghost predicate GoodEntry(init: StoreState, sha: Digest, log: seq<Entry>, i: nat)
    requires i < |log|
  {
    log[i].Counted? ==>
      && GoodCharge(log[i].charge) && log[i].namedAt <= log[i].at
      && log[i].answer == CountOf(Answer(ServeAll(init, Events(sha, log[..i])), EventOf(sha, log[i])))
  }

  ghost predicate Inv(init: StoreState, cfg: Config, s: State) {
    && s.store == ServeAll(init, Events(cfg.sha, s.log))
    && Ordered(Events(cfg.sha, s.log), s.clock)
    && (forall t | t in s.threads :: GoodThread(s.threads[t], s.clock))
    && (forall i | 0 <= i < |s.log| :: GoodEntry(init, cfg.sha, s.log, i))
  }

  lemma EventsSnoc(init: StoreState, sha: Digest, log: seq<Entry>, e: Entry)
    ensures Events(sha, log + [e]) == Events(sha, log) + [EventOf(sha, e)]
    ensures ServeAll(init, Events(sha, log + [e])) == Serve(ServeAll(init, Events(sha, log)), EventOf(sha, e))
    ensures forall i | 0 <= i < |log| :: GoodEntry(init, sha, log, i) ==> GoodEntry(init, sha, log + [e], i)
  {
    hide BucketName, Answer, Serve;
    var h := Events(sha, log) + [EventOf(sha, e)];
    assert Events(sha, log + [e]) == h && h[..|log|] == Events(sha, log);
    forall i | 0 <= i < |log|
      ensures (log + [e])[..i] == log[..i]
    {
    }
  }

  lemma StepKeepsInv(init: StoreState, cfg: Config, s: State, step: Step)
    requires GoodPolicy(cfg.policy) && Inv(init, cfg, s) && Enabled(s, step)
    ensures Inv(init, cfg, Next(cfg, s, step))
  {
    hide BucketName, Answer, Serve, ServeAll, ChargesTo, GoodCharge;
    match step
    case Tick(_) =>
    case BeginAllow(_, keys) => ChargesGood(cfg.policy, keys);
    case BeginReset(_, keys) => ChargesGood(cfg.policy, keys);
    case Name(_) =>
    case Return(_) =>
    case NameForReset(_) =>
    case Count(tid) => CountKeepsInv(init, cfg, s, tid);
    case Delete(tid) =>
      if s.threads[tid].names != {} {
        EventsSnoc(init, cfg.sha, s.log, Cleared(s.threads[tid].names));
        OrderedSnoc(Events(cfg.sha, s.log), Clear(s.threads[tid].names), s.clock);
      }
  }

  lemma CountKeepsInv(init: StoreState, cfg: Config, s: State, tid: nat)
    requires Inv(init, cfg, s) && Enabled(s, Count(tid))
    ensures Inv(init, cfg, Next(cfg, s, Count(tid)))
  {
    hide BucketName, Answer, Serve, ServeAll, GoodCharge;
    var th, e := s.threads[tid], HitOf(cfg, s, tid);
    var entry := Counted(th.attempt, th.todo[0], th.named.value, s.clock, CountOf(Answer(s.store, e)));
    EventsSnoc(init, cfg.sha, s.log, entry);
    OrderedSnoc(Events(cfg.sha, s.log), e, s.clock);
    assert (s.log + [entry])[..|s.log|] == s.log;
    assert GoodThread(th, s.clock) && th.todo[0] in th.todo;
    assert GoodEntry(init, cfg.sha, s.log + [entry], |s.log|);
    assert forall c | c in th.todo[1..] :: c in th.todo;
  }

  lemma {:induction false} ReachableInv(cfg: Config, s0: State, steps: seq<Step>)
    requires GoodPolicy(cfg.policy) && Initial(s0) && After(cfg, s0, steps).Some?
    ensures Inv(s0.store, cfg, After(cfg, s0, steps).value)
    decreases |steps|
  {
    hide Inv;
    if steps == [] {
      InitialInv(cfg, s0);
    } else {
      var n := |steps| - 1;
      ReachableInv(cfg, s0, steps[..n]);
      StepKeepsInv(s0.store, cfg, After(cfg, s0, steps[..n]).value, steps[n]);
    }
  }

  lemma InitialInv(cfg: Config, s: State)
    requires Initial(s)
    ensures Inv(s.store, cfg, s)
  {
  }

  /* ---- What every reachable state satisfies: the attempts ------------------------ */

  /** Entry `i` is a hit of attempt `a` for the charge `c`. */
  predicate HitBy(log: seq<Entry>, i: nat, a: nat, c: Charge)
    requires i < |log|
  {
    log[i].Counted? && log[i].attempt == a && log[i].charge == c
  }

  predicate Consumed(log: seq<Entry>, a: nat, c: Charge) {
    exists i | 0 <= i < |log| :: HitBy(log, i, a, c)
  }

  /** Every hit of the attempt was answered within its rule. */
  predicate AllWithin(log: seq<Entry>, a: nat) {
    forall i | 0 <= i < |log| && log[i].Counted? && log[i].attempt == a ::
      WithinLimit(log[i].answer, log[i].charge.rule.limit)
  }

  /** What is left of an attempt still within its rules is what it has not consumed. */
  predicate OnCourse(cfg: Config, s: State, th: Thread)
    requires th.Charging?
  {
    && th.attempt < |s.attempts| && th.attempt !in s.passed
    && (th.within ==>
          && AllWithin(s.log, th.attempt)
          && forall c | c in Charges(cfg.policy, s.attempts[th.attempt]) :: c in th.todo || Consumed(s.log, th.attempt, c))
  }

  /** An attempt that passed consumed every charge of its keys, each within its rule. */
  predicate Earned(cfg: Config, s: State, a: nat) {
    && a < |s.attempts| && AllWithin(s.log, a)
    && forall c | c in Charges(cfg.policy, s.attempts[a]) :: Consumed(s.log, a, c)
  }

  ghost predicate AttemptInv(cfg: Config, s: State) {
    && (forall i | 0 <= i < |s.log| && s.log[i].Counted? :: s.log[i].attempt < |s.attempts|)
    && (forall t | t in s.threads && s.threads[t].Charging? :: OnCourse(cfg, s, s.threads[t]))
    && (forall t, u | t in s.threads && u in s.threads && s.threads[t].Charging? && s.threads[u].Charging? && t != u ::
          s.threads[t].attempt != s.threads[u].attempt)
    && (forall a | a in s.passed :: Earned(cfg, s, a))
  }

  /** A new entry changes nothing for other attempts. */
  lemma OthersUntouched(log: seq<Entry>, e: Entry, a: nat, c: Charge)
    ensures Consumed(log, a, c) ==> Consumed(log + [e], a, c)
    ensures (e.Cleared? || e.attempt != a) ==> (AllWithin(log + [e], a) <==> AllWithin(log, a))
    ensures e.Counted? && e.attempt == a ==>
              (AllWithin(log + [e], a) <==> AllWithin(log, a) && WithinLimit(e.answer, e.charge.rule.limit))
    ensures e.Counted? && e.attempt == a && e.charge == c ==> Consumed(log + [e], a, c)
  {
    hide WithinLimit;
    var l := log + [e];
    assert l[|log|] == e && forall i | 0 <= i < |log| :: l[i] == log[i];
    if Consumed(log, a, c) {
      var i :| 0 <= i < |log| && HitBy(log, i, a, c);
      assert HitBy(l, i, a, c);
    }
    if e.Counted? && e.attempt == a && e.charge == c {
      assert HitBy(l, |log|, a, c);
    }
  }

  lemma EarnedKept(cfg: Config, s: State, s': State, e: Entry, a: nat)
    requires s'.log == s.log + [e] && s'.attempts == s.attempts && Earned(cfg, s, a)
    requires e.Counted? ==> e.attempt != a
    ensures Earned(cfg, s', a)
  {
    hide ChargesTo, AllWithin, Consumed;
    forall c
      ensures Consumed(s.log, a, c) ==> Consumed(s'.log, a, c)
    {
      OthersUntouched(s.log, e, a, c);
    }
    SameWithin(s.log, e, a);
  }

  lemma SameWithin(log: seq<Entry>, e: Entry, a: nat)
    ensures (e.Counted? ==> e.attempt != a) ==> (AllWithin(log + [e], a) <==> AllWithin(log, a))
  {
    hide WithinLimit;
    OthersUntouched(log, e, a, Charge(Key("", "", ""), Rule(0, 0)));
  }

  lemma OnCourseKept(cfg: Config, s: State, s': State, e: Entry, th: Thread)
    requires th.Charging? && OnCourse(cfg, s, th)
    requires s'.log == s.log + [e] && s'.attempts == s.attempts && th.attempt !in s'.passed
    requires e.Counted? ==> e.attempt != th.attempt
    ensures OnCourse(cfg, s', th)
  {
    hide ChargesTo, AllWithin, Consumed;
    forall c
      ensures Consumed(s.log, th.attempt, c) ==> Consumed(s'.log, th.attempt, c)
    {
      OthersUntouched(s.log, e, th.attempt, c);
    }
    SameWithin(s.log, e, th.attempt);
  }

  /** The goroutine that counted stays on course, or is no longer within its rules. */
  lemma OnCourseNext(cfg: Config, s: State, s': State, e: Entry, th: Thread)
    requires th.Charging? && th.todo != [] && OnCourse(cfg, s, th)
    requires s'.log == s.log + [e] && s'.attempts == s.attempts && th.attempt !in s'.passed
    requires e.Counted? && e.attempt == th.attempt && e.charge == th.todo[0]
    ensures OnCourse(cfg, s', Resumed(th, e.answer))
  {
    hide ChargesTo, AllWithin, Consumed;
    forall c
      ensures Consumed(s.log, th.attempt, c) ==> Consumed(s'.log, th.attempt, c)
    {
      OthersUntouched(s.log, e, th.attempt, c);
    }
    OthersUntouched(s.log, e, th.attempt, th.todo[0]);
    assert th.todo == [th.todo[0]] + th.todo[1..];
  }

  lemma StepKeepsAttempts(cfg: Config, s: State, step: Step)
    requires AttemptInv(cfg, s) && Enabled(s, step)
    ensures AttemptInv(cfg, Next(cfg, s, step))
  {
    hide BucketName, Answer, Serve, ChargesTo, AllWithin, Consumed;
    match step
    case BeginAllow(tid, keys) => BeginKeepsAttempts(cfg, s, tid, keys);
    case Count(tid) => CountKeepsAttempts(cfg, s, tid);
    case Return(tid) => ReturnKeepsAttempts(cfg, s, tid);
    case Delete(tid) =>
      if s.threads[tid].names != {} {
        var s', e := Next(cfg, s, step), Cleared(s.threads[tid].names);
        forall t | t in s'.threads && s'.threads[t].Charging?
          ensures OnCourse(cfg, s', s'.threads[t])
        {
          OnCourseKept(cfg, s, s', e, s.threads[t]);
        }
        forall a | a in s'.passed
          ensures Earned(cfg, s', a)
        {
          EarnedKept(cfg, s, s', e, a);
        }
      }
    case _ =>
  }

  lemma BeginKeepsAttempts(cfg: Config, s: State, tid: nat, keys: seq<Key>)
    requires AttemptInv(cfg, s) && Enabled(s, BeginAllow(tid, keys))
    ensures AttemptInv(cfg, Next(cfg, s, BeginAllow(tid, keys)))
  {
    hide ChargesTo, Consumed;
    var s' := Next(cfg, s, BeginAllow(tid, keys));
    assert AllWithin(s.log, |s.attempts|);
    forall t | t in s'.threads && s'.threads[t].Charging?
      ensures OnCourse(cfg, s', s'.threads[t])
    {
      if t != tid {
        assert OnCourse(cfg, s, s.threads[t]);
      }
    }
    forall a | a in s'.passed
      ensures Earned(cfg, s', a)
    {
      assert Earned(cfg, s, a);
    }
  }

  lemma ReturnKeepsAttempts(cfg: Config, s: State, tid: nat)
    requires AttemptInv(cfg, s) && Enabled(s, Return(tid))
    ensures AttemptInv(cfg, Next(cfg, s, Return(tid)))
  {
    hide ChargesTo, AllWithin, Consumed;
    var s', th := Next(cfg, s, Return(tid)), s.threads[tid];
    assert OnCourse(cfg, s, th);
    forall a | a in s'.passed
      ensures Earned(cfg, s', a)
    {
      assert a in s.passed ==> Earned(cfg, s, a);
    }
    forall t | t in s'.threads && s'.threads[t].Charging?
      ensures OnCourse(cfg, s', s'.threads[t])
    {
      assert OnCourse(cfg, s, s.threads[t]);
    }
  }

  lemma CountKeepsAttempts(cfg: Config, s: State, tid: nat)
    requires AttemptInv(cfg, s) && Enabled(s, Count(tid))
    ensures AttemptInv(cfg, Next(cfg, s, Count(tid)))
  {
    hide BucketName, Answer, Serve, ChargesTo, AllWithin, Consumed;
    var s', th := Next(cfg, s, Count(tid)), s.threads[tid];
    var e := s'.log[|s.log|];
    assert s'.log == s.log + [e] && OnCourse(cfg, s, th);
    forall t | t in s'.threads && s'.threads[t].Charging?
      ensures OnCourse(cfg, s', s'.threads[t])
    {
      if t == tid {
        OnCourseNext(cfg, s, s', e, th);
      } else {
        OnCourseKept(cfg, s, s', e, s.threads[t]);
      }
    }
    forall a | a in s'.passed
      ensures Earned(cfg, s', a)
    {
      EarnedKept(cfg, s, s', e, a);
    }
  }

  lemma {:induction false} ReachableAttempts(cfg: Config, s0: State, steps: seq<Step>)
    requires Initial(s0) && After(cfg, s0, steps).Some?
    ensures AttemptInv(cfg, After(cfg, s0, steps).value)
    decreases |steps|
  {
    hide AttemptInv;
    if steps == [] {
      NoAttempts(cfg, s0);
    } else {
      var n := |steps| - 1;
      ReachableAttempts(cfg, s0, steps[..n]);
      StepKeepsAttempts(cfg, After(cfg, s0, steps[..n]).value, steps[n]);
    }
  }

  lemma NoAttempts(cfg: Config, s: State)
    requires Initial(s)
    ensures AttemptInv(cfg, s)
  {
  }

  /* ---- The limit ------------------------------------------------------------------ */

  /** Entry `i` is for the counter of `c` in the window of `t`, was read before that window ended, and is admitted. */
  predicate AdmittedEntry(sha: Digest, log: seq<Entry>, i: nat, c: Charge, t: Time)
    requires i < |log|
  {
    && log[i].Counted? && SameCounter(sha, log[i].charge, c) && InWindow(log[i].namedAt, t, c.rule.window)
    && log[i].at < Truncate(t, c.rule.window) + c.rule.window && WithinLimit(log[i].answer, c.rule.limit)
  }

  function AdmittedEntries(sha: Digest, log: seq<Entry>, from: nat, c: Charge, t: Time): nat
    requires from <= |log|
    decreases |log|
  {
    if |log| == from then 0 else
      AdmittedEntries(sha, log[..|log| - 1], from, c, t) +
      (if AdmittedEntry(sha, log, |log| - 1, c, t) then 1 else 0)
  }

  lemma EntryIsAdmission(init: StoreState, sha: Digest, log: seq<Entry>, i: nat, c: Charge, t: Time)
    requires i < |log| && GoodCharge(c) && GoodEntry(init, sha, log, i)
    ensures AdmittedEntry(sha, log, i, c, t) <==>
            AdmittedOver(init, Events(sha, log), i, BucketName(sha, c, t),
                         Truncate(t, c.rule.window) + c.rule.window, c.rule.limit)
  {
    hide BucketName, Answer, ServeAll, GoodCharge, Truncate;
    assert Events(sha, log)[..i] == Events(sha, log[..i]);
    if log[i].Counted? {
      NameInjective(sha, log[i].charge, log[i].namedAt, c, t);
    }
  }

  lemma PrefixIsGood(init: StoreState, sha: Digest, log: seq<Entry>, n: nat)
    requires n <= |log| && forall i | 0 <= i < |log| :: GoodEntry(init, sha, log, i)
    ensures forall i | 0 <= i < n :: GoodEntry(init, sha, log[..n], i)
    ensures Events(sha, log[..n]) == Events(sha, log)[..n]
  {
    hide BucketName, Answer, ServeAll, GoodCharge;
    forall i | 0 <= i < n
      ensures GoodEntry(init, sha, log[..n], i)
    {
      assert log[..n][..i] == log[..i] && GoodEntry(init, sha, log, i);
    }
  }

  lemma {:induction false} EntriesAreAdmissions(init: StoreState, sha: Digest, log: seq<Entry>, from: nat, c: Charge, t: Time)
    requires from <= |log| && GoodCharge(c) && forall i | 0 <= i < |log| :: GoodEntry(init, sha, log, i)
    ensures AdmittedEntries(sha, log, from, c, t) ==
            AdmissionsOver(init, Events(sha, log), from, BucketName(sha, c, t),
                           Truncate(t, c.rule.window) + c.rule.window, c.rule.limit)
    decreases |log|
  {
    if |log| > from {
      hide BucketName, Events, AdmittedEntry, AdmittedOver, GoodEntry, GoodCharge, Truncate;
      var n := |log| - 1;
      PrefixIsGood(init, sha, log, n);
      EntriesAreAdmissions(init, sha, log[..n], from, c, t);
      EntryIsAdmission(init, sha, log, n, c, t);
    }
  }

  lemma NamedEarly(init: StoreState, sha: Digest, log: seq<Entry>, c: Charge, t: Time)
    requires GoodCharge(c) && forall i | 0 <= i < |log| :: GoodEntry(init, sha, log, i)
    ensures OnlyFrom(Events(sha, log), BucketName(sha, c, t), c.rule.window, Truncate(t, c.rule.window))
  {
    hide BucketName, Answer, ServeAll, GoodCharge;
    var h, name := Events(sha, log), BucketName(sha, c, t);
    assert c.rule.window > 0 by {
      WindowOf(c);
    }
    forall i | 0 <= i < |h| && h[i].Hit? && h[i].name == name
      ensures h[i].window == c.rule.window && Truncate(t, c.rule.window) <= h[i].at
    {
      assert GoodEntry(init, sha, log, i);
      NameInjective(sha, log[i].charge, log[i].namedAt, c, t);
    }
  }

  lemma WindowOf(c: Charge)
    requires GoodCharge(c)
    ensures c.rule.window > 0 && WholeSeconds(c.rule.window)
  {
  }

  /** No clear from `from` on that reaches the store names the bucket of `c` in the window of `t`. */
  predicate NotCleared(init: StoreState, sha: Digest, log: seq<Entry>, from: nat, c: Charge, t: Time) {
    forall i | from <= i < |log| && log[i].Cleared? && Arrives(init, i) :: BucketName(sha, c, t) !in log[i].names
  }

  /**
   However goroutines interleave, however long any of them sleeps between naming a bucket and
   hitting it, and whatever requests and replies to the store are lost: between two clears of a
   bucket, the hits read before its aligned window ends are admitted at most `limit` times.
   */
  lemma LimitUnderInterleaving(cfg: Config, s0: State, steps: seq<Step>, s: State, from: nat, c: Charge, t: Time)
    requires GoodPolicy(cfg.policy) && Initial(s0) && After(cfg, s0, steps) == Some(s)
    requires GoodCharge(c) && c.rule.limit >= 0 && from <= |s.log|
    requires NotCleared(s0.store, cfg.sha, s.log, from, c, t)
    ensures AdmittedEntries(cfg.sha, s.log, from, c, t) <= c.rule.limit
  {
    hide BucketName, Answer, ServeAll, GoodCharge, Ordered, OnlyFrom, GoodEntry, Truncate;
    var init, h, w := s0.store, Events(cfg.sha, s.log), c.rule.window;
    ReachableInv(cfg, s0, steps);
    EntriesAreAdmissions(init, cfg.sha, s.log, from, c, t);
    NamedEarly(init, cfg.sha, s.log, c, t);
    WindowOf(c);
    StoreRuns.WholeMilliseconds(t, w);
    assert Uncleared(init, h, from, BucketName(cfg.sha, c, t)) by {
      forall i | from <= i < |h| && h[i].Clear? && Arrives(init, i)
        ensures BucketName(cfg.sha, c, t) !in h[i].names
      {
        assert s.log[i].Cleared?;
      }
    }
    LimitHoldsOver(init, h, from, BucketName(cfg.sha, c, t), w, Truncate(t, w), c.rule.limit, s.clock);
  }

  /* ---- Attempts that pass ------------------------------------------------------------ */

  /** Entry `i` is attempt `a`'s hit for the counter and rule of `c`, in the window of `t` and read before it ended. */
  predicate Marks(sha: Digest, log: seq<Entry>, i: nat, a: nat, c: Charge, t: Time)
    requires i < |log|
  {
    && log[i].Counted? && log[i].attempt == a && SameCounter(sha, log[i].charge, c) && log[i].charge.rule == c.rule
    && InWindow(log[i].namedAt, t, c.rule.window) && log[i].at < Truncate(t, c.rule.window) + c.rule.window
  }

  /** Those of the attempts `who` that made such a hit from entry `from` on. */
  function MarkedIn(sha: Digest, who: set<nat>, log: seq<Entry>, from: nat, c: Charge, t: Time): set<nat> {
    set a | a in who && exists i | from <= i < |log| :: Marks(sha, log, i, a, c, t)
  }

  /** The attempt whose hit is the last entry, if it is marked. */
  function LastMark(sha: Digest, who: set<nat>, log: seq<Entry>, c: Charge, t: Time): set<nat>
    requires log != []
  {
    var n := |log| - 1;
    if log[n].Counted? && log[n].attempt in who && Marks(sha, log, n, log[n].attempt, c, t)
    then {log[n].attempt} else {}
  }

  lemma MarkedNext(sha: Digest, who: set<nat>, log: seq<Entry>, from: nat, c: Charge, t: Time)
    requires from < |log|
    ensures MarkedIn(sha, who, log, from, c, t) <=
            MarkedIn(sha, who, log[..|log| - 1], from, c, t) + LastMark(sha, who, log, c, t)
  {
    hide SameCounter, InWindow, Truncate;
    var n := |log| - 1;
    forall a | a in MarkedIn(sha, who, log, from, c, t)
      ensures a in MarkedIn(sha, who, log[..n], from, c, t) + LastMark(sha, who, log, c, t)
    {
      var i :| from <= i < |log| && Marks(sha, log, i, a, c, t);
      if i < n {
        assert Marks(sha, log[..n], i, a, c, t);
      }
    }
  }

  lemma LastMarkIsAdmitted(sha: Digest, who: set<nat>, log: seq<Entry>, c: Charge, t: Time)
    requires log != [] && forall a | a in who :: AllWithin(log, a)
    ensures |LastMark(sha, who, log, c, t)| <= if AdmittedEntry(sha, log, |log| - 1, c, t) then 1 else 0
    ensures forall a | a in who :: AllWithin(log[..|log| - 1], a)
  {
    hide SameCounter, InWindow, Truncate, WithinLimit;
    var n := |log| - 1;
    if log[n].Counted? && log[n].attempt in who {
      assert AllWithin(log, log[n].attempt);
    }
    forall a | a in who
      ensures AllWithin(log[..n], a)
    {
      assert AllWithin(log, a);
    }
  }

  lemma {:induction false} MarkedAreAdmitted(sha: Digest, who: set<nat>, log: seq<Entry>, from: nat, c: Charge, t: Time)
    requires from <= |log| && forall a | a in who :: AllWithin(log, a)
    ensures |MarkedIn(sha, who, log, from, c, t)| <= AdmittedEntries(sha, log, from, c, t)
    decreases |log|
  {
    hide MarkedIn, LastMark, AllWithin, AdmittedEntry;
    if |log| == from {
      NoneMarked(sha, who, log, c, t);
    } else {
      LastMarkIsAdmitted(sha, who, log, c, t);
      MarkedAreAdmitted(sha, who, log[..|log| - 1], from, c, t);
      MarkedNext(sha, who, log, from, c, t);
      Subset(MarkedIn(sha, who, log, from, c, t),
             MarkedIn(sha, who, log[..|log| - 1], from, c, t) + LastMark(sha, who, log, c, t));
    }
  }

  lemma NoneMarked(sha: Digest, who: set<nat>, log: seq<Entry>, c: Charge, t: Time)
    ensures MarkedIn(sha, who, log, |log|, c, t) == {}
  {
  }

  /**
   The limit counted in attempts: between two clears of a bucket, at most `limit` of the attempts
   that pass made a hit on it before its aligned window ended.
   */
  lemma AttemptsUnderInterleaving(cfg: Config, s0: State, steps: seq<Step>, s: State, from: nat, c: Charge, t: Time)
    requires GoodPolicy(cfg.policy) && Initial(s0) && After(cfg, s0, steps) == Some(s)
    requires GoodCharge(c) && c.rule.limit >= 0 && from <= |s.log|
    requires NotCleared(s0.store, cfg.sha, s.log, from, c, t)
    ensures |MarkedIn(cfg.sha, s.passed, s.log, from, c, t)| <= c.rule.limit
  {
    hide BucketName, GoodCharge, Truncate, MarkedIn, AllWithin, NotCleared, Consumed;
    LimitUnderInterleaving(cfg, s0, steps, s, from, c, t);
    ReachableAttempts(cfg, s0, steps);
    forall a | a in s.passed
      ensures AllWithin(s.log, a)
    {
      assert Earned(cfg, s, a);
    }
    MarkedAreAdmitted(cfg.sha, s.passed, s.log, from, c, t);
  }

  /** No attempt passes without a hit, answered within its rule, for every charge of its keys. */
  lemma PassingIsCounted(cfg: Config, s0: State, steps: seq<Step>, s: State, a: nat, c: Charge) returns (i: nat)
    requires Initial(s0) && After(cfg, s0, steps) == Some(s) && a in s.passed
    ensures a < |s.attempts|
    ensures c in Charges(cfg.policy, s.attempts[a]) ==>
              i < |s.log| && HitBy(s.log, i, a, c) && WithinLimit(s.log[i].answer, c.rule.limit)
  {
    hide ChargesTo, WithinLimit;
    ReachableAttempts(cfg, s0, steps);
    assert Earned(cfg, s, a);
    i := 0;
    if c in Charges(cfg.policy, s.attempts[a]) {
      i :| 0 <= i < |s.log| && HitBy(s.log, i, a, c);
    }
  }
}
