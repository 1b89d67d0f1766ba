/**
 What a counter store means, independent of any implementation: a history of
 hits and clears, the counters it leaves, and the reply each hit gets.
 Mirrors backend/internal/rate-limiter/memory.go.
 */
module Counters {
  import opened BucketNames

  datatype Bucket = Bucket(count: nat, expiresAt: Time)

  type Buckets = map<string, Bucket>

  /** What Incr returns: the new count and the life left in the bucket. */
  datatype Reply = Reply(count: nat, ttl: Duration)

  /** One locked call on a store: Incr, with the clock it read, or Del. */
  datatype Event =
    | Hit(name: string, window: Duration, at: Time)
    | Clear(names: set<string>)

  function Swept(m: Buckets, now: Time): Buckets {
    map k | k in m && m[k].expiresAt > now :: m[k]
  }

  /** The bucket a hit lands in, before it is counted. */
  function Current(m: Buckets, name: string, window: Duration, now: Time): Bucket {
    if name in m && m[name].expiresAt > now then m[name] else Bucket(0, now + window)
  }

  function Bumped(b: Bucket): Bucket {
    b.(count := b.count + 1)
  }

  function Apply(m: Buckets, e: Event): Buckets {
    match e
    case Hit(name, window, at) => Swept(m, at)[name := Bumped(Current(m, name, window, at))]
    case Clear(names) => m - names
  }

  function ReplyTo(m: Buckets, e: Event): Reply
    requires e.Hit?
  {
    var b := Current(m, e.name, e.window, e.at);
    Reply(b.count + 1, b.expiresAt - e.at)
  }

  function Run(m: Buckets, h: seq<Event>): Buckets {
    if h == [] then m else Apply(Run(m, h[..|h| - 1]), h[|h| - 1])
  }

  lemma {:induction false} RunConcat(m: Buckets, a: seq<Event>, b: seq<Event>)
    ensures Run(m, a + b) == Run(Run(m, a), b)
    decreases |b|
  {
    if b == [] {
      assert a + b == a;
    } else {
      assert (a + b)[..|a + b| - 1] == a + b[..|b| - 1];
      RunConcat(m, a, b[..|b| - 1]);
    }
  }

  /** Clock readings never go back, and none is past `now`. */
  ghost predicate Ordered(h: seq<Event>, now: Time) {
    && (forall i | 0 <= i < |h| && h[i].Hit? :: h[i].at <= now)
    && (forall i, j | 0 <= i < j < |h| && h[i].Hit? && h[j].Hit? :: h[i].at <= h[j].at)
  }

  lemma OrderedPrefix(h: seq<Event>, now: Time, n: nat)
    requires Ordered(h, now) && n <= |h|
    ensures Ordered(h[..n], now)
    ensures n < |h| && h[n].Hit? ==> Ordered(h[..n], h[n].at)
  {
  }

  lemma OrderedSnoc(h: seq<Event>, e: Event, now: Time)
    requires e.Hit? ==> Ordered(h, e.at) && e.at <= now
    requires e.Clear? ==> Ordered(h, now)
    ensures Ordered(h + [e], now)
  {
  }

  /* ---- Sweeping is invisible --------------------------------------------- */

  /** The same store with no sweep: dead buckets stay until their name is hit again. */
  function ApplyUnswept(m: Buckets, e: Event): Buckets {
    match e
    case Hit(name, window, at) => m[name := Bumped(Current(m, name, window, at))]
    case Clear(names) => m - names
  }

  function RunUnswept(m: Buckets, h: seq<Event>): Buckets {
    if h == [] then m else ApplyUnswept(RunUnswept(m, h[..|h| - 1]), h[|h| - 1])
  }

  lemma {:induction false} SweptStoresAgree(h: seq<Event>, now: Time)
    requires Ordered(h, now)
    ensures Swept(Run(map[], h), now) == Swept(RunUnswept(map[], h), now)
  {
    if h != [] {
      var p, e := h[..|h| - 1], h[|h| - 1];
      OrderedPrefix(h, now, |p|);
      var t := if e.Hit? then e.at else now;
      SweptStoresAgree(p, t);
      var a, b := Run(map[], p), RunUnswept(map[], p);
      var a', b' := Run(map[], h), RunUnswept(map[], h);
      forall k: string
        ensures k in Swept(a', now) <==> k in Swept(b', now)
        ensures k in Swept(a', now) ==> a'[k] == b'[k]
      {
        assert k in Swept(a, t) <==> k in Swept(b, t);
        assert k in Swept(a, t) ==> Swept(a, t)[k] == Swept(b, t)[k];
        if e.Hit? {
          assert e.name in Swept(a, t) <==> e.name in Swept(b, t);
          assert e.name in Swept(a, t) ==> Swept(a, t)[e.name] == Swept(b, t)[e.name];
        }
      }
    }
  }

  /** Under a nondecreasing clock every hit is answered as if nothing were ever swept. */
  lemma SweepIsInvisible(h: seq<Event>, e: Event)
    requires e.Hit? && Ordered(h, e.at)
    ensures ReplyTo(Run(map[], h), e) == ReplyTo(RunUnswept(map[], h), e)
  {
    SweptStoresAgree(h, e.at);
    var a, b := Run(map[], h), RunUnswept(map[], h);
    assert e.name in Swept(a, e.at) <==> e.name in Swept(b, e.at);
    assert e.name in Swept(a, e.at) ==> Swept(a, e.at)[e.name] == Swept(b, e.at)[e.name];
  }

  /* ---- Sweeping bounds the store ----------------------------------------- */

  /** Names hit after the instant `from`. */
  ghost function RecentNames(h: seq<Event>, from: Time): set<string> {
    set i | 0 <= i < |h| && h[i].Hit? && h[i].at > from :: h[i].name
  }

  /** Every stored bucket still carries the expiry some hit on its name gave it. */
  lemma {:induction false} BucketsComeFromHits(h: seq<Event>, k: string) returns (i: nat)
    requires k in Run(map[], h)
    ensures i < |h| && h[i].Hit? && h[i].name == k
    ensures Run(map[], h)[k].expiresAt == h[i].at + h[i].window
  {
    var p, e := h[..|h| - 1], h[|h| - 1];
    var m := Run(map[], p);
    if e.Hit? && e.name == k && !(k in m && m[k].expiresAt > e.at) {
      i := |p|;
    } else {
      i := BucketsComeFromHits(p, k);
    }
  }

  /** Right after a hit the store holds no more entries than names hit within the longest window. */
  lemma StoreStaysSmall(h: seq<Event>, longest: Duration)
    requires |h| > 0 && h[|h| - 1].Hit?
    requires forall i | 0 <= i < |h| && h[i].Hit? :: 0 < h[i].window <= longest
    ensures |Run(map[], h)| <= |RecentNames(h, h[|h| - 1].at - longest)|
  {
    var m, now := Run(map[], h), h[|h| - 1].at;
    var names := RecentNames(h, now - longest);
    forall k | k in m.Keys
      ensures k in names
    {
      var i := BucketsComeFromHits(h, k);
      assert m[k].expiresAt > now;
      assert h[i].at > now - longest;
    }
    Subset(m.Keys, names);
    assert |m| == |m.Keys|;
  }

  lemma {:induction false} Subset<T>(a: set<T>, b: set<T>)
    requires a <= b
    ensures |a| <= |b|
  {
    if a != {} {
      var x :| x in a;
      Subset(a - {x}, b - {x});
    }
  }

  /* ---- Counting a history ------------------------------------------------ */

  /** Hits on `name` since it was last cleared. */
  function Since(h: seq<Event>, name: string): nat {
    if h == [] then 0 else
      match h[|h| - 1]
      case Hit(n, _, _) => Since(h[..|h| - 1], name) + (if n == name then 1 else 0)
      case Clear(ns) => if name in ns then 0 else Since(h[..|h| - 1], name)
  }

  /** When the first of those hits happened. */
  function FirstSince(h: seq<Event>, name: string): Time
    requires Since(h, name) > 0
  {
    var p := h[..|h| - 1];
    if Since(p, name) > 0 then FirstSince(p, name) else h[|h| - 1].at
  }

  lemma {:induction false} FirstSinceBounds(h: seq<Event>, name: string, lo: Time, now: Time)
    requires Since(h, name) > 0 && Ordered(h, now)
    requires forall i | 0 <= i < |h| && h[i].Hit? && h[i].name == name :: lo <= h[i].at
    ensures lo <= FirstSince(h, name) <= now
  {
    var p := h[..|h| - 1];
    if Since(p, name) > 0 {
      FirstSinceBounds(p, name, lo, now);
    }
  }

  /** Every hit on `name` is for the window length `w` and no earlier than the window's start. */
  ghost predicate OnlyFrom(h: seq<Event>, name: string, w: Duration, start: Time) {
    forall i | 0 <= i < |h| && h[i].Hit? && h[i].name == name :: h[i].window == w && start <= h[i].at
  }

  /**
   Until the aligned window ends, a bucket named after it cannot have expired,
   so its count is the number of hits since it was last cleared and its expiry
   is one window after the first of them.
   */
  lemma {:induction false} CountsSinceClear(h: seq<Event>, name: string, w: Duration, start: Time, now: Time)
    requires Ordered(h, now) && OnlyFrom(h, name, w, start) && now < start + w
    ensures Since(h, name) == 0 ==> name !in Run(map[], h)
    ensures Since(h, name) > 0 ==>
              && start <= FirstSince(h, name) <= now
              && name in Run(map[], h)
              && Run(map[], h)[name] == Bucket(Since(h, name), FirstSince(h, name) + w)
  {
    if h != [] {
      var p, e := h[..|h| - 1], h[|h| - 1];
      OrderedPrefix(h, now, |p|);
      assert OnlyFrom(p, name, w, start);
      CountsSinceClear(p, name, w, start, if e.Hit? then e.at else now);
      if Since(h, name) > 0 {
        FirstSinceBounds(h, name, start, now);
      }
    }
  }

  /** The reply to a hit that arrives before its aligned window ends. */
  lemma ReplyCountsHistory(h: seq<Event>, e: Event, start: Time)
    requires e.Hit? && Ordered(h, e.at) && OnlyFrom(h, e.name, e.window, start)
    requires e.at < start + e.window
    ensures ReplyTo(Run(map[], h), e).count == Since(h, e.name) + 1
    ensures ReplyTo(Run(map[], h), e).ttl ==
            (if Since(h, e.name) == 0 then e.at else FirstSince(h, e.name)) + e.window - e.at
  {
    CountsSinceClear(h, e.name, e.window, start, e.at);
  }

  /* ---- The limit holds for any history ----------------------------------- */

  /** Is event `i` a hit on `name`, read before `until`, that a limit of `limit` admits? */
  ghost predicate AdmittedAt(h: seq<Event>, i: nat, name: string, until: Time, limit: int)
    requires i < |h|
  {
    h[i].Hit? && h[i].name == name && h[i].at < until && ReplyTo(Run(map[], h[..i]), h[i]).count <= limit
  }

  /** Number of such events from position `from` on. */
  ghost function Admissions(h: seq<Event>, from: nat, name: string, until: Time, limit: int): nat
    requires from <= |h|
    decreases |h|
  {
    if |h| == from then 0 else
      Admissions(h[..|h| - 1], from, name, until, limit) +
      (if AdmittedAt(h, |h| - 1, name, until, limit) then 1 else 0)
  }

  /** Between clears of a bucket, hits read before its window ends are admitted at most `limit` times. */
  lemma {:induction false} LimitHolds(h: seq<Event>, from: nat, name: string, w: Duration, start: Time,
                                      limit: nat, now: Time)
    requires from <= |h|
    requires Ordered(h, now) && OnlyFrom(h, name, w, start)
    requires forall i | from <= i < |h| && h[i].Clear? :: name !in h[i].names
    ensures Admissions(h, from, name, start + w, limit) <= limit
    ensures Admissions(h, from, name, start + w, limit) <= Since(h, name)
  {
    if |h| > from {
      var p, e := h[..|h| - 1], h[|h| - 1];
      OrderedPrefix(h, now, |p|);
      assert OnlyFrom(p, name, w, start);
      LimitHolds(p, from, name, w, start, limit, if e.Hit? then e.at else now);
      if AdmittedAt(h, |h| - 1, name, start + w, limit) {
        ReplyCountsHistory(p, e, start);
      }
    }
  }

  /* ---- Exactly which hits the count covers -------------------------------- */

  /** Every hit on `name` asks for the window length `w`. */
  ghost predicate OneWindow(h: seq<Event>, name: string, w: Duration) {
    forall i | 0 <= i < |h| && h[i].Hit? && h[i].name == name :: h[i].window == w
  }

  /** One window after the first hit since the last clear has not passed, if there was one. */
  predicate FirstAlive(h: seq<Event>, name: string, w: Duration, now: Time) {
    Since(h, name) == 0 || now < FirstSince(h, name) + w
  }

  /**
   A bucket never counts more than the hits since its last clear; it counts all of them exactly
   while the first is alive, and then expires with it.
   */
  ghost predicate CountedFromFirst(h: seq<Event>, name: string, w: Duration, now: Time) {
    var m := Run(map[], h);
    && (name in m ==> m[name].count <= Since(h, name) && m[name].count >= 1)
    && (name in m && m[name].count == Since(h, name) ==> m[name].expiresAt == FirstSince(h, name) + w)
    && (name in m && m[name].count < Since(h, name) ==> !FirstAlive(h, name, w, now))
    && (name !in m ==> Since(h, name) == 0 || !FirstAlive(h, name, w, now))
  }

  lemma {:induction false} BucketsCountFromFirst(h: seq<Event>, name: string, w: Duration, now: Time)
    requires Ordered(h, now) && OneWindow(h, name, w)
    ensures CountedFromFirst(h, name, w, now)
  {
    hide Ordered;
    if h != [] {
      var p, e := h[..|h| - 1], h[|h| - 1];
      OrderedPrefix(h, now, |p|);
      LastReading(h, now);
      BucketsCountFromFirst(p, name, w, if e.Hit? then e.at else now);
    }
  }

  lemma LastReading(h: seq<Event>, now: Time)
    requires Ordered(h, now) && h != []
    ensures h[|h| - 1].Hit? ==> h[|h| - 1].at <= now
  {
  }

  /**
   The count answered is the number of hits since the last clear, this one included, exactly when
   none of them came before or one window has not passed since the first.
   */
  lemma CountIsSince(h: seq<Event>, e: Event)
    requires e.Hit? && Ordered(h, e.at) && OneWindow(h, e.name, e.window)
    ensures ReplyTo(Run(map[], h), e).count == Since(h, e.name) + 1 <==> FirstAlive(h, e.name, e.window, e.at)
    ensures ReplyTo(Run(map[], h), e).count <= Since(h, e.name) + 1
  {
    hide Run, Ordered;
    BucketsCountFromFirst(h, e.name, e.window, e.at);
  }

  /** A hit on `name` within a window of the first since the last clear, that `limit` admits. */
  ghost predicate AliveAt(h: seq<Event>, i: nat, name: string, limit: int)
    requires i < |h|
  {
    h[i].Hit? && h[i].name == name && FirstAlive(h[..i], name, h[i].window, h[i].at)
    && ReplyTo(Run(map[], h[..i]), h[i]).count <= limit
  }

  ghost function AliveAdmissions(h: seq<Event>, from: nat, name: string, limit: int): nat
    requires from <= |h|
    decreases |h|
  {
    if |h| == from then 0 else
      AliveAdmissions(h[..|h| - 1], from, name, limit) + (if AliveAt(h, |h| - 1, name, limit) then 1 else 0)
  }

  /**
   Between clears, however bucket names relate to windows: the hits within a window of the first
   are admitted at most `limit` times. Later ones start a new count, so no bound holds with them.
   */
  lemma {:induction false} AliveLimit(h: seq<Event>, from: nat, name: string, w: Duration, limit: nat, now: Time)
    requires from <= |h| && Ordered(h, now) && OneWindow(h, name, w)
    requires forall i | from <= i < |h| && h[i].Clear? :: name !in h[i].names
    ensures AliveAdmissions(h, from, name, limit) <= limit
    ensures AliveAdmissions(h, from, name, limit) <= Since(h, name)
  {
    if |h| > from {
      hide Run, ReplyTo;
      var p, e := h[..|h| - 1], h[|h| - 1];
      OrderedPrefix(h, now, |p|);
      AliveLimit(p, from, name, w, limit, if e.Hit? then e.at else now);
      if AliveAt(h, |h| - 1, name, limit) {
        CountIsSince(p, e);
      }
    }
  }
}
