/**
 Counting over either store when round trips to it may fail: a request or a reply can be lost, a
 lost reply has still counted, and one clock time serves the store and the names.
 */
module StoreCounts {
  import opened Wrappers
  import opened BucketNames
  import opened Counters
  import opened RedisStores
  import opened Limiters

  /** A store nothing has been asked of. */
  predicate Empty(st: StoreState) {
    match st
    case InMemory(m) => m == map[]
    case InRedis(keys, calls, _, _) => keys == map[] && calls == 0
  }

  /** The event call number `n` carries reaches the store. */
  predicate Arrives(st: StoreState, n: nat) {
    st.InRedis? ==> !st.faults(n).RequestLost?
  }

  /** What the store has processed of the calls made on it. */
  function Reached(st: StoreState, h: seq<Event>): seq<Event> {
    if h == [] then [] else
      var n := |h| - 1;
      Reached(st, h[..n]) + (if Arrives(st, n) then [h[n]] else [])
  }

  /** The state is the replay of what arrived. */
  lemma {:induction false} ServedIsReached(st: StoreState, h: seq<Event>)
    requires Empty(st)
    ensures ServeAll(st, h) ==
            match st
            case InMemory(m) => InMemory(Run(map[], Reached(st, h)))
            case InRedis(_, _, lingers, faults) => InRedis(RunRedis(map[], Reached(st, h), lingers), |h|, lingers, faults)
  {
    hide Apply, ApplyRedis;
    if h != [] {
      var n := |h| - 1;
      ServedIsReached(st, h[..n]);
      var r := Reached(st, h[..n]);
      if Arrives(st, n) {
        assert (r + [h[n]])[..|r|] == r;
      } else {
        assert r + [] == r;
      }
    }
  }

  lemma {:induction false} ReachedIsOrdered(st: StoreState, h: seq<Event>, now: Time)
    requires Ordered(h, now)
    ensures Ordered(Reached(st, h), now)
    ensures h != [] && h[|h| - 1].Hit? ==> Ordered(Reached(st, h[..|h| - 1]), h[|h| - 1].at)
    decreases |h|
  {
    hide Ordered;
    if h == [] {
      NothingIsOrdered(now);
    } else {
      var n := |h| - 1;
      OrderedPrefix(h, now, n);
      LastReading(h, now);
      ReachedIsOrdered(st, h[..n], now);
      if h[n].Hit? {
        ReachedIsOrdered(st, h[..n], h[n].at);
      }
      OrderedSnoc(Reached(st, h[..n]), h[n], now);
      assert Reached(st, h[..n]) + [] == Reached(st, h[..n]);
    }
  }

  lemma NothingIsOrdered(now: Time)
    ensures Ordered([], now)
  {
  }

  lemma {:induction false} ReachedOnlyFrom(st: StoreState, h: seq<Event>, name: string, w: Duration, start: Time)
    requires OnlyFrom(h, name, w, start)
    ensures OnlyFrom(Reached(st, h), name, w, start)
    decreases |h|
  {
    if h != [] {
      var p := h[..|h| - 1];
      assert OnlyFrom(p, name, w, start);
      ReachedOnlyFrom(st, p, name, w, start);
    }
  }

  /* ---- Redis counts from the last clear ------------------------------------ */

  predicate MillisWindow(start: Time, w: Duration) {
    start % MILLISECOND == 0 && w % MILLISECOND == 0 && w > 0
  }

  /**
   Until the aligned window ends, a key named after it counts the hits since its last clear, on
   any clock readings, and cannot have expired, whether or not keys linger.
   */
  lemma {:induction false} RedisCountsSinceClear(h: seq<Event>, name: string, w: Duration, start: Time,
                                                 now: Time, lingers: bool)
    requires Ordered(h, now) && OnlyFrom(h, name, w, start) && now < start + w && MillisWindow(start, w)
    ensures Since(h, name) == 0 <==> name !in RunRedis(map[], h, lingers)
    ensures Since(h, name) > 0 ==> InUse(RunRedis(map[], h, lingers)[name], Since(h, name), start, w)
  {
    hide Ordered;
    if h != [] {
      var p, e := h[..|h| - 1], h[|h| - 1];
      OrderedPrefix(h, now, |p|);
      LastReading(h, now);
      assert OnlyFrom(p, name, w, start);
      RedisCountsSinceClear(p, name, w, start, if e.Hit? then e.at else now, lingers);
      if e.Hit? && e.name == name {
        assert h[|p|] == e && e.window == w && start <= e.at;
        NextCount(RunRedis(map[], p, lingers), e, Since(p, name), start, lingers);
      } else if e.Hit? {
        OtherKey(RunRedis(map[], p, lingers), e, name, lingers);
      }
    }
  }

  predicate InUse(k: RedisKey, count: int, start: Time, w: Duration) {
    k.count == count && k.expireAt.Some? && k.expireAt.value >= (start + w) / MILLISECOND
  }

  lemma NextCount(m: RedisKeys, e: Event, count: nat, start: Time, lingers: bool)
    requires e.Hit? && start <= e.at < start + e.window && MillisWindow(start, e.window)
    requires count == 0 <==> e.name !in m
    requires count > 0 ==> InUse(m[e.name], count, start, e.window)
    ensures e.name in ApplyRedis(m, e, lingers)
    ensures InUse(ApplyRedis(m, e, lingers)[e.name], count + 1, start, e.window)
    ensures ReplyFromRedis(m, e, lingers).0 == count + 1
  {
    var at := e.at / MILLISECOND;
    NotYetOver(e.at, start, e.window);
    var base := if e.name in m && !Gone(m[e.name], at, lingers) then m[e.name] else RedisKey(0, None);
    assert count > 0 ==> !Gone(m[e.name], at, lingers);
    assert IncrCommand(m, e.name, at, lingers)[e.name] == base.(count := count + 1);
  }

  lemma NotYetOver(at: Time, start: Time, w: Duration)
    requires start <= at < start + w && MillisWindow(start, w)
    ensures at / MILLISECOND < (start + w) / MILLISECOND <= at / MILLISECOND + w / MILLISECOND
    ensures w / MILLISECOND > 0
  {
  }

  lemma OtherKey(m: RedisKeys, e: Event, name: string, lingers: bool)
    requires e.Hit? && e.name != name
    ensures name in ApplyRedis(m, e, lingers) <==> name in m
    ensures name in m ==> ApplyRedis(m, e, lingers)[name] == m[name]
  {
  }

  /* ---- Either store ------------------------------------------------------------ */

  /**
   An answered hit before the end of the window its bucket is named after: the count is that of
   the hits that arrived since the last clear that arrived, this one included.
   */
  lemma AnswerCounts(st: StoreState, h: seq<Event>, e: Event, start: Time)
    requires Empty(st) && e.Hit? && Ordered(h, e.at) && OnlyFrom(h, e.name, e.window, start)
    requires start <= e.at < start + e.window && MillisWindow(start, e.window)
    ensures Answer(ServeAll(st, h), e).Some? ==>
              Answer(ServeAll(st, h), e).value.0 == Since(Reached(st, h), e.name) + 1 && Arrives(st, |h|)
  {
    hide Run, RunRedis, ReplyFromRedis, ReplyTo, ServeAll, Ordered, OnlyFrom;
    var r := Reached(st, h);
    ServedIsReached(st, h);
    ReachedIsOrdered(st, h, e.at);
    ReachedOnlyFrom(st, h, e.name, e.window, start);
    match st
    case InMemory(_) =>
      ReplyCountsHistory(r, e, start);
    case InRedis(_, _, lingers, _) =>
      RedisCountsSinceClear(r, e.name, e.window, start, e.at, lingers);
      NextCount(RunRedis(map[], r, lingers), e, Since(r, e.name), start, lingers);
  }

  /** Is call `i` a hit on `name`, read before `until`, that is answered with a count within `limit`? */
  ghost predicate AdmittedOver(st: StoreState, h: seq<Event>, i: nat, name: string, until: Time, limit: int)
    requires i < |h|
  {
    && h[i].Hit? && h[i].name == name && h[i].at < until
    && Answer(ServeAll(st, h[..i]), h[i]).Some? && Answer(ServeAll(st, h[..i]), h[i]).value.0 <= limit
  }

  ghost function AdmissionsOver(st: StoreState, h: seq<Event>, from: nat, name: string, until: Time, limit: int): nat
    requires from <= |h|
    decreases |h|
  {
    if |h| == from then 0 else
      AdmissionsOver(st, h[..|h| - 1], from, name, until, limit) +
      (if AdmittedOver(st, h, |h| - 1, name, until, limit) then 1 else 0)
  }

  /** No clear from call `from` on that arrives names the bucket. */
  predicate Uncleared(st: StoreState, h: seq<Event>, from: nat, name: string) {
    forall i | from <= i < |h| && h[i].Clear? && Arrives(st, i) :: name !in h[i].names
  }

  /**
   The limit over either store, whatever requests and replies are lost: between clears that
   arrive, at most `limit` hits read before the aligned window ends are answered within it.
   */
  lemma {:induction false} LimitHoldsOver(st: StoreState, h: seq<Event>, from: nat, name: string, w: Duration,
                                          start: Time, limit: nat, now: Time)
    requires Empty(st) && from <= |h| && Ordered(h, now) && OnlyFrom(h, name, w, start) && MillisWindow(start, w)
    requires Uncleared(st, h, from, name)
    ensures AdmissionsOver(st, h, from, name, start + w, limit) <= limit
    ensures AdmissionsOver(st, h, from, name, start + w, limit) <= Since(Reached(st, h), name)
    decreases |h|
  {
    hide Ordered, ServeAll, Answer;
    if |h| > from {
      var n := |h| - 1;
      var p, e := h[..n], h[n];
      OrderedPrefix(h, now, n);
      LastReading(h, now);
      assert OnlyFrom(p, name, w, start) && Uncleared(st, p, from, name);
      LimitHoldsOver(st, p, from, name, w, start, limit, if e.Hit? then e.at else now);
      ReachedNext(st, h, name);
      if AdmittedOver(st, h, n, name, start + w, limit) {
        AnswerCounts(st, p, e, start);
      }
    }
  }

  lemma ReachedNext(st: StoreState, h: seq<Event>, name: string)
    requires h != []
    ensures var n := |h| - 1;
            Since(Reached(st, h), name) ==
            if !Arrives(st, n) then Since(Reached(st, h[..n]), name)
            else match h[n]
              case Hit(k, _, _) => Since(Reached(st, h[..n]), name) + (if k == name then 1 else 0)
              case Clear(names) => if name in names then 0 else Since(Reached(st, h[..n]), name)
  {
    var n := |h| - 1;
    var r := Reached(st, h[..n]);
    assert (r + [h[n]])[..|r|] == r && r + [] == r;
  }
}
