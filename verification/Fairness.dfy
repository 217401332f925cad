/** How long a runnable thread can wait when others sleep, wake, die and arrive: a bound for every run,
    and a run that shows why no bound can do without counting the sleeps. */
module Fairness {
  import opened Bits
  import opened Options
  import opened SchedulerSpec

  const TURN: nat := SCHEDULER_THREAD_TICKS + 1

  function Adds<T>(es: seq<Event<T>>): nat {
    if es == [] then 0 else (if es[0].Add? then 1 else 0) + Adds(es[1..])
  }

  /** Sleeps, deaths and arrivals. */
  function Others<T>(es: seq<Event<T>>): nat {
    if es == [] then 0 else (if es[0].Tick? then 0 else 1) + Others(es[1..])
  }

  ghost function Size<T>(s: State<T>): nat { |s.run| + |s.sleepers| }

  // ---- A measure of the wait ----------------------------------------------------------------------

  /** Ticks the running thread may still take. */
  ghost function Rest<T>(s: State<T>): (n: nat)
    requires Always(s)
    ensures 1 <= n <= TURN
  {
    if s.cur == None then 1 else TURN - s.used[s.cur.value]
  }

  /** Ticks until t is dispatched if nobody wakes and nobody leaves. */
  ghost function Wait<T>(s: State<T>, t: T): (n: nat)
    requires Always(s) && t in s.run
    ensures 1 <= n <= TURN * |s.run|
  {
    WaitBound(Turns(s, t), |s.run|, Rest(s));
    TURN * (Turns(s, t) - 1) + Rest(s)
  }

  lemma WaitBound(turns: nat, size: nat, rest: nat)
    requires 1 <= turns <= size && 1 <= rest <= TURN
    ensures 1 <= TURN * (turns - 1) + rest <= TURN * size
  {}

  /** The running thread is about to sleep or to die: it then counts for two sleepers. */
  ghost function Leaving<T>(s: State<T>): nat
    requires Always(s)
  {
    if s.cur.Some? && (s.status[s.cur.value] == SLEEP || s.status[s.cur.value] == DEAD) then 2 else 0
  }

  /** t is runnable and not running. */
  ghost predicate Waiting<T>(s: State<T>, t: T) {
    Always(s) && t in s.run && s.cur != Some(t)
  }

  /** Fewer may still come before t, or as many and the wait is shorter. */
  ghost predicate Closer<T>(s: State<T>, r: State<T>, t: T)
    requires Always(s) && Always(r) && t in s.run && t in r.run
  {
    var m, n := |s.sleepers| + Leaving(s), |r.sleepers| + Leaving(r);
    n < m || (n == m && Wait(r, t) < Wait(s, t))
  }

  // ---- One interrupt ------------------------------------------------------------------------------

  /** The running thread goes on. */
  lemma KeptCloser<T>(s: State<T>, t: T)
    requires Waiting(s, t) && Keeps(s) && Always(Counted(s, s.cur.value))
    ensures var r := Counted(s, s.cur.value);
            Waiting(r, t) && Size(r) == Size(s) && Closer(s, r, t)
  {
    hide Lists, Statuses;
  }

  /** What leaves the running thread's place. */
  lemma RetiredSize<T>(s: State<T>, t: T, context: nat)
    requires Waiting(s, t)
    ensures Known(s) && Known(Prepared(s, context))
    ensures var r := Prepared(s, context);
            && t in r.run && Size(r) <= Size(s)
            && if Leaving(s) > 0 then r.cur == None && |r.sleepers| <= |s.sleepers| + 1
               else r.run == s.run && r.cur == s.cur && r.sleepers == s.sleepers
  {
    WaitingParts(s, t);
    if s.cur.Some? {
      var c := s.cur.value;
      RetireShape(s, c, context);
      hide *;
      RemovedFrom(s.run, c);
      RemovedOne(s.run, c);
    }
  }

  lemma WaitingParts<T>(s: State<T>, t: T)
    requires Waiting(s, t)
    ensures Always(s) && Known(s) && Distinct(s.run) && t in s.run && s.cur != Some(t)
    ensures s.cur.Some? ==> s.cur.value in s.run && s.cur.value in s.status
    ensures Leaving(s) > 0 <==> s.cur.Some? && (s.status[s.cur.value] == SLEEP || s.status[s.cur.value] == DEAD)
    ensures Size(s) == |s.run| + |s.sleepers|
    ensures forall context :: s.cur == None ==> Prepared(s, context) == s
  {
    hide Distinct, Sorted;
  }

  lemma RetireShape<T>(s: State<T>, c: T, context: nat)
    requires Known(s) && c in s.status && s.cur == Some(c)
    ensures Known(Prepared(s, context))
    ensures var r, gone := Prepared(s, context), s.status[c] == SLEEP || s.status[c] == DEAD;
            && r.run == (if gone then Removed(s.run, c) else s.run) && r.cur == (if gone then None else s.cur)
            && r.sleepers == (if s.status[c] == SLEEP then Inserted(s.sleepers, s.wakeup, c) else s.sleepers)
            && |r.sleepers| == |s.sleepers| + (if s.status[c] == SLEEP then 1 else 0)
            && Size(r) == |r.run| + |r.sleepers|
  {}

  lemma {:induction false} RemovedOne<T>(list: seq<T>, t: T)
    requires t in list
    ensures |Removed(list, t)| == |list| - 1
  {
    if list[0] != t { RemovedOne(list[1..], t); }
  }

  /** Who comes next. */
  lemma Picked<T>(r: State<T>, t: T)
    requires Inv(r) && Settled(r) && t in r.run
    ensures var (n, d) := Pick(r);
            && d.Thread? && n.cur == Some(d.t) && Known(n) && d.t in n.used && n.used[d.t] == 0 && n.status[d.t] == READY
            && t in n.run && Size(n) == Size(r)
            && if Due(r) then |n.sleepers| + 1 == |r.sleepers| && d.t != t
               else n.sleepers == r.sleepers && n.run == r.run && NextThread(r.run, r.cur) == Some(d.t)
  {
    hide Sorted, Distinct, Statuses;
  }

  lemma TickStep<T>(s: State<T>, context: nat, t: T)
    requires Waiting(s, t)
    ensures var (r, d) := Schedule(s, context);
            Always(r) && (d == Thread(t) || (Waiting(r, t) && Size(r) <= Size(s) && Closer(s, r, t)))
  {
    ScheduleCases(s, context);
    ScheduleKeeps(s, context);
    ScheduleMeters(s, context);
    var (r, d) := Schedule(s, context);
    if Keeps(s) {
      hide *;
      KeptCloser(s, t);
    } else {
      var p := Prepared(s, context);
      PreparedIs(s, context);
      RetiredSize(s, t, context);
      Picked(p, t);
      if d != Thread(t) { PickedCloser(s, p, r, d, t); }
    }
  }

  lemma PickedCloser<T>(s: State<T>, p: State<T>, r: State<T>, d: Dispatch<T>, t: T)
    requires Waiting(s, t) && Always(r) && Inv(p) && t in p.run && Size(p) <= Size(s)
    requires if Leaving(s) > 0 then p.cur == None && |p.sleepers| <= |s.sleepers| + 1
             else p.run == s.run && p.cur == s.cur && p.sleepers == s.sleepers
    requires d.Thread? && d.t != t && r.cur == Some(d.t) && r.used[d.t] == 0 && r.status[d.t] == READY
    requires t in r.run && Size(r) == Size(p)
    requires if Due(p) then |r.sleepers| + 1 == |p.sleepers|
             else r.sleepers == p.sleepers && r.run == p.run && NextThread(p.run, p.cur) == Some(d.t)
    ensures Waiting(r, t) && Size(r) <= Size(s) && Closer(s, r, t)
  {
    InvParts(p);
    hide Inv, Lists, Statuses, Known, Turns, Rest, Wait, Size, NextThread, Due, Sorted, Distinct, Position;
    assert Leaving(r) == 0;
    if !Due(p) && Leaving(s) == 0 {
      Nearer(s, r, d.t, t);
      CloserIs(s, r, t);
    }
  }

  lemma Nearer<T>(s: State<T>, r: State<T>, x: T, t: T)
    requires Always(s) && Always(r) && t in s.run && t != x && r.run == s.run && r.cur == Some(x) && r.used[x] == 0
    requires NextThread(s.run, s.cur) == Some(x)
    ensures Wait(r, t) < Wait(s, t)
  {
    hide *;
    AlwaysParts(s);
    AlwaysParts(r);
    RunsSome(s, t);
    NextIs(s);
    Distance(s, r, t);
    WaitIs(s, t);
    WaitIs(r, t);
    FreshRest(r, x);
  }

  lemma RunsSome<T>(s: State<T>, t: T)
    requires t in s.run
    ensures s.run != []
  {}

  lemma WaitIs<T>(s: State<T>, t: T)
    requires Always(s) && t in s.run
    ensures Wait(s, t) == TURN * (Turns(s, t) - 1) + Rest(s)
  {}

  lemma FreshRest<T>(r: State<T>, c: T)
    requires Always(r) && r.cur == Some(c) && r.used[c] == 0
    ensures Rest(r) == TURN
  {}

  lemma CloserIs<T>(s: State<T>, r: State<T>, t: T)
    requires Always(s) && Always(r) && t in s.run && t in r.run
    ensures |r.sleepers| + Leaving(r) == |s.sleepers| + Leaving(s) && Wait(r, t) < Wait(s, t) ==> Closer(s, r, t)
  {
    hide Wait, Leaving, Always;
  }

  // ---- One event ----------------------------------------------------------------------------------

  /** Sleeping, dying and arriving leave t where it is, and its wait grows by a turn at most. */
  lemma OtherStep<T>(s: State<T>, e: Event<T>, t: T)
    requires Waiting(s, t) && !e.Tick?
    ensures Known(s)
    ensures var (r, d) := Apply(s, e);
            && Always(r) && d == None && Waiting(r, t) && |r.sleepers| == |s.sleepers| && Leaving(r) <= Leaving(s) + 2
            && Wait(r, t) <= Wait(s, t) + TURN && Size(r) <= Size(s) + (if e.Add? then 1 else 0)
  {
    ApplyKeeps(s, e);
    WaitingParts(s, t);
    OtherShape(s, e, t);
    hide *;
    var r := Apply(s, e).0;
    if r.run == s.run { SameWait(s, r, t); } else { OneMoreTurn(s, r, e.t, t); }
    WaitingIs(r, t);
    LeavingBound(s, r);
    SizeIs(s);
    SizeIs(r);
  }

  lemma SizeIs<T>(s: State<T>)
    ensures Size(s) == |s.run| + |s.sleepers|
  {}

  lemma LeavingBound<T>(s: State<T>, r: State<T>)
    requires Always(s) && Always(r)
    ensures Leaving(r) <= Leaving(s) + 2
  {
    hide Always;
  }

  lemma WaitingIs<T>(s: State<T>, t: T)
    ensures Waiting(s, t) <==> Always(s) && t in s.run && s.cur != Some(t)
  {
    hide Always;
  }

  /** What such an event changes. */
  lemma OtherShape<T>(s: State<T>, e: Event<T>, t: T)
    requires Known(s) && t in s.run && !e.Tick? && (s.cur.Some? ==> s.cur.value in s.used)
    ensures var (r, d) := Apply(s, e);
            && d == None && r.sleepers == s.sleepers && r.cur == s.cur && t in r.run
            && (s.cur.Some? ==> s.cur.value in r.used && r.used[s.cur.value] == s.used[s.cur.value])
            && (r.run == s.run
                || (e.Add? && e.t != t && r.run == [e.t] + s.run && s.cur != Some(e.t)))
  {}

  lemma TurnsIs<T>(s: State<T>, t: T)
    requires Always(s) && t in s.run
    ensures s.cur.Some? ==> s.cur.value in s.run && s.cur.value in s.used
    ensures var i, p := IndexOf(s.run, t), if s.cur == None then -1 else IndexOf(s.run, s.cur.value);
            && Turns(s, t) == (if i > p then i - p else i - p + |s.run|)
            && Rest(s) == if s.cur == None then 1 else TURN - s.used[s.cur.value]
  {
    AlwaysParts(s);
    hide Sorted, Distinct, Statuses, IndexOf;
  }

  lemma SameWait<T>(s: State<T>, r: State<T>, t: T)
    requires Always(s) && Always(r) && t in s.run && r.run == s.run && r.cur == s.cur
    requires s.cur.Some? ==> s.cur.value in s.used && s.cur.value in r.used && r.used[s.cur.value] == s.used[s.cur.value]
    ensures Wait(r, t) == Wait(s, t)
  {
    hide *;
    TurnsIs(s, t);
    TurnsIs(r, t);
    WaitIs(s, t);
    WaitIs(r, t);
  }

  lemma OneMoreTurn<T>(s: State<T>, r: State<T>, x: T, t: T)
    requires Always(s) && Always(r) && t in s.run && x != t && r.run == [x] + s.run && r.cur == s.cur && t in r.run
    requires s.cur.Some? ==> s.cur.value in s.used && s.cur.value != x
                             && s.cur.value in r.used && r.used[s.cur.value] == s.used[s.cur.value]
    ensures Wait(r, t) <= Wait(s, t) + TURN
  {
    hide *;
    TurnsIs(s, t);
    TurnsIs(r, t);
    Shifted(x, s.run, t);
    if s.cur.Some? { Shifted(x, s.run, s.cur.value); }
    AlwaysParts(s);
    AlwaysParts(r);
    assert Turns(r, t) <= Turns(s, t) + 1;
    WaitIs(s, t);
    WaitIs(r, t);
    OneTurn(Turns(s, t), Turns(r, t), Rest(s));
  }

  lemma OneTurn(m: nat, n: nat, rest: nat)
    requires n <= m + 1 && 0 < m && 0 < n
    ensures TURN * (n - 1) + rest <= TURN * (m - 1) + rest + TURN
  {}

  lemma Shifted<T>(x: T, list: seq<T>, t: T)
    requires t in list && t != x
    ensures IndexOf([x] + list, t) == IndexOf(list, t) + 1
  {
    assert ([x] + list)[1..] == list;
  }

  // ---- Every run ----------------------------------------------------------------------------------

  /** What is left of the measure when sizes stay below n: each sleeper, and each who leaves, may cost a
      whole round. */
  ghost function Measure<T>(s: State<T>, t: T, n: nat): int
    requires Waiting(s, t)
  {
    (TURN * n + 1) * (|s.sleepers| + Leaving(s)) + Wait(s, t)
  }

  lemma MeasureIs<T>(s: State<T>, t: T, n: nat)
    requires Waiting(s, t)
    ensures Measure(s, t, n) == (TURN * n + 1) * (|s.sleepers| + Leaving(s)) + Wait(s, t)
    ensures Size(s) <= n ==> 1 <= Wait(s, t) <= TURN * n
    ensures Leaving(s) <= 2
  {
    var w := Wait(s, t);
    assert 1 <= w <= TURN * |s.run|;
    hide Wait, Always;
    if Size(s) <= n { Times(TURN, |s.run|, n); }
  }

  lemma Times(k: nat, m: nat, n: nat)
    requires m <= n
    ensures k * m <= k * n
  {}

  lemma CloserMeasure<T>(s: State<T>, r: State<T>, t: T, n: nat)
    requires Waiting(s, t) && Waiting(r, t) && Closer(s, r, t) && Size(r) <= n && Size(s) <= n
    ensures Measure(r, t, n) < Measure(s, t, n)
  {
    var m, m' := |s.sleepers| + Leaving(s), |r.sleepers| + Leaving(r);
    CloserParts(s, r, t);
    hide *;
    MeasureIs(s, t, n);
    MeasureIs(r, t, n);
    Rounds(TURN * n + 1, m, m', Wait(s, t), Wait(r, t));
  }

  lemma CloserParts<T>(s: State<T>, r: State<T>, t: T)
    requires Always(s) && Always(r) && t in s.run && t in r.run && Closer(s, r, t)
    ensures |r.sleepers| + Leaving(r) <= |s.sleepers| + Leaving(s)
    ensures |r.sleepers| + Leaving(r) == |s.sleepers| + Leaving(s) ==> Wait(r, t) < Wait(s, t)
  {
    hide Always, Wait, Leaving;
  }

  lemma Rounds(w: nat, m: nat, m': nat, x: nat, x': nat)
    requires x' < w && (m' < m || (m' == m && x' < x))
    ensures w * m' + x' < w * m + x
  {
    if m' < m {
      Times(w, m' + 1, m);
      assert w * (m' + 1) == w * m' + w;
    }
  }

  lemma CostlyStep(w: nat, m: nat, m': nat, x: nat, x': nat, k: nat)
    requires m' <= m + 2 && x' <= x + w
    ensures w * m' + x' + 3 * w * k <= w * m + x + 3 * w * (k + 1)
  {
    Times(w, m', m + 2);
    assert w * (m + 2) == w * m + 2 * w;
    assert 3 * w * (k + 1) == 3 * w * k + 3 * w;
  }

  lemma CountsOf<T>(es: seq<Event<T>>)
    ensures es == [] ==> Ticks(es) == Adds(es) == Others(es) == 0
    ensures es != [] ==> Ticks(es) == (if es[0].Tick? then 1 else 0) + Ticks(es[1..])
    ensures es != [] ==> Adds(es) == (if es[0].Add? then 1 else 0) + Adds(es[1..])
    ensures es != [] ==> Others(es) == (if es[0].Tick? then 0 else 1) + Others(es[1..])
  {}

  lemma NotAmong<T>(d: Option<Dispatch<T>>, ds: seq<Dispatch<T>>, t: T)
    requires Thread(t) !in (if d == None then [] else [d.value]) + ds
    ensures d != Some(Thread(t)) && Thread(t) !in ds
  {
    if d == None {
      assert [] + ds == ds;
    } else {
      assert ([d.value] + ds)[0] == d.value;
      assert forall k :: 0 <= k < |ds| ==> ([d.value] + ds)[k + 1] == ds[k];
    }
  }

  /** The interrupt counts its tick first. */
  lemma TickedStep<T>(s: State<T>, context: nat, t: T)
    requires Waiting(s, t)
    ensures Known(s)
    ensures var (r, d) := Apply(s, Tick(context));
            Always(r) && (d == Some(Thread(t)) || (Waiting(r, t) && Size(r) <= Size(s) && Closer(s, r, t)))
  {
    var c := s.(ticks := s.ticks + 1);
    AlwaysParts(s);
    TickApplied(s, context);
    TickCounted(s);
    hide *;
    AlwaysIs(c);
    WaitingIs(s, t);
    WaitingIs(c, t);
    TickStep(c, context, t);
    SameWait(s, c, t) by { TurnsIs(s, t); }
    SameCloser(s, c, Apply(s, Tick(context)).0, t);
  }

  lemma AlwaysIs<T>(s: State<T>)
    ensures Inv(s) && Metered(s) ==> Always(s)
  {
    hide Inv;
  }

  lemma SameCloser<T>(s: State<T>, c: State<T>, r: State<T>, t: T)
    requires Always(s) && Always(c) && t in s.run && c == s.(ticks := c.ticks) && Wait(c, t) == Wait(s, t)
    ensures Size(c) == Size(s)
    ensures Always(r) && t in r.run && Closer(c, r, t) ==> Closer(s, r, t)
  {
    hide Wait, Always;
  }

  lemma {:induction false} WaitingRun<T>(s: State<T>, es: seq<Event<T>>, t: T, n: nat)
    requires Waiting(s, t) && Size(s) + Adds(es) <= n && Always(s) && Thread(t) !in Exec(s, es).1
    ensures Ticks(es) <= Measure(s, t, n) + 3 * (TURN * n + 1) * Others(es)
    decreases |es|
  {
    hide *;
    CountsOf(es);
    MeasureIs(s, t, n);
    var w := TURN * n + 1;
    if es != [] {
      AlwaysParts(s);
      ExecFirst(s, es);
      var (r, d) := Apply(s, es[0]);
      NotAmong(d, Exec(r, es[1..]).1, t);
      if es[0].Tick? {
        TickedStep(s, es[0].context, t);
        WaitingRun(r, es[1..], t, n);
        CloserMeasure(s, r, t, n);
      } else {
        OtherStep(s, es[0], t);
        WaitingIs(s, t);
        WaitingIs(r, t);
        WaitingRun(r, es[1..], t, n);
        MeasureIs(r, t, n);
        CostlyStep(w, |s.sleepers| + Leaving(s), |r.sleepers| + Leaving(r), Wait(s, t), Wait(r, t), Others(es[1..]));
      }
    } else {
      Rounds(w, 0, 0, 1, 0);
    }
  }

  /** In every run a runnable thread is dispatched once there have been enough interrupts: a round of 257
      for each thread there is, for each sleeper, and three for each sleep, death and arrival.  n bounds
      the threads on the lists. */
  lemma BoundedWaiting<T>(s: State<T>, es: seq<Event<T>>, t: T, n: nat)
    requires Waiting(s, t) && Always(s) && Size(s) + Adds(es) <= n
    requires Ticks(es) >= (TURN * n + 1) * (|s.sleepers| + 3 + 3 * Others(es))
    ensures Thread(t) in Exec(s, es).1
  {
    hide *;
    if Thread(t) !in Exec(s, es).1 {
      WaitingIs(s, t);
      MeasureIs(s, t, n);
      TooLong(TURN * n + 1, |s.sleepers|, Leaving(s), Wait(s, t), Others(es), Ticks(es));
      WaitingRun(s, es, t, n);
    }
  }

  lemma TooLong(w: nat, m: nat, l: nat, x: nat, k: nat, ticks: nat)
    requires l <= 2 && x < w && ticks >= w * (m + 3 + 3 * k)
    ensures ticks > w * (m + l) + x + 3 * w * k
  {
    Times(w, m + l, m + 2);
    assert w * (m + 3 + 3 * k) == w * (m + 2) + w + 3 * w * k;
  }

  // ---- A run that never serves one of its threads --------------------------------------------------

  /** a runs, b is next, and w sleeps until the next interrupt. */
  ghost predicate Unfair<T>(s: State<T>, a: T, b: T, w: T) {
    && Always(s) && Settled(s) && a != b
    && s.run == [a, b] && s.cur == Some(a) && s.sleepers == [w] && s.wakeup[w] == s.ticks + 1
  }

  /** w wakes, and sleeps for two ticks at once. */
  function Cycles<T>(n: nat): (es: seq<Event<T>>)
    ensures |es| == 3 * n
  {
    if n == 0 then [] else [Tick(0), SleepFor(2), Tick(0)] + Cycles(n - 1)
  }

  /** The woken thread goes in front of the run list and runs. */
  lemma WokenFirst<T>(s: State<T>, a: T, b: T, w: T)
    requires Unfair(s, a, b, w)
    ensures Known(s)
    ensures var (r, d) := Apply(s, Tick(0));
            && d == Some(Thread(w)) && Always(r) && w != a && w != b
            && r.run == [w, a, b] && r.cur == Some(w) && r.sleepers == [] && r.ticks == s.ticks + 1
  {
    hide *;
    UnfairParts(s, a, b, w);
    AlwaysParts(s);
    ApplyKeeps(s, Tick(0));
    WakesNow(s, a, b, w);
  }

  lemma WakesNow<T>(s: State<T>, a: T, b: T, w: T)
    requires Known(s) && w != a && w != b && s.run == [a, b] && s.cur == Some(a) && s.sleepers == [w]
    requires s.wakeup[w] == s.ticks + 1 && s.status[a] != SLEEP && s.status[a] != DEAD
    ensures var (r, d) := Apply(s, Tick(0));
            && d == Some(Thread(w)) && r.run == [w, a, b] && r.cur == Some(w) && r.sleepers == []
            && r.ticks == s.ticks + 1
  {}

  /** Its sleep sends the choice back to the front of the list. */
  lemma BackToFront<T>(s: State<T>, a: T, b: T, w: T)
    requires Always(s) && a != b && w != a && w != b && s.ticks + 2 < TWO_64
    requires s.run == [w, a, b] && s.cur == Some(w) && s.sleepers == []
    ensures Known(s)
    ensures var (r, d) := Apply(s, SleepFor(2));
            && d == None && Known(r) && Always(r)
            && var (n, e) := Apply(r, Tick(0));
               e == Some(Thread(a)) && Unfair(n, a, b, w) && n.ticks == s.ticks + 1
  {
    hide *;
    AlwaysParts(s);
    FallsAsleep(s, w);
    ApplyKeeps(s, SleepFor(2));
    var r := Apply(s, SleepFor(2)).0;
    ApplyKeeps(r, Tick(0));
    TickSettled(r, 0);
    Retired(r, a, b, w);
    MakeUnfair(Apply(r, Tick(0)).0, a, b, w);
  }

  lemma FallsAsleep<T>(s: State<T>, w: T)
    requires Known(s) && s.cur == Some(w) && s.ticks + 2 < TWO_64
    ensures var (r, d) := Apply(s, SleepFor(2));
            && d == None && Known(r) && r == s.(status := r.status, wakeup := r.wakeup)
            && w in r.status && r.status[w] == SLEEP && w in r.wakeup && r.wakeup[w] == s.ticks + 2
  {
    DeadlineIs(s.ticks, 2);
  }

  lemma Retired<T>(r: State<T>, a: T, b: T, w: T)
    requires Known(r) && a != b && w != a && w != b
    requires r.run == [w, a, b] && r.cur == Some(w) && r.sleepers == []
    requires r.status[w] == SLEEP && r.wakeup[w] == r.ticks + 2
    ensures var (n, d) := Apply(r, Tick(0));
            && d == Some(Thread(a)) && n.run == [a, b] && n.cur == Some(a) && n.sleepers == [w]
            && n.ticks == r.ticks + 1 && n.wakeup == r.wakeup
  {
    assert Removed(r.run, w) == [a, b];
  }

  lemma MakeUnfair<T>(s: State<T>, a: T, b: T, w: T)
    requires Always(s) && Known(s) && Settled(s) && a != b && w in s.wakeup
    requires s.run == [a, b] && s.cur == Some(a) && s.sleepers == [w] && s.wakeup[w] == s.ticks + 1
    ensures Unfair(s, a, b, w)
  {
    hide Always, Settled;
  }

  lemma TickSettled<T>(s: State<T>, context: nat)
    requires Always(s)
    ensures Known(s)
    ensures var r := Apply(s, Tick(context)).0; Known(r) && Settled(r)
  {
    hide *;
    AlwaysParts(s);
    TickApplied(s, context);
    ScheduleKeeps(s.(ticks := s.ticks + 1), context);
    InvParts(Schedule(s.(ticks := s.ticks + 1), context).0);
  }

  /** Three more events are three more steps. */
  lemma ThreeSteps<T>(s: State<T>, x: Event<T>, y: Event<T>, z: Event<T>, es: seq<Event<T>>)
    requires Always(s)
    ensures Known(s)
    ensures var (s1, d1) := Apply(s, x);
            && Always(s1)
            && var (s2, d2) := Apply(s1, y);
               && Always(s2)
               && var (s3, d3) := Apply(s2, z);
                  && Always(s3)
                  && Exec(s, [x, y, z] + es) ==
                     (Exec(s3, es).0, Shown(d1) + (Shown(d2) + (Shown(d3) + Exec(s3, es).1)))
  {
    var all := [x, y, z] + es;
    assert all[0] == x && all[1..] == [y, z] + es && ([y, z] + es)[0] == y && ([y, z] + es)[1..] == [z] + es;
    assert ([z] + es)[0] == z && ([z] + es)[1..] == es;
    hide *;
    OneStep(s, all);
    OneStep(Apply(s, x).0, [y, z] + es);
    OneStep(Apply(Apply(s, x).0, y).0, [z] + es);
  }

  function Shown<T>(d: Option<Dispatch<T>>): seq<Dispatch<T>> { if d == None then [] else [d.value] }

  lemma OneStep<T>(s: State<T>, es: seq<Event<T>>)
    requires Always(s) && es != []
    ensures Known(s)
    ensures var (r, d) := Apply(s, es[0]);
            Always(r) && Exec(s, es) == (Exec(r, es[1..]).0, Shown(d) + Exec(r, es[1..]).1)
  {
    AlwaysParts(s);
    ApplyKeeps(s, es[0]);
    hide Apply, Always, Known;
    var ds := Exec(Apply(s, es[0]).0, es[1..]).1;
    assert [] + ds == ds;
  }

  /** However long it goes on, b never runs: there is no bound on its wait that does not count the
      sleeps. */
  lemma {:induction false} Starves<T>(s: State<T>, a: T, b: T, w: T, n: nat)
    requires Unfair(s, a, b, w) && Always(s) && s.ticks + 2 * n + 1 < TWO_64
    ensures Unfair(Exec(s, Cycles(n)).0, a, b, w) && Thread(b) !in Exec(s, Cycles(n)).1
    ensures |Exec(s, Cycles(n)).1| == 2 * n
    decreases n
  {
    hide *;
    CyclesIs<T>(n);
    ExecNone(s);
    if n > 0 {
      UnfairParts(s, a, b, w);
      WokenFirst(s, a, b, w);
      var s1 := Apply(s, Tick(0)).0;
      BackToFront(s1, a, b, w);
      ThreeSteps(s, Tick(0), SleepFor(2), Tick(0), Cycles(n - 1));
      var s3 := Apply(Apply(s1, SleepFor(2)).0, Tick(0)).0;
      Starves(s3, a, b, w, n - 1);
      ShownIs(Thread(w));
      ShownIs(Thread(a));
    }
  }

  lemma CyclesIs<T>(n: nat)
    ensures Cycles<T>(n) == if n == 0 then [] else [Tick(0), SleepFor(2), Tick(0)] + Cycles(n - 1)
  {}

  lemma ExecNone<T>(s: State<T>)
    requires Always(s)
    ensures Exec(s, []) == (s, [])
  {}

  lemma ShownIs<T>(d: Dispatch<T>)
    ensures Shown(Some(d)) == [d] && Shown<T>(None) == []
  {}

  lemma UnfairParts<T>(s: State<T>, a: T, b: T, w: T)
    requires Unfair(s, a, b, w)
    ensures Always(s) && Known(s) && a != b && w != a && w != b
    ensures s.run == [a, b] && s.cur == Some(a) && s.sleepers == [w] && w in s.wakeup && s.wakeup[w] == s.ticks + 1
    ensures a in s.status && s.status[a] != SLEEP && s.status[a] != DEAD
  {
    assert w in s.sleepers && a in s.run && b in s.run;
    hide Distinct, Sorted, Statuses;
  }

  /** Three threads get there from the start. */
  function Prelude<T>(a: T, b: T, w: T): seq<Event<T>> {
    [Add(b, 0), Add(a, 0), Add(w, 0)] + ([Tick(0), SleepFor(2), Tick(0)] + [])
  }

  lemma PreludeUnfair<T>(a: T, b: T, w: T)
    requires a != b && w != a && w != b
    ensures Always(Start<T>()) && Unfair(Exec(Start<T>(), Prelude(a, b, w)).0, a, b, w)
  {
    var s := Start<T>();
    StartIsFine<T>();
    var es := [Tick(0), SleepFor(2), Tick(0)] + [];
    ThreeSteps(s, Add(b, 0), Add(a, 0), Add(w, 0), es);
    var s3 := Apply(Apply(Apply(s, Add(b, 0)).0, Add(a, 0)).0, Add(w, 0)).0;
    assert s3.run == [w, a, b] && s3.cur == None && s3.sleepers == [] && s3.ticks == 0;
    FirstRuns(s3, a, b, w);
    var s4 := Apply(s3, Tick(0)).0;
    ThreeSteps(s3, Tick(0), SleepFor(2), Tick(0), []);
    BackToFront(s4, a, b, w);
    hide Unfair, Apply, Always;
  }

  lemma FirstRuns<T>(s: State<T>, a: T, b: T, w: T)
    requires Always(s) && s.run == [w, a, b] && s.cur == None && s.sleepers == [] && s.ticks == 0
    ensures Known(s)
    ensures var (r, d) := Apply(s, Tick(0));
            && d == Some(Thread(w)) && Always(r)
            && r.run == [w, a, b] && r.cur == Some(w) && r.sleepers == [] && r.ticks == 1
  {
    ApplyKeeps(s, Tick(0));
    hide Distinct, Sorted, Statuses;
  }
}
