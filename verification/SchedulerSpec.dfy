/** The scheduling policy of src/kernel/scheduler/scheduler.c as a state machine over sequences, and
    what every run of it keeps. */
module SchedulerSpec {
  import opened Bits
  import opened Options

  datatype Status = NEW | INIT | RUN | READY | SLEEP | WAIT | DEAD

  const SCHEDULER_THREAD_TICKS: nat := 0x100

  /** One CPU: the run list, the sleep list, the current thread, the tick counter, and the fields of
      every thread that was ever added. */
  datatype State<T(==)> = State(
    run: seq<T>, sleepers: seq<T>, cur: Option<T>, ticks: nat,
    status: map<T, Status>, used: map<T, nat>, wakeup: map<T, nat>, context: map<T, nat>)

  datatype Dispatch<T> = Keep | Thread(t: T) | Idle

  // ---- The operations -----------------------------------------------------------------------------

  function Removed<T(==)>(list: seq<T>, t: T): (r: seq<T>)
    ensures t !in list ==> r == list
    ensures |r| <= |list| <= |r| + 1
    ensures forall x :: x in r ==> x in list
  {
    if list == [] then [] else if list[0] == t then list[1..] else [list[0]] + Removed(list[1..], t)
  }

  /** The sleep list with t put before the first thread that wakes no earlier. */
  function Inserted<T(==)>(list: seq<T>, wakeup: map<T, nat>, t: T): (r: seq<T>)
    requires t in wakeup && forall x :: x in list ==> x in wakeup
    ensures |r| == |list| + 1
    ensures t in r && (forall x :: x in list ==> x in r) && (forall x :: x in r ==> x in list || x == t)
  {
    if list == [] || wakeup[list[0]] >= wakeup[t] then [t] + list
    else [list[0]] + Inserted(list[1..], wakeup, t)
  }

  function NextThread<T(==)>(run: seq<T>, cur: Option<T>): Option<T> {
    if run == [] then None
    else if cur == None || cur.value !in run then Some(run[0])
    else var i := IndexOf(run, cur.value);
         Some(if i + 1 < |run| then run[i + 1] else run[0])
  }

  function IndexOf<T(==)>(list: seq<T>, t: T): (i: nat)
    requires t in list
    ensures i < |list| && list[i] == t && forall j :: 0 <= j < i ==> list[j] != t
  {
    if list[0] == t then 0 else 1 + IndexOf(list[1..], t)
  }

  /** Every thread on a list, and the current one, has its fields. */
  ghost predicate Known<T>(s: State<T>) {
    && s.used.Keys == s.status.Keys && s.wakeup.Keys == s.status.Keys && s.context.Keys == s.status.Keys
    && (forall t :: t in s.run ==> t in s.status)
    && (forall t :: t in s.sleepers ==> t in s.status)
    && (s.cur.Some? ==> s.cur.value in s.status)
  }

  function Ready<T(==)>(s: State<T>, t: T): State<T> {
    s.(cur := Some(t), status := s.status[t := READY], used := s.used[t := 0])
  }

  predicate Due<T(==)>(s: State<T>)
    requires Known(s)
  {
    s.sleepers != [] && s.wakeup[s.sleepers[0]] <= s.ticks
  }

  /** The second half of schedule: wake the first sleeper if it is due, else take the next thread. */
  function Pick<T(==)>(s: State<T>): (State<T>, Dispatch<T>)
    requires Known(s)
  {
    if Due(s) then
      var t := s.sleepers[0];
      (Ready(s.(run := [t] + s.run, sleepers := s.sleepers[1..]), t), Thread(t))
    else
      match NextThread(s.run, s.cur)
      case Some(t) => (Ready(s, t), Thread(t))
      case None => (s, Idle)
  }

  /** What becomes of the thread that was running when it is not kept. */
  function Retire<T(==)>(s: State<T>, c: T, context: nat): (r: State<T>)
    requires Known(s) && c in s.status
    ensures Known(r)
  {
    var saved := s.(context := s.context[c := context]);
    if s.status[c] == DEAD then saved.(run := Removed(s.run, c), cur := None)
    else if s.status[c] == SLEEP then
      saved.(run := Removed(s.run, c), cur := None, sleepers := Inserted(s.sleepers, s.wakeup, c))
    else saved.(status := s.status[c := READY])
  }

  /** schedule(), from the policy body on: the running thread is kept while the first sleeper is not
      due and its ticks last. */
  function Schedule<T(==)>(s: State<T>, context: nat): (State<T>, Dispatch<T>)
    requires Known(s)
  {
    if s.run == [] && s.sleepers == [] then (s, Idle)
    else match s.cur
         case None => Pick(s)
         case Some(c) =>
           var waiting := s.sleepers != [] && s.wakeup[s.sleepers[0]] > s.ticks;
           var counted := if waiting then s.(used := s.used[c := s.used[c] + 1]) else s;
           if waiting && s.used[c] < SCHEDULER_THREAD_TICKS && s.status[c] != DEAD && s.status[c] != SLEEP
           then (counted, Keep)
           else Pick(Retire(counted, c, context))
  }

  // ---- Events and runs ----------------------------------------------------------------------------

  /** What can happen on the CPU: a freshly created thread is added; the running thread asks to sleep
      or to die; the periodic interrupt arrives with the interrupted context. */
  datatype Event<T> = Add(t: T, context: nat) | SleepFor(ms: nat) | Die | Tick(context: nat)

  /** scheduler_add_thread. */
  function AddThread<T(==)>(s: State<T>, t: T, status: Status, used: nat, wakeup: nat, context: nat): State<T> {
    s.(run := [t] + s.run,
       status := s.status[t := status], used := s.used[t := used],
       wakeup := s.wakeup[t := wakeup], context := s.context[t := context])
  }

  /** The wakeup time of a sleep of ms ticks, as a 64-bit sum.  The tick counter itself is taken never
      to overflow. */
  function Deadline(ticks: nat, ms: nat): nat {
    (ticks + ms) % TWO_64
  }

  /** A sleep ends no earlier than its length from now exactly when the sum does not wrap. */
  lemma DeadlineIs(ticks: nat, ms: nat)
    requires ticks < TWO_64 && ms < TWO_64
    ensures Deadline(ticks, ms) >= ticks + ms <==> ticks + ms < TWO_64
    ensures Deadline(ticks, ms) >= ticks <==> ticks + ms < TWO_64
    ensures ticks + ms < TWO_64 ==> Deadline(ticks, ms) == ticks + ms
  {
    if ticks + ms >= TWO_64 {
      assert (ticks + ms) % TWO_64 == ticks + ms - TWO_64;
    }
  }

  function SleepSyscall<T(==)>(s: State<T>, ms: nat): State<T>
    requires s.cur.Some?
  {
    s.(status := s.status[s.cur.value := SLEEP], wakeup := s.wakeup[s.cur.value := Deadline(s.ticks, ms)])
  }

  function DeadSyscall<T(==)>(s: State<T>): State<T>
    requires s.cur.Some?
  {
    s.(status := s.status[s.cur.value := DEAD])
  }

  /** The periodic interrupt counts a tick and calls schedule. */
  function Interrupt<T(==)>(s: State<T>, context: nat): (State<T>, Dispatch<T>)
    requires Known(s)
  {
    Schedule(s.(ticks := s.ticks + 1), context)
  }

  // ---- The invariant ------------------------------------------------------------------------------

  ghost predicate Distinct<T>(list: seq<T>) {
    forall i, j :: 0 <= i < j < |list| ==> list[i] != list[j]
  }

  ghost predicate Sorted<T>(list: seq<T>, wakeup: map<T, nat>)
    requires forall t :: t in list ==> t in wakeup
  {
    forall i, j :: 0 <= i < j < |list| ==> wakeup[list[i]] <= wakeup[list[j]]
  }

  /** No thread is on both lists or twice on one, and the sleep list is sorted by wakeup time. */
  ghost predicate Lists<T>(s: State<T>) {
    && Known(s)
    && Distinct(s.run) && Distinct(s.sleepers)
    && (forall t :: t in s.run ==> t !in s.sleepers)
    && Sorted(s.sleepers, s.wakeup)
  }

  /** The sleep list holds sleeping threads; a thread on no list is dead; only the running thread may
      be about to sleep or die. */
  ghost predicate Statuses<T>(s: State<T>)
    requires Known(s)
  {
    && (forall t :: t in s.sleepers ==> s.status[t] == SLEEP)
    && (forall t :: t in s.run && s.cur != Some(t) ==> s.status[t] != SLEEP && s.status[t] != DEAD)
    && (forall t :: t in s.status && t !in s.run && t !in s.sleepers ==> s.status[t] == DEAD)
  }

  /** A running thread is on the run list. */
  ghost predicate Current<T>(s: State<T>) {
    s.cur.Some? ==> s.cur.value in s.run
  }

  ghost predicate Inv<T>(s: State<T>) {
    Lists(s) && Statuses(s) && Current(s)
  }

  /** A running thread is within its ticks. */
  ghost predicate Metered<T>(s: State<T>)
    requires Known(s)
  {
    s.cur.Some? ==> s.used[s.cur.value] <= SCHEDULER_THREAD_TICKS
  }

  /** The running thread, if any, is not about to sleep or die. */
  ghost predicate Settled<T>(s: State<T>)
    requires Known(s)
  {
    s.cur.Some? ==> s.status[s.cur.value] != SLEEP && s.status[s.cur.value] != DEAD
  }

  lemma {:induction false} RemovedIs<T>(list: seq<T>, t: T)
    requires Distinct(list)
    ensures Distinct(Removed(list, t)) && t !in Removed(list, t)
    ensures forall x :: x in list && x != t ==> x in Removed(list, t)
  {
    if list != [] {
      var rest := list[1..];
      assert forall x :: x in list <==> x == list[0] || x in rest;
      RemovedIs(rest, t);
      assert list[0] !in rest;
      if list[0] != t {
        var r := Removed(rest, t);
        assert forall x :: x in Removed(list, t) <==> x == list[0] || x in r;
      }
    }
  }

  lemma ConsSorted<T>(h: T, r: seq<T>, wakeup: map<T, nat>)
    requires h in wakeup && forall x :: x in r ==> x in wakeup && wakeup[h] <= wakeup[x]
    requires Distinct(r) && h !in r && Sorted(r, wakeup)
    ensures Distinct([h] + r) && (forall x :: x in [h] + r ==> x in wakeup) && Sorted([h] + r, wakeup)
  {}

  lemma TailSorted<T>(list: seq<T>, wakeup: map<T, nat>)
    requires list != [] && forall x :: x in list ==> x in wakeup
    requires Distinct(list) && Sorted(list, wakeup)
    ensures var rest := list[1..];
            && (forall x :: x in rest ==> x in list) && Distinct(rest) && list[0] !in rest
            && (forall x :: x in list ==> x == list[0] || x in rest)
            && Sorted(rest, wakeup) && forall x :: x in list ==> wakeup[list[0]] <= wakeup[x]
  {
    var rest := list[1..];
    assert forall x :: x in list ==> x == list[0] || x in rest;
    assert forall i :: 0 <= i < |rest| ==> rest[i] == list[i + 1];
  }

  /** Inserting keeps the order, and puts the thread after every one that wakes earlier and before
      every one that wakes later or at the same time. */
  lemma {:induction false} InsertedIs<T>(list: seq<T>, wakeup: map<T, nat>, t: T)
    requires t in wakeup && forall x :: x in list ==> x in wakeup
    requires Distinct(list) && t !in list && Sorted(list, wakeup)
    ensures Distinct(Inserted(list, wakeup, t)) && Sorted(Inserted(list, wakeup, t), wakeup)
    ensures forall i :: 0 <= i < |list| && wakeup[list[i]] < wakeup[t] ==> Inserted(list, wakeup, t)[i] == list[i]
  {
    if list == [] {
    } else {
      TailSorted(list, wakeup);
      if wakeup[list[0]] >= wakeup[t] {
        ConsSorted(t, list, wakeup);
      } else {
        InsertedIs(list[1..], wakeup, t);
        ConsSorted(list[0], Inserted(list[1..], wakeup, t), wakeup);
      }
    }
  }

  // ---- Every run keeps it -------------------------------------------------------------------------

  lemma ReadyKeeps<T>(s: State<T>, t: T)
    requires Inv(s) && Settled(s) && t in s.run
    ensures Inv(Ready(s, t)) && Settled(Ready(s, t))
  {}

  /** The first sleeper moved to the front of the run list. */
  function Woken<T(==)>(s: State<T>): State<T>
    requires s.sleepers != []
  {
    s.(run := [s.sleepers[0]] + s.run, sleepers := s.sleepers[1..])
  }

  lemma WokenLists<T>(s: State<T>)
    requires Lists(s) && s.sleepers != []
    ensures Lists(Woken(s))
    ensures forall x :: x in s.sleepers <==> x == s.sleepers[0] || x in Woken(s).sleepers
    ensures forall x :: x in Woken(s).run <==> x == s.sleepers[0] || x in s.run
    ensures s.sleepers[0] !in Woken(s).sleepers
  {
    TailSorted(s.sleepers, s.wakeup);
    assert s.sleepers[0] in s.sleepers;
    DistinctCons(s.sleepers[0], s.run);
  }

  lemma DistinctCons<T>(t: T, list: seq<T>)
    requires Distinct(list) && t !in list
    ensures Distinct([t] + list)
  {}

  /** Making it current keeps the invariant. */
  lemma WakeKeeps<T>(s: State<T>)
    requires Inv(s) && Settled(s) && s.sleepers != []
    ensures Inv(Ready(Woken(s), s.sleepers[0])) && Settled(Ready(Woken(s), s.sleepers[0]))
  {
    var w, h := Woken(s), s.sleepers[0];
    InvParts(s);
    WokenIn(s);
    WokenIs(s);
    ReadyIs(w, h);
    hide *;
    WokenLists(s);
    ReadyLists(w, h);
    WokenStatuses(s, w, Ready(w, h), h);
    ReadySettled(w, h);
    MakeInv(Ready(w, h));
  }

  lemma InvParts<T>(s: State<T>)
    requires Inv(s)
    ensures Lists(s) && Known(s) && Statuses(s) && Current(s)
  {
    hide Statuses, Current;
  }

  lemma MakeInv<T>(s: State<T>)
    requires Lists(s) && Known(s) && Statuses(s) && Current(s)
    ensures Inv(s)
  {
    hide Lists, Statuses, Current, Known;
  }

  lemma WokenIn<T>(s: State<T>)
    requires s.sleepers != []
    ensures s.sleepers[0] in Woken(s).run
  {}

  lemma ReadySettled<T>(s: State<T>, t: T)
    requires Known(Ready(s, t))
    ensures Settled(Ready(s, t))
  {}

  lemma ReadyLists<T>(s: State<T>, t: T)
    requires Lists(s) && t in s.run
    ensures Lists(Ready(s, t)) && Known(Ready(s, t))
  {
    hide Distinct;
  }

  lemma WokenStatuses<T>(s: State<T>, w: State<T>, r: State<T>, h: T)
    requires Known(s) && Statuses(s) && Current(s) && Settled(s) && Known(r)
    requires r.run == w.run && r.sleepers == w.sleepers && r.cur == Some(h) && r.status == s.status[h := READY]
    requires forall x :: x in s.sleepers <==> x == h || x in w.sleepers
    requires forall x :: x in w.run <==> x == h || x in s.run
    requires h !in w.sleepers
    ensures Statuses(r) && Current(r)
  {
    assert h in w.run;
  }

  lemma WokenIs<T>(s: State<T>)
    requires s.sleepers != []
    ensures Woken(s).status == s.status && Woken(s).run == [s.sleepers[0]] + s.run
    ensures Woken(s).sleepers == s.sleepers[1..]
  {}

  lemma ReadyIs<T>(s: State<T>, t: T)
    ensures var r := Ready(s, t);
            r.run == s.run && r.sleepers == s.sleepers && r.cur == Some(t) && r.status == s.status[t := READY]
  {}

  lemma PickKeeps<T>(s: State<T>)
    requires Inv(s) && Settled(s)
    ensures Inv(Pick(s).0) && Settled(Pick(s).0)
  {
    if Due(s) {
      WakeKeeps(s);
    } else if s.run != [] {
      var t := NextThread(s.run, s.cur).value;
      assert t in s.run;
      ReadyKeeps(s, t);
    }
  }

  lemma RetireKeeps<T>(s: State<T>, c: T, context: nat)
    requires Inv(s) && s.cur == Some(c)
    ensures Inv(Retire(s, c, context)) && Settled(Retire(s, c, context))
  {
    if s.status[c] == DEAD {
      DieKeeps(s, c, context);
    } else if s.status[c] == SLEEP {
      FallAsleepKeeps(s, c, context);
    }
  }

  lemma DieKeeps<T>(s: State<T>, c: T, context: nat)
    requires Inv(s) && s.cur == Some(c) && s.status[c] == DEAD
    ensures Inv(Retire(s, c, context)) && Settled(Retire(s, c, context))
  {
    hide Sorted, Removed;
    RemovedFrom(s.run, c);
  }

  lemma FallAsleepKeeps<T>(s: State<T>, c: T, context: nat)
    requires Inv(s) && s.cur == Some(c) && s.status[c] == SLEEP
    ensures Inv(Retire(s, c, context)) && Settled(Retire(s, c, context))
  {
    hide Sorted, Removed, Inserted;
    RemovedFrom(s.run, c);
    InsertedInto(s.sleepers, s.wakeup, c);
  }

  lemma RemovedFrom<T>(list: seq<T>, t: T)
    requires Distinct(list)
    ensures Distinct(Removed(list, t)) && t !in Removed(list, t)
    ensures forall x :: x in Removed(list, t) <==> x in list && x != t
  {
    RemovedIs(list, t);
  }

  lemma InsertedInto<T>(list: seq<T>, wakeup: map<T, nat>, t: T)
    requires t in wakeup && forall x :: x in list ==> x in wakeup
    requires Distinct(list) && t !in list && Sorted(list, wakeup)
    ensures Distinct(Inserted(list, wakeup, t)) && Sorted(Inserted(list, wakeup, t), wakeup)
    ensures forall x :: x in Inserted(list, wakeup, t) <==> x in list || x == t
  {
    InsertedIs(list, wakeup, t);
  }

  /** Counting a tick of the running thread. */
  function Counted<T(==)>(s: State<T>, c: T): (r: State<T>)
    requires Known(s) && c in s.used
    ensures Known(r) && r.used.Keys == s.used.Keys
  {
    if s.sleepers != [] && s.wakeup[s.sleepers[0]] > s.ticks then s.(used := s.used[c := s.used[c] + 1]) else s
  }

  predicate Kept<T(==)>(s: State<T>, c: T)
    requires Known(s) && c in s.used
  {
    && s.sleepers != [] && s.wakeup[s.sleepers[0]] > s.ticks
    && s.used[c] < SCHEDULER_THREAD_TICKS && s.status[c] != DEAD && s.status[c] != SLEEP
  }

  lemma ScheduleIs<T>(s: State<T>, context: nat)
    requires Known(s)
    ensures s.run == [] && s.sleepers == [] ==> Schedule(s, context) == (s, Idle)
    ensures !(s.run == [] && s.sleepers == []) && s.cur == None ==> Schedule(s, context) == Pick(s)
    ensures !(s.run == [] && s.sleepers == []) && s.cur.Some? ==>
              var c := s.cur.value;
              Schedule(s, context) ==
                if Kept(s, c) then (Counted(s, c), Keep) else Pick(Retire(Counted(s, c), c, context))
  {}

  lemma CountedKeeps<T>(s: State<T>, c: T)
    requires Inv(s) && s.cur == Some(c)
    ensures Inv(Counted(s, c)) && Counted(s, c).cur == Some(c)
    ensures Kept(s, c) ==> Settled(Counted(s, c))
  {
    hide Sorted, Distinct;
  }

  /** schedule keeps the invariant, and no running thread is about to sleep or die after it. */
  lemma ScheduleKeeps<T>(s: State<T>, context: nat)
    requires Inv(s)
    ensures Known(s) && Inv(Schedule(s, context).0) && Settled(Schedule(s, context).0)
  {
    ScheduleIs(s, context);
    hide Schedule, Pick, Retire, Counted, Kept, Lists, Statuses;
    if s.run == [] && s.sleepers == [] {
    } else if s.cur == None {
      PickKeeps(s);
    } else {
      var c := s.cur.value;
      CountedKeeps(s, c);
      if !Kept(s, c) {
        RetireKeeps(Counted(s, c), c, context);
        PickKeeps(Retire(Counted(s, c), c, context));
      }
    }
  }

  /** Ticks of the running thread stay within their bound, and a dispatched thread starts at 0. */
  lemma ScheduleMeters<T>(s: State<T>, context: nat)
    requires Inv(s) && Metered(s)
    ensures Known(s) && Known(Schedule(s, context).0) && Metered(Schedule(s, context).0)
    ensures var r := Schedule(s, context);
            r.1.Thread? ==> r.0.cur == Some(r.1.t) && r.0.used[r.1.t] == 0 && r.0.status[r.1.t] == READY
  {
    ScheduleIs(s, context);
    ScheduleKeeps(s, context);
    hide Schedule, Retire, Lists, Statuses;
    if s.cur.Some? && !(s.run == [] && s.sleepers == []) && !Kept(s, s.cur.value) {
      CountedKeeps(s, s.cur.value);
      RetireKeeps(Counted(s, s.cur.value), s.cur.value, context);
      PickMeters(Retire(Counted(s, s.cur.value), s.cur.value, context));
    }
  }

  lemma PickMeters<T>(s: State<T>)
    requires Inv(s)
    requires s.run == [] ==> s.cur == None
    ensures Known(Pick(s).0) && Metered(Pick(s).0)
    ensures Pick(s).1.Thread? ==>
              var t := Pick(s).1.t; Pick(s).0.cur == Some(t) && Pick(s).0.used[t] == 0 && Pick(s).0.status[t] == READY
  {}

  /** What holds between events, in every run from an empty CPU. */
  ghost predicate Always<T>(s: State<T>) {
    Inv(s) && Metered(s)
  }

  function Apply<T(==)>(s: State<T>, e: Event<T>): (State<T>, Option<Dispatch<T>>)
    requires Known(s)
  {
    match e
    case Add(t, context) => (if t in s.status then s else AddThread(s, t, NEW, 0, 0, context), None)
    case SleepFor(ms) => (if s.cur == None then s else SleepSyscall(s, ms), None)
    case Die => (if s.cur == None then s else DeadSyscall(s), None)
    case Tick(context) => var (s', d) := Interrupt(s, context); (s', Some(d))
  }

  lemma ApplyKeeps<T>(s: State<T>, e: Event<T>)
    requires Always(s)
    ensures Always(Apply(s, e).0)
  {
    match e
    case Add(t, context) => if t !in s.status { AddKeeps(s, t, context); }
    case SleepFor(ms) => if s.cur.Some? { SleepKeeps(s, ms); }
    case Die => if s.cur.Some? { DeadKeeps(s); }
    case Tick(context) => TickKeeps(s, context);
  }

  lemma AddKeeps<T>(s: State<T>, t: T, context: nat)
    requires Always(s) && t !in s.status
    ensures Always(AddThread(s, t, NEW, 0, 0, context))
  {
    DistinctCons(t, s.run);
  }

  lemma SleepKeeps<T>(s: State<T>, ms: nat)
    requires Always(s) && s.cur.Some?
    ensures Always(SleepSyscall(s, ms))
  {
    hide Deadline;
  }

  lemma DeadKeeps<T>(s: State<T>)
    requires Always(s) && s.cur.Some?
    ensures Always(DeadSyscall(s))
  {}

  lemma TickKeeps<T>(s: State<T>, context: nat)
    requires Always(s)
    ensures Always(Interrupt(s, context).0)
  {
    hide Schedule, Lists, Statuses, Known;
    TickCounted(s);
    ScheduleKeeps(s.(ticks := s.ticks + 1), context);
    ScheduleMeters(s.(ticks := s.ticks + 1), context);
  }

  lemma TickCounted<T>(s: State<T>)
    requires Inv(s)
    ensures Inv(s.(ticks := s.ticks + 1)) && (Metered(s) ==> Metered(s.(ticks := s.ticks + 1)))
  {}

  // ---- Runs ---------------------------------------------------------------------------------------

  function Start<T(==)>(): State<T> {
    State([], [], None, 0, map[], map[], map[], map[])
  }

  /** The state after a run, and what each of its interrupts dispatched. */
  ghost function Exec<T>(s: State<T>, es: seq<Event<T>>): (r: (State<T>, seq<Dispatch<T>>))
    requires Always(s)
    decreases |es|
  {
    if es == [] then (s, [])
    else
      ApplyKeeps(s, es[0]);
      var (s', d) := Apply(s, es[0]);
      var (s2, ds) := Exec(s', es[1..]);
      (s2, if d == None then ds else [d.value] + ds)
  }

  /** Every run keeps the invariant: lists acyclic and disjoint, the sleep list sorted, every thread on
      exactly one list until it dies, the current one on the run list. */
  lemma {:induction false} RunKeeps<T>(s: State<T>, es: seq<Event<T>>)
    requires Always(s)
    ensures Always(Exec(s, es).0)
    decreases |es|
  {
    if es != [] {
      ApplyKeeps(s, es[0]);
      RunKeeps(Apply(s, es[0]).0, es[1..]);
    }
  }

  lemma StartIsFine<T>()
    ensures Always(Start<T>())
  {}

  // ---- What one call of schedule decides ----------------------------------------------------------

  /** The state in which schedule picks the next thread, when it does not keep the running one. */
  function Prepared<T(==)>(s: State<T>, context: nat): State<T>
    requires Known(s)
  {
    if s.cur == None then s else Retire(Counted(s, s.cur.value), s.cur.value, context)
  }

  ghost predicate Keeps<T>(s: State<T>)
    requires Known(s)
  {
    s.cur.Some? && Kept(s, s.cur.value)
  }

  lemma ScheduleCases<T>(s: State<T>, context: nat)
    requires Inv(s)
    ensures if Keeps(s) then Schedule(s, context) == (Counted(s, s.cur.value), Keep)
            else Known(Prepared(s, context)) && Schedule(s, context) == Pick(Prepared(s, context))
  {
    ScheduleIs(s, context);
    if s.cur.Some? {
      CountedKeeps(s, s.cur.value);
      RetireKeeps(Counted(s, s.cur.value), s.cur.value, context);
    }
    assert s.run == [] ==> s.cur == None;
  }

  lemma PreparedIs<T>(s: State<T>, context: nat)
    requires Inv(s)
    ensures var r := Prepared(s, context);
            && Inv(r) && Settled(r) && r.ticks == s.ticks && r.wakeup == s.wakeup
            && (r.cur.Some? ==> r.cur == s.cur)
            && (r.sleepers == if s.cur.Some? && s.status[s.cur.value] == SLEEP
                              then Inserted(s.sleepers, s.wakeup, s.cur.value) else s.sleepers)
  {
    if s.cur == None {
    } else {
      PreparedCur(s, s.cur.value, context);
    }
  }

  lemma PreparedCur<T>(s: State<T>, c: T, context: nat)
    requires Inv(s) && s.cur == Some(c)
    ensures Known(Counted(s, c)) && Inv(Retire(Counted(s, c), c, context)) && Settled(Retire(Counted(s, c), c, context))
    ensures Retires(s, Retire(Counted(s, c), c, context), c)
  {
    CountedKeeps(s, c);
    RetireKeeps(Counted(s, c), c, context);
    RetireFacts(s, c, context);
  }

  ghost predicate Retires<T>(s: State<T>, r: State<T>, c: T)
    requires Known(s) && c in s.status
  {
    && r.ticks == s.ticks && r.wakeup == s.wakeup
    && (r.cur.Some? ==> r.cur == s.cur)
    && r.sleepers == if s.status[c] == SLEEP then Inserted(s.sleepers, s.wakeup, c) else s.sleepers
  }

  lemma RetireFacts<T>(s: State<T>, c: T, context: nat)
    requires Known(s) && c in s.status && s.cur == Some(c)
    ensures Known(Counted(s, c)) && Retires(s, Retire(Counted(s, c), c, context), c)
  {}

  lemma PickIs<T>(s: State<T>)
    requires Inv(s) && Settled(s)
    ensures Known(Pick(s).0)
    ensures Pick(s).1 == Idle <==> Pick(s).0.run == [] && !Due(Pick(s).0)
    ensures Pick(s).1 == Idle ==> Pick(s).0.cur == None
    ensures Due(s) ==> Pick(s).1 == Thread(s.sleepers[0]) && Pick(s).0.sleepers == s.sleepers[1..]
    ensures !Due(s) ==> Pick(s).0.sleepers == s.sleepers && Pick(s).0.run == s.run
  {
    hide Sorted, Distinct, Statuses;
  }

  /** The idle thread is dispatched exactly when afterwards no thread is runnable and no sleeper due. */
  lemma IdleExactly<T>(s: State<T>, context: nat)
    requires Inv(s)
    ensures Known(Schedule(s, context).0)
    ensures Schedule(s, context).1 == Idle <==> Schedule(s, context).0.run == [] && !Due(Schedule(s, context).0)
  {
    ScheduleCases(s, context);
    ScheduleKeeps(s, context);
    PreparedIs(s, context);
    hide Schedule, Prepared, Pick, Inv;
    if Keeps(s) {
      CountedRuns(s);
    } else {
      PickIs(Prepared(s, context));
    }
  }

  lemma CountedRuns<T>(s: State<T>)
    requires Inv(s) && Keeps(s)
    ensures Counted(s, s.cur.value).run == s.run != []
    ensures Counted(s, s.cur.value).sleepers == s.sleepers && Counted(s, s.cur.value).cur == s.cur && !Due(s)
  {}

  /** Nobody wakes before its time. */
  lemma NoEarlyWake<T>(s: State<T>, context: nat, t: T)
    requires Inv(s) && t in s.sleepers && t !in Schedule(s, context).0.sleepers
    ensures s.wakeup[t] <= s.ticks && Schedule(s, context).1 == Thread(t)
  {
    ScheduleCases(s, context);
    PreparedIs(s, context);
    if Keeps(s) {
      CountedRuns(s);
      assert false;
    }
    hide Schedule, Prepared, Pick, Counted, Keeps;
    var r := Prepared(s, context);
    assert t in r.sleepers;
    PickIs(r);
    if Due(r) { HeadOrTail(r.sleepers, t); }
  }

  lemma HeadOrTail<T>(list: seq<T>, t: T)
    requires t in list
    ensures t == list[0] || t in list[1..]
  {}

  /** When some sleeper is due, schedule dispatches one whose wakeup time is the least of all
      sleepers, the thread that just fell asleep included. */
  lemma DueFirst<T>(s: State<T>, context: nat)
    requires Inv(s) && Due(s)
    ensures var r := Prepared(s, context);
            && r.sleepers != [] && Schedule(s, context).1 == Thread(r.sleepers[0])
            && (forall x :: x in r.sleepers ==> x in s.wakeup && s.wakeup[r.sleepers[0]] <= s.wakeup[x])
            && (forall x :: x in s.sleepers ==> x in r.sleepers)
  {
    ScheduleCases(s, context);
    PreparedIs(s, context);
    hide Schedule, Prepared, Pick, Counted;
    var r := Prepared(s, context);
    if s.cur.Some? { InsertedHead(s); }
    TailSorted(r.sleepers, r.wakeup);
    PickIs(r);
  }

  /** Falling asleep keeps a due sleeper due, or makes an earlier one the first. */
  lemma InsertedHead<T>(s: State<T>)
    requires Inv(s) && s.sleepers != [] && s.cur.Some?
    ensures var r := Inserted(s.sleepers, s.wakeup, s.cur.value);
            r != [] && r[0] in s.wakeup && s.wakeup[r[0]] <= s.wakeup[s.sleepers[0]]
  {}

  // ---- Waking in turn -----------------------------------------------------------------------------

  /** A thread about to sleep is not yet due. */
  ghost predicate Pending<T>(s: State<T>)
    requires Known(s)
  {
    s.cur.Some? && s.status[s.cur.value] == SLEEP ==> s.wakeup[s.cur.value] >= s.ticks
  }

  /** No sleep asked for in es wraps, when es starts at the given tick. */
  ghost predicate InTime<T>(es: seq<Event<T>>, ticks: nat) {
    forall e :: e in es && e.SleepFor? ==> ticks + |es| + e.ms < TWO_64
  }

  lemma PendingKept<T>(s: State<T>, e: Event<T>)
    requires Always(s) && Pending(s) && (e.SleepFor? ==> s.ticks + e.ms < TWO_64)
    ensures Known(Apply(s, e).0) && Pending(Apply(s, e).0) && Apply(s, e).0.ticks <= s.ticks + 1
  {
    if e.Tick? {
      TickSettles(s, e.context);
      hide *;
    } else if e.SleepFor? && s.cur.Some? {
      DeadlineIs(s.ticks, e.ms);
    }
  }

  lemma TickSettles<T>(s: State<T>, context: nat)
    requires Inv(s)
    ensures var n := Apply(s, Tick(context)).0; Known(n) && Pending(n) && n.ticks <= s.ticks + 1
  {
    hide Schedule, Statuses, Distinct, Sorted;
    var c := s.(ticks := s.ticks + 1);
    TickCounted(s);
    ScheduleKeeps(c, context);
    var n := Schedule(c, context).0;
    assert n == Apply(s, Tick(context)).0;
    TicksKept(c, context);
    SettledPending(n);
    hide *;
  }

  lemma SettledPending<T>(s: State<T>)
    requires Inv(s) && Settled(s)
    ensures Known(s) && Pending(s)
  {}

  lemma TicksKept<T>(s: State<T>, context: nat)
    requires Known(s)
    ensures Schedule(s, context).0.ticks == s.ticks && Schedule(s, context).0.wakeup == s.wakeup
  {
    ScheduleIs(s, context);
    hide Schedule, Retire, Pick;
    if s.cur.Some? && !Kept(s, s.cur.value) {
      RetireTicks(Counted(s, s.cur.value), s.cur.value, context);
      PickTicks(Retire(Counted(s, s.cur.value), s.cur.value, context));
    } else if s.cur == None {
      PickTicks(s);
    }
  }

  lemma RetireTicks<T>(s: State<T>, c: T, context: nat)
    requires Known(s) && c in s.status
    ensures Known(Retire(s, c, context))
    ensures Retire(s, c, context).ticks == s.ticks && Retire(s, c, context).wakeup == s.wakeup
  {}

  lemma PickTicks<T>(s: State<T>)
    requires Known(s)
    ensures Pick(s).0.ticks == s.ticks && Pick(s).0.wakeup == s.wakeup
  {}

  /** The threads of q are the first sleepers, and their time passed at least one tick ago. */
  ghost predicate Overdue<T>(s: State<T>, q: seq<T>)
    requires Known(s)
  {
    q <= s.sleepers && forall t :: t in q ==> t in s.wakeup && s.wakeup[t] < s.ticks
  }

  /** An event that is no interrupt leaves overdue sleepers where they are. */
  lemma OverdueKept<T>(s: State<T>, e: Event<T>, q: seq<T>)
    requires Always(s) && Overdue(s, q) && !e.Tick?
    ensures Apply(s, e).1 == None && Known(Apply(s, e).0) && Overdue(Apply(s, e).0, q)
  {
    ApplyKeeps(s, e);
    assert forall t :: t in q ==> t in s.sleepers;
  }

  /** If the running thread is about to sleep, its time lies behind that of every thread of q. */
  ghost predicate Behind<T>(s: State<T>, q: seq<T>)
    requires Known(s)
  {
    s.cur.Some? && s.status[s.cur.value] == SLEEP ==>
      forall x :: x in q ==> x in s.wakeup && s.wakeup[x] < s.wakeup[s.cur.value]
  }

  /** Such a thread goes behind them on the sleep list. */
  lemma OverdueFirst<T>(s: State<T>, q: seq<T>, c: T)
    requires Inv(s) && Overdue(s, q) && c in s.wakeup && c !in s.sleepers
    requires forall x :: x in q ==> s.wakeup[x] < s.wakeup[c]
    ensures q <= Inserted(s.sleepers, s.wakeup, c)
  {
    InsertedIs(s.sleepers, s.wakeup, c);
    forall i | 0 <= i < |q| ensures Inserted(s.sleepers, s.wakeup, c)[i] == q[i] {
      assert q[i] in q;
    }
  }

  lemma OverduePrepared<T>(s: State<T>, context: nat, q: seq<T>)
    requires Always(s) && Behind(s, q) && Overdue(s, q)
    ensures var n := s.(ticks := s.ticks + 1); Known(n) && q <= Prepared(n, context).sleepers
  {
    var n := s.(ticks := s.ticks + 1);
    TickCounted(s);
    PreparedIs(n, context);
    if s.cur.Some? && s.status[s.cur.value] == SLEEP {
      OverdueFirst(s, q, s.cur.value);
    }
  }

  lemma OverdueDispatched<T>(s: State<T>, context: nat, q: seq<T>)
    requires Always(s) && Behind(s, q) && Overdue(s, q) && q != []
    ensures Apply(s, Tick(context)).1 == Some(Thread(q[0]))
    ensures Known(Apply(s, Tick(context)).0) && Overdue(Apply(s, Tick(context)).0, q[1..])
  {
    hide *;
    var n := s.(ticks := s.ticks + 1);
    AlwaysParts(s);
    TickApplied(s, context);
    ScheduleCases(n, context);
    PreparedIs(n, context);
    OverduePrepared(s, context, q);
    InvParts(Prepared(n, context));
    OverdueLeft(s, n, Prepared(n, context), q);
    OverduePicked(Prepared(n, context), q);
  }

  lemma OverdueLeft<T>(s: State<T>, n: State<T>, r: State<T>, q: seq<T>)
    requires Known(s) && Known(n) && Known(r) && Overdue(s, q) && q != [] && n == s.(ticks := s.ticks + 1)
    requires r.ticks == n.ticks && r.wakeup == n.wakeup && q <= r.sleepers
    ensures !Keeps(n) && Overdue(r, q)
  {
    assert q[0] in q && s.sleepers[0] == q[0];
  }

  lemma OverduePicked<T>(r: State<T>, q: seq<T>)
    requires Inv(r) && Settled(r) && Overdue(r, q) && q != []
    ensures Pick(r).1 == Thread(q[0]) && Known(Pick(r).0) && Overdue(Pick(r).0, q[1..])
  {
    assert q[0] in q && r.sleepers[0] == q[0];
    PickIs(r);
    assert forall t :: t in q[1..] ==> t in q;
    assert q[1..] <= r.sleepers[1..];
  }

  /** The dispatches ds begin with the threads of q, as far as they go. */
  ghost predicate InOrder<T>(ds: seq<Dispatch<T>>, q: seq<T>) {
    forall j :: 0 <= j < |q| && j < |ds| ==> ds[j] == Thread(q[j])
  }

  lemma InOrderCons<T>(ds: seq<Dispatch<T>>, q: seq<T>)
    requires q != []
    ensures InOrder([Thread(q[0])] + ds, q) <==> InOrder(ds, q[1..])
  {
    var all := [Thread(q[0])] + ds;
    if InOrder(all, q) {
      assert forall j :: 0 <= j < |ds| ==> all[j + 1] == ds[j];
    }
  }

  lemma AlwaysParts<T>(s: State<T>)
    requires Always(s)
    ensures Inv(s) && Known(s) && Metered(s)
  {
    hide Distinct, Sorted, Statuses;
  }

  lemma ExecFirst<T>(s: State<T>, es: seq<Event<T>>)
    requires Always(s) && es != []
    ensures var (n, d) := Apply(s, es[0]);
            Always(n) && Exec(s, es).1 == (if d == None then [] else [d.value]) + Exec(n, es[1..]).1
  {
    hide Apply, Inv, Metered, Known;
    ApplyKeeps(s, es[0]);
  }

  lemma OverdueStep<T>(s: State<T>, e: Event<T>, q: seq<T>)
    requires Always(s) && Overdue(s, q) && q != [] && (e.Tick? ==> Behind(s, q))
    ensures var (n, d) := Apply(s, e);
            && Known(n)
            && if e.Tick? then d == Some(Thread(q[0])) && Overdue(n, q[1..]) else d == None && Overdue(n, q)
  {
    if e.Tick? {
      OverdueDispatched(s, e.context, q);
    } else {
      OverdueKept(s, e, q);
    }
    hide *;
  }

  /** At every interrupt of the run, whoever is then about to sleep has a time behind those of the
      threads of q that are still asleep. */
  ghost predicate NotOvertaken<T>(s: State<T>, es: seq<Event<T>>, q: seq<T>)
    requires Always(s)
    decreases |es|
  {
    if es == [] || q == [] then true
    else
      ApplyKeeps(s, es[0]);
      var n := Apply(s, es[0]).0;
      if es[0].Tick? then Behind(s, q) && NotOvertaken(n, es[1..], q[1..]) else NotOvertaken(n, es[1..], q)
  }

  lemma NotOvertakenIs<T>(s: State<T>, es: seq<Event<T>>, q: seq<T>)
    requires Always(s)
    ensures Known(s) && (es == [] || q == [] ==> NotOvertaken(s, es, q))
    ensures es != [] && q != [] ==>
              var n := Apply(s, es[0]).0;
              && Always(n)
              && (NotOvertaken(s, es, q) <==>
                  if es[0].Tick? then Behind(s, q) && NotOvertaken(n, es[1..], q[1..]) else NotOvertaken(n, es[1..], q))
  {
    if es != [] { ApplyKeeps(s, es[0]); }
    hide Apply, Behind, Inv, Metered;
  }

  function Ticks<T>(es: seq<Event<T>>): nat {
    if es == [] then 0 else (if es[0].Tick? then 1 else 0) + Ticks(es[1..])
  }

  lemma TicksOf<T>(es: seq<Event<T>>)
    ensures es == [] ==> Ticks(es) == 0
    ensures es != [] ==> Ticks(es) == (if es[0].Tick? then 1 else 0) + Ticks(es[1..])
  {}

  /** From a state where the sleepers of q are overdue, the interrupts of a run dispatch q first and in
      order, so that each runs within its index + 1 calls of schedule, if nobody who falls asleep on the
      way has a time before those left; and, in a run long enough for all of q, only then. */
  lemma {:induction false} WakesInTurn<T>(s: State<T>, es: seq<Event<T>>, q: seq<T>)
    requires Always(s) && Known(s) && Overdue(s, q)
    ensures NotOvertaken(s, es, q) ==> InOrder(Exec(s, es).1, q)
    ensures |q| <= Ticks(es) && InOrder(Exec(s, es).1, q) ==> NotOvertaken(s, es, q)
    decreases |es|
  {
    hide *;
    NotOvertakenIs(s, es, q);
    TicksOf(es);
    if es == [] || q == [] {
      InOrderNone(s, es, q);
    } else {
      ExecFirst(s, es);
      var (n, d) := Apply(s, es[0]);
      if es[0].Tick? && !Behind(s, q) {
        if |q| <= Ticks(es) { Overtaken(s, es, q); }
      } else {
        OverdueStep(s, es[0], q);
        if es[0].Tick? {
          WakesInTurn(n, es[1..], q[1..]);
          InOrderCons(Exec(n, es[1..]).1, q);
        } else {
          WakesInTurn(n, es[1..], q);
          assert Exec(s, es).1 == Exec(n, es[1..]).1;
        }
      }
    }
  }

  lemma InOrderNone<T>(s: State<T>, es: seq<Event<T>>, q: seq<T>)
    requires Always(s) && (es == [] || q == [])
    ensures InOrder(Exec(s, es).1, q)
  {}

  // ---- Nobody passes a sleeper in front of it ----------------------------------------------------

  /** c is in front of x on the list. */
  ghost predicate Ahead<T>(list: seq<T>, c: T, x: T) {
    exists i, j :: 0 <= i < j < |list| && list[i] == c && list[j] == x
  }

  lemma AheadTail<T>(list: seq<T>, c: T, x: T)
    requires Ahead(list, c, x) && list[0] != c
    ensures Ahead(list[1..], c, x)
  {
    var i, j :| 0 <= i < j < |list| && list[i] == c && list[j] == x;
    assert list[1..][i - 1] == c && list[1..][j - 1] == x;
  }

  lemma AheadCons<T>(t: T, list: seq<T>, c: T, x: T)
    requires Ahead(list, c, x) || (t == c && x in list)
    ensures Ahead([t] + list, c, x)
  {
    if Ahead(list, c, x) {
      var i, j :| 0 <= i < j < |list| && list[i] == c && list[j] == x;
      assert ([t] + list)[i + 1] == c && ([t] + list)[j + 1] == x;
    } else {
      var j :| 0 <= j < |list| && list[j] == x;
      assert ([t] + list)[0] == c && ([t] + list)[j + 1] == x;
    }
  }

  /** Inserting keeps the order of the others, and puts t in front of those that wake no earlier. */
  lemma {:induction false} InsertedAhead<T>(list: seq<T>, wakeup: map<T, nat>, t: T, c: T, x: T)
    requires t in wakeup && (forall y :: y in list ==> y in wakeup) && Sorted(list, wakeup)
    requires Ahead(list, c, x) || (c == t && x in list && wakeup[x] >= wakeup[t])
    ensures Ahead(Inserted(list, wakeup, t), c, x)
  {
    if wakeup[list[0]] >= wakeup[t] {
      AheadCons(t, list, c, x);
    } else {
      var rest := Inserted(list[1..], wakeup, t);
      if Ahead(list, c, x) && list[0] == c {
        InFront(list, c, x);
        AheadCons(c, rest, c, x);
      } else {
        if Ahead(list, c, x) { AheadTail(list, c, x); }
        InsertedAhead(list[1..], wakeup, t, c, x);
        AheadCons(list[0], rest, c, x);
      }
    }
  }

  lemma InFront<T>(list: seq<T>, c: T, x: T)
    requires Ahead(list, c, x)
    ensures x in list[1..] && c in list && x in list
  {
    var i, j :| 0 <= i < j < |list| && list[i] == c && list[j] == x;
    assert list[1..][j - 1] == x;
  }

  /** One call of schedule dispatches c, or leaves it in front of x, which it does not dispatch. */
  lemma AheadTick<T>(s: State<T>, context: nat, c: T, x: T)
    requires Inv(s) && Known(Prepared(s, context)) && Ahead(Prepared(s, context).sleepers, c, x)
    requires Keeps(s) ==> Ahead(s.sleepers, c, x)
    ensures var (n, d) := Schedule(s, context);
            d != Thread(x) && (d == Thread(c) || Ahead(n.sleepers, c, x))
  {
    ScheduleCases(s, context);
    PreparedIs(s, context);
    if Keeps(s) {
      CountedRuns(s);
    } else {
      var p := Prepared(s, context);
      hide Schedule, Prepared;
      PickedAhead(p, c, x);
    }
  }

  lemma PickedAhead<T>(p: State<T>, c: T, x: T)
    requires Inv(p) && Settled(p) && Known(p) && Ahead(p.sleepers, c, x)
    ensures var (n, d) := Pick(p);
            d != Thread(x) && (d == Thread(c) || Ahead(n.sleepers, c, x))
  {
    InFront(p.sleepers, c, x);
    PickIs(p);
    PickedRuns(p);
    DistinctTail(p.sleepers);
    if Due(p) && p.sleepers[0] != c { AheadTail(p.sleepers, c, x); }
    hide *;
  }

  lemma PickedRuns<T>(p: State<T>)
    requires Inv(p)
    ensures !Due(p) && Pick(p).1.Thread? ==> Pick(p).1.t !in p.sleepers
  {}

  lemma DistinctTail<T>(list: seq<T>)
    requires list != [] 
    ensures Distinct(list) ==> list[0] !in list[1..]
  {}

  lemma AheadStep<T>(s: State<T>, e: Event<T>, c: T, x: T)
    requires Always(s) && Ahead(s.sleepers, c, x)
    ensures Known(s)
    ensures var (n, d) := Apply(s, e);
            d != Some(Thread(x)) && (d == Some(Thread(c)) || Ahead(n.sleepers, c, x))
  {
    if e.Tick? {
      var t := s.(ticks := s.ticks + 1);
      TickApplied(s, e.context);
      StillAhead(t, e.context, c, x);
      hide Schedule, Ahead;
      AheadTick(t, e.context, c, x);
    } else {
      hide Ahead;
    }
  }

  lemma StillAhead<T>(s: State<T>, context: nat, c: T, x: T)
    requires Inv(s) && Ahead(s.sleepers, c, x)
    ensures Known(Prepared(s, context)) && Ahead(Prepared(s, context).sleepers, c, x)
  {
    PreparedIs(s, context);
    hide Prepared, Ahead;
    if s.cur.Some? && s.status[s.cur.value] == SLEEP {
      InsertedAhead(s.sleepers, s.wakeup, s.cur.value, c, x);
    }
  }

  /** In every run x is dispatched only after c. */
  lemma {:induction false} WaitsBehind<T>(s: State<T>, es: seq<Event<T>>, c: T, x: T, k: nat)
    requires Always(s) && Ahead(s.sleepers, c, x) && k < |Exec(s, es).1| && Exec(s, es).1[k] == Thread(x)
    ensures exists m :: 0 <= m < k && Exec(s, es).1[m] == Thread(c)
    decreases |es|
  {
    hide *;
    ExecSome(s, es, k);
    ExecFirst(s, es);
    AheadStep(s, es[0], c, x);
    var (n, d) := Apply(s, es[0]);
    var ds := Exec(n, es[1..]).1;
    if d == None {
      assert Exec(s, es).1 == ds;
      WaitsBehind(n, es[1..], c, x, k);
      var m :| 0 <= m < k && ds[m] == Thread(c);
      assert Exec(s, es).1[m] == Thread(c);
    } else {
      assert Exec(s, es).1 == [d.value] + ds;
      if d.value == Thread(c) {
        assert Exec(s, es).1[0] == Thread(c);
      } else {
        WaitsBehind(n, es[1..], c, x, k - 1);
        var m :| 0 <= m < k - 1 && ds[m] == Thread(c);
        assert Exec(s, es).1[m + 1] == Thread(c);
      }
    }
  }

  lemma ExecSome<T>(s: State<T>, es: seq<Event<T>>, k: nat)
    requires Always(s) && k < |Exec(s, es).1|
    ensures es != [] && Known(s)
  {}

  /** Whoever falls asleep with a time no later than that of a thread of q runs before it. */
  lemma Overtaken<T>(s: State<T>, es: seq<Event<T>>, q: seq<T>)
    requires Always(s) && Known(s) && Overdue(s, q) && es != [] && es[0].Tick? && !Behind(s, q) && |q| <= Ticks(es)
    ensures !InOrder(Exec(s, es).1, q)
  {
    hide *;
    var j, c := Passed(s, q);
    var t := s.(ticks := s.ticks + 1);
    AlwaysParts(s);
    TickApplied(s, es[0].context);
    PassedAhead(s, es[0].context, q, c, q[j]);
    ExecFirst(s, es);
    AheadTick(t, es[0].context, c, q[j]);
    var (n, d) := Apply(s, es[0]);
    var ds := Exec(n, es[1..]).1;
    assert Exec(s, es).1 == [d.value] + ds;
    ExecTicks(s, es);
    if InOrder(Exec(s, es).1, q) {
      InOrderAt(Exec(s, es).1, q, j);
      InOrderAt(Exec(s, es).1, q, 0);
      if d != Some(Thread(c)) {
        WaitsBehind(n, es[1..], c, q[j], j - 1);
        var m :| 0 <= m < j - 1 && ds[m] == Thread(c);
        InOrderAt(Exec(s, es).1, q, m + 1);
      }
    }
  }

  lemma InOrderAt<T>(ds: seq<Dispatch<T>>, q: seq<T>, j: nat)
    requires InOrder(ds, q) && j < |q| && j < |ds|
    ensures ds[j] == Thread(q[j])
  {}

  lemma {:induction false} ExecTicks<T>(s: State<T>, es: seq<Event<T>>)
    requires Always(s)
    ensures |Exec(s, es).1| == Ticks(es)
    decreases |es|
  {
    if es != [] {
      ExecFirst(s, es);
      var (n, d) := Apply(s, es[0]);
      assert d == None <==> !es[0].Tick?;
      hide *;
      TicksOf(es);
      ExecTicks(n, es[1..]);
    } else {
      hide Apply;
    }
  }

  /** The thread of q that the one falling asleep gets in front of. */
  lemma Passed<T>(s: State<T>, q: seq<T>) returns (j: nat, c: T)
    requires Always(s) && Known(s) && Overdue(s, q) && !Behind(s, q)
    ensures s.cur == Some(c) && c in s.status && s.status[c] == SLEEP && c !in q && c in s.wakeup
    ensures j < |q| && q[j] in s.sleepers && q[j] in s.wakeup && s.wakeup[q[j]] >= s.wakeup[c]
  {
    c := s.cur.value;
    var x :| x in q && s.wakeup[x] >= s.wakeup[c];
    j :| 0 <= j < |q| && q[j] == x;
    assert s.sleepers[j] == x;
    hide Sorted, Distinct;
  }

  lemma PassedAhead<T>(s: State<T>, context: nat, q: seq<T>, c: T, x: T)
    requires Always(s) && s.cur == Some(c) && c in s.status && s.status[c] == SLEEP
    requires x in s.sleepers && c in s.wakeup && x in s.wakeup && s.wakeup[x] >= s.wakeup[c]
    ensures var t := s.(ticks := s.ticks + 1);
            Inv(t) && Known(t) && Known(Prepared(t, context)) && Ahead(Prepared(t, context).sleepers, c, x) && !Keeps(t)
  {
    var t := s.(ticks := s.ticks + 1);
    TickCounted(s);
    PreparedIs(t, context);
    hide Prepared, Ahead, Distinct;
    InsertedAhead(s.sleepers, s.wakeup, c, c, x);
  }

  // ---- Sleeps that wrap ---------------------------------------------------------------------------

  /** When no sleep of the run wraps, nobody is overtaken. */
  lemma {:induction false} InTimeInTurn<T>(s: State<T>, es: seq<Event<T>>, q: seq<T>)
    requires Always(s) && Known(s) && Pending(s) && Overdue(s, q) && InTime(es, s.ticks)
    ensures NotOvertaken(s, es, q)
    decreases |es|
  {
    hide *;
    NotOvertakenIs(s, es, q);
    if es != [] && q != [] {
      PendingBehind(s, q);
      OverdueStep(s, es[0], q);
      PendingStep(s, es);
      InTimeInTurn(Apply(s, es[0]).0, es[1..], if es[0].Tick? then q[1..] else q);
    }
  }

  lemma PendingBehind<T>(s: State<T>, q: seq<T>)
    requires Known(s) && Pending(s) && Overdue(s, q)
    ensures Behind(s, q)
  {}

  lemma PendingStep<T>(s: State<T>, es: seq<Event<T>>)
    requires Always(s) && Known(s) && Pending(s) && es != [] && InTime(es, s.ticks)
    ensures var n := Apply(s, es[0]).0; Known(n) && Pending(n) && InTime(es[1..], n.ticks)
  {
    assert es[0] in es && forall e :: e in es[1..] ==> e in es;
    PendingKept(s, es[0]);
    hide Apply, Pending, Known;
  }

  /** One that does: the longest sleep there is, asked for when a sleeper has been due since the last
      tick, ends before it begins, and the thread runs on in front of that sleeper. */
  lemma WrappedSleep<T>(s: State<T>, context: nat, c: T, x: T)
    requires Always(s) && Known(s) && s.cur == Some(c) && s.sleepers != [] && s.sleepers[0] == x
    requires 0 < s.ticks < TWO_64 && s.wakeup[x] == s.ticks - 1
    ensures Exec(s, [SleepFor(TWO_64 - 1), Tick(context)]).1 == [Thread(c)]
    ensures Overdue(s, [x]) && !NotOvertaken(s, [SleepFor(TWO_64 - 1), Tick(context)], [x])
  {
    var es := [SleepFor(TWO_64 - 1), Tick(context)];
    var n := Apply(s, es[0]).0;
    ApplyKeeps(s, es[0]);
    WrapsBack(s.ticks);
    OverdueOne(s, x);
    AsleepAtOnce(s, n, c, x);
    hide *;
    assert es[1..] == [Tick(context)];
    ExecFirst(s, es);
    ExecFirst(n, es[1..]);
    NotOvertakenIs(s, es, [x]);
    NotOvertakenIs(n, es[1..], [x]);
    RunsOn(n, context, c, x);
    assert es[1..][1..] == [];
    ExecTicks(Apply(n, Tick(context)).0, []);
    TicksOf<T>([]);
  }

  lemma WrapsBack(ticks: nat)
    requires 0 < ticks < TWO_64
    ensures Deadline(ticks, TWO_64 - 1) == ticks - 1
  {
    assert ticks + (TWO_64 - 1) == TWO_64 + (ticks - 1);
  }

  lemma OverdueOne<T>(s: State<T>, x: T)
    requires Known(s) && s.sleepers != [] && s.sleepers[0] == x && x in s.wakeup && s.wakeup[x] < s.ticks
    ensures Overdue(s, [x])
  {}

  lemma AsleepAtOnce<T>(s: State<T>, n: State<T>, c: T, x: T)
    requires Always(s) && s.cur == Some(c) && n == SleepSyscall(s, TWO_64 - 1) && s.sleepers != [] && s.sleepers[0] == x
    requires x in s.wakeup && Deadline(s.ticks, TWO_64 - 1) == s.wakeup[x] == s.ticks - 1
    ensures Known(n) && n.cur == Some(c) && n.status[c] == SLEEP && n.sleepers == s.sleepers && n.ticks == s.ticks
    ensures x in n.wakeup && n.wakeup[c] == n.wakeup[x] == n.ticks - 1 && !Behind(n, [x])
  {
    assert x in s.sleepers && c !in s.sleepers;
    assert x in [x];
  }

  lemma RunsOn<T>(n: State<T>, context: nat, c: T, x: T)
    requires Always(n) && Known(n) && n.cur == Some(c) && n.status[c] == SLEEP && n.sleepers != [] && n.sleepers[0] == x
    requires x in n.wakeup && n.wakeup[c] == n.wakeup[x] < n.ticks
    ensures Apply(n, Tick(context)).1 == Some(Thread(c))
  {
    var t := n.(ticks := n.ticks + 1);
    hide *;
    AlwaysParts(n);
    TickApplied(n, context);
    PreparedIs(t, context);
    ScheduleCases(t, context);
    FirstInserted(n, t, c, x);
    var p := Prepared(t, context);
    InvParts(p);
    DueNow(p, c);
    PickIs(p);
  }

  lemma FirstInserted<T>(n: State<T>, t: State<T>, c: T, x: T)
    requires Known(n) && n.sleepers != [] && n.sleepers[0] == x && t == n.(ticks := n.ticks + 1)
    requires n.cur == Some(c) && x in n.wakeup && c in n.wakeup && n.wakeup[c] <= n.wakeup[x] < n.ticks
    ensures Known(t) && Inserted(t.sleepers, t.wakeup, c) == [c] + n.sleepers && (c in n.status ==> !Keeps(t))
  {}

  lemma DueNow<T>(p: State<T>, c: T)
    requires Known(p) && p.sleepers != [] && p.sleepers[0] == c && c in p.wakeup && p.wakeup[c] <= p.ticks
    ensures Due(p)
  {}

  /** The same for one sleeper: once the ticks have passed its wakeup time, it and those before it are
      dispatched next, in the order of the sleep list, exactly when nobody overtakes them. */
  lemma SleeperRuns<T>(s: State<T>, es: seq<Event<T>>, i: nat)
    requires Always(s) && Known(s) && i < |s.sleepers| && s.wakeup[s.sleepers[i]] < s.ticks && i < Ticks(es)
    ensures (forall j :: 0 <= j <= i ==> j < |Exec(s, es).1| && Exec(s, es).1[j] == Thread(s.sleepers[j]))
            <==> NotOvertaken(s, es, s.sleepers[..i + 1])
  {
    var q := s.sleepers[..i + 1];
    forall t | t in q ensures t in s.wakeup && s.wakeup[t] < s.ticks {
      var j :| 0 <= j < |q| && q[j] == t;
      assert s.sleepers[j] == t;
    }
    assert Overdue(s, q);
    hide Always, Known, Overdue;
    WakesInTurn(s, es, q);
    ExecTicks(s, es);
  }

  // ---- Sleeping long enough -----------------------------------------------------------------------

  lemma AsleepTick<T>(s: State<T>, context: nat, t: T)
    requires Inv(s) && t in s.sleepers && s.ticks < s.wakeup[t]
    ensures var (n, d) := Schedule(s, context);
            && Inv(n) && t in n.sleepers && n.wakeup == s.wakeup && n.ticks == s.ticks && d != Thread(t)
  {
    ScheduleKeeps(s, context);
    TicksKept(s, context);
    var (n, d) := Schedule(s, context);
    if t !in n.sleepers { NoEarlyWake(s, context, t); }
    DispatchedRuns(s, context);
    assert t !in n.run;
    hide *;
  }

  /** A dispatched thread is runnable and current. */
  lemma DispatchedRuns<T>(s: State<T>, context: nat)
    requires Inv(s)
    ensures var (n, d) := Schedule(s, context); d.Thread? ==> n.cur == Some(d.t) && d.t in n.run
  {
    ScheduleKeeps(s, context);
    ScheduleCases(s, context);
    PreparedIs(s, context);
    var (n, d) := Schedule(s, context);
    assert n.cur.Some? ==> n.cur.value in n.run;
    if !Keeps(s) { PickContext(Prepared(s, context)); }
    hide *;
  }

  lemma TickApplied<T>(s: State<T>, context: nat)
    requires Inv(s)
    ensures var (c, a) := (s.(ticks := s.ticks + 1), Apply(s, Tick(context)));
            && Inv(c) && a == (Schedule(c, context).0, Some(Schedule(c, context).1))
            && a.0.ticks == s.ticks + 1 && a.0.wakeup == s.wakeup
  {
    hide Schedule;
    TickCounted(s);
    TicksKept(s.(ticks := s.ticks + 1), context);
  }

  lemma AsleepStep<T>(s: State<T>, e: Event<T>, t: T)
    requires Always(s) && t in s.sleepers && Apply(s, e).0.ticks < s.wakeup[t]
    ensures var (n, d) := Apply(s, e);
            && t in n.sleepers && t in n.wakeup && n.wakeup[t] == s.wakeup[t] && d != Some(Thread(t))
  {
    if e.Tick? {
      TickApplied(s, e.context);
      AsleepTick(s.(ticks := s.ticks + 1), e.context, t);
      hide *;
    } else {
      hide Distinct, Sorted;
    }
  }

  lemma TicksStep<T>(s: State<T>, e: Event<T>)
    requires Always(s)
    ensures s.ticks <= Apply(s, e).0.ticks
  {
    if e.Tick? {
      TickApplied(s, e.context);
      hide *;
    }
  }

  lemma TicksGrow<T>(s: State<T>, es: seq<Event<T>>)
    requires Always(s)
    ensures s.ticks <= Exec(s, es).0.ticks
    decreases |es|
  {
    if es != [] {
      ExecFirst(s, es);
      TicksStep(s, es[0]);
      var n := Apply(s, es[0]).0;
      assert Exec(s, es).0 == Exec(n, es[1..]).0;
      hide *;
      TicksGrow(n, es[1..]);
    }
  }

  /** No run wakes or dispatches a sleeper before its wakeup time. */
  lemma {:induction false} SleepsUntil<T>(s: State<T>, es: seq<Event<T>>, t: T)
    requires Always(s) && t in s.sleepers && Exec(s, es).0.ticks < s.wakeup[t]
    ensures t in Exec(s, es).0.sleepers && Thread(t) !in Exec(s, es).1
    decreases |es|
  {
    if es != [] {
      ExecFirst(s, es);
      var (n, d) := Apply(s, es[0]);
      assert Exec(s, es).0 == Exec(n, es[1..]).0;
      TicksGrow(n, es[1..]);
      AsleepStep(s, es[0], t);
      hide *;
      SleepsUntil(n, es[1..], t);
    }
  }

  // ---- Round robin --------------------------------------------------------------------------------

  /** Somebody is runnable, the running thread goes on running, and no sleeper falls due within the
      next n ticks. */
  ghost predicate Quiet<T>(s: State<T>, n: nat) {
    && Inv(s) && Settled(s) && Metered(s) && s.run != []
    && (s.sleepers == [] || s.wakeup[s.sleepers[0]] > s.ticks + n)
  }

  /** Where the running thread is on the run list; -1 when there is none. */
  ghost function Position<T>(s: State<T>): (p: int)
    requires Inv(s)
    ensures -1 <= p < |s.run| && (s.cur.Some? ==> 0 <= p && s.run[p] == s.cur.value)
  {
    if s.cur == None then -1 else IndexOf(s.run, s.cur.value)
  }

  ghost function After<T>(s: State<T>): (t: T)
    requires Inv(s) && s.run != []
  {
    var p := Position(s) + 1;
    s.run[if p == |s.run| then 0 else p]
  }

  /** Calls of schedule until the running thread gives up the CPU. */
  ghost function Left<T>(s: State<T>): (n: nat)
    requires Inv(s) && Metered(s)
    ensures 1 <= n <= SCHEDULER_THREAD_TICKS + 1 && (s.sleepers == [] ==> n == 1)
  {
    if s.sleepers == [] || s.cur == None then 1 else SCHEDULER_THREAD_TICKS + 1 - s.used[s.cur.value]
  }

  /** How many dispatches away t is. */
  ghost function Turns<T>(s: State<T>, t: T): (n: nat)
    requires Inv(s) && t in s.run
    ensures 1 <= n <= |s.run|
  {
    var i, p := IndexOf(s.run, t), Position(s);
    if i > p then i - p else i - p + |s.run|
  }

  lemma NextIs<T>(s: State<T>)
    requires Inv(s) && s.run != []
    ensures NextThread(s.run, s.cur) == Some(After(s))
  {}

  lemma QuietKeep<T>(s: State<T>, context: nat, n: nat)
    requires Quiet(s, n + 1) && s.sleepers != [] && s.cur.Some? && s.used[s.cur.value] < SCHEDULER_THREAD_TICKS
    ensures var r := Interrupt(s, context);
            r.1 == Keep && r.0 == s.(ticks := s.ticks + 1, used := s.used[s.cur.value := s.used[s.cur.value] + 1])
  {}

  lemma QuietPick<T>(s: State<T>, context: nat, n: nat)
    requires Quiet(s, n + 1) && !(s.sleepers != [] && s.cur.Some? && s.used[s.cur.value] < SCHEDULER_THREAD_TICKS)
    ensures var r := Interrupt(s, context);
            && r.1 == Thread(After(s)) && r.0.run == s.run && r.0.cur == Some(After(s))
            && r.0.sleepers == s.sleepers && r.0.wakeup == s.wakeup && r.0.ticks == s.ticks + 1
            && After(s) in r.0.used && r.0.used[After(s)] == 0
  {
    NextIs(s);
    var c := s.(ticks := s.ticks + 1);
    ScheduleIs(c, context);
    assert Pick(c.(context := c.context)) == Pick(c);
  }

  /** One interrupt in a quiet time: the running thread is kept while its ticks last, and then the one
      after it on the run list, cyclically, is dispatched. */
  lemma QuietTick<T>(s: State<T>, context: nat, n: nat)
    requires Quiet(s, n + 1)
    ensures var r := Interrupt(s, context);
            && Quiet(r.0, n) && r.0.run == s.run && r.0.sleepers == s.sleepers
            && if Left(s) > 1 then r.1 == Keep && r.0.cur == s.cur && Left(r.0) == Left(s) - 1
               else r.1 == Thread(After(s)) && r.0.cur == Some(After(s))
  {
    TickCounted(s);
    ScheduleKeeps(s.(ticks := s.ticks + 1), context);
    ScheduleMeters(s.(ticks := s.ticks + 1), context);
    if s.sleepers != [] && s.cur.Some? && s.used[s.cur.value] < SCHEDULER_THREAD_TICKS {
      QuietKeep(s, context, n);
    } else {
      QuietPick(s, context, n);
    }
  }

  /** Calls of schedule until t is dispatched. */
  ghost function Budget<T>(s: State<T>, t: T): (n: nat)
    requires Inv(s) && Metered(s) && t in s.run
    ensures s.sleepers == [] ==> n <= |s.run|
    ensures n <= (SCHEDULER_THREAD_TICKS + 1) * |s.run|
  {
    (if s.sleepers == [] then Turns(s, t) - 1 else (SCHEDULER_THREAD_TICKS + 1) * (Turns(s, t) - 1)) + Left(s)
  }

  lemma Distance<T>(s: State<T>, r: State<T>, t: T)
    requires Inv(s) && Inv(r) && r.run == s.run && t in s.run && r.cur == Some(After(s))
    ensures Turns(s, t) == 1 ==> t == After(s)
    ensures Turns(s, t) > 1 ==> Turns(r, t) == Turns(s, t) - 1
  {}

  lemma BudgetStep<T>(s: State<T>, context: nat, n: nat, t: T)
    requires Quiet(s, n + 1) && t in s.run
    ensures var r := Interrupt(s, context);
            Quiet(r.0, n) && t in r.0.run && (r.1 == Thread(t) || Budget(r.0, t) < Budget(s, t))
  {
    QuietTick(s, context, n);
    if Left(s) == 1 { Distance(s, Interrupt(s, context).0, t); }
  }

  /** t is among the first n dispatched. */
  ghost predicate Within<T>(ds: seq<Dispatch<T>>, n: nat, t: T) {
    exists j :: 0 <= j < n && j < |ds| && ds[j] == Thread(t)
  }

  lemma WithinCons<T>(d: Dispatch<T>, ds: seq<Dispatch<T>>, m: nat, n: nat, t: T)
    requires n > 0 && (d == Thread(t) || (m < n && Within(ds, m, t)))
    ensures Within([d] + ds, n, t)
  {
    if d == Thread(t) {
      assert ([d] + ds)[0] == Thread(t);
    } else {
      var j :| 0 <= j < m && j < |ds| && ds[j] == Thread(t);
      assert ([d] + ds)[j + 1] == Thread(t);
    }
  }

  /** While only interrupts arrive and nobody wakes, every runnable thread is dispatched within its
      budget: at most 257 calls for each runnable thread, and one for each when nobody sleeps. */
  lemma {:induction false} RoundRobin<T>(s: State<T>, es: seq<Event<T>>, t: T)
    requires Always(s) && Quiet(s, |es|) && t in s.run
    requires forall e :: e in es ==> e.Tick?
    requires |es| >= Budget(s, t)
    ensures Within(Exec(s, es).1, Budget(s, t), t)
    decreases |es|
  {
    assert es[0] in es;
    ExecFirst(s, es);
    BudgetStep(s, es[0].context, |es| - 1, t);
    var (r, d) := Interrupt(s, es[0].context);
    assert (r, Some(d)) == Apply(s, es[0]) && Budget(s, t) > 0;
    hide *;
    if d != Thread(t) {
      RoundRobin(r, es[1..], t);
      WithinCons(d, Exec(r, es[1..]).1, Budget(r, t), Budget(s, t), t);
    } else {
      WithinCons(d, Exec(r, es[1..]).1, 0, Budget(s, t), t);
    }
  }

  /** In a quiet time the running thread is kept until it has had its calls, and the next call dispatches the
      one after it. */
  lemma {:induction false} KeptFor<T>(s: State<T>, es: seq<Event<T>>, n: nat)
    requires Always(s) && Quiet(s, n + 1) && Left(s) == n + 1 && |es| == n + 1
    requires forall e :: e in es ==> e.Tick?
    ensures var ds := Exec(s, es).1;
            && |ds| == n + 1 && (forall j :: 0 <= j < n ==> ds[j] == Keep) && ds[n] == Thread(After(s))
    decreases n
  {
    hide *;
    QuietParts(s, n);
    assert es[0] in es;
    ExecFirst(s, es);
    KeptStep(s, es[0], n);
    var (r, d) := Apply(s, es[0]);
    var ds := Exec(r, es[1..]).1;
    assert Exec(s, es).1 == [d.value] + ds;
    NoEvents(r, es[1..]);
    if n > 0 {
      QuietParts(r, n - 1);
      KeptFor(r, es[1..], n - 1);
      forall j | 0 <= j < n ensures ([d.value] + ds)[j] == Keep {
        if j > 0 { assert ([d.value] + ds)[j] == ds[j - 1]; }
      }
    }
  }

  lemma QuietParts<T>(s: State<T>, n: nat)
    requires Quiet(s, n + 1)
    ensures Inv(s) && Known(s) && Metered(s) && s.run != []
  {
    hide Distinct, Sorted, Statuses;
  }

  lemma KeptStep<T>(s: State<T>, e: Event<T>, n: nat)
    requires Always(s) && Quiet(s, n + 1) && Left(s) == n + 1 && e.Tick?
    ensures n == 0 ==> Apply(s, e).1 == Some(Thread(After(s)))
    ensures n > 0 ==>
              var (r, d) := Apply(s, e);
              && d == Some(Keep) && Quiet(r, n) && Inv(r) && Metered(r)
              && Left(r) == n && r.run != [] && After(r) == After(s)
  {
    hide *;
    QuietParts(s, n);
    QuietTick(s, e.context, n);
    var (r, d) := Interrupt(s, e.context);
    TickIs(s, e);
    if n > 0 {
      QuietParts(r, n - 1);
      SameAfter(s, r);
    }
  }

  lemma TickIs<T>(s: State<T>, e: Event<T>)
    requires Known(s) && e.Tick?
    ensures Apply(s, e) == (Interrupt(s, e.context).0, Some(Interrupt(s, e.context).1))
  {
    hide Schedule;
  }

  lemma NoEvents<T>(s: State<T>, es: seq<Event<T>>)
    requires Always(s)
    ensures es == [] ==> Exec(s, es).1 == []
  {}

  lemma SameAfter<T>(s: State<T>, r: State<T>)
    requires Inv(s) && Inv(r) && s.run == r.run != [] && s.cur == r.cur
    ensures After(r) == After(s)
  {
    hide Lists, Statuses, IndexOf;
  }

  /** So while somebody sleeps a freshly dispatched thread is kept for 256 calls of schedule, and the 257th
      dispatches the next one on the run list, from the last back to the first. */
  lemma TurnLasts<T>(s: State<T>, es: seq<Event<T>>, i: nat)
    requires Always(s) && Quiet(s, 257) && s.sleepers != [] && |es| == 257 && forall e :: e in es ==> e.Tick?
    requires i < |s.run| && s.cur == Some(s.run[i]) && s.run[i] in s.used && s.used[s.run[i]] == 0
    ensures var ds := Exec(s, es).1;
            && |ds| == 257 && (forall j :: 0 <= j < 256 ==> ds[j] == Keep)
            && ds[256] == Thread(s.run[if i + 1 == |s.run| then 0 else i + 1])
  {
    assert Position(s) == i by { assert Distinct(s.run); }
    assert Left(s) == 257;
    assert After(s) == s.run[if i + 1 == |s.run| then 0 else i + 1];
    hide *;
    KeptFor(s, es, 256);
  }

  // ---- Saved contexts -----------------------------------------------------------------------------

  /** What dispatching does to the saved contexts: nothing, and the thread dispatched is the current one. */
  lemma PickContext<T>(s: State<T>)
    requires Inv(s)
    ensures Pick(s).0.context == s.context
    ensures Pick(s).1 == Idle || (Pick(s).1.Thread? && Pick(s).0.cur == Some(Pick(s).1.t))
  {
    assert s.run == [] ==> s.cur == None;
  }

  lemma RetireContext<T>(s: State<T>, c: T, context: nat)
    requires Inv(s) && s.cur == Some(c)
    ensures Retire(s, c, context).context == s.context[c := context]
  {}

  lemma TickContext<T>(s: State<T>, context: nat, t: T)
    requires Inv(s) && t in s.status && s.cur != Some(t) && Schedule(s, context).1 != Thread(t)
    ensures var n := Schedule(s, context).0; t in n.context && n.context[t] == s.context[t] && n.cur != Some(t)
  {
    ScheduleCases(s, context);
    PreparedIs(s, context);
    if s.cur.Some? {
      CountedKeeps(s, s.cur.value);
      RetireContext(Counted(s, s.cur.value), s.cur.value, context);
    }
    var n := Prepared(s, context);
    assert !Keeps(s) ==> t in n.context && n.context[t] == s.context[t];
    assert Keeps(s) ==> Counted(s, s.cur.value).context == s.context && Counted(s, s.cur.value).cur == s.cur;
    hide *;
    if !Keeps(s) {
      PickContext(n);
      PickIs(n);
    }
  }

  lemma ContextStep<T>(s: State<T>, e: Event<T>, t: T)
    requires Always(s) && t in s.status && s.cur != Some(t) && Apply(s, e).1 != Some(Thread(t))
    ensures var n := Apply(s, e).0;
            t in n.context && n.context[t] == s.context[t] && n.cur != Some(t)
  {
    hide Schedule, Statuses, Sorted, Distinct, Metered;
    if e.Tick? {
      TickCounted(s);
      TickContext(s.(ticks := s.ticks + 1), e.context, t);
      hide *;
    }
  }

  /** An interrupted thread's registers stay as they were saved, whatever happens, until it is
      dispatched again. */
  lemma {:induction false} ContextWaits<T>(s: State<T>, es: seq<Event<T>>, t: T)
    requires Always(s) && t in s.status && s.cur != Some(t) && Thread(t) !in Exec(s, es).1
    ensures var n := Exec(s, es).0; t in n.context && n.context[t] == s.context[t] && n.cur != Some(t)
    decreases |es|
  {
    if es != [] {
      ApplyKeeps(s, es[0]);
      hide Apply, Statuses, Lists, Metered;
      var (n, d) := Apply(s, es[0]);
      assert d.Some? ==> d.value in Exec(s, es).1;
      ContextStep(s, es[0], t);
      assert t in n.status;
      ContextWaits(n, es[1..], t);
    }
  }

  /** The registers saved are those of the interrupt that ended the thread's turn. */
  lemma ContextSaved<T>(s: State<T>, context: nat, c: T)
    requires Always(s) && s.cur == Some(c) && Apply(s, Tick(context)).1 != Some(Keep)
    ensures var n := Apply(s, Tick(context)).0; c in n.context && n.context[c] == context
  {
    var t := s.(ticks := s.ticks + 1);
    TickApplied(s, context);
    ScheduleCases(t, context);
    PreparedIs(t, context);
    CountedKeeps(t, c);
    RetireContext(Counted(t, c), c, context);
    PickContext(Prepared(t, context));
    hide Schedule, Retire, Counted, Pick, Lists, Statuses, Kept;
  }

  // ---- Sleeping and dying -------------------------------------------------------------------------

  /** A thread that asks to sleep for ms ticks is not dispatched before they have passed, whatever happens
      meanwhile, unless the sum wraps. */
  lemma SleepLasts<T>(s: State<T>, ms: nat, context: nat, es: seq<Event<T>>, t: T)
    requires Always(s) && s.cur == Some(t) && s.ticks + ms < TWO_64
    requires Exec(s, [SleepFor(ms), Tick(context)] + es).0.ticks < s.ticks + ms
    ensures Thread(t) !in Exec(s, [SleepFor(ms), Tick(context)] + es).1
  {
    var all := [SleepFor(ms), Tick(context)] + es;
    var n := Apply(s, all[0]).0;
    DeadlineIs(s.ticks, ms);
    AskedToSleep(s, n, ms, t);
    ExecFirst(s, all);
    assert all[1..][1..] == es;
    ExecFirst(n, all[1..]);
    var (m, d) := Apply(n, Tick(context));
    assert Exec(s, all).0 == Exec(n, all[1..]).0;
    assert Exec(n, all[1..]).0 == Exec(m, es).0;
    TicksGrow(m, es);
    PutToSleep(n, context, t);
    hide *;
    SleepsUntil(m, es, t);
  }

  lemma AskedToSleep<T>(s: State<T>, n: State<T>, ms: nat, t: T)
    requires Always(s) && s.cur == Some(t) && n == Apply(s, SleepFor(ms)).0
    ensures n.cur == Some(t) && t in n.status && n.status[t] == SLEEP && t in n.wakeup
    ensures n.wakeup[t] == Deadline(s.ticks, ms) && n.ticks == s.ticks
    ensures Apply(s, SleepFor(ms)).1 == None
  {
    hide Deadline;
  }

  lemma PutToSleep<T>(n: State<T>, context: nat, t: T)
    requires Always(n) && n.cur == Some(t) && n.status[t] == SLEEP
    requires Apply(n, Tick(context)).0.ticks < n.wakeup[t]
    ensures var (m, d) := Apply(n, Tick(context));
            && t in m.sleepers && t in m.wakeup && m.wakeup[t] == n.wakeup[t] && d != Some(Thread(t))
  {
    var c := n.(ticks := n.ticks + 1);
    var (m, d) := Apply(n, Tick(context));
    var p := Prepared(c, context);
    AlwaysParts(n);
    ApplyKeeps(n, Tick(context));
    TickApplied(n, context);
    NotKept(c, t);
    PreparedIs(c, context);
    hide *;
    AlwaysParts(m);
    ScheduleCases(c, context);
    DispatchedRuns(c, context);
    InvParts(p);
    PickIs(p);
    StillAsleep(p, t);
    if d == Some(Thread(t)) { OnOneList(m, t); }
  }

  lemma NotKept<T>(s: State<T>, t: T)
    requires Known(s) && s.cur == Some(t) && s.status[t] == SLEEP
    ensures !Keeps(s) && t in Inserted(s.sleepers, s.wakeup, t)
  {}

  lemma StillAsleep<T>(p: State<T>, t: T)
    requires Known(p) && t in p.sleepers && p.wakeup[t] > p.ticks
    ensures p.sleepers != [] && (Due(p) ==> p.sleepers[0] != t && t in p.sleepers[1..])
  {
    var i :| 0 <= i < |p.sleepers| && p.sleepers[i] == t;
    if i > 0 { assert p.sleepers[1..][i - 1] == t; }
  }

  lemma OnOneList<T>(s: State<T>, t: T)
    requires Inv(s)
    ensures !(t in s.run && t in s.sleepers)
  {
    hide Statuses, Sorted, Distinct;
  }

  /** On no list and not running. */
  ghost predicate Gone<T>(s: State<T>, t: T) {
    t in s.status && t !in s.run && t !in s.sleepers && s.cur != Some(t)
  }

  /** A dead thread stays dead: no run dispatches it. */
  lemma {:induction false} DeadStays<T>(s: State<T>, es: seq<Event<T>>, t: T)
    requires Always(s) && Gone(s, t)
    ensures Gone(Exec(s, es).0, t) && Thread(t) !in Exec(s, es).1
    decreases |es|
  {
    if es != [] {
      ExecFirst(s, es);
      var (n, d) := Apply(s, es[0]);
      assert Exec(s, es).0 == Exec(n, es[1..]).0;
      GoneStep(s, es[0], t);
      hide *;
      DeadStays(n, es[1..], t);
    }
  }

  lemma GoneStep<T>(s: State<T>, e: Event<T>, t: T)
    requires Always(s) && Gone(s, t)
    ensures var (n, d) := Apply(s, e); Gone(n, t) && d != Some(Thread(t))
  {
    if e.Tick? {
      TickApplied(s, e.context);
      GoneTick(s.(ticks := s.ticks + 1), e.context, t);
      hide *;
    } else {
      hide Distinct, Sorted, Statuses, Metered;
    }
  }

  lemma GoneTick<T>(s: State<T>, context: nat, t: T)
    requires Inv(s) && Gone(s, t)
    ensures var (n, d) := Schedule(s, context); Gone(n, t) && d != Thread(t)
  {
    ScheduleIs(s, context);
    DispatchedRuns(s, context);
    hide Schedule, Pick, Retire, Statuses, Lists;
    if s.cur.Some? {
      GoneRetire(s, s.cur.value, context, t);
      GonePick(Retire(Counted(s, s.cur.value), s.cur.value, context), t);
    } else {
      GonePick(s, t);
    }
  }

  lemma GoneRetire<T>(s: State<T>, c: T, context: nat, t: T)
    requires Known(s) && s.cur == Some(c) && Gone(s, t)
    ensures Known(Counted(s, c)) && Gone(Counted(s, c), t) && Gone(Retire(Counted(s, c), c, context), t)
  {}

  lemma GonePick<T>(s: State<T>, t: T)
    requires Known(s) && Gone(s, t)
    ensures Gone(Pick(s).0, t)
  {}

  /** A thread that asks to die is gone at the next interrupt, for good. */
  lemma DieIsForever<T>(s: State<T>, context: nat, es: seq<Event<T>>, t: T)
    requires Always(s) && s.cur == Some(t)
    ensures Thread(t) !in Exec(s, [Die, Tick(context)] + es).1
  {
    var all := [Die, Tick(context)] + es;
    var n := Apply(s, all[0]).0;
    AskedToDie(s, n, t);
    ExecFirst(s, all);
    assert all[1..][1..] == es;
    ExecFirst(n, all[1..]);
    var (m, d) := Apply(n, Tick(context));
    Dies(n, context, t);
    hide *;
    DeadStays(m, es, t);
  }

  lemma AskedToDie<T>(s: State<T>, n: State<T>, t: T)
    requires Always(s) && s.cur == Some(t) && n == Apply(s, Die).0
    ensures n.cur == Some(t) && t in n.status && n.status[t] == DEAD && Apply(s, Die).1 == None
  {}

  lemma Dies<T>(n: State<T>, context: nat, t: T)
    requires Always(n) && n.cur == Some(t) && n.status[t] == DEAD
    ensures var (m, d) := Apply(n, Tick(context)); Gone(m, t) && d != Some(Thread(t))
  {
    var c := n.(ticks := n.ticks + 1);
    AlwaysParts(n);
    TickApplied(n, context);
    ScheduleIs(c, context);
    DispatchedRuns(c, context);
    DeadRetired(c, t, context);
    hide Schedule, Retire, Counted, Pick, Statuses, Lists, Known;
    GonePick(Retire(Counted(c, t), t, context), t);
  }

  lemma DeadRetired<T>(s: State<T>, t: T, context: nat)
    requires Inv(s) && s.cur == Some(t) && s.status[t] == DEAD
    ensures Known(Counted(s, t)) && Known(Retire(Counted(s, t), t, context)) && !Kept(s, t) && s.run != []
    ensures Gone(Retire(Counted(s, t), t, context), t)
  {
    RemovedIs(s.run, t);
  }
}
