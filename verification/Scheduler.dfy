/** src/kernel/scheduler/scheduler.c on one CPU: threads linked through one next field into a run list
    and a sleep list, changed in place, each operation proved to do what SchedulerSpec says. */
module Scheduler {
  import S = SchedulerSpec
  import opened Options

  type Status = S.Status

  /** thread_t, with its saved registers as one value. */
  class Thread {
    var status: Status
    var used: nat
    var ef: nat
    var wakeupTime: nat
    var next: Thread?

    /** create_thread. */
    constructor (context: nat)
      ensures status == S.NEW && used == 0 && ef == context && wakeupTime == 0 && next == null
    {
      status, used, ef, wakeupTime, next := S.NEW, 0, context, 0, null;
    }
  }

  /** The thread after position i of a list; null after the last. */
  ghost function At(ts: seq<Thread>, i: nat): Thread? {
    if i < |ts| then ts[i] else null
  }

  /** ts is the list that starts at head. */
  ghost predicate Chain(head: Thread?, ts: seq<Thread>)
    reads ts`next
  {
    head == At(ts, 0) && forall i {:trigger ts[i].next} :: 0 <= i < |ts| ==> ts[i].next == At(ts, i + 1)
  }

  ghost function Maybe(t: Thread?): Option<Thread> {
    if t == null then None else var u: Thread := t; Some(u)
  }

  lemma AtIs(ts: seq<Thread>, i: nat)
    ensures At(ts, i) == if i < |ts| then ts[i] else null
  {}

  lemma ChainTail(head: Thread?, ts: seq<Thread>)
    requires Chain(head, ts) && ts != []
    ensures Chain(ts[0].next, ts[1..])
  {
    forall i | 0 <= i < |ts[1..]| ensures ts[1..][i].next == At(ts[1..], i + 1) {
      assert ts[1..][i] == ts[i + 1] && At(ts[1..], i + 1) == At(ts, i + 2);
    }
  }

  /** Once the link to position i of ts leads past it, the rest is linked. */
  lemma ChainWithout(head: Thread?, ts: seq<Thread>, i: nat)
    requires i < |ts| && head == (if i == 0 then At(ts, 1) else ts[0])
    requires forall j :: 0 <= j < |ts| && j + 1 != i ==> ts[j].next == At(ts, j + 1)
    requires i > 0 ==> ts[i - 1].next == At(ts, i + 1)
    ensures Chain(head, ts[..i] + ts[i + 1..])
  {
    var l := ts[..i] + ts[i + 1..];
    forall j | 0 <= j < |l| ensures l[j].next == At(l, j + 1) {
      var k := if j < i then j else j + 1;
      assert l[j] == ts[k];
      assert At(l, j + 1) == At(ts, if j + 1 < i then j + 1 else j + 2);
    }
  }

  /** With t linked in between positions i - 1 and i of ts, the longer list is linked. */
  lemma ChainWith(head: Thread?, ts: seq<Thread>, t: Thread, i: nat)
    requires i <= |ts| && t.next == At(ts, i) && head == (if i == 0 then t else ts[0])
    requires forall j :: 0 <= j < |ts| && j + 1 != i ==> ts[j].next == At(ts, j + 1)
    requires i > 0 ==> ts[i - 1].next == t
    ensures Chain(head, ts[..i] + [t] + ts[i..])
  {
    var l := ts[..i] + [t] + ts[i..];
    forall j | 0 <= j < |l| ensures l[j].next == At(l, j + 1) {
      if j < i {
        assert l[j] == ts[j] && At(l, j + 1) == if j + 1 == i then t else At(ts, j + 1);
      } else if j == i {
        assert l[j] == t && At(l, j + 1) == At(ts, j);
      } else {
        assert l[j] == ts[j - 1] && At(l, j + 1) == At(ts, j);
      }
    }
  }

  lemma ChainCons(t: Thread, ts: seq<Thread>)
    requires Chain(t.next, ts)
    ensures Chain(t, [t] + ts)
  {
    var l := [t] + ts;
    forall i | 0 <= i < |l| ensures l[i].next == At(l, i + 1) {
      if i > 0 { assert l[i] == ts[i - 1] && At(l, i + 1) == At(ts, i); }
    }
  }

  lemma {:induction false} RemovedAt<T>(list: seq<T>, t: T, i: nat)
    requires i <= |list| && (forall j :: 0 <= j < i ==> list[j] != t) && (i < |list| ==> list[i] == t)
    ensures S.Removed(list, t) == if i < |list| then list[..i] + list[i + 1..] else list
  {
    if i > 0 {
      var rest := list[1..];
      assert S.Removed(list, t) == [list[0]] + S.Removed(rest, t);
      RemovedAt(rest, t, i - 1);
      hide S.Removed;
      assert list == [list[0]] + rest;
      if i < |list| { CutCons(list, i); }
    }
  }

  lemma CutCons<T>(list: seq<T>, i: nat)
    requires 0 < i < |list|
    ensures list[..i] + list[i + 1..] == [list[0]] + (list[1..][..i - 1] + list[1..][i..])
  {}

  lemma JoinCons<T>(list: seq<T>, t: T, i: nat)
    requires 0 < i <= |list|
    ensures list[..i] + [t] + list[i..] == [list[0]] + (list[1..][..i - 1] + [t] + list[1..][i - 1..])
  {}

  lemma {:induction false} InsertedAt<T>(list: seq<T>, wakeup: map<T, nat>, t: T, i: nat)
    requires t in wakeup && forall x :: x in list ==> x in wakeup
    requires i <= |list| && (forall j :: 0 <= j < i ==> wakeup[list[j]] < wakeup[t])
    requires i < |list| ==> wakeup[list[i]] >= wakeup[t]
    ensures S.Inserted(list, wakeup, t) == list[..i] + [t] + list[i..]
  {
    if i > 0 {
      var rest := list[1..];
      assert wakeup[list[0]] < wakeup[t];
      assert S.Inserted(list, wakeup, t) == [list[0]] + S.Inserted(rest, wakeup, t);
      InsertedAt(rest, wakeup, t, i - 1);
      hide *;
      JoinCons(list, t, i);
    } else {
      assert list[..0] + [t] + list[0..] == [t] + list;
    }
  }

  lemma OthersDiffer<T>(ts: seq<T>, i: nat)
    requires i <= |ts| && S.Distinct(ts)
    ensures i > 0 ==> forall j :: 0 <= j < |ts| && j + 1 != i ==> ts[j] != ts[i - 1]
  {}

  lemma DistinctWith<T>(ts: seq<T>, t: T, i: nat)
    requires i <= |ts| && S.Distinct(ts) && t !in ts
    ensures S.Distinct(ts[..i] + [t] + ts[i..])
    ensures forall x :: x in ts[..i] + [t] + ts[i..] <==> x == t || x in ts
  {
    var l := ts[..i] + [t] + ts[i..];
    assert forall j :: 0 <= j < |l| ==> l[j] == if j < i then ts[j] else if j == i then t else ts[j - 1];
    forall x | x in ts ensures x in l {
      var j :| 0 <= j < |ts| && ts[j] == x;
      assert l[if j < i then j else j + 1] == x;
    }
    assert l[i] == t;
  }

  /** The lists hold known threads, share none and repeat none. */
  ghost predicate Members<T>(run: seq<T>, sleepers: seq<T>, known: set<T>) {
    && (forall t :: t in run ==> t in known) && (forall t :: t in sleepers ==> t in known)
    && S.Distinct(run) && S.Distinct(sleepers) && (forall t :: t in run ==> t !in sleepers)
  }

  lemma MembersRemoved<T>(run: seq<T>, sleepers: seq<T>, known: set<T>, t: T, i: nat)
    requires Members(run, sleepers, known)
    requires i <= |run| && (forall j :: 0 <= j < i ==> run[j] != t) && (i < |run| ==> run[i] == t)
    ensures Members(S.Removed(run, t), sleepers, known) && t !in S.Removed(run, t)
    ensures S.Removed(run, t) == if i < |run| then run[..i] + run[i + 1..] else run
  {
    S.RemovedFrom(run, t);
    RemovedAt(run, t, i);
  }

  lemma MembersInserted<T>(run: seq<T>, sleepers: seq<T>, known: set<T>, t: T, i: nat)
    requires Members(run, sleepers, known) && i <= |sleepers| && t in known && t !in run && t !in sleepers
    ensures Members(run, sleepers[..i] + [t] + sleepers[i..], known)
  {
    DistinctWith(sleepers, t, i);
    hide S.Distinct;
  }

  lemma MembersAdded<T>(run: seq<T>, sleepers: seq<T>, known: set<T>, t: T)
    requires Members(run, sleepers, known) && t !in known
    ensures Members(run, sleepers, known + {t}) && Members([t] + run, sleepers, known + {t})
  {
    assert forall x :: x in [t] + run <==> x == t || x in run;
  }

  lemma MembersWoken<T>(run: seq<T>, sleepers: seq<T>, known: set<T>)
    requires Members(run, sleepers, known) && sleepers != []
    ensures var t := sleepers[0];
            && t in known && t !in run && t !in sleepers[1..] && (forall x :: x in sleepers ==> x !in run)
            && Members([t] + run, sleepers[1..], known)
  {
    var t, rest := sleepers[0], sleepers[1..];
    assert forall x :: x in sleepers <==> x == t || x in rest;
    assert forall x :: x in [t] + run <==> x == t || x in run;
    assert forall i :: 0 <= i < |rest| ==> rest[i] == sleepers[i + 1];
  }

  lemma InvIs(s: S.State<Thread>)
    requires S.Inv(s)
    ensures S.Known(s) && (s.cur.Some? ==> s.cur.value in s.run)
  {}

  lemma AlwaysKnown(s: S.State<Thread>)
    requires S.Always(s)
    ensures S.Known(s)
  {}

  lemma ScheduleSplits(s: S.State<Thread>, status: nat)
    requires S.Inv(s)
    ensures S.Known(s) && S.Inv(S.Prepared(s, status))
    ensures s.run == [] && s.sleepers == [] ==> S.Schedule(s, status) == (s, S.Idle)
    ensures s.cur == None ==> !S.Keeps(s) && S.Prepared(s, status) == s
    ensures if S.Keeps(s) then S.Schedule(s, status) == (S.Counted(s, s.cur.value), S.Keep)
            else S.Known(S.Prepared(s, status)) && S.Schedule(s, status) == S.Pick(S.Prepared(s, status))
    ensures forall t :: t in s.run || t in s.sleepers ==> t in s.status
    ensures s.cur.Some? ==> s.cur.value in s.run
  {
    S.ScheduleCases(s, status);
    S.PreparedIs(s, status);
    S.ScheduleIs(s, status);
  }

  lemma TickSplits(s: S.State<Thread>, status: nat)
    requires S.Always(s)
    ensures var c := s.(ticks := s.ticks + 1);
            && S.Inv(c) && S.Apply(s, S.Tick(status)) == (S.Schedule(c, status).0, Some(S.Schedule(c, status).1))
            && S.Always(S.Apply(s, S.Tick(status)).0)
  {
    S.TickApplied(s, status);
    S.ApplyKeeps(s, S.Tick(status));
  }

  lemma KeepSplits(s: S.State<Thread>, c: Thread, status: nat)
    requires S.Inv(s) && s.cur == Some(c)
    ensures S.Known(s) && S.Keeps(s) == S.Kept(s, c)
    ensures var n := S.Counted(s, c);
            && S.Inv(n) && S.Known(n) && n.cur == Some(c) && c in n.run && S.Inv(S.Retire(n, c, status))
            && S.Prepared(s, status) == S.Retire(n, c, status)
  {
    S.CountedKeeps(s, c);
    S.RetireKeeps(S.Counted(s, c), c, status);
    InvIs(S.Counted(s, c));
  }

  lemma SleepSplits(s: S.State<Thread>, ms: nat)
    requires S.Always(s) && s.cur.Some?
    ensures var c := s.cur.value;
            && c in s.run && c in s.status && c in s.wakeup
            && S.SleepSyscall(s, ms) ==
               s.(status := s.status[c := S.SLEEP], wakeup := s.wakeup[c := S.Deadline(s.ticks, ms)])
    ensures S.Always(S.SleepSyscall(s, ms)) && S.Apply(s, S.SleepFor(ms)) == (S.SleepSyscall(s, ms), None)
  {
    S.SleepKeeps(s, ms);
  }

  lemma DeadSplits(s: S.State<Thread>)
    requires S.Always(s) && s.cur.Some?
    ensures s.cur.value in s.run && S.DeadSyscall(s) == s.(status := s.status[s.cur.value := S.DEAD])
    ensures S.Always(S.DeadSyscall(s)) && S.Apply(s, S.Die) == (S.DeadSyscall(s), None)
  {
    S.DeadKeeps(s);
  }

  lemma PickSplits(s: S.State<Thread>)
    requires S.Known(s)
    ensures S.Pick(s) == if S.Due(s) then (S.Ready(S.Woken(s), s.sleepers[0]), S.Dispatch.Thread(s.sleepers[0]))
                         else match S.NextThread(s.run, s.cur)
                              case Some(t) => (S.Ready(s, t), S.Dispatch.Thread(t))
                              case None => (s, S.Idle)
  {}

  lemma KeptIs(s: S.State<Thread>, c: Thread)
    requires S.Known(s) && c in s.status
    ensures c in s.used
    ensures s.sleepers == [] || S.Due(s) ==> S.Counted(s, c) == s && !S.Kept(s, c)
    ensures s.sleepers != [] && !S.Due(s) ==>
              && S.Counted(s, c) == s.(used := s.used[c := s.used[c] + 1])
              && S.Kept(s, c) == (s.used[c] < S.SCHEDULER_THREAD_TICKS && s.status[c] != S.DEAD && s.status[c] != S.SLEEP)
  {}

  lemma WokenIs(s: S.State<Thread>)
    ensures s.sleepers != [] ==> S.Woken(s) == s.(run := [s.sleepers[0]] + s.run, sleepers := s.sleepers[1..])
  {}

  class Cpu {
    var threads: Thread?
    var wakeups: Thread?
    var cur: Thread?
    var ticks: nat
    var numThreads: nat
    const idle: Thread
    ghost var run: seq<Thread>
    ghost var sleepers: seq<Thread>
    ghost var known: set<Thread>

    ghost function StatusOf(): map<Thread, Status>
      reads `known, known`status
    {
      map t | t in known :: t.status
    }

    ghost function UsedOf(): map<Thread, nat>
      reads `known, known`used
    {
      map t | t in known :: t.used
    }

    ghost function WakeupOf(): map<Thread, nat>
      reads `known, known`wakeupTime
    {
      map t | t in known :: t.wakeupTime
    }

    ghost function ContextOf(): map<Thread, nat>
      reads `known, known`ef
    {
      map t | t in known :: t.ef
    }

    lemma FieldsOf(t: Thread)
      requires t in known
      ensures t in StatusOf() && StatusOf()[t] == t.status && t in UsedOf() && UsedOf()[t] == t.used
      ensures t in WakeupOf() && WakeupOf()[t] == t.wakeupTime && t in ContextOf() && ContextOf()[t] == t.ef
    {}

    twostate lemma StatusSet(t: Thread)
      requires known == old(known) && forall x :: x in known && x != t ==> x.status == old(x.status)
      ensures StatusOf() == if t in known then old(StatusOf())[t := t.status] else old(StatusOf())
    {}

    twostate lemma UsedSet(t: Thread)
      requires known == old(known) && forall x :: x in known && x != t ==> x.used == old(x.used)
      ensures UsedOf() == if t in known then old(UsedOf())[t := t.used] else old(UsedOf())
    {}

    twostate lemma WakeupSet(t: Thread)
      requires known == old(known) && forall x :: x in known && x != t ==> x.wakeupTime == old(x.wakeupTime)
      ensures WakeupOf() == if t in known then old(WakeupOf())[t := t.wakeupTime] else old(WakeupOf())
    {}

    twostate lemma ContextSet(t: Thread)
      requires known == old(known) && forall x :: x in known && x != t ==> x.ef == old(x.ef)
      ensures ContextOf() == if t in known then old(ContextOf())[t := t.ef] else old(ContextOf())
    {}

    /** What the CPU's lists and threads mean. */
    ghost function Abs(): S.State<Thread>
      reads `run, `sleepers, `cur, `ticks, `known, known`status, known`used, known`wakeupTime, known`ef
    {
      S.State(run, sleepers, Maybe(cur), ticks,
              StatusOf(), UsedOf(), WakeupOf(), ContextOf())
    }

    lemma AbsIs()
      ensures Abs().run == run && Abs().sleepers == sleepers && Abs().cur == Maybe(cur) && Abs().ticks == ticks
      ensures cur == null ==> Abs().cur == None
      ensures cur != null ==> var c: Thread := cur; Abs().cur == Some(c)
      ensures Abs().status == StatusOf() && Abs().used == UsedOf()
      ensures Abs().wakeup == WakeupOf() && Abs().context == ContextOf()
    {
      hide StatusOf, UsedOf, WakeupOf, ContextOf;
    }

    /** The lists are linked as run and sleepers say, share no thread, and leave the idle thread out. */
    ghost predicate Shape()
      reads `run, `sleepers, `known, `threads, `wakeups, known`next
    {
      && idle !in known && Members(run, sleepers, known)
      && Chain(threads, run) && Chain(wakeups, sleepers)
    }

    lemma ShapeIs()
      requires Shape()
      ensures idle !in known && (forall t :: t in run ==> t in known) && (forall t :: t in sleepers ==> t in known)
      ensures (threads == null <==> run == []) && (wakeups == null <==> sleepers == [])
    {}

    lemma CurrentKnown()
      requires S.Known(Abs()) && cur != null
      ensures cur in known
    {}

    lemma DueIs()
      requires Shape() && S.Known(Abs())
      ensures S.Due(Abs()) == (wakeups != null && wakeups.wakeupTime <= ticks)
      ensures wakeups != null ==> sleepers != [] && wakeups == sleepers[0] && wakeups in known
    {
      AbsIs();
      if wakeups != null {
        assert wakeups in sleepers;
        FieldsOf(wakeups);
      }
      hide Chain, Abs;
    }

    constructor (idle: Thread)
      ensures Shape() && Abs() == S.Start() && this.idle == idle && known == {}
    {
      threads, wakeups, cur, ticks, numThreads := null, null, null, 0, 0;
      this.idle := idle;
      run, sleepers, known := [], [], {};
    }

    /** The search of scheduler_remove_thread: where t is on the run list, and what comes before it. */
    method FindThread(t: Thread) returns (item: Thread?, prev: Thread?, ghost i: nat)
      requires Chain(threads, run)
      ensures i <= |run| && item == At(run, i) && (i < |run| ==> item == t)
      ensures prev == (if i == 0 then null else run[i - 1]) && forall j :: 0 <= j < i ==> run[j] != t
    {
      item, prev, i := threads, null, 0;
      while item != null && item != t
        invariant i <= |run| && item == At(run, i) && prev == (if i == 0 then null else run[i - 1])
        invariant forall j :: 0 <= j < i ==> run[j] != t
        decreases |run| - i
      {
        prev := item;
        item := item.next;
        i := i + 1;
      }
    }

    lemma ShapeParts()
      requires Shape()
      ensures idle !in known && Members(run, sleepers, known) && Chain(threads, run) && Chain(wakeups, sleepers)
      ensures S.Distinct(run) && S.Distinct(sleepers) && forall x :: x in sleepers ==> x !in run && x in known
    {
      hide Chain, S.Distinct;
    }

    lemma MakeShape()
      requires idle !in known && Members(run, sleepers, known) && Chain(threads, run) && Chain(wakeups, sleepers)
      ensures Shape()
    {
      hide Chain, Members;
    }

    /** Links past position i of the run list. */
    method Unlink(item: Thread, prev: Thread?, ghost i: nat)
      requires Chain(threads, run) && S.Distinct(run)
      requires i < |run| && item == run[i] && prev == (if i == 0 then null else run[i - 1])
      requires Chain(wakeups, sleepers) && forall x :: x in sleepers ==> x !in run
      modifies `threads, run`next
      ensures Chain(threads, run[..i] + run[i + 1..]) && Chain(wakeups, sleepers)
    {
      OthersDiffer(run, i);
      hide S.Distinct;
      assert prev != null ==> prev in run;
      assert forall k :: 0 <= k < |sleepers| ==> sleepers[k] in sleepers && sleepers[k] != prev;
      if item == threads {
        threads := item.next;
      } else {
        prev.next := item.next;
      }
      ChainWithout(threads, run, i);
    }

    /** Takes the thread at position i off the run list. */
    method TakeOff(item: Thread, prev: Thread?, ghost i: nat)
      requires Shape() && i < |run| && item == run[i] && prev == (if i == 0 then null else run[i - 1])
      requires Members(run[..i] + run[i + 1..], sleepers, known)
      modifies `threads, `run, run`next
      ensures Shape() && run == old(run[..i] + run[i + 1..])
    {
      hide *;
      ShapeParts();
      Unlink(item, prev, i);
      run := run[..i] + run[i + 1..];
      MakeShape();
    }

    /** scheduler_remove_thread, on the run list, its only use. */
    method RemoveThread(t: Thread)
      requires Shape()
      modifies `threads, `run, run`next
      ensures Shape() && run == S.Removed(old(run), t) && t !in run
    {
      hide *;
      ShapeParts();
      var item, prev, i := FindThread(t);
      AtIs(run, i);
      MembersRemoved(run, sleepers, known, t, i);
      if item != null {
        TakeOff(item, prev, i);
      }
    }

    /** The search for a sleeper's place: before the first that wakes no earlier. */
    method FindPlace(t: Thread) returns (item: Thread?, prev: Thread?, ghost i: nat)
      requires Chain(wakeups, sleepers)
      ensures i <= |sleepers| && item == At(sleepers, i) && prev == (if i == 0 then null else sleepers[i - 1])
      ensures i < |sleepers| ==> sleepers[i].wakeupTime >= t.wakeupTime
      ensures forall j :: 0 <= j < i ==> sleepers[j].wakeupTime < t.wakeupTime
    {
      prev, item, i := null, wakeups, 0;
      while item != null && item.wakeupTime < t.wakeupTime
        invariant i <= |sleepers| && item == At(sleepers, i) && prev == (if i == 0 then null else sleepers[i - 1])
        invariant forall j :: 0 <= j < i ==> sleepers[j].wakeupTime < t.wakeupTime
        decreases |sleepers| - i
      {
        prev := item;
        item := item.next;
        i := i + 1;
      }
    }

    /** Links t in before position i of the sleep list. */
    method Link(t: Thread, item: Thread?, prev: Thread?, ghost i: nat)
      requires Chain(wakeups, sleepers) && S.Distinct(sleepers) && t !in sleepers
      requires i <= |sleepers| && item == At(sleepers, i) && prev == (if i == 0 then null else sleepers[i - 1])
      requires Chain(threads, run) && t !in run && forall x :: x in run ==> x !in sleepers
      modifies `wakeups, t`next, sleepers`next
      ensures Chain(wakeups, sleepers[..i] + [t] + sleepers[i..]) && Chain(threads, run)
    {
      OthersDiffer(sleepers, i);
      hide S.Distinct;
      assert prev != null ==> prev in sleepers;
      assert forall k :: 0 <= k < |run| ==> run[k] in run && run[k] != prev && run[k] != t;
      if prev != null {
        prev.next := t;
      } else {
        wakeups := t;
      }
      t.next := item;
      ChainWith(wakeups, sleepers, t, i);
    }

    lemma PlaceIs(t: Thread, i: nat)
      requires t in known && (forall x :: x in sleepers ==> x in known)
      requires i <= |sleepers| && (i < |sleepers| ==> sleepers[i].wakeupTime >= t.wakeupTime)
      requires forall j :: 0 <= j < i ==> sleepers[j].wakeupTime < t.wakeupTime
      ensures forall x :: x in sleepers ==> x in WakeupOf()
      ensures t in WakeupOf() && S.Inserted(sleepers, WakeupOf(), t) == sleepers[..i] + [t] + sleepers[i..]
    {
      InsertedAt(sleepers, WakeupOf(), t, i);
    }

    method Place(t: Thread)
      requires Shape() && t in known && t !in run && t !in sleepers
      modifies `wakeups, `sleepers, t`next, sleepers`next
      ensures Shape() && sleepers == S.Inserted(old(sleepers), old(WakeupOf()), t)
    {
      hide *;
      ShapeParts();
      var item, prev, i := FindPlace(t);
      PlaceIs(t, i);
      MembersInserted(run, sleepers, known, t, i);
      Link(t, item, prev, i);
      sleepers := sleepers[..i] + [t] + sleepers[i..];
      MakeShape();
    }

    /** The insertion of a thread into the sleep list. */
    method InsertSleeper(t: Thread)
      requires Shape() && t in known && t !in run && t !in sleepers
      modifies `wakeups, `sleepers, t`next, sleepers`next
      ensures forall x :: x in old(sleepers) ==> x in known
      ensures Shape() && Abs() == old(Abs()).(sleepers := S.Inserted(old(sleepers), old(WakeupOf()), t))
    {
      hide *;
      ShapeIs();
      AbsIs();
      Place(t);
      AbsIs();
    }

    /** scheduler_add_thread, with no other CPU to choose. */
    method AddThread(t: Thread)
      requires Chain(threads, run) && t !in run
      modifies `threads, `numThreads, `run, t`next
      ensures run == [t] + old(run) && Chain(threads, run) && numThreads == old(numThreads) + 1
      ensures t.next == old(threads)
    {
      numThreads := numThreads + 1;
      t.next := threads;
      threads := t;
      ChainCons(t, run);
      run := [t] + run;
    }

    method NextThread(t: Thread?) returns (r: Thread?)
      requires Shape() && (t != null ==> t in run)
      ensures var n := S.NextThread(run, Maybe(t));
              (r == if n == None then null else n.value) && (r != null ==> r in run)
    {
      if threads == null {
        return null;
      }
      if t == null {
        return threads;
      }
      if t.next == null {
        return threads;
      }
      return t.next;
    }

    method ReadyThread(t: Thread, safety: bool) returns (status: nat)
      modifies `cur, t`status, t`used
      ensures t.status == S.READY && t.used == 0 && status == t.ef
      ensures safety ==> cur == t
      ensures safety && t in known ==> Abs() == S.Ready(old(Abs()), t)
      ensures !safety ==> cur == old(cur)
      ensures !safety && t !in known ==> Abs() == old(Abs())
    {
      hide StatusOf, UsedOf, WakeupOf, ContextOf;
      if safety {
        cur := t;
      }
      t.status := S.READY;
      t.used := 0;
      StatusSet(t);
      UsedSet(t);
      return t.ef;
    }

    /** Saves the registers of the running thread, which is ready unless it is to sleep or die. */
    method SaveCurrent(status: nat)
      requires cur != null && cur in known
      modifies cur`status, cur`ef
      ensures cur.status == if old(cur.status) == S.DEAD || old(cur.status) == S.SLEEP then old(cur.status) else S.READY
      ensures var c: Thread, s := cur, old(Abs());
              Abs() == s.(context := s.context[c := status], status := s.status[c := cur.status])
    {
      hide StatusOf, UsedOf, WakeupOf, ContextOf;
      if cur.status != S.DEAD && cur.status != S.SLEEP {
        cur.status := S.READY;
      }
      cur.ef := status;
      StatusSet(cur);
      ContextSet(cur);
    }

    /** Takes the running thread off the CPU and the run list. */
    method Leave() returns (thread: Thread)
      requires Shape() && cur != null
      modifies `threads, `cur, `run, run`next
      ensures Shape() && thread == old(cur) && thread !in run
      ensures Abs() == old(Abs()).(run := S.Removed(old(run), thread), cur := None)
    {
      hide Shape, S.Removed, StatusOf, UsedOf, WakeupOf, ContextOf;
      thread := cur;
      cur := null;
      RemoveThread(thread);
    }

    /** Saves the running thread, and takes it off the run list if it died or fell asleep. */
    method RetireCurrent(status: nat)
      requires Shape() && S.Known(Abs()) && cur != null && cur in run
      modifies `threads, `wakeups, `cur, `run, `sleepers, run`next, sleepers`next, cur`status, cur`ef
      ensures Shape() && Abs() == S.Retire(old(Abs()), old(cur), status)
    {
      assert cur !in sleepers && cur in known;
      FieldsOf(cur);
      ghost var s := Abs();
      ghost var c: Thread := cur;
      assert s.status[c := s.status[c]] == s.status && s.status[c] == cur.status;
      assert s.run == run && s.sleepers == sleepers && s.wakeup == WakeupOf() && s.cur == Some(c);
      assert S.Retire(s, c, status) ==
        if cur.status == S.DEAD then s.(context := s.context[c := status], run := S.Removed(run, c), cur := None)
        else if cur.status == S.SLEEP then
          s.(context := s.context[c := status], run := S.Removed(run, c), cur := None,
             sleepers := S.Inserted(sleepers, WakeupOf(), c))
        else s.(context := s.context[c := status], status := s.status[c := S.READY]);
      hide Shape, Abs, Chain, Members, S.Known, S.Removed, S.Inserted, StatusOf, UsedOf, WakeupOf, ContextOf, S.Retire;
      SaveCurrent(status);
      if cur.status == S.DEAD {
        var thread := Leave();
      } else if cur.status == S.SLEEP {
        var thread := Leave();
        InsertSleeper(thread);
      }
    }

    /** Moves the first sleeper to the front of the run list. */
    method Wake() returns (t: Thread)
      requires Shape() && wakeups != null
      modifies `threads, `wakeups, `numThreads, `run, `sleepers, sleepers`next
      ensures old(sleepers) != [] && t == old(sleepers[0]) && t in known
      ensures Shape() && run == [t] + old(run) && sleepers == old(sleepers)[1..]
    {
      var nextWakeup := wakeups.next;
      t := wakeups;
      ChainTail(wakeups, sleepers);
      MembersWoken(run, sleepers, known);
      assert sleepers != [] && t == sleepers[0];
      hide Members, Chain;
      AddThread(t);
      wakeups := nextWakeup;
      sleepers := sleepers[1..];
    }

    /** Wakes the first sleeper and makes it current. */
    method Resume() returns (next: nat, t: Thread)
      requires Shape() && wakeups != null
      modifies `threads, `wakeups, `cur, `numThreads, `run, `sleepers
      modifies sleepers`next, known`status, known`used
      ensures old(sleepers) != [] && t == old(sleepers[0]) && next == t.ef
      ensures Shape() && Abs() == S.Ready(S.Woken(old(Abs())), t)
    {
      hide *;
      WokenIs(Abs());
      AbsIs();
      t := Wake();
      AbsIs();
      next := ReadyThread(t, true);
    }

    /** The second half of schedule: a due sleeper, else the next thread, else the idle one. */
    method Pick() returns (next: nat, ghost d: S.Dispatch<Thread>)
      requires Shape() && S.Known(Abs()) && (cur != null ==> cur in run)
      modifies `threads, `wakeups, `cur, `numThreads, `run, `sleepers
      modifies sleepers`next, known`status, known`used, idle`status, idle`used
      ensures Shape() && (Abs(), d) == S.Pick(old(Abs())) && d != S.Keep
      ensures d.Thread? ==> next == d.t.ef
      ensures d == S.Idle ==> next == idle.ef
    {
      ghost var s := Abs();
      hide *;
      PickSplits(s);
      ShapeIs();
      AbsIs();
      DueIs();
      if wakeups != null && wakeups.wakeupTime <= ticks {
        var thread;
        next, thread := Resume();
        d := S.Dispatch.Thread(thread);
        return;
      }
      var thread := NextThread(cur);
      if thread != null {
        next := ReadyThread(thread, true);
        d := S.Dispatch.Thread(thread);
        return;
      }
      next := ReadyThread(idle, false);
      d := S.Idle;
    }

    /** Whether the running thread is kept, and the count of its ticks if the test gets that far. */
    method CountTick() returns (keep: bool)
      requires Shape() && S.Known(Abs()) && cur != null
      modifies cur`used
      ensures Abs() == S.Counted(old(Abs()), cur) && keep == S.Kept(old(Abs()), cur)
    {
      hide *;
      ghost var c: Thread := cur;
      AbsIs();
      ShapeIs();
      DueIs();
      CurrentKnown();
      FieldsOf(c);
      KeptIs(Abs(), c);
      if wakeups == null || wakeups.wakeupTime <= ticks {
        return false;
      }
      var used := cur.used;
      cur.used := used + 1;
      UsedSet(cur);
      AbsIs();
      return used < S.SCHEDULER_THREAD_TICKS && cur.status != S.DEAD && cur.status != S.SLEEP;
    }

    /** The first half of schedule: whether the running thread is kept; if not, it is retired. */
    method KeepCurrent(status: nat) returns (keep: bool)
      requires Shape() && S.Inv(Abs()) && S.Known(Abs()) && cur != null
      modifies `threads, `wakeups, `cur, `run, `sleepers, run`next, sleepers`next, cur`status, cur`ef, cur`used
      ensures Shape() && S.Inv(Abs()) && keep == S.Keeps(old(Abs()))
      ensures keep ==> old(Abs()).cur.Some? && old(Abs()).cur.value in old(Abs()).used
      ensures Abs() == if keep then S.Counted(old(Abs()), old(Abs()).cur.value) else S.Prepared(old(Abs()), status)
    {
      hide *;
      ghost var c: Thread := cur;
      AbsIs();
      KeepSplits(Abs(), c, status);
      keep := CountTick();
      AbsIs();
      if !keep {
        RetireCurrent(status);
      }
    }

    /** schedule, from the policy body on: the registers to go on with. */
    method Schedule(status: nat) returns (next: nat, ghost d: S.Dispatch<Thread>)
      requires Shape() && S.Inv(Abs())
      modifies `threads, `wakeups, `cur, `numThreads, `run, `sleepers
      modifies known, idle`status, idle`used
      ensures Shape() && (Abs(), d) == S.Schedule(old(Abs()), status)
      ensures d.Thread? ==> next == d.t.ef
      ensures d == S.Idle ==> next == idle.ef
      ensures d == S.Keep ==> next == status
    {
      hide *;
      ScheduleSplits(Abs(), status);
      ShapeIs();
      AbsIs();
      if threads == null && wakeups == null {
        next := ReadyThread(idle, false);
        d := S.Idle;
        return;
      }
      if cur != null {
        var keep := KeepCurrent(status);
        if keep {
          next := status;
          d := S.Keep;
          return;
        }
      }
      next, d := PickNext();
    }

    method PickNext() returns (next: nat, ghost d: S.Dispatch<Thread>)
      requires Shape() && S.Inv(Abs())
      modifies `threads, `wakeups, `cur, `numThreads, `run, `sleepers
      modifies known, idle`status, idle`used
      ensures Shape() && (Abs(), d) == S.Pick(old(Abs())) && d != S.Keep
      ensures d.Thread? ==> next == d.t.ef
      ensures d == S.Idle ==> next == idle.ef
    {
      hide *;
      ShapeIs();
      AbsIs();
      InvIs(Abs());
      next, d := Pick();
    }

    /** The state after fields of the current thread were written. */
    twostate lemma CurrentSet()
      requires cur != null && cur in known && cur == old(cur) && run == old(run) && sleepers == old(sleepers)
      requires known == old(known) && ticks == old(ticks)
      requires forall x :: x in known && x != cur ==> x.status == old(x.status) && x.wakeupTime == old(x.wakeupTime)
      requires UsedOf() == old(UsedOf()) && ContextOf() == old(ContextOf())
      ensures Abs() == old(Abs()).(status := old(StatusOf())[cur := cur.status],
                                   wakeup := old(WakeupOf())[cur := cur.wakeupTime])
    {
      hide StatusOf, UsedOf, WakeupOf, ContextOf;
      StatusSet(cur);
      WakeupSet(cur);
    }

    /** thread_sleep_syscall. */
    method SleepSyscall(ms: nat)
      requires Shape() && S.Always(Abs()) && cur != null
      modifies cur`status, cur`wakeupTime
      ensures Shape() && S.Always(Abs()) && (Abs(), None) == S.Apply(old(Abs()), S.SleepFor(ms))
    {
      hide *;
      ShapeIs();
      AbsIs();
      SleepSplits(Abs(), ms);
      cur.status := S.SLEEP;
      cur.wakeupTime := S.Deadline(ticks, ms);
      CurrentSet();
    }

    /** thread_dead_syscall. */
    method DeadSyscall()
      requires Shape() && S.Always(Abs()) && cur != null
      modifies cur`status
      ensures Shape() && S.Always(Abs()) && (Abs(), None) == S.Apply(old(Abs()), S.Die)
    {
      hide *;
      ShapeIs();
      AbsIs();
      DeadSplits(Abs());
      FieldsOf(cur);
      assert WakeupOf()[cur := cur.wakeupTime] == WakeupOf();
      cur.status := S.DEAD;
      CurrentSet();
    }

    /** scheduler_add_thread of a thread that create_thread just made. */
    method AddNew(t: Thread)
      requires Shape() && S.Always(Abs()) && t !in known && t != idle
      requires t.status == S.NEW && t.used == 0 && t.wakeupTime == 0
      modifies `threads, `numThreads, `run, `known, t`next
      ensures Shape() && S.Always(Abs()) && (Abs(), None) == S.Apply(old(Abs()), S.Add(t, t.ef))
      ensures known == old(known) + {t}
    {
      ghost var s := Abs();
      S.AddKeeps(s, t, t.ef);
      assert S.Apply(s, S.Add(t, t.ef)) == (S.AddThread(s, t, S.NEW, 0, 0, t.ef), None);
      hide Shape, StatusOf, UsedOf, WakeupOf, ContextOf, S.Always, S.Apply;
      AddFresh(t);
      KnownGrown(t);
    }

    method AddFresh(t: Thread)
      requires Shape() && t !in known && t != idle
      modifies `threads, `numThreads, `run, `known, t`next
      ensures Shape() && known == old(known) + {t} && run == [t] + old(run)
    {
      MembersAdded(run, sleepers, known, t);
      assert t !in run && t !in sleepers;
      hide Members, Chain;
      known := known + {t};
      AddThread(t);
    }

    twostate lemma KnownGrown(t: Thread)
      requires known == old(known) + {t}
      requires forall x :: x in old(known) && x != t ==>
                 && x.status == old(x.status) && x.used == old(x.used)
                 && x.wakeupTime == old(x.wakeupTime) && x.ef == old(x.ef)
      ensures StatusOf() == old(StatusOf())[t := t.status] && UsedOf() == old(UsedOf())[t := t.used]
      ensures WakeupOf() == old(WakeupOf())[t := t.wakeupTime] && ContextOf() == old(ContextOf())[t := t.ef]
    {}

    /** apic_periodic_handler. */
    method Tick(status: nat) returns (next: nat, ghost d: S.Dispatch<Thread>)
      requires Shape() && S.Always(Abs())
      modifies `threads, `wakeups, `cur, `numThreads, `ticks, `run, `sleepers
      modifies known, idle`status, idle`used
      ensures Shape() && S.Always(Abs()) && (Abs(), Some(d)) == S.Apply(old(Abs()), S.Tick(status))
      ensures d.Thread? ==> next == d.t.ef
      ensures d == S.Idle ==> next == idle.ef
      ensures d == S.Keep ==> next == status
    {
      hide *;
      TickSplits(Abs(), status);
      AbsIs();
      ticks := ticks + 1;
      AbsIs();
      next, d := Schedule(status);
    }

    // ---- Whole runs -----------------------------------------------------------------------------

    /** A thread as create_thread leaves it. */
    ghost predicate New(t: Thread, context: nat)
      reads t
    {
      t != idle && t.status == S.NEW && t.used == 0 && t.wakeupTime == 0 && t.ef == context
    }

    /** One event: a new thread, a system call of the running thread, or an interrupt.  A system call
        with nobody running does not happen. */
    method Step(e: S.Event<Thread>) returns (next: nat, ghost d: Option<S.Dispatch<Thread>>)
      requires Shape() && S.Always(Abs()) && (e.Add? ==> e.t !in known && New(e.t, e.context))
      modifies this, known, idle, Subject(e)
      ensures Shape() && S.Always(Abs()) && (Abs(), d) == S.Apply(old(Abs()), e)
      ensures known == old(known) + Subject(e)
      ensures d == Some(S.Keep) ==> e.Tick? && next == e.context
      ensures d.Some? && d.value.Thread? ==> next == d.value.t.ef
      ensures d == Some(S.Idle) ==> next == idle.ef
    {
      hide *;
      NewIs(e);
      AbsIs();
      AlwaysKnown(Abs());
      if cur != null { CurrentKnown(); } else if e.SleepFor? || e.Die? { NobodyRuns(e); }
      next, d := 0, None;
      match e
      case Add(t, context) => AddNew(t);
      case SleepFor(ms) => if cur != null { SleepSyscall(ms); }
      case Die => if cur != null { DeadSyscall(); }
      case Tick(context) =>
        ghost var what;
        next, what := Tick(context);
        d := Some(what);
    }

    /** Any sequence of events, the threads it adds all new and different: the linked lists go through
        the specified run, and the registers returned by the interrupts are those of what the run
        dispatches. */
    method Run(es: seq<S.Event<Thread>>) returns (ghost ds: seq<S.Dispatch<Thread>>)
      requires Shape() && S.Always(Abs())
      requires forall e :: e in es && e.Add? ==> e.t !in known && New(e.t, e.context)
      requires OnceEach(es)
      modifies this, known, idle, Subjects(es)
      ensures Shape() && S.Always(Abs()) && (Abs(), ds) == S.Exec(old(Abs()), es)
    {
      ds := [];
      ghost var s := Abs();
      StillNew(es, 0);
      ExecFrom(s, es);
      hide *;
      for k := 0 to |es|
        invariant Shape() && S.Always(Abs())
        invariant known <= old(known) + Subjects(es)
        invariant Pending(es, k)
        invariant Continues(S.Exec(s, es), Abs(), ds, es[k..])
      {
        ghost var was := Abs();
        PendingNow(es, k);
        var next, d := StepOn(es, k);
        ContinuesOn(S.Exec(s, es), was, ds, es[k..], Abs(), d);
        ds := if d == None then ds else ds + [d.value];
      }
      Finished(S.Exec(s, es), Abs(), ds);
    }

    /** The threads still to be added are new. */
    ghost predicate Pending(es: seq<S.Event<Thread>>, k: nat)
      reads this, Subjects(es)
    {
      forall j :: k <= j < |es| && es[j].Add? ==> es[j].t !in known && New(es[j].t, es[j].context)
    }

    lemma StillNew(es: seq<S.Event<Thread>>, k: nat)
      requires k <= |es| && forall e :: e in es && e.Add? ==> e.t !in known && New(e.t, e.context)
      ensures Pending(es, k)
    {}

    lemma PendingNow(es: seq<S.Event<Thread>>, k: nat)
      requires k < |es| && Pending(es, k)
      ensures es[k].Add? ==> es[k].t !in known && New(es[k].t, es[k].context)
      ensures Subject(es[k]) <= Subjects(es)
    {
      assert es[k] in es;
    }

    /** One event of a run. */
    method StepOn(es: seq<S.Event<Thread>>, k: nat) returns (next: nat, ghost d: Option<S.Dispatch<Thread>>)
      requires Shape() && S.Always(Abs()) && k < |es| && OnceEach(es) && Pending(es, k)
      modifies this, known, idle, Subject(es[k])
      ensures Shape() && S.Always(Abs()) && (Abs(), d) == S.Apply(old(Abs()), es[k])
      ensures known == old(known) + Subject(es[k]) && Pending(es, k + 1)
    {
      hide *;
      PendingNow(es, k);
      LaterNew(es, k);
      next, d := Step(es[k]);
      MakePending(es, k + 1);
    }

    lemma LaterNew(es: seq<S.Event<Thread>>, k: nat)
      requires k < |es| && OnceEach(es) && Pending(es, k)
      ensures forall j :: k < j < |es| && es[j].Add? ==>
                && es[j].t !in known && es[j].t !in Subject(es[k]) && es[j].t != idle
                && New(es[j].t, es[j].context)
    {}

    lemma MakePending(es: seq<S.Event<Thread>>, k: nat)
      requires forall j :: k <= j < |es| && es[j].Add? ==> es[j].t !in known && New(es[j].t, es[j].context)
      ensures Pending(es, k)
    {}

    lemma NewIs(e: S.Event<Thread>)
      ensures e.Add? && New(e.t, e.context) ==>
                e.t != idle && e.t.status == S.NEW && e.t.used == 0 && e.t.wakeupTime == 0 && e.t.ef == e.context
      ensures Subject(e) == if e.Add? then {e.t} else {}
      ensures known + {} == known
    {}

    lemma NobodyRuns(e: S.Event<Thread>)
      requires S.Known(Abs()) && cur == null && (e.SleepFor? || e.Die?)
      ensures S.Apply(Abs(), e) == (Abs(), None)
    {}
  }

  /** A run whose result is all, with es still to come in state s and ds dispatched so far. */
  ghost predicate Continues(all: (S.State<Thread>, seq<S.Dispatch<Thread>>), s: S.State<Thread>,
                            ds: seq<S.Dispatch<Thread>>, es: seq<S.Event<Thread>>)
  {
    S.Always(s) && all == (S.Exec(s, es).0, ds + S.Exec(s, es).1)
  }

  lemma ExecFrom(s: S.State<Thread>, es: seq<S.Event<Thread>>)
    requires S.Always(s)
    ensures Continues(S.Exec(s, es), s, [], es[0..])
  {
    assert es[0..] == es;
    var ds := S.Exec(s, es).1;
    hide *;
    assert [] + ds == ds;
    ContinuesIs(S.Exec(s, es), s, [], es);
  }

  lemma ContinuesIs(all: (S.State<Thread>, seq<S.Dispatch<Thread>>), s: S.State<Thread>,
                    ds: seq<S.Dispatch<Thread>>, es: seq<S.Event<Thread>>)
    requires S.Always(s)
    ensures Continues(all, s, ds, es) <==> all == (S.Exec(s, es).0, ds + S.Exec(s, es).1)
  {}

  lemma ContinuesOn(all: (S.State<Thread>, seq<S.Dispatch<Thread>>), s: S.State<Thread>, ds: seq<S.Dispatch<Thread>>,
                    es: seq<S.Event<Thread>>, n: S.State<Thread>, d: Option<S.Dispatch<Thread>>)
    requires es != [] && Continues(all, s, ds, es) && S.Always(s) && S.Known(s) && (n, d) == S.Apply(s, es[0])
    ensures Continues(all, n, if d == None then ds else ds + [d.value], es[1..])
  {
    S.ExecFirst(s, es);
    assert S.Exec(s, es).0 == S.Exec(n, es[1..]).0;
    hide *;
    var now, rest := if d == None then ds else ds + [d.value], S.Exec(n, es[1..]).1;
    ContinuesIs(all, s, ds, es);
    ContinuesIs(all, n, now, es[1..]);
    assert ds + S.Exec(s, es).1 == now + rest;
  }

  lemma Finished(all: (S.State<Thread>, seq<S.Dispatch<Thread>>), s: S.State<Thread>, ds: seq<S.Dispatch<Thread>>)
    requires Continues(all, s, ds, [])
    ensures all == (s, ds)
  {
    assert S.Exec(s, []) == (s, []);
    assert ds + [] == ds;
  }

  ghost function Subjects(es: seq<S.Event<Thread>>): (r: set<Thread>)
    ensures forall e :: e in es ==> Subject(e) <= r
  {
    set e | e in es && e.Add? :: e.t
  }

  ghost predicate OnceEach(es: seq<S.Event<Thread>>) {
    forall i, j :: 0 <= i < j < |es| && es[i].Add? && es[j].Add? ==> es[i].t != es[j].t
  }

  /** The thread an event brings. */
  ghost function Subject(e: S.Event<Thread>): set<Thread> {
    if e.Add? then {e.t} else {}
  }
}
