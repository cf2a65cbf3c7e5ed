/**
 * I/O requests completed through asynchronous procedure calls: the request pool, the threads' queues, and the
 * completions under way, step by step. A callback is followed from the request that registers it to its call.
 */
module Irp {
  import opened Bytes
  import opened Apc

  const IRP_POOL_SIZE: nat := 64

  /** A pool slot; `callback` is the number of the allocation that registered it, until someone takes it. */
  datatype Slot = Slot(inUse: bool, id: nat, callback: Option<nat>)

  /** A completion under way: result to queue, request to free, or callback handed to the work queue. */
  datatype Job = ToQueue(id: nat, tid: nat, callback: Option<nat>) | ToFree(id: nat) | ToWork(work: nat)

  /** `ran` lists the callbacks called, `dropped` those no one can call any more, `issued` all ever registered. */
  datatype System = System(
    threads: seq<Thread>, slots: seq<Slot>, jobs: seq<Job>, allocations: nat,
    ran: seq<nat>, dropped: seq<nat>, issued: set<nat>)

  predicate Shape(s: System) { |s.slots| == IRP_POOL_SIZE }

  function IndexOf(id: nat): (i: nat)
    ensures i < IRP_POOL_SIZE
  {
    id % IRP_POOL_SIZE
  }

  predicate Live(slots: seq<Slot>, id: nat)
    requires |slots| == IRP_POOL_SIZE
  {
    slots[IndexOf(id)].inUse && slots[IndexOf(id)].id == id
  }

  function Freed(slots: seq<Slot>, id: nat): (r: seq<Slot>)
    requires |slots| == IRP_POOL_SIZE
    ensures |r| == IRP_POOL_SIZE
  {
    slots[IndexOf(id) := slots[IndexOf(id)].(inUse := false)]
  }

  /** A list with one more callback, if there is one. */
  function With(xs: seq<nat>, c: Option<nat>): seq<nat> { if c.Some? then xs + [c.value] else xs }

  // ---- The steps ----------------------------------------------------------------------------------

  datatype Action =
    | OnThread(tid: nat, x: Section)
    | Alloc(withCallback: bool)
    | TakeForApc(id: nat, tid: nat)
    | TakeForWork(id: nat)
    | QueueResult(job: nat)
    | FreeAfter(job: nat)
    | RunWork(job: nat)
    | DropWork(job: nat)
    | Free(id: nat)

  /** What can happen to a thread by itself: not queueing results, which only a completion does. */
  predicate Own(x: Section) {
    (x.KernelQueued? ==> x.e.Call?) && (x.UserQueued? ==> x.e.Call?)
  }

  /** The callback called by a section: that of the result it takes from the hand. */
  function CallbackOf(t: Thread, x: Section): Option<nat> {
    if x.CallMade? && x.i < |t.hand| && t.hand[x.i].IrpResult? then t.hand[x.i].callback else None
  }

  function Registered(withCallback: bool, token: nat): Option<nat> { if withCallback then Some(token) else None }

  /** A busy slot turns the request away; a free one is overwritten, with whatever callback it still had. */
  function AllocateAs(s: System, id: nat, i: nat, c: Option<nat>): (s': System)
    requires Shape(s) && i < IRP_POOL_SIZE
    ensures Shape(s')
  {
    if s.slots[i].inUse then s.(allocations := s.allocations + 1)
    else s.(allocations := s.allocations + 1, slots := s.slots[i := Slot(true, id, c)],
            dropped := With(s.dropped, s.slots[i].callback),
            issued := s.issued + if c.Some? then {c.value} else {})
  }

  /** Numbers are given out in turn, cut to 32 bits, starting with 1. */
  function Allocate(s: System, withCallback: bool): (s': System)
    requires Shape(s)
    ensures Shape(s')
  {
    var id := (s.allocations + 1) % 0x1_0000_0000;
    AllocateAs(s, id, IndexOf(id), Registered(withCallback, s.allocations))
  }

  /** The callback of a live request, which then no longer has it. */
  function Take(s: System, id: nat): Option<nat>
    requires Shape(s)
  {
    if Live(s.slots, id) then s.slots[IndexOf(id)].callback else None
  }

  function AfterTake(slots: seq<Slot>, id: nat): (r: seq<Slot>)
    requires |slots| == IRP_POOL_SIZE
    ensures |r| == IRP_POOL_SIZE
  {
    if Live(slots, id) then slots[IndexOf(id) := slots[IndexOf(id)].(callback := None)] else slots
  }

  function Without(jobs: seq<Job>, j: nat): seq<Job>
    requires j < |jobs|
  {
    jobs[..j] + jobs[j + 1..]
  }

  function Deliver(s: System, j: nat): (s': System)
    requires Shape(s) && j < |s.jobs| && s.jobs[j].ToQueue?
    ensures Shape(s')
  {
    var job := s.jobs[j];
    var s1 := s.(jobs := s.jobs[j := ToFree(job.id)]);
    if job.tid < |s.threads| && Accepts(s.threads[job.tid]) then
      s1.(threads := s.threads[job.tid := QueueUser(s.threads[job.tid], IrpResult(job.id, job.callback))])
    else s1.(dropped := With(s.dropped, job.callback))
  }

  function Do(s: System, a: Action): (s': System)
    requires Shape(s)
    ensures Shape(s')
  {
    match a
    case OnThread(tid, x) =>
      if tid < |s.threads| && Own(x) then
        s.(threads := s.threads[tid := Step(s.threads[tid], x)], ran := With(s.ran, CallbackOf(s.threads[tid], x)))
      else s
    case Alloc(withCallback) => Allocate(s, withCallback)
    case TakeForApc(id, tid) => s.(slots := AfterTake(s.slots, id), jobs := s.jobs + [ToQueue(id, tid, Take(s, id))])
    case TakeForWork(id) =>
      var c := Take(s, id);
      s.(slots := AfterTake(s.slots, id), jobs := if c.Some? then s.jobs + [ToWork(c.value)] else s.jobs)
    case QueueResult(j) => if j < |s.jobs| && s.jobs[j].ToQueue? then Deliver(s, j) else s
    case FreeAfter(j) =>
      if j < |s.jobs| && s.jobs[j].ToFree? then
        s.(slots := Freed(s.slots, s.jobs[j].id), jobs := Without(s.jobs, j))
      else s
    case RunWork(j) =>
      if j < |s.jobs| && s.jobs[j].ToWork? then s.(ran := s.ran + [s.jobs[j].work], jobs := Without(s.jobs, j)) else s
    case DropWork(j) =>
      if j < |s.jobs| && s.jobs[j].ToWork? then
        s.(dropped := s.dropped + [s.jobs[j].work], jobs := Without(s.jobs, j))
      else s
    case Free(id) => s.(slots := Freed(s.slots, id))
  }

  function Start(n: nat): (s: System)
    ensures Shape(s)
  {
    System(seq(n, _ => NewThread()), seq(IRP_POOL_SIZE, _ => Slot(false, 0, None)), [], 0, [], [], {})
  }

  function After(n: nat, actions: seq<Action>): (s: System)
    ensures Shape(s)
    decreases |actions|
  {
    if actions == [] then Start(n) else Do(After(n, actions[..|actions| - 1]), actions[|actions| - 1])
  }

  function Allocations(actions: seq<Action>): nat {
    if actions == [] then 0
    else Allocations(actions[..|actions| - 1]) + if actions[|actions| - 1].Alloc? then 1 else 0
  }

  /** Every allocation takes a number, whether it finds a free slot or not. */
  lemma {:induction false} AllocationsCounted(n: nat, actions: seq<Action>)
    ensures After(n, actions).allocations == Allocations(actions)
    decreases |actions|
  {
    if actions == [] {
    } else {
      AllocationsCounted(n, actions[..|actions| - 1]);
    }
  }

  // ---- Where the callbacks are --------------------------------------------------------------------------

  function One(b: bool): nat { if b then 1 else 0 }

  /** How often callback `x` is in a list, a queue, a thread, a pool, the completions under way. */
  function Times(xs: seq<nat>, x: nat): nat {
    if xs == [] then 0 else Times(xs[..|xs| - 1], x) + One(xs[|xs| - 1] == x)
  }

  function EntryCount(e: Entry, x: nat): nat { One(e.IrpResult? && e.callback == Some(x)) }

  function QueueCount(q: seq<Entry>, x: nat): nat {
    if q == [] then 0 else EntryCount(q[0], x) + QueueCount(q[1..], x)
  }

  function ThreadCount(t: Thread, x: nat): nat {
    QueueCount(t.kernelQueue, x) + QueueCount(t.userQueue, x) + QueueCount(t.hand, x)
  }

  function JobCount(j: Job, x: nat): nat {
    match j case ToQueue(_, _, c) => One(c == Some(x)) case ToFree(_) => 0 case ToWork(c) => One(c == x)
  }

  function Sum(ns: seq<nat>): nat { if ns == [] then 0 else ns[0] + Sum(ns[1..]) }

  function ThreadCounts(ts: seq<Thread>, x: nat): seq<nat> {
    seq(|ts|, i requires 0 <= i < |ts| => ThreadCount(ts[i], x))
  }

  function SlotCounts(xs: seq<Slot>, x: nat): seq<nat> {
    seq(|xs|, i requires 0 <= i < |xs| => One(xs[i].callback == Some(x)))
  }

  function JobCounts(js: seq<Job>, x: nat): seq<nat> {
    seq(|js|, i requires 0 <= i < |js| => JobCount(js[i], x))
  }

  /** How often it is anywhere: queued or in hand, registered, under way, called, dropped. */
  function Everywhere(s: System, x: nat): nat {
    Sum(ThreadCounts(s.threads, x)) + Sum(SlotCounts(s.slots, x)) + Sum(JobCounts(s.jobs, x)) +
    Times(s.ran, x) + Times(s.dropped, x)
  }

  lemma {:induction false} SumConcat(a: seq<nat>, b: seq<nat>)
    ensures Sum(a + b) == Sum(a) + Sum(b)
    decreases |a|
  {
    if a == [] {
      assert a + b == b;
    } else {
      SumConcat(a[1..], b);
      assert (a + b)[1..] == a[1..] + b;
    }
  }

  /** One number stands apart from the rest. */
  lemma SumSplit(ns: seq<nat>, i: nat)
    requires i < |ns|
    ensures Sum(ns) == Sum(ns[..i]) + ns[i] + Sum(ns[i + 1..])
  {
    SumConcat(ns[..i], ns[i..]);
    assert ns == ns[..i] + ns[i..] && ns[i..][1..] == ns[i + 1..];
  }

  lemma SumUpdate(ns: seq<nat>, i: nat, n: nat)
    requires i < |ns|
    ensures Sum(ns[i := n]) + ns[i] == Sum(ns) + n
  {
    SumSplit(ns, i);
    SumSplit(ns[i := n], i);
    assert ns[i := n][..i] == ns[..i] && ns[i := n][i + 1..] == ns[i + 1..];
  }

  lemma ThreadsMove(ts: seq<Thread>, i: nat, t: Thread, x: nat)
    requires i < |ts|
    ensures Sum(ThreadCounts(ts[i := t], x)) + ThreadCount(ts[i], x) == Sum(ThreadCounts(ts, x)) + ThreadCount(t, x)
  {
    assert ThreadCounts(ts[i := t], x) == ThreadCounts(ts, x)[i := ThreadCount(t, x)];
    SumUpdate(ThreadCounts(ts, x), i, ThreadCount(t, x));
  }

  lemma SlotsMove(xs: seq<Slot>, i: nat, y: Slot, x: nat)
    requires i < |xs|
    ensures Sum(SlotCounts(xs[i := y], x)) + One(xs[i].callback == Some(x)) ==
            Sum(SlotCounts(xs, x)) + One(y.callback == Some(x))
  {
    assert SlotCounts(xs[i := y], x) == SlotCounts(xs, x)[i := One(y.callback == Some(x))];
    SumUpdate(SlotCounts(xs, x), i, One(y.callback == Some(x)));
  }

  lemma JobsMove(js: seq<Job>, i: nat, j: Job, x: nat)
    requires i < |js|
    ensures Sum(JobCounts(js[i := j], x)) + JobCount(js[i], x) == Sum(JobCounts(js, x)) + JobCount(j, x)
  {
    assert JobCounts(js[i := j], x) == JobCounts(js, x)[i := JobCount(j, x)];
    SumUpdate(JobCounts(js, x), i, JobCount(j, x));
  }

  lemma JobsGrow(js: seq<Job>, j: Job, x: nat)
    ensures Sum(JobCounts(js + [j], x)) == Sum(JobCounts(js, x)) + JobCount(j, x)
  {
    var cs := JobCounts(js + [j], x);
    SumSplit(cs, |js|);
    assert cs[..|js|] == JobCounts(js, x);
  }

  lemma JobsShrink(js: seq<Job>, j: nat, x: nat)
    requires j < |js|
    ensures Sum(JobCounts(Without(js, j), x)) + JobCount(js[j], x) == Sum(JobCounts(js, x))
  {
    var cs := JobCounts(js, x);
    assert JobCounts(Without(js, j), x) == cs[..j] + cs[j + 1..];
    SumConcat(cs[..j], cs[j + 1..]);
    SumSplit(cs, j);
  }

  lemma {:induction false} QueueConcat(a: seq<Entry>, b: seq<Entry>, x: nat)
    ensures QueueCount(a + b, x) == QueueCount(a, x) + QueueCount(b, x)
    decreases |a|
  {
    if a == [] {
      assert a + b == b;
    } else {
      QueueConcat(a[1..], b, x);
      assert (a + b)[1..] == a[1..] + b;
    }
  }

  lemma QueueGrows(q: seq<Entry>, e: Entry, x: nat)
    ensures QueueCount(q + [e], x) == QueueCount(q, x) + EntryCount(e, x)
  {
    QueueConcat(q, [e], x);
    assert [e][1..] == [];
  }

  lemma QueueShrinks(q: seq<Entry>, i: nat, x: nat)
    requires i < |q|
    ensures QueueCount(q[..i] + q[i + 1..], x) + EntryCount(q[i], x) == QueueCount(q, x)
  {
    QueueConcat(q[..i], q[i..], x);
    QueueConcat(q[..i], q[i + 1..], x);
    assert q == q[..i] + q[i..] && q[i..][1..] == q[i + 1..];
  }

  // ---- Callbacks move, and are neither copied nor lost sight of ------------------------------------------

  /** A thread's own sections keep its callbacks, except for the one called. */
  lemma StepCount(t: Thread, a: Section, x: nat)
    requires Own(a)
    ensures ThreadCount(Step(t, a), x) + One(CallbackOf(t, a) == Some(x)) == ThreadCount(t, x)
  {
    match a
    case KernelQueued(e) => QueueGrows(t.kernelQueue, e, x);
    case UserQueued(e) => QueueGrows(t.userQueue, e, x);
    case KernelPopped => if t.kernelQueue != [] { QueueGrows(t.hand, t.kernelQueue[0], x); }
    case UserPopped => if t.userQueue != [] { QueueGrows(t.hand, t.userQueue[0], x); }
    case CallMade(i) => if i < |t.hand| { QueueShrinks(t.hand, i, x); }
    case _ =>
  }

  lemma WithCount(xs: seq<nat>, c: Option<nat>, x: nat)
    ensures Times(With(xs, c), x) == Times(xs, x) + One(c == Some(x))
  {
  }

  lemma QueueUserCount(t: Thread, e: Entry, x: nat)
    requires Accepts(t)
    ensures ThreadCount(QueueUser(t, e), x) == ThreadCount(t, x) + EntryCount(e, x)
  {
    QueueGrows(t.userQueue, e, x);
  }

  lemma DeliverMoves(s: System, j: nat, x: nat)
    requires Shape(s) && j < |s.jobs| && s.jobs[j].ToQueue?
    ensures Everywhere(Deliver(s, j), x) == Everywhere(s, x)
  {
    var job, s' := s.jobs[j], Deliver(s, j);
    JobsMove(s.jobs, j, ToFree(job.id), x);
    if job.tid < |s.threads| && Accepts(s.threads[job.tid]) {
      var t, e := s.threads[job.tid], IrpResult(job.id, job.callback);
      QueueUserCount(t, e, x);
      ThreadsMove(s.threads, job.tid, QueueUser(t, e), x);
      assert s'.slots == s.slots && s'.ran == s.ran && s'.dropped == s.dropped;
    } else {
      WithCount(s.dropped, job.callback, x);
      assert s'.slots == s.slots && s'.ran == s.ran && s'.threads == s.threads;
    }
  }

  lemma TakeMoves(s: System, id: nat, x: nat)
    requires Shape(s)
    ensures Sum(SlotCounts(AfterTake(s.slots, id), x)) + One(Take(s, id) == Some(x)) == Sum(SlotCounts(s.slots, x))
  {
    var i := IndexOf(id);
    if Live(s.slots, id) { SlotsMove(s.slots, i, s.slots[i].(callback := None), x); }
  }

  lemma FreeMoves(slots: seq<Slot>, id: nat, x: nat)
    requires |slots| == IRP_POOL_SIZE
    ensures Sum(SlotCounts(Freed(slots, id), x)) == Sum(SlotCounts(slots, x))
  {
    var i := IndexOf(id);
    SlotsMove(slots, i, slots[i].(inUse := false), x);
  }

  lemma ThreadMoves(s: System, tid: nat, y: Section, x: nat)
    requires Shape(s)
    ensures Everywhere(Do(s, OnThread(tid, y)), x) == Everywhere(s, x)
  {
    if tid < |s.threads| && Own(y) {
      StepCount(s.threads[tid], y, x);
      ThreadsMove(s.threads, tid, Step(s.threads[tid], y), x);
      WithCount(s.ran, CallbackOf(s.threads[tid], y), x);
    }
  }

  lemma TakesMove(s: System, id: nat, tid: nat, x: nat)
    requires Shape(s)
    ensures Everywhere(Do(s, TakeForApc(id, tid)), x) == Everywhere(s, x)
    ensures Everywhere(Do(s, TakeForWork(id)), x) == Everywhere(s, x)
  {
    TakeMoves(s, id, x);
    JobsGrow(s.jobs, ToQueue(id, tid, Take(s, id)), x);
    if Take(s, id).Some? { JobsGrow(s.jobs, ToWork(Take(s, id).value), x); }
  }

  lemma JobMoves(s: System, a: Action, j: nat, x: nat)
    requires Shape(s) && j < |s.jobs| && a in {QueueResult(j), FreeAfter(j), RunWork(j), DropWork(j)}
    ensures Everywhere(Do(s, a), x) == Everywhere(s, x)
  {
    if s.jobs[j].ToQueue? { DeliverMoves(s, j, x); }
    if s.jobs[j].ToFree? { FreeMoves(s.slots, s.jobs[j].id, x); }
    JobsShrink(s.jobs, j, x);
  }

  /** Every step but an allocation only moves callbacks. */
  lemma DoMoves(s: System, a: Action, x: nat)
    requires Shape(s) && !a.Alloc?
    ensures Everywhere(Do(s, a), x) == Everywhere(s, x)
  {
    if a.OnThread? {
      ThreadMoves(s, a.tid, a.x, x);
    } else if a.TakeForApc? {
      TakesMove(s, a.id, a.tid, x);
    } else if a.TakeForWork? {
      TakesMove(s, a.id, 0, x);
    } else if a.Free? {
      FreeMoves(s.slots, a.id, x);
    } else if a.job < |s.jobs| {
      JobMoves(s, a, a.job, x);
    }
  }

  lemma AllocMoves(s: System, id: nat, i: nat, c: Option<nat>, x: nat)
    requires Shape(s) && i < IRP_POOL_SIZE && (c.Some? ==> c.value !in s.issued)
    ensures var s' := AllocateAs(s, id, i, c);
            Everywhere(s', x) == Everywhere(s, x) + One(x in s'.issued) - One(x in s.issued)
  {
    SlotsMove(s.slots, i, Slot(true, id, c), x);
    WithCount(s.dropped, s.slots[i].callback, x);
  }

  lemma {:induction false} Nothing(ns: seq<nat>)
    requires forall i | 0 <= i < |ns| :: ns[i] == 0
    ensures Sum(ns) == 0
    decreases |ns|
  {
    if ns == [] {
    } else {
      Nothing(ns[1..]);
    }
  }

  ghost predicate IssuedBelow(s: System) { forall x | x in s.issued :: x < s.allocations }

  lemma AllocOnePlace(s: System, withCallback: bool, x: nat)
    requires Shape(s) && IssuedBelow(s) && Everywhere(s, x) == One(x in s.issued)
    ensures var s' := Allocate(s, withCallback); IssuedBelow(s') && Everywhere(s', x) == One(x in s'.issued)
  {
    var id, c := (s.allocations + 1) % 0x1_0000_0000, Registered(withCallback, s.allocations);
    var i := IndexOf(id);
    AllocMoves(s, id, i, c, x);
    AllocIssues(s, id, i, c);
  }

  lemma AllocIssues(s: System, id: nat, i: nat, c: Option<nat>)
    requires Shape(s) && i < IRP_POOL_SIZE && IssuedBelow(s) && (c.Some? ==> c.value == s.allocations)
    ensures IssuedBelow(AllocateAs(s, id, i, c))
  {
  }

  lemma DoOnePlace(s: System, a: Action, x: nat)
    requires Shape(s) && IssuedBelow(s) && Everywhere(s, x) == One(x in s.issued)
    ensures IssuedBelow(Do(s, a)) && Everywhere(Do(s, a), x) == One(x in Do(s, a).issued)
  {
    if a.Alloc? {
      AllocOnePlace(s, a.withCallback, x);
    } else {
      DoMoves(s, a, x);
      NothingIssued(s, a);
    }
  }

  lemma NothingIssued(s: System, a: Action)
    requires Shape(s) && !a.Alloc?
    ensures s.allocations == Do(s, a).allocations && s.issued == Do(s, a).issued
  {
  }

  lemma StartEmpty(n: nat, x: nat)
    ensures Everywhere(Start(n), x) == 0
  {
    Nothing(ThreadCounts(Start(n).threads, x));
    Nothing(SlotCounts(Start(n).slots, x));
  }

  /** In every run, every callback ever registered is in exactly one place, and no other is anywhere. */
  lemma {:induction false} OnePlaceEach(n: nat, actions: seq<Action>, x: nat)
    ensures var s := After(n, actions); IssuedBelow(s) && Everywhere(s, x) == One(x in s.issued)
    decreases |actions|
  {
    if actions == [] {
      StartEmpty(n, x);
    } else {
      var k := |actions| - 1;
      OnePlaceEach(n, actions[..k], x);
      DoOnePlace(After(n, actions[..k]), actions[k], x);
    }
  }

  lemma {:induction false} Counted(xs: seq<nat>, i: nat)
    requires i < |xs|
    ensures Times(xs, xs[i]) >= 1
    decreases |xs|
  {
    if i >= |xs| - 1 {
    } else {
      Counted(xs[..|xs| - 1], i);
    }
  }

  lemma {:induction false} CountedTwice(xs: seq<nat>, i: nat, j: nat)
    requires i < j < |xs| && xs[i] == xs[j]
    ensures Times(xs, xs[i]) >= 2
    decreases |xs|
  {
    var n := |xs| - 1;
    if j < n { CountedTwice(xs[..n], i, j); } else { Counted(xs[..n], i); }
  }

  /** In every run, a callback that is called was registered. */
  lemma CalledWereRegistered(n: nat, actions: seq<Action>, i: nat)
    requires i < |After(n, actions).ran|
    ensures After(n, actions).ran[i] in After(n, actions).issued
  {
    var s := After(n, actions);
    OnePlaceEach(n, actions, s.ran[i]);
    Counted(s.ran, i);
  }

  /** And it is called once. */
  lemma CalledAtMostOnce(n: nat, actions: seq<Action>, i: nat, j: nat)
    requires i < j < |After(n, actions).ran|
    ensures After(n, actions).ran[i] != After(n, actions).ran[j]
  {
    var s := After(n, actions);
    OnePlaceEach(n, actions, s.ran[i]);
    if s.ran[i] == s.ran[j] { CountedTwice(s.ran, i, j); }
  }

  /** All threads keep their queues in order, through completions as well. */
  lemma {:induction false} QueuesKept(n: nat, actions: seq<Action>)
    ensures forall t | t in After(n, actions).threads :: ThreadOk(t)
    decreases |actions|
  {
    if actions == [] {
    } else {
      var k := |actions| - 1;
      QueuesKept(n, actions[..k]);
      var s, a := After(n, actions[..k]), actions[k];
      if a.OnThread? && a.tid < |s.threads| {
        StepKeeps(s.threads[a.tid], a.x);
      } else if a.QueueResult? && a.job < |s.jobs| && s.jobs[a.job].ToQueue? && s.jobs[a.job].tid < |s.threads| {
        QueueKeeps(s.threads[s.jobs[a.job].tid], IrpResult(s.jobs[a.job].id, s.jobs[a.job].callback));
      }
    }
  }

  // ---- Results that do not arrive ---------------------------------------------------------------------------

  /** The slot the next request gets, if it is free. */
  function NextSlot(s: System): nat { IndexOf((s.allocations + 1) % 0x1_0000_0000) }

  /**
   * Step `a` puts callback `x` out of reach: its result finds no thread or no room, the work queue turns it away, or
   * it was still in a free slot that goes to another request.
   */
  predicate Drops(s: System, a: Action, x: nat)
    requires Shape(s)
  {
    match a
    case QueueResult(j) =>
      && j < |s.jobs| && s.jobs[j].ToQueue? && s.jobs[j].callback == Some(x)
      && (s.jobs[j].tid >= |s.threads| || |s.threads[s.jobs[j].tid].userQueue| >= 64)
    case DropWork(j) => j < |s.jobs| && s.jobs[j] == ToWork(x)
    case Alloc(_) => !s.slots[NextSlot(s)].inUse && s.slots[NextSlot(s)].callback == Some(x)
    case _ => false
  }

  lemma DropStep(s: System, a: Action, x: nat)
    requires Shape(s)
    ensures x in Do(s, a).dropped <==> x in s.dropped || Drops(s, a, x)
  {
  }

  /** Step `k` of the run drops `x`. */
  predicate DropsAt(n: nat, actions: seq<Action>, k: nat, x: nat) {
    k < |actions| && Drops(After(n, actions[..k]), actions[k], x)
  }

  lemma DropsEarlier(n: nat, actions: seq<Action>, m: nat, k: nat, x: nat)
    requires k < m <= |actions|
    ensures DropsAt(n, actions[..m], k, x) <==> DropsAt(n, actions, k, x)
  {
    assert actions[..m][..k] == actions[..k];
  }

  ghost predicate DropsSometime(n: nat, actions: seq<Action>, x: nat) { exists k :: DropsAt(n, actions, k, x) }

  lemma DropsLater(n: nat, actions: seq<Action>, m: nat, x: nat)
    requires |actions| == m + 1
    ensures DropsSometime(n, actions, x) <==>
              DropsSometime(n, actions[..m], x) || Drops(After(n, actions[..m]), actions[m], x)
  {
    assert DropsAt(n, actions, m, x) <==> Drops(After(n, actions[..m]), actions[m], x);
    if k: nat :| DropsAt(n, actions[..m], k, x) { DropsEarlier(n, actions, m, k, x); }
    if k: nat :| DropsAt(n, actions, k, x) {
      if k < m { DropsEarlier(n, actions, m, k, x); }
    }
  }

  /** In every run, a callback is dropped exactly when some step of the run dropped it. */
  lemma {:induction false} DroppedIff(n: nat, actions: seq<Action>, x: nat)
    ensures x in After(n, actions).dropped <==> DropsSometime(n, actions, x)
    decreases |actions|
  {
    if actions == [] {
    } else {
      var m := |actions| - 1;
      DroppedIff(n, actions[..m], x);
      DropsLater(n, actions, m, x);
      DropStep(After(n, actions[..m]), actions[m], x);
    }
  }

  lemma {:induction false} NotCounted(xs: seq<nat>, x: nat)
    ensures x in xs <==> Times(xs, x) > 0
    decreases |xs|
  {
    if xs == [] {
    } else {
      NotCounted(xs[..|xs| - 1], x);
      assert xs == xs[..|xs| - 1] + [xs[|xs| - 1]];
    }
  }

  /** Once dropped, a callback is never called, however the run goes on. */
  lemma DroppedNeverCalled(n: nat, actions: seq<Action>, k: nat, x: nat)
    requires DropsAt(n, actions, k, x)
    ensures x !in After(n, actions).ran
  {
    var s := After(n, actions);
    DroppedIff(n, actions, x);
    OnePlaceEach(n, actions, x);
    NotCounted(s.ran, x);
    NotCounted(s.dropped, x);
  }

  /** A request in use is in the slot of its number. */
  ghost predicate Placed(slots: seq<Slot>)
    requires |slots| == IRP_POOL_SIZE
  {
    forall i | 0 <= i < IRP_POOL_SIZE :: slots[i].inUse ==> IndexOf(slots[i].id) == i
  }

  lemma {:induction false} AlwaysPlaced(n: nat, actions: seq<Action>)
    ensures Placed(After(n, actions).slots)
    decreases |actions|
  {
    if actions == [] {
    } else {
      AlwaysPlaced(n, actions[..|actions| - 1]);
    }
  }

  /** Freeing looks at the slot only: it spares every other live request exactly when the slot holds no other. */
  lemma FreeSparesOthers(slots: seq<Slot>, id: nat)
    requires |slots| == IRP_POOL_SIZE && Placed(slots)
    ensures (forall other | other != id && Live(slots, other) :: Live(Freed(slots, id), other)) <==>
              !(slots[IndexOf(id)].inUse && slots[IndexOf(id)].id != id)
  {
    var i := IndexOf(id);
    var holder := slots[i].id;
    if slots[i].inUse && holder != id {
      assert Live(slots, holder) && !Live(Freed(slots, id), holder);
    } else {
      forall other | other != id && Live(slots, other) ensures Live(Freed(slots, id), other) {
        assert IndexOf(other) != i;
      }
    }
  }

  // Completing a request twice, the second time after its slot went to another request.

  /** One request allocated and completed, then `k` more allocated. */
  function BusyRun(k: nat): (actions: seq<Action>) {
    if k == 0 then [Alloc(true), TakeForApc(1, 0), QueueResult(0), FreeAfter(0)] else BusyRun(k - 1) + [Alloc(true)]
  }

  predicate Taken(k: nat, i: nat) { 2 <= i <= k + 1 || 2 <= i + IRP_POOL_SIZE <= k + 1 }

  predicate AfterMore(s: System, k: nat)
    requires Shape(s)
  {
    && s.allocations == k + 1 && s.jobs == []
    && (forall i | 0 <= i < IRP_POOL_SIZE :: s.slots[i].inUse <==> Taken(k, i))
    && (k > 0 ==> s.slots[IndexOf(k + 1)] == Slot(true, k + 1, Some(k)))
  }

  lemma OneMore(s: System, k: nat)
    requires Shape(s) && 0 < k <= IRP_POOL_SIZE && AfterMore(s, k - 1)
    ensures AfterMore(Do(s, Alloc(true)), k)
  {
    assert IndexOf(k + 1) == if k < IRP_POOL_SIZE - 1 then k + 1 else k + 1 - IRP_POOL_SIZE;
  }

  lemma AfterSnoc(n: nat, actions: seq<Action>, a: Action)
    ensures After(n, actions + [a]) == Do(After(n, actions), a)
  {
    assert (actions + [a])[..|actions|] == actions;
  }

  lemma AfterThree(n: nat, actions: seq<Action>, a: Action, b: Action, c: Action)
    ensures After(n, actions + [a, b, c]) == Do(Do(Do(After(n, actions), a), b), c)
  {
    AfterSnoc(n, actions, a);
    AfterSnoc(n, actions + [a], b);
    AfterSnoc(n, actions + [a] + [b], c);
    assert actions + [a, b, c] == actions + [a] + [b] + [c];
  }

  lemma AfterFour(n: nat, actions: seq<Action>, a: Action, b: Action, c: Action, d: Action)
    requires actions == [a, b, c, d]
    ensures After(n, actions) == Do(Do(Do(Do(Start(n), a), b), c), d)
  {
    var first: seq<Action> := [a];
    assert first == [] + [a];
    AfterSnoc(n, [], a);
    AfterThree(n, first, b, c, d);
    assert actions == first + [b, c, d];
  }

  lemma FirstDone(n: nat)
    ensures AfterMore(Do(Do(Do(Do(Start(n), Alloc(true)), TakeForApc(1, 0)), QueueResult(0)), FreeAfter(0)), 0)
  {
    var a := Do(Start(n), Alloc(true));
    assert a.slots == Start(n).slots[1 := Slot(true, 1, Some(0))];
    var b := Do(a, TakeForApc(1, 0));
    assert b.jobs == [ToQueue(1, 0, Some(0))];
    var c := Do(b, QueueResult(0));
    assert c.jobs == [ToFree(1)] && c.slots == b.slots;
  }

  lemma {:induction false} BusySlots(n: nat, k: nat)
    requires k <= IRP_POOL_SIZE
    ensures AfterMore(After(n, BusyRun(k)), k)
    decreases k
  {
    if k == 0 {
      FirstDone(n);
      AfterFour(n, BusyRun(k), Alloc(true), TakeForApc(1, 0), QueueResult(0), FreeAfter(0));
    } else {
      BusySlots(n, k - 1);
      AfterSnoc(n, BusyRun(k - 1), Alloc(true));
      OneMore(After(n, BusyRun(k - 1)), k);
    }
  }

  /**
   * Completing request 1 once more, after its slot went to request 65 (of a pool of `k` == 64), frees request 65:
   * its callback is left in a slot where no completion finds it.
   */
  lemma StaleCompletion(n: nat, tid: nat, k: nat)
    requires k == IRP_POOL_SIZE
    ensures var s := After(n, BusyRun(k));
            var s' := After(n, BusyRun(k) + [TakeForApc(1, tid), QueueResult(0), FreeAfter(0)]);
            Live(s.slots, 65) && !Live(s'.slots, 65) && s'.slots[1].callback == Some(64) && Take(s', 65) == None
  {
    BusySlots(n, k);
    AfterThree(n, BusyRun(k), TakeForApc(1, tid), QueueResult(0), FreeAfter(0));
    AfterStale(After(n, BusyRun(k)), tid);
  }

  lemma AfterStale(s: System, tid: nat)
    requires Shape(s) && s.slots[1] == Slot(true, 65, Some(64)) && s.jobs == []
    ensures var s' := Do(Do(Do(s, TakeForApc(1, tid)), QueueResult(0)), FreeAfter(0));
            Live(s.slots, 65) && !Live(s'.slots, 65) && s'.slots[1].callback == Some(64) && Take(s', 65) == None
  {
  }
}
