/**
 * The per-thread queues of asynchronous procedure calls. Each function is one section under the scheduler lock;
 * the code between two sections runs with the lock free, so other sections come in between in any order.
 */
module Apc {
  import opened Bytes

  const MAX_KERNEL_APC: nat := 64
  const MAX_USER_APC: nat := 64
  const APC_ALERTED: nat := 1
  const APC_WAIT_MAGIC: nat := 0xBBBB_0000_0000_0000

  /** A queued call: some function with its context, or the delivery of a finished request's callback. */
  datatype Entry = Call(context: nat) | IrpResult(irp: nat, callback: Option<nat>)

  datatype Run = Runnable | Blocked(on: nat)

  /**
   * A thread's queues, flag and wait state. `hand` holds the entries taken from the queues and not yet called.
   * The last four fields are what has happened: entries accepted and taken.
   */
  datatype Thread = Thread(
    kernelQueue: seq<Entry>, userQueue: seq<Entry>, pending: bool, run: Run, waitingFor: Option<nat>, hand: seq<Entry>,
    kernelAccepted: seq<Entry>, kernelTaken: seq<Entry>, userAccepted: seq<Entry>, userTaken: seq<Entry>)

  function NewThread(): Thread { Thread([], [], false, Runnable, None, [], [], [], [], []) }

  /** In an alertable wait, as the wake-up test sees it. */
  predicate Alertable(t: Thread) { t.waitingFor == Some(APC_WAIT_MAGIC) && t.run.Blocked? }

  // ---- The locked sections -----------------------------------------------------------------

  function QueueKernel(t: Thread, e: Entry): (t': Thread) {
    if |t.kernelQueue| < MAX_KERNEL_APC then
      t.(kernelQueue := t.kernelQueue + [e], pending := true, kernelAccepted := t.kernelAccepted + [e])
    else t
  }

  predicate Accepts(t: Thread) { |t.userQueue| < MAX_USER_APC }

  function Woken(t: Thread): Thread { if Alertable(t) then t.(waitingFor := None, run := Runnable) else t }

  function QueueUser(t: Thread, e: Entry): (t': Thread) {
    if Accepts(t) then
      Woken(t.(userQueue := t.userQueue + [e], pending := true, userAccepted := t.userAccepted + [e]))
    else t
  }

  function PopKernel(t: Thread): (t': Thread) {
    if t.kernelQueue == [] then t
    else
      var e := t.kernelQueue[0];
      t.(kernelQueue := t.kernelQueue[1..], hand := t.hand + [e], kernelTaken := t.kernelTaken + [e])
  }

  function PopUser(t: Thread): (t': Thread) {
    if t.userQueue == [] then t
    else
      var e := t.userQueue[0];
      t.(userQueue := t.userQueue[1..], hand := t.hand + [e], userTaken := t.userTaken + [e])
  }

  function UpdatePending(t: Thread): (t': Thread) {
    if t.kernelQueue == [] && t.userQueue == [] then t.(pending := false) else t
  }

  function BlockAlertable(t: Thread): (t': Thread) {
    t.(run := Blocked(APC_WAIT_MAGIC), waitingFor := Some(APC_WAIT_MAGIC))
  }

  /** Anything else the scheduler does to the thread, except starting an alertable wait. */
  function Schedule(t: Thread, run: Run, waitingFor: Option<nat>): (t': Thread) {
    var t' := t.(run := run, waitingFor := waitingFor);
    if Alertable(t') && !Alertable(t) then t else t'
  }

  /** The scheduler may do anything else. */
  lemma SchedulesFreely(t: Thread, run: Run, waitingFor: Option<nat>)
    requires waitingFor != Some(APC_WAIT_MAGIC) || run == Runnable
    ensures Schedule(t, run, waitingFor) == t.(run := run, waitingFor := waitingFor)
  {
  }

  /** A call from the hand: it leaves the hand. */
  function Called(t: Thread, i: nat): (t': Thread)
    requires i < |t.hand|
  {
    t.(hand := t.hand[..i] + t.hand[i + 1..])
  }

  datatype Section =
    | KernelQueued(e: Entry) | UserQueued(e: Entry) | KernelPopped | UserPopped | PendingUpdated
    | AlertableBlocked | Scheduled(run: Run, waitingFor: Option<nat>) | CallMade(i: nat)

  function Step(t: Thread, x: Section): (t': Thread) {
    match x
    case KernelQueued(e) => QueueKernel(t, e)
    case UserQueued(e) => QueueUser(t, e)
    case KernelPopped => PopKernel(t)
    case UserPopped => PopUser(t)
    case PendingUpdated => UpdatePending(t)
    case AlertableBlocked => BlockAlertable(t)
    case Scheduled(run, waitingFor) => Schedule(t, run, waitingFor)
    case CallMade(i) => if i < |t.hand| then Called(t, i) else t
  }

  function Runs(t: Thread, xs: seq<Section>): (t': Thread)
    decreases |xs|
  {
    if xs == [] then t else Step(Runs(t, xs[..|xs| - 1]), xs[|xs| - 1])
  }

  // ---- What every section keeps ------------------------------------------------------------------

  predicate ThreadOk(t: Thread) {
    && |t.kernelQueue| <= 64 && |t.userQueue| <= 64
    && (t.kernelQueue != [] || t.userQueue != [] ==> t.pending)
    && t.kernelAccepted == t.kernelTaken + t.kernelQueue && t.userAccepted == t.userTaken + t.userQueue
  }

  lemma FrontTaken(taken: seq<Entry>, q: seq<Entry>)
    requires q != []
    ensures taken + q == (taken + [q[0]]) + q[1..]
  {
  }

  lemma BackAdded(taken: seq<Entry>, q: seq<Entry>, e: Entry)
    ensures (taken + q) + [e] == taken + (q + [e])
  {
  }

  lemma QueueKeeps(t: Thread, e: Entry)
    requires ThreadOk(t)
    ensures ThreadOk(QueueKernel(t, e)) && ThreadOk(QueueUser(t, e))
  {
    BackAdded(t.kernelTaken, t.kernelQueue, e);
    BackAdded(t.userTaken, t.userQueue, e);
  }

  lemma PopKeeps(t: Thread)
    requires ThreadOk(t)
    ensures ThreadOk(PopKernel(t)) && ThreadOk(PopUser(t))
  {
    if t.kernelQueue != [] { FrontTaken(t.kernelTaken, t.kernelQueue); }
    if t.userQueue != [] { FrontTaken(t.userTaken, t.userQueue); }
  }

  lemma StepKeeps(t: Thread, x: Section)
    requires ThreadOk(t)
    ensures ThreadOk(Step(t, x))
  {
    match x
    case KernelQueued(e) => QueueKeeps(t, e);
    case UserQueued(e) => QueueKeeps(t, e);
    case KernelPopped => PopKeeps(t);
    case UserPopped => PopKeeps(t);
    case _ =>
  }

  /**
   * In every run: what was accepted is what was taken, in order, followed by what is queued; no queue is over its
   * bound; a thread with anything queued is flagged.
   */
  lemma {:induction false} RunKeeps(xs: seq<Section>)
    ensures ThreadOk(Runs(NewThread(), xs))
    decreases |xs|
  {
    if xs == [] {
    } else {
      RunKeeps(xs[..|xs| - 1]);
      StepKeeps(Runs(NewThread(), xs[..|xs| - 1]), xs[|xs| - 1]);
    }
  }

  /**
   * An accepted user call takes its thread out of the alertable wait, and it stays out, whatever happens, until
   * it begins to wait again.
   */
  lemma {:induction false} AcceptedWakes(t: Thread, e: Entry, xs: seq<Section>)
    requires Accepts(t) && AlertableBlocked !in xs
    ensures !Alertable(Runs(QueueUser(t, e), xs))
    decreases |xs|
  {
    if xs == [] {
    } else {
      AcceptedWakes(t, e, xs[..|xs| - 1]);
    }
  }

  /** How many entries a run takes from the user queue at most. */
  function Pops(xs: seq<Section>): nat {
    if xs == [] then 0 else Pops(xs[..|xs| - 1]) + if xs[|xs| - 1] == UserPopped then 1 else 0
  }

  function Drop(q: seq<Entry>, n: nat): seq<Entry> { if n <= |q| then q[n..] else [] }

  lemma {:induction false} DropOne(q: seq<Entry>, n: nat)
    ensures Drop(q, n + 1) == if Drop(q, n) == [] then [] else Drop(q, n)[1..]
  {
    if n < |q| { assert q[n..][1..] == q[n + 1..]; }
  }

  /**
   * As long as a thread stays in the wait it began, its user queue is the one it began with, less what it took:
   * beginning to wait does not look at the queue, and nothing that is accepted lets the wait go on. So it waits
   * with calls queued exactly when there were more than it took when it began.
   */
  lemma {:induction false} WaitKeepsQueue(t: Thread, xs: seq<Section>)
    requires AlertableBlocked !in xs
    ensures var r := Runs(BlockAlertable(t), xs);
            Alertable(r) ==>
              r.userQueue == Drop(t.userQueue, Pops(xs)) && (r.userQueue != [] <==> Pops(xs) < |t.userQueue|)
    decreases |xs|
  {
    if xs == [] {
    } else {
      var n := |xs| - 1;
      WaitKeepsQueue(t, xs[..n]);
      DropOne(t.userQueue, Pops(xs[..n]));
    }
  }

  lemma {:induction false} RunsConcat(t: Thread, a: seq<Section>, b: seq<Section>)
    ensures Runs(t, a + b) == Runs(Runs(t, a), b)
    decreases |b|
  {
    if b == [] {
      assert a + b == a;
    } else {
      var n := |b| - 1;
      RunsConcat(t, a, b[..n]);
      assert (a + b)[..|a + b| - 1] == a + b[..n];
    }
  }

  lemma RunsSnoc(t: Thread, xs: seq<Section>, x: Section)
    ensures Runs(t, xs + [x]) == Step(Runs(t, xs), x)
  {
    assert (xs + [x])[..|xs|] == xs;
  }

  function Queued(es: seq<Entry>): (xs: seq<Section>)
    ensures AlertableBlocked !in xs
  {
    if es == [] then [] else Queued(es[..|es| - 1]) + [UserQueued(es[|es| - 1])]
  }

  /** Taking and making `n` user calls. */
  function Served(n: nat): (xs: seq<Section>)
    ensures AlertableBlocked !in xs
  {
    if n == 0 then [] else Served(n - 1) + [UserPopped, CallMade(0), PendingUpdated]
  }

  lemma {:induction false} QueuedRun(es: seq<Entry>)
    requires |es| <= 64
    ensures var t := Runs(NewThread(), Queued(es)); t.userQueue == es && t.hand == [] && !Alertable(t)
    decreases |es|
  {
    if es == [] {
    } else {
      var front, e := es[..|es| - 1], es[|es| - 1];
      QueuedRun(front);
      RunsSnoc(NewThread(), Queued(front), UserQueued(e));
      assert es == front + [e];
    }
  }

  lemma {:induction false} ServedRun(t: Thread, n: nat)
    requires Alertable(t) && t.hand == [] && n <= |t.userQueue|
    ensures var r := Runs(t, Served(n)); Alertable(r) && r.hand == [] && r.userQueue == t.userQueue[n..]
    decreases n
  {
    if n == 0 {
    } else {
      ServedRun(t, n - 1);
      var r := Runs(t, Served(n - 1));
      RunsConcat(t, Served(n - 1), [UserPopped, CallMade(0), PendingUpdated]);
      ServedOne(r);
    }
  }

  lemma ServedOne(r: Thread)
    requires Alertable(r) && r.hand == [] && r.userQueue != []
    ensures var r' := Runs(r, [UserPopped, CallMade(0), PendingUpdated]);
            Alertable(r') && r'.hand == [] && r'.userQueue == r.userQueue[1..]
  {
    var xs := [UserPopped, CallMade(0), PendingUpdated];
    assert xs[..2] == [UserPopped, CallMade(0)] && xs[..2][..1] == [UserPopped] && xs[..2][..1][..0] == [];
    assert Runs(r, xs[..2][..1]) == PopUser(r);
    assert Runs(r, xs[..2]) == Called(PopUser(r), 0);
  }

  /**
   * So calls that come in after the queue was found empty and before the wait begins are missed: the caller serves
   * only so many of them after it began to wait, and waits on with the others queued.
   */
  lemma MissedCalls(es: seq<Entry>, served: nat)
    requires served < |es| <= 64
    ensures var t := Runs(NewThread(), Queued(es) + [AlertableBlocked] + Served(served));
            Alertable(t) && t.userQueue == es[served..] != []
  {
    QueuedRun(es);
    var t := Runs(NewThread(), Queued(es));
    RunsConcat(NewThread(), Queued(es), [AlertableBlocked]);
    assert [AlertableBlocked][..0] == [];
    assert Runs(t, [AlertableBlocked]) == BlockAlertable(t);
    RunsConcat(NewThread(), Queued(es) + [AlertableBlocked], Served(served));
    ServedRun(BlockAlertable(t), served);
  }

  // ---- What the start of the wait returns -----------------------------------------------------------

  /** The function that begins the wait returns this, whatever happens. */
  const BLOCK_RESULT: bool := true

  /** In the run `xs` after the wait began, section `i` ends it. */
  predicate EndsWait(t: Thread, xs: seq<Section>, i: nat)
    requires i < |xs|
  {
    var w := BlockAlertable(t);
    Alertable(Runs(w, xs[..i])) && !Alertable(Runs(w, xs[..i + 1]))
  }

  /** During section `i` a user call was delivered to the thread. */
  predicate DeliveredAt(t: Thread, xs: seq<Section>, i: nat)
    requires i < |xs|
  {
    |Runs(BlockAlertable(t), xs[..i + 1]).userAccepted| > |Runs(BlockAlertable(t), xs[..i]).userAccepted|
  }

  /**
   * The result should say whether the wait was ended by a call. For every wait and every run it does so exactly when
   * the section that ends the wait queues a user call and finds room; otherwise the scheduler ended it.
   */
  lemma ResultAgrees(t: Thread, xs: seq<Section>, i: nat)
    requires i < |xs| && EndsWait(t, xs, i)
    ensures BLOCK_RESULT == DeliveredAt(t, xs, i) <==>
              xs[i].UserQueued? && Accepts(Runs(BlockAlertable(t), xs[..i]))
    ensures BLOCK_RESULT != DeliveredAt(t, xs, i) <==> xs[i].Scheduled?
  {
    assert xs[..i + 1][..i] == xs[..i];
  }

  /** A wait ended by the scheduler is reported as ended by a call. */
  lemma WrongResult(t: Thread)
    ensures var xs := [Scheduled(Runnable, None)];
            EndsWait(t, xs, 0) && BLOCK_RESULT != DeliveredAt(t, xs, 0)
  {
    var xs := [Scheduled(Runnable, None)];
    assert xs[..1] == xs && xs[..0] == [];
    assert Runs(BlockAlertable(t), xs[..1]) == Schedule(BlockAlertable(t), Runnable, None);
  }

  // ---- The code ---------------------------------------------------------------------------------------

  /** What others do to a thread between two of its own sections. */
  predicate Foreign(x: Section) {
    x.KernelQueued? || x.UserQueued? || (x.Scheduled? && !(x.waitingFor == Some(APC_WAIT_MAGIC) && x.run.Blocked?))
  }

  predicate AllForeign(xs: seq<Section>) { forall i | 0 <= i < |xs| :: Foreign(xs[i]) }

  function Others(xs: seq<Section>): (r: seq<Section>) {
    if xs == [] then []
    else Others(xs[..|xs| - 1]) + if Foreign(xs[|xs| - 1]) then [xs[|xs| - 1]] else []
  }

  lemma {:induction false} OthersConcat(a: seq<Section>, b: seq<Section>)
    ensures Others(a + b) == Others(a) + Others(b)
    decreases |b|
  {
    if b == [] {
      assert a + b == a;
    } else {
      var n := |b| - 1;
      OthersConcat(a, b[..n]);
      assert (a + b)[..|a + b| - 1] == a + b[..n];
    }
  }

  lemma {:induction false} OthersAll(xs: seq<Section>)
    requires AllForeign(xs)
    ensures Others(xs) == xs
    decreases |xs|
  {
    if xs == [] {
    } else {
      OthersAll(xs[..|xs| - 1]);
      assert xs == xs[..|xs| - 1] + [xs[|xs| - 1]];
    }
  }

  function Joined(gaps: seq<seq<Section>>): (r: seq<Section>) {
    if gaps == [] then [] else Joined(gaps[..|gaps| - 1]) + gaps[|gaps| - 1]
  }

  /** Others add to the queues at their ends, and take nothing. */
  lemma {:induction false} ForeignKeeps(t: Thread, xs: seq<Section>)
    requires AllForeign(xs)
    ensures var r := Runs(t, xs);
            && r.hand == t.hand && r.kernelTaken == t.kernelTaken && r.userTaken == t.userTaken
            && t.kernelQueue <= r.kernelQueue && t.userQueue <= r.userQueue
    decreases |xs|
  {
    if xs == [] {
    } else {
      assert Foreign(xs[|xs| - 1]);
      ForeignKeeps(t, xs[..|xs| - 1]);
    }
  }

  lemma {:induction false} AcceptedGrows(t: Thread, xs: seq<Section>)
    ensures t.kernelAccepted <= Runs(t, xs).kernelAccepted && t.userAccepted <= Runs(t, xs).userAccepted
    decreases |xs|
  {
    if xs == [] {
    } else {
      AcceptedGrows(t, xs[..|xs| - 1]);
    }
  }

  lemma RunsOne(t: Thread, x: Section)
    ensures Runs(t, [x]) == Step(t, x)
  {
    assert [x][..0] == [];
  }

  /** Others coming in between two sections of the thread. */
  function Between(x: Section, gap: seq<Section>, y: Section): (xs: seq<Section>) { [x] + gap + [y] }

  lemma RunsBetween(t: Thread, x: Section, gap: seq<Section>, y: Section)
    requires AllForeign(gap) && !Foreign(x) && !Foreign(y)
    ensures Runs(t, Between(x, gap, y)) == Step(Runs(Step(t, x), gap), y) && Others(Between(x, gap, y)) == gap
  {
    RunsConcat(t, [x], gap);
    RunsOne(t, x);
    RunsConcat(t, [x] + gap, [y]);
    RunsOne(Runs(t, [x] + gap), y);
    OthersConcat([x] + gap, [y]);
    OthersConcat([x], gap);
    OthersAll(gap);
    assert [x][..0] == [] && [y][..0] == [];
  }

  /** Trace `a` followed by `b`. */
  lemma TraceOn(t: Thread, a: seq<Section>, b: seq<Section>)
    ensures Runs(t, a + b) == Runs(Runs(t, a), b) && Others(a + b) == Others(a) + Others(b)
  {
    RunsConcat(t, a, b);
    OthersConcat(a, b);
  }

  lemma Prefix(taken: seq<Entry>, q: seq<Entry>, made: seq<Entry>)
    requires taken + q <= taken + made
    ensures q <= made
  {
    assert (taken + q)[|taken|..] == q && (taken + made)[|taken|..] == made;
  }

  /** What others do during a user call and behind it. */
  function UserTrace(during: seq<Section>, after: seq<Section>): seq<Section> {
    Between(UserPopped, during, CallMade(0)) + after + [PendingUpdated]
  }

  lemma UserTraceRuns(t: Thread, during: seq<Section>, after: seq<Section>)
    requires t.hand == [] && t.userQueue != [] && AllForeign(during) && AllForeign(after)
    ensures var r := Runs(PopUser(t), during);
            && r.hand == [t.userQueue[0]]
            && Runs(t, UserTrace(during, after)) == UpdatePending(Runs(Called(r, 0), after))
  {
    var xs := Between(UserPopped, during, CallMade(0));
    ForeignKeeps(PopUser(t), during);
    RunsBetween(t, UserPopped, during, CallMade(0));
    RunsConcat(t, xs, after);
    RunsConcat(t, xs + after, [PendingUpdated]);
    RunsOne(Runs(t, xs + after), PendingUpdated);
  }

  /** A user call takes one entry; the others, and those that come in, stay. */
  lemma UserCall(t: Thread, during: seq<Section>, after: seq<Section>)
    requires t.hand == [] && t.userQueue != [] && AllForeign(during) && AllForeign(after)
    ensures var r := Runs(t, UserTrace(during, after));
            && r.hand == [] && r.userTaken == t.userTaken + [t.userQueue[0]] && t.userQueue[1..] <= r.userQueue
            && r.kernelTaken == t.kernelTaken && t.kernelQueue <= r.kernelQueue
            && (r.kernelQueue == [] && r.userQueue == [] ==> !r.pending)
            && (during == [] && after == [] ==>
                  && r.kernelQueue == t.kernelQueue && r.userQueue == t.userQueue[1..] && r.run == t.run
                  && r.waitingFor == t.waitingFor
                  && r.pending == (t.pending && (t.kernelQueue != [] || t.userQueue[1..] != [])))
  {
    UserTraceRuns(t, during, after);
    ForeignKeeps(PopUser(t), during);
    ForeignKeeps(Called(Runs(PopUser(t), during), 0), after);
  }

  /** From `t0` to `t` by making the kernel calls `made`, while others did `foreign`. */
  predicate KernelCalls(t0: Thread, t: Thread, trace: seq<Section>, foreign: seq<Section>, made: seq<Entry>) {
    && t == Runs(t0, trace) && Others(trace) == foreign && t.hand == []
    && t.kernelTaken == t0.kernelTaken + made && t.userTaken == t0.userTaken
    && (foreign == [] ==>
          && t0.kernelQueue == made + t.kernelQueue && t.userQueue == t0.userQueue
          && t.run == t0.run && t.waitingFor == t0.waitingFor && t.pending == t0.pending)
  }

  lemma KernelCallsOne(t0: Thread, t: Thread, trace: seq<Section>, foreign: seq<Section>, made: seq<Entry>,
                       gap: seq<Section>)
    requires KernelCalls(t0, t, trace, foreign, made) && t.kernelQueue != [] && AllForeign(gap)
    ensures var r := Runs(PopKernel(t), gap);
            && r.hand == [t.kernelQueue[0]]
            && KernelCalls(t0, Called(r, 0), trace + Between(KernelPopped, gap, CallMade(0)), foreign + gap,
                           made + [t.kernelQueue[0]])
  {
    ForeignKeeps(PopKernel(t), gap);
    RunsBetween(t, KernelPopped, gap, CallMade(0));
    TraceOn(t0, trace, Between(KernelPopped, gap, CallMade(0)));
    if foreign + gap == [] {
      assert gap == [] && foreign == [];
      FrontTaken(made, t.kernelQueue);
    }
  }

  /** All the calls queued at the start are among those made, in front. */
  lemma KernelCallsAll(t0: Thread, t: Thread, trace: seq<Section>, foreign: seq<Section>, made: seq<Entry>)
    requires KernelCalls(t0, t, trace, foreign, made) && ThreadOk(t0) && ThreadOk(t) && t.kernelQueue == []
    ensures t0.kernelQueue <= made
  {
    AcceptedGrows(t0, trace);
    Prefix(t0.kernelTaken, t0.kernelQueue, made);
  }

  lemma KernelCallsEnd(t0: Thread, t: Thread, trace: seq<Section>, foreign: seq<Section>, made: seq<Entry>,
                       gap: seq<Section>)
    requires KernelCalls(t0, t, trace, foreign, made) && t.kernelQueue == [] && AllForeign(gap)
    ensures var r := UpdatePending(Runs(t, gap));
            && r == Runs(t0, trace + Between(KernelPopped, gap, PendingUpdated))
            && Others(trace + Between(KernelPopped, gap, PendingUpdated)) == foreign + gap
            && r.hand == [] && r.kernelTaken == t0.kernelTaken + made && r.userTaken == t0.userTaken
            && (foreign + gap == [] ==>
                  && r.kernelQueue == [] && made == t0.kernelQueue && r.userQueue == t0.userQueue && r.run == t0.run
                  && r.waitingFor == t0.waitingFor && r.pending == (t0.pending && t0.userQueue != []))
  {
    ForeignKeeps(t, gap);
    RunsBetween(t, KernelPopped, gap, PendingUpdated);
    TraceOn(t0, trace, Between(KernelPopped, gap, PendingUpdated));
    if foreign + gap == [] {
      assert gap == [] && foreign == [];
      assert made + [] == made;
    }
  }

  predicate AllGapsForeign(gaps: seq<seq<Section>>) { forall i | 0 <= i < |gaps| :: AllForeign(gaps[i]) }

  /** Gap `g`, empty past the last. */
  function GapAt(gaps: seq<seq<Section>>, g: nat): (gap: seq<Section>)
    ensures AllGapsForeign(gaps) ==> AllForeign(gap)
  {
    if g < |gaps| then gaps[g] else []
  }

  function Behind(gaps: seq<seq<Section>>, g: nat): (g': nat)
    requires g <= |gaps|
    ensures g <= g' <= |gaps| && (g' == g <==> g == |gaps|)
  {
    if g < |gaps| then g + 1 else g
  }

  lemma JoinedNext(gaps: seq<seq<Section>>, g: nat)
    requires g <= |gaps|
    ensures Joined(gaps[..Behind(gaps, g)]) == Joined(gaps[..g]) + GapAt(gaps, g)
  {
    if g < |gaps| {
      assert gaps[..g + 1][..g] == gaps[..g];
    } else {
      assert Joined(gaps[..g]) + [] == Joined(gaps[..g]);
    }
  }

  /** A thread; `called` is the order of the calls made. */
  class KThread {
    var kernelQueue: seq<Entry>
    var userQueue: seq<Entry>
    var pending: bool
    var run: Run
    var waitingFor: Option<nat>
    ghost var view: Thread
    ghost var called: seq<Entry>

    ghost predicate Valid()
      reads this
    {
      && ThreadOk(view) && kernelQueue == view.kernelQueue && userQueue == view.userQueue
      && pending == view.pending && run == view.run && waitingFor == view.waitingFor
    }

    constructor ()
      ensures Valid() && view == NewThread() && called == []
    {
      kernelQueue, userQueue, pending, run, waitingFor := [], [], false, Runnable, None;
      view, called := NewThread(), [];
    }

    method PushKernel(e: Entry) returns (ok: bool)
      requires Valid()
      modifies this
      ensures Valid() && view == QueueKernel(old(view), e) && called == old(called)
      ensures ok <==> |old(kernelQueue)| < MAX_KERNEL_APC
    {
      QueueKeeps(view, e);
      view := QueueKernel(view, e);
      if |kernelQueue| < MAX_KERNEL_APC {
        kernelQueue := kernelQueue + [e];
        pending := true;
        ok := true;
      } else {
        ok := false;
      }
    }

    method PushUser(e: Entry) returns (ok: bool)
      requires Valid()
      modifies this
      ensures Valid() && view == QueueUser(old(view), e) && called == old(called)
      ensures ok <==> |old(userQueue)| < MAX_USER_APC
    {
      QueueKeeps(view, e);
      view := QueueUser(view, e);
      if |userQueue| < MAX_USER_APC {
        userQueue := userQueue + [e];
        pending := true;
        if waitingFor == Some(APC_WAIT_MAGIC) && run.Blocked? {
          waitingFor := None;
          run := Runnable;
        }
        ok := true;
      } else {
        ok := false;
      }
    }

    /** What others do, one section after the other. */
    method Interfere(xs: seq<Section>)
      requires Valid() && AllForeign(xs)
      modifies this
      ensures Valid() && view == Runs(old(view), xs) && called == old(called)
    {
      assert xs[..0] == [];
      for i := 0 to |xs|
        invariant Valid() && view == Runs(old(view), xs[..i]) && called == old(called)
      {
        assert xs[..i + 1][..i] == xs[..i] && Foreign(xs[i]);
        StepKeeps(view, xs[i]);
        if xs[i].KernelQueued? {
          var ok := PushKernel(xs[i].e);
        } else if xs[i].UserQueued? {
          var ok := PushUser(xs[i].e);
        } else {
          view := Schedule(view, xs[i].run, xs[i].waitingFor);
          run, waitingFor := xs[i].run, xs[i].waitingFor;
        }
      }
      assert xs[..|xs|] == xs;
    }

    /** The flag goes down when both queues are empty. */
    method ClearPending()
      requires Valid()
      modifies this
      ensures Valid() && view == UpdatePending(old(view)) && called == old(called)
      ensures pending ==> kernelQueue != [] || userQueue != [] || old(pending)
    {
      view := UpdatePending(view);
      if kernelQueue == [] && userQueue == [] { pending := false; }
    }

    method TakeKernel() returns (r: Option<Entry>)
      requires Valid()
      modifies this
      ensures Valid() && view == PopKernel(old(view)) && called == old(called)
      ensures r == if old(kernelQueue) == [] then None else Some(old(kernelQueue)[0])
    {
      PopKeeps(view);
      view := PopKernel(view);
      if kernelQueue == [] { return None; }
      r := Some(kernelQueue[0]);
      kernelQueue := kernelQueue[1..];
    }

    method TakeUser() returns (r: Option<Entry>)
      requires Valid()
      modifies this
      ensures Valid() && view == PopUser(old(view)) && called == old(called)
      ensures r == if old(userQueue) == [] then None else Some(old(userQueue)[0])
    {
      PopKeeps(view);
      view := PopUser(view);
      if userQueue == [] { return None; }
      r := Some(userQueue[0]);
      userQueue := userQueue[1..];
    }

    /** A taken entry is called. */
    method MakeCall(e: Entry)
      requires Valid() && view.hand == [e]
      modifies this
      ensures Valid() && view == Called(old(view), 0) && called == old(called) + [e]
    {
      view := Called(view, 0);
      called := called + [e];
    }

    /** One turn of the loop that makes the kernel calls. */
    method KernelTurn(gap: seq<Section>) returns (more: bool)
      requires Valid() && view.hand == [] && AllForeign(gap)
      modifies this
      ensures Valid()
      ensures more <==> old(kernelQueue) != []
      ensures !more ==> view == old(view) && called == old(called)
      ensures more ==> Runs(PopKernel(old(view)), gap).hand == [old(kernelQueue)[0]]
      ensures more ==> view == Called(Runs(PopKernel(old(view)), gap), 0)
      ensures more ==> called == old(called) + [old(kernelQueue)[0]]
      ensures more && gap == [] ==> |kernelQueue| == |old(kernelQueue)| - 1
    {
      var entry := TakeKernel();
      if entry.None? { return false; }
      ForeignKeeps(view, gap);
      Interfere(gap);
      MakeCall(entry.value);
      return true;
    }

    /** Makes kernel calls until the queue is found empty. */
    method KernelLoop(gaps: seq<seq<Section>>)
      returns (count: nat, g: nat, ghost trace: seq<Section>, ghost made: seq<Entry>)
      requires Valid() && view.hand == [] && AllGapsForeign(gaps)
      modifies this
      ensures Valid() && kernelQueue == [] && g <= |gaps|
      ensures KernelCalls(old(view), view, trace, Joined(gaps[..g]), made)
      ensures called == old(called) + made && count == |made|
    {
      count, g, trace, made := 0, 0, [], [];
      var more := true;
      while more
        invariant Valid() && g <= |gaps|
        invariant KernelCalls(old(view), view, trace, Joined(gaps[..g]), made)
        invariant called == old(called) + made && count == |made|
        invariant !more ==> kernelQueue == []
        decreases more, |gaps| - g, |kernelQueue|
      {
        var gap := GapAt(gaps, g);
        ghost var before, q := view, kernelQueue;
        more := KernelTurn(gap);
        if more {
          KernelCallsOne(old(view), before, trace, Joined(gaps[..g]), made, gap);
          JoinedNext(gaps, g);
          trace, made := trace + Between(KernelPopped, gap, CallMade(0)), made + [q[0]];
          count, g := count + 1, Behind(gaps, g);
        }
      }
    }

    /**
     * Makes the queued kernel calls until the queue is found empty. Others come in, as `gaps` says, during each call
     * and before the flag is looked at. Every call queued at the start is made, first and in order, and each call
     * taken is made once.
     */
    method DispatchKernelApcs(gaps: seq<seq<Section>>) returns (count: nat, ghost trace: seq<Section>, ghost used: nat)
      requires Valid() && view.hand == [] && AllGapsForeign(gaps)
      modifies this
      ensures Valid() && view.hand == [] && view == Runs(old(view), trace)
      ensures used <= |gaps| && Others(trace) == Joined(gaps[..used])
      ensures old(called) <= called && count == |called| - |old(called)|
      ensures old(kernelQueue) <= called[|old(called)|..]
      ensures view.kernelTaken == old(view.kernelTaken) + called[|old(called)|..]
      ensures view.userTaken == old(view.userTaken)
      ensures kernelQueue == [] && userQueue == [] ==> !pending
      ensures Others(trace) == [] ==> kernelQueue == [] && called == old(called) + old(kernelQueue)
      ensures Others(trace) == [] ==> userQueue == old(userQueue) && run == old(run) && waitingFor == old(waitingFor)
      ensures Others(trace) == [] ==> pending == (old(pending) && userQueue != [])
    {
      ghost var made;
      var g;
      count, g, trace, made := KernelLoop(gaps);
      KernelCallsAll(old(view), view, trace, Joined(gaps[..g]), made);
      var gap := GapAt(gaps, g);
      KernelCallsEnd(old(view), view, trace, Joined(gaps[..g]), made, gap);
      JoinedNext(gaps, g);
      Interfere(gap);
      ClearPending();
      trace, used := trace + Between(KernelPopped, gap, PendingUpdated), Behind(gaps, g);
      assert called[|old(called)|..] == made;
    }

    /** Makes the oldest queued user call. Others come in during the call, and again before the flag is looked at. */
    method DispatchOneUserApc(during: seq<Section>, after: seq<Section>) returns (done: bool)
      requires Valid() && view.hand == [] && AllForeign(during) && AllForeign(after)
      modifies this
      ensures Valid() && view.hand == []
      ensures done <==> old(userQueue) != []
      ensures done ==> called == old(called) + [old(userQueue)[0]]
      ensures done ==> view == Runs(old(view), UserTrace(during, after))
      ensures done ==> view.userTaken == old(view.userTaken) + [old(userQueue)[0]] && old(userQueue)[1..] <= userQueue
      ensures view.kernelTaken == old(view.kernelTaken) && old(kernelQueue) <= kernelQueue
      ensures done && kernelQueue == [] && userQueue == [] ==> !pending
      ensures !done ==> view == old(view) && called == old(called)
      ensures done && during == [] && after == [] ==>
                && kernelQueue == old(kernelQueue) && userQueue == old(userQueue)[1..]
                && run == old(run) && waitingFor == old(waitingFor)
                && pending == (old(pending) && (kernelQueue != [] || userQueue != []))
    {
      var entry := TakeUser();
      if entry.None? { return false; }
      UserTraceRuns(old(view), during, after);
      UserCall(old(view), during, after);
      Interfere(during);
      MakeCall(entry.value);
      Interfere(after);
      ClearPending();
      return true;
    }

    /**
     * On the way out of a system call: the kernel calls, then at most one user call. What is called is the kernel
     * calls taken, those queued at the start first, then the oldest user call not yet taken.
     */
    method DispatchOnSyscallReturn(gaps: seq<seq<Section>>, during: seq<Section>, after: seq<Section>)
      requires Valid() && view.hand == [] && AllGapsForeign(gaps)
      requires AllForeign(during) && AllForeign(after)
      modifies this
      ensures Valid() && view.hand == []
      ensures exists kernel: seq<Entry>, user: seq<Entry> ::
                && called == old(called) + kernel + user && old(kernelQueue) <= kernel
                && view.kernelTaken == old(view.kernelTaken) + kernel
                && view.userTaken == old(view.userTaken) + user && |user| <= 1 && (old(userQueue) != [] ==> user != [])
      ensures gaps == [] && during == [] && after == [] ==>
                && kernelQueue == []
                && called == old(called) + old(kernelQueue) + (if old(userQueue) == [] then [] else [old(userQueue)[0]])
                && userQueue == if old(userQueue) == [] then [] else old(userQueue)[1..]
    {
      var count, trace, used := DispatchKernelApcs(gaps);
      ghost var kernel := called[|old(called)|..];
      AcceptedGrows(old(view), trace);
      Prefix(old(view.userTaken), old(userQueue), userQueue);
      ghost var user: seq<Entry> := [];
      if userQueue != [] {
        user := [userQueue[0]];
        var done := DispatchOneUserApc(during, after);
      }
      assert called == old(called) + kernel + user;
    }

    /** Starts an alertable wait, whatever is queued. */
    method BlockCurrentAlertable() returns (r: bool)
      requires Valid()
      modifies this
      ensures Valid() && view == BlockAlertable(old(view)) && called == old(called)
      ensures r == BLOCK_RESULT && run.Blocked? && waitingFor == Some(0xBBBB_0000_0000_0000)
    {
      run := Blocked(APC_WAIT_MAGIC);
      waitingFor := Some(APC_WAIT_MAGIC);
      view := BlockAlertable(view);
      return true;
    }

    /**
     * The alertable wait: look, begin to wait, look again. Others come in before the wait begins (`early`), before
     * the second look (`late`) and around the call. The result says whether a call was made; it is the oldest one
     * not yet taken.
     */
    method WaitAlertable(early: seq<Section>, late: seq<Section>, during: seq<Section>, after: seq<Section>)
      returns (r: nat)
      requires Valid() && view.hand == []
      requires AllForeign(early) && AllForeign(late) && AllForeign(during) && AllForeign(after)
      modifies this
      ensures Valid() && view.hand == [] && (r == 1 || r == 0)
      ensures r == 0 ==> called == old(called) && view.userAccepted == old(view.userTaken) && userQueue == []
      ensures r == 0 ==> view == Runs(BlockAlertable(Runs(old(view), early)), late)
      ensures r == 1 ==> |view.userAccepted| > |old(view.userTaken)|
      ensures r == 1 ==> called == old(called) + [view.userAccepted[|old(view.userTaken)|]]
      ensures view.userTaken == old(view.userTaken) + called[|old(called)|..]
    {
      if userQueue != [] {
        var done := DispatchOneUserApc(during, after);
        return APC_ALERTED;
      }
      ForeignKeeps(view, early);
      Interfere(early);
      var woken := BlockCurrentAlertable();
      ForeignKeeps(view, late);
      Interfere(late);
      if userQueue != [] {
        var done := DispatchOneUserApc(during, after);
        return APC_ALERTED;
      }
      return 0;
    }
  }

  /** Queues a kernel call for the thread with this number; false when there is none or its queue is full. */
  method QueueKernelApc(threads: map<nat, KThread>, tid: nat, e: Entry) returns (ok: bool)
    requires forall k | k in threads :: threads[k].Valid()
    modifies threads.Values
    ensures ok <==> tid in threads && |old(threads[tid].kernelQueue)| < 64
    ensures tid in threads ==> threads[tid].Valid() && threads[tid].view == QueueKernel(old(threads[tid].view), e)
    ensures forall k | k in threads && (tid in threads ==> threads[k] != threads[tid]) :: unchanged(threads[k])
  {
    if tid in threads {
      ok := threads[tid].PushKernel(e);
    } else {
      ok := false;
    }
  }

  /** The same for a user call; accepting it ends an alertable wait of the thread. */
  method QueueUserApc(threads: map<nat, KThread>, tid: nat, e: Entry) returns (ok: bool)
    requires forall k | k in threads :: threads[k].Valid()
    modifies threads.Values
    ensures ok <==> tid in threads && |old(threads[tid].userQueue)| < 64
    ensures tid in threads ==> threads[tid].Valid() && threads[tid].view == QueueUser(old(threads[tid].view), e)
    ensures ok ==> !Alertable(threads[tid].view)
    ensures forall k | k in threads && (tid in threads ==> threads[k] != threads[tid]) :: unchanged(threads[k])
  {
    if tid in threads {
      ok := threads[tid].PushUser(e);
    } else {
      ok := false;
    }
  }
}
