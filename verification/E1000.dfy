/**
 * The receive ring of the e1000 driver: the driver's poll and the controller's receive, taken apart into their
 * single accesses to the shared descriptors, buffers and registers, in every interleaving. The controller's
 * part follows section 3.2.6 of Intel's PCI/PCI-X Family of Gigabit Ethernet Controllers manual: it owns the
 * descriptors from head up to, and without, tail.
 */
module E1000 {
  import opened Bytes
  import Picking

  const NUM_RX_DESC: nat := 32
  const RX_BUF_SIZE: nat := 2048

  /** A received frame, as long as a descriptor's length field can say. */
  type Frame = f: seq<byte> | |f| < 0x1_0000

  datatype Desc = Desc(length: nat, done: bool)

  /** Where the driver is in its poll; `out` is the frame to hand over, or none for a length it refuses. */
  datatype Driver =
    | Idle
    | Checked(cur: nat)
    | Copying(cur: nat, len: nat, copied: seq<byte>)
    | Clearing(cur: nat, out: Option<seq<byte>>)
    | ReadingTail(cur: nat, out: Option<seq<byte>>)
    | WritingTail(cur: nat, out: Option<seq<byte>>, oldRdt: nat)
    | StoringCursor(cur: nat, out: Option<seq<byte>>)

  /** Where the controller is with a frame: writing its bytes, or done with the descriptor but not with head. */
  datatype Controller = Ready | Filling(frame: Frame, count: nat) | WroteBack

  /**
   * The shared state, the two processes, and what has happened: frames the controller wrote back, frames the
   * driver handed over, polls the driver finished with a descriptor.
   */
  datatype State = State(
    descs: seq<Desc>, pool: seq<byte>, rdh: nat, rdt: nat, rxCur: nat, driver: Driver, controller: Controller,
    accepted: seq<Frame>, delivered: seq<seq<byte>>, taken: nat)

  predicate ValidLength(n: nat) { 0 < n <= RX_BUF_SIZE }

  predicate DriverShape(d: Driver) {
    match d
    case Idle => true
    case Copying(cur, len, copied) => cur < NUM_RX_DESC && len <= RX_BUF_SIZE && |copied| <= len
    case _ => d.cur < NUM_RX_DESC
  }

  predicate Shape(s: State) {
    && |s.descs| == NUM_RX_DESC && |s.pool| == NUM_RX_DESC * RX_BUF_SIZE && s.rdh < NUM_RX_DESC && DriverShape(s.driver)
    && (s.controller.Filling? ==> s.controller.count <= RX_BUF_SIZE && s.controller.count <= |s.controller.frame|)
  }

  /** After set-up: nothing received, head at the first descriptor, tail at the last. */
  predicate IsInit(s: State) {
    && Shape(s) && (forall i | 0 <= i < NUM_RX_DESC :: !s.descs[i].done)
    && s.rdh == 0 && s.rdt == NUM_RX_DESC - 1 && s.rxCur == 0 && s.driver == Idle && s.controller == Ready
    && s.accepted == [] && s.delivered == [] && s.taken == 0
  }

  // ---- The steps -----------------------------------------------------------------------------

  function DriverStep(s: State): (s': State)
    requires Shape(s)
    ensures Shape(s')
  {
    match s.driver
    case Idle =>
      var cur := s.rxCur % NUM_RX_DESC;
      if s.descs[cur].done then s.(driver := Checked(cur)) else s
    case Checked(cur) =>
      var len := s.descs[cur].length;
      s.(driver := if ValidLength(len) then Copying(cur, len, []) else Clearing(cur, None))
    case Copying(cur, len, copied) =>
      s.(driver := if |copied| < len then Copying(cur, len, copied + [s.pool[cur * RX_BUF_SIZE + |copied|]])
                   else Clearing(cur, Some(copied)))
    case Clearing(cur, out) =>
      s.(descs := s.descs[cur := s.descs[cur].(done := false)], driver := ReadingTail(cur, out))
    case ReadingTail(cur, out) =>
      s.(driver := WritingTail(cur, out, s.rdt))
    case WritingTail(cur, out, oldRdt) =>
      s.(rdt := (oldRdt + 1) % NUM_RX_DESC, driver := StoringCursor(cur, out))
    case StoringCursor(cur, out) =>
      s.(rxCur := cur + 1, driver := Idle, taken := s.taken + 1,
         delivered := if out.Some? then s.delivered + [out.value] else s.delivered)
  }

  /** A frame arrives: the controller takes it if it owns a descriptor and is not busy with another. */
  function Arrive(s: State, frame: Frame): (s': State)
    requires Shape(s)
    ensures Shape(s')
  {
    if s.controller == Ready && s.rdh != s.rdt then s.(controller := Filling(frame, 0)) else s
  }

  function ControllerStep(s: State): (s': State)
    requires Shape(s)
    ensures Shape(s')
  {
    match s.controller
    case Ready => s
    case Filling(frame, i) =>
      if i < |frame| && i < RX_BUF_SIZE then
        s.(pool := s.pool[s.rdh * RX_BUF_SIZE + i := frame[i]], controller := Filling(frame, i + 1))
      else
        s.(descs := s.descs[s.rdh := Desc(|frame|, true)], controller := WroteBack, accepted := s.accepted + [frame])
    case WroteBack =>
      s.(rdh := (s.rdh + 1) % NUM_RX_DESC, controller := Ready)
  }

  datatype Step = DriverMove | FrameArrives(frame: Frame) | ControllerMove

  function Next(s: State, step: Step): (s': State)
    requires Shape(s)
    ensures Shape(s')
  {
    match step
    case DriverMove => DriverStep(s)
    case FrameArrives(frame) => Arrive(s, frame)
    case ControllerMove => ControllerStep(s)
  }

  /** Any interleaving is some sequence of steps. */
  function Run(s: State, steps: seq<Step>): (s': State)
    requires Shape(s)
    ensures Shape(s')
    decreases |steps|
  {
    if steps == [] then s else Next(Run(s, steps[..|steps| - 1]), steps[|steps| - 1])
  }

  // ---- The invariant ---------------------------------------------------------------------------

  function Slot(k: nat): (i: nat)
    ensures i < NUM_RX_DESC
  {
    k % NUM_RX_DESC
  }

  lemma SlotsDiffer(a: nat, b: nat)
    requires a < b < a + NUM_RX_DESC
    ensures Slot(a) != Slot(b)
  {
  }

  lemma NextSlot(k: nat)
    ensures (Slot(k) + 1) % NUM_RX_DESC == Slot(Slot(k) + 1) == Slot(k + 1)
  {
  }

  lemma OnceAround(k: nat)
    ensures Slot(k + NUM_RX_DESC) == Slot(k)
  {
  }

  /** What the driver hands over for a frame. */
  function Outcome(f: Frame): Option<seq<byte>> { if ValidLength(|f|) then Some(f) else None }

  function ValidOnes(fs: seq<Frame>): (r: seq<seq<byte>>) {
    if fs == [] then []
    else
      var f := fs[|fs| - 1];
      var rest := ValidOnes(fs[..|fs| - 1]);
      if ValidLength(|f|) then rest + [f] else rest
  }

  /** Descriptors the driver has marked empty, given back through tail, and the controller has moved past. */
  function Cleared(s: State): nat {
    s.taken + (if s.driver.ReadingTail? || s.driver.WritingTail? || s.driver.StoringCursor? then 1 else 0)
  }

  function Returned(s: State): nat { s.taken + (if s.driver.StoringCursor? then 1 else 0) }

  function Passed(s: State): int { |s.accepted| - (if s.controller.WroteBack? then 1 else 0) }

  predicate Counters(s: State) {
    && Slot(s.rxCur) == Slot(s.taken) && 0 <= Passed(s) && s.rdh == Slot(Passed(s))
    && s.rdt == Slot(Returned(s) + NUM_RX_DESC - 1)
    && Cleared(s) <= |s.accepted| < Returned(s) + NUM_RX_DESC
    && (s.controller.Filling? ==> |s.accepted| + 1 < Returned(s) + NUM_RX_DESC)
  }

  predicate DriverOk(s: State) {
    match s.driver
    case Idle => true
    case Checked(cur) => cur == Slot(s.taken) && s.taken < |s.accepted|
    case Copying(cur, len, copied) =>
      && cur == Slot(s.taken) && s.taken < |s.accepted| && len == |s.accepted[s.taken]| && ValidLength(len)
      && copied <= s.accepted[s.taken]
    case WritingTail(cur, out, oldRdt) =>
      cur == Slot(s.taken) && s.taken < |s.accepted| && out == Outcome(s.accepted[s.taken]) && oldRdt == s.rdt
    case _ => s.driver.cur == Slot(s.taken) && s.taken < |s.accepted| && s.driver.out == Outcome(s.accepted[s.taken])
  }

  /** Descriptor `k` is marked done exactly when it holds a frame, and then has its length. */
  predicate DescOk(descs: seq<Desc>, accepted: seq<Frame>, k: nat)
    requires |descs| == NUM_RX_DESC
  {
    var d := descs[Slot(k)];
    (d.done <==> k < |accepted|) && (k < |accepted| ==> d.length == |accepted[k]|)
  }

  /** All descriptors from the first not cleared, once around the ring. */
  ghost predicate RingOk(descs: seq<Desc>, accepted: seq<Frame>, cleared: nat)
    requires |descs| == NUM_RX_DESC
  {
    forall k: nat | cleared <= k < cleared + NUM_RX_DESC :: DescOk(descs, accepted, k)
  }

  predicate DataOk(pool: seq<byte>, accepted: seq<Frame>, k: nat)
    requires k < |accepted|
  {
    ValidLength(|accepted[k]|) ==> HoldsAt(pool, Slot(k) * RX_BUF_SIZE, accepted[k])
  }

  /** The buffers of the frames not cleared yet hold them. */
  ghost predicate PoolOk(pool: seq<byte>, accepted: seq<Frame>, cleared: nat) {
    forall k: nat | cleared <= k < |accepted| :: DataOk(pool, accepted, k)
  }

  predicate FillOk(pool: seq<byte>, slot: nat, c: Controller) {
    c.Filling? ==> c.count <= |c.frame| && HoldsAt(pool, slot * RX_BUF_SIZE, c.frame[..c.count])
  }

  ghost predicate Inv(s: State) {
    && Shape(s) && Counters(s) && DriverOk(s)
    && RingOk(s.descs, s.accepted, Cleared(s)) && PoolOk(s.pool, s.accepted, Cleared(s))
    && FillOk(s.pool, Slot(|s.accepted|), s.controller) && s.delivered == ValidOnes(s.accepted[..s.taken])
  }

  lemma InitInv(s: State)
    requires IsInit(s)
    ensures Inv(s)
  {
  }

  // ---- The driver keeps it -----------------------------------------------------------------------

  lemma ByteCopied(pool: seq<byte>, at: nat, f: seq<byte>, copied: seq<byte>)
    requires HoldsAt(pool, at, f) && copied <= f && |copied| < |f|
    ensures copied + [pool[at + |copied|]] <= f
  {
    assert pool[at + |copied|] == pool[at..at + |f|][|copied|];
  }

  lemma ClearKeepsRing(descs: seq<Desc>, accepted: seq<Frame>, c: nat)
    requires |descs| == NUM_RX_DESC && RingOk(descs, accepted, c) && c < |accepted| < c + NUM_RX_DESC
    ensures RingOk(descs[Slot(c) := descs[Slot(c)].(done := false)], accepted, c + 1)
  {
    var after := descs[Slot(c) := descs[Slot(c)].(done := false)];
    forall k: nat | c + 1 <= k < c + 1 + NUM_RX_DESC ensures DescOk(after, accepted, k) {
      if k < c + NUM_RX_DESC {
        SlotsDiffer(c, k);
        assert DescOk(descs, accepted, k);
      } else {
        assert Slot(k) == Slot(c);
      }
    }
  }

  lemma CopyKeeps(s: State)
    requires Inv(s) && (s.driver.Checked? || s.driver.Copying?)
    ensures Inv(DriverStep(s))
  {
    var k := s.taken;
    var f := s.accepted[k];
    assert DescOk(s.descs, s.accepted, k) && DataOk(s.pool, s.accepted, k);
    if s.driver.Copying? && |s.driver.copied| < s.driver.len {
      ByteCopied(s.pool, s.driver.cur * RX_BUF_SIZE, f, s.driver.copied);
    } else if s.driver.Copying? {
      assert s.driver.copied == f;
    }
  }

  lemma ClearKeeps(s: State)
    requires Inv(s) && s.driver.Clearing?
    ensures Inv(DriverStep(s))
  {
    ClearKeepsRing(s.descs, s.accepted, s.taken);
  }

  lemma ReturnKeeps(s: State)
    requires Inv(s) && (s.driver.ReadingTail? || s.driver.WritingTail?)
    ensures Inv(DriverStep(s))
  {
    NextSlot(Returned(s) + NUM_RX_DESC - 1);
  }

  lemma StoreKeeps(s: State)
    requires Inv(s) && s.driver.StoringCursor?
    ensures Inv(DriverStep(s))
  {
    var k := s.taken;
    NextSlot(k);
    assert s.accepted[..k + 1][..k] == s.accepted[..k];
  }

  lemma DriverKeeps(s: State)
    requires Inv(s)
    ensures Inv(DriverStep(s))
  {
    match s.driver
    case Idle =>
      assert s.taken < |s.accepted| + 1 && DescOk(s.descs, s.accepted, s.taken);
    case Checked(_) => CopyKeeps(s);
    case Copying(_, _, _) => CopyKeeps(s);
    case Clearing(_, _) => ClearKeeps(s);
    case StoringCursor(_, _) => StoreKeeps(s);
    case _ => ReturnKeeps(s);
  }

  // ---- The controller keeps it ----------------------------------------------------------------------

  lemma ArriveKeeps(s: State, frame: Frame)
    requires Inv(s)
    ensures Inv(Arrive(s, frame))
  {
  }

  /** Two slots' buffers do not overlap. */
  lemma BuffersApart(pool: seq<byte>, a: nat, b: nat, i: nat, x: byte, f: seq<byte>)
    requires a != b && i < RX_BUF_SIZE && |f| <= RX_BUF_SIZE && b * RX_BUF_SIZE + i < |pool|
    requires HoldsAt(pool, a * RX_BUF_SIZE, f)
    ensures HoldsAt(pool[b * RX_BUF_SIZE + i := x], a * RX_BUF_SIZE, f)
  {
    assert a < b ==> (a + 1) * RX_BUF_SIZE <= b * RX_BUF_SIZE;
    var lo, hi := a * RX_BUF_SIZE, a * RX_BUF_SIZE + |f|;
    assert pool[b * RX_BUF_SIZE + i := x][lo..hi] == pool[lo..hi];
  }

  lemma FillKeepsPool(pool: seq<byte>, accepted: seq<Frame>, c: nat, i: nat, x: byte)
    requires |pool| == NUM_RX_DESC * RX_BUF_SIZE && PoolOk(pool, accepted, c) && |accepted| < c + NUM_RX_DESC
    requires i < RX_BUF_SIZE
    ensures Slot(|accepted|) * RX_BUF_SIZE + i < |pool|
    ensures PoolOk(pool[Slot(|accepted|) * RX_BUF_SIZE + i := x], accepted, c)
  {
    var b := Slot(|accepted|);
    assert (b + 1) * RX_BUF_SIZE <= NUM_RX_DESC * RX_BUF_SIZE;
    var after := pool[b * RX_BUF_SIZE + i := x];
    forall k: nat | c <= k < |accepted| ensures DataOk(after, accepted, k) {
      assert DataOk(pool, accepted, k);
      SlotsDiffer(k, |accepted|);
      if ValidLength(|accepted[k]|) { BuffersApart(pool, Slot(k), b, i, x, accepted[k]); }
    }
  }

  lemma ByteFilled(pool: seq<byte>, at: nat, f: seq<byte>, i: nat)
    requires i < |f| && HoldsAt(pool, at, f[..i]) && at + i < |pool|
    ensures HoldsAt(pool[at + i := f[i]], at, f[..i + 1])
  {
    assert pool[at + i := f[i]][at..at + i + 1] == pool[at..at + i] + [f[i]];
  }

  lemma FillKeeps(s: State)
    requires Inv(s) && s.controller.Filling?
    requires s.controller.count < |s.controller.frame| && s.controller.count < RX_BUF_SIZE
    ensures Inv(ControllerStep(s))
  {
    var f, i := s.controller.frame, s.controller.count;
    FillKeepsPool(s.pool, s.accepted, Cleared(s), i, f[i]);
    ByteFilled(s.pool, s.rdh * RX_BUF_SIZE, f, i);
  }

  lemma WriteBackKeepsRing(descs: seq<Desc>, accepted: seq<Frame>, c: nat, f: Frame)
    requires |descs| == NUM_RX_DESC && RingOk(descs, accepted, c) && c <= |accepted| < c + NUM_RX_DESC
    ensures RingOk(descs[Slot(|accepted|) := Desc(|f|, true)], accepted + [f], c)
  {
    var n := |accepted|;
    var after := descs[Slot(n) := Desc(|f|, true)];
    forall k: nat | c <= k < c + NUM_RX_DESC ensures DescOk(after, accepted + [f], k) {
      assert DescOk(descs, accepted, k);
      if k < n { SlotsDiffer(k, n); } else if k > n { SlotsDiffer(n, k); }
    }
  }

  lemma WriteBackKeepsPool(pool: seq<byte>, accepted: seq<Frame>, c: nat, f: Frame)
    requires PoolOk(pool, accepted, c)
    requires ValidLength(|f|) ==> HoldsAt(pool, Slot(|accepted|) * RX_BUF_SIZE, f)
    ensures PoolOk(pool, accepted + [f], c)
  {
    forall k: nat | c <= k < |accepted + [f]| ensures DataOk(pool, accepted + [f], k) {
      if k < |accepted| { assert DataOk(pool, accepted, k); }
    }
  }

  lemma WriteBackKeeps(s: State)
    requires Inv(s) && s.controller.Filling?
    requires s.controller.count == |s.controller.frame| || s.controller.count >= RX_BUF_SIZE
    ensures Inv(ControllerStep(s))
  {
    var f := s.controller.frame;
    assert ValidLength(|f|) ==> f[..s.controller.count] == f;
    WriteBackKeepsRing(s.descs, s.accepted, Cleared(s), f);
    WriteBackKeepsPool(s.pool, s.accepted, Cleared(s), f);
    assert (s.accepted + [f])[..s.taken] == s.accepted[..s.taken];
  }

  lemma ControllerKeeps(s: State)
    requires Inv(s)
    ensures Inv(ControllerStep(s))
  {
    match s.controller
    case Ready =>
    case WroteBack => NextSlot(Passed(s));
    case Filling(f, i) =>
      if i < |f| && i < RX_BUF_SIZE { FillKeeps(s); } else { WriteBackKeeps(s); }
  }

  lemma {:induction false} RunKeeps(s: State, steps: seq<Step>)
    requires IsInit(s)
    ensures Inv(Run(s, steps))
    decreases |steps|
  {
    if steps == [] {
      InitInv(s);
    } else {
      var n := |steps| - 1;
      RunKeeps(s, steps[..n]);
      match steps[n]
      case DriverMove => DriverKeeps(Run(s, steps[..n]));
      case FrameArrives(frame) => ArriveKeeps(Run(s, steps[..n]), frame);
      case ControllerMove => ControllerKeeps(Run(s, steps[..n]));
    }
  }

  // ---- What holds in every run -------------------------------------------------------------------------

  /** Between polls, tail is one slot behind the driver's cursor. */
  lemma TailBehindCursor(s: State, steps: seq<Step>)
    requires IsInit(s) && Run(s, steps).driver == Idle
    ensures var r := Run(s, steps); (r.rdt + 1) % 32 == r.rxCur % 32
  {
    RunKeeps(s, steps);
    var r := Run(s, steps);
    NextSlot(r.taken + NUM_RX_DESC - 1);
    OnceAround(r.taken);
  }

  /**
   * While the controller writes a frame, its descriptor is not marked done and is not the one the driver is
   * working on.
   */
  lemma ControllerOwnsItsSlot(s: State, steps: seq<Step>)
    requires IsInit(s) && Run(s, steps).controller.Filling?
    ensures var r := Run(s, steps); !r.descs[r.rdh].done
    ensures var r := Run(s, steps); r.driver != Idle ==> r.driver.cur != r.rdh
  {
    RunKeeps(s, steps);
    var r := Run(s, steps);
    assert DescOk(r.descs, r.accepted, |r.accepted|);
    if r.driver != Idle { SlotsDiffer(r.taken, |r.accepted|); }
  }

  /** The frames handed over are the accepted ones of a length the driver takes, in order, each once... */
  lemma DeliveredInOrder(s: State, steps: seq<Step>)
    requires IsInit(s)
    ensures var r := Run(s, steps); r.taken <= |r.accepted| && r.delivered == ValidOnes(r.accepted[..r.taken])
  {
    RunKeeps(s, steps);
  }

  // Which frames those are, in numbers.

  function FromOneTo2048(): Frame -> bool { (f: Frame) => 1 <= |f| <= 2048 }

  function Whole(): Frame -> seq<byte> { (f: Frame) => f }

  lemma {:induction false} ValidPicks(fs: seq<Frame>) returns (ks: seq<nat>)
    ensures Picking.Positions(ks, fs, FromOneTo2048()) && Picking.Picked(ValidOnes(fs), ks, fs, Whole())
    decreases |fs|
  {
    if fs == [] {
      ks := [];
      Picking.PositionsNone(FromOneTo2048());
    } else {
      var front, f := fs[..|fs| - 1], fs[|fs| - 1];
      ks := ValidPicks(front);
      assert fs == front + [f];
      if ValidLength(|f|) {
        Picking.PositionsTake(ks, front, f, FromOneTo2048());
        Picking.PickedTake(ValidOnes(front), ks, front, f, Whole());
        ks := ks + [|front|];
      } else {
        Picking.PositionsSkip(ks, front, f, FromOneTo2048());
        Picking.PickedSkip(ValidOnes(front), ks, front, f, Whole());
      }
    }
  }

  /**
   * In every run the frames handed over are those the driver has come to, of those written back, that have from 1 to
   * 2048 bytes, in order, each once, and no others.
   */
  lemma DeliveredAre(s: State, steps: seq<Step>) returns (ks: seq<nat>)
    requires IsInit(s)
    ensures var r := Run(s, steps);
            && r.taken <= |r.accepted| && |ks| == |r.delivered| && Picking.Increasing(ks)
            && (forall k: nat | k < r.taken :: k in ks <==> 1 <= |r.accepted[k]| <= 2048)
            && forall j | 0 <= j < |ks| :: ks[j] < r.taken && r.delivered[j] == r.accepted[ks[j]]
  {
    DeliveredInOrder(s, steps);
    var r := Run(s, steps);
    var fs := r.accepted[..r.taken];
    ks := ValidPicks(fs);
    forall k: nat | k < r.taken ensures k in ks <==> 1 <= |r.accepted[k]| <= 2048 { assert fs[k] == r.accepted[k]; }
    forall j | 0 <= j < |ks| ensures ks[j] < r.taken && r.delivered[j] == r.accepted[ks[j]] {
      assert fs[ks[j]] == r.accepted[ks[j]];
    }
  }

  /** ...and all of them once a poll finds nothing. */
  lemma NothingLeftBehind(s: State, steps: seq<Step>)
    requires IsInit(s) && Run(s, steps).driver == Idle && DriverStep(Run(s, steps)).driver == Idle
    ensures var r := Run(s, steps); r.taken == |r.accepted| && r.delivered == ValidOnes(r.accepted)
  {
    RunKeeps(s, steps);
    var r := Run(s, steps);
    assert DescOk(r.descs, r.accepted, r.taken);
    assert r.accepted[..|r.accepted|] == r.accepted;
  }

  /** The controller alone, `n` steps. */
  function Receive(s: State, n: nat): (s': State)
    requires Shape(s)
    ensures Shape(s')
    decreases n
  {
    if n == 0 then s else Receive(ControllerStep(s), n - 1)
  }

  /** A frame being written is done after its bytes, as far as the buffer goes, and two more steps. */
  lemma {:induction false} FrameCompletes(s: State, n: nat)
    requires Shape(s) && s.controller.Filling?
    requires n == (if |s.controller.frame| < 2048 then |s.controller.frame| else 2048) - s.controller.count
    ensures var r := Receive(s, n + 2);
            && r.controller == Ready && r.accepted == s.accepted + [s.controller.frame] && r.rdh == (s.rdh + 1) % 32
            && r.descs[s.rdh] == Desc(|s.controller.frame|, true)
    decreases n
  {
    var t := ControllerStep(s);
    if n == 0 {
      assert Receive(t, 1) == ControllerStep(t);
    } else {
      FrameCompletes(t, n - 1);
    }
  }

  /** The frames the controller took on, in order of arrival. */
  function TakenOn(s: State, steps: seq<Step>): (fs: seq<Frame>)
    requires Shape(s)
    decreases |steps|
  {
    if steps == [] then []
    else
      var n := |steps| - 1;
      var r, fs := Run(s, steps[..n]), TakenOn(s, steps[..n]);
      if steps[n].FrameArrives? && r.controller == Ready && r.rdh != r.rdt then fs + [steps[n].frame] else fs
  }

  function InFlight(c: Controller): seq<Frame> { if c.Filling? then [c.frame] else [] }

  lemma StepTakesOn(r: State, step: Step)
    requires Shape(r)
    ensures var r' := Next(r, step);
            r'.accepted + InFlight(r'.controller) ==
            r.accepted + InFlight(r.controller) +
            if step.FrameArrives? && r.controller == Ready && r.rdh != r.rdt then [step.frame] else []
  {
  }

  /** Every frame taken on is written back, in order, or is the one being written. */
  lemma {:induction false} TakenOnIsAccepted(s: State, steps: seq<Step>)
    requires IsInit(s)
    ensures TakenOn(s, steps) == Run(s, steps).accepted + InFlight(Run(s, steps).controller)
    decreases |steps|
  {
    if steps == [] {
    } else {
      var n := |steps| - 1;
      TakenOnIsAccepted(s, steps[..n]);
      StepTakesOn(Run(s, steps[..n]), steps[n]);
    }
  }

  /** A frame is turned away exactly when 31 descriptors hold frames that the driver has not given back. */
  lemma FullMeansFull(s: State, steps: seq<Step>, frame: Frame)
    requires IsInit(s) && Run(s, steps).controller == Ready
    ensures var r := Run(s, steps);
            Arrive(r, frame).controller == Ready <==> |r.accepted| == Returned(r) + 31
  {
    RunKeeps(s, steps);
    var r := Run(s, steps);
    if |r.accepted| < Returned(r) + NUM_RX_DESC - 1 { SlotsDiffer(|r.accepted|, Returned(r) + NUM_RX_DESC - 1); }
  }

  // ---- A whole poll -------------------------------------------------------------------------------------

  /** The driver alone, `n` steps. */
  function Drive(s: State, n: nat): (s': State)
    requires Shape(s)
    decreases n
  {
    if n == 0 then s else Drive(DriverStep(s), n - 1)
  }

  lemma {:induction false} RunFirst(s: State, step: Step, steps: seq<Step>)
    requires Shape(s)
    ensures Run(s, [step] + steps) == Run(Next(s, step), steps)
    decreases |steps|
  {
    var n, all := |steps|, [step] + steps;
    if n == 0 {
      assert all[..0] == [] && steps == [];
    } else {
      RunFirst(s, step, steps[..n - 1]);
      assert all[..n] == [step] + steps[..n - 1];
    }
  }

  /** Such a run is one of the interleavings. */
  lemma {:induction false} DriveIsRun(s: State, n: nat)
    requires Shape(s)
    ensures Drive(s, n) == Run(s, seq(n, _ => DriverMove))
    decreases n
  {
    if n == 0 {
    } else {
      DriveIsRun(DriverStep(s), n - 1);
      var rest := seq(n - 1, _ => DriverMove);
      RunFirst(s, DriverMove, rest);
      assert seq(n, _ => DriverMove) == [DriverMove] + rest;
    }
  }

  /** The end of a poll, once the frame is copied or refused. */
  function GivenBack(s: State, cur: nat, out: Option<seq<byte>>): (s': State)
    requires Shape(s) && cur < NUM_RX_DESC
  {
    s.(descs := s.descs[cur := s.descs[cur].(done := false)], rdt := (s.rdt + 1) % NUM_RX_DESC, rxCur := cur + 1,
       driver := Idle, taken := s.taken + 1,
       delivered := if out.Some? then s.delivered + [out.value] else s.delivered)
  }

  /** The frame in a descriptor, as far as the driver takes it. */
  function Found(s: State, cur: nat): (out: Option<seq<byte>>)
    requires Shape(s) && cur < NUM_RX_DESC
  {
    var at, len := cur * RX_BUF_SIZE, s.descs[cur].length;
    if ValidLength(len) then Some(s.pool[at..at + len]) else None
  }

  /** A poll that is not interleaved with anything, as one step. */
  function Polled(s: State): (s': State)
    requires Shape(s) && s.driver == Idle
    ensures Shape(s')
  {
    var cur := s.rxCur % NUM_RX_DESC;
    if s.descs[cur].done then GivenBack(s, cur, Found(s, cur)) else s
  }

  function PollLength(s: State): (n: nat)
    requires Shape(s) && s.driver == Idle
    ensures n <= RX_BUF_SIZE + 7
  {
    var d := s.descs[s.rxCur % NUM_RX_DESC];
    if !d.done then 1 else if ValidLength(d.length) then d.length + 7 else 6
  }

  /** One byte of the copy. */
  lemma CopyByte(s: State, at: nat, out: Option<seq<byte>>)
    requires Shape(s) && s.driver.Copying? && |s.driver.copied| < s.driver.len && at == s.driver.cur * RX_BUF_SIZE
    requires HoldsAt(s.pool, at, s.driver.copied)
    ensures var t := DriverStep(s);
            && t.driver.Copying? && t.driver.cur == s.driver.cur && t.driver.len == s.driver.len && t.pool == s.pool
            && |t.driver.copied| == |s.driver.copied| + 1 && HoldsAt(s.pool, at, t.driver.copied)
            && GivenBack(t, s.driver.cur, out) == GivenBack(s, s.driver.cur, out)
  {
    var c := s.driver.copied;
    assert s.pool[at..at + |c| + 1] == c + [s.pool[at + |c|]];
  }

  /** The step behind the last byte. */
  lemma CopyEnds(s: State, at: nat, out: Option<seq<byte>>)
    requires Shape(s) && s.driver.Copying? && |s.driver.copied| == s.driver.len && at == s.driver.cur * RX_BUF_SIZE
    requires HoldsAt(s.pool, at, s.driver.copied) && out == Some(s.pool[at..at + |s.driver.copied|])
    ensures var t := DriverStep(s);
            && t.driver == Clearing(s.driver.cur, out)
            && GivenBack(t, s.driver.cur, out) == GivenBack(s, s.driver.cur, out)
  {
  }

  /** From the byte behind `copied` to the end of the poll. */
  lemma {:induction false} CopyRun(s: State, n: nat, cur: nat, at: nat, out: Option<seq<byte>>)
    requires Shape(s) && s.driver.Copying? && n == s.driver.len - |s.driver.copied| && cur == s.driver.cur
    requires at == cur * RX_BUF_SIZE && at + s.driver.len <= |s.pool| && HoldsAt(s.pool, at, s.driver.copied)
    requires out == Some(s.pool[at..at + s.driver.len])
    ensures Drive(s, n + 5) == GivenBack(s, cur, out)
    decreases n
  {
    var t := DriverStep(s);
    if n == 0 {
      CopyEnds(s, at, out);
      GiveBack(t);
    } else {
      CopyByte(s, at, out);
      CopyRun(t, n - 1, cur, at, out);
    }
    assert Drive(s, n + 5) == Drive(t, n + 4);
  }

  /** From clearing the descriptor to the end of the poll. */
  lemma GiveBack(s: State)
    requires Shape(s) && s.driver.Clearing?
    ensures Drive(s, 4) == GivenBack(s, s.driver.cur, s.driver.out)
  {
    var a := DriverStep(s);
    var b := DriverStep(a);
    var c := DriverStep(b);
    assert Drive(s, 4) == Drive(a, 3);
    assert Drive(a, 3) == Drive(b, 2);
    assert Drive(b, 2) == Drive(c, 1);
  }

  lemma PollCopies(s: State, b: State, cur: nat, len: nat)
    requires Shape(s) && cur < NUM_RX_DESC && len == s.descs[cur].length && ValidLength(len)
    requires b == s.(driver := Copying(cur, len, []))
    ensures Drive(b, len + 5) == GivenBack(s, cur, Found(s, cur))
  {
    var at := cur * RX_BUF_SIZE;
    CopyRun(b, len, cur, at, Some(s.pool[at..at + len]));
  }

  lemma PollRefuses(s: State, b: State, cur: nat)
    requires Shape(s) && cur < NUM_RX_DESC && !ValidLength(s.descs[cur].length)
    requires b == s.(driver := Clearing(cur, None))
    ensures Drive(b, 4) == GivenBack(s, cur, Found(s, cur))
  {
    GiveBack(b);
  }

  /** The single accesses of a poll, one after the other, add up to the whole poll, which so is one of the runs. */
  lemma PollIsSteps(s: State)
    requires Shape(s) && s.driver == Idle
    ensures Drive(s, PollLength(s)) == Polled(s) == Run(s, seq(PollLength(s), _ => DriverMove))
  {
    DriveIsRun(s, PollLength(s));
    var cur := s.rxCur % NUM_RX_DESC;
    var len := s.descs[cur].length;
    if s.descs[cur].done {
      var n, a := PollLength(s) - 2, DriverStep(s);
      var b := DriverStep(a);
      if ValidLength(len) { PollCopies(s, b, cur, len); } else { PollRefuses(s, b, cur); }
      assert Drive(s, n + 2) == Drive(a, n + 1) == Drive(b, n);
    } else {
      assert Drive(s, 1) == Drive(s, 0);
    }
  }

  // ---- The code -------------------------------------------------------------------------------------------

  /** One device's receive state; the ghost fields are what has happened so far. */
  class Nic {
    const descs: array<Desc>
    const pool: array<byte>
    var rdh: nat
    var rdt: nat
    var rxCur: nat
    ghost var accepted: seq<Frame>
    ghost var delivered: seq<seq<byte>>
    ghost var taken: nat

    /** The state between polls and between frames. */
    ghost function View(): (s: State)
      reads this, descs, pool
    {
      State(descs[..], pool[..], rdh, rdt, rxCur, Idle, Ready, accepted, delivered, taken)
    }

    /** Ring set-up: tail at the last descriptor, every descriptor marked empty, whatever it held before. */
    constructor (descs: array<Desc>, pool: array<byte>)
      requires descs.Length == NUM_RX_DESC && pool.Length == NUM_RX_DESC * RX_BUF_SIZE
      modifies descs
      ensures this.descs == descs && this.pool == pool && IsInit(View())
    {
      this.descs, this.pool := descs, pool;
      rdh, rdt, rxCur := 0, NUM_RX_DESC - 1, 0;
      accepted, delivered, taken := [], [], 0;
      new;
      for i := 0 to NUM_RX_DESC
        invariant forall k | 0 <= k < i :: !descs[k].done
        invariant rdh == 0 && rdt == NUM_RX_DESC - 1 && rxCur == 0 && accepted == [] && delivered == [] && taken == 0
        modifies descs
      {
        descs[i] := descs[i].(done := false);
      }
    }

    /** Give the descriptor back to the controller. */
    method GiveBack(cur: nat, ghost out: Option<seq<byte>>)
      requires Shape(View()) && cur < NUM_RX_DESC
      modifies this, descs
      ensures View() == GivenBack(old(View()), cur, out)
    {
      descs[cur] := descs[cur].(done := false);
      var oldRdt := rdt;
      rdt := (oldRdt + 1) % NUM_RX_DESC;
      rxCur := cur + 1;
      taken := taken + 1;
      delivered := if out.Some? then delivered + [out.value] else delivered;
    }

    /** One poll: the frame is in `buf` when the result says so, and the shared state is that of the spec. */
    method Poll(buf: array<byte>) returns (r: Option<nat>)
      requires Inv(View()) && buf.Length >= RX_BUF_SIZE && buf != pool
      modifies this, descs, buf
      ensures Inv(View()) && View() == Polled(old(View()))
      ensures r.Some? <==> old(taken < |accepted| && 1 <= |accepted[taken]| <= 2048)
      ensures r.Some? ==> r.value <= buf.Length && buf[..r.value] == old(accepted[taken])
    {
      ghost var s := View();
      PollKeeps(s);
      assert DescOk(descs[..], accepted, taken);
      var cur := rxCur % NUM_RX_DESC;
      if !descs[cur].done { return None; }
      assert DataOk(pool[..], accepted, taken);
      var len := descs[cur].length;
      if len == 0 || len > RX_BUF_SIZE {
        GiveBack(cur, None);
        return None;
      }
      var at := cur * RX_BUF_SIZE;
      for i := 0 to len
        invariant forall k | 0 <= k < i :: buf[k] == pool[at + k]
        invariant View() == s
        modifies buf
      {
        buf[i] := pool[at + i];
      }
      assert buf[..len] == pool[at..at + len];
      GiveBack(cur, Some(pool[at..at + len]));
      return Some(len);
    }
  }

  lemma {:induction false} DriveKeeps(s: State, n: nat)
    requires Inv(s)
    ensures Inv(Drive(s, n))
    decreases n
  {
    if n == 0 {
    } else {
      DriverKeeps(s);
      DriveKeeps(DriverStep(s), n - 1);
    }
  }

  lemma PollKeeps(s: State)
    requires Inv(s) && s.driver == Idle
    ensures Inv(Polled(s))
  {
    DriveKeeps(s, PollLength(s));
    PollIsSteps(s);
  }
}
