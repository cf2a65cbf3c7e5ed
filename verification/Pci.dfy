/** Finding the PCI buses: a worklist over bus numbers, kept in a fixed array of 256 entries. */
module Pci {
  import opened Bytes
  import Pigeonhole

  const MAX_BUSES: nat := 256
  const NUM_DEVICES: nat := 32
  const NUM_FUNCTIONS: nat := 8

  /** The fields of a function's configuration space that the scan reads. */
  datatype Fn = Fn(vendor: nat, headerType: nat, class_: nat, subclass: nat, secondary: byte)

  /** The configuration space by bus, device and function, the same at every read. */
  type Config = (byte, nat, nat) -> Fn

  predicate Answers(f: Fn) { f.vendor != 0xFFFF && f.vendor != 0 }

  function MaxFunc(cfg: Config, bus: byte, d: nat): nat {
    if cfg(bus, d, 0).headerType / 0x80 % 2 == 1 then NUM_FUNCTIONS else 1
  }

  /** A function the scan finds: device and function answer, and only function 0 unless there are several. */
  predicate Present(cfg: Config, bus: byte, d: nat, f: nat) {
    Answers(cfg(bus, d, 0)) && f < MaxFunc(cfg, bus, d) && Answers(cfg(bus, d, f))
  }

  predicate Bridge(f: Fn) { f.class_ == 0x06 && f.subclass == 0x04 && f.secondary != 0 }

  // ---- What is to be found ------------------------------------------------------------------

  predicate Leads(cfg: Config, a: byte, d: nat, f: nat, b: byte) {
    Present(cfg, a, d, f) && Bridge(cfg(a, d, f)) && cfg(a, d, f).secondary == b
  }

  predicate LeadsFrom(cfg: Config, a: byte, d: nat, b: byte) {
    exists f | 0 <= f < NUM_FUNCTIONS :: Leads(cfg, a, d, f, b)
  }

  /** There is a bridge from one bus to the other. */
  predicate Edge(cfg: Config, a: byte, b: byte) {
    exists d | 0 <= d < NUM_DEVICES :: LeadsFrom(cfg, a, d, b)
  }

  predicate IsPath(cfg: Config, p: seq<byte>) {
    p != [] && p[0] == 0 && forall i | 0 <= i < |p| - 1 :: Edge(cfg, p[i], p[i + 1])
  }

  ghost predicate Reachable(cfg: Config, b: byte) { exists p :: IsPath(cfg, p) && p[|p| - 1] == b }

  /** The functions of one device below `n`, of one bus on devices below `n`. */
  function CountFuncs(cfg: Config, bus: byte, d: nat, n: nat): nat {
    if n == 0 then 0 else CountFuncs(cfg, bus, d, n - 1) + if Present(cfg, bus, d, n - 1) then 1 else 0
  }

  function CountDevs(cfg: Config, bus: byte, n: nat): nat {
    if n == 0 then 0 else CountDevs(cfg, bus, n - 1) + CountFuncs(cfg, bus, n - 1, NUM_FUNCTIONS)
  }

  function CountAll(cfg: Config, buses: seq<byte>): nat {
    if buses == [] then 0
    else CountAll(cfg, buses[..|buses| - 1]) + CountDevs(cfg, buses[|buses| - 1], NUM_DEVICES)
  }

  // ---- The same on raw field values -----------------------------------------------------------

  predicate NoDevice(vendor: nat) { vendor == 0 || vendor == 0xFFFF }

  /** A function of the bus: device 0 to 31, function 0 to 7, others than 0 only behind bit 7 of the header type. */
  predicate Function(cfg: Config, bus: byte, d: nat, f: nat) {
    && d < 32 && f < 8 && !NoDevice(cfg(bus, d, 0).vendor) && !NoDevice(cfg(bus, d, f).vendor)
    && (f == 0 || cfg(bus, d, 0).headerType % 256 >= 128)
  }

  /** A function that is a bridge to bus `b`: class 6, subclass 4. */
  predicate BridgeTo(cfg: Config, a: byte, d: nat, f: nat, b: byte) {
    var x := cfg(a, d, f);
    Function(cfg, a, d, f) && x.class_ == 6 && x.subclass == 4 && x.secondary == b && b != 0
  }

  lemma HeaderBit(h: nat)
    ensures h / 0x80 % 2 == 1 <==> h % 256 >= 128
  {
    assert h == 256 * (h / 256) + h % 256;
    assert h / 0x80 == 2 * (h / 256) + h % 256 / 0x80;
  }

  lemma PresentIff(cfg: Config, bus: byte, d: nat, f: nat)
    requires d < 32 && f < 8
    ensures Present(cfg, bus, d, f) <==> Function(cfg, bus, d, f)
  {
    HeaderBit(cfg(bus, d, 0).headerType);
  }

  /** One bus leads to another exactly when some function of it is a bridge to the other. */
  lemma EdgeIff(cfg: Config, a: byte, b: byte)
    ensures Edge(cfg, a, b) <==> exists d: nat, f: nat :: BridgeTo(cfg, a, d, f, b)
  {
    if Edge(cfg, a, b) {
      var d :| 0 <= d < NUM_DEVICES && LeadsFrom(cfg, a, d, b);
      var f :| 0 <= f < NUM_FUNCTIONS && Leads(cfg, a, d, f, b);
      PresentIff(cfg, a, d, f);
      assert BridgeTo(cfg, a, d, f, b);
    }
    if d: nat, f: nat :| BridgeTo(cfg, a, d, f, b) {
      PresentIff(cfg, a, d, f);
      assert Leads(cfg, a, d, f, b) && LeadsFrom(cfg, a, d, b);
    }
  }

  type Place = (byte, nat, nat)

  function FunctionsOfDevice(cfg: Config, bus: byte, d: nat, n: nat): set<Place> {
    set f: nat | f < n && Function(cfg, bus, d, f) :: (bus, d, f)
  }

  function FunctionsOfDevices(cfg: Config, bus: byte, n: nat): set<Place> {
    set d: nat, f: nat | d < n && f < 8 && Function(cfg, bus, d, f) :: (bus, d, f)
  }

  /** All functions on some buses. */
  function FunctionsOn(cfg: Config, buses: seq<byte>): set<Place> {
    set b, d: nat, f: nat | b in buses && d < 32 && f < 8 && Function(cfg, b, d, f) :: (b, d, f)
  }

  lemma {:induction false} FuncsCounted(cfg: Config, bus: byte, d: nat, n: nat)
    requires d < 32 && n <= 8
    ensures CountFuncs(cfg, bus, d, n) == |FunctionsOfDevice(cfg, bus, d, n)|
    decreases n
  {
    if n == 0 {
      assert FunctionsOfDevice(cfg, bus, d, n) == {};
    } else {
      var f: nat := n - 1;
      FuncsCounted(cfg, bus, d, f);
      PresentIff(cfg, bus, d, f);
      var one: set<Place> := if Function(cfg, bus, d, f) then {(bus, d, f)} else {};
      assert FunctionsOfDevice(cfg, bus, d, n) == FunctionsOfDevice(cfg, bus, d, f) + one;
    }
  }

  lemma {:induction false} DevsCounted(cfg: Config, bus: byte, n: nat)
    requires n <= 32
    ensures CountDevs(cfg, bus, n) == |FunctionsOfDevices(cfg, bus, n)|
    decreases n
  {
    if n == 0 {
      assert FunctionsOfDevices(cfg, bus, n) == {};
    } else {
      var d: nat := n - 1;
      DevsCounted(cfg, bus, d);
      FuncsCounted(cfg, bus, d, NUM_FUNCTIONS);
      var one := FunctionsOfDevice(cfg, bus, d, 8);
      assert FunctionsOfDevices(cfg, bus, n) == FunctionsOfDevices(cfg, bus, d) + one;
      assert FunctionsOfDevices(cfg, bus, d) !! one;
    }
  }

  /** The count over buses without duplicates is the number of their functions. */
  lemma {:induction false} AllCounted(cfg: Config, buses: seq<byte>)
    requires NoDuplicates(buses)
    ensures CountAll(cfg, buses) == |FunctionsOn(cfg, buses)|
    decreases |buses|
  {
    if buses == [] {
      assert FunctionsOn(cfg, buses) == {};
    } else {
      var front, bus := buses[..|buses| - 1], buses[|buses| - 1];
      AllCounted(cfg, front);
      DevsCounted(cfg, bus, NUM_DEVICES);
      var one := FunctionsOfDevices(cfg, bus, 32);
      assert buses == front + [bus];
      assert FunctionsOn(cfg, buses) == FunctionsOn(cfg, front) + one;
      assert bus !in front;
      assert FunctionsOn(cfg, front) !! one;
    }
  }

  // ---- The list ------------------------------------------------------------------------------------

  predicate NoDuplicates(list: seq<byte>) { forall i, j | 0 <= i < j < |list| :: list[i] != list[j] }

  function Add(list: seq<byte>, b: byte): (r: seq<byte>)
    ensures NoDuplicates(list) ==> NoDuplicates(r)
  {
    if b == 0 || b in list then list else list + [b]
  }

  /** A list of bus numbers without duplicates fits, and has room for any bus that is not in it. */
  lemma NeverFull(list: seq<byte>)
    requires NoDuplicates(list)
    ensures |list| <= MAX_BUSES
    ensures (exists b: byte :: b !in list) ==> |list| < MAX_BUSES
  {
    if |list| > MAX_BUSES {
      var i, j := Pigeonhole.Repeats(list, MAX_BUSES);
    }
    if b: byte :| b !in list {
      if |list| == MAX_BUSES {
        var longer := list + [b];
        var i, j := Pigeonhole.Repeats(longer, MAX_BUSES);
      }
    }
  }

  /** The list after the functions of one device below `n`, after the devices of one bus below `n`. */
  function AfterFuncs(cfg: Config, bus: byte, d: nat, n: nat, list: seq<byte>): (r: seq<byte>)
    ensures list <= r && (NoDuplicates(list) ==> NoDuplicates(r))
  {
    if n == 0 then list
    else
      var l, x := AfterFuncs(cfg, bus, d, n - 1, list), cfg(bus, d, n - 1);
      if Present(cfg, bus, d, n - 1) && Bridge(x) then Add(l, x.secondary) else l
  }

  function AfterDevs(cfg: Config, bus: byte, n: nat, list: seq<byte>): (r: seq<byte>)
    ensures list <= r && (NoDuplicates(list) ==> NoDuplicates(r))
  {
    if n == 0 then list else AfterFuncs(cfg, bus, n - 1, NUM_FUNCTIONS, AfterDevs(cfg, bus, n - 1, list))
  }

  lemma {:induction false} FuncsFound(cfg: Config, bus: byte, d: nat, n: nat, list: seq<byte>, b: byte)
    ensures b in AfterFuncs(cfg, bus, d, n, list) <==>
              b in list || exists f | 0 <= f < n :: Leads(cfg, bus, d, f, b)
    decreases n
  {
    if n == 0 {
    } else {
      FuncsFound(cfg, bus, d, n - 1, list, b);
      var l, y := AfterFuncs(cfg, bus, d, n - 1, list), cfg(bus, d, n - 1).secondary;
      assert y != 0 ==> (b in Add(l, y) <==> b in l || b == y);
      if Leads(cfg, bus, d, n - 1, b) {
        assert b in AfterFuncs(cfg, bus, d, n, list);
      }
    }
  }

  lemma DeviceFound(cfg: Config, bus: byte, d: nat, list: seq<byte>, b: byte)
    ensures b in AfterFuncs(cfg, bus, d, NUM_FUNCTIONS, list) <==> b in list || LeadsFrom(cfg, bus, d, b)
  {
    FuncsFound(cfg, bus, d, NUM_FUNCTIONS, list, b);
  }

  /** A bridge of the devices below `n` leads to `b`. */
  predicate LeadsBelow(cfg: Config, a: byte, n: nat, b: byte) {
    n > 0 && (LeadsFrom(cfg, a, n - 1, b) || LeadsBelow(cfg, a, n - 1, b))
  }

  lemma {:induction false} BelowIsEdge(cfg: Config, a: byte, n: nat, b: byte)
    ensures LeadsBelow(cfg, a, n, b) <==> exists d | 0 <= d < n :: LeadsFrom(cfg, a, d, b)
    decreases n
  {
    if n == 0 {
    } else {
      BelowIsEdge(cfg, a, n - 1, b);
    }
  }

  lemma {:induction false} DevsBelow(cfg: Config, bus: byte, n: nat, list: seq<byte>, b: byte)
    ensures b in AfterDevs(cfg, bus, n, list) <==> b in list || LeadsBelow(cfg, bus, n, b)
    decreases n
  {
    if n == 0 {
    } else {
      DevsBelow(cfg, bus, n - 1, list, b);
      DeviceFound(cfg, bus, n - 1, AfterDevs(cfg, bus, n - 1, list), b);
    }
  }

  /** Scanning a bus adds exactly the buses behind its bridges. */
  lemma DevsFound(cfg: Config, bus: byte, list: seq<byte>, b: byte)
    ensures b in AfterDevs(cfg, bus, NUM_DEVICES, list) <==> b in list || Edge(cfg, bus, b)
  {
    DevsBelow(cfg, bus, NUM_DEVICES, list, b);
    BelowIsEdge(cfg, bus, NUM_DEVICES, b);
  }

  /** All edges from the first `n` buses of the list stay in it. */
  ghost predicate Closed(cfg: Config, list: seq<byte>, n: nat)
    requires n <= |list|
  {
    forall i, b: byte | 0 <= i < n && Edge(cfg, list[i], b) :: b in list
  }

  ghost predicate AllReachable(cfg: Config, list: seq<byte>) { forall b | b in list :: Reachable(cfg, b) }

  lemma ReachableNext(cfg: Config, a: byte, b: byte)
    requires Reachable(cfg, a) && Edge(cfg, a, b)
    ensures Reachable(cfg, b)
  {
    var p :| IsPath(cfg, p) && p[|p| - 1] == a;
    var q := p + [b];
    assert IsPath(cfg, q) && q[|q| - 1] == b;
  }

  lemma {:induction false} PathStays(cfg: Config, list: seq<byte>, p: seq<byte>, k: nat)
    requires IsPath(cfg, p) && k < |p| && 0 in list && Closed(cfg, list, |list|)
    ensures p[k] in list
    decreases k
  {
    if k == 0 {
    } else {
      PathStays(cfg, list, p, k - 1);
      var i :| 0 <= i < |list| && list[i] == p[k - 1];
      assert Edge(cfg, list[i], p[k]);
    }
  }

  /** The worklist with `n` of its buses scanned. */
  ghost predicate WorkOk(cfg: Config, list: seq<byte>, n: nat) {
    && n <= |list| && list != [] && list[0] == 0
    && NoDuplicates(list) && Closed(cfg, list, n) && AllReachable(cfg, list)
  }

  lemma WorkStarts(cfg: Config)
    ensures WorkOk(cfg, [0], 0)
  {
    assert IsPath(cfg, [0]) && Reachable(cfg, 0);
  }

  /** Scanning the next bus keeps it. */
  lemma TurnKeeps(cfg: Config, list: seq<byte>, n: nat, r: seq<byte>)
    requires WorkOk(cfg, list, n) && n < |list| && r == AfterDevs(cfg, list[n], NUM_DEVICES, list)
    ensures WorkOk(cfg, r, n + 1) && list <= r
  {
    forall i, b: byte | 0 <= i < n + 1 && Edge(cfg, r[i], b) ensures b in r {
      if i < n { assert Edge(cfg, list[i], b); }
      DevsFound(cfg, list[n], list, b);
    }
    forall b | b in r ensures Reachable(cfg, b) {
      DevsFound(cfg, list[n], list, b);
      if b !in list {
        assert Edge(cfg, list[n], b);
        ReachableNext(cfg, list[n], b);
      }
    }
  }

  /** A worklist that is done holds exactly the buses reachable from bus 0. */
  lemma DoneIsReachable(cfg: Config, list: seq<byte>, b: byte)
    requires 0 in list && Closed(cfg, list, |list|) && AllReachable(cfg, list)
    ensures b in list <==> Reachable(cfg, b)
  {
    if Reachable(cfg, b) {
      var p :| IsPath(cfg, p) && p[|p| - 1] == b;
      PathStays(cfg, list, p, |p| - 1);
    }
  }

  // ---- The code ---------------------------------------------------------------------------------------

  /** Put a bus at the end of the list unless it is there, or is 0; the room check never fails. */
  method Enqueue(list: array<byte>, count: nat, b: byte) returns (count': nat)
    requires list.Length == MAX_BUSES && count <= MAX_BUSES && NoDuplicates(list[..count])
    modifies list
    ensures count <= count' <= MAX_BUSES && list[..count'] == Add(old(list[..count]), b)
  {
    count' := count;
    if b != 0 {
      var already := false;
      var i := 0;
      while i < count
        invariant 0 <= i <= count && !already && b !in list[..i]
      {
        if list[i] == b {
          already := true;
          break;
        }
        i := i + 1;
      }
      assert already ==> b in list[..count];
      NeverFull(list[..count]);
      if !already && count < MAX_BUSES {
        list[count] := b;
        count' := count + 1;
      }
    }
  }

  /** One function: nothing if it does not answer; otherwise it counts, and a bridge names one more bus. */
  method ScanFunction(cfg: Config, bus: byte, d: nat, f: nat, list: array<byte>, count: nat)
    returns (found: bool, count': nat)
    requires list.Length == MAX_BUSES && count <= MAX_BUSES && NoDuplicates(list[..count])
    requires Answers(cfg(bus, d, 0)) && f < MaxFunc(cfg, bus, d)
    modifies list
    ensures found == Present(cfg, bus, d, f) && count <= count' <= MAX_BUSES
    ensures var x := cfg(bus, d, f);
            list[..count'] == if found && Bridge(x) then Add(old(list[..count]), x.secondary) else old(list[..count])
  {
    found, count' := false, count;
    var x := cfg(bus, d, f);
    if x.vendor == 0xFFFF || x.vendor == 0 { return; }
    found := true;
    if x.class_ == 0x06 && x.subclass == 0x04 {
      count' := Enqueue(list, count, x.secondary);
    }
  }

  lemma {:induction false} NoMore(cfg: Config, bus: byte, d: nat, m: nat, n: nat, list: seq<byte>)
    requires m <= n && (!Answers(cfg(bus, d, 0)) || MaxFunc(cfg, bus, d) <= m)
    ensures AfterFuncs(cfg, bus, d, n, list) == AfterFuncs(cfg, bus, d, m, list)
    ensures CountFuncs(cfg, bus, d, n) == CountFuncs(cfg, bus, d, m)
    decreases n
  {
    if m >= n {
    } else {
      NoMore(cfg, bus, d, m, n - 1, list);
    }
  }

  method ScanDevice(cfg: Config, bus: byte, d: nat, list: array<byte>, count: nat) returns (devs: nat, count': nat)
    requires list.Length == MAX_BUSES && count <= MAX_BUSES && NoDuplicates(list[..count])
    modifies list
    ensures devs == CountFuncs(cfg, bus, d, NUM_FUNCTIONS) && count <= count' <= MAX_BUSES
    ensures list[..count'] == AfterFuncs(cfg, bus, d, NUM_FUNCTIONS, old(list[..count]))
  {
    devs, count' := 0, count;
    ghost var list0 := list[..count];
    var vendor := cfg(bus, d, 0).vendor;
    if vendor == 0xFFFF || vendor == 0 {
      NoMore(cfg, bus, d, 0, NUM_FUNCTIONS, list0);
      return;
    }
    var max := MaxFunc(cfg, bus, d);
    for f := 0 to max
      invariant devs == CountFuncs(cfg, bus, d, f) && count <= count' <= MAX_BUSES
      invariant list[..count'] == AfterFuncs(cfg, bus, d, f, list0)
    {
      var found;
      found, count' := ScanFunction(cfg, bus, d, f, list, count');
      if found { devs := devs + 1; }
    }
    NoMore(cfg, bus, d, max, NUM_FUNCTIONS, list0);
  }

  method ScanBus(cfg: Config, bus: byte, list: array<byte>, count: nat) returns (devs: nat, count': nat)
    requires list.Length == MAX_BUSES && count <= MAX_BUSES && NoDuplicates(list[..count])
    modifies list
    ensures devs == CountDevs(cfg, bus, NUM_DEVICES) && count <= count' <= MAX_BUSES
    ensures list[..count'] == AfterDevs(cfg, bus, NUM_DEVICES, old(list[..count]))
  {
    devs, count' := 0, count;
    ghost var list0 := list[..count];
    for d := 0 to NUM_DEVICES
      invariant devs == CountDevs(cfg, bus, d) && count <= count' <= MAX_BUSES
      invariant list[..count'] == AfterDevs(cfg, bus, d, list0)
    {
      var n;
      n, count' := ScanDevice(cfg, bus, d, list, count');
      devs := devs + n;
    }
  }

  /** One turn of the worklist. */
  method Turn(cfg: Config, list: array<byte>, count: nat, idx: nat) returns (devs: nat, count': nat)
    requires list.Length == MAX_BUSES && idx < count <= MAX_BUSES && WorkOk(cfg, list[..count], idx)
    modifies list
    ensures devs == CountDevs(cfg, old(list[idx]), NUM_DEVICES) && count <= count' <= MAX_BUSES
    ensures WorkOk(cfg, list[..count'], idx + 1) && list[..count] == old(list[..count])
  {
    ghost var before := list[..count];
    devs, count' := ScanBus(cfg, list[idx], list, count);
    TurnKeeps(cfg, before, idx, list[..count']);
    assert list[..count] == list[..count'][..count];
  }

  /**
   * The whole discovery ends, having scanned exactly the buses reachable from bus 0, each once, and having counted
   * their functions in a 16-bit counter.
   */
  method Discover(cfg: Config) returns (scanned: seq<byte>, total: nat)
    ensures NoDuplicates(scanned) && forall b: byte :: b in scanned <==> Reachable(cfg, b)
    ensures total == |FunctionsOn(cfg, scanned)| % 0x1_0000
  {
    var list := new byte[MAX_BUSES](_ => 0);
    var count, idx := 1, 0;
    scanned, total := [], 0;
    assert list[..count] == [0];
    WorkStarts(cfg);
    while idx < MAX_BUSES && idx < count
      invariant 0 <= idx <= count <= MAX_BUSES && WorkOk(cfg, list[..count], idx)
      invariant scanned == list[..idx] && total == CountAll(cfg, scanned) % 0x1_0000
      decreases MAX_BUSES - idx
    {
      var bus := list[idx];
      ghost var before := list[..count];
      assert list[..idx] == before[..idx];
      var devs;
      devs, count := Turn(cfg, list, count, idx);
      assert list[..idx + 1] == before[..idx + 1] == scanned + [bus];
      Counted(cfg, scanned, bus, total, devs);
      total := (total + devs) % 0x1_0000;
      scanned := scanned + [bus];
      idx := idx + 1;
    }
    Finished(cfg, scanned);
    AllCounted(cfg, scanned);
  }

  lemma Finished(cfg: Config, list: seq<byte>)
    requires WorkOk(cfg, list, |list|)
    ensures forall b: byte :: b in list <==> Reachable(cfg, b)
  {
    forall b: byte ensures b in list <==> Reachable(cfg, b) { DoneIsReachable(cfg, list, b); }
  }

  lemma Counted(cfg: Config, scanned: seq<byte>, bus: byte, total: nat, devs: nat)
    requires total == CountAll(cfg, scanned) % 0x1_0000 && devs == CountDevs(cfg, bus, NUM_DEVICES)
    ensures CountAll(cfg, scanned + [bus]) % 0x1_0000 == (total + devs) % 0x1_0000
  {
    assert (scanned + [bus])[..|scanned|] == scanned;
  }
}
