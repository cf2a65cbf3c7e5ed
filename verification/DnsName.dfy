/**
 * Domain names on the wire: labels and compression pointers, sections 3.1 and 4.1.4 of RFC 1035, and host names
 * as text. Names are the bytes of their text; `text` says which label bytes are valid text.
 */
module DnsName {
  import opened Bytes
  import opened DnsTypes
  import Pigeonhole

  const DOT: byte := 0x2E
  const HYPHEN: byte := 0x2D

  type Label = seq<byte>

  // ---- Walking a name ------------------------------------------------------------------------

  /** What stands at a position: the end of the name, a pointer, a label, or nothing that can be read. */
  datatype Item = Bad | End | Pointer(to: nat) | Part(part: Label, next: nat)

  function ItemAt(data: seq<byte>, pos: nat, text: Label -> bool): (r: Item)
    ensures r != Bad ==> pos < |data|
    ensures r.Part? ==> pos < r.next <= |data|
  {
    if pos >= |data| then Bad
    else
      var len: nat := data[pos];
      if len == 0 then End
      else if len >= 0xC0 then
        if pos + 1 >= |data| then Bad else Pointer((len - 0xC0) * 256 + data[pos + 1])
      else if pos + 1 + len > |data| then Bad
      else if !text(data[pos + 1..pos + 1 + len]) then Bad
      else Part(data[pos + 1..pos + 1 + len], pos + 1 + len)
  }

  function Next(data: seq<byte>, pos: nat, text: Label -> bool): Option<nat> {
    match ItemAt(data, pos, text)
    case Pointer(to) => Some(to)
    case Part(_, next) => Some(next)
    case _ => None
  }

  function Onward(data: seq<byte>, p: Option<nat>, text: Label -> bool): Option<nat> {
    match p case None => None case Some(pos) => Next(data, pos, text)
  }

  /** The position after `n` moves, unless the walk stopped before. */
  function Path(data: seq<byte>, pos: nat, text: Label -> bool, n: nat): Option<nat> {
    if n == 0 then Some(pos) else Onward(data, Path(data, pos, text, n - 1), text)
  }

  ghost predicate Halts(data: seq<byte>, pos: nat, text: Label -> bool) {
    exists n :: Path(data, pos, text, n) == None
  }

  lemma {:induction false} PathEarlier(data: seq<byte>, pos: nat, text: Label -> bool, m: nat, n: nat)
    requires m <= n && Path(data, pos, text, n).Some?
    ensures Path(data, pos, text, m).Some?
    decreases n
  {
    if m >= n {
    } else {
      PathEarlier(data, pos, text, m, n - 1);
    }
  }

  lemma PathStep(data: seq<byte>, pos: nat, text: Label -> bool, n: nat, p: Option<nat>)
    requires n > 0 && Path(data, pos, text, n - 1) == p
    ensures Path(data, pos, text, n) == Onward(data, p, text)
  {
  }

  lemma PathSame(data: seq<byte>, pos: nat, text: Label -> bool, a: nat, b: nat, p: Option<nat>)
    requires a > 0 && b > 0 && Path(data, pos, text, a - 1) == p && Path(data, pos, text, b - 1) == p
    ensures Path(data, pos, text, a) == Path(data, pos, text, b)
  {
    PathStep(data, pos, text, a, p);
    PathStep(data, pos, text, b, p);
  }

  /** A position met twice is met for ever. */
  lemma {:induction false} PathRepeats(data: seq<byte>, pos: nat, text: Label -> bool, i: nat, j: nat, a: nat, b: nat)
    requires Path(data, pos, text, i) == Path(data, pos, text, j) && i <= a && a - i == b - j
    ensures Path(data, pos, text, a) == Path(data, pos, text, b)
    decreases a
  {
    if a <= i {
    } else {
      var a0, b0 := a - 1, b - 1;
      PathRepeats(data, pos, text, i, j, a0, b0);
      PathSame(data, pos, text, a, b, Path(data, pos, text, a0));
    }
  }

  lemma {:induction false} LoopNeverHalts(data: seq<byte>, pos: nat, text: Label -> bool, i: nat, j: nat, n: nat)
    requires i < j && Path(data, pos, text, j).Some? && Path(data, pos, text, i) == Path(data, pos, text, j)
    ensures Path(data, pos, text, n).Some?
    decreases n
  {
    if n <= j {
      PathEarlier(data, pos, text, n, j);
    } else {
      var m := i + (n - j);
      PathRepeats(data, pos, text, i, j, m, n);
      LoopNeverHalts(data, pos, text, i, j, m);
    }
  }

  /** A walk that ends at all ends within as many moves as there are bytes. */
  lemma HaltsIff(data: seq<byte>, pos: nat, text: Label -> bool)
    ensures Halts(data, pos, text) <==> Path(data, pos, text, |data| + 1) == None
  {
    var n := |data| + 1;
    if Path(data, pos, text, n).Some? {
      forall k | 0 <= k < n ensures Path(data, pos, text, k).Some? && Path(data, pos, text, k).value < |data| {
        PathEarlier(data, pos, text, k, n);
        PathEarlier(data, pos, text, k + 1, n);
      }
      var ps: seq<nat> := seq(n, k requires 0 <= k < n => Path(data, pos, text, k).value);
      var i, j := Pigeonhole.Repeats(ps, |data|);
      assert ps[i] == Path(data, pos, text, i).value && ps[j] == Path(data, pos, text, j).value;
      forall m: nat ensures Path(data, pos, text, m).Some? { LoopNeverHalts(data, pos, text, i, j, m); }
    }
  }

  // ---- Decoding ----------------------------------------------------------------------------------

  /** The labels met from `pos` on, in at most `n` moves. */
  datatype Walk = Malformed | Endless | Labels(ls: seq<Label>)

  function Collect(data: seq<byte>, pos: nat, text: Label -> bool, n: nat): (w: Walk)
    decreases n
  {
    if n == 0 then Endless
    else
      match ItemAt(data, pos, text)
      case Bad => Malformed
      case End => Labels([])
      case Pointer(to) => Collect(data, to, text, n - 1)
      case Part(l, next) => Behind([l], Collect(data, next, text, n - 1))
  }

  function Behind(ls: seq<Label>, w: Walk): Walk { if w.Labels? then Labels(ls + w.ls) else w }

  /** Where the name ends in the stream it starts in: a pointer takes two bytes, whatever it points at. */
  function NameEnd(data: seq<byte>, pos: nat, text: Label -> bool): (e: nat)
    decreases |data| - pos
  {
    match ItemAt(data, pos, text)
    case Bad => pos
    case End => pos + 1
    case Pointer(_) => pos + 2
    case Part(_, next) => NameEnd(data, next, text)
  }

  function Join(ls: seq<Label>): (name: seq<byte>) {
    if ls == [] then []
    else if |ls| == 1 then ls[0]
    else Join(ls[..|ls| - 1]) + [DOT] + ls[|ls| - 1]
  }

  datatype Name = Name(name: seq<byte>, end: nat)

  function Decoded(data: seq<byte>, pos: nat, text: Label -> bool): (r: Option<Name>) {
    match Collect(data, pos, text, |data| + 1)
    case Labels(ls) => Some(Name(Join(ls), NameEnd(data, pos, text)))
    case _ => None
  }

  lemma {:induction false} PathFirst(data: seq<byte>, pos: nat, text: Label -> bool, n: nat)
    requires n > 0
    ensures Path(data, pos, text, n) ==
            match Next(data, pos, text) case None => None case Some(p) => Path(data, p, text, n - 1)
    decreases n
  {
    if n == 1 {
      assert Path(data, pos, text, 0) == Some(pos);
    } else {
      PathFirst(data, pos, text, n - 1);
    }
  }

  lemma {:induction false} EndlessIff(data: seq<byte>, pos: nat, text: Label -> bool, n: nat)
    ensures Collect(data, pos, text, n) == Endless <==> Path(data, pos, text, n).Some?
    decreases n
  {
    if n == 0 {
    } else {
      PathFirst(data, pos, text, n);
      match ItemAt(data, pos, text)
      case Pointer(to) => EndlessIff(data, to, text, n - 1);
      case Part(_, next) => EndlessIff(data, next, text, n - 1);
      case _ =>
    }
  }

  /** A walk that has ended is not changed by more moves. */
  lemma {:induction false} CollectStable(data: seq<byte>, pos: nat, text: Label -> bool, n: nat, m: nat)
    requires n <= m && Collect(data, pos, text, n) != Endless
    ensures Collect(data, pos, text, m) == Collect(data, pos, text, n)
    decreases n
  {
    match ItemAt(data, pos, text)
    case Pointer(to) => CollectStable(data, to, text, n - 1, m - 1);
    case Part(_, next) => CollectStable(data, next, text, n - 1, m - 1);
    case _ =>
  }

  /** If any number of moves ends the walk, as many moves as there are bytes find the same labels. */
  lemma CollectEnough(data: seq<byte>, pos: nat, text: Label -> bool, n: nat)
    requires Collect(data, pos, text, n) != Endless
    ensures Halts(data, pos, text) && Collect(data, pos, text, |data| + 1) == Collect(data, pos, text, n)
  {
    EndlessIff(data, pos, text, n);
    HaltsIff(data, pos, text);
    EndlessIff(data, pos, text, |data| + 1);
    if n <= |data| + 1 {
      CollectStable(data, pos, text, n, |data| + 1);
    } else {
      CollectStable(data, pos, text, |data| + 1, n);
    }
  }

  method JoinLabels(labels: seq<Label>) returns (name: seq<byte>)
    ensures name == Join(labels)
  {
    name := [];
    for i := 0 to |labels|
      invariant name == Join(labels[..i])
    {
      assert labels[..i + 1][..i] == labels[..i];
      if i > 0 { name := name + [DOT]; }
      name := name + labels[i];
    }
    assert labels[..|labels|] == labels;
  }

  lemma BehindSome(ls: seq<Label>)
    ensures Behind(ls, Labels([])) == Labels(ls)
  {
    assert ls + [] == ls;
  }

  lemma BehindSnoc(ls: seq<Label>, l: Label, w: Walk)
    ensures Behind(ls, Behind([l], w)) == Behind(ls + [l], w)
  {
    if w.Labels? { assert ls + ([l] + w.ls) == (ls + [l]) + w.ls; }
  }

  /** One turn of the decoder's loop: read what stands at `pos`. */
  method ReadItem(data: seq<byte>, pos: nat, text: Label -> bool) returns (item: Item)
    ensures item == ItemAt(data, pos, text)
  {
    if pos >= |data| { return Bad; }
    var len: nat := data[pos];
    if len == 0 { return End; }
    if len >= 0xC0 {
      if pos + 1 >= |data| { return Bad; }
      return Pointer((len - 0xC0) * 256 + data[pos + 1]);
    }
    if pos + 1 + len > |data| { return Bad; }
    var l := data[pos + 1..pos + 1 + len];
    if !text(l) { return Bad; }
    return Part(l, pos + 1 + len);
  }

  /** What the decoder comes to: nothing when the walk has no end. */
  ghost function Decoding(data: seq<byte>, pos: nat, text: Label -> bool): Ending<Option<Name>> {
    if Halts(data, pos, text) then Done(Decoded(data, pos, text)) else Never
  }

  /**
   * The decoder. It has no bound of its own: `Never`, after as many turns as there are bytes, stands for going round
   * for ever.
   */
  method DecodeName(data: seq<byte>, offset: nat, text: Label -> bool) returns (r: Ending<Option<Name>>)
    ensures r == Decoding(data, offset, text)
  {
    var labels: seq<Label>, pos: nat, jumped, end: nat := [], offset, false, offset;
    var n: nat := |data| + 1;
    ghost var all := Collect(data, offset, text, n);
    EndlessLoop(data, offset, text);
    BehindNone(all);
    while true
      invariant all == Behind(labels, Collect(data, pos, text, n))
      invariant NameEnd(data, offset, text) == if jumped then end else NameEnd(data, pos, text)
      decreases n
    {
      if n == 0 { return Never; }
      var item := ReadItem(data, pos, text);
      match item
      case Bad => return Done(None);
      case End =>
        pos := pos + 1;
        if !jumped { end := pos; }
        BehindSome(labels);
        break;
      case Pointer(to) =>
        if !jumped { end, jumped := pos + 2, true; }
        pos, n := to, n - 1;
      case Part(l, next) =>
        BehindSnoc(labels, l, Collect(data, next, text, n - 1));
        labels := labels + [l];
        pos, n := next, n - 1;
    }
    var name := JoinLabels(labels);
    r := Done(Some(Name(name, end)));
  }

  // ---- Names that never end --------------------------------------------------------------------

  /** A pointer to itself is never done with. */
  lemma SelfPointer(data: seq<byte>, pos: nat, text: Label -> bool)
    requires ItemAt(data, pos, text) == Pointer(pos)
    ensures !Halts(data, pos, text)
  {
    assert Path(data, pos, text, 0) == Some(pos);
    PathStep(data, pos, text, 1, Some(pos));
    forall n: nat ensures Path(data, pos, text, n).Some? { LoopNeverHalts(data, pos, text, 0, 1, n); }
  }

  /** Nor is a pointer that goes back, as it should, but to a label in front of itself. */
  lemma BackIsNotEnough(text: Label -> bool)
    requires text([0x61])
    ensures var data: seq<byte> := [1, 0x61, 0xC0, 0];
            ItemAt(data, 2, text) == Pointer(0) && !Halts(data, 0, text)
  {
    var data: seq<byte> := [1, 0x61, 0xC0, 0];
    assert data[1..2] == [0x61];
    assert Path(data, 0, text, 0) == Some(0);
    PathStep(data, 0, text, 1, Some(0));
    PathStep(data, 0, text, 2, Some(2));
    forall n: nat ensures Path(data, 0, text, n).Some? { LoopNeverHalts(data, 0, text, 0, 2, n); }
  }

  // ---- Encoding ----------------------------------------------------------------------------------

  /** A label on the wire; its length is cut to one byte. */
  function LabelBytes(l: Label): seq<byte> { [|l| % 256] + l }

  /** Labels on the wire, then `tail`. */
  function Wire(ls: seq<Label>, tail: seq<byte>): (bs: seq<byte>) {
    if ls == [] then tail else LabelBytes(ls[0]) + Wire(ls[1..], tail)
  }

  function PointerBytes(to: nat): seq<byte>
    requires to < 0x4000
  {
    [0xC0 + to / 256, to % 256]
  }

  /** Labels of one to 63 bytes of text. */
  predicate Proper(ls: seq<Label>, text: Label -> bool) {
    ls == [] || (0 < |ls[0]| < 0x40 && text(ls[0]) && Proper(ls[1..], text))
  }

  lemma LabelRead(data: seq<byte>, off: nat, text: Label -> bool, l: Label)
    requires HoldsAt(data, off, LabelBytes(l)) && 0 < |l| < 0xC0 && text(l)
    ensures ItemAt(data, off, text) == Part(l, off + |LabelBytes(l)|)
  {
    HoldsConcat(data, off, [|l| % 256], l);
    assert data[off] == data[off..off + 1][0];
  }

  lemma BehindCons(l: Label, rest: seq<Label>, ls: seq<Label>, w: Walk)
    requires ls == [l] + rest
    ensures Behind([l], Behind(rest, w)) == Behind(ls, w)
  {
    if w.Labels? { assert [l] + (rest + w.ls) == ls + w.ls; }
  }

  lemma BehindNone(w: Walk)
    ensures Behind([], w) == w
  {
    if w.Labels? { assert [] + w.ls == w.ls; }
  }

  lemma PartStep(data: seq<byte>, off: nat, text: Label -> bool, l: Label, next: nat, m: nat)
    requires ItemAt(data, off, text) == Part(l, next) && m > 0
    ensures Collect(data, off, text, m) == Behind([l], Collect(data, next, text, m - 1))
    ensures NameEnd(data, off, text) == NameEnd(data, next, text)
  {
  }

  lemma WireSplit(data: seq<byte>, off: nat, text: Label -> bool, ls: seq<Label>, tail: seq<byte>, next: nat)
    requires ls != [] && Proper(ls, text) && HoldsAt(data, off, Wire(ls, tail)) && next == off + |LabelBytes(ls[0])|
    ensures ItemAt(data, off, text) == Part(ls[0], next) && HoldsAt(data, next, Wire(ls[1..], tail))
    ensures off + |Wire(ls, tail)| == next + |Wire(ls[1..], tail)|
  {
    HoldsConcat(data, off, LabelBytes(ls[0]), Wire(ls[1..], tail));
    LabelRead(data, off, text, ls[0]);
  }

  /** Labels on the wire are walked over, whatever follows them. */
  lemma {:induction false} WireWalked(data: seq<byte>, off: nat, text: Label -> bool, ls: seq<Label>, tail: seq<byte>,
                                      n: nat, m: nat) returns (at: nat)
    requires Proper(ls, text) && HoldsAt(data, off, Wire(ls, tail)) && m == |ls| + n
    ensures at + |tail| == off + |Wire(ls, tail)| && HoldsAt(data, at, tail)
    ensures Collect(data, off, text, m) == Behind(ls, Collect(data, at, text, n))
    ensures NameEnd(data, off, text) == NameEnd(data, at, text)
    decreases |ls|
  {
    if ls == [] {
      at := off;
      BehindNone(Collect(data, at, text, n));
    } else {
      var l, rest := ls[0], ls[1..];
      var next := off + |LabelBytes(l)|;
      WireSplit(data, off, text, ls, tail, next);
      at := WireWalked(data, next, text, rest, tail, n, m - 1);
      PartStep(data, off, text, l, next, m);
      BehindCons(l, rest, ls, Collect(data, at, text, n));
    }
  }

  lemma EndRead(data: seq<byte>, at: nat, text: Label -> bool)
    requires HoldsAt(data, at, [0])
    ensures ItemAt(data, at, text) == End
  {
    assert data[at] == data[at..at + 1][0];
  }

  lemma PointerRead(data: seq<byte>, at: nat, text: Label -> bool, to: nat)
    requires to < 0x4000 && HoldsAt(data, at, PointerBytes(to))
    ensures ItemAt(data, at, text) == Pointer(to)
  {
    var w := data[at..at + 2];
    assert data[at] == w[0] && data[at + 1] == w[1];
  }

  /** The item's bytes stand at `pos`: a zero, a pointer, or a length and so many bytes of text. */
  predicate StandsAt(data: seq<byte>, pos: nat, text: Label -> bool, item: Item) {
    match item
    case Bad => false
    case End => HoldsAt(data, pos, [0])
    case Pointer(to) => to < 0x4000 && HoldsAt(data, pos, PointerBytes(to))
    case Part(l, next) => 0 < |l| < 0xC0 && text(l) && HoldsAt(data, pos, LabelBytes(l)) && next == pos + 1 + |l|
  }

  /** The decoder sees an item exactly where the bytes of that item stand, and so nothing where no item's do. */
  lemma ItemIff(data: seq<byte>, pos: nat, text: Label -> bool, item: Item)
    requires item != Bad
    ensures ItemAt(data, pos, text) == item <==> StandsAt(data, pos, text, item)
  {
    if ItemAt(data, pos, text) == item {
      if item.Part? {
        assert data[pos..pos + 1 + |item.part|] == LabelBytes(item.part);
      }
    } else if StandsAt(data, pos, text, item) {
      match item
      case End => EndRead(data, pos, text);
      case Pointer(to) => PointerRead(data, pos, text, to);
      case Part(l, _) => LabelRead(data, pos, text, l);
    }
  }

  /** Labels and a zero decode to those labels, at any offset of any packet. */
  lemma DecodesLabels(data: seq<byte>, off: nat, text: Label -> bool, ls: seq<Label>, bs: seq<byte>, name: seq<byte>)
    requires Proper(ls, text) && bs == Wire(ls, [0]) && HoldsAt(data, off, bs) && name == Join(ls)
    ensures Halts(data, off, text) && Collect(data, off, text, |data| + 1) == Labels(ls)
    ensures Decoded(data, off, text) == Some(Name(name, off + |bs|))
  {
    var n := |ls| + 1;
    var at := WireWalked(data, off, text, ls, [0], 1, n);
    EndRead(data, at, text);
    assert Collect(data, off, text, n) == Labels(ls) by { assert ls + [] == ls; }
    CollectEnough(data, off, text, n);
  }

  lemma PointerWalked(data: seq<byte>, off: nat, text: Label -> bool, ls: seq<Label>, to: nat, n: nat, m: nat)
    requires Proper(ls, text) && to < 0x4000 && HoldsAt(data, off, Wire(ls, PointerBytes(to))) && m == |ls| + 1 + n
    ensures Collect(data, off, text, m) == Behind(ls, Collect(data, to, text, n))
    ensures NameEnd(data, off, text) == off + |Wire(ls, PointerBytes(to))|
  {
    var at := WireWalked(data, off, text, ls, PointerBytes(to), n + 1, m);
    PointerRead(data, at, text, to);
  }

  lemma EndlessLoop(data: seq<byte>, pos: nat, text: Label -> bool)
    ensures Halts(data, pos, text) <==> Collect(data, pos, text, |data| + 1) != Endless
  {
    HaltsIff(data, pos, text);
    EndlessIff(data, pos, text, |data| + 1);
  }

  /**
   * Labels and a pointer decode to the labels followed by those of the name pointed at, and end two bytes after
   * the pointer starts; the walk ends exactly when that of the name pointed at does.
   */
  lemma DecodesPointer(data: seq<byte>, off: nat, text: Label -> bool, ls: seq<Label>, to: nat)
    requires Proper(ls, text) && to < 0x4000 && HoldsAt(data, off, Wire(ls, PointerBytes(to)))
    ensures Halts(data, off, text) <==> Halts(data, to, text)
    ensures Collect(data, off, text, |data| + 1) == Behind(ls, Collect(data, to, text, |data| + 1))
    ensures NameEnd(data, off, text) == off + |Wire(ls, PointerBytes(to))|
  {
    var n := |data| + 1;
    var m := |ls| + 1 + n;
    PointerWalked(data, off, text, ls, to, n, m);
    EndlessLoop(data, to, text);
    EndlessLoop(data, off, text);
    if Collect(data, to, text, n) != Endless {
      CollectEnough(data, off, text, m);
    } else if Collect(data, off, text, n) != Endless {
      CollectStable(data, off, text, n, m);
    }
  }

  // ---- Host names --------------------------------------------------------------------------------------

  /** The parts of a name between its dots. */
  function Split(s: seq<byte>): (ls: seq<Label>)
    ensures |ls| >= 1
  {
    if s == [] then [[]]
    else if s[|s| - 1] == DOT then Split(s[..|s| - 1]) + [[]]
    else
      var ls := Split(s[..|s| - 1]);
      ls[..|ls| - 1] + [ls[|ls| - 1] + [s[|s| - 1]]]
  }

  lemma JoinSnoc(ls: seq<Label>, l: Label)
    requires ls != []
    ensures Join(ls + [l]) == Join(ls) + [DOT] + l
  {
    assert (ls + [l])[..|ls|] == ls;
  }

  lemma JoinExtend(ls: seq<Label>, l: Label, b: byte)
    ensures Join(ls + [l + [b]]) == Join(ls + [l]) + [b]
  {
    if ls == [] {
      assert ls + [l] == [l] && ls + [l + [b]] == [l + [b]];
    } else {
      JoinSnoc(ls, l);
      JoinSnoc(ls, l + [b]);
      assert Join(ls) + [DOT] + (l + [b]) == (Join(ls) + [DOT] + l) + [b];
    }
  }

  lemma {:induction false} JoinSplit(s: seq<byte>)
    ensures Join(Split(s)) == s
    decreases |s|
  {
    if s == [] {
    } else {
      var front, b := s[..|s| - 1], s[|s| - 1];
      JoinSplit(front);
      var ls := Split(front);
      var n := |ls| - 1;
      assert s == front + [b] && ls == ls[..n] + [ls[n]];
      if b == DOT { JoinSnoc(ls, []); } else { JoinExtend(ls[..n], ls[n], b); }
    }
  }

  predicate HostByte(b: byte) {
    0x30 <= b <= 0x39 || 0x41 <= b <= 0x5A || 0x61 <= b <= 0x7A || b == HYPHEN || b == 0x5F
  }

  predicate HostLabel(l: Label) {
    0 < |l| <= 63 && l[0] != HYPHEN && l[|l| - 1] != HYPHEN && forall i | 0 <= i < |l| :: HostByte(l[i])
  }

  /** The name without one final dot. */
  function Trimmed(name: seq<byte>): (r: seq<byte>) {
    if name != [] && name[|name| - 1] == DOT then name[..|name| - 1] else name
  }

  /** The host names accepted: one or more good labels, an optional final dot, 253 bytes at most. */
  predicate HostName(name: seq<byte>) {
    |name| <= 253 && forall l | l in Split(Trimmed(name)) :: HostLabel(l)
  }

  method AllHostBytes(l: Label) returns (ok: bool)
    ensures ok <==> forall i | 0 <= i < |l| :: HostByte(l[i])
  {
    for i := 0 to |l|
      invariant forall k | 0 <= k < i :: HostByte(l[k])
    {
      if !HostByte(l[i]) { return false; }
    }
    return true;
  }

  method ValidateHostname(name: seq<byte>) returns (ok: bool)
    ensures ok <==> HostName(name)
  {
    if name == [] || |name| > 253 {
      assert name == [] ==> [] in Split(Trimmed(name));
      return false;
    }
    var trimmed := Trimmed(name);
    if trimmed == [] {
      assert [] in Split(trimmed);
      return false;
    }
    var labels := Split(trimmed);
    for i := 0 to |labels|
      invariant forall k | 0 <= k < i :: HostLabel(labels[k])
    {
      var l := labels[i];
      assert l in labels;
      if l == [] || |l| > 63 { return false; }
      if l[0] == HYPHEN || l[|l| - 1] == HYPHEN { return false; }
      var ok := AllHostBytes(l);
      if !ok { return false; }
    }
    return true;
  }

  /** The labels that are encoded: empty ones are left out. */
  function NonEmpty(ls: seq<Label>): (r: seq<Label>) {
    if ls == [] then []
    else
      var rest := NonEmpty(ls[..|ls| - 1]);
      if ls[|ls| - 1] == [] then rest else rest + [ls[|ls| - 1]]
  }

  lemma {:induction false} WireConcat(a: seq<Label>, b: seq<Label>, tail: seq<byte>)
    ensures Wire(a + b, tail) == Wire(a, []) + Wire(b, tail)
    decreases |a|
  {
    if a == [] {
      assert a + b == b;
    } else {
      WireConcat(a[1..], b, tail);
      assert (a + b)[1..] == a[1..] + b;
    }
  }

  method EncodeName(name: seq<byte>) returns (encoded: seq<byte>)
    ensures encoded == Encoded(name)
  {
    var labels := Split(name);
    encoded := [];
    for i := 0 to |labels|
      invariant encoded == Wire(NonEmpty(labels[..i]), [])
    {
      assert labels[..i + 1][..i] == labels[..i];
      if labels[i] != [] {
        WireConcat(NonEmpty(labels[..i]), [labels[i]], []);
        assert Wire([labels[i]], []) == LabelBytes(labels[i]);
        encoded := encoded + LabelBytes(labels[i]);
      }
    }
    assert labels[..|labels|] == labels;
    WireConcat(NonEmpty(labels), [], [0]);
    assert NonEmpty(labels) + [] == NonEmpty(labels);
    encoded := encoded + [0];
  }

  lemma {:induction false} NoneEmpty(ls: seq<Label>)
    requires [] !in ls
    ensures NonEmpty(ls) == ls
    decreases |ls|
  {
    if ls == [] {
    } else {
      NoneEmpty(ls[..|ls| - 1]);
      assert ls == ls[..|ls| - 1] + [ls[|ls| - 1]];
    }
  }

  /** The final dot adds only an empty label. */
  lemma EncodedLabels(name: seq<byte>)
    requires HostName(name)
    ensures NonEmpty(Split(name)) == Split(Trimmed(name))
  {
    var ls := Split(Trimmed(name));
    NoneEmpty(ls);
    if Trimmed(name) != name {
      assert Split(name) == ls + [[]];
      assert (ls + [[]])[..|ls|] == ls;
    }
  }

  /** Text in which every string of host name bytes is valid, as ASCII is in UTF-8. */
  ghost predicate TakesAscii(text: Label -> bool) { forall l | HostLabel(l) :: text(l) }

  /** What the encoder makes of a name. */
  function Encoded(name: seq<byte>): (bs: seq<byte>) { Wire(NonEmpty(Split(name)), [0]) }

  lemma {:induction false} HostLabelsProper(ls: seq<Label>, text: Label -> bool)
    requires TakesAscii(text) && forall l | l in ls :: HostLabel(l)
    ensures Proper(ls, text)
    decreases |ls|
  {
    if ls == [] {
    } else {
      assert HostLabel(ls[0]);
      HostLabelsProper(ls[1..], text);
    }
  }

  lemma HostLabels(name: seq<byte>, text: Label -> bool) returns (ls: seq<Label>)
    requires HostName(name) && TakesAscii(text)
    ensures Proper(ls, text) && Encoded(name) == Wire(ls, [0]) && Trimmed(name) == Join(ls)
  {
    ls := Split(Trimmed(name));
    HostLabelsProper(ls, text);
    EncodedLabels(name);
    JoinSplit(Trimmed(name));
  }

  /**
   * Every host name accepted decodes, from any offset of any packet that holds its encoding, to itself without
   * the final dot, and to the offset just past it.
   */
  lemma HostNameRoundTrip(name: seq<byte>, data: seq<byte>, off: nat, text: Label -> bool)
    requires HostName(name) && TakesAscii(text) && HoldsAt(data, off, Encoded(name))
    ensures Halts(data, off, text)
    ensures Decoded(data, off, text) == Some(Name(Trimmed(name), off + |Encoded(name)|))
  {
    var ls := HostLabels(name, text);
    DecodesLabels(data, off, text, ls, Encoded(name), Trimmed(name));
  }
}
