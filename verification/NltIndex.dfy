/** The index of a language table: little-endian fields, entries, and how they are read and written. */
module NltIndex {
  import opened Bytes

  const VERSION_V3: nat := 3
  const ENTRY_V2_SIZE: nat := 8
  const ENTRY_V3_SIZE: nat := 12
  const WORD: nat := 0x1_0000_0000

  // ---- Little-endian fields ---------------------------------------------------------------

  function Rd16(data: seq<byte>, off: nat): (x: nat)
    requires off + 2 <= |data|
  {
    data[off] as int + 0x100 * data[off + 1] as int
  }

  function Rd32(data: seq<byte>, off: nat): (x: nat)
    requires off + 4 <= |data|
    ensures x < WORD
  {
    data[off] as int + 0x100 * data[off + 1] as int +
    0x1_0000 * data[off + 2] as int + 0x100_0000 * data[off + 3] as int
  }

  /** The four bytes of a number cut to 32 bits. */
  function Le32(x: nat): (bs: seq<byte>)
    ensures |bs| == 4
  {
    [x % 0x100, x / 0x100 % 0x100, x / 0x1_0000 % 0x100, x / 0x100_0000 % 0x100]
  }

  lemma Digits(x: nat)
    requires x < WORD
    ensures x % 0x100 + 0x100 * (x / 0x100 % 0x100) + 0x1_0000 * (x / 0x1_0000 % 0x100) +
            0x100_0000 * (x / 0x100_0000 % 0x100) == x
  {
    assert x == x / 0x100 * 0x100 + x % 0x100;
    assert x / 0x100 == x / 0x1_0000 * 0x100 + x / 0x100 % 0x100;
    assert x / 0x1_0000 == x / 0x100_0000 * 0x100 + x / 0x1_0000 % 0x100;
  }

  /** A field reads back as it was written. */
  lemma RdLe32(data: seq<byte>, off: nat, x: nat)
    requires x < WORD && HoldsAt(data, off, Le32(x))
    ensures Rd32(data, off) == x
  {
    var w := data[off..off + 4];
    assert data[off] == w[0] && data[off + 1] == w[1] && data[off + 2] == w[2] && data[off + 3] == w[3];
    Digits(x);
  }

  lemma DigitsOf(a: byte, b: byte, c: byte, d: byte, x: nat)
    requires x == a + 0x100 * b + 0x1_0000 * c + 0x100_0000 * d
    ensures Le32(x) == [a, b, c, d]
  {
    var y: nat := b + 0x100 * c + 0x1_0000 * d;
    var z: nat := c + 0x100 * d;
    assert x == 0x100 * y + a && x / 0x100 == y && x % 0x100 == a;
    assert y == 0x100 * z + b && y / 0x100 == z && y % 0x100 == b;
    assert z / 0x100 == d && z % 0x100 == c;
    assert x / 0x1_0000 == z && x / 0x100_0000 == d;
  }

  /** A field holds a number exactly when it reads as that number. */
  lemma FieldIff(data: seq<byte>, off: nat, x: nat)
    requires x < WORD && off + 4 <= |data|
    ensures HoldsAt(data, off, Le32(x)) <==> Rd32(data, off) == x
  {
    DigitsOf(data[off], data[off + 1], data[off + 2], data[off + 3], Rd32(data, off));
    assert data[off..off + 4] == [data[off], data[off + 1], data[off + 2], data[off + 3]];
    if HoldsAt(data, off, Le32(x)) { RdLe32(data, off, x); }
  }

  // ---- Entries -------------------------------------------------------------------------------

  datatype Entry = Entry(id: nat, off: nat, flags: nat)

  function EntrySize(version: nat): nat { if version == VERSION_V3 then ENTRY_V3_SIZE else ENTRY_V2_SIZE }

  function ReadIndex(payload: seq<byte>, version: nat, i: nat): Option<Entry> {
    var size := EntrySize(version);
    var off := i * size;
    if off + size > |payload| then None
    else
      var flags := if version == VERSION_V3 then Rd32(payload, off + 8) else 0;
      Some(Entry(Rd32(payload, off), Rd32(payload, off + 4), flags))
  }

  function EntryBytes(e: Entry): (bs: seq<byte>)
    ensures |bs| == ENTRY_V3_SIZE
  {
    Le32(e.id) + Le32(e.off) + Le32(e.flags)
  }

  function IndexBytes(es: seq<Entry>): (bs: seq<byte>)
    ensures |bs| == ENTRY_V3_SIZE * |es|
  {
    if es == [] then [] else IndexBytes(es[..|es| - 1]) + EntryBytes(es[|es| - 1])
  }

  predicate Fields32(e: Entry) { e.id < WORD && e.off < WORD && e.flags < WORD }

  lemma {:induction false} IndexSlot(es: seq<Entry>, i: nat)
    requires i < |es|
    ensures HoldsAt(IndexBytes(es), ENTRY_V3_SIZE * i, EntryBytes(es[i]))
    decreases |es|
  {
    var n := |es| - 1;
    if i >= n {
    } else {
      IndexSlot(es[..n], i);
      HoldsPrefix(IndexBytes(es), IndexBytes(es[..n]), ENTRY_V3_SIZE * i, EntryBytes(es[i]));
    }
  }

  lemma ReadEntry(payload: seq<byte>, i: nat, e: Entry)
    requires Fields32(e) && HoldsAt(payload, ENTRY_V3_SIZE * i, EntryBytes(e))
    ensures ReadIndex(payload, VERSION_V3, i) == Some(e)
  {
    var a := ENTRY_V3_SIZE * i;
    HoldsConcat(payload, a, Le32(e.id) + Le32(e.off), Le32(e.flags));
    HoldsConcat(payload, a, Le32(e.id), Le32(e.off));
    RdLe32(payload, a, e.id);
    RdLe32(payload, a + 4, e.off);
    RdLe32(payload, a + 8, e.flags);
  }

  /** A payload that begins with an index reads back its entries. */
  lemma ReadIndexBytes(payload: seq<byte>, es: seq<Entry>, i: nat)
    requires IndexBytes(es) <= payload && i < |es| && Fields32(es[i])
    ensures ReadIndex(payload, VERSION_V3, i) == Some(es[i])
  {
    IndexSlot(es, i);
    HoldsPrefix(payload, IndexBytes(es), ENTRY_V3_SIZE * i, EntryBytes(es[i]));
    ReadEntry(payload, i, es[i]);
  }

  // ---- Finding an entry -------------------------------------------------------------------------

  /** An entry of a version 2 index: eight bytes, and no flags. */
  lemma ReadEntryV2(payload: seq<byte>, version: nat, i: nat, id: nat, off: nat)
    requires version != 3 && id < WORD && off < WORD && HoldsAt(payload, 8 * i, Le32(id) + Le32(off))
    ensures ReadIndex(payload, version, i) == Some(Entry(id, off, 0))
  {
    HoldsConcat(payload, 8 * i, Le32(id), Le32(off));
    RdLe32(payload, 8 * i, id);
    RdLe32(payload, 8 * i + 4, off);
  }


  predicate IndexFits(payload: seq<byte>, version: nat, n: nat) { n * EntrySize(version) <= |payload| }

  function EntryAt(payload: seq<byte>, version: nat, n: nat, i: nat): (e: Entry)
    requires IndexFits(payload, version, n) && i < n
    ensures ReadIndex(payload, version, i) == Some(e)
  {
    assert i * EntrySize(version) + EntrySize(version) <= |payload|;
    ReadIndex(payload, version, i).value
  }

  /** The ids strictly increase. */
  predicate Sorted(payload: seq<byte>, version: nat, n: nat)
    requires IndexFits(payload, version, n)
  {
    forall i, j | 0 <= i < j < n :: EntryAt(payload, version, n, i).id < EntryAt(payload, version, n, j).id
  }

  /** A linear scan: the first entry from `k` on with the id. */
  function Scan(payload: seq<byte>, version: nat, n: nat, id: nat, k: nat): (r: Option<Entry>)
    requires IndexFits(payload, version, n)
    decreases n - k
  {
    if k >= n then None
    else if EntryAt(payload, version, n, k).id == id then Some(EntryAt(payload, version, n, k))
    else Scan(payload, version, n, id, k + 1)
  }

  lemma {:induction false} ScanFinds(payload: seq<byte>, version: nat, n: nat, id: nat, k: nat, i: nat)
    requires IndexFits(payload, version, n) && Sorted(payload, version, n) && k <= i < n
    requires EntryAt(payload, version, n, i).id == id
    ensures Scan(payload, version, n, id, k) == Some(EntryAt(payload, version, n, i))
    decreases i - k
  {
    if k >= i {
    } else {
      ScanFinds(payload, version, n, id, k + 1, i);
    }
  }

  lemma {:induction false} ScanMisses(payload: seq<byte>, version: nat, n: nat, id: nat, k: nat)
    requires IndexFits(payload, version, n)
    requires forall i | k <= i < n :: EntryAt(payload, version, n, i).id != id
    ensures Scan(payload, version, n, id, k) == None
    decreases n - k
  {
    if k >= n {
    } else {
      ScanMisses(payload, version, n, id, k + 1);
    }
  }

  /** The binary search between `lo` and `hi`, whatever the index holds. */
  function Search(payload: seq<byte>, version: nat, id: nat, lo: int, hi: int): (r: Option<Entry>)
    requires 0 <= lo
    decreases hi - lo
  {
    if lo > hi then None
    else
      var mid := lo + (hi - lo) / 2;
      match ReadIndex(payload, version, mid)
      case None => None
      case Some(e) =>
        if e.id == id then Some(e)
        else if e.id < id then Search(payload, version, id, mid + 1, hi)
        else Search(payload, version, id, lo, mid - 1)
  }

  /** The id is at most between `lo` and `hi`. */
  predicate Within(payload: seq<byte>, version: nat, n: nat, id: nat, lo: int, hi: int)
    requires IndexFits(payload, version, n)
  {
    forall i | 0 <= i < n && !(lo <= i <= hi) :: EntryAt(payload, version, n, i).id != id
  }

  lemma Halved(payload: seq<byte>, version: nat, n: nat, id: nat, lo: int, hi: int, mid: int)
    requires IndexFits(payload, version, n) && Sorted(payload, version, n) && Within(payload, version, n, id, lo, hi)
    requires 0 <= lo <= mid <= hi < n
    ensures EntryAt(payload, version, n, mid).id < id ==> Within(payload, version, n, id, mid + 1, hi)
    ensures EntryAt(payload, version, n, mid).id > id ==> Within(payload, version, n, id, lo, mid - 1)
  {
  }

  /** On a sorted index that fits, the binary search finds exactly what a linear scan finds. */
  lemma {:induction false} SearchIsScan(payload: seq<byte>, version: nat, n: nat, id: nat, lo: int, hi: int)
    requires IndexFits(payload, version, n) && Sorted(payload, version, n) && 0 <= lo <= hi + 1 <= n
    requires Within(payload, version, n, id, lo, hi)
    ensures Search(payload, version, id, lo, hi) == Scan(payload, version, n, id, 0)
    decreases hi - lo
  {
    if lo > hi {
      ScanMisses(payload, version, n, id, 0);
    } else {
      var mid := lo + (hi - lo) / 2;
      var e := EntryAt(payload, version, n, mid);
      Halved(payload, version, n, id, lo, hi, mid);
      if e.id == id {
        ScanFinds(payload, version, n, id, 0, mid);
      } else if e.id < id {
        SearchIsScan(payload, version, n, id, mid + 1, hi);
      } else {
        SearchIsScan(payload, version, n, id, lo, mid - 1);
      }
    }
  }

  method FindEntry(payload: seq<byte>, version: nat, n: nat, id: nat) returns (r: Option<Entry>)
    ensures r == Search(payload, version, id, 0, n - 1)
  {
    if n == 0 { return None; }
    var lo, hi := 0, n as int - 1;
    while lo <= hi
      invariant 0 <= lo && Search(payload, version, id, 0, n - 1) == Search(payload, version, id, lo, hi)
      decreases hi - lo
    {
      var mid := lo + (hi - lo) / 2;
      var e := ReadIndex(payload, version, mid);
      if e.None? { return None; }
      if e.value.id == id {
        return e;
      } else if e.value.id < id {
        lo := mid + 1;
      } else {
        hi := mid - 1;
      }
    }
    return None;
  }

  // ---- Writing an entry ----------------------------------------------------------------------------

  lemma Overwritten(p: seq<byte>, a: nat, bs: seq<byte>, k: nat)
    requires k < |bs| && a + |bs| <= |p|
    ensures p == p[..a] + bs[..0] + p[a + 0..]
    ensures (p[..a] + bs[..k] + p[a + k..])[a + k := bs[k]] == p[..a] + bs[..k + 1] + p[a + k + 1..]
  {
  }

  method WriteIndexV3(payload: array<byte>, i: nat, e: Entry)
    requires ENTRY_V3_SIZE * i + ENTRY_V3_SIZE <= payload.Length
    modifies payload
    ensures var a := ENTRY_V3_SIZE * i;
            payload[..] == old(payload[..a]) + EntryBytes(e) + old(payload[a + ENTRY_V3_SIZE..])
  {
    var a := ENTRY_V3_SIZE * i;
    var bs := EntryBytes(e);
    ghost var was := payload[..];
    Overwritten(was, a, bs, 0);
    for k := 0 to ENTRY_V3_SIZE
      invariant payload[..] == was[..a] + bs[..k] + was[a + k..]
    {
      Overwritten(was, a, bs, k);
      payload[a + k] := bs[k];
    }
  }
}
