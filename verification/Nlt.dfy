/**
 * Language table files: the header, decoding (decompression, checksum, UTF-16 rewriting, region block) and
 * string lookup.
 */
module Nlt {
  import opened Bytes
  import opened NltIndex
  import Crc
  import Lzss
  import Utf16
  import Utf16Rewrite

  const HEADER_V2_SIZE: nat := 32
  const HEADER_V3_SIZE: nat := 64

  function MagicV2(): seq<byte> { [0x4E, 0x4C, 0x54, 0x32] }
  function MagicV3(): seq<byte> { [0x4E, 0x4C, 0x54, 0x33] }

  datatype Header = Header(
    version: nat, languageId: nat, applicationId: nat, entryCount: nat, flags: nat,
    payloadOffset: nat, payloadSize: nat, payloadStored: nat, payloadCrc32: nat,
    regionOffset: nat, regionSize: nat, signatureOffset: nat, signatureSize: nat)

  predicate IsV3(h: Header) { h.version == VERSION_V3 }
  predicate IsCompressed(h: Header) { h.flags % 2 == 1 }
  predicate IsUtf16(h: Header) { h.flags / 2 % 2 == 1 }
  predicate HasRegion(h: Header) { h.flags / 16 % 2 == 1 }

  // ---- The header -------------------------------------------------------------------------

  /** The fields of a version 3 header, before any check. */
  function FieldsV3(data: seq<byte>): Header
    requires |data| >= HEADER_V3_SIZE
  {
    Header(Rd16(data, 4), Rd32(data, 8), Rd32(data, 12), Rd32(data, 16), Rd32(data, 20), Rd32(data, 24), Rd32(data, 28),
           Rd32(data, 32), Rd32(data, 36), Rd32(data, 40), Rd32(data, 44), Rd32(data, 48), Rd32(data, 52))
  }

  predicate AcceptV3(h: Header, size: nat) {
    && IsV3(h)
    && h.entryCount * ENTRY_V3_SIZE <= h.payloadSize
    && h.payloadOffset + h.payloadStored <= size
    && (h.regionSize > 0 ==> h.regionOffset + h.regionSize <= size)
    && (h.signatureSize > 0 ==> h.signatureOffset + h.signatureSize <= size)
  }

  function ParseHeader(data: seq<byte>): (r: Option<Header>)
    ensures r.Some? ==> r.value.payloadOffset + r.value.payloadStored <= |data|
  {
    if |data| < 8 then None
    else if data[..4] == MagicV2() then
      if |data| < HEADER_V2_SIZE then None
      else
        var n := Rd32(data, 16);
        var size := n * ENTRY_V2_SIZE;
        if HEADER_V2_SIZE + size > |data| then None
        else Some(Header(Rd16(data, 4), Rd32(data, 8), Rd32(data, 12), n, 0, HEADER_V2_SIZE, size % WORD, size % WORD,
                         0, 0, 0, 0, 0))
    else if data[..4] == MagicV3() then
      if |data| < HEADER_V3_SIZE || !AcceptV3(FieldsV3(data), |data|) then None else Some(FieldsV3(data))
    else None
  }

  // ---- Decoding -----------------------------------------------------------------------------

  datatype Decoded = Decoded(header: Header, payload: seq<byte>, region: Option<seq<byte>>)

  function Stored(data: seq<byte>, h: Header): seq<byte>
    requires h.payloadOffset + h.payloadStored <= |data|
  {
    data[h.payloadOffset..h.payloadOffset + h.payloadStored]
  }

  /** The payload as it was before storing, if it has the announced size. */
  function Unpack(h: Header, stored: seq<byte>, scratch: nat): (r: Option<seq<byte>>)
    ensures r.Some? ==> |r.value| == h.payloadSize
  {
    if IsCompressed(h) then
      match Lzss.Inflate(stored, [], scratch)
      case None => None
      case Some(p) => if |p| == h.payloadSize then Some(p) else None
    else if |stored| == h.payloadSize then Some(stored)
    else None
  }

  /** Checksum, then UTF-8 with index offsets to match. */
  function Check(h: Header, payload: seq<byte>, room: nat): (r: Option<seq<byte>>)
    ensures r.Some? ==> |r.value| <= room
  {
    if IsV3(h) && Crc.Crc32(payload) != h.payloadCrc32 then None
    else if IsUtf16(h) then Utf16Rewrite.Rewrite(payload, h.version, h.entryCount, room)
    else if room < |payload| then None
    else Some(payload)
  }

  function AddRegion(data: seq<byte>, h: Header, payload: seq<byte>, room: nat): (r: Option<Decoded>)
    ensures r.Some? ==> r.value.header == h && r.value.payload == payload
  {
    if HasRegion(h) && h.regionSize > 0 then
      if h.regionOffset + h.regionSize > |data| || |payload| + h.regionSize > room then None
      else Some(Decoded(h, payload, Some(data[h.regionOffset..h.regionOffset + h.regionSize])))
    else Some(Decoded(h, payload, None))
  }

  function Finish(data: seq<byte>, h: Header, unpacked: Option<seq<byte>>, room: nat): (r: Option<Decoded>) {
    match unpacked
    case None => None
    case Some(p) =>
      match Check(h, p, room)
      case None => None
      case Some(q) => AddRegion(data, h, q, room)
  }

  /** The whole decoding, with a scratch buffer and an output buffer of the given sizes. */
  function Decode(data: seq<byte>, scratch: nat, room: nat): (r: Option<Decoded>) {
    match ParseHeader(data)
    case None => None
    case Some(h) => Finish(data, h, Unpack(h, Stored(data, h), scratch), room)
  }

  /**
   * A decoded table has a region block exactly when its header flags one and gives it a size; the block is then the
   * file's, where the header says, and there was room for it behind the payload.
   */
  lemma DecodedRegion(data: seq<byte>, scratch: nat, room: nat, d: Decoded)
    requires Decode(data, scratch, room) == Some(d)
    ensures d.region.Some? <==> d.header.flags / 16 % 2 == 1 && d.header.regionSize > 0
    ensures d.region.Some? ==>
              && |d.region.value| == d.header.regionSize && HoldsAt(data, d.header.regionOffset, d.region.value)
              && |d.payload| + |d.region.value| <= room
  {
    var h := ParseHeader(data).value;
    FinishAdds(data, h, Unpack(h, Stored(data, h), scratch), room, d);
    AddedRegion(data, h, d.payload, room, d);
  }

  lemma FinishAdds(data: seq<byte>, h: Header, unpacked: Option<seq<byte>>, room: nat, d: Decoded)
    requires Finish(data, h, unpacked, room) == Some(d)
    ensures AddRegion(data, h, d.payload, room) == Some(d)
  {
  }

  lemma AddedRegion(data: seq<byte>, h: Header, payload: seq<byte>, room: nat, d: Decoded)
    requires AddRegion(data, h, payload, room) == Some(d)
    ensures d.header == h && (d.region.Some? <==> h.flags / 16 % 2 == 1 && h.regionSize > 0)
    ensures d.region.Some? ==>
              && |d.region.value| == h.regionSize && HoldsAt(data, h.regionOffset, d.region.value)
              && |payload| + |d.region.value| <= room
  {
  }

  // ---- Strings --------------------------------------------------------------------------------

  /** The first zero byte at or after `i`. */
  function ZeroFrom(payload: seq<byte>, i: nat): (r: Option<nat>)
    decreases |payload| - i
  {
    if i >= |payload| then None else if payload[i] == 0 then Some(i) else ZeroFrom(payload, i + 1)
  }

  ghost predicate ValidUtf8(bs: seq<byte>) { exists cps: seq<Utf16.CodePoint> :: bs == Utf16.Utf8(cps) }

  /** The zero-terminated UTF-8 string at `off`. */
  ghost function StrAt(payload: seq<byte>, off: nat): (r: Option<seq<byte>>) {
    match ZeroFrom(payload, off)
    case None => None
    case Some(end) => if off <= end <= |payload| && ValidUtf8(payload[off..end]) then Some(payload[off..end]) else None
  }

  ghost function Lookup(payload: seq<byte>, version: nat, n: nat, id: nat): (r: Option<seq<byte>>) {
    match Search(payload, version, id, 0, n - 1)
    case None => None
    case Some(e) => StrAt(payload, e.off)
  }

  /** On a sorted index that fits, a lookup is a linear scan for the id followed by reading its string. */
  lemma LookupIsScan(payload: seq<byte>, version: nat, n: nat, id: nat)
    requires IndexFits(payload, version, n) && Sorted(payload, version, n)
    ensures Lookup(payload, version, n, id) ==
            match Scan(payload, version, n, id, 0) case None => None case Some(e) => StrAt(payload, e.off)
  {
    SearchIsScan(payload, version, n, id, 0, n - 1);
  }

  /** A zero-terminated string without a zero byte is read up to its terminator. */
  lemma {:induction false} ZeroFound(payload: seq<byte>, i: nat, bs: seq<byte>)
    requires HoldsAt(payload, i, bs + [0]) && 0 !in bs
    ensures ZeroFrom(payload, i) == Some(i + |bs|)
    decreases |bs|
  {
    HoldsConcat(payload, i, bs, [0]);
    assert payload[i + |bs|] == payload[i + |bs|..i + |bs| + 1][0] == 0;
    if bs == [] {
    } else {
      assert payload[i] == payload[i..i + |bs|][0] == bs[0];
      assert bs + [0] == [bs[0]] + (bs[1..] + [0]);
      HoldsConcat(payload, i, [bs[0]], bs[1..] + [0]);
      ZeroFound(payload, i + 1, bs[1..]);
    }
  }

  lemma {:induction false} NoZeroFound(payload: seq<byte>, i: nat)
    requires forall k | i <= k < |payload| :: payload[k] != 0
    ensures ZeroFrom(payload, i) == None
    decreases |payload| - i
  {
    if i >= |payload| {
    } else {
      NoZeroFound(payload, i + 1);
    }
  }

  // ---- Corruption -------------------------------------------------------------------------------

  /** `a` and `b` differ, and only from `lo` up to `hi`. */
  predicate ChangedWithin(a: seq<byte>, b: seq<byte>, lo: int, hi: int) {
    |a| == |b| && a != b && forall i | 0 <= i < |a| && !(lo <= i < hi) :: a[i] == b[i]
  }

  /** The header is read from the first 64 bytes. */
  lemma HeaderOnly(a: seq<byte>, b: seq<byte>, lo: nat, hi: nat)
    requires ChangedWithin(a, b, lo, hi) && |a| >= HEADER_V3_SIZE && a[..4] == MagicV3() && lo >= HEADER_V3_SIZE
    ensures ParseHeader(a) == ParseHeader(b)
  {
    assert b[..4] == a[..4];
    assert FieldsV3(a) == FieldsV3(b);
  }

  /** What decoding an uncompressed version 3 file requires of its checksum. */
  lemma ChecksumGuards(data: seq<byte>, h: Header, scratch: nat, room: nat)
    requires ParseHeader(data) == Some(h) && IsV3(h) && !IsCompressed(h)
    ensures Decode(data, scratch, room).Some? ==> Crc.Crc32(Stored(data, h)) == h.payloadCrc32
  {
  }

  lemma StoredChanged(a: seq<byte>, b: seq<byte>, h: Header, lo: nat, hi: nat)
    requires ChangedWithin(a, b, lo, hi) && hi <= lo + 4
    requires h.payloadOffset <= lo && hi <= h.payloadOffset + h.payloadStored <= |a|
    ensures Crc.Crc32(Stored(a, h)) != Crc.Crc32(Stored(b, h))
  {
    var o, p, q := h.payloadOffset, Stored(a, h), Stored(b, h);
    assert p != q by {
      var i :| 0 <= i < |a| && a[i] != b[i];
      assert p[i - o] == a[i] && q[i - o] == b[i];
    }
    Crc.FourBytesDetected(p, q, lo - o);
  }

  /**
   * A file that decodes, stored uncompressed behind its header, no longer decodes once its payload is
   * changed within four consecutive bytes.
   */
  lemma CorruptionDetected(a: seq<byte>, b: seq<byte>, h: Header, lo: nat, hi: nat, scratch: nat, room: nat)
    requires Decode(a, scratch, room).Some? && ParseHeader(a) == Some(h)
    requires IsV3(h) && !IsCompressed(h) && |a| >= HEADER_V3_SIZE && a[..4] == MagicV3()
    requires HEADER_V3_SIZE <= h.payloadOffset <= lo && hi <= h.payloadOffset + h.payloadStored
    requires ChangedWithin(a, b, lo, hi) && hi <= lo + 4
    ensures Decode(b, scratch, room) == None
  {
    HeaderOnly(a, b, lo, hi);
    StoredChanged(a, b, h, lo, hi);
    ChecksumGuards(a, h, scratch, room);
    ChecksumGuards(b, h, scratch, room);
  }

  // ---- A rewritten UTF-16 table ------------------------------------------------------------------

  lemma {:induction false} Utf8NoZero(cps: seq<Utf16.CodePoint>)
    requires Utf16.NonZero(cps)
    ensures 0 !in Utf16.Utf8(cps)
  {
    if cps == [] {
    } else {
      assert 0 !in Utf16.PutUtf8(cps[0]);
      Utf8NoZero(cps[1..]);
    }
  }

  lemma FormNoZero(payload: seq<byte>, i: nat)
    requires Utf16Rewrite.Form(payload, i).Some?
    ensures 0 !in Utf16Rewrite.Form(payload, i).value
  {
    var cps := Utf16.Scalars(payload, i).value;
    Utf16.ScalarsIff(payload, i, cps);
    Utf8NoZero(cps);
  }

  lemma {:induction false} ConcatNoZero(fs: seq<seq<byte>>)
    requires forall f | f in fs :: 0 !in f
    ensures 0 !in Utf16Rewrite.Concat(fs)
    decreases |fs|
  {
    if fs == [] {
    } else {
      ConcatNoZero(fs[..|fs| - 1]);
    }
  }

  lemma AssembleNoZero(fl: seq<Option<seq<byte>>>)
    requires 0 < |fl| <= 8 && Utf16Rewrite.Assemble(fl).Some?
    requires forall f | f in fl && f.Some? :: 0 !in f.value
    ensures 0 !in Utf16Rewrite.Assemble(fl).value
  {
    var fs := Utf16Rewrite.Values(fl);
    var rs := Utf16Rewrite.Starts(fs, 1 + |fl|);
    forall f | f in fs ensures 0 !in f {
      var c :| 0 <= c < |fs| && fs[c] == f;
      assert fl[c] in fl;
    }
    ConcatNoZero(fs);
    forall c | 0 <= c < |rs| ensures rs[c] > 0 {
      Utf16Rewrite.StartAt(fs, c, 1 + |fl|);
    }
    assert 0 !in Utf16Rewrite.AsBytes(rs);
  }

  lemma GroupNoZero(payload: seq<byte>, e: Entry)
    requires Utf16Rewrite.Group(payload, e).Some?
    ensures 0 !in Utf16Rewrite.Group(payload, e).value
  {
    if Utf16Rewrite.IsPlural(e) {
      var count := payload[e.off] as nat;
      var fl := Utf16Rewrite.FormList(payload, e.off, count);
      forall f | f in fl && f.Some? ensures 0 !in f.value {
        var c :| 0 <= c < |fl| && fl[c] == f;
        FormNoZero(payload, e.off + payload[e.off + 1 + c]);
      }
      AssembleNoZero(fl);
    } else {
      FormNoZero(payload, e.off);
    }
  }

  /** The strings of a rewritten table hold no zero byte at all... */
  lemma RewrittenNoZero(payload: seq<byte>, n: nat, cap: nat)
    requires Utf16Rewrite.Rewrite(payload, VERSION_V3, n, cap).Some?
    ensures var out := Utf16Rewrite.Rewrite(payload, VERSION_V3, n, cap).value;
            ENTRY_V3_SIZE * n <= |out| && 0 !in out[ENTRY_V3_SIZE * n..]
  {
    var gl := Utf16Rewrite.GroupList(payload, n);
    var gs := Utf16Rewrite.Values(gl);
    forall g | g in gs ensures 0 !in g {
      var i :| 0 <= i < |gs| && gs[i] == g;
      assert gl[i] == Utf16Rewrite.GroupAt(payload, i);
      GroupNoZero(payload, ReadIndex(payload, VERSION_V3, i).value);
    }
    ConcatNoZero(gs);
    var index := IndexBytes(Utf16Rewrite.MovedAll(Utf16Rewrite.OldEntries(payload, n), n, gs));
    assert (index + Utf16Rewrite.Concat(gs))[ENTRY_V3_SIZE * n..] == Utf16Rewrite.Concat(gs);
  }

  /** What a search finds is one of the entries. */
  lemma {:induction false} SearchFinds(payload: seq<byte>, version: nat, id: nat, lo: int, hi: int) returns (i: nat)
    requires 0 <= lo && Search(payload, version, id, lo, hi).Some?
    ensures lo <= i <= hi && ReadIndex(payload, version, i) == Search(payload, version, id, lo, hi)
    decreases hi - lo
  {
    i := lo + (hi - lo) / 2;
    var e := ReadIndex(payload, version, i).value;
    if e.id < id {
      i := SearchFinds(payload, version, id, i + 1, hi);
    } else if e.id > id {
      i := SearchFinds(payload, version, id, lo, i - 1);
    }
  }

  /** ...so looking up a string in one fails, for every id. */
  lemma RewrittenUnreadable(payload: seq<byte>, n: nat, cap: nat, id: nat)
    requires Utf16Rewrite.Rewrite(payload, VERSION_V3, n, cap).Some? && cap < WORD
    ensures Lookup(Utf16Rewrite.Rewrite(payload, VERSION_V3, n, cap).value, VERSION_V3, n, id) == None
  {
    var out := Utf16Rewrite.Rewrite(payload, VERSION_V3, n, cap).value;
    if Search(out, VERSION_V3, id, 0, n - 1).Some? {
      var i := SearchFinds(out, VERSION_V3, id, 0, n - 1);
      Utf16Rewrite.RewriteLayout(payload, n, cap, i);
      RewrittenNoZero(payload, n, cap);
      var off := ReadIndex(out, VERSION_V3, i).value.off;
      forall k | off <= k < |out| ensures out[k] != 0 {
        assert out[k] == out[ENTRY_V3_SIZE * n..][k - ENTRY_V3_SIZE * n];
      }
      NoZeroFound(out, off);
    }
  }

  // ---- Decoding into buffers -----------------------------------------------------------------------

  /** What the caller gets: the header, and how much of the output buffer is payload and region block. */
  datatype View = View(header: Header, payloadLen: nat, regionLen: Option<nat>)

  method UnpackInto(h: Header, stored: seq<byte>, scratch: array<byte>) returns (r: Option<seq<byte>>)
    modifies scratch
    ensures r == Unpack(h, stored, scratch.Length)
  {
    if IsCompressed(h) {
      var n := Lzss.Decompress(stored, scratch);
      if n.None? || n.value != h.payloadSize { return None; }
      return Some(scratch[..n.value]);
    }
    if |stored| != h.payloadSize { return None; }
    return Some(stored);
  }

  method CheckInto(h: Header, payload: seq<byte>, out: array<byte>) returns (r: Option<nat>)
    modifies out
    ensures r.Some? <==> Check(h, payload, out.Length).Some?
    ensures r.Some? ==> r.value <= out.Length && out[..r.value] == Check(h, payload, out.Length).value
  {
    if IsV3(h) {
      var crc := Crc.Compute(payload);
      if crc != h.payloadCrc32 { return None; }
    }
    if IsUtf16(h) {
      r := Utf16Rewrite.RewriteIndexUtf16(payload, h.version, h.entryCount, out);
    } else {
      if out.Length < |payload| { return None; }
      Utf16.CopyInto(out, 0, payload);
      r := Some(|payload|);
    }
  }

  method AddRegionInto(data: seq<byte>, h: Header, n: nat, out: array<byte>) returns (r: Option<View>)
    requires n <= out.Length
    modifies out
    ensures var spec := AddRegion(data, h, old(out[..n]), out.Length);
            (r.Some? <==> spec.Some?) && (r.Some? ==> Shows(out[..], r.value, spec.value))
  {
    if HasRegion(h) && h.regionSize > 0 {
      var start, end := h.regionOffset, h.regionOffset + h.regionSize;
      if end > |data| || n + h.regionSize > out.Length { return None; }
      Utf16.CopyInto(out, n, data[start..end]);
      r := Some(View(h, n, Some(h.regionSize)));
    } else {
      r := Some(View(h, n, None));
    }
  }

  /** The buffer shows a decoded table. */
  ghost predicate Shows(out: seq<byte>, v: View, d: Decoded) {
    && v.header == d.header && v.payloadLen <= |out| && out[..v.payloadLen] == d.payload
    && (v.regionLen.Some? <==> d.region.Some?)
    && (d.region.Some? ==> |d.region.value| == v.regionLen.value && HoldsAt(out, v.payloadLen, d.region.value))
  }

  method DecodeInto(data: seq<byte>, scratch: array<byte>, out: array<byte>) returns (r: Option<View>)
    requires scratch != out
    modifies scratch, out
    ensures var spec := Decode(data, scratch.Length, out.Length);
            (r.Some? <==> spec.Some?) && (r.Some? ==> Shows(out[..], r.value, spec.value))
  {
    var header := ParseHeader(data);
    if header.None? { return None; }
    var h := header.value;
    var payload := UnpackInto(h, Stored(data, h), scratch);
    if payload.None? { return None; }
    var n := CheckInto(h, payload.value, out);
    if n.None? { return None; }
    r := AddRegionInto(data, h, n.value, out);
  }
}
