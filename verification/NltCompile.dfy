/**
 * Compiling a language table of strings and plural groups into a version 3 file, and what the decoder makes of that
 * file: every string and every form back under its id, whether or not the file was compressed.
 */
module NltCompile {
  import opened Bytes
  import opened NltIndex
  import opened Nlt
  import NltPlural
  import Crc
  import Lzss
  import opened Utf16
  import opened Utf16Rewrite

  /** One entry of the table: a string, or a plural group with a form for each category, some of them empty. */
  datatype Text = Text(id: nat, text: seq<CodePoint>) | Plural(id: nat, forms: seq<seq<CodePoint>>)

  // ---- The payload ------------------------------------------------------------------------

  /** A string in the table: UTF-8 and a zero byte, or UTF-16LE and a zero unit. */
  function Terminated(text: seq<CodePoint>, wide: bool): seq<byte> {
    if wide then Encode16(text) + [0, 0] else Utf8(text) + [0]
  }

  function Terms(forms: seq<seq<CodePoint>>, wide: bool): (fs: seq<seq<byte>>)
    ensures |fs| == |forms|
  {
    seq(|forms|, c requires 0 <= c < |forms| => Terminated(forms[c], wide))
  }

  function Somes(fs: seq<seq<byte>>): (fl: seq<Option<seq<byte>>>)
    ensures |fl| == |fs| && AllSome(fl) && Values(fl) == fs
  {
    seq(|fs|, c requires 0 <= c < |fs| => Some(fs[c]))
  }

  /** A plural group, unless a form starts too far behind for its one-byte offset. */
  function GroupOf(forms: seq<seq<CodePoint>>, wide: bool): (r: Option<seq<byte>>) {
    if |forms| != NltPlural.PLURAL_CATEGORIES then None else Assemble(Somes(Terms(forms, wide)))
  }

  function TextBytes(t: Text, wide: bool): (r: Option<seq<byte>>) {
    match t case Text(_, text) => Some(Terminated(text, wide)) case Plural(_, forms) => GroupOf(forms, wide)
  }

  predicate Buildable(ts: seq<Text>, wide: bool) { forall i | 0 <= i < |ts| :: TextBytes(ts[i], wide).Some? }

  function BytesOf(t: Text, wide: bool): seq<byte> {
    match TextBytes(t, wide) case None => [] case Some(bs) => bs
  }

  function Strings(ts: seq<Text>, wide: bool): (gs: seq<seq<byte>>)
    ensures |gs| == |ts|
  {
    seq(|ts|, i requires 0 <= i < |ts| => BytesOf(ts[i], wide))
  }

  function FlagOf(t: Text): nat { if t.Plural? then 1 else 0 }

  function Ids(ts: seq<Text>): (es: seq<Entry>)
    ensures |es| == |ts|
  {
    seq(|ts|, i requires 0 <= i < |ts| => Entry(ts[i].id, 0, FlagOf(ts[i])))
  }

  /** The index, then the strings it points at. */
  function Payload(ts: seq<Text>, wide: bool): (p: seq<byte>)
    ensures |p| >= ENTRY_V3_SIZE * |ts|
  {
    IndexBytes(MovedAll(Ids(ts), |ts|, Strings(ts, wide))) + Concat(Strings(ts, wide))
  }

  function Zeros(n: nat): (bs: seq<byte>)
    ensures |bs| == n
  {
    seq(n, i => 0)
  }

  /** The payload while it is built: the first `i` entries, room for the others, the first `i` strings. */
  ghost function Partial(ids: seq<Entry>, gs: seq<seq<byte>>, i: nat): (p: seq<byte>)
    requires i <= |gs| == |ids|
  {
    IndexBytes(MovedAll(ids, |ids|, gs[..i])) + Zeros(ENTRY_V3_SIZE * (|ids| - i)) + Concat(gs[..i])
  }

  lemma Spliced(a: seq<byte>, e: seq<byte>, n: nat, c: seq<byte>, g: seq<byte>)
    requires |e| <= n
    ensures var p := a + Zeros(n) + c;
            p[..|a|] + e + p[|a| + |e|..] + g == a + e + Zeros(n - |e|) + (c + g)
  {
    assert Zeros(n)[|e|..] == Zeros(n - |e|);
  }

  /** The payload with its index entry `i` overwritten. */
  function WithEntry(p: seq<byte>, i: nat, e: Entry): (r: seq<byte>)
    requires ENTRY_V3_SIZE * i + ENTRY_V3_SIZE <= |p|
    ensures |r| == |p|
  {
    var a := ENTRY_V3_SIZE * i;
    p[..a] + EntryBytes(e) + p[a + ENTRY_V3_SIZE..]
  }

  lemma PartialStep(ids: seq<Entry>, gs: seq<seq<byte>>, i: nat)
    requires i < |gs| == |ids|
    ensures var p := Partial(ids, gs, i);
            && ENTRY_V3_SIZE * i + ENTRY_V3_SIZE <= |p|
            && Partial(ids, gs, i + 1) == WithEntry(p, i, ids[i].(off := |p|)) + gs[i]
  {
    var before, after := gs[..i], gs[..i + 1];
    assert after[..i] == before;
    var e := ids[i].(off := |Partial(ids, gs, i)|);
    var es := MovedAll(ids, |ids|, before) + [e];
    assert MovedAll(ids, |ids|, after) == es;
    assert es[..i] == MovedAll(ids, |ids|, before);
    Spliced(IndexBytes(es[..i]), EntryBytes(e), ENTRY_V3_SIZE * (|ids| - i), Concat(before), gs[i]);
  }

  lemma PartialEnds(ts: seq<Text>, wide: bool)
    ensures Partial(Ids(ts), Strings(ts, wide), 0) == Zeros(ENTRY_V3_SIZE * |ts|)
    ensures Partial(Ids(ts), Strings(ts, wide), |ts|) == Payload(ts, wide)
  {
    var gs := Strings(ts, wide);
    assert gs[..0] == [] && gs[..|ts|] == gs;
    assert Zeros(0) == [];
  }

  lemma TermsSnoc(forms: seq<seq<CodePoint>>, wide: bool, c: nat)
    requires c < |forms|
    ensures Terms(forms, wide)[..c + 1] == Terms(forms, wide)[..c] + [Terminated(forms[c], wide)]
  {
  }

  /** A form that starts too far behind spoils the group. */
  lemma TooFar(fs: seq<seq<byte>>, c: nat, start: nat)
    requires c < |fs| && start + |Concat(fs[..c])| > 255
    ensures !OneByteEach(Starts(fs, start))
  {
    StartAt(fs, c, start);
  }

  method BuildGroup(forms: seq<seq<CodePoint>>, wide: bool) returns (r: Option<seq<byte>>)
    requires |forms| == NltPlural.PLURAL_CATEGORIES
    ensures r == GroupOf(forms, wide)
  {
    var rel: seq<byte>, strings: seq<byte> := [], [];
    var head := 1 + NltPlural.PLURAL_CATEGORIES;
    ghost var fs := Terms(forms, wide);
    for c := 0 to |forms|
      invariant OneByteEach(Starts(fs[..c], head)) && rel == AsBytes(Starts(fs[..c], head))
      invariant strings == Concat(fs[..c])
    {
      var start: nat := head + |strings|;
      if start > 255 {
        TooFar(fs, c, head);
        return None;
      }
      TermsSnoc(forms, wide, c);
      StartsSnoc(fs[..c], Terminated(forms[c], wide), head);
      AsBytesSnoc(Starts(fs[..c], head), start);
      rel := rel + [start];
      strings := strings + Terminated(forms[c], wide);
    }
    assert fs[..|forms|] == fs;
    return Some([NltPlural.PLURAL_CATEGORIES] + rel + strings);
  }

  lemma BuildableSnoc(ts: seq<Text>, wide: bool, i: nat)
    requires i < |ts|
    ensures Buildable(ts[..i + 1], wide) <==> Buildable(ts[..i], wide) && TextBytes(ts[i], wide).Some?
    ensures Buildable(ts, wide) ==> TextBytes(ts[i], wide).Some?
  {
    assert ts[..i + 1] == ts[..i] + [ts[i]];
  }

  /** A group without exactly one form for each category is not an entry of the compiler. */
  predicate SixForms(ts: seq<Text>) {
    forall i | 0 <= i < |ts| :: ts[i].Plural? ==> |ts[i].forms| == NltPlural.PLURAL_CATEGORIES
  }

  method BuildPayload(ts: seq<Text>, wide: bool) returns (r: Option<seq<byte>>)
    requires SixForms(ts)
    ensures r == if Buildable(ts, wide) then Some(Payload(ts, wide)) else None
  {
    PartialEnds(ts, wide);
    var out := Zeros(ENTRY_V3_SIZE * |ts|);
    for i := 0 to |ts|
      invariant Buildable(ts[..i], wide) && out == Partial(Ids(ts), Strings(ts, wide), i)
    {
      BuildableSnoc(ts, wide, i);
      PartialStep(Ids(ts), Strings(ts, wide), i);
      match ts[i]
      case Text(id, text) =>
        out := WithEntry(out, i, Entry(id, |out|, 0));
        out := out + Terminated(text, wide);
      case Plural(id, forms) =>
        var group := BuildGroup(forms, wide);
        if group.None? { return None; }
        out := WithEntry(out, i, Entry(id, |out|, 1));
        out := out + group.value;
    }
    assert ts[..|ts|] == ts;
    r := Some(out);
  }

  // ---- Looking strings up ---------------------------------------------------------------------

  /** The text as far as a zero-terminated string can hold it. */
  function Cut(text: seq<CodePoint>): (r: seq<CodePoint>)
    ensures r <= text && NonZero(r) && (r == text <==> 0 !in text)
  {
    if text == [] || text[0] == 0 then [] else [text[0]] + Cut(text[1..])
  }

  lemma ZeroBehind(a: seq<byte>, b: seq<byte>, ab: seq<byte>)
    requires ab == a + b
    ensures ab + [0] == a + (b + [0])
  {
  }

  lemma PrefixBehind(b: seq<byte>, x: seq<byte>, y: seq<byte>)
    requires x <= y
    ensures b + x <= b + y
  {
  }

  lemma {:induction false} CutPrefix(text: seq<CodePoint>)
    ensures Utf8(Cut(text)) + [0] <= Utf8(text) + [0]
  {
    if text == [] {
    } else {
      var b, rest := PutUtf8(text[0]), text[1..];
      ZeroBehind(b, Utf8(rest), Utf8(text));
      if text[0] == 0 {
        assert Utf8(Cut(text)) + [0] == b;
      } else {
        CutPrefix(rest);
        assert Cut(text)[1..] == Cut(rest);
        ZeroBehind(b, Utf8(Cut(rest)), Utf8(Cut(text)));
        PrefixBehind(b, Utf8(Cut(rest)) + [0], Utf8(rest) + [0]);
      }
    }
  }

  lemma CutHeld(payload: seq<byte>, i: nat, text: seq<CodePoint>)
    requires HoldsAt(payload, i, Utf8(text) + [0])
    ensures HoldsAt(payload, i, Utf8(Cut(text)) + [0])
  {
    CutPrefix(text);
    var small, all := Utf8(Cut(text)) + [0], Utf8(text) + [0];
    assert all == small + all[|small|..];
    HoldsConcat(payload, i, small, all[|small|..]);
  }

  lemma ReadString(payload: seq<byte>, i: nat, text: seq<CodePoint>)
    requires HoldsAt(payload, i, Utf8(text) + [0])
    ensures StrAt(payload, i) == Some(Utf8(Cut(text)))
  {
    var bs := Utf8(Cut(text));
    CutHeld(payload, i, text);
    Utf8NoZero(Cut(text));
    ZeroFound(payload, i, bs);
    HoldsConcat(payload, i, bs, [0]);
    assert ValidUtf8(bs);
  }

  predicate Increasing(ts: seq<Text>) { forall i, j | 0 <= i < j < |ts| :: ts[i].id < ts[j].id }

  predicate Ids32(ts: seq<Text>) { forall i | 0 <= i < |ts| :: ts[i].id < WORD }

  /** What the compiler guarantees of its entries: sorted, no id twice, everything in 32 bits. */
  predicate Compiled(ts: seq<Text>, wide: bool) {
    Increasing(ts) && Ids32(ts) && Buildable(ts, wide) && |Payload(ts, wide)| < WORD
  }

  lemma BytesStand(p: seq<byte>, index: seq<byte>, gs: seq<seq<byte>>, i: nat, off: nat)
    requires i < |gs| && p == index + Concat(gs) && off == |index| + |Concat(gs[..i])|
    ensures off + |gs[i]| <= |p| && HoldsAt(p, off, gs[i])
  {
    ConcatSplit(gs, i);
    HoldsBehind(index, Concat(gs), |Concat(gs[..i])|, gs[i]);
  }

  lemma EntryStands(p: seq<byte>, ids: seq<Entry>, gs: seq<seq<byte>>, i: nat, e: Entry)
    requires i < |ids| == |gs| && Fields32(e) && IndexBytes(MovedAll(ids, |ids|, gs)) <= p
    requires e == Entry(ids[i].id, ENTRY_V3_SIZE * |ids| + |Concat(gs[..i])|, ids[i].flags)
    ensures ReadIndex(p, VERSION_V3, i) == Some(e)
  {
    var es := MovedAll(ids, |ids|, gs);
    assert es[i] == e by { MovedAt(ids, |ids|, gs, i); }
    ReadIndexBytes(p, es, i);
  }

  lemma EntryOf(ts: seq<Text>, wide: bool, p: seq<byte>, i: nat) returns (off: nat)
    requires Compiled(ts, wide) && i < |ts| && p == Payload(ts, wide)
    ensures ReadIndex(p, VERSION_V3, i) == Some(Entry(ts[i].id, off, FlagOf(ts[i])))
    ensures TextBytes(ts[i], wide).Some? && HoldsAt(p, off, TextBytes(ts[i], wide).value)
  {
    var gs := Strings(ts, wide);
    off := ENTRY_V3_SIZE * |ts| + |Concat(gs[..i])|;
    BytesStand(p, IndexBytes(MovedAll(Ids(ts), |ts|, gs)), gs, i, off);
    EntryStands(p, Ids(ts), gs, i, Entry(ts[i].id, off, FlagOf(ts[i])));
  }

  lemma IdAt(ts: seq<Text>, wide: bool, p: seq<byte>, n: nat, i: nat)
    requires Compiled(ts, wide) && p == Payload(ts, wide) && i < |ts| == n && IndexFits(p, VERSION_V3, n)
    ensures EntryAt(p, VERSION_V3, n, i).id == ts[i].id
  {
    var off := EntryOf(ts, wide, p, i);
  }

  lemma IdsRead(ts: seq<Text>, wide: bool, p: seq<byte>, n: nat)
    requires Compiled(ts, wide) && p == Payload(ts, wide) && n == |ts| && IndexFits(p, VERSION_V3, n)
    ensures forall i | 0 <= i < n :: EntryAt(p, VERSION_V3, n, i).id == ts[i].id
  {
    forall i | 0 <= i < n ensures EntryAt(p, VERSION_V3, n, i).id == ts[i].id { IdAt(ts, wide, p, n, i); }
  }

  lemma SortedAs(ts: seq<Text>, p: seq<byte>, n: nat)
    requires n == |ts| && IndexFits(p, VERSION_V3, n) && Increasing(ts)
    requires forall i | 0 <= i < n :: EntryAt(p, VERSION_V3, n, i).id == ts[i].id
    ensures Sorted(p, VERSION_V3, n)
  {
  }

  lemma PayloadFits(ts: seq<Text>, wide: bool, p: seq<byte>, n: nat)
    requires p == Payload(ts, wide) && n == |ts|
    ensures IndexFits(p, VERSION_V3, n)
  {
    LongEnough(p, n);
  }

  lemma LongEnough(p: seq<byte>, n: nat)
    requires |p| >= 12 * n
    ensures IndexFits(p, VERSION_V3, n)
  {
  }

  lemma IndexIsSorted(ts: seq<Text>, wide: bool, p: seq<byte>, n: nat)
    requires Compiled(ts, wide) && p == Payload(ts, wide) && n == |ts|
    ensures IndexFits(p, VERSION_V3, n) && Sorted(p, VERSION_V3, n)
    ensures forall i | 0 <= i < n :: EntryAt(p, VERSION_V3, n, i).id == ts[i].id
  {
    PayloadFits(ts, wide, p, n);
    IdsRead(ts, wide, p, n);
    SortedAs(ts, p, n);
  }

  /** The search for an id of the table finds its entry, and that of any other id finds nothing. */
  lemma SearchText(ts: seq<Text>, p: seq<byte>, i: nat, off: nat)
    requires Compiled(ts, false) && i < |ts| && p == Payload(ts, false)
    requires ReadIndex(p, VERSION_V3, i) == Some(Entry(ts[i].id, off, FlagOf(ts[i])))
    ensures Search(p, VERSION_V3, ts[i].id, 0, |ts| - 1) == Some(Entry(ts[i].id, off, FlagOf(ts[i])))
  {
    IndexIsSorted(ts, false, p, |ts|);
    ScanFinds(p, VERSION_V3, |ts|, ts[i].id, 0, i);
    SearchIsScan(p, VERSION_V3, |ts|, ts[i].id, 0, |ts| - 1);
  }

  lemma SearchAbsent(ts: seq<Text>, p: seq<byte>, id: nat)
    requires Compiled(ts, false) && p == Payload(ts, false) && forall i | 0 <= i < |ts| :: ts[i].id != id
    ensures Search(p, VERSION_V3, id, 0, |ts| - 1) == None
  {
    IndexIsSorted(ts, false, p, |ts|);
    ScanMisses(p, VERSION_V3, |ts|, id, 0);
    SearchIsScan(p, VERSION_V3, |ts|, id, 0, |ts| - 1);
  }

  /** A compiled payload gives back every string under its id, up to a zero character in it... */
  lemma LookupText(ts: seq<Text>, i: nat)
    requires Compiled(ts, false) && i < |ts| && ts[i].Text?
    ensures Lookup(Payload(ts, false), VERSION_V3, |ts|, ts[i].id) == Some(Utf8(Cut(ts[i].text)))
  {
    var off := EntryOf(ts, false, Payload(ts, false), i);
    SearchText(ts, Payload(ts, false), i, off);
    ReadString(Payload(ts, false), off, ts[i].text);
  }

  /** ...and nothing under any other id. */
  lemma LookupAbsent(ts: seq<Text>, id: nat)
    requires Compiled(ts, false) && forall i | 0 <= i < |ts| :: ts[i].id != id
    ensures Lookup(Payload(ts, false), VERSION_V3, |ts|, id) == None
  {
    SearchAbsent(ts, Payload(ts, false), id);
  }

  // ---- Looking forms up -----------------------------------------------------------------------

  /** What a form of a group should show. */
  function SlotFor(form: seq<CodePoint>): NltPlural.Slot {
    if Cut(form) == [] then NltPlural.Empty else NltPlural.Form(Utf8(Cut(form)))
  }

  /** The form of the category, or else the one for all other counts, or else the first: what is not empty. */
  function Shown(forms: seq<seq<CodePoint>>, c: nat): (r: Option<seq<byte>>)
    requires |forms| == NltPlural.PLURAL_CATEGORIES && c < NltPlural.PLURAL_CATEGORIES
    ensures Cut(forms[c]) != [] ==> r == Some(Utf8(Cut(forms[c])))
    ensures Cut(forms[NltPlural.OTHER]) != [] ==> r.Some?
  {
    NltPlural.Else(SlotFor(forms[c]),
                   NltPlural.Else(SlotFor(forms[NltPlural.OTHER]), NltPlural.Else(SlotFor(forms[0]), None)))
  }

  /** Every form of a group stands where the group says, with its terminator. */
  lemma FormStands(p: seq<byte>, off: nat, forms: seq<seq<CodePoint>>, wide: bool, c: nat)
    requires GroupOf(forms, wide).Some? && HoldsAt(p, off, GroupOf(forms, wide).value) && c < |forms|
    ensures off + 1 + c < |p| && p[off] == NltPlural.PLURAL_CATEGORIES
    ensures HoldsAt(p, off + p[off + 1 + c], Terminated(forms[c], wide))
  {
    var fl := Somes(Terms(forms, wide));
    GroupForm(p, off, fl, c, Assemble(fl).value, Terminated(forms[c], wide));
  }

  lemma SlotOfString(p: seq<byte>, off: nat, c: nat, at: nat, form: seq<CodePoint>)
    requires off + 1 + c < |p| < WORD && at == off + p[off + 1 + c] && HoldsAt(p, at, Utf8(form) + [0])
    ensures NltPlural.SlotAt(p, off, c) == SlotFor(form)
  {
    ReadString(p, at, form);
    assert at % WORD == at;
    Utf8Empty(Cut(form));
  }

  lemma Utf8Empty(text: seq<CodePoint>)
    ensures Utf8(text) == [] <==> text == []
  {
  }

  lemma SlotStands(p: seq<byte>, off: nat, forms: seq<seq<CodePoint>>, c: nat)
    requires GroupOf(forms, false).Some? && HoldsAt(p, off, GroupOf(forms, false).value) && c < |forms| && |p| < WORD
    ensures NltPlural.SlotAt(p, off, c) == SlotFor(forms[c])
  {
    FormStands(p, off, forms, false, c);
    SlotOfString(p, off, c, off + p[off + 1 + c], forms[c]);
  }

  lemma GroupShows(p: seq<byte>, off: nat, forms: seq<seq<CodePoint>>, languageId: nat, n: nat)
    requires GroupOf(forms, false).Some? && HoldsAt(p, off, GroupOf(forms, false).value) && |p| < WORD
    ensures NltPlural.Selected(p, off, languageId, n) == Shown(forms, NltPlural.Category(languageId, n))
  {
    var c := NltPlural.Category(languageId, n);
    FormStands(p, off, forms, false, c);
    NltPlural.SelectedIs(p, off, languageId, n, p[off]);
    SlotStands(p, off, forms, c);
    SlotStands(p, off, forms, NltPlural.OTHER);
    SlotStands(p, off, forms, 0);
  }

  /**
   * In English, and every other language that tells one from all other counts: the second form for one and the sixth
   * for the others, where these have anything before a zero character.
   */
  lemma OneOrOtherShown(p: seq<byte>, off: nat, forms: seq<seq<CodePoint>>, languageId: nat, n: nat)
    requires GroupOf(forms, false).Some? && HoldsAt(p, off, GroupOf(forms, false).value) && |p| < WORD
    requires languageId !in {3, 7, 12, 13, 14, 15, 17, 22, 23, 24}
    requires Cut(forms[1]) != [] && Cut(forms[5]) != []
    ensures NltPlural.Selected(p, off, languageId, n)
            == Some(if n == 1 then Utf8(Cut(forms[1])) else Utf8(Cut(forms[5])))
  {
    NltPlural.OneOrOther(languageId, n);
    GroupShows(p, off, forms, languageId, n);
  }

  /** What the table should show for one of its entries and a count. */
  function ShownFor(t: Text, languageId: nat, n: nat): (r: Option<seq<byte>>)
    requires t.Plural? ==> |t.forms| == NltPlural.PLURAL_CATEGORIES
  {
    match t
    case Text(_, text) => Some(Utf8(Cut(text)))
    case Plural(_, forms) => Shown(forms, NltPlural.Category(languageId, n))
  }

  lemma PluralText(ts: seq<Text>, i: nat, languageId: nat, n: nat)
    requires Compiled(ts, false) && i < |ts|
    ensures ts[i].Plural? ==> |ts[i].forms| == NltPlural.PLURAL_CATEGORIES
    ensures NltPlural.Plural(Payload(ts, false), VERSION_V3, |ts|, languageId, ts[i].id, n) ==
            ShownFor(ts[i], languageId, n)
  {
    var p := Payload(ts, false);
    var off := EntryOf(ts, false, p, i);
    SearchText(ts, p, i, off);
    match ts[i]
    case Text(_, text) => ReadString(p, off, text);
    case Plural(_, forms) => GroupShows(p, off, forms, languageId, n);
  }

  // ---- The header -------------------------------------------------------------------------------

  function Words(ws: seq<nat>): (bs: seq<byte>)
    ensures |bs| == 4 * |ws|
  {
    if ws == [] then [] else Words(ws[..|ws| - 1]) + Le32(ws[|ws| - 1])
  }

  lemma {:induction false} WordAt(ws: seq<nat>, i: nat)
    requires i < |ws|
    ensures HoldsAt(Words(ws), 4 * i, Le32(ws[i]))
    decreases |ws|
  {
    var n := |ws| - 1;
    if i >= n {
    } else {
      WordAt(ws[..n], i);
      HoldsPrefix(Words(ws), Words(ws[..n]), 4 * i, Le32(ws[i]));
    }
  }

  /** Magic, version and header size, each as the compiler writes it. */
  function Start(): (bs: seq<byte>)
    ensures |bs| == 8
  {
    MagicV3() + [3, 0, 64, 0]
  }

  function Fields(h: Header): (ws: seq<nat>)
    ensures |ws| == 12
  {
    [h.languageId, h.applicationId, h.entryCount, h.flags, h.payloadOffset, h.payloadSize, h.payloadStored,
     h.payloadCrc32, h.regionOffset, h.regionSize, h.signatureOffset, h.signatureSize]
  }

  function HeaderBytes(h: Header): (bs: seq<byte>)
    ensures |bs| == HEADER_V3_SIZE
  {
    Start() + Words(Fields(h)) + Zeros(8)
  }

  lemma FieldAt(data: seq<byte>, h: Header, i: nat)
    requires HeaderBytes(h) <= data && i < 12 && Fields(h)[i] < WORD
    ensures Rd32(data, 8 + 4 * i) == Fields(h)[i]
  {
    var ws := Fields(h);
    WordAt(ws, i);
    HoldsBehind(Start(), Words(ws), 4 * i, Le32(ws[i]));
    HoldsPrefix(HeaderBytes(h), Start() + Words(ws), 8 + 4 * i, Le32(ws[i]));
    HoldsPrefix(data, HeaderBytes(h), 8 + 4 * i, Le32(ws[i]));
    RdLe32(data, 8 + 4 * i, ws[i]);
  }

  lemma StartAt8(data: seq<byte>, h: Header)
    requires HeaderBytes(h) <= data
    ensures data[..4] == MagicV3() && Rd16(data, 4) == VERSION_V3
  {
    assert data[..HEADER_V3_SIZE] == HeaderBytes(h);
    assert forall k | 0 <= k < 8 :: data[k] == HeaderBytes(h)[k] == Start()[k];
  }

  predicate Words32(h: Header) {
    && h.languageId < WORD && h.applicationId < WORD && h.entryCount < WORD && h.flags < WORD
    && h.payloadOffset < WORD && h.payloadSize < WORD && h.payloadStored < WORD && h.payloadCrc32 < WORD
    && h.regionOffset < WORD && h.regionSize < WORD && h.signatureOffset < WORD && h.signatureSize < WORD
  }

  /** A written header is read back as it was, and accepted exactly when its blocks fit the file. */
  lemma ParseWritten(data: seq<byte>, h: Header)
    requires IsV3(h) && Words32(h) && HeaderBytes(h) <= data
    ensures ParseHeader(data) == if AcceptV3(h, |data|) then Some(h) else None
  {
    StartAt8(data, h);
    var ws := Fields(h);
    forall i | 0 <= i < 12 ensures Rd32(data, 8 + 4 * i) == ws[i] { FieldAt(data, h, i); }
    assert Rd32(data, 8 + 4 * 0) == ws[0] && Rd32(data, 8 + 4 * 1) == ws[1] && Rd32(data, 8 + 4 * 2) == ws[2];
    assert Rd32(data, 8 + 4 * 3) == ws[3] && Rd32(data, 8 + 4 * 4) == ws[4] && Rd32(data, 8 + 4 * 5) == ws[5];
    assert Rd32(data, 8 + 4 * 6) == ws[6] && Rd32(data, 8 + 4 * 7) == ws[7] && Rd32(data, 8 + 4 * 8) == ws[8];
    assert Rd32(data, 8 + 4 * 9) == ws[9] && Rd32(data, 8 + 4 * 10) == ws[10] && Rd32(data, 8 + 4 * 11) == ws[11];
    assert FieldsV3(data) == h;
  }

  predicate AllWords(ws: seq<nat>) { forall i | 0 <= i < |ws| :: ws[i] < WORD }

  predicate ReadsAs(data: seq<byte>, at: nat, ws: seq<nat>)
    requires at + 4 * |ws| <= |data|
  {
    forall i | 0 <= i < |ws| :: Rd32(data, at + 4 * i) == ws[i]
  }

  lemma {:induction false} WordsIff(data: seq<byte>, at: nat, ws: seq<nat>)
    requires AllWords(ws) && at + 4 * |ws| <= |data|
    ensures HoldsAt(data, at, Words(ws)) <==> ReadsAs(data, at, ws)
    decreases |ws|
  {
    if ws == [] {
    } else {
      var n := |ws| - 1;
      var front, w := ws[..n], ws[n];
      assert ws == front + [w];
      WordsIff(data, at, front);
      HoldsConcat(data, at, Words(front), Le32(w));
      FieldIff(data, at + 4 * n, w);
      ReadsSnoc(data, at, ws, front, w, at + 4 * n);
    }
  }

  lemma ReadsSnoc(data: seq<byte>, at: nat, ws: seq<nat>, front: seq<nat>, w: nat, last: nat)
    requires at + 4 * |ws| <= |data| && ws == front + [w] && last == at + 4 * |front|
    ensures ReadsAs(data, at, ws) <==> ReadsAs(data, at, front) && Rd32(data, last) == w
  {
    if ReadsAs(data, at, ws) {
      forall i | 0 <= i < |front| ensures Rd32(data, at + 4 * i) == front[i] { assert ws[i] == front[i]; }
      assert Rd32(data, at + 4 * |front|) == ws[|front|];
    }
  }

  /** The file starts with a version 3 header that says `h`; what it says fits the file. */
  predicate StandsV3(data: seq<byte>, h: Header) {
    && |data| >= 64 && HoldsAt(data, 0, [0x4E, 0x4C, 0x54, 0x33] + [3, 0]) && HoldsAt(data, 8, Words(Fields(h)))
    && h.version == 3 && Words32(h)
    && 12 * h.entryCount <= h.payloadSize && h.payloadOffset + h.payloadStored <= |data|
    && (h.regionSize > 0 ==> h.regionOffset + h.regionSize <= |data|)
    && (h.signatureSize > 0 ==> h.signatureOffset + h.signatureSize <= |data|)
  }

  /** The file starts with a version 2 header that says `h`, and its index is in the file. */
  predicate StandsV2(data: seq<byte>, h: Header) {
    && |data| >= 32 && HoldsAt(data, 0, [0x4E, 0x4C, 0x54, 0x32] + [h.version % 256, h.version / 256 % 256])
    && h.version < 0x1_0000 && AllWords([h.languageId, h.applicationId, h.entryCount])
    && HoldsAt(data, 8, Words([h.languageId, h.applicationId, h.entryCount]))
    && 32 + 8 * h.entryCount <= |data|
    && h == Header(h.version, h.languageId, h.applicationId, h.entryCount, 0, 32, 8 * h.entryCount % 0x1_0000_0000,
                   8 * h.entryCount % 0x1_0000_0000, 0, 0, 0, 0, 0)
  }

  lemma FieldsIff(data: seq<byte>, h: Header)
    requires |data| >= HEADER_V3_SIZE && Rd16(data, 4) == h.version
    ensures FieldsV3(data) == h <==> Words32(h) && HoldsAt(data, 8, Words(Fields(h)))
  {
    var ws := Fields(h);
    if Words32(h) { WordsIff(data, 8, ws); }
    if Words32(h) && ReadsAs(data, 8, ws) {
      assert Rd32(data, 8 + 4 * 0) == ws[0] && Rd32(data, 8 + 4 * 1) == ws[1] && Rd32(data, 8 + 4 * 2) == ws[2];
      assert Rd32(data, 8 + 4 * 3) == ws[3] && Rd32(data, 8 + 4 * 4) == ws[4] && Rd32(data, 8 + 4 * 5) == ws[5];
      assert Rd32(data, 8 + 4 * 6) == ws[6] && Rd32(data, 8 + 4 * 7) == ws[7] && Rd32(data, 8 + 4 * 8) == ws[8];
      assert Rd32(data, 8 + 4 * 9) == ws[9] && Rd32(data, 8 + 4 * 10) == ws[10] && Rd32(data, 8 + 4 * 11) == ws[11];
    }
  }

  lemma MagicIff(data: seq<byte>, magic: seq<byte>, a: byte, b: byte)
    requires |data| >= 8 && |magic| == 4
    ensures HoldsAt(data, 0, magic + [a, b]) <==> data[..4] == magic && data[4] == a && data[5] == b
  {
    HoldsConcat(data, 0, magic, [a, b]);
    assert data[0..4] == data[..4] && data[4..6] == [data[4], data[5]];
  }

  lemma ParseV3Iff(data: seq<byte>, h: Header)
    requires |data| >= HEADER_V3_SIZE && data[..4] == MagicV3()
    ensures ParseHeader(data) == Some(h) <==> StandsV3(data, h)
  {
    MagicIff(data, MagicV3(), 3, 0);
    if Rd16(data, 4) == h.version { FieldsIff(data, h); }
  }

  lemma ParseV2Iff(data: seq<byte>, h: Header)
    requires |data| >= HEADER_V2_SIZE && data[..4] == MagicV2()
    ensures ParseHeader(data) == Some(h) <==> StandsV2(data, h)
  {
    var ws := [h.languageId, h.applicationId, h.entryCount];
    MagicIff(data, MagicV2(), h.version % 256, h.version / 256 % 256);
    if AllWords(ws) { WordsIff(data, 8, ws); }
    ReadsThree(data, h.languageId, h.applicationId, h.entryCount);
    VersionBytes(data[4], data[5], h.version);
    assert ParseHeader(data) == Some(h) ==> AllWords(ws);
  }

  lemma VersionBytes(a: byte, b: byte, v: nat)
    ensures a + 0x100 * b == v <==> v < 0x1_0000 && a == v % 256 && b == v / 256 % 256
  {
  }

  lemma ReadsThree(data: seq<byte>, x: nat, y: nat, z: nat)
    requires |data| >= 20
    ensures ReadsAs(data, 8, [x, y, z]) <==> Rd32(data, 8) == x && Rd32(data, 12) == y && Rd32(data, 16) == z
  {
    var ws := [x, y, z];
    if ReadsAs(data, 8, ws) {
      assert Rd32(data, 8 + 4 * 0) == ws[0] && Rd32(data, 8 + 4 * 1) == ws[1] && Rd32(data, 8 + 4 * 2) == ws[2];
    } else {
      var i :| 0 <= i < 3 && Rd32(data, 8 + 4 * i) != ws[i];
      assert i == 0 || i == 1 || i == 2;
    }
  }

  /** A header is accepted, as `h`, exactly when the file starts with one that says `h` and fits the file. */
  lemma ParseIff(data: seq<byte>, h: Header)
    ensures ParseHeader(data) == Some(h) <==> StandsV3(data, h) || StandsV2(data, h)
  {
    if |data| >= 8 {
      MagicIff(data, MagicV3(), 3, 0);
      MagicIff(data, MagicV2(), h.version % 256, h.version / 256 % 256);
      if |data| >= HEADER_V3_SIZE && data[..4] == MagicV3() {
        ParseV3Iff(data, h);
      } else if |data| >= HEADER_V2_SIZE && data[..4] == MagicV2() {
        ParseV2Iff(data, h);
      }
    }
  }

  // ---- The file -----------------------------------------------------------------------------------

  /** A compiled table with its options; the region block is empty when there is none. */
  datatype Table = Table(languageId: nat, applicationId: nat, texts: seq<Text>, wide: bool, compress: bool,
                         region: seq<byte>, signed: bool)

  predicate IsRtl(languageId: nat) { languageId in {15, 26, 27, 28} }

  /** Compression is kept only when the compressor takes the payload and shrinks it. */
  predicate Kept(payload: seq<byte>, compress: bool) {
    compress && |payload| <= Lzss.MAX_INPUT && |Lzss.Encode(Lzss.Parse(payload))| < |payload|
  }

  function StoredForm(payload: seq<byte>, compress: bool): seq<byte> {
    if Kept(payload, compress) then Lzss.Encode(Lzss.Parse(payload)) else payload
  }

  function Bit(b: bool, value: nat): nat { if b then value else 0 }

  function FlagsOf(kept: bool, wide: bool, rtl: bool, signed: bool, region: bool): (f: nat)
    ensures f < 32 && (f % 2 == 1 <==> kept) && (f / 2 % 2 == 1 <==> wide) && (f / 4 % 2 == 1 <==> rtl)
    ensures (f / 8 % 2 == 1 <==> signed) && (f / 16 % 2 == 1 <==> region)
  {
    Bit(kept, 1) + Bit(wide, 2) + Bit(rtl, 4) + Bit(signed, 8) + Bit(region, 16)
  }

  /** The header of a table with payload `p`, stored as `stored`. */
  function HeaderFor(t: Table, p: seq<byte>, stored: seq<byte>): (h: Header) {
    var end := HEADER_V3_SIZE + |stored|;
    Header(VERSION_V3, t.languageId, t.applicationId, |t.texts|,
           FlagsOf(Kept(p, t.compress), t.wide, IsRtl(t.languageId), t.signed, t.region != []),
           HEADER_V3_SIZE, |p|, |stored|, Crc.Crc32(p),
           if t.region == [] then 0 else end, |t.region|,
           if t.signed then end + |t.region| else 0, if t.signed then 64 else 0)
  }

  function PayloadOf(t: Table): (p: seq<byte>)
    ensures |p| >= ENTRY_V3_SIZE * |t.texts|
  {
    Payload(t.texts, t.wide)
  }

  function StoredOf(t: Table): seq<byte> { StoredForm(PayloadOf(t), t.compress) }

  function HeaderOf(t: Table): (h: Header) { HeaderFor(t, PayloadOf(t), StoredOf(t)) }

  /** The file; `signature` is what the signer made of the rest. */
  function File(t: Table, signature: seq<byte>): (f: seq<byte>) {
    HeaderBytes(HeaderOf(t)) + StoredOf(t) + t.region + signature
  }

  predicate Writable(t: Table, signature: seq<byte>) {
    && Compiled(t.texts, t.wide) && t.languageId < WORD && t.applicationId < WORD
    && |signature| == (if t.signed then 64 else 0) && |File(t, signature)| < WORD
  }

  /** Every table of reasonable size can be written: compression only ever makes it shorter. */
  lemma SmallIsWritable(t: Table, signature: seq<byte>)
    requires Increasing(t.texts) && Ids32(t.texts)
    requires Buildable(t.texts, t.wide) && t.languageId < WORD && t.applicationId < WORD
    requires |signature| == (if t.signed then 64 else 0)
    requires HEADER_V3_SIZE + |PayloadOf(t)| + |t.region| + |signature| < WORD
    ensures Writable(t, signature)
  {
    assert |StoredOf(t)| <= |PayloadOf(t)|;
  }

  lemma HeaderFits(t: Table, p: seq<byte>, stored: seq<byte>, n: nat)
    requires ENTRY_V3_SIZE * |t.texts| <= |p| < WORD && t.languageId < WORD && t.applicationId < WORD
    requires n == HEADER_V3_SIZE + |stored| + |t.region| + (if t.signed then 64 else 0) < WORD
    ensures Words32(HeaderFor(t, p, stored)) && AcceptV3(HeaderFor(t, p, stored), n)
  {
    Crc.Crc32Bound(p);
  }

  lemma StoredStands(a: seq<byte>, stored: seq<byte>, region: seq<byte>, signature: seq<byte>)
    ensures var f := a + stored + region + signature;
            a <= f && f[|a|..|a| + |stored|] == stored
  {
  }

  lemma ParseBuilt(t: Table, signature: seq<byte>)
    requires Writable(t, signature)
    ensures ParseHeader(File(t, signature)) == Some(HeaderOf(t))
  {
    HeaderFits(t, PayloadOf(t), StoredOf(t), |File(t, signature)|);
    StoredStands(HeaderBytes(HeaderOf(t)), StoredOf(t), t.region, signature);
    ParseWritten(File(t, signature), HeaderOf(t));
  }

  /** How a compiled file starts, and what it keeps free: the magic, version 3, header size 64; eight zeros. */
  predicate StartsWell(f: seq<byte>) {
    HoldsAt(f, 0, [0x4E, 0x4C, 0x54, 0x33, 3, 0, 64, 0]) && HoldsAt(f, 56, [0, 0, 0, 0, 0, 0, 0, 0])
  }

  lemma FileStart(t: Table, signature: seq<byte>)
    ensures StartsWell(File(t, signature))
  {
    Regrouped(HeaderBytes(HeaderOf(t)), StoredOf(t), t.region, signature);
    HeaderStart(HeaderOf(t), StoredOf(t) + t.region + signature, File(t, signature));
  }

  lemma Regrouped(a: seq<byte>, b: seq<byte>, c: seq<byte>, d: seq<byte>)
    ensures a + b + c + d == a + (b + c + d)
  {
  }

  lemma HeaderStart(h: Header, rest: seq<byte>, f: seq<byte>)
    requires f == HeaderBytes(h) + rest
    ensures StartsWell(f)
  {
    FourParts(Start(), Words(Fields(h)), Zeros(8), rest, f);
    assert Start() == [0x4E, 0x4C, 0x54, 0x33, 3, 0, 64, 0];
    assert Zeros(8) == [0, 0, 0, 0, 0, 0, 0, 0];
  }

  lemma FourParts(a: seq<byte>, b: seq<byte>, c: seq<byte>, d: seq<byte>, f: seq<byte>)
    requires f == a + b + c + d
    ensures HoldsAt(f, 0, a) && HoldsAt(f, |a|, b) && HoldsAt(f, |a| + |b|, c) && HoldsAt(f, |a| + |b| + |c|, d)
  {
  }

  /** What the header says of a table: its options flag by flag, and where its blocks are. */
  lemma HeaderSays(t: Table)
    ensures var h, p := HeaderOf(t), PayloadOf(t);
            && (h.flags % 2 == 1 <==> t.compress && |p| <= 16384 && |Lzss.Encode(Lzss.Parse(p))| < |p|)
            && (h.flags % 2 == 1 <==> |StoredOf(t)| < |p|) && |StoredOf(t)| <= |p|
            && (h.flags / 2 % 2 == 1 <==> t.wide) && (h.flags / 4 % 2 == 1 <==> t.languageId in {15, 26, 27, 28})
            && (h.flags / 8 % 2 == 1 <==> t.signed) && (h.flags / 16 % 2 == 1 <==> t.region != [])
            && (t.region == [] ==> h.regionOffset == h.regionSize == 0)
            && (!t.signed ==> h.signatureOffset == h.signatureSize == 0)
  {
  }

  predicate HasPlural(ts: seq<Text>) { exists i | 0 <= i < |ts| :: ts[i].Plural? }

  /**
   * Bit 5 of the header should say that a table has a plural group. It is never set, so it is right exactly for tables
   * without one.
   */
  lemma PluralNotFlagged(t: Table, f: nat)
    requires f == HeaderOf(t).flags
    ensures ((f / 32 % 2 == 1) <==> HasPlural(t.texts)) <==> !HasPlural(t.texts)
  {
    FlagsSmall(t, f);
    NoHighFlag(f, HasPlural(t.texts));
  }

  lemma FlagsSmall(t: Table, f: nat)
    requires f == HeaderOf(t).flags
    ensures f < 32
  {
  }

  lemma NoHighFlag(f: nat, plural: bool)
    requires f < 32
    ensures ((f / 32 % 2 == 1) <==> plural) <==> !plural
  {
  }

  /** Stored payload, region and signature are in the file where the header says, up to its end. */
  predicate BlocksAt(f: seq<byte>, h: Header, stored: seq<byte>, region: seq<byte>, signature: seq<byte>) {
    && HoldsAt(f, h.payloadOffset, stored) && h.payloadStored == |stored| && h.payloadOffset == 64
    && (region != [] ==> HoldsAt(f, h.regionOffset, region) && h.regionSize == |region|)
    && (signature != [] ==> HoldsAt(f, h.signatureOffset, signature) && h.signatureOffset + h.signatureSize == |f|)
  }

  lemma BlocksIn(f: seq<byte>, a: seq<byte>, h: Header, stored: seq<byte>, region: seq<byte>, signature: seq<byte>)
    requires f == a + stored + region + signature && |a| == 64 && h.payloadOffset == 64 && h.payloadStored == |stored|
    requires region != [] ==> h.regionOffset == 64 + |stored| && h.regionSize == |region|
    requires signature != [] ==>
               h.signatureOffset == 64 + |stored| + |region| && h.signatureSize == |signature|
    ensures BlocksAt(f, h, stored, region, signature)
  {
    FourParts(a, stored, region, signature, f);
  }

  /** The blocks stand in the file where the header says, behind one another. */
  lemma BlocksStand(t: Table, signature: seq<byte>)
    requires |signature| == if t.signed then 64 else 0
    ensures BlocksAt(File(t, signature), HeaderOf(t), StoredOf(t), t.region, signature)
  {
    BlockFields(t, HeaderOf(t), |StoredOf(t)|);
    BlocksIn(File(t, signature), HeaderBytes(HeaderOf(t)), HeaderOf(t), StoredOf(t), t.region, signature);
  }

  lemma BlockFields(t: Table, h: Header, n: nat)
    requires h == HeaderOf(t) && n == |StoredOf(t)|
    ensures h.payloadOffset == 64 && h.payloadStored == n
    ensures t.region != [] ==> h.regionOffset == 64 + n && h.regionSize == |t.region|
    ensures t.signed ==> h.signatureOffset == 64 + n + |t.region| && h.signatureSize == 64
  {
  }

  lemma StoredBuilt(t: Table, signature: seq<byte>)
    requires HeaderOf(t).payloadOffset + HeaderOf(t).payloadStored <= |File(t, signature)|
    ensures Stored(File(t, signature), HeaderOf(t)) == StoredOf(t)
  {
    StoredStands(HeaderBytes(HeaderOf(t)), StoredOf(t), t.region, signature);
  }

  /** Compression was not kept, or no match was lost and the scratch buffer has room. */
  ghost predicate Unpacks(t: Table, scratch: nat) {
    Kept(PayloadOf(t), t.compress) ==> Lzss.WindowSafe(PayloadOf(t)) && |PayloadOf(t)| <= scratch
  }

  /** Exactly then the stored form unpacks to the payload. */
  lemma UnpackBuilt(t: Table, scratch: nat)
    ensures Unpack(HeaderOf(t), StoredOf(t), scratch) == Some(PayloadOf(t)) <==> Unpacks(t, scratch)
  {
    Lzss.RoundTrip(PayloadOf(t), scratch);
  }

  function RegionOf(t: Table): Option<seq<byte>> { if t.region == [] then None else Some(t.region) }

  lemma RegionStands(a: seq<byte>, region: seq<byte>, signature: seq<byte>)
    ensures (a + region + signature)[|a|..|a| + |region|] == region
  {
  }

  /** The region block lies behind the stored payload, and goes behind whatever the payload became. */
  lemma RegionBuilt(t: Table, signature: seq<byte>, q: seq<byte>, room: nat)
    requires |q| <= room
    ensures AddRegion(File(t, signature), HeaderOf(t), q, room) ==
            if |q| + |t.region| <= room then Some(Decoded(HeaderOf(t), q, RegionOf(t))) else None
  {
    RegionStands(HeaderBytes(HeaderOf(t)) + StoredOf(t), t.region, signature);
  }

  lemma DecodeOf(t: Table, signature: seq<byte>, scratch: nat, room: nat)
    requires Writable(t, signature)
    ensures Decode(File(t, signature), scratch, room) ==
            Finish(File(t, signature), HeaderOf(t), Unpack(HeaderOf(t), StoredOf(t), scratch), room)
  {
    ParseBuilt(t, signature);
    StoredBuilt(t, signature);
  }

  // ---- UTF-8 tables ------------------------------------------------------------------------------

  lemma FinishSteps(data: seq<byte>, h: Header, unpacked: Option<seq<byte>>, d: Decoded, room: nat)
    requires IsV3(h) && !IsUtf16(h) && Crc.Crc32(d.payload) == h.payloadCrc32
    ensures Finish(data, h, unpacked, room) == Some(d) <==>
              unpacked == Some(d.payload) && |d.payload| <= room && AddRegion(data, h, d.payload, room) == Some(d)
  {
  }

  /** What decoding the file of a table should give. */
  function Expected(t: Table): Decoded { Decoded(HeaderOf(t), PayloadOf(t), RegionOf(t)) }

  /**
   * Decoding undoes compiling exactly when the buffers are large enough and, where compression was kept, no
   * match of the payload reaches further back than an offset can say.
   */
  lemma DecodeBuilt(t: Table, signature: seq<byte>, scratch: nat, room: nat)
    requires Writable(t, signature) && !t.wide
    ensures Decode(File(t, signature), scratch, room) == Some(Expected(t)) <==>
              |PayloadOf(t)| + |t.region| <= room && Unpacks(t, scratch)
  {
    DecodeOf(t, signature, scratch, room);
    UnpackBuilt(t, scratch);
    if |PayloadOf(t)| <= room { RegionBuilt(t, signature, PayloadOf(t), room); }
    FinishSteps(File(t, signature), HeaderOf(t), Unpack(HeaderOf(t), StoredOf(t), scratch), Expected(t), room);
  }

  /** A table of at most 4096 bytes decodes to the same payload and region, compressed or not. */
  lemma CompressionTransparent(t: Table, signature: seq<byte>, other: seq<byte>, scratch: nat, room: nat)
    requires Writable(t, signature) && Writable(t.(compress := !t.compress), other) && !t.wide
    requires |PayloadOf(t)| <= Lzss.WINDOW_SIZE && |PayloadOf(t)| <= scratch && |PayloadOf(t)| + |t.region| <= room
    ensures var a := Decode(File(t, signature), scratch, room);
            var b := Decode(File(t.(compress := !t.compress), other), scratch, room);
            a.Some? && b.Some? && a.value.payload == b.value.payload == PayloadOf(t) && a.value.region == b.value.region
  {
    var p := PayloadOf(t);
    Lzss.ShortRoundTrip(p, |p|);
    Lzss.RoundTrip(p, |p|);
    DecodeBuilt(t, signature, scratch, room);
    DecodeBuilt(t.(compress := !t.compress), other, scratch, room);
  }

  /** The entry of a table with an id. */
  function TextOf(ts: seq<Text>, id: nat): (r: Option<Text>)
    ensures r.Some? ==> exists i | 0 <= i < |ts| :: ts[i].id == id && r.value == ts[i]
    ensures r.None? ==> forall i | 0 <= i < |ts| :: ts[i].id != id
  {
    if ts == [] then None
    else if ts[|ts| - 1].id == id then Some(ts[|ts| - 1])
    else TextOf(ts[..|ts| - 1], id)
  }

  /** What the decoded table should show for an id and a count. */
  function TableShows(ts: seq<Text>, languageId: nat, id: nat, n: nat): (r: Option<seq<byte>>)
    requires SixForms(ts)
  {
    match TextOf(ts, id) case None => None case Some(t) => ShownFor(t, languageId, n)
  }

  lemma CompiledForms(ts: seq<Text>, wide: bool)
    requires Buildable(ts, wide)
    ensures SixForms(ts)
  {
    forall i | 0 <= i < |ts| && ts[i].Plural? ensures |ts[i].forms| == NltPlural.PLURAL_CATEGORIES {
      assert TextBytes(ts[i], wide).Some?;
    }
  }

  /** A lookup in `p` of an id and a count, and one of the id alone, give what the table should show. */
  ghost predicate Shows(p: seq<byte>, ts: seq<Text>, languageId: nat, id: nat, n: nat)
    requires SixForms(ts)
  {
    && NltPlural.Plural(p, VERSION_V3, |ts|, languageId, id, n) == TableShows(ts, languageId, id, n)
    && match TextOf(ts, id)
       case None => Lookup(p, VERSION_V3, |ts|, id) == None
       case Some(Text(_, text)) => Lookup(p, VERSION_V3, |ts|, id) == Some(Utf8(Cut(text)))
       case Some(Plural(_, _)) => true
  }

  lemma PayloadShows(ts: seq<Text>, languageId: nat, id: nat, n: nat)
    requires Compiled(ts, false)
    ensures SixForms(ts) && Shows(Payload(ts, false), ts, languageId, id, n)
  {
    CompiledForms(ts, false);
    var r := TextOf(ts, id);
    if r.Some? {
      var i :| 0 <= i < |ts| && ts[i].id == id && r.value == ts[i];
      PluralText(ts, i, languageId, n);
      if r.value.Text? { LookupText(ts, i); }
    } else {
      SearchAbsent(ts, Payload(ts, false), id);
    }
  }

  /**
   * End to end: compile, store (compressed or not), parse, unpack, check, look up. Every id of a string gives its
   * own text, up to a zero character in it; every id of a plural group gives for every count the form of the count's
   * category, or the one for all other counts where that is empty; any other id gives nothing.
   */
  lemma TableRoundTrip(t: Table, signature: seq<byte>, scratch: nat, room: nat, id: nat, n: nat)
    requires Writable(t, signature) && !t.wide && |PayloadOf(t)| + |t.region| <= room && Unpacks(t, scratch)
    ensures SixForms(t.texts)
    ensures var d := Decode(File(t, signature), scratch, room);
            && d.Some? && d.value.header.version == VERSION_V3 && d.value.header.entryCount == |t.texts|
            && d.value.header.languageId == t.languageId && Shows(d.value.payload, t.texts, t.languageId, id, n)
  {
    DecodeBuilt(t, signature, scratch, room);
    PayloadShows(t.texts, t.languageId, id, n);
  }

  /** For one, with literal slots: an English table shows the second form for one and the sixth for other counts. */
  lemma EnglishRoundTrip(t: Table, signature: seq<byte>, scratch: nat, room: nat, id: nat, n: nat,
                         forms: seq<seq<CodePoint>>)
    requires Writable(t, signature) && !t.wide && |PayloadOf(t)| + |t.region| <= room && Unpacks(t, scratch)
    requires t.languageId == 1 && TextOf(t.texts, id) == Some(Plural(id, forms)) && |forms| == 6
    requires Cut(forms[1]) != [] && Cut(forms[5]) != []
    ensures var d := Decode(File(t, signature), scratch, room);
            && d.Some?
            && NltPlural.Plural(d.value.payload, 3, |t.texts|, 1, id, n) ==
               Some(if n == 1 then Utf8(Cut(forms[1])) else Utf8(Cut(forms[5])))
  {
    TableRoundTrip(t, signature, scratch, room, id, n);
    NltPlural.OneOrOther(1, n);
  }

  /** A change within four consecutive bytes of the payload of such a file, stored as it is, makes it unreadable. */
  lemma BuiltCorruptionDetected(t: Table, signature: seq<byte>, b: seq<byte>, lo: nat, hi: nat, scratch: nat, room: nat)
    requires Writable(t, signature) && !t.wide && !t.compress && |PayloadOf(t)| + |t.region| <= room
    requires ChangedWithin(File(t, signature), b, lo, hi) && hi <= lo + 4
    requires HEADER_V3_SIZE <= lo && hi <= HEADER_V3_SIZE + |PayloadOf(t)|
    ensures Decode(File(t, signature), scratch, room).Some? && Decode(b, scratch, room) == None
  {
    DecodeBuilt(t, signature, scratch, room);
    ParseBuilt(t, signature);
    StoredStands(HeaderBytes(HeaderOf(t)), StoredOf(t), t.region, signature);
    StartAt8(File(t, signature), HeaderOf(t));
    CorruptionDetected(File(t, signature), b, HeaderOf(t), lo, hi, scratch, room);
  }

  // ---- UTF-16 tables -------------------------------------------------------------------------------

  lemma UnitBehind(a: seq<byte>, b: seq<byte>, ab: seq<byte>)
    requires ab == a + b
    ensures ab + [0, 0] == a + (b + [0, 0])
  {
  }

  lemma {:induction false} CutPrefix16(text: seq<CodePoint>)
    ensures Encode16(Cut(text)) + [0, 0] <= Encode16(text) + [0, 0]
  {
    if text == [] {
    } else {
      var b, rest := Form16(text[0]), text[1..];
      UnitBehind(b, Encode16(rest), Encode16(text));
      if text[0] == 0 {
        assert b == [0, 0] && Encode16(Cut(text)) + [0, 0] == b;
      } else {
        CutPrefix16(rest);
        assert Cut(text)[1..] == Cut(rest);
        UnitBehind(b, Encode16(Cut(rest)), Encode16(Cut(text)));
        PrefixBehind(b, Encode16(Cut(rest)) + [0, 0], Encode16(rest) + [0, 0]);
      }
    }
  }

  /** A UTF-16 string of the table is transcoded up to a zero character in it. */
  lemma WideForm(payload: seq<byte>, i: nat, text: seq<CodePoint>)
    requires HoldsAt(payload, i, Encode16(text) + [0, 0])
    ensures Form(payload, i) == Some(Utf8(Cut(text)))
  {
    CutPrefix16(text);
    var small, all := Encode16(Cut(text)) + [0, 0], Encode16(text) + [0, 0];
    assert all == small + all[|small|..];
    HoldsConcat(payload, i, small, all[|small|..]);
    ScalarsIff(payload, i, Cut(text));
  }

  function Narrow(forms: seq<seq<CodePoint>>): (fs: seq<seq<byte>>)
    ensures |fs| == |forms|
  {
    seq(|forms|, c requires 0 <= c < |forms| => Utf8(Cut(forms[c])))
  }

  /** What is left of an entry on load: UTF-8 without terminators, or nothing where the new offsets do not fit. */
  function NarrowText(t: Text): (r: Option<seq<byte>>) {
    match t
    case Text(_, text) => Some(Utf8(Cut(text)))
    case Plural(_, forms) => if |forms| > 8 then None else Assemble(Somes(Narrow(forms)))
  }

  function NarrowTexts(ts: seq<Text>): (gl: seq<Option<seq<byte>>>)
    ensures |gl| == |ts|
  {
    seq(|ts|, i requires 0 <= i < |ts| => NarrowText(ts[i]))
  }

  lemma WideFormAt(p: seq<byte>, off: nat, forms: seq<seq<CodePoint>>, c: nat)
    requires GroupOf(forms, true).Some? && HoldsAt(p, off, GroupOf(forms, true).value) && c < |forms|
    ensures off + 1 + c < |p| && p[off] == |forms| == NltPlural.PLURAL_CATEGORIES
    ensures Form(p, off + p[off + 1 + c]) == Some(Narrow(forms)[c])
  {
    FormStands(p, off, forms, true, c);
    WideForm(p, off + p[off + 1 + c], forms[c]);
  }

  lemma GroupFrom(p: seq<byte>, off: nat, fs: seq<seq<byte>>)
    requires off < |p| && p[off] == |fs| && 0 < |fs| <= 8
    requires forall c | 0 <= c < |fs| :: off + 1 + c < |p| && Form(p, off + p[off + 1 + c]) == Some(fs[c])
    ensures PluralGroup(p, off) == Assemble(Somes(fs))
  {
    assert FormList(p, off, |fs|) == Somes(fs);
  }

  /** The forms of a UTF-16 group are transcoded one by one. */
  lemma WidePluralGroup(p: seq<byte>, off: nat, forms: seq<seq<CodePoint>>)
    requires GroupOf(forms, true).Some? && HoldsAt(p, off, GroupOf(forms, true).value)
    ensures PluralGroup(p, off) == Assemble(Somes(Narrow(forms)))
  {
    var fs := Narrow(forms);
    forall c | 0 <= c < |forms|
      ensures off + 1 + c < |p| && p[off] == |forms| && Form(p, off + p[off + 1 + c]) == Some(fs[c])
    {
      WideFormAt(p, off, forms, c);
    }
    WideFormAt(p, off, forms, 0);
    GroupFrom(p, off, fs);
  }

  lemma WideGroup(ts: seq<Text>, p: seq<byte>, i: nat)
    requires Compiled(ts, true) && p == Payload(ts, true) && i < |ts|
    ensures GroupAt(p, i) == NarrowTexts(ts)[i]
  {
    var off := EntryOf(ts, true, p, i);
    match ts[i]
    case Text(_, text) => WideForm(p, off, text);
    case Plural(_, forms) => WidePluralGroup(p, off, forms);
  }

  /** The room a UTF-16 table takes once it is rewritten. */
  function NarrowSize(ts: seq<Text>): nat
    requires AllSome(NarrowTexts(ts))
  {
    ENTRY_V3_SIZE * |ts| + |Concat(Values(NarrowTexts(ts)))|
  }

  /**
   * The rewriting of a UTF-16 payload succeeds exactly when the offsets of every plural group still fit their bytes
   * and its UTF-8 texts, without terminators, fit the buffer.
   */
  lemma WideRewrites(ts: seq<Text>, p: seq<byte>, cap: nat)
    requires Compiled(ts, true) && p == Payload(ts, true)
    ensures var r := Rewrite(p, VERSION_V3, |ts|, cap);
            && (r.Some? <==> AllSome(NarrowTexts(ts)) && NarrowSize(ts) <= cap)
            && (r.Some? ==> |r.value| == NarrowSize(ts))
  {
    var gl := GroupList(p, |ts|);
    forall i | 0 <= i < |ts| ensures gl[i] == NarrowTexts(ts)[i] { WideGroup(ts, p, i); }
    assert gl == NarrowTexts(ts);
  }

  lemma FinishWide(data: seq<byte>, h: Header, p: seq<byte>, q: seq<byte>, room: nat)
    requires IsV3(h) && IsUtf16(h) && Crc.Crc32(p) == h.payloadCrc32
    requires Rewrite(p, VERSION_V3, h.entryCount, room) == Some(q)
    ensures Finish(data, h, Some(p), room) == AddRegion(data, h, q, room)
  {
  }

  /** A table compiled as UTF-16 decodes under that condition, and then nothing is found or shown for any id. */
  lemma WideTableUnreadable(t: Table, signature: seq<byte>, scratch: nat, room: nat, id: nat, n: nat)
    requires Writable(t, signature) && t.wide && Unpacks(t, scratch) && room < WORD
    requires AllSome(NarrowTexts(t.texts)) && NarrowSize(t.texts) + |t.region| <= room
    ensures Decode(File(t, signature), scratch, room).Some?
    ensures var d := Decode(File(t, signature), scratch, room).value;
            && Lookup(d.payload, d.header.version, d.header.entryCount, id) == None
            && NltPlural.Plural(d.payload, d.header.version, d.header.entryCount, d.header.languageId, id, n) == None
  {
    DecodeOf(t, signature, scratch, room);
    UnpackBuilt(t, scratch);
    WideRewrites(t.texts, PayloadOf(t), room);
    var q := Rewrite(PayloadOf(t), VERSION_V3, |t.texts|, room).value;
    FinishWide(File(t, signature), HeaderOf(t), PayloadOf(t), q, room);
    RegionBuilt(t, signature, q, room);
    RewrittenUnreadable(PayloadOf(t), |t.texts|, room, id);
    NltPlural.RewrittenShowsNothing(PayloadOf(t), |t.texts|, room, t.languageId, id, n);
  }

  lemma FinishRefused(data: seq<byte>, h: Header, p: seq<byte>, room: nat)
    requires IsV3(h) && IsUtf16(h) && Rewrite(p, VERSION_V3, h.entryCount, room) == None
    ensures Finish(data, h, Some(p), room) == None
  {
  }

  /** Without it, the table compiles and is refused by every reader. */
  lemma WideTableRefused(t: Table, signature: seq<byte>, scratch: nat, room: nat)
    requires Writable(t, signature) && t.wide && Unpacks(t, scratch) && !AllSome(NarrowTexts(t.texts))
    ensures Decode(File(t, signature), scratch, room) == None
  {
    DecodeOf(t, signature, scratch, room);
    UnpackBuilt(t, scratch);
    WideRewrites(t.texts, PayloadOf(t), room);
    FinishRefused(File(t, signature), HeaderOf(t), PayloadOf(t), room);
  }

  lemma {:induction false} ThreeBytesEach(text: seq<CodePoint>)
    requires forall i | 0 <= i < |text| :: 0x800 <= text[i] < 0xD800
    ensures |Encode16(text)| == 2 * |text| && |Utf8(Cut(text))| == 3 * |text|
  {
    if text == [] {
    } else {
      ThreeBytesEach(text[1..]);
      assert Cut(text)[1..] == Cut(text[1..]);
    }
  }

  /** Such a group: 90 characters take 182 bytes of UTF-16, but 270 bytes of UTF-8. */
  lemma WideGroupTooLong(first: seq<CodePoint>, forms: seq<seq<CodePoint>>)
    requires |first| == 90 && forall i | 0 <= i < 90 :: first[i] == 0x4E00
    requires forms == [first, [], [], [], [], [0x4E00]]
    ensures GroupOf(forms, true).Some? && NarrowText(Plural(0, forms)) == None
  {
    ThreeBytesEach(first);
    var fs, gs := Terms(forms, true), Narrow(forms);
    assert |fs[0]| == 182 && |gs[0]| == 270;
    assert forall c | 1 <= c < 5 :: |fs[c]| == 2;
    StartsAfter(fs, 7);
    assert gs[..1] == [gs[0]];
    assert Concat(gs[..1]) == gs[0];
    TooFar(gs, 1, 7);
  }

  lemma StartsAfter(fs: seq<seq<byte>>, start: nat)
    requires |fs| == 6 && start == 7 && |fs[0]| == 182 && forall c | 1 <= c < 5 :: |fs[c]| == 2
    ensures OneByteEach(Starts(fs, start))
  {
    forall c | 0 <= c < 6 ensures Starts(fs, start)[c] < 256 {
      StartAt(fs, c, start);
      ShortForms(fs, c);
    }
  }

  lemma {:induction false} ShortForms(fs: seq<seq<byte>>, c: nat)
    requires |fs| == 6 && c < 6 && |fs[0]| == 182 && forall k | 1 <= k < 5 :: |fs[k]| == 2
    ensures |Concat(fs[..c])| <= 180 + 2 * c + (if c == 0 then 0 else 2)
    decreases c
  {
    if c == 0 {
    } else {
      ShortForms(fs, c - 1);
      assert fs[..c][..c - 1] == fs[..c - 1];
    }
  }
}
