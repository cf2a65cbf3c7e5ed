/**
 * Rewriting a UTF-16 payload to UTF-8 on load: every entry's strings are transcoded, one entry after the
 * other, behind a new index whose offsets point at them.
 */
module Utf16Rewrite {
  import opened Bytes
  import opened NltIndex
  import opened Utf16

  predicate IsPlural(e: Entry) { e.flags % 2 == 1 }

  /** The lowest flag. */
  lemma PluralFlag(id: nat, off: nat, rest: nat)
    ensures IsPlural(Entry(id, off, 2 * rest + 1)) && !IsPlural(Entry(id, off, 2 * rest))
  {
  }

  function Concat(fs: seq<seq<byte>>): (bs: seq<byte>) {
    if fs == [] then [] else Concat(fs[..|fs| - 1]) + fs[|fs| - 1]
  }

  /** Where each form starts, when the first starts at `start`. */
  function Starts(fs: seq<seq<byte>>, start: nat): (rs: seq<nat>)
    ensures |rs| == |fs|
  {
    if fs == [] then [] else Starts(fs[..|fs| - 1], start) + [start + |Concat(fs[..|fs| - 1])|]
  }

  /** The string at `i` in UTF-8. */
  function Form(payload: seq<byte>, i: nat): Option<seq<byte>> {
    match Scalars(payload, i) case None => None case Some(cps) => Some(Utf8(cps))
  }

  /** The forms of the plural group at `base`, each where it can be read. */
  function FormList(payload: seq<byte>, base: nat, count: nat): (fl: seq<Option<seq<byte>>>)
    ensures |fl| == count
  {
    seq(count, c requires 0 <= c =>
      if base + 1 + c < |payload| then Form(payload, base + payload[base + 1 + c]) else None)
  }

  predicate AllSome(fl: seq<Option<seq<byte>>>) { forall i | 0 <= i < |fl| :: fl[i].Some? }

  function Values(fl: seq<Option<seq<byte>>>): (fs: seq<seq<byte>>)
    requires AllSome(fl)
    ensures |fs| == |fl|
  {
    seq(|fl|, i requires 0 <= i < |fl| => fl[i].value)
  }

  predicate OneByteEach(rs: seq<nat>) { forall i | 0 <= i < |rs| :: rs[i] < 256 }

  function AsBytes(rs: seq<nat>): (bs: seq<byte>)
    requires OneByteEach(rs)
    ensures |bs| == |rs|
  {
    seq(|rs|, i requires 0 <= i < |rs| => rs[i])
  }

  /** A rewritten plural group: the count, the start of each form in one byte, the forms. */
  function Assemble(fl: seq<Option<seq<byte>>>): (r: Option<seq<byte>>)
    requires |fl| <= 8
  {
    if !AllSome(fl) then None
    else
      var rs := Starts(Values(fl), 1 + |fl|);
      if OneByteEach(rs) then Some([|fl|] + AsBytes(rs) + Concat(Values(fl))) else None
  }

  function PluralGroup(payload: seq<byte>, base: nat): (r: Option<seq<byte>>) {
    if base >= |payload| then None
    else
      var count: nat := payload[base];
      if count == 0 || count > 8 then None else Assemble(FormList(payload, base, count))
  }

  function Group(payload: seq<byte>, e: Entry): (r: Option<seq<byte>>) {
    if IsPlural(e) then PluralGroup(payload, e.off) else Form(payload, e.off)
  }

  function GroupAt(payload: seq<byte>, i: nat): (r: Option<seq<byte>>) {
    match ReadIndex(payload, VERSION_V3, i) case None => None case Some(e) => Group(payload, e)
  }

  /** The rewritten bytes of each of the `n` entries, where it can be rewritten. */
  function GroupList(payload: seq<byte>, n: nat): (gl: seq<Option<seq<byte>>>)
    ensures |gl| == n
  {
    seq(n, i requires 0 <= i => GroupAt(payload, i))
  }

  /** The entries of the old index. */
  function OldEntries(payload: seq<byte>, n: nat): (es: seq<Entry>)
    ensures |es| == n
  {
    seq(n, i requires 0 <= i =>
      match ReadIndex(payload, VERSION_V3, i) case None => Entry(0, 0, 0) case Some(e) => e)
  }

  /** The new entries: same ids and flags, the offsets of their bytes behind an index of `total` entries. */
  function MovedAll(olds: seq<Entry>, total: nat, gs: seq<seq<byte>>): (es: seq<Entry>)
    requires |gs| <= |olds|
    ensures |es| == |gs|
  {
    if gs == [] then []
    else
      var n := |gs| - 1;
      MovedAll(olds, total, gs[..n]) + [olds[n].(off := ENTRY_V3_SIZE * total + |Concat(gs[..n])|)]
  }

  lemma {:induction false} MovedAt(olds: seq<Entry>, total: nat, gs: seq<seq<byte>>, i: nat)
    requires i < |gs| <= |olds|
    ensures MovedAll(olds, total, gs)[i] == olds[i].(off := ENTRY_V3_SIZE * total + |Concat(gs[..i])|)
    decreases |gs|
  {
    var n := |gs| - 1;
    if i >= n {
    } else {
      MovedAt(olds, total, gs[..n], i);
      assert gs[..n][..i] == gs[..i];
    }
  }

  /** The rewritten payload, when every entry can be transcoded and the result fits. */
  function Rewrite(payload: seq<byte>, version: nat, n: nat, cap: nat): (r: Option<seq<byte>>) {
    if version != VERSION_V3 || !AllSome(GroupList(payload, n)) then None
    else
      var gs := Values(GroupList(payload, n));
      var bs := IndexBytes(MovedAll(OldEntries(payload, n), n, gs)) + Concat(gs);
      if |bs| <= cap then Some(bs) else None
  }

  // ---- What the layout means ------------------------------------------------------------------

  lemma {:induction false} ConcatSplit(gs: seq<seq<byte>>, i: nat)
    requires i < |gs|
    ensures |Concat(gs[..i])| + |gs[i]| <= |Concat(gs)|
    ensures HoldsAt(Concat(gs), |Concat(gs[..i])|, gs[i])
    ensures Concat(gs[..i]) + gs[i] <= Concat(gs)
    decreases |gs|
  {
    var n := |gs| - 1;
    if i < n {
      ConcatSplit(gs[..n], i);
      assert gs[..n][..i] == gs[..i];
      HoldsPrefix(Concat(gs), Concat(gs[..n]), |Concat(gs[..i])|, gs[i]);
    } else {
      assert gs[..i] == gs[..n];
    }
  }

  /**
   * The rewriting keeps ids, flags and order, and gives every entry its own bytes: read back, entry `i` has
   * its old id and flags, and its offset is where its transcoded bytes are, right behind those of entry `i - 1`.
   */
  lemma RewriteLayout(payload: seq<byte>, n: nat, cap: nat, i: nat)
    requires i < n && Rewrite(payload, VERSION_V3, n, cap).Some? && cap < WORD
    ensures var out := Rewrite(payload, VERSION_V3, n, cap).value;
            var was, is_ := ReadIndex(payload, VERSION_V3, i), ReadIndex(out, VERSION_V3, i);
            && was.Some? && is_.Some? && is_.value.id == was.value.id && is_.value.flags == was.value.flags
            && Group(payload, was.value).Some? && HoldsAt(out, is_.value.off, Group(payload, was.value).value)
            && is_.value.off == ENTRY_V3_SIZE * n + |Concat(Values(GroupList(payload, n))[..i])|
  {
    var out := Rewrite(payload, VERSION_V3, n, cap).value;
    var gl := GroupList(payload, n);
    var gs := Values(gl);
    var olds := OldEntries(payload, n);
    var es := MovedAll(olds, n, gs);
    assert gl[i].Some? && gl[i] == GroupAt(payload, i);
    ConcatSplit(gs, i);
    MovedAt(olds, n, gs, i);
    ReadIndexBytes(out, es, i);
    HoldsBehind(IndexBytes(es), Concat(gs), |Concat(gs[..i])|, gs[i]);
  }

  /** Consecutive entries have consecutive, so disjoint, ranges, and the last one ends the payload. */
  lemma RewriteConsecutive(payload: seq<byte>, n: nat, cap: nat, i: nat)
    requires i < n && Rewrite(payload, VERSION_V3, n, cap).Some?
    ensures var gs := Values(GroupList(payload, n));
            var end := ENTRY_V3_SIZE * n + |Concat(gs[..i])| + |gs[i]|;
            && (i + 1 < n ==> end == ENTRY_V3_SIZE * n + |Concat(gs[..i + 1])|)
            && (i + 1 == n ==> end == |Rewrite(payload, VERSION_V3, n, cap).value|)
  {
    var gs := Values(GroupList(payload, n));
    assert gs[..i + 1][..i] == gs[..i];
    assert i + 1 == n ==> gs[..i + 1] == gs;
  }

  lemma {:induction false} StartAt(fs: seq<seq<byte>>, c: nat, start: nat)
    requires c < |fs|
    ensures Starts(fs, start)[c] == start + |Concat(fs[..c])|
    decreases |fs|
  {
    var n := |fs| - 1;
    if c >= n {
    } else {
      StartAt(fs[..n], c, start);
      assert fs[..n][..c] == fs[..c];
    }
  }

  lemma HoldsIn(src: seq<byte>, off: nat, whole: seq<byte>, i: nat, part: seq<byte>)
    requires HoldsAt(src, off, whole) && HoldsAt(whole, i, part)
    ensures HoldsAt(src, off + i, part)
  {
    var e := i + |part|;
    assert whole == whole[..i] + (whole[i..e] + whole[e..]);
    HoldsConcat(src, off, whole[..i], whole[i..e] + whole[e..]);
    HoldsConcat(src, off + i, whole[i..e], whole[e..]);
  }

  /** The group's head: how many forms there are, and where form `c` starts. */
  lemma GroupHead(fl: seq<Option<seq<byte>>>, c: nat)
    requires |fl| <= 8 && Assemble(fl).Some? && c < |fl|
    ensures var g := Assemble(fl).value;
            |g| > 1 + c && g[0] == |fl| && g[1 + c] == 1 + |fl| + |Concat(Values(fl)[..c])|
  {
    StartAt(Values(fl), c, 1 + |fl|);
  }

  /** Form `c` is where its offset says, and form `c + 1`, or the end of the group, is right behind it. */
  lemma FormInGroup(fl: seq<Option<seq<byte>>>, c: nat)
    requires |fl| <= 8 && Assemble(fl).Some? && c < |fl|
    ensures var g, f := Assemble(fl).value, Values(fl)[c];
            && |g| > 1 + c && g[0] == |fl| && HoldsAt(g, g[1 + c], f)
            && g[1 + c] + |f| == if c + 1 < |fl| then g[2 + c] else |g|
  {
    var fs := Values(fl);
    var head := [|fl|] + AsBytes(Starts(fs, 1 + |fl|));
    GroupHead(fl, c);
    ConcatSplit(fs, c);
    HoldsBehind(head, Concat(fs), |Concat(fs[..c])|, fs[c]);
    assert fs[..c + 1][..c] == fs[..c];
    if c + 1 < |fl| {
      GroupHead(fl, c + 1);
    } else {
      assert fs[..c + 1] == fs;
    }
  }

  lemma ByteAt(src: seq<byte>, off: nat, bs: seq<byte>, i: nat)
    requires HoldsAt(src, off, bs) && i < |bs|
    ensures src[off + i] == bs[i]
  {
    assert src[off..off + |bs|][i] == src[off + i];
  }

  /** Form `c` of a group wherever it stands: the count, and the form where its offset says. */
  lemma GroupForm(src: seq<byte>, off: nat, fl: seq<Option<seq<byte>>>, c: nat, g: seq<byte>, f: seq<byte>)
    requires |fl| <= 8 && Assemble(fl) == Some(g) && HoldsAt(src, off, g) && c < |fl| && fl[c] == Some(f)
    ensures off + 1 + c < |src| && src[off] == |fl| && src[off + 1 + c] == g[1 + c]
    ensures HoldsAt(src, off + src[off + 1 + c], f)
  {
    FormInGroup(fl, c);
    ByteAt(src, off, g, 0);
    ByteAt(src, off, g, 1 + c);
    HoldsIn(src, off, g, g[1 + c], f);
  }

  function FormCount(payload: seq<byte>, base: nat): nat { if base < |payload| then payload[base] else 0 }

  /**
   * Form `c` of the plural group at `base`, transcoded, is behind the group at `off` of `out`, at the offset its own
   * byte gives, and ends where form `c + 1`, or the group, does.
   */
  predicate FormMoved(payload: seq<byte>, base: nat, out: seq<byte>, off: nat, c: nat) {
    && base + 1 + c < |payload| && off + 1 + c < |out| && out[off] == payload[base]
    && var f := Form(payload, base + payload[base + 1 + c]);
    && f.Some? && HoldsAt(out, off + out[off + 1 + c], f.value)
    && (c + 1 < payload[base] ==> off + 2 + c < |out| && out[off + 1 + c] + |f.value| == out[off + 2 + c])
    && (c + 1 == payload[base] ==>
          PluralGroup(payload, base).Some? && out[off + 1 + c] + |f.value| == |PluralGroup(payload, base).value|)
  }

  lemma GroupMoved(payload: seq<byte>, base: nat, out: seq<byte>, off: nat, c: nat)
    requires c < FormCount(payload, base)
    requires PluralGroup(payload, base).Some? && HoldsAt(out, off, PluralGroup(payload, base).value)
    ensures FormMoved(payload, base, out, off, c)
  {
    var fl := FormList(payload, base, payload[base]);
    var g := Assemble(fl).value;
    assert fl[c].Some?;
    FormInGroup(fl, c);
    GroupForm(out, off, fl, c, g, fl[c].value);
    if c + 1 < payload[base] {
      GroupHead(fl, c + 1);
      ByteAt(out, off, g, 2 + c);
    }
  }

  /** So every form of every plural entry is found again in the rewritten payload. */
  lemma RewritePlural(payload: seq<byte>, n: nat, cap: nat, i: nat, was: Entry, c: nat)
    requires i < n && Rewrite(payload, VERSION_V3, n, cap).Some? && cap < WORD
    requires ReadIndex(payload, VERSION_V3, i) == Some(was) && IsPlural(was) && c < FormCount(payload, was.off)
    ensures var out := Rewrite(payload, VERSION_V3, n, cap).value;
            && ReadIndex(out, VERSION_V3, i).Some?
            && FormMoved(payload, was.off, out, ReadIndex(out, VERSION_V3, i).value.off, c)
  {
    RewriteLayout(payload, n, cap, i);
    var out := Rewrite(payload, VERSION_V3, n, cap).value;
    GroupMoved(payload, was.off, out, ReadIndex(out, VERSION_V3, i).value.off, c);
  }

  // ---- The loops ----------------------------------------------------------------------------------

  lemma StartsSnoc(fs: seq<seq<byte>>, f: seq<byte>, start: nat)
    ensures Starts(fs + [f], start) == Starts(fs, start) + [start + |Concat(fs)|]
    ensures Concat(fs + [f]) == Concat(fs) + f
  {
    assert (fs + [f])[..|fs|] == fs;
  }

  /** The bytes `rs` stand behind a count byte at `at`, and `cs` behind room for `count` of them. */
  ghost predicate Placed(out: seq<byte>, at: nat, count: nat, rs: seq<byte>, cs: seq<byte>, cursor: nat) {
    && |rs| <= count && cursor == at + 1 + count + |cs| <= |out|
    && HoldsAt(out, at + 1, rs) && HoldsAt(out, at + 1 + count, cs)
  }

  /** The state of the plural loop after `fs`: offsets stored, forms written, the count byte still to come. */
  ghost predicate GroupSoFar(out: seq<byte>, at: nat, count: nat, fs: seq<seq<byte>>, cursor: nat) {
    && |fs| <= count && OneByteEach(Starts(fs, 1 + count))
    && Placed(out, at, count, AsBytes(Starts(fs, 1 + count)), Concat(fs), cursor)
  }

  lemma HoldsWritten(out: seq<byte>, mid: seq<byte>, pos: nat, f: seq<byte>, i: nat, bs: seq<byte>)
    requires Written(out, mid, pos, f) && HoldsAt(out, i, bs) && i + |bs| <= pos
    ensures HoldsAt(mid, i, bs) && HoldsAt(mid, pos, f)
  {
    assert mid[i..i + |bs|] == out[i..i + |bs|];
  }

  lemma HoldsStored(s: seq<byte>, b: nat, x: byte, i: nat, bs: seq<byte>)
    requires b < |s| && HoldsAt(s, i, bs) && (i + |bs| <= b || b < i)
    ensures HoldsAt(s[b := x], i, bs) && HoldsAt(s[b := x], b, [x])
  {
    assert s[b := x][i..i + |bs|] == s[i..i + |bs|];
  }

  lemma PlacedGrows(out: seq<byte>, mid: seq<byte>, at: nat, count: nat, rs: seq<byte>, cs: seq<byte>,
                    cursor: nat, f: seq<byte>, b: nat, x: byte)
    requires Placed(out, at, count, rs, cs, cursor) && b == at + 1 + |rs| && |rs| < count
    requires Written(out, mid, cursor, f)
    ensures Placed(mid[b := x], at, count, rs + [x], cs + f, cursor + |f|)
  {
    HoldsWritten(out, mid, cursor, f, at + 1, rs);
    HoldsWritten(out, mid, cursor, f, at + 1 + count, cs);
    HoldsConcat(mid, at + 1 + count, cs, f);
    HoldsStored(mid, b, x, at + 1, rs);
    HoldsStored(mid, b, x, at + 1 + count, cs + f);
    HoldsConcat(mid[b := x], at + 1, rs, [x]);
  }

  lemma GroupGrows(out: seq<byte>, mid: seq<byte>, at: nat, count: nat, fs: seq<seq<byte>>, cursor: nat, f: seq<byte>,
                   b: nat, x: byte)
    requires GroupSoFar(out, at, count, fs, cursor) && |fs| < count && Written(out, mid, cursor, f)
    requires b == at + 1 + |fs| && x == cursor - at
    ensures b < |mid| && GroupSoFar(mid[b := x], at, count, fs + [f], cursor + |f|)
  {
    var rs := Starts(fs, 1 + count);
    StartsSnoc(fs, f, 1 + count);
    AsBytesSnoc(rs, x);
    PlacedGrows(out, mid, at, count, AsBytes(rs), Concat(fs), cursor, f, b, x);
  }

  lemma AsBytesSnoc(rs: seq<nat>, x: byte)
    requires OneByteEach(rs)
    ensures OneByteEach(rs + [x]) && AsBytes(rs + [x]) == AsBytes(rs) + [x]
  {
  }

  lemma PlacedDone(out: seq<byte>, at: nat, count: nat, rs: seq<byte>, cs: seq<byte>, cursor: nat, b: byte)
    requires Placed(out, at, count, rs, cs, cursor) && |rs| == count
    ensures out[at := b][at..cursor] == [b] + rs + cs
  {
    ThreeParts(out, at, at + 1 + count, cursor, b);
  }

  lemma ThreeParts(out: seq<byte>, at: nat, m: nat, e: nat, b: byte)
    requires at < m <= e <= |out|
    ensures out[at := b][at..e] == [b] + out[at + 1..m] + out[m..e]
  {
  }

  /** What the next form of a plural group needs: to be readable, to fit, and to start within one byte. */
  predicate CanPut(f: Option<seq<byte>>, at: nat, cursor: nat, cap: nat) {
    f.Some? && cursor + |f.value| <= cap && at <= cursor && cursor - at < 256
  }

  /** A group that can be written can be written form by form. */
  lemma GroupNeeds(fl: seq<Option<seq<byte>>>, c: nat, at: nat, cap: nat)
    requires |fl| <= 8 && Assemble(fl).Some? && at + |Assemble(fl).value| <= cap && c < |fl|
    ensures CanPut(fl[c], at, at + 1 + |fl| + |Concat(Values(fl)[..c])|, cap)
  {
    ConcatSplit(Values(fl), c);
    StartAt(Values(fl), c, 1 + |fl|);
  }

  lemma ValuesSnoc(fl: seq<Option<seq<byte>>>, c: nat)
    requires c < |fl| && AllSome(fl[..c]) && fl[c].Some?
    ensures AllSome(fl[..c + 1]) && Values(fl[..c + 1]) == Values(fl[..c]) + [fl[c].value]
  {
  }

  /** A round of the plural loop: transcode the form and store its start. */
  method PutForm(payload: seq<byte>, base: nat, c: nat, out: array<byte>, at: nat, count: nat, cursor: nat,
                 ghost fs: seq<seq<byte>>, ghost f: Option<seq<byte>>)
      returns (ok: bool, cursor': nat)
    requires |fs| == c < count && GroupSoFar(out[..], at, count, fs, cursor)
    requires f == if base + 1 + c < |payload| then Form(payload, base + payload[base + 1 + c]) else None
    modifies out
    ensures ok <==> CanPut(f, at, cursor, out.Length)
    ensures ok ==> GroupSoFar(out[..], at, count, fs + [f.value], cursor')
    ensures out[..at] == old(out[..at])
  {
    ok, cursor' := false, cursor;
    if base + 1 + c >= |payload| { return; }
    var start := base + payload[base + 1 + c];
    ghost var before := out[..];
    var n := TranscodeOne(payload, start, out, cursor);
    assert out[..at] == out[..cursor][..at] == before[..cursor][..at];
    if n.None? { return; }
    ghost var mid := out[..];
    var newRel := cursor - at;
    if newRel > 255 { return; }
    GroupGrows(before, mid, at, count, fs, cursor, f.value, at + 1 + c, newRel);
    StoreByte(out, at + 1 + c, newRel);
    assert out[..at] == out[..][..at] == mid[..at];
    return true, cursor + n.value;
  }

  method StoreByte(out: array<byte>, i: nat, b: byte)
    requires i < out.Length
    modifies out
    ensures out[..] == old(out[..])[i := b]
  {
    out[i] := b;
  }

  /** The body of the plural branch, for the forms `fl` the group refers to. */
  method PutGroup(payload: seq<byte>, base: nat, count: nat, out: array<byte>, at: nat,
                  ghost fl: seq<Option<seq<byte>>>) returns (r: Option<nat>)
    requires at <= out.Length && 0 < count <= 8 && |fl| == count
    requires forall c | 0 <= c < count ::
               fl[c] == if base + 1 + c < |payload| then Form(payload, base + payload[base + 1 + c]) else None
    modifies out
    ensures r.Some? <==> Assemble(fl).Some? && at + |Assemble(fl).value| <= out.Length
    ensures r.Some? ==> r.value == at + |Assemble(fl).value| && out[at..r.value] == Assemble(fl).value
    ensures out[..at] == old(out[..at])
  {
    var cursor: nat := at + 1 + count;
    if out.Length < cursor { return None; }
    ghost var fs: seq<seq<byte>> := [];
    for c := 0 to count
      invariant AllSome(fl[..c]) && fs == Values(fl[..c]) && GroupSoFar(out[..], at, count, fs, cursor)
      invariant out[..at] == old(out[..at])
    {
      RoundNeeds(fl, c, fs, at, out.Length);
      var ok;
      ok, cursor := PutForm(payload, base, c, out, at, count, cursor, fs, fl[c]);
      if !ok { return None; }
      ValuesSnoc(fl, c);
      fs := fs + [fl[c].value];
    }
    assert fl[..count] == fl;
    StoreCount(out, at, count, cursor, fs);
    return Some(cursor);
  }

  lemma RoundNeeds(fl: seq<Option<seq<byte>>>, c: nat, fs: seq<seq<byte>>, at: nat, cap: nat)
    requires c < |fl| <= 8 && AllSome(fl[..c]) && fs == Values(fl[..c])
    ensures Assemble(fl).Some? && at + |Assemble(fl).value| <= cap ==>
              CanPut(fl[c], at, at + 1 + |fl| + |Concat(fs)|, cap)
  {
    if Assemble(fl).Some? && at + |Assemble(fl).value| <= cap {
      GroupNeeds(fl, c, at, cap);
      assert Values(fl)[..c] == fs;
    }
  }

  method StoreCount(out: array<byte>, at: nat, count: nat, cursor: nat, ghost fs: seq<seq<byte>>)
    requires GroupSoFar(out[..], at, count, fs, cursor) && |fs| == count < 256
    modifies out
    ensures out[at..cursor] == [count] + AsBytes(Starts(fs, 1 + count)) + Concat(fs)
    ensures out[..at] == old(out[..at])
  {
    ghost var before := out[..];
    var b: byte := count;
    out[at] := b;
    PlacedDone(before, at, count, AsBytes(Starts(fs, 1 + count)), Concat(fs), cursor, b);
    assert out[..] == before[at := b];
  }

  method PutPlural(payload: seq<byte>, base: nat, out: array<byte>, at: nat) returns (r: Option<nat>)
    requires at <= out.Length
    modifies out
    ensures r.Some? <==> PluralGroup(payload, base).Some? && at + |PluralGroup(payload, base).value| <= out.Length
    ensures r.Some? ==> r.value == at + |PluralGroup(payload, base).value|
    ensures r.Some? ==> out[at..r.value] == PluralGroup(payload, base).value
    ensures out[..at] == old(out[..at])
  {
    if base >= |payload| { return None; }
    var count: nat := payload[base];
    if count == 0 || count > 8 { return None; }
    r := PutGroup(payload, base, count, out, at, FormList(payload, base, count));
  }

  /** The index so far, and behind room for `total` entries the bytes `cs` of those done. */
  ghost predicate RewrittenSoFar(out: seq<byte>, total: nat, es: seq<Entry>, cs: seq<byte>, cursor: nat) {
    && |es| <= total && cursor == ENTRY_V3_SIZE * total + |cs| <= |out|
    && HoldsAt(out, 0, IndexBytes(es)) && HoldsAt(out, ENTRY_V3_SIZE * total, cs)
  }

  lemma RewrittenGrows(out: seq<byte>, mid: seq<byte>, out': seq<byte>, total: nat, es: seq<Entry>, cs: seq<byte>,
                       cursor: nat, e: Entry, g: seq<byte>)
    requires RewrittenSoFar(out, total, es, cs, cursor) && |es| < total
    requires cursor + |g| <= |mid| == |out| && mid[..cursor] == out[..cursor] && HoldsAt(mid, cursor, g)
    requires Written(mid, out', ENTRY_V3_SIZE * |es|, EntryBytes(e))
    ensures RewrittenSoFar(out', total, es + [e], cs + g, cursor + |g|)
  {
    var a, b := ENTRY_V3_SIZE * |es|, ENTRY_V3_SIZE * total;
    HoldsBelow(out, mid, cursor, 0, IndexBytes(es));
    HoldsBelow(out, mid, cursor, b, cs);
    HoldsConcat(mid, b, cs, g);
    HoldsWritten(mid, out', a, EntryBytes(e), 0, IndexBytes(es));
    HoldsAbove(mid, out', a, EntryBytes(e), b, cs + g);
    HoldsConcat(out', 0, IndexBytes(es), EntryBytes(e));
    assert (es + [e])[..|es|] == es;
  }

  lemma HoldsBelow(out: seq<byte>, mid: seq<byte>, n: nat, i: nat, bs: seq<byte>)
    requires n <= |out| && n <= |mid| && mid[..n] == out[..n] && HoldsAt(out, i, bs) && i + |bs| <= n
    ensures HoldsAt(mid, i, bs)
  {
    assert mid[i..i + |bs|] == mid[..n][i..i + |bs|] == out[..n][i..i + |bs|] == out[i..i + |bs|];
  }

  lemma HoldsAbove(out: seq<byte>, mid: seq<byte>, pos: nat, f: seq<byte>, i: nat, bs: seq<byte>)
    requires Written(out, mid, pos, f) && HoldsAt(out, i, bs) && pos + |f| <= i
    ensures HoldsAt(mid, i, bs)
  {
    assert mid[i..i + |bs|] == out[i..i + |bs|];
  }

  /** Write the bytes of one entry, a plural group or a string. */
  method PutStrings(payload: seq<byte>, e: Entry, out: array<byte>, at: nat) returns (r: Option<nat>)
    requires at <= out.Length
    modifies out
    ensures r.Some? <==> Group(payload, e).Some? && at + |Group(payload, e).value| <= out.Length
    ensures r.Some? ==> r.value == at + |Group(payload, e).value| && HoldsAt(out[..], at, Group(payload, e).value)
    ensures out[..at] == old(out[..at])
  {
    if IsPlural(e) {
      r := PutPlural(payload, e.off, out, at);
    } else {
      r := TranscodeOne(payload, e.off, out, at);
      if r.Some? { r := Some(at + r.value); }
    }
  }

  /** One entry: its strings, then its index slot. */
  method PutEntry(payload: seq<byte>, out: array<byte>, total: nat, cursor: nat, i: nat,
                  ghost es: seq<Entry>, ghost cs: seq<byte>, ghost e: Entry, ghost g: Option<seq<byte>>)
      returns (r: Option<nat>)
    requires i == |es| < total && RewrittenSoFar(out[..], total, es, cs, cursor)
    requires g == GroupAt(payload, i)
    requires ReadIndex(payload, VERSION_V3, i).Some? ==> e == ReadIndex(payload, VERSION_V3, i).value
    modifies out
    ensures r.Some? <==> g.Some? && cursor + |g.value| <= out.Length
    ensures r.Some? ==> RewrittenSoFar(out[..], total, es + [e.(off := cursor)], cs + g.value, r.value)
  {
    var old_ := ReadIndex(payload, VERSION_V3, i);
    if old_.None? { return None; }
    ghost var before := out[..];
    r := PutStrings(payload, old_.value, out, cursor);
    if r.None? { return; }
    ghost var mid := out[..];
    WriteIndexV3(out, i, old_.value.(off := cursor));
    RewrittenGrows(before, mid, out[..], total, es, cs, cursor, e.(off := cursor), g.value);
  }

  lemma MovedSnoc(olds: seq<Entry>, total: nat, gs: seq<seq<byte>>, g: seq<byte>, at: nat, i: nat)
    requires |gs| == i < |olds| && at == ENTRY_V3_SIZE * total + |Concat(gs)|
    ensures MovedAll(olds, total, gs + [g]) == MovedAll(olds, total, gs) + [olds[i].(off := at)]
    ensures Concat(gs + [g]) == Concat(gs) + g
  {
    assert (gs + [g])[..|gs|] == gs;
  }

  /** When the whole rewriting fits, so does each next entry. */
  lemma EntryNeeds(gl: seq<Option<seq<byte>>>, c: nat, gs: seq<seq<byte>>, start: nat, cap: nat)
    requires c < |gl| && AllSome(gl[..c]) && gs == Values(gl[..c])
    ensures AllSome(gl) && start + |Concat(Values(gl))| <= cap ==>
              gl[c].Some? && start + |Concat(gs)| + |gl[c].value| <= cap
  {
    if AllSome(gl) {
      ConcatSplit(Values(gl), c);
      assert Values(gl)[..c] == gs;
    }
  }

  /** All entries in turn, for the old entries `olds` and the strings `gl` they refer to. */
  method PutAll(payload: seq<byte>, n: nat, out: array<byte>, ghost olds: seq<Entry>, ghost gl: seq<Option<seq<byte>>>)
      returns (r: Option<nat>)
    requires |olds| == |gl| == n && ENTRY_V3_SIZE * n <= out.Length
    requires forall i | 0 <= i < n :: gl[i] == GroupAt(payload, i)
    requires forall i | 0 <= i < n ::
               ReadIndex(payload, VERSION_V3, i).Some? ==> olds[i] == ReadIndex(payload, VERSION_V3, i).value
    modifies out
    ensures r.Some? <==> AllSome(gl) && ENTRY_V3_SIZE * n + |Concat(Values(gl))| <= out.Length
    ensures r.Some? ==> RewrittenSoFar(out[..], n, MovedAll(olds, n, Values(gl)), Concat(Values(gl)), r.value)
  {
    var cursor: nat := ENTRY_V3_SIZE * n;
    ghost var gs: seq<seq<byte>>, es: seq<Entry>, cs: seq<byte> := [], [], [];
    for i := 0 to n
      invariant AllSome(gl[..i]) && gs == Values(gl[..i]) && es == MovedAll(olds, n, gs) && cs == Concat(gs)
      invariant RewrittenSoFar(out[..], n, es, cs, cursor)
    {
      EntryNeeds(gl, i, gs, ENTRY_V3_SIZE * n, out.Length);
      var next := PutEntry(payload, out, n, cursor, i, es, cs, olds[i], gl[i]);
      if next.None? { return None; }
      MovedSnoc(olds, n, gs, gl[i].value, cursor, i);
      ValuesSnoc(gl, i);
      es, gs, cs := es + [olds[i].(off := cursor)], gs + [gl[i].value], cs + gl[i].value;
      cursor := next.value;
    }
    assert gl[..n] == gl;
    return Some(cursor);
  }

  method RewriteIndexUtf16(payload: seq<byte>, version: nat, n: nat, out: array<byte>) returns (r: Option<nat>)
    modifies out
    ensures r.Some? <==> Rewrite(payload, version, n, out.Length).Some?
    ensures r.Some? ==> r.value <= out.Length && out[..r.value] == Rewrite(payload, version, n, out.Length).value
  {
    if version != VERSION_V3 { return None; }
    if out.Length < ENTRY_V3_SIZE * n { return None; }
    r := PutAll(payload, n, out, OldEntries(payload, n), GroupList(payload, n));
    if r.Some? {
      assert out[..r.value] == out[..ENTRY_V3_SIZE * n] + out[ENTRY_V3_SIZE * n..r.value];
    }
  }
}
