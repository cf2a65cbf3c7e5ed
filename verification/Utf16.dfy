/**
 * UTF-16LE strings to UTF-8, as the table loader does on load. The references are the two encodings'
 * own definitions: section 2.1 of RFC 2781 for UTF-16 and section 3 of RFC 3629 for UTF-8.
 */
module Utf16 {
  import opened Bytes

  // ---- The encodings ------------------------------------------------------------------------

  predicate HighSurrogate(u: nat) { 0xD800 <= u < 0xDC00 }
  predicate LowSurrogate(u: nat) { 0xDC00 <= u < 0xE000 }

  /** A scalar value: any code point but the surrogates. */
  type CodePoint = cp: int | 0 <= cp <= 0x10FFFF && !(0xD800 <= cp < 0xE000)

  function High(cp: CodePoint): (u: nat)
    requires cp >= 0x1_0000
    ensures HighSurrogate(u)
  {
    0xD800 + (cp - 0x1_0000) / 0x400
  }

  function Low(cp: CodePoint): (u: nat)
    requires cp >= 0x1_0000
    ensures LowSurrogate(u)
  {
    0xDC00 + (cp - 0x1_0000) % 0x400
  }

  function UnitBytes(u: nat): (bs: seq<byte>)
    requires u < 0x1_0000
    ensures |bs| == 2
  {
    [u % 256, u / 256]
  }

  /** One scalar value: a unit, or a surrogate pair. */
  function Form16(cp: CodePoint): (bs: seq<byte>)
    ensures |bs| == if cp < 0x1_0000 then 2 else 4
  {
    if cp < 0x1_0000 then UnitBytes(cp) else UnitBytes(High(cp)) + UnitBytes(Low(cp))
  }

  /** A string of scalar values as UTF-16LE. */
  function Encode16(cps: seq<CodePoint>): (bs: seq<byte>) {
    if cps == [] then [] else Form16(cps[0]) + Encode16(cps[1..])
  }

  /** The bytes `bs` are the UTF-8 form of `cp`: the right length for its range, marker bits and payload bits. */
  predicate IsUtf8(cp: nat, bs: seq<byte>) {
    match |bs|
    case 1 => cp < 0x80 && bs[0] == cp
    case 2 => 0x80 <= cp < 0x800 && 0xC0 <= bs[0] < 0xE0 && Tail(bs[1]) &&
              cp == (bs[0] as int - 0xC0) * 64 + Six(bs[1])
    case 3 => 0x800 <= cp < 0x1_0000 && 0xE0 <= bs[0] < 0xF0 && Tail(bs[1]) && Tail(bs[2]) &&
              cp == (bs[0] as int - 0xE0) * 4096 + Six(bs[1]) * 64 + Six(bs[2])
    case 4 => 0x1_0000 <= cp <= 0x10FFFF && 0xF0 <= bs[0] < 0xF8 && Tail(bs[1]) && Tail(bs[2]) && Tail(bs[3]) &&
              cp == (bs[0] as int - 0xF0) * 262144 + Six(bs[1]) * 4096 + Six(bs[2]) * 64 + Six(bs[3])
    case _ => false
  }

  predicate Tail(b: byte) { 0x80 <= b < 0xC0 }
  function Six(b: byte): int { b as int - 0x80 }

  /** What the loader writes for one code point. */
  function PutUtf8(cp: CodePoint): (bs: seq<byte>)
    ensures 1 <= |bs| <= 4
  {
    if cp < 0x80 then [cp]
    else if cp < 0x800 then [0xC0 + cp / 64, 0x80 + cp % 64]
    else if cp < 0x1_0000 then [0xE0 + cp / 4096, 0x80 + cp / 64 % 64, 0x80 + cp % 64]
    else [0xF0 + cp / 262144, 0x80 + cp / 4096 % 64, 0x80 + cp / 64 % 64, 0x80 + cp % 64]
  }

  function Utf8(cps: seq<CodePoint>): (bs: seq<byte>) {
    if cps == [] then [] else PutUtf8(cps[0]) + Utf8(cps[1..])
  }

  lemma Digits(cp: nat)
    ensures cp == cp / 64 * 64 + cp % 64
    ensures cp / 64 == cp / 4096 * 64 + cp / 64 % 64
    ensures cp / 4096 == cp / 262144 * 64 + cp / 4096 % 64
  {
  }

  lemma UniqueDigits(cp: nat, a: int, b: int, c: int, d: int)
    requires 0 <= a && 0 <= b < 64 && 0 <= c < 64 && 0 <= d < 64 && cp == a * 262144 + b * 4096 + c * 64 + d
    ensures a == cp / 262144 && b == cp / 4096 % 64 && c == cp / 64 % 64 && d == cp % 64
  {
    assert cp / 64 == a * 4096 + b * 64 + c;
    assert cp / 4096 == a * 64 + b;
  }

  /** The loader writes the UTF-8 form of a code point... */
  lemma PutIsUtf8(cp: CodePoint)
    ensures IsUtf8(cp, PutUtf8(cp))
  {
    Digits(cp);
  }

  /** ...and no other byte string is one. */
  lemma Utf8Unique(cp: CodePoint, bs: seq<byte>)
    requires IsUtf8(cp, bs)
    ensures bs == PutUtf8(cp)
  {
    match |bs|
    case 1 =>
    case 2 => UniqueDigits(cp, 0, 0, bs[0] as int - 0xC0, Six(bs[1]));
    case 3 => UniqueDigits(cp, 0, bs[0] as int - 0xE0, Six(bs[1]), Six(bs[2]));
    case 4 => UniqueDigits(cp, bs[0] as int - 0xF0, Six(bs[1]), Six(bs[2]), Six(bs[3]));
  }

  // ---- Reading a string ------------------------------------------------------------------------

  function UnitAt(src: seq<byte>, i: nat): (u: nat)
    requires i + 2 <= |src|
    ensures u < 0x1_0000
  {
    src[i] as int + 256 * src[i + 1] as int
  }

  /** One step of the reader: the code point at `i` and where the next unit starts, or failure, or the end. */
  datatype Item = End | Bad | Item(cp: CodePoint, next: nat)

  function Next(src: seq<byte>, i: nat): (r: Item)
    ensures r.Item? ==> i + 2 <= r.next <= |src|
  {
    if i + 2 > |src| then Bad
    else
      var u := UnitAt(src, i);
      if u == 0 then End
      else if HighSurrogate(u) then
        if i + 4 > |src| || !LowSurrogate(UnitAt(src, i + 2)) then Bad
        else Item(0x1_0000 + (u - 0xD800) * 0x400 + (UnitAt(src, i + 2) - 0xDC00), i + 4)
      else if LowSurrogate(u) then Bad
      else Item(u, i + 2)
  }

  /** The scalar values from `i` up to a zero unit; none when the input ends or a surrogate is unpaired. */
  function Scalars(src: seq<byte>, i: nat): (r: Option<seq<CodePoint>>)
    decreases |src| - i
  {
    match Next(src, i)
    case Bad => None
    case End => Some([])
    case Item(cp, next) => Prepend(cp, Scalars(src, next))
  }

  function Prepend(cp: CodePoint, rest: Option<seq<CodePoint>>): Option<seq<CodePoint>> {
    match rest case None => None case Some(cps) => Some([cp] + cps)
  }

  predicate NonZero(cps: seq<CodePoint>) { forall i | 0 <= i < |cps| :: cps[i] != 0 }

  lemma UnitHeld(src: seq<byte>, i: nat, u: nat)
    requires u < 0x1_0000
    ensures HoldsAt(src, i, UnitBytes(u)) <==> i + 2 <= |src| && UnitAt(src, i) == u
  {
    if i + 2 <= |src| {
      assert src[i..i + 2] == [src[i], src[i + 1]];
      assert u == u % 256 + 256 * (u / 256);
    }
  }

  lemma PairIs(cp: CodePoint, h: nat, l: nat)
    requires cp >= 0x1_0000 && HighSurrogate(h) && LowSurrogate(l)
    ensures cp == 0x1_0000 + (h - 0xD800) * 0x400 + (l - 0xDC00) <==> h == High(cp) && l == Low(cp)
  {
  }

  /** The bytes of one scalar value are at `i` exactly when its unit, or its surrogate pair, is. */
  lemma FormHeld(src: seq<byte>, i: nat, cp: CodePoint)
    ensures HoldsAt(src, i, Form16(cp)) <==>
            if cp < 0x1_0000 then i + 2 <= |src| && UnitAt(src, i) == cp
            else i + 4 <= |src| && UnitAt(src, i) == High(cp) && UnitAt(src, i + 2) == Low(cp)
  {
    if cp < 0x1_0000 {
      UnitHeld(src, i, cp);
    } else {
      HoldsConcat(src, i, UnitBytes(High(cp)), UnitBytes(Low(cp)));
      UnitHeld(src, i, High(cp));
      UnitHeld(src, i + 2, Low(cp));
    }
  }

  /** Reading succeeds exactly on a zero-terminated UTF-16LE string of non-zero scalar values, and gives them. */
  lemma {:induction false} ScalarsIff(src: seq<byte>, i: nat, cps: seq<CodePoint>)
    ensures Scalars(src, i) == Some(cps) <==> NonZero(cps) && HoldsAt(src, i, Encode16(cps) + [0, 0])
    decreases |cps|
  {
    if cps == [] {
      assert Encode16(cps) + [0, 0] == UnitBytes(0);
      UnitHeld(src, i, 0);
    } else {
      var cp, rest := cps[0], cps[1..];
      assert Encode16(cps) + [0, 0] == Form16(cp) + (Encode16(rest) + [0, 0]);
      HoldsConcat(src, i, Form16(cp), Encode16(rest) + [0, 0]);
      FormHeld(src, i, cp);
      ScalarsIff(src, i + |Form16(cp)|, rest);
      assert NonZero(cps) <==> cp != 0 && NonZero(rest);
      assert cps == [cp] + rest;
      if i + 4 <= |src| && cp >= 0x1_0000 && HighSurrogate(UnitAt(src, i)) && LowSurrogate(UnitAt(src, i + 2)) {
        PairIs(cp, UnitAt(src, i), UnitAt(src, i + 2));
      }
    }
  }

  // ---- Writing a string --------------------------------------------------------------------------

  /** The bytes `bs` are the UTF-8 forms of `cps`, one after the other. */
  ghost predicate SpellsUtf8(cps: seq<CodePoint>, bs: seq<byte>) {
    if cps == [] then bs == []
    else exists n | 0 < n <= |bs| :: IsUtf8(cps[0], bs[..n]) && SpellsUtf8(cps[1..], bs[n..])
  }

  lemma SpellsCons(cp: CodePoint, cps: seq<CodePoint>, f: seq<byte>, bs: seq<byte>)
    requires IsUtf8(cp, f) && SpellsUtf8(cps, bs)
    ensures SpellsUtf8([cp] + cps, f + bs)
  {
    assert ([cp] + cps)[1..] == cps;
    assert (f + bs)[..|f|] == f && (f + bs)[|f|..] == bs;
  }

  /** What the loader writes is a UTF-8 spelling of the string... */
  lemma {:induction false} Utf8Spells(cps: seq<CodePoint>)
    ensures SpellsUtf8(cps, Utf8(cps))
    decreases |cps|
  {
    if cps == [] {
    } else {
      Utf8Spells(cps[1..]);
      PutIsUtf8(cps[0]);
      SpellsCons(cps[0], cps[1..], PutUtf8(cps[0]), Utf8(cps[1..]));
      assert [cps[0]] + cps[1..] == cps;
    }
  }

  /** ...and the only one. */
  lemma {:induction false} SpellingUnique(cps: seq<CodePoint>, bs: seq<byte>)
    requires SpellsUtf8(cps, bs)
    ensures bs == Utf8(cps)
    decreases |cps|
  {
    if cps == [] {
    } else {
      var n :| 0 < n <= |bs| && IsUtf8(cps[0], bs[..n]) && SpellsUtf8(cps[1..], bs[n..]);
      Utf8Unique(cps[0], bs[..n]);
      SpellingUnique(cps[1..], bs[n..]);
      SpellingCons(cps, bs, n);
    }
  }

  lemma SpellingCons(cps: seq<CodePoint>, bs: seq<byte>, n: nat)
    requires cps != [] && n <= |bs| && bs[..n] == PutUtf8(cps[0]) && bs[n..] == Utf8(cps[1..])
    ensures bs == Utf8(cps)
  {
  }

  lemma {:induction false} Utf8Concat(a: seq<CodePoint>, b: seq<CodePoint>)
    ensures Utf8(a + b) == Utf8(a) + Utf8(b)
    decreases |a|
  {
    if a == [] {
      assert a + b == b;
    } else {
      assert (a + b)[1..] == a[1..] + b;
      Utf8Concat(a[1..], b);
    }
  }

  lemma Utf8Snoc(a: seq<CodePoint>, cp: CodePoint)
    ensures Utf8(a + [cp]) == Utf8(a) + PutUtf8(cp)
  {
    Utf8Concat(a, [cp]);
    assert Utf8([cp]) == PutUtf8(cp) + [];
  }

  function Join(a: seq<CodePoint>, rest: Option<seq<CodePoint>>): Option<seq<CodePoint>> {
    match rest case None => None case Some(b) => Some(a + b)
  }

  lemma JoinEmpty(rest: Option<seq<CodePoint>>)
    ensures Join([], rest) == rest
  {
    if rest.Some? { assert [] + rest.value == rest.value; }
  }

  lemma JoinPrepend(a: seq<CodePoint>, cp: CodePoint, rest: Option<seq<CodePoint>>)
    ensures Join(a, Prepend(cp, rest)) == Join(a + [cp], rest)
  {
    if rest.Some? { assert a + ([cp] + rest.value) == a + [cp] + rest.value; }
  }

  /** `after` is `before` with `bs` written at `pos`. */
  ghost predicate Written(before: seq<byte>, after: seq<byte>, pos: nat, bs: seq<byte>) {
    pos + |bs| <= |before| && after == before[..pos] + bs + before[pos + |bs|..]
  }

  lemma WrittenTwice(a: seq<byte>, b: seq<byte>, c: seq<byte>, pos: nat, x: seq<byte>, y: seq<byte>)
    requires Written(a, b, pos, x) && Written(b, c, pos + |x|, y)
    ensures Written(a, c, pos, x + y)
  {
    assert b[..pos + |x|] == a[..pos] + x;
    assert b[pos + |x| + |y|..] == a[pos + |x + y|..];
  }

  method CopyInto(dst: array<byte>, pos: nat, bs: seq<byte>)
    requires pos + |bs| <= dst.Length
    modifies dst
    ensures Written(old(dst[..]), dst[..], pos, bs)
  {
    for k := 0 to |bs|
      invariant dst[..] == old(dst[..pos]) + bs[..k] + old(dst[pos + k..])
    {
      dst[pos + k] := bs[k];
    }
  }

  /** Write `buf` behind the `out` bytes `x` already written at `base`. */
  method AppendForm(dst: array<byte>, base: nat, out: nat, buf: seq<byte>, ghost orig: seq<byte>, ghost x: seq<byte>)
    requires Written(orig, dst[..], base, x) && out == |x| && base + out + |buf| <= dst.Length
    modifies dst
    ensures Written(orig, dst[..], base, x + buf)
  {
    ghost var before := dst[..];
    CopyInto(dst, base + out, buf);
    WrittenTwice(orig, before, dst[..], base, x, buf);
  }

  /** The string at `start` fits in `room` bytes of UTF-8. */
  predicate Fits(src: seq<byte>, start: nat, room: int) {
    var cps := Scalars(src, start);
    cps.Some? && |Utf8(cps.value)| <= room
  }

  method TranscodeOne(src: seq<byte>, start: nat, dst: array<byte>, base: nat) returns (r: Option<nat>)
    requires base <= dst.Length
    modifies dst
    ensures r.Some? <==> Fits(src, start, dst.Length - base)
    ensures r.Some? ==> var bs := Utf8(Scalars(src, start).value);
                        r.value == |bs| && Written(old(dst[..]), dst[..], base, bs)
    ensures dst[..base] == old(dst[..base])
  {
    var i, out := start, 0;
    ghost var done: seq<CodePoint> := [];
    JoinEmpty(Scalars(src, i));
    while true
      invariant start <= i && 0 <= out <= dst.Length - base
      invariant Scalars(src, start) == Join(done, Scalars(src, i))
      invariant out == |Utf8(done)| && Written(old(dst[..]), dst[..], base, Utf8(done))
      decreases |src| - i
    {
      match Next(src, i) {
        case End =>
          assert done + [] == done;
          return Some(out);
        case Bad => return None;
        case Item(cp, next) =>
          var buf := PutUtf8(cp);
          JoinPrepend(done, cp, Scalars(src, next));
          Utf8Snoc(done, cp);
          if out + |buf| > dst.Length - base {
            if Scalars(src, next).Some? { Utf8Concat(done + [cp], Scalars(src, next).value); }
            return None;
          }
          AppendForm(dst, base, out, buf, old(dst[..]), Utf8(done));
          done := done + [cp];
          out := out + |buf|;
          i := next;
      }
    }
  }
}
