/**
 * LZSS as the table compiler and loader use it: 4 KiB window, matches of 3 to 18 bytes,
 * eight tokens to a flag byte, match candidates found through hash chains.
 */
module Lzss {
  import opened Bits
  import opened Bytes

  const WINDOW_SIZE: nat := 4096
  const MIN_MATCH: nat := 3
  const MAX_MATCH: nat := 18
  const MAX_INPUT: nat := 16384
  const MAX_CHAIN: nat := 32
  const NO_POSITION: nat := 0xFFFF

  function CompressBound(n: nat): nat { n + n / 8 + 16 }

  function Hash3(s: seq<byte>): (h: nat)
    requires |s| > 0
    ensures h < 256
  {
    Mix(s[0], if |s| > 1 then s[1] else 0, if |s| > 2 then s[2] else 0)
  }

  function Mix(a: nat, b: nat, c: nat): (h: nat)
    ensures h < 256
  {
    var x := Xor(Xor(a * 256, b * 16), c);
    AndMask(x, 8);
    assert Pow2(8) == 256;
    And(x, 255)
  }

  // ---- Tokens ---------------------------------------------------------------------

  datatype Token = Literal(b: byte) | Match(off: nat, len: nat)

  function Span(t: Token): nat { if t.Literal? then 1 else t.len }

  predicate WellFormed(t: Token) { t.Match? ==> MIN_MATCH <= t.len <= MAX_MATCH }

  ghost predicate AllWellFormed(ts: seq<Token>) { forall i | 0 <= i < |ts| :: WellFormed(ts[i]) }

  predicate SameAt(src: seq<byte>, off: nat, p: nat) { off <= p < |src| && src[p - off] == src[p] }

  /** The bytes of `src` at `i` repeat those `off` places back, for `len` bytes. */
  ghost predicate Repeats(src: seq<byte>, i: nat, off: nat, len: nat) {
    1 <= off <= i && i + len <= |src| && forall p | i <= p < i + len :: SameAt(src, off, p)
  }

  // ---- The greedy parse -------------------------------------------------------------

  /** The hash of every position that enters the chains: those with three bytes left. */
  function Hashes(src: seq<byte>): (hs: seq<nat>)
    ensures HashesOf(src, hs)
  {
    if |src| < MIN_MATCH then []
    else seq(|src| - MIN_MATCH + 1, p requires 0 <= p <= |src| - MIN_MATCH => Hash3(src[p..]))
  }

  ghost predicate HashesOf(src: seq<byte>, hs: seq<nat>) {
    && |hs| == (if |src| < MIN_MATCH then 0 else |src| - MIN_MATCH + 1)
    && forall p | 0 <= p < |hs| :: hs[p] == Hash3(src[p..])
  }

  /** The last position before `i` with hash `h`, or -1. */
  function Last(hs: seq<nat>, h: nat, i: nat): (p: int)
    ensures -1 <= p < i && p < |hs|
  {
    if i == 0 then -1 else if i - 1 < |hs| && hs[i - 1] == h then i - 1 else Last(hs, h, i - 1)
  }

  /** The number of equal bytes at `c` and `i`, counted from `l`, at most `max`. */
  function Common(src: seq<byte>, c: nat, i: nat, l: nat, max: nat): (r: nat)
    requires c < i && i + max <= |src| && l <= max && Repeats(src, i, i - c, l)
    ensures l <= r <= max && Repeats(src, i, i - c, r)
    ensures r < max ==> src[c + r] != src[i + r]
    decreases max - l
  {
    if l < max && src[c + l] == src[i + l] then
      assert SameAt(src, i - c, i + l);
      Common(src, c, i, l + 1, max)
    else l
  }

  function MaxLen(src: seq<byte>, i: nat): nat
    requires i <= |src|
  {
    if |src| - i < MAX_MATCH then |src| - i else MAX_MATCH
  }

  /** No match yet, or a match the format can hold. */
  ghost predicate Found(src: seq<byte>, i: nat, best: Token) {
    best.Match? && (best.len == 0 || (MIN_MATCH <= best.len <= MAX_MATCH && Repeats(src, i, best.off, best.len)))
  }

  /** The chain search from candidate `c`, with the best match so far. */
  function Search(src: seq<byte>, hs: seq<nat>, i: nat, c: int, chain: nat, best: Token): (t: Token)
    requires i <= |src| && -1 <= c < i && Found(src, i, best)
    ensures Found(src, i, t)
    decreases c + 1
  {
    if c < 0 || chain >= MAX_CHAIN then best
    else
      var l := Common(src, c, i, 0, MaxLen(src, i));
      var better := l > best.len && l >= MIN_MATCH;
      var best' := if better then Match(i - c, l) else best;
      if better && l == MAX_MATCH then best'
      else Search(src, hs, i, Previous(hs, c), chain + 1, best')
  }

  /** The next candidate on the chain of `c`. */
  function Previous(hs: seq<nat>, c: nat): (p: int)
    ensures -1 <= p < c && p < |hs|
  {
    if c < |hs| then Last(hs, hs[c], c) else -1
  }

  /** A token that fits the format and spells the bytes at `i`. */
  ghost predicate ValidToken(src: seq<byte>, i: nat, t: Token) {
    && WellFormed(t) && i + Span(t) <= |src|
    && (t.Literal? ==> t.b == src[i])
    && (t.Match? ==> Repeats(src, i, t.off, t.len))
  }

  /** The token chosen at `i`. Its correctness does not depend on the hash values. */
  function TokenAt(src: seq<byte>, hs: seq<nat>, i: nat): (t: Token)
    requires i < |src|
    ensures ValidToken(src, i, t)
  {
    var best := Search(src, hs, i, Previous(hs, i), 0, Match(0, 0));
    if best.len >= MIN_MATCH then best else Literal(src[i])
  }

  ghost predicate ValidChoices(src: seq<byte>, cs: seq<Token>) {
    |cs| == |src| && forall i | 0 <= i < |cs| :: ValidToken(src, i, cs[i])
  }

  /** The token chosen at every position. */
  function Choices(src: seq<byte>): (cs: seq<Token>)
    ensures ValidChoices(src, cs)
  {
    var hs := Hashes(src);
    seq(|src|, i requires 0 <= i < |src| => TokenAt(src, hs, i))
  }

  /** The tokens met from position `i` on, each starting where the one before ended. */
  function Follow(cs: seq<Token>, i: nat): (ts: seq<Token>)
    requires AllWellFormed(cs)
    ensures AllWellFormed(ts)
    decreases |cs| - i
  {
    if i >= |cs| then [] else [cs[i]] + Follow(cs, i + Span(cs[i]))
  }

  /** The greedy parse. */
  function Parse(src: seq<byte>): (ts: seq<Token>)
    ensures AllWellFormed(ts)
  {
    Follow(Choices(src), 0)
  }

  // ---- The byte format ----------------------------------------------------------------

  function Body(t: Token): (bs: seq<byte>)
    requires WellFormed(t)
  {
    match t
    case Literal(b) => [b]
    case Match(off, len) =>
      [HighByte(off), LowByte(off, len)]
  }

  /** A match in two bytes: twelve bits of offset, four of length. */
  function HighByte(off: nat): byte { off % WINDOW_SIZE / 16 }

  function LowByte(off: nat, len: nat): byte
    requires MIN_MATCH <= len <= MAX_MATCH
  {
    (off % WINDOW_SIZE % 16) * 16 + (len - MIN_MATCH)
  }

  function Offset(b0: byte, b1: byte): nat { b0 as int * 16 + b1 / 16 }

  function Length(b1: byte): nat { b1 % 16 + MIN_MATCH }

  lemma Nibbles(off: nat, len: nat)
    requires MIN_MATCH <= len <= MAX_MATCH
    ensures Offset(HighByte(off), LowByte(off, len)) == off % WINDOW_SIZE && Length(LowByte(off, len)) == len
  {
  }

  function Bodies(ts: seq<Token>): (bs: seq<byte>)
    requires AllWellFormed(ts)
  {
    if ts == [] then [] else Body(ts[0]) + Bodies(ts[1..])
  }

  function Bit(ts: seq<Token>, j: nat): (b: nat)
    ensures b <= 1
  {
    if j < |ts| && ts[j].Literal? then 1 else 0
  }

  /** The value of bit `7 - j` of a byte. */
  function Weight(j: nat): nat
    requires j < 8
  {
    match j case 0 => 128 case 1 => 64 case 2 => 32 case 3 => 16 case 4 => 8 case 5 => 4 case 6 => 2 case _ => 1
  }

  /** The flag bits of the tokens from `j` on: a set bit for a literal, first token on top. */
  function FlagsFrom(ts: seq<Token>, j: nat): (f: nat)
    requires j <= 8
    ensures j < 8 ==> f < 2 * Weight(j)
    ensures j == 8 ==> f == 0
    decreases 8 - j
  {
    if j == 8 then 0 else (if Bit(ts, j) == 1 then Weight(j) else 0) + FlagsFrom(ts, j + 1)
  }

  /** The flag byte of a group. */
  function Flags(ts: seq<Token>): (f: byte) { FlagsFrom(ts, 0) }

  predicate FlagSet(f: byte, j: nat)
    requires j < 8
  {
    (match j
     case 0 => f / 128 case 1 => f / 64 case 2 => f / 32 case 3 => f / 16
     case 4 => f / 8 case 5 => f / 4 case 6 => f / 2 case _ => f) % 2 == 1
  }

  lemma FlagsSet(ts: seq<Token>, j: nat)
    requires j < |ts| <= 8
    ensures FlagSet(Flags(ts), j) <==> ts[j].Literal?
  {
    assert FlagsFrom(ts, 6) == 2 * Bit(ts, 6) + Bit(ts, 7);
    assert FlagsFrom(ts, 4) == 8 * Bit(ts, 4) + 4 * Bit(ts, 5) + FlagsFrom(ts, 6);
    assert FlagsFrom(ts, 2) == 32 * Bit(ts, 2) + 16 * Bit(ts, 3) + FlagsFrom(ts, 4);
    assert FlagsFrom(ts, 0) == 128 * Bit(ts, 0) + 64 * Bit(ts, 1) + FlagsFrom(ts, 2);
    BitOfSum(Bit(ts, 0), Bit(ts, 1), Bit(ts, 2), Bit(ts, 3), Bit(ts, 4), Bit(ts, 5), Bit(ts, 6), Bit(ts, 7), Flags(ts));
  }

  lemma BitOfSum(b0: nat, b1: nat, b2: nat, b3: nat, b4: nat, b5: nat, b6: nat, b7: nat, f: byte)
    requires b0 <= 1 && b1 <= 1 && b2 <= 1 && b3 <= 1 && b4 <= 1 && b5 <= 1 && b6 <= 1 && b7 <= 1
    requires f == 128 * b0 + 64 * b1 + 32 * b2 + 16 * b3 + 8 * b4 + 4 * b5 + 2 * b6 + b7
    ensures FlagSet(f, 0) == (b0 == 1) && FlagSet(f, 1) == (b1 == 1)
    ensures FlagSet(f, 2) == (b2 == 1) && FlagSet(f, 3) == (b3 == 1)
    ensures FlagSet(f, 4) == (b4 == 1) && FlagSet(f, 5) == (b5 == 1)
    ensures FlagSet(f, 6) == (b6 == 1) && FlagSet(f, 7) == (b7 == 1)
  {
    assert f / 64 == 2 * b0 + b1;
    assert f / 32 == 2 * (f / 64) + b2;
    assert f / 16 == 2 * (f / 32) + b3;
    assert f / 8 == 2 * (f / 16) + b4;
    assert f / 4 == 2 * (f / 8) + b5;
    assert f / 2 == 2 * (f / 4) + b6;
  }

  function Encode(ts: seq<Token>): (bs: seq<byte>)
    requires AllWellFormed(ts)
  {
    if ts == [] then []
    else
      var n := if |ts| < 8 then |ts| else 8;
      [Flags(ts[..n])] + Bodies(ts[..n]) + Encode(ts[n..])
  }

  // ---- Decoding ------------------------------------------------------------------------

  /** Append `len` bytes, each a copy of the byte `off` places back; the copy may overlap itself. */
  function CopyBack(out: seq<byte>, off: nat, len: nat): (r: seq<byte>)
    requires 1 <= off <= |out|
    ensures |r| == |out| + len && out <= r
    decreases len
  {
    if len == 0 then out else CopyBack(out + [out[|out| - off]], off, len - 1)
  }

  /** The decoder at the start of a group, with `s` still to read, `out` written and room for `cap`. */
  function Inflate(s: seq<byte>, out: seq<byte>, cap: nat): (r: Option<seq<byte>>)
    decreases |s|, 0
  {
    if s == [] then Some(out) else InflateBits(s[1..], s[0], 0, out, cap)
  }

  function InflateBits(s: seq<byte>, flag: byte, bit: nat, out: seq<byte>, cap: nat): (r: Option<seq<byte>>)
    requires bit <= 8
    decreases |s|, 9 - bit
  {
    if bit == 8 then Inflate(s, out, cap)
    else if s == [] then Some(out)
    else match Read(s, FlagSet(flag, bit), out, cap)
      case None => None
      case Some(step) => InflateBits(s[step.used..], flag, bit + 1, step.out, cap)
  }

  /** The bytes one token takes and the output after it. */
  datatype Step = Step(used: nat, out: seq<byte>)

  /** Read one token, a literal or a match as its flag says; none where the decoder gives up. */
  function Read(s: seq<byte>, literal: bool, out: seq<byte>, cap: nat): (r: Option<Step>)
    requires s != []
    ensures r.Some? ==> 0 < r.value.used <= |s|
  {
    if literal then
      if |out| >= cap then None else Some(Step(1, out + [s[0]]))
    else if |s| < 2 then None
    else
      var off, len := Offset(s[0], s[1]), Length(s[1]);
      if off == 0 || off > |out| || |out| + len > cap then None
      else Some(Step(2, CopyBack(out, off, len)))
  }

  /** Execute one token. */
  function Execute(t: Token, out: seq<byte>, cap: nat): (r: Option<seq<byte>>)
    ensures r.Some? ==> out <= r.value
  {
    match t
    case Literal(b) => if |out| >= cap then None else Some(out + [b])
    case Match(off, len) =>
      var o := off % WINDOW_SIZE;
      if o == 0 || o > |out| || |out| + len > cap then None else Some(CopyBack(out, o, len))
  }

  /** What a sequence of tokens stands for: the reference the byte format is measured against. */
  function Expand(ts: seq<Token>, out: seq<byte>, cap: nat): (r: Option<seq<byte>>)
    ensures r.Some? ==> out <= r.value
  {
    if ts == [] then Some(out)
    else match Execute(ts[0], out, cap)
      case None => None
      case Some(out') => Expand(ts[1..], out', cap)
  }

  /** Reading the bytes of an encoded token sequence is executing the tokens. */
  lemma {:induction false} InflateEncode(ts: seq<Token>, out: seq<byte>, cap: nat)
    requires AllWellFormed(ts)
    ensures Inflate(Encode(ts), out, cap) == Expand(ts, out, cap)
    decreases |ts|, 9
  {
    if ts != [] {
      var n := if |ts| < 8 then |ts| else 8;
      var g, more := ts[..n], ts[n..];
      assert g[0..] == g && g + more == ts;
      InflateGroup(g, more, 0, out, cap);
      FirstByte(Flags(g), Bodies(g), Encode(more), out, cap);
    }
  }

  lemma FirstByte(f: byte, b: seq<byte>, c: seq<byte>, out: seq<byte>, cap: nat)
    ensures Inflate([f] + b + c, out, cap) == InflateBits(b + c, f, 0, out, cap)
  {
    assert ([f] + b + c)[1..] == b + c;
  }

  /** A token read back from its bytes. */
  lemma ReadBody(t: Token, rest: seq<byte>, out: seq<byte>, cap: nat)
    requires WellFormed(t)
    ensures Read(Body(t) + rest, t.Literal?, out, cap) ==
            match Execute(t, out, cap)
            case None => None
            case Some(out') => Some(Step(|Body(t)|, out'))
  {
    if t.Match? { Nibbles(t.off, t.len); }
  }

  lemma {:induction false} InflateGroup(g: seq<Token>, more: seq<Token>, bit: nat, out: seq<byte>, cap: nat)
    requires AllWellFormed(g) && AllWellFormed(more) && 0 < |g| <= 8 && bit <= |g| && (|g| < 8 ==> more == [])
    ensures InflateBits(Bodies(g[bit..]) + Encode(more), Flags(g), bit, out, cap) == Expand(g[bit..] + more, out, cap)
    decreases |g| + |more|, |g| - bit
  {
    if bit == |g| {
      assert Bodies(g[bit..]) + Encode(more) == Encode(more) && g[bit..] + more == more;
      if bit == 8 { InflateEncode(more, out, cap); }
    } else {
      FlagsSet(g, bit);
      var t := g[bit];
      var rest := Bodies(g[bit + 1..]) + Encode(more);
      assert g[bit..][1..] == g[bit + 1..];
      assert Bodies(g[bit..]) + Encode(more) == Body(t) + rest;
      assert (g[bit..] + more)[1..] == g[bit + 1..] + more;
      assert (Body(t) + rest)[|Body(t)|..] == rest;
      ReadBody(t, rest, out, cap);
      var r := Execute(t, out, cap);
      if r.Some? { InflateGroup(g, more, bit + 1, r.value, cap); }
    }
  }

  // ---- The round trip ----------------------------------------------------------------------

  lemma {:induction false} CopyBackRepeats(src: seq<byte>, i: nat, off: nat, len: nat)
    requires 1 <= off <= i && i + len <= |src|
    ensures CopyBack(src[..i], off, len) == src[..i + len] <==> Repeats(src, i, off, len)
    decreases len
  {
    if len == 0 {
    } else {
      assert SameAt(src, off, i) <==> src[i - off] == src[i];
      var b := src[..i][i - off];
      if b == src[i] {
        assert src[..i] + [b] == src[..i + 1];
        CopyBackRepeats(src, i + 1, off, len - 1);
      } else {
        assert (src[..i] + [b])[i] != src[..i + len][i];
      }
    }
  }

  /** The tokens spell `src` from position `i` on. */
  ghost predicate Spells(src: seq<byte>, i: nat, ts: seq<Token>)
    decreases |ts|
  {
    if ts == [] then i == |src|
    else
      && i < |src| && ValidToken(src, i, ts[0])
      && Spells(src, i + Span(ts[0]), ts[1..])
  }

  /** The token still reads the right bytes after its offset is cut to twelve bits. */
  ghost predicate SurvivesMask(src: seq<byte>, i: nat, t: Token) {
    t.Match? ==> Repeats(src, i, t.off % WINDOW_SIZE, t.len)
  }

  ghost predicate AllSurvive(src: seq<byte>, i: nat, ts: seq<Token>)
    decreases |ts|
  {
    ts == [] || (SurvivesMask(src, i, ts[0]) && AllSurvive(src, i + Span(ts[0]), ts[1..]))
  }

  /** Every match the greedy parse takes survives the cut of its offset. */
  ghost predicate WindowSafe(src: seq<byte>) { AllSurvive(src, 0, Parse(src)) }

  lemma {:induction false} FollowSpells(src: seq<byte>, cs: seq<Token>, i: nat)
    requires ValidChoices(src, cs) && AllWellFormed(cs) && i <= |src|
    ensures Spells(src, i, Follow(cs, i))
    decreases |src| - i
  {
    if i >= |src| {
    } else {
      FollowSpells(src, cs, i + Span(cs[i]));
      assert Follow(cs, i)[1..] == Follow(cs, i + Span(cs[i]));
    }
  }

  lemma {:induction false} ExpandSpelled(src: seq<byte>, i: nat, ts: seq<Token>, cap: nat)
    requires Spells(src, i, ts) && i <= |src| && i <= cap
    ensures Expand(ts, src[..i], cap) == Some(src) <==> AllSurvive(src, i, ts) && |src| <= cap
    decreases |ts|
  {
    if ts == [] {
      assert src[..i] == src;
    } else {
      var next := i + Span(ts[0]);
      match ts[0]
      case Literal(b) =>
        assert src[..i] + [b] == src[..next];
        if i < cap { ExpandSpelled(src, next, ts[1..], cap); }
      case Match(off, len) =>
        var o := off % WINDOW_SIZE;
        if o != 0 && next <= cap {
          CopyBackRepeats(src, i, o, len);
          if Repeats(src, i, o, len) {
            ExpandSpelled(src, next, ts[1..], cap);
          } else {
            assert CopyBack(src[..i], o, len) != src[..next];
          }
        }
    }
  }

  /**
   * The round trip, for every input: what is decoded is the input exactly when no match the parse takes
   * lies so far back that its offset loses its meaning in twelve bits, and the output has room.
   */
  lemma RoundTrip(src: seq<byte>, cap: nat)
    ensures Inflate(Encode(Parse(src)), [], cap) == Some(src) <==> WindowSafe(src) && |src| <= cap
  {
    FollowSpells(src, Choices(src), 0);
    InflateEncode(Parse(src), [], cap);
    assert src[..0] == [];
    ExpandSpelled(src, 0, Parse(src), cap);
  }

  lemma {:induction false} ShortSurvives(src: seq<byte>, i: nat, ts: seq<Token>)
    requires |src| <= WINDOW_SIZE && Spells(src, i, ts)
    ensures AllSurvive(src, i, ts)
    decreases |ts|
  {
    if ts == [] {
    } else {
      ShortSurvives(src, i + Span(ts[0]), ts[1..]);
    }
  }

  /** Every input that fits the window comes back unchanged. */
  lemma ShortRoundTrip(src: seq<byte>, cap: nat)
    requires |src| <= WINDOW_SIZE && |src| <= cap
    ensures Inflate(Encode(Parse(src)), [], cap) == Some(src)
  {
    FollowSpells(src, Choices(src), 0);
    ShortSurvives(src, 0, Parse(src));
    RoundTrip(src, cap);
  }

  // ---- The decoder -----------------------------------------------------------------------------

  lemma {:induction false} CopyBackSnoc(out: seq<byte>, off: nat, k: nat)
    requires 1 <= off <= |out|
    ensures var c := CopyBack(out, off, k); CopyBack(out, off, k + 1) == c + [c[|out| + k - off]]
    decreases k
  {
    if k == 0 {
    } else {
      CopyBackSnoc(out + [out[|out| - off]], off, k - 1);
    }
  }

  method CopyMatch(dst: array<byte>, out: nat, off: nat, len: nat)
    requires 1 <= off <= out && out + len <= dst.Length
    modifies dst
    ensures dst[..out + len] == CopyBack(old(dst[..out]), off, len)
    ensures dst[out + len..] == old(dst[out + len..])
  {
    var start := out - off;
    for k := 0 to len
      invariant dst[..out + k] == CopyBack(old(dst[..out]), off, k)
      invariant dst[out + k..] == old(dst[out + k..])
    {
      CopyBackSnoc(old(dst[..out]), off, k);
      ghost var before := dst[..out + k];
      ghost var tail := dst[out + k..];
      dst[out + k] := dst[start + k];
      assert dst[..out + k + 1] == before + [before[start + k]];
      assert dst[out + k + 1..] == tail[1..];
    }
  }

  /** The decoded length and bytes, with the rest of the buffer untouched, or failure. */
  ghost predicate Produced(spec: Option<seq<byte>>, r: Option<nat>, before: seq<byte>, after: seq<byte>) {
    && (spec.Some? <==> r.Some?)
    && (spec.Some? ==>
          && r.value == |spec.value| <= |after| == |before|
          && after == spec.value + before[r.value..])
  }

  /** One token: read at `i`, written at `out`; fails where the decoder gives up. */
  method ReadToken(src: seq<byte>, i: nat, literal: bool, dst: array<byte>, out: nat)
    returns (ok: bool, i': nat, out': nat)
    requires i < |src| && out <= dst.Length
    modifies dst
    ensures ok ==> i < i' <= |src| && out <= out' <= dst.Length && dst[out'..] == old(dst[out'..])
    ensures Read(src[i..], literal, old(dst[..out]), dst.Length) == if ok then Some(Step(i' - i, dst[..out'])) else None
  {
    ok, i', out' := false, i, out;
    ghost var before := dst[..out];
    if literal {
      if out >= dst.Length { return; }
      dst[out] := src[i];
      assert dst[..out + 1] == before + [src[i]];
      return true, i + 1, out + 1;
    }
    if i + 1 >= |src| { return; }
    var off, len := Offset(src[i], src[i + 1]), Length(src[i + 1]);
    if off == 0 || off > out { return; }
    if out + len > dst.Length { return; }
    CopyMatch(dst, out, off, len);
    return true, i + 2, out + len;
  }

  /** The tokens of one flag byte; stops early at the end of the input. */
  method ReadGroup(src: seq<byte>, i: nat, flag: byte, dst: array<byte>, out: nat)
    returns (ok: bool, i': nat, out': nat)
    requires i <= |src| && out <= dst.Length
    modifies dst
    ensures ok ==> i <= i' <= |src| && out <= out' <= dst.Length && dst[out'..] == old(dst[out'..])
    ensures InflateBits(src[i..], flag, 0, old(dst[..out]), dst.Length) ==
            if ok then Inflate(src[i'..], dst[..out'], dst.Length) else None
  {
    ok, i', out' := true, i, out;
    for bit := 0 to 8
      invariant ok && i <= i' <= |src| && out <= out' <= dst.Length && dst[out'..] == old(dst[out'..])
      invariant InflateBits(src[i..], flag, 0, old(dst[..out]), dst.Length) ==
                InflateBits(src[i'..], flag, bit, dst[..out'], dst.Length)
    {
      if i' >= |src| { return; }
      ghost var i0, out0, tail := i', out', dst[out'..];
      ok, i', out' := ReadToken(src, i', FlagSet(flag, bit), dst, out');
      if !ok { return; }
      assert dst[out'..] == tail[out' - out0..] && src[i0..][i' - i0..] == src[i'..];
    }
  }

  method Decompress(src: seq<byte>, dst: array<byte>) returns (r: Option<nat>)
    modifies dst
    ensures Produced(Inflate(src, [], dst.Length), r, old(dst[..]), dst[..])
  {
    var out, i := 0, 0;
    assert src[0..] == src;
    while i < |src|
      invariant 0 <= i <= |src| && 0 <= out <= dst.Length
      invariant Inflate(src, [], dst.Length) == Inflate(src[i..], dst[..out], dst.Length)
      invariant dst[out..] == old(dst[..])[out..]
      decreases |src| - i
    {
      assert src[i..][1..] == src[i + 1..];
      ghost var out0, tail := out, dst[out..];
      var ok;
      ok, i, out := ReadGroup(src, i + 1, src[i], dst, out);
      if !ok { return None; }
      assert dst[out..] == tail[out - out0..];
    }
    assert dst[..] == dst[..out] + old(dst[..])[out..];
    return Some(out);
  }

  // ---- The compressor -------------------------------------------------------------------------

  /** A position as the chains store it: sixteen bits, with the top value for none. */
  function Mark(p: int): nat { if p < 0 then NO_POSITION else p }

  /** The chain heads when exactly the positions before `i` are linked. */
  function Heads(hs: seq<nat>, i: nat): seq<nat> { seq(256, h requires 0 <= h => Mark(Last(hs, h, i))) }

  /** The links: each position points to the one before it on its chain. */
  function Links(hs: seq<nat>, i: nat): seq<nat> {
    seq(MAX_INPUT, p requires 0 <= p => if p < i && p < |hs| then Mark(Previous(hs, p)) else NO_POSITION)
  }

  ghost predicate ChainsAt(hs: seq<nat>, head: seq<nat>, prev: seq<nat>, i: nat) {
    |hs| <= MAX_INPUT && head == Heads(hs, i) && prev == Links(hs, i)
  }

  lemma LinkStep(hs: seq<nat>, p: nat)
    requires p < MAX_INPUT
    ensures p < |hs| && hs[p] < 256 ==>
              Heads(hs, p + 1) == Heads(hs, p)[hs[p] := p] && Links(hs, p + 1) == Links(hs, p)[p := Heads(hs, p)[hs[p]]]
    ensures p >= |hs| ==> Heads(hs, p + 1) == Heads(hs, p) && Links(hs, p + 1) == Links(hs, p)
  {
  }

  method CommonLength(src: seq<byte>, c: nat, i: nat) returns (l: nat)
    requires c < i <= |src|
    ensures l == Common(src, c, i, 0, MaxLen(src, i)) && l <= MAX_MATCH && Repeats(src, i, i - c, l)
  {
    var maxLen := MaxLen(src, i);
    l := 0;
    while l < maxLen && src[c + l] == src[i + l]
      invariant l <= maxLen && Repeats(src, i, i - c, l)
      invariant Common(src, c, i, l, maxLen) == Common(src, c, i, 0, maxLen)
    {
      assert SameAt(src, i - c, i + l);
      l := l + 1;
    }
  }

  /** The longest match at `i`, by the bounded walk along its chain. */
  method FindMatch(src: seq<byte>, i: nat, head: seq<nat>, prev: seq<nat>, ghost hs: seq<nat>)
    returns (len: nat, off: nat)
    requires i < |hs| <= |src| && hs[i] == Hash3(src[i..]) && ChainsAt(hs, head, prev, i)
    ensures Match(off, len) == Search(src, hs, i, Previous(hs, i), 0, Match(0, 0))
  {
    len, off := 0, 0;
    var h := Hash3(src[i..]);
    ghost var c := Previous(hs, i);
    ghost var goal := Search(src, hs, i, c, 0, Match(0, 0));
    assert head[h] == Mark(c);
    var candidate := head[h];
    var chain := 0;
    while candidate != NO_POSITION && chain < MAX_CHAIN && candidate < i
      invariant -1 <= c < i && c < |hs| && candidate == Mark(c)
      invariant Found(src, i, Match(off, len))
      invariant Search(src, hs, i, c, chain, Match(off, len)) == goal
      decreases c + 1
    {
      var l := CommonLength(src, candidate, i);
      if l > len && l >= MIN_MATCH {
        len, off := l, i - candidate;
        if l == MAX_MATCH { return; }
      }
      assert prev[c] == Mark(Previous(hs, c));
      candidate := prev[candidate];
      c := Previous(hs, c);
      chain := chain + 1;
    }
  }

  lemma {:induction false} FlagsSnoc(g: seq<Token>, t: Token, j: nat)
    requires |g| < 8 && j <= 8
    ensures FlagsFrom(g + [t], j) == FlagsFrom(g, j) + (if t.Literal? && j <= |g| then Weight(|g|) else 0)
    decreases 8 - j
  {
    if j >= 8 {
    } else {
      FlagsSnoc(g, t, j + 1);
      assert j < |g| ==> (g + [t])[j] == g[j];
    }
  }

  lemma {:induction false} BodiesSnoc(g: seq<Token>, t: Token)
    requires AllWellFormed(g) && WellFormed(t)
    ensures AllWellFormed(g + [t]) && Bodies(g + [t]) == Bodies(g) + Body(t)
    decreases |g|
  {
    if g == [] {
      assert (g + [t])[1..] == [];
    } else {
      BodiesSnoc(g[1..], t);
      assert (g + [t])[1..] == g[1..] + [t];
    }
  }

  lemma Reassociate(a: seq<byte>, b: seq<byte>, c: seq<byte>, d: seq<byte>)
    ensures a + (b + c + d) == a + b + c + d
  {
  }

  /** A group encoded after whole groups. */
  lemma {:induction false} EncodeGroup(done: seq<Token>, g: seq<Token>)
    requires AllWellFormed(done) && AllWellFormed(g) && |done| % 8 == 0 && 0 < |g| <= 8
    ensures AllWellFormed(done + g) && Encode(done + g) == Encode(done) + [Flags(g)] + Bodies(g)
    decreases |done|
  {
    if done == [] {
      assert done + g == g && g[..|g|] == g && g[|g|..] == [];
    } else {
      assert (done + g)[..8] == done[..8] && (done + g)[8..] == done[8..] + g;
      EncodeGroup(done[8..], g);
      Reassociate([Flags(done[..8])] + Bodies(done[..8]), Encode(done[8..]), [Flags(g)], Bodies(g));
    }
  }

  /** The output side of the compressor: the bytes written, the flag position, the flag byte and its token count. */
  datatype Writer = Writer(s: seq<byte>, flagPos: nat, flag: byte, bits: nat)

  /** Whole groups `done` are written; the next token opens a group. */
  ghost predicate AtGroup(w: Writer, done: seq<Token>) {
    AllWellFormed(done) && |done| % 8 == 0 && w.bits == 0 && w.s == Encode(done)
  }

  /** The bytes `e`, then a reserved flag byte and the bodies of the group `g`. */
  ghost predicate OpenAfter(w: Writer, e: seq<byte>, g: seq<Token>) {
    && AllWellFormed(g) && w.bits == |g| <= 8 && w.flag == Flags(g)
    && w.flagPos == |e| < |w.s| && w.s == e + [w.s[|e|]] + Bodies(g)
  }

  ghost predicate InGroup(w: Writer, done: seq<Token>, g: seq<Token>) {
    AllWellFormed(done) && |done| % 8 == 0 && OpenAfter(w, Encode(done), g)
  }

  ghost predicate Emitted(w: Writer, done: seq<Token>, g: seq<Token>) {
    |g| < 8 && if g == [] then AtGroup(w, done) else InGroup(w, done, g)
  }

  /** Open a group when none is open; `x` is what the buffer held at the reserved byte. */
  function Reserve(w: Writer, x: byte): Writer {
    if w.bits == 0 then w.(s := w.s + [x], flagPos := |w.s|, flag := 0) else w
  }

  function Put(w: Writer, t: Token): Writer
    requires WellFormed(t) && w.bits < 8
  {
    var flag := if t.Literal? then (w.flag as int + Weight(w.bits)) % 256 else w.flag;
    w.(s := w.s + Body(t), flag := flag, bits := w.bits + 1)
  }

  /** Store the flag byte. */
  function Store(w: Writer): Writer
    requires w.flagPos < |w.s|
  {
    w.(s := w.s[w.flagPos := w.flag], bits := 0)
  }

  function EmitStep(w: Writer, t: Token, x: byte): (w': Writer)
    requires WellFormed(t) && w.bits < 8 && (w.bits > 0 ==> w.flagPos < |w.s|)
    ensures |w'.s| == |w.s| + (if w.bits == 0 then 1 else 0) + |Body(t)|
  {
    var w1 := Put(Reserve(w, x), t);
    if w1.bits == 8 then Store(w1) else w1
  }

  lemma Appended(e: seq<byte>, x: byte, b: seq<byte>, c: seq<byte>)
    ensures (e + [x] + b) + c == e + [x] + (b + c)
    ensures ((e + [x] + b) + c)[|e|] == x
  {
  }

  lemma Stored(e: seq<byte>, x: byte, b: seq<byte>, f: byte)
    ensures (e + [x] + b)[|e| := f] == e + [f] + b
  {
  }

  lemma PutFlag(f: byte, g: seq<Token>, t: Token)
    requires |g| < 8 && f == Flags(g)
    ensures Flags(g + [t]) == if t.Literal? then (f as int + Weight(|g|)) % 256 else f
  {
    FlagsSnoc(g, t, 0);
    SmallMod(Flags(g + [t]));
  }

  lemma SmallMod(b: byte)
    ensures b as int % 256 == b
  {
  }

  lemma PutExtends(w: Writer, e: seq<byte>, g: seq<Token>, t: Token)
    requires OpenAfter(w, e, g) && |g| < 8 && WellFormed(t)
    ensures OpenAfter(Put(w, t), e, g + [t])
  {
    var x := w.s[|e|];
    BodiesSnoc(g, t);
    PutFlag(w.flag, g, t);
    Appended(e, x, Bodies(g), Body(t));
    assert Put(w, t).s == e + [x] + Bodies(g + [t]);
  }

  /** Storing the flag byte closes a group. */
  lemma StoreCloses(w: Writer, done: seq<Token>, g: seq<Token>)
    requires InGroup(w, done, g) && g != []
    ensures AllWellFormed(done + g) && Store(w).s == Encode(done + g)
  {
    EncodeGroup(done, g);
    Stored(Encode(done), w.s[w.flagPos], Bodies(g), w.flag);
  }

  lemma ReserveOpens(w: Writer, done: seq<Token>, g: seq<Token>, x: byte)
    requires Emitted(w, done, g)
    ensures InGroup(Reserve(w, x), done, g)
  {
    if g == [] { assert Reserve(w, x).s == Encode(done) + [x] + []; }
  }

  lemma EmitKeeps(w: Writer, done: seq<Token>, g: seq<Token>, t: Token, x: byte)
    requires Emitted(w, done, g) && WellFormed(t)
    ensures Emitted(EmitStep(w, t, x), NextWhole(done, g, t), NextOpen(g, t))
  {
    ReserveOpens(w, done, g, x);
    PutExtends(Reserve(w, x), Encode(done), g, t);
    if |g| == 7 { StoreCloses(Put(Reserve(w, x), t), done, g + [t]); }
  }

  /** Write one token: reserve a flag byte for a new group, store a full group's flag byte. */
  method Emit(dst: array<byte>, t: Token, out: nat, flagPos: nat, flag: byte, flagBits: nat)
      returns (out': nat, flagPos': nat, flag': byte, flagBits': nat)
    requires WellFormed(t) && flagBits < 8 && out + 3 <= dst.Length && (flagBits > 0 ==> flagPos < out)
    modifies dst
    ensures out' == out + (if flagBits == 0 then 1 else 0) + |Body(t)|
    ensures Writer(dst[..out'], flagPos', flag', flagBits') ==
            EmitStep(Writer(old(dst[..out]), flagPos, flag, flagBits), t, old(dst[out]))
    ensures dst[out'..] == old(dst[out'..])
  {
    out', flagPos', flag' := out, flagPos, flag;
    if flagBits == 0 {
      flagPos' := out';
      out' := out' + 1;
      flag' := 0;
    }
    ghost var s := dst[..out'];
    assert flagBits == 0 ==> s == old(dst[..out]) + [old(dst[out])];
    match t {
      case Match(bestOff, bestLen) =>
        dst[out'] := HighByte(bestOff);
        dst[out' + 1] := LowByte(bestOff, bestLen);
        assert dst[..out' + 2] == s + Body(t);
        out' := out' + 2;
      case Literal(b) =>
        flag' := (flag' as int + Weight(flagBits)) % 256;
        dst[out'] := b;
        assert dst[..out' + 1] == s + Body(t);
        out' := out' + 1;
    }
    flagBits' := flagBits + 1;
    if flagBits' == 8 {
      s := dst[..out'];
      dst[flagPos'] := flag';
      assert dst[..out'] == s[flagPos' := flag'];
      flagBits' := 0;
    }
  }

  method FindToken(src: seq<byte>, i: nat, head: seq<nat>, prev: seq<nat>, ghost hs: seq<nat>) returns (t: Token)
    requires i < |src| && hs == Hashes(src) && ChainsAt(hs, head, prev, i)
    ensures t == Choices(src)[i]
  {
    var bestLen, bestOff := 0, 0;
    if i + MIN_MATCH <= |src| {
      bestLen, bestOff := FindMatch(src, i, head, prev, hs);
    }
    t := if bestLen >= MIN_MATCH then Match(bestOff, bestLen) else Literal(src[i]);
  }

  /** Push `n` positions from `i` on, each on the chain of its hash. */
  method LinkAll(src: seq<byte>, i: nat, n: nat, head: seq<nat>, prev: seq<nat>, ghost hs: seq<nat>)
      returns (i': nat, head': seq<nat>, prev': seq<nat>)
    requires i + n <= |src| <= MAX_INPUT && HashesOf(src, hs) && ChainsAt(hs, head, prev, i)
    ensures i' == i + n && ChainsAt(hs, head', prev', i')
  {
    head', prev' := head, prev;
    i' := i + n;
    for k := 0 to n
      invariant ChainsAt(hs, head', prev', i + k)
    {
      var p := i + k;
      LinkStep(hs, p);
      if p + MIN_MATCH <= |src| {
        var h := Hash3(src[p..]);
        prev' := prev'[p := head'[h]];
        head' := head'[h := p];
      }
    }
  }

  /** The state between two tokens: `done` and `g` are written, the rest of the parse is to come. */
  ghost predicate Midway(cs: seq<Token>, i: nat, w: Writer, done: seq<Token>, g: seq<Token>) {
    && AllWellFormed(cs) && Follow(cs, 0) == done + g + Follow(cs, i)
    && Emitted(w, done, g)
    && WithinBound(|w.s|, |done| + |g|, i)
  }

  /** `size` bytes written for `n` tokens that cover `i` bytes: at most `i` and one flag byte per eight tokens. */
  predicate WithinBound(size: nat, n: nat, i: nat) { n <= i && size <= i + (n + 7) / 8 }

  lemma BoundStep(size: nat, n: nat, i: nat, t: Token)
    requires WithinBound(size, n, i) && WellFormed(t)
    ensures WithinBound(size + (if n % 8 == 0 then 1 else 0) + |Body(t)|, n + 1, i + Span(t))
  {
  }

  lemma FollowStep(cs: seq<Token>, i: nat, done: seq<Token>, g: seq<Token>)
    requires AllWellFormed(cs) && i < |cs|
    ensures var t := cs[i];
            var rest := Follow(cs, i + Span(t));
            done + g + Follow(cs, i) == NextWhole(done, g, t) + NextOpen(g, t) + rest
  {
  }

  /** The whole groups and the open group after one more token. */
  function NextWhole(done: seq<Token>, g: seq<Token>, t: Token): seq<Token> {
    if |g| < 7 then done else done + (g + [t])
  }

  function NextOpen(g: seq<Token>, t: Token): seq<Token> {
    if |g| < 7 then g + [t] else []
  }

  lemma TokenStep(cs: seq<Token>, i: nat, w: Writer, done: seq<Token>, g: seq<Token>, x: byte)
    requires Midway(cs, i, w, done, g) && i < |cs|
    ensures |w.s| + 3 <= CompressBound(|cs|)
    ensures w.bits < 8 && (w.bits > 0 ==> w.flagPos < |w.s|)
    ensures var t := cs[i];
            Midway(cs, i + Span(t), EmitStep(w, t, x), NextWhole(done, g, t), NextOpen(g, t))
  {
    FollowStep(cs, i, done, g);
    EmitKeeps(w, done, g, cs[i], x);
    BoundStep(|w.s|, |done| + |g|, i, cs[i]);
  }

  /** Store the flag byte of a last, partial group. */
  method Finish(dst: array<byte>, out: nat, flagPos: nat, flag: byte, flagBits: nat, ghost done: seq<Token>,
                ghost g: seq<Token>)
    requires out <= dst.Length && Emitted(Writer(dst[..out], flagPos, flag, flagBits), done, g)
    modifies dst
    ensures AllWellFormed(done + g) && dst[..out] == Encode(done + g) && dst[out..] == old(dst[out..])
  {
    ghost var w := Writer(dst[..out], flagPos, flag, flagBits);
    if flagBits > 0 {
      StoreCloses(w, done, g);
      dst[flagPos] := flag;
      assert dst[..out] == w.s[flagPos := flag];
    } else {
      assert done + g == done;
    }
  }

  /** The state between two tokens, with nothing of the heap in it. */
  datatype Progress = Progress(i: nat, w: Writer, done: seq<Token>, g: seq<Token>)

  ghost predicate OnTrack(cs: seq<Token>, p: Progress) { Midway(cs, p.i, p.w, p.done, p.g) }

  /** A state in which a token can be written, with room in a buffer of the bound's size. */
  predicate Ready(cs: seq<Token>, p: Progress) {
    && p.i < |cs| && WellFormed(cs[p.i]) && |p.w.s| + 3 <= CompressBound(|cs|)
    && p.w.bits < 8 && (p.w.bits > 0 ==> p.w.flagPos < |p.w.s|)
  }

  function Advance(cs: seq<Token>, p: Progress, x: byte): Progress
    requires Ready(cs, p)
  {
    var t := cs[p.i];
    Progress(p.i + Span(t), EmitStep(p.w, t, x), NextWhole(p.done, p.g, t), NextOpen(p.g, t))
  }

  /** The state after `|xs|` rounds, where `xs` holds the bytes found at reserved positions. */
  ghost function Rounds(cs: seq<Token>, xs: seq<byte>): Progress {
    if xs == [] then Progress(0, Writer([], 0, 0, 0), [], [])
    else
      var p := Rounds(cs, xs[..|xs| - 1]);
      if Ready(cs, p) then Advance(cs, p, xs[|xs| - 1]) else p
  }

  lemma {:induction false} RoundsOnTrack(cs: seq<Token>, xs: seq<byte>)
    requires AllWellFormed(cs)
    ensures OnTrack(cs, Rounds(cs, xs))
  {
    if xs == [] {
    } else {
      var p, x := Rounds(cs, xs[..|xs| - 1]), xs[|xs| - 1];
      RoundsOnTrack(cs, xs[..|xs| - 1]);
      if Ready(cs, p) { TokenStep(cs, p.i, p.w, p.done, p.g, x); }
    }
  }

  lemma RoundsReady(cs: seq<Token>, xs: seq<byte>)
    requires AllWellFormed(cs) && Rounds(cs, xs).i < |cs|
    ensures Ready(cs, Rounds(cs, xs))
  {
    var p := Rounds(cs, xs);
    RoundsOnTrack(cs, xs);
    TokenStep(cs, p.i, p.w, p.done, p.g, 0);
  }

  lemma RoundsDone(cs: seq<Token>, xs: seq<byte>)
    requires AllWellFormed(cs) && Rounds(cs, xs).i == |cs|
    ensures var p := Rounds(cs, xs);
            && Emitted(p.w, p.done, p.g) && p.done + p.g == Follow(cs, 0)
            && |p.w.s| <= |cs| + (|cs| + 7) / 8
  {
    RoundsOnTrack(cs, xs);
    var p := Rounds(cs, xs);
    assert p.done + p.g + [] == p.done + p.g;
  }

  lemma RoundsStep(cs: seq<Token>, xs: seq<byte>, x: byte)
    requires Ready(cs, Rounds(cs, xs))
    ensures Rounds(cs, xs + [x]) == Advance(cs, Rounds(cs, xs), x)
  {
    assert (xs + [x])[..|xs|] == xs;
  }

  method CompressTokens(src: seq<byte>, dst: array<byte>) returns (out: nat)
    requires |src| <= MAX_INPUT && CompressBound(|src|) <= dst.Length
    modifies dst
    ensures out <= dst.Length && out <= |src| + (|src| + 7) / 8
    ensures dst[..out] == Encode(Parse(src)) && dst[out..] == old(dst[..])[out..]
  {
    var head: seq<nat>, prev: seq<nat> := seq(256, _ => NO_POSITION), seq(MAX_INPUT, _ => NO_POSITION);
    ghost var cs, hs := Choices(src), Hashes(src);
    out := 0;
    var flagPos: nat, flag: byte, flagBits: nat := 0, 0, 0;
    var i := 0;
    ghost var xs: seq<byte> := [];
    while i < |src|
      invariant 0 <= i == Rounds(cs, xs).i <= |src| && ChainsAt(hs, head, prev, i)
      invariant out <= dst.Length && Rounds(cs, xs).w == Writer(dst[..out], flagPos, flag, flagBits)
      invariant dst[out..] == old(dst[..])[out..]
    {
      RoundsReady(cs, xs);
      RoundsStep(cs, xs, dst[out]);
      xs := xs + [dst[out]];
      var t := FindToken(src, i, head, prev, hs);
      assert ValidToken(src, i, t);
      ghost var tail, out0 := dst[out..], out;
      out, flagPos, flag, flagBits := Emit(dst, t, out, flagPos, flag, flagBits);
      assert dst[out..] == tail[out - out0..];
      i, head, prev := LinkAll(src, i, Span(t), head, prev, hs);
    }
    RoundsDone(cs, xs);
    Finish(dst, out, flagPos, flag, flagBits, Rounds(cs, xs).done, Rounds(cs, xs).g);
  }

  method Compress(src: seq<byte>, dst: array<byte>) returns (r: Option<nat>)
    modifies dst
    ensures r.Some? <==> |src| <= MAX_INPUT && (src == [] || CompressBound(|src|) <= dst.Length)
    ensures r.Some? ==> r.value <= dst.Length && dst[..r.value] == Encode(Parse(src))
    ensures r.Some? ==> r.value <= |src| + (|src| + 7) / 8 && dst[r.value..] == old(dst[..])[r.value..]
    ensures r.None? ==> dst[..] == old(dst[..])
  {
    if |src| > MAX_INPUT { return None; }
    if src == [] { return Some(0); }
    if dst.Length < CompressBound(|src|) { return None; }
    var out := CompressTokens(src, dst);
    return Some(out);
  }

  // ---- Where the window ends -----------------------------------------------------------------------

  /** Three bytes, zeros up to position 4096, and the same three bytes. */
  function FarRepeat(): (src: seq<byte>) { [1, 2, 3] + seq(4093, _ => 0) + [1, 2, 3] }

  lemma FarRepeatAt(p: nat)
    requires p < 4099
    ensures |FarRepeat()| == 4099
    ensures FarRepeat()[p] == if p < 3 then p + 1 else if p < 4096 then 0 else p - 4095
  {
  }

  lemma MixIs(a: nat, b: nat, c: nat)
    ensures Mix(a, b, c) == Xor(Xor(a * 256, b * 16), c) % 256
  {
    AndMask(Xor(Xor(a * 256, b * 16), c), 8);
  }

  lemma XorValues()
    ensures Xor(256, 32) == 288 && Xor(288, 3) == 291 && Xor(512, 48) == 560 && Xor(16, 2) == 18
  {
    assert Xor(8, 1) == 9;
    assert Xor(64, 8) == 72;
    assert Xor(32, 3) == 35;
    assert Xor(128, 12) == 140;
  }

  lemma MixValues()
    ensures Mix(1, 2, 3) == 35 && Mix(2, 3, 0) == 48 && Mix(3, 0, 0) == 0
    ensures Mix(0, 0, 0) == 0 && Mix(0, 0, 1) == 1 && Mix(0, 1, 2) == 18
  {
    XorValues();
    MixIs(1, 2, 3); MixIs(2, 3, 0); MixIs(3, 0, 0); MixIs(0, 0, 0); MixIs(0, 0, 1); MixIs(0, 1, 2);
  }

  /** No position strictly between has the hash of the three bytes. */
  lemma FarRepeatHash(hs: seq<nat>, p: nat)
    requires HashesOf(FarRepeat(), hs) && p <= 4096
    ensures |hs| == 4097 && (hs[p] == 35 <==> p == 0 || p == 4096)
  {
    var src := FarRepeat();
    MixValues();
    FarRepeatAt(p);
    FarRepeatAt(p + 1);
    FarRepeatAt(p + 2);
    assert Hash3(src[p..]) == Mix(src[p], src[p + 1], src[p + 2]);
  }

  lemma {:induction false} FarRepeatLast(hs: seq<nat>, i: nat)
    requires HashesOf(FarRepeat(), hs) && 0 < i <= 4096
    ensures Last(hs, 35, i) == 0
    decreases i
  {
    FarRepeatHash(hs, i - 1);
    if i <= 1 {
    } else {
      FarRepeatLast(hs, i - 1);
    }
  }

  lemma FarRepeatCommon()
    ensures |FarRepeat()| == 4099 && Repeats(FarRepeat(), 4096, 4096, 0) && Common(FarRepeat(), 0, 4096, 0, 3) == 3
  {
    var src := FarRepeat();
    FarRepeatAt(0); FarRepeatAt(1); FarRepeatAt(2);
    FarRepeatAt(4096); FarRepeatAt(4097); FarRepeatAt(4098);
    assert SameAt(src, 4096, 4096) && SameAt(src, 4096, 4097) && SameAt(src, 4096, 4098);
    assert Common(src, 0, 4096, 2, 3) == 3;
  }

  /** The search at 4096 finds the three bytes 4096 places back. */
  lemma FarRepeatToken(hs: seq<nat>)
    requires HashesOf(FarRepeat(), hs)
    ensures |FarRepeat()| == 4099 && TokenAt(FarRepeat(), hs, 4096) == Match(4096, 3)
  {
    var src := FarRepeat();
    FarRepeatHash(hs, 4096);
    FarRepeatHash(hs, 0);
    FarRepeatLast(hs, 4096);
    FarRepeatCommon();
    assert MaxLen(src, 4096) == 3 && Previous(hs, 4096) == 0 && Previous(hs, 0) == -1;
    assert Search(src, hs, 4096, -1, 1, Match(4096, 3)) == Match(4096, 3);
  }

  /** No token that starts before 4096 reaches past it: the byte there repeats nothing but the first. */
  lemma FarRepeatStops(i: nat, t: Token)
    requires i < 4096 && ValidToken(FarRepeat(), i, t)
    ensures i + Span(t) <= 4096
  {
    if t.Match? {
      FarRepeatAt(4096);
      FarRepeatAt(4096 - t.off);
      assert !SameAt(FarRepeat(), t.off, 4096);
    }
  }

  lemma {:induction false} FarRepeatUnsafe(cs: seq<Token>, i: nat)
    requires ValidChoices(FarRepeat(), cs) && AllWellFormed(cs) && |cs| == 4099 && cs[4096] == Match(4096, 3)
    requires i <= 4096
    ensures !AllSurvive(FarRepeat(), i, Follow(cs, i))
    decreases 4096 - i
  {
    assert Follow(cs, i)[0] == cs[i] && Follow(cs, i)[1..] == Follow(cs, i + Span(cs[i]));
    if i >= 4096 {
    } else {
      FarRepeatStops(i, cs[i]);
      FarRepeatUnsafe(cs, i + Span(cs[i]));
    }
  }

  /** An input three bytes longer than the window that the compressor accepts and that does not come back. */
  lemma FarRepeatLost(cap: nat)
    ensures |FarRepeat()| <= MAX_INPUT && Inflate(Encode(Parse(FarRepeat())), [], cap) != Some(FarRepeat())
  {
    var src := FarRepeat();
    FarRepeatToken(Hashes(src));
    FarRepeatUnsafe(Choices(src), 0);
    RoundTrip(src, cap);
  }
}
