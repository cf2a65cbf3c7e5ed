/**
 * The table loader's and the file system's CRC-32: reflected polynomial 0xEDB88320, register preset to
 * ones, result complemented. A 32-bit word is the sequence of its bits, lowest first.
 *
 * Feeding bytes is feeding their bits one by one, and each step can be undone; so two messages of one
 * length that differ only within 32 consecutive bits have different checksums, and 33 is one too many.
 */
module Crc {
  import opened Bits
  import opened Bytes

  // ---- Words as bits ----------------------------------------------------------------------

  type Word = s: seq<bool> | |s| == 32 witness seq(32, _ => false)

  /** The low `len` bits of a number, lowest first. */
  function BitsOf(n: nat, len: nat): (s: seq<bool>)
    ensures |s| == len
  {
    if len == 0 then [] else [n % 2 == 1] + BitsOf(n / 2, len - 1)
  }

  function Value(s: seq<bool>): nat {
    if s == [] then 0 else (if s[0] then 1 else 0) + 2 * Value(s[1..])
  }

  lemma {:induction false} ValueBound(s: seq<bool>)
    ensures Value(s) < Pow2(|s|)
    decreases |s|
  {
    if s == [] {
    } else {
      ValueBound(s[1..]);
    }
  }

  lemma {:induction false} BitsOfValue(s: seq<bool>)
    ensures BitsOf(Value(s), |s|) == s
    decreases |s|
  {
    if s == [] {
    } else {
      BitsOfValue(s[1..]);
    }
  }

  lemma {:induction false} ValueOfBits(n: nat, len: nat)
    requires n < Pow2(len)
    ensures Value(BitsOf(n, len)) == n
    decreases len
  {
    if len == 0 {
    } else {
      ValueOfBits(n / 2, len - 1);
      assert BitsOf(n, len)[1..] == BitsOf(n / 2, len - 1);
    }
  }

  function Zeros(n: nat): (s: seq<bool>)
    ensures |s| == n
  {
    seq(n, _ => false)
  }

  function Xor(a: seq<bool>, b: seq<bool>): (s: seq<bool>)
    requires |a| == |b|
    ensures |s| == |a|
  {
    seq(|a|, i requires 0 <= i < |a| => a[i] != b[i])
  }

  /** A byte is its eight bits, whatever the width it is extended to. */
  lemma {:induction false} Extended(n: nat, k: nat, len: nat)
    requires n < Pow2(k)
    ensures BitsOf(n, k + len) == BitsOf(n, k) + Zeros(len)
    decreases k + len
  {
    if k > 0 {
      Extended(n / 2, k - 1, len);
    } else if len > 0 {
      Extended(n, 0, len - 1);
      assert [false] + Zeros(len - 1) == Zeros(len);
    }
  }

  // ---- The register ---------------------------------------------------------------------------

  /** One step of the register of polynomial `p`. */
  function Shift(p: Word, c: Word): Word {
    var down := c[1..] + [false];
    if c[0] then Xor(down, p) else down
  }

  function Shifts(p: Word, c: Word, n: nat): Word
    decreases n
  {
    if n == 0 then c else Shifts(p, Shift(p, c), n - 1)
  }

  /** The register after the bytes of `data`: each is added to the low bits and shifted out. */
  function Register(p: Word, c: Word, data: seq<byte>): Word
    decreases |data|
  {
    if data == [] then c else Register(p, Shifts(p, Xor(c, BitsOf(data[0], 32)), 8), data[1..])
  }

  const POLYNOMIAL: nat := 0xEDB8_8320

  function Polynomial(): Word { BitsOf(POLYNOMIAL, 32) }

  function Ones(): Word { seq(32, _ => true) }

  function Crc32(data: seq<byte>): nat { Value(Xor(Register(Polynomial(), Ones(), data), Ones())) }

  lemma Pow2Byte(n: nat)
    ensures Pow2(n + 8) == 0x100 * Pow2(n)
  {
    assert Pow2(n + 2) == 4 * Pow2(n);
    assert Pow2(n + 4) == 4 * Pow2(n + 2);
    assert Pow2(n + 6) == 4 * Pow2(n + 4);
    assert Pow2(n + 8) == 4 * Pow2(n + 6);
  }

  /** The checksum fits its 32-bit field. */
  lemma Crc32Bound(data: seq<byte>)
    ensures Crc32(data) < 0x1_0000_0000
  {
    ValueBound(Xor(Register(Polynomial(), Ones(), data), Ones()));
    Pow2Byte(0);
    Pow2Byte(8);
    Pow2Byte(16);
    Pow2Byte(24);
  }

  // ---- One bit at a time -------------------------------------------------------------------------

  function FeedBit(p: Word, c: Word, b: bool): Word { Shift(p, c[0 := c[0] != b]) }

  function Feed(p: Word, c: Word, bits: seq<bool>): Word
    decreases |bits|
  {
    if bits == [] then c else Feed(p, FeedBit(p, c, bits[0]), bits[1..])
  }

  /** The bits of a message in the order the register takes them. */
  function Stream(data: seq<byte>): (s: seq<bool>)
    ensures |s| == 8 * |data|
  {
    if data == [] then [] else BitsOf(data[0], 8) + Stream(data[1..])
  }

  /** Bits added above the lowest are added, one place lower, after the shift. */
  lemma AddThenShift(p: Word, c: Word, b: bool, y: seq<bool>)
    requires |y| == 31
    ensures Shift(p, Xor(c, [b] + y)) == Xor(FeedBit(p, c, b), y + [false])
  {
  }

  predicate AllZero(z: seq<bool>) { forall i | 0 <= i < |z| :: !z[i] }

  /** Up to 32 bits can be added at once and then shifted out together. */
  lemma {:induction false} FeedWord(p: Word, c: Word, x: seq<bool>, z: seq<bool>)
    requires |x| + |z| == 32 && AllZero(z)
    ensures Feed(p, c, x) == Shifts(p, Xor(c, x + z), |x|)
    decreases |x|
  {
    if x == [] {
      assert Xor(c, x + z) == c;
    } else {
      var y := x[1..] + z;
      assert x + z == [x[0]] + y;
      assert y + [false] == x[1..] + (z + [false]);
      AddThenShift(p, c, x[0], y);
      FeedWord(p, FeedBit(p, c, x[0]), x[1..], z + [false]);
    }
  }

  lemma {:induction false} FeedConcat(p: Word, c: Word, x: seq<bool>, y: seq<bool>)
    ensures Feed(p, c, x + y) == Feed(p, Feed(p, c, x), y)
    decreases |x|
  {
    if x == [] {
      assert x + y == y;
    } else {
      assert (x + y)[1..] == x[1..] + y;
      FeedConcat(p, FeedBit(p, c, x[0]), x[1..], y);
    }
  }

  /** Feeding bytes is feeding the bit stream. */
  lemma {:induction false} RegisterIsFeed(p: Word, c: Word, data: seq<byte>)
    ensures Register(p, c, data) == Feed(p, c, Stream(data))
    decreases |data|
  {
    if data == [] {
    } else {
      var x := BitsOf(data[0], 8);
      assert Pow2(8) == 256;
      Extended(data[0], 8, 24);
      FeedWord(p, c, x, Zeros(24));
      FeedConcat(p, c, x, Stream(data[1..]));
      RegisterIsFeed(p, Feed(p, c, x), data[1..]);
    }
  }

  // ---- Every step can be undone --------------------------------------------------------------------

  lemma ShiftInjective(p: Word, a: Word, b: Word)
    requires p[31] && Shift(p, a) == Shift(p, b)
    ensures a == b
  {
    var s := Shift(p, a);
    assert s[31] == a[0] && s[31] == b[0];
    forall i | 0 < i < 32 ensures a[i] == b[i] {
      assert s[i - 1] == (a[i] != (a[0] && p[i - 1]));
      assert s[i - 1] == (b[i] != (b[0] && p[i - 1]));
    }
  }

  lemma {:induction false} ShiftsInjective(p: Word, a: Word, b: Word, n: nat)
    requires p[31] && Shifts(p, a, n) == Shifts(p, b, n)
    ensures a == b
    decreases n
  {
    if n == 0 {
    } else {
      ShiftsInjective(p, Shift(p, a), Shift(p, b), n - 1);
      ShiftInjective(p, a, b);
    }
  }

  lemma {:induction false} FeedInjective(p: Word, a: Word, b: Word, bits: seq<bool>)
    requires p[31] && Feed(p, a, bits) == Feed(p, b, bits)
    ensures a == b
    decreases |bits|
  {
    if bits == [] {
    } else {
      var x := bits[0];
      FeedInjective(p, FeedBit(p, a, x), FeedBit(p, b, x), bits[1..]);
      var a', b' := a[0 := a[0] != x], b[0 := b[0] != x];
      ShiftInjective(p, a', b');
      assert a'[0] == b'[0];
      forall i | 0 < i < 32 ensures a[i] == b[i] { assert a'[i] == b'[i]; }
    }
  }

  lemma XorCancel(a: seq<bool>, b: seq<bool>, c: seq<bool>)
    requires |a| == |b| == |c| && Xor(c, a) == Xor(c, b)
    ensures a == b
  {
    forall i | 0 <= i < |a| ensures a[i] == b[i] {
      assert Xor(c, a)[i] == Xor(c, b)[i];
    }
  }

  // ---- Error detection ---------------------------------------------------------------------------------

  /** A change of up to 32 consecutive bits changes the register, whatever comes before and after. */
  lemma ChangeDetected(p: Word, c: Word, u: seq<bool>, x: seq<bool>, y: seq<bool>, v: seq<bool>)
    requires p[31] && |x| == |y| <= 32 && Feed(p, c, u + x + v) == Feed(p, c, u + y + v)
    ensures x == y
  {
    FeedConcat(p, c, u, x);
    FeedConcat(p, c, u, y);
    FeedConcat(p, c, u + x, v);
    FeedConcat(p, c, u + y, v);
    var d, z := Feed(p, c, u), Zeros(32 - |x|);
    FeedInjective(p, Feed(p, d, x), Feed(p, d, y), v);
    FeedWord(p, d, x, z);
    FeedWord(p, d, y, z);
    ShiftsInjective(p, Xor(d, x + z), Xor(d, y + z), |x|);
    XorCancel(x + z, y + z, d);
    assert x == (x + z)[..|x|] && y == (y + z)[..|x|];
  }

  lemma {:induction false} StreamInjective(a: seq<byte>, b: seq<byte>)
    requires |a| == |b| && Stream(a) == Stream(b)
    ensures a == b
    decreases |a|
  {
    if a == [] {
    } else {
      var s := Stream(a);
      assert s[..8] == BitsOf(a[0], 8) && s[8..] == Stream(a[1..]);
      assert s[..8] == BitsOf(b[0], 8) && s[8..] == Stream(b[1..]);
      assert Pow2(8) == 256;
      ValueOfBits(a[0], 8);
      ValueOfBits(b[0], 8);
      StreamInjective(a[1..], b[1..]);
    }
  }

  lemma CrcInjective(a: Word, b: Word)
    requires Value(Xor(a, Ones())) == Value(Xor(b, Ones()))
    ensures a == b
  {
    BitsOfValue(Xor(a, Ones()));
    BitsOfValue(Xor(b, Ones()));
    forall i | 0 <= i < 32 ensures a[i] == b[i] {
      assert Xor(a, Ones())[i] == Xor(b, Ones())[i];
    }
  }

  lemma {:induction false} TopBit(n: nat, len: nat)
    requires len > 0 && Pow2(len - 1) <= n < Pow2(len)
    ensures BitsOf(n, len)[len - 1]
    decreases len
  {
    if len <= 1 {
    } else {
      TopBit(n / 2, len - 1);
    }
  }

  /** The polynomial has its highest bit, which is what lets a step be undone. */
  lemma TopOfPolynomial()
    ensures Polynomial()[31]
  {
    assert Pow2(8) == 0x100;
    assert Pow2(16) == 0x1_0000;
    assert Pow2(24) == 0x100_0000;
    assert Pow2(31) == 0x8000_0000;
    TopBit(POLYNOMIAL, 32);
  }

  /** Two messages of one length whose bits differ, but only within 32 consecutive ones, differ in checksum. */
  lemma BurstDetected(a: seq<byte>, b: seq<byte>, k: nat)
    requires |a| == |b| && a != b
    requires forall i | 0 <= i < 8 * |a| && !(k <= i < k + 32) :: Stream(a)[i] == Stream(b)[i]
    ensures Crc32(a) != Crc32(b)
  {
    if Crc32(a) == Crc32(b) {
      TopOfPolynomial();
      SameFeed(Polynomial(), a, b, k);
    }
  }

  lemma SameFeed(p: Word, a: seq<byte>, b: seq<byte>, k: nat)
    requires p[31] && |a| == |b|
    requires forall i | 0 <= i < 8 * |a| && !(k <= i < k + 32) :: Stream(a)[i] == Stream(b)[i]
    requires Value(Xor(Register(p, Ones(), a), Ones())) == Value(Xor(Register(p, Ones(), b), Ones()))
    ensures a == b
  {
    RegisterIsFeed(p, Ones(), a);
    RegisterIsFeed(p, Ones(), b);
    CrcInjective(Register(p, Ones(), a), Register(p, Ones(), b));
    SameBits(p, Ones(), Stream(a), Stream(b), k);
    StreamInjective(a, b);
  }

  lemma SameBits(p: Word, c: Word, s: seq<bool>, t: seq<bool>, k: nat)
    requires p[31] && |s| == |t| && Feed(p, c, s) == Feed(p, c, t)
    requires forall i | 0 <= i < |s| && !(k <= i < k + 32) :: s[i] == t[i]
    ensures s == t
  {
    if k < |s| {
      var q := if k + 32 <= |s| then k + 32 else |s|;
      assert s == s[..k] + s[k..q] + s[q..];
      assert t == s[..k] + t[k..q] + s[q..];
      ChangeDetected(p, c, s[..k], s[k..q], t[k..q], s[q..]);
      assert s[k..q] == t[k..q];
    }
  }

  /** Two messages of one length that differ, but only within four consecutive bytes, differ in checksum. */
  lemma FourBytesDetected(a: seq<byte>, b: seq<byte>, k: nat)
    requires |a| == |b| && a != b
    requires forall i | 0 <= i < |a| && !(k <= i < k + 4) :: a[i] == b[i]
    ensures Crc32(a) != Crc32(b)
  {
    forall i | 0 <= i < 8 * |a| && !(8 * k <= i < 8 * k + 32) ensures Stream(a)[i] == Stream(b)[i] {
      StreamAt(a, i);
      StreamAt(b, i);
    }
    BurstDetected(a, b, 8 * k);
  }

  lemma {:induction false} StreamAt(a: seq<byte>, i: nat)
    requires i < 8 * |a|
    ensures Stream(a)[i] == BitsOf(a[i / 8], 8)[i % 8]
    decreases |a|
  {
    if i < 8 {
    } else {
      StreamAt(a[1..], i - 8);
      assert (i - 8) / 8 == i / 8 - 1 && (i - 8) % 8 == i % 8;
    }
  }

  /** A change of 33 bits that leaves the register as it was: the polynomial behind its leading term. */
  lemma UnseenChange(p: Word, c: Word, b: bool, x: Word)
    ensures Feed(p, c, [b] + x) == Feed(p, c, [!b] + Xor(x, p))
  {
    var s, t := FeedBit(p, c, b), FeedBit(p, c, !b);
    assert s == Xor(t, p);
    FeedWord(p, s, x, []);
    FeedWord(p, t, Xor(x, p), []);
    assert Xor(s, x + []) == Xor(t, Xor(x, p) + []);
    assert ([b] + x)[1..] == x && ([!b] + Xor(x, p))[1..] == Xor(x, p);
  }

  /** The message with these bits. */
  function BytesOf(s: seq<bool>): (data: seq<byte>)
    requires |s| % 8 == 0
    ensures 8 * |data| == |s|
  {
    if s == [] then []
    else
      ValueBound(s[..8]);
      assert Pow2(8) == 256;
      [Value(s[..8])] + BytesOf(s[8..])
  }

  lemma {:induction false} StreamOfBytes(s: seq<bool>)
    requires |s| % 8 == 0
    ensures Stream(BytesOf(s)) == s
    decreases |s|
  {
    if s == [] {
    } else {
      StreamOfBytes(s[8..]);
      BitsOfValue(s[..8]);
      assert s == s[..8] + s[8..] && BytesOf(s)[1..] == BytesOf(s[8..]);
    }
  }

  lemma FeedAround(p: Word, c: Word, u: seq<bool>, x: seq<bool>, y: seq<bool>, v: seq<bool>)
    requires Feed(p, Feed(p, c, u), x) == Feed(p, Feed(p, c, u), y)
    ensures Feed(p, c, u + x + v) == Feed(p, c, u + y + v)
  {
    FeedConcat(p, c, u, x);
    FeedConcat(p, c, u, y);
    FeedConcat(p, c, u + x, v);
    FeedConcat(p, c, u + y, v);
  }

  /** The bits of a message, with those of the polynomial added behind a turned bit `k`. */
  function Turned(s: seq<bool>, k: nat, p: Word): (t: seq<bool>)
    requires k + 33 <= |s|
    ensures |t| == |s|
  {
    s[..k] + ([!s[k]] + Xor(s[k + 1..k + 33], p)) + s[k + 33..]
  }

  lemma TurnedUnseen(p: Word, c: Word, s: seq<bool>, k: nat)
    requires k + 33 <= |s|
    ensures Feed(p, c, s) == Feed(p, c, Turned(s, k, p))
  {
    var x: Word := s[k + 1..k + 33];
    assert s == s[..k] + ([s[k]] + x) + s[k + 33..];
    UnseenChange(p, Feed(p, c, s[..k]), s[k], x);
    FeedAround(p, c, s[..k], [s[k]] + x, [!s[k]] + Xor(x, p), s[k + 33..]);
  }

  /**
   * 33 bits are one too many: every message has, for every place of 33 consecutive bits in it, another one of its
   * length and checksum that differs from it there only.
   */
  lemma BurstUndetected(a: seq<byte>, k: nat) returns (b: seq<byte>)
    requires k + 33 <= 8 * |a|
    ensures |b| == |a| && b != a && Crc32(b) == Crc32(a)
    ensures forall i | 0 <= i < 8 * |a| && !(k <= i < k + 33) :: Stream(b)[i] == Stream(a)[i]
  {
    var p, s := Polynomial(), Stream(a);
    b := BytesOf(Turned(s, k, p));
    StreamOfBytes(Turned(s, k, p));
    assert Stream(b)[k] != s[k];
    TurnedUnseen(p, Ones(), s, k);
    SameRegister(p, a, b);
  }

  lemma SameRegister(p: Word, a: seq<byte>, b: seq<byte>)
    requires Feed(p, Ones(), Stream(a)) == Feed(p, Ones(), Stream(b))
    ensures Register(p, Ones(), a) == Register(p, Ones(), b)
  {
    RegisterIsFeed(p, Ones(), a);
    RegisterIsFeed(p, Ones(), b);
  }

  // ---- The loops ------------------------------------------------------------------------------------------

  method ShiftOut(p: Word, c: Word) returns (crc: Word)
    ensures crc == Shifts(p, c, 8)
  {
    crc := c;
    for k := 0 to 8
      invariant Shifts(p, c, 8) == Shifts(p, crc, 8 - k)
    {
      var down := crc[1..] + [false];
      crc := if crc[0] then Xor(down, p) else down;
    }
  }

  method Compute(data: seq<byte>) returns (r: nat)
    ensures r == Crc32(data)
  {
    var p := Polynomial();
    var crc: Word := Ones();
    for i := 0 to |data|
      invariant Register(p, Ones(), data) == Register(p, crc, data[i..])
    {
      assert data[i..][0] == data[i] && data[i..][1..] == data[i + 1..];
      crc := ShiftOut(p, Xor(crc, BitsOf(data[i], 32)));
    }
    r := Value(Xor(crc, Ones()));
  }
}
