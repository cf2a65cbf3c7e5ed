/**
 * What the checksum is, apart from the way it is computed: the remainder of a division of polynomials over GF(2) by
 * the generator of IEEE 802.3. A polynomial is the sequence of its coefficients, highest first.
 */
module CrcDivision {
  import Bits
  import opened Bytes
  import opened Crc

  /** x^26 + x^23 + x^22 + x^16 + x^12 + x^11 + x^10 + x^8 + x^7 + x^5 + x^4 + x^2 + x + 1, below the leading x^32. */
  const IEEE_GENERATOR: nat := 0x04C1_1DB7

  /** The low `len` bits of a number, highest first. */
  function HighFirst(n: nat, len: nat): (s: seq<bool>)
    ensures |s| == len
  {
    if len == 0 then [] else HighFirst(n / 2, len - 1) + [n % 2 == 1]
  }

  function Generator(): (g: seq<bool>)
    ensures |g| == 33
  {
    [true] + HighFirst(IEEE_GENERATOR, 32)
  }

  // ---- Division -------------------------------------------------------------------------------

  /** The first term of a product: `g` times the coefficient `b`, in front of `n` more places. */
  function Term(b: bool, g: seq<bool>, n: nat): (s: seq<bool>)
    requires |g| == 33
    ensures |s| == 33 + n
  {
    (if b then g else Zeros(33)) + Zeros(n)
  }

  /** The product of two polynomials, the second of degree 32. */
  function Product(q: seq<bool>, g: seq<bool>): (s: seq<bool>)
    requires |g| == 33
    ensures |s| == |q| + 32
  {
    if q == [] then Zeros(32) else Xor(Term(q[0], g, |q| - 1), [false] + Product(q[1..], g))
  }

  /** `m` is `q` times `g` plus `r`. */
  predicate Divides(m: seq<bool>, g: seq<bool>, q: seq<bool>, r: Word)
    requires |g| == 33
  {
    |m| == |q| + 32 && m == Xor(Product(q, g), Zeros(|q|) + r)
  }

  ghost predicate IsRemainder(m: seq<bool>, g: seq<bool>, r: Word)
    requires |g| == 33
  {
    exists q :: Divides(m, g, q, r)
  }

  /** `m` without its first place, after taking away `g` there if it is set: one step of long division. */
  function Reduced(m: seq<bool>, g: seq<bool>): (s: seq<bool>)
    requires |g| == 33 <= |m|
    ensures |s| == |m| - 1
  {
    Xor(m, Term(m[0], g, |m| - 33))[1..]
  }

  /** A division is its first step and the division of what is left. */
  lemma DividesStep(m: seq<bool>, g: seq<bool>, q: seq<bool>, r: Word)
    requires |g| == 33 && g[0] && q != [] && |m| == |q| + 32
    ensures Divides(m, g, q, r) <==> q[0] == m[0] && Divides(Reduced(m, g), g, q[1..], r)
  {
    var n := |q| - 1;
    var rest := Product(q[1..], g);
    var t, whole := Term(q[0], g, n), Xor(Product(q, g), Zeros(|q|) + r);
    assert forall i | 0 <= i < |m| :: whole[i] == ((t[i] != ([false] + rest)[i]) != (Zeros(|q|) + r)[i]);
    assert whole[0] == q[0];
    var left := Xor(rest, Zeros(n) + r);
    assert forall i | 0 <= i < |m| - 1 :: whole[i + 1] == (t[i + 1] != left[i]);
    if q[0] == m[0] {
      var d := Reduced(m, g);
      assert forall i | 0 <= i < |m| - 1 :: d[i] == (m[i + 1] != t[i + 1]);
      if d == left {
        assert forall i | 0 <= i < |m| :: m[i] == whole[i] by {
          forall i | 0 <= i < |m| ensures m[i] == whole[i] {
            if i > 0 { assert d[i - 1] == left[i - 1]; }
          }
        }
      }
      if m == whole {
        assert forall i | 0 <= i < |m| - 1 :: d[i] == left[i] by {
          forall i | 0 <= i < |m| - 1 ensures d[i] == left[i] { assert m[i + 1] == whole[i + 1]; }
        }
      }
    }
  }

  /** There is at most one remainder. */
  lemma {:induction false} RemainderUnique(m: seq<bool>, g: seq<bool>, q: seq<bool>, q': seq<bool>, r: Word, r': Word)
    requires |g| == 33 && g[0] && Divides(m, g, q, r) && Divides(m, g, q', r')
    ensures q == q' && r == r'
    decreases |q|
  {
    if q == [] {
      assert Xor(Zeros(32), [] + r) == r && Xor(Zeros(32), [] + r') == r';
    } else {
      DividesStep(m, g, q, r);
      DividesStep(m, g, q', r');
      RemainderUnique(Reduced(m, g), g, q[1..], q'[1..], r, r');
    }
  }

  // ---- The register divides -------------------------------------------------------------------

  /** A stream followed by 32 zeros, with `c` added to its first 32 bits. */
  function Padded(c: Word, s: seq<bool>): (m: seq<bool>)
    ensures |m| == |s| + 32
  {
    Xor(s + Zeros(32), c + Zeros(|s|))
  }

  /** Feeding a bit is a step of long division by the polynomial of the register. */
  lemma FeedReduces(p: Word, c: Word, s: seq<bool>)
    requires s != []
    ensures Reduced(Padded(c, s), [true] + p) == Padded(FeedBit(p, c, s[0]), s[1..])
  {
    var n := |s| - 1;
    var m, g := Padded(c, s), [true] + p;
    assert m[0] == (s[0] != c[0]);
    var d := c[0 := c[0] != s[0]];
    var down := d[1..] + [false];
    var c' := FeedBit(p, c, s[0]);
    assert forall i | 0 <= i < 32 :: c'[i] == (down[i] != (m[0] && p[i]));
    var a, b, t := s + Zeros(32), c + Zeros(|s|), Term(m[0], g, n);
    var a', b' := s[1..] + Zeros(32), c' + Zeros(n);
    forall i | 0 <= i < n + 32 ensures Reduced(m, g)[i] == Padded(c', s[1..])[i] {
      assert a'[i] == a[i + 1];
      assert Reduced(m, g)[i] == (m[i + 1] != t[i + 1]);
      if i < 32 {
        assert t[i + 1] == (m[0] && p[i]);
        assert b[i + 1] == down[i];
      } else {
        assert !t[i + 1] && !b[i + 1] && !b'[i];
      }
    }
  }

  /** The register is the remainder of what was fed, by its polynomial behind a leading term. */
  lemma {:induction false} FeedDivides(p: Word, c: Word, s: seq<bool>) returns (q: seq<bool>)
    ensures Divides(Padded(c, s), [true] + p, q, Feed(p, c, s))
    decreases |s|
  {
    var m, g := Padded(c, s), [true] + p;
    if s == [] {
      q := [];
      assert m == c && Xor(Zeros(32), [] + c) == c;
    } else {
      var rest := FeedDivides(p, FeedBit(p, c, s[0]), s[1..]);
      q := [m[0]] + rest;
      assert q[1..] == rest;
      FeedReduces(p, c, s);
      DividesStep(m, g, q, Feed(p, c, s));
    }
  }

  // ---- The generator --------------------------------------------------------------------------

  lemma {:induction false} BitsJoin(y: nat, x: nat, k: nat, len: nat, n: nat)
    requires y < Bits.Pow2(k) && n == y + Bits.Pow2(k) * x
    ensures BitsOf(n, k + len) == BitsOf(y, k) + BitsOf(x, len)
    decreases k
  {
    if k == 0 {
    } else {
      var h := Bits.Pow2(k - 1) * x;
      assert n == y + 2 * h;
      BitsJoin(y / 2, x, k - 1, len, n / 2);
    }
  }

  lemma {:induction false} HighJoin(x: nat, y: nat, len: nat, k: nat, n: nat)
    requires y < Bits.Pow2(k) && n == y + Bits.Pow2(k) * x
    ensures HighFirst(n, len + k) == HighFirst(x, len) + HighFirst(y, k)
    decreases k
  {
    if k == 0 {
    } else {
      var h := Bits.Pow2(k - 1) * x;
      assert n == y + 2 * h;
      HighJoin(x, y / 2, len, k - 1, n / 2);
    }
  }

  /** The lowest bits of `p` are the coefficients of `g`, highest first. */
  predicate Mirrored(p: nat, g: nat, len: nat) { BitsOf(p, len) == HighFirst(g, len) }

  /** The same, with room for exactly `len` coefficients below `w`. */
  predicate MirroredBelow(p: nat, g: nat, len: nat, w: nat) { Mirrored(p, g, len) && w == Bits.Pow2(len) && g < w }

  lemma Nibble(a: bool, b: bool, c: bool, d: bool, y: nat, t: nat, k: nat)
    requires k == 4
    requires y == (if a then 1 else 0) + (if b then 2 else 0) + (if c then 4 else 0) + (if d then 8 else 0)
    requires t == (if a then 8 else 0) + (if b then 4 else 0) + (if c then 2 else 0) + (if d then 1 else 0)
    ensures Mirrored(y, t, k)
  {
    var y1, y2, y3 := y / 2, y / 4, y / 8;
    assert BitsOf(y3, k - 3) == [d] + BitsOf(y3 / 2, k - 4);
    assert BitsOf(y2, k - 2) == [c] + BitsOf(y3, k - 3);
    assert BitsOf(y1, k - 1) == [b] + BitsOf(y2, k - 2);
    assert BitsOf(y, k) == [a, b, c, d];
    var t1, t2, t3 := t / 2, t / 4, t / 8;
    assert HighFirst(t3, k - 3) == HighFirst(t3 / 2, k - 4) + [a];
    assert HighFirst(t2, k - 2) == HighFirst(t3, k - 3) + [b];
    assert HighFirst(t1, k - 1) == HighFirst(t2, k - 2) + [c];
    assert HighFirst(t, k) == [a, b, c, d];
  }

  /** Four more bits, in front of the coefficients and below the bits. */
  lemma MirrorOn(a: bool, b: bool, c: bool, d: bool, x: nat, h: nat, len: nat, w: nat, p: nat, g: nat, k: nat)
    requires MirroredBelow(x, h, len, w) && k == 4
    requires p == (if a then 1 else 0) + (if b then 2 else 0) + (if c then 4 else 0) + (if d then 8 else 0) + 16 * x
    requires g == h + (if a then 8 * w else 0) + (if b then 4 * w else 0) + (if c then 2 * w else 0) +
                  if d then w else 0
    ensures MirroredBelow(p, g, k + len, 16 * w)
  {
    var y := (if a then 1 else 0) + (if b then 2 else 0) + (if c then 4 else 0) + if d then 8 else 0;
    var t := (if a then 8 else 0) + (if b then 4 else 0) + (if c then 2 else 0) + if d then 1 else 0;
    Nibble(a, b, c, d, y, t, k);
    assert Bits.Pow2(k) == 16 by { assert Bits.Pow2(k - 2) == 4; }
    PowersAdd(k, len);
    assert w * t == (if a then 8 * w else 0) + (if b then 4 * w else 0) + (if c then 2 * w else 0) + if d then w else 0;
    BitsJoin(y, x, k, len, p);
    HighJoin(t, h, k, len, g);
  }

  lemma {:induction false} PowersAdd(a: nat, b: nat)
    ensures Bits.Pow2(a + b) == Bits.Pow2(a) * Bits.Pow2(b)
    decreases a
  {
    if a == 0 {
    } else {
      PowersAdd(a - 1, b);
    }
  }

  /** The two constants, four bits at a time: 0xEDB8_8320 from the top, 0x04C1_1DB7 from the bottom. */
  lemma HalfMirrored(p: nat, g: nat, k: nat)
    requires p == POLYNOMIAL && g == IEEE_GENERATOR && k == 4
    ensures MirroredBelow(p / 0x1_0000, g % 0x1_0000, 4 * k, 0x1_0000)
  {
    MirrorOn(false, true, true, true, 0, 0, 0, 1, p / 0x1000_0000, g % 0x10, k);
    MirrorOn(true, false, true, true, p / 0x1000_0000, g % 0x10, k, 0x10, p / 0x100_0000, g % 0x100, k);
    MirrorOn(true, true, false, true, p / 0x100_0000, g % 0x100, 2 * k, 0x100, p / 0x10_0000, g % 0x1000, k);
    MirrorOn(false, false, false, true, p / 0x10_0000, g % 0x1000, 3 * k, 0x1000, p / 0x1_0000, g % 0x1_0000, k);
  }

  lemma FiveMirrored(p: nat, g: nat, k: nat)
    requires p == POLYNOMIAL && g == IEEE_GENERATOR && k == 4
    ensures MirroredBelow(p / 0x1000, g % 0x10_0000, 5 * k, 0x10_0000)
  {
    HalfMirrored(p, g, k);
    MirrorOn(false, false, false, true, p / 0x1_0000, g % 0x1_0000, 4 * k, 0x1_0000, p / 0x1000, g % 0x10_0000, k);
  }

  lemma SixMirrored(p: nat, g: nat, k: nat)
    requires p == POLYNOMIAL && g == IEEE_GENERATOR && k == 4
    ensures MirroredBelow(p / 0x100, g % 0x100_0000, 6 * k, 0x100_0000)
  {
    FiveMirrored(p, g, k);
    MirrorOn(true, true, false, false, p / 0x1000, g % 0x10_0000, 5 * k, 0x10_0000, p / 0x100, g % 0x100_0000, k);
  }

  lemma GeneratorMirrored(p: nat, g: nat, k: nat)
    requires p == POLYNOMIAL && g == IEEE_GENERATOR && k == 4
    ensures Mirrored(p, g, 8 * k)
  {
    SixMirrored(p, g, k);
    MirrorOn(false, true, false, false, p / 0x100, g % 0x100_0000, 6 * k, 0x100_0000, p / 0x10, g % 0x1000_0000, k);
    MirrorOn(false, false, false, false, p / 0x10, g % 0x1000_0000, 7 * k, 0x1000_0000, p, g, k);
  }

  /** The constant in the code holds the coefficients of the generator, highest in its lowest bit. */
  lemma PolynomialIsGenerator()
    ensures [true] + Polynomial() == Generator()
  {
    GeneratorMirrored(POLYNOMIAL, IEEE_GENERATOR, 4);
  }

  // ---- The checksum ---------------------------------------------------------------------------

  /**
   * For every message: the complement of the checksum, its lowest bit first, is the remainder of the message's bits
   * followed by 32 zeros, with ones added to the first 32, divided by the IEEE 802.3 generator.
   */
  lemma CrcIsRemainder(data: seq<byte>, r: Word)
    ensures IsRemainder(Padded(Ones(), Stream(data)), Generator(), r) <==> Crc32(data) == Value(Xor(r, Ones()))
  {
    var p, s := Polynomial(), Stream(data);
    PolynomialIsGenerator();
    RegisterIsFeed(p, Ones(), data);
    var q := FeedDivides(p, Ones(), s);
    var c := Feed(p, Ones(), s);
    if q' :| Divides(Padded(Ones(), s), Generator(), q', r) {
      RemainderUnique(Padded(Ones(), s), Generator(), q, q', c, r);
    }
    if Crc32(data) == Value(Xor(r, Ones())) {
      CrcInjective(c, r);
      assert Divides(Padded(Ones(), s), Generator(), q, r);
    }
  }
}
