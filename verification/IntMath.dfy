/** Integer square root and power of the math library, on 64-bit words. */
module IntMath {
  import Bits

  const U64: nat := 0x1_0000_0000_0000_0000
  /** An unsigned 64-bit word: a value that does not fit is an overflow. */
  type Word = x: int | 0 <= x < 0x1_0000_0000_0000_0000

  const I64_MIN: int := -0x8000_0000_0000_0000

  // ---- Square root -------------------------------------------------------------------------

  /** A number has one integer root. */
  lemma RootUnique(r: nat, s: nat, x: nat)
    requires r * r <= x < (r + 1) * (r + 1) && s * s <= x < (s + 1) * (s + 1)
    ensures r == s
  {
    if r < s { SquareMono(r + 1, s); }
    if s < r { SquareMono(s + 1, r); }
  }

  lemma SquareMono(a: nat, b: nat)
    requires a <= b
    ensures a * a <= b * b
  {
    assert b * b - a * a == (b - a) * (b + a);
  }

  lemma MeanSquare(a: int, b: int)
    ensures 4 * a * b <= (a + b) * (a + b)
  {
    assert (a + b) * (a + b) - 4 * a * b == (a - b) * (a - b);
  }

  lemma Quotient(x: nat, g: nat)
    requires g > 0
    ensures x / g * g <= x < (x / g + 1) * g
  {
  }

  /** Newton's step never falls below the root. */
  lemma StepAbove(x: nat, g: nat, q: nat, h: nat)
    requires g > 0 && q * g <= x < (q + 1) * g && h == (q + g) / 2
    ensures x < (h + 1) * (h + 1)
  {
    MeanSquare(g, q + 1);
    SquareMono(q + g + 1, 2 * (h + 1));
    assert 4 * x < 4 * (q + 1) * g;
    assert (2 * (h + 1)) * (2 * (h + 1)) == 4 * ((h + 1) * (h + 1));
  }

  /** When the step no longer goes down, the guess is not above the root. */
  lemma StepStops(x: nat, g: nat, q: nat)
    requires g > 0 && q * g <= x && (q + g) / 2 >= g
    ensures g * g <= x
  {
    assert q + g >= 2 * g;
    Bits.MulMono(g, g, q);
  }

  /** A guess of 1 that is not below the root means a small number, so the sum fits the word. */
  lemma SumFits(x: nat, g: nat, q: nat)
    requires 0 < g <= 0x8000_0000_0000_0000 && x < U64 && (g == 1 ==> x < 4) && q * g <= x
    ensures q + g < U64
  {
    if g > 1 { Bits.MulMono(q, 2, g); }
  }

  method SqrtInt(x: Word) returns (guess: Word)
    ensures guess * guess <= x < (guess + 1) * (guess + 1)
  {
    if x == 0 { return 0; }
    guess := x;
    var result: Word := x / 2 + x % 2;
    HalfAbove(x, result);
    while result < guess
      invariant 0 < result && 0 < guess < U64 && result <= 0x8000_0000_0000_0000
      invariant x < (result + 1) * (result + 1) && x < (guess + 1) * (guess + 1)
      invariant result >= guess ==> guess * guess <= x
      decreases guess
    {
      guess := result;
      var q: Word := x / guess;
      Quotient(x, guess);
      SumFits(x, guess, q);
      var sum: Word := q + guess;
      result := sum / 2;
      StepAbove(x, guess, q, result);
      if result >= guess { StepStops(x, guess, q); }
      NotZero(x, result);
    }
  }

  /** Half of the number, rounded up, is not below the root. */
  lemma HalfAbove(x: nat, h: nat)
    requires 0 < x < U64 && h == (x + 1) / 2
    ensures 0 < h <= 0x8000_0000_0000_0000 && x < (h + 1) * (h + 1) && x < (x + 1) * (x + 1)
    ensures h >= x ==> x * x <= x
  {
    assert (h + 1) * (h + 1) == h * h + 2 * h + 1;
    assert (x + 1) * (x + 1) == x * x + 2 * x + 1;
    assert h >= x ==> x == 1;
  }

  lemma NotZero(x: nat, h: nat)
    requires 0 < x < (h + 1) * (h + 1)
    ensures h > 0
  {
  }

  // ---- Power ------------------------------------------------------------------------------------

  function Pow(b: int, e: nat): int { if e == 0 then 1 else b * Pow(b, e - 1) }

  /** The laws of the power. */
  lemma {:induction false} PowLaws(b: int, m: nat, n: nat)
    ensures Pow(b, 0) == 1 && Pow(b, 1) == b && Pow(b, m + n) == Pow(b, m) * Pow(b, n)
    decreases m
  {
    if m == 0 {
    } else {
      PowLaws(b, m - 1, n);
      Associate(b, Pow(b, m - 1), Pow(b, n));
    }
  }

  /** The value of the low 64 bits as a signed number. */
  function Wrap(n: int): (w: int)
    ensures -0x8000_0000_0000_0000 <= w < 0x8000_0000_0000_0000
    ensures -0x8000_0000_0000_0000 <= n < 0x8000_0000_0000_0000 ==> w == n
    ensures (n - w) % 0x1_0000_0000_0000_0000 == 0
  {
    (n - I64_MIN) % U64 + I64_MIN
  }

  lemma WrapShift(n: int, k: int)
    ensures Wrap(n + k * U64) == Wrap(n)
  {
    var a := n - I64_MIN;
    var q, r := a / U64, a % U64;
    assert a + k * U64 == (q + k) * U64 + r;
  }

  lemma WrapMul(a: int, b: int)
    ensures Wrap(Wrap(a) * b) == Wrap(a * b)
  {
    var k := (a - I64_MIN) / U64;
    assert a == Wrap(a) + k * U64;
    assert a * b == Wrap(a) * b + (k * b) * U64;
    WrapShift(Wrap(a) * b, k * b);
  }

  lemma {:induction false} PowSquare(b: int, n: nat)
    ensures Pow(b * b, n) == Pow(b, 2 * n)
    decreases n
  {
    if n == 0 {
    } else {
      PowSquare(b, n - 1);
      assert Pow(b, 2 * n) == b * Pow(b, 2 * n - 1);
      assert Pow(b, 2 * n - 1) == b * Pow(b, 2 * n - 2);
      assert b * (b * Pow(b, 2 * n - 2)) == (b * b) * Pow(b, 2 * n - 2);
    }
  }

  lemma Associate(a: int, b: int, c: int)
    ensures (a * b) * c == a * (b * c)
  {
  }

  lemma Swap(a: int, b: int, c: int)
    ensures (a * b) * c == b * (a * c)
  {
    Associate(b, a, c);
  }

  /** Cutting the base does not change the cut power. */
  lemma {:induction false} PowWrap(c: int, b: int, e: nat)
    ensures Wrap(c * Pow(Wrap(b), e)) == Wrap(c * Pow(b, e))
    decreases e
  {
    if e == 0 {
    } else {
      var w, q := Wrap(b), Pow(b, e - 1);
      Associate(c, w, Pow(w, e - 1));
      PowWrap(c * w, b, e - 1);
      Swap(c, w, q);
      WrapMul(b, c * q);
      Swap(c, b, q);
      Associate(c, b, q);
    }
  }

  lemma PowOdd(result: int, b: int, h: nat, e: nat)
    requires e == 2 * h + 1
    ensures Wrap(Wrap(result * b) * Pow(Wrap(b * b), h)) == Wrap(result * Pow(b, e))
  {
    var p := Pow(b * b, h);
    PowWrap(Wrap(result * b), b * b, h);
    WrapMul(result * b, p);
    PowSquare(b, h);
    Associate(result, b, p);
  }

  lemma PowEven(result: int, b: int, h: nat, e: nat)
    requires e == 2 * h
    ensures Wrap(result * Pow(Wrap(b * b), h)) == Wrap(result * Pow(b, e))
  {
    PowWrap(result, b * b, h);
    PowSquare(b, h);
  }

  method PowInt(base: int, exp: nat) returns (result: int)
    requires I64_MIN <= base < I64_MIN + U64
    ensures result == Wrap(Pow(base, exp))
  {
    result := 1;
    var b, e := base, exp;
    while e > 0
      invariant 0 <= e && I64_MIN <= result < I64_MIN + U64
      invariant Wrap(result * Pow(b, e)) == Wrap(Pow(base, exp))
      decreases e
    {
      if e % 2 == 1 {
        PowOdd(result, b, e / 2, e);
        result := Wrap(result * b);
      } else {
        PowEven(result, b, e / 2, e);
      }
      b := Wrap(b * b);
      e := e / 2;
    }
  }
}
