/** Powers of two and the bitwise `&` of natural numbers. */
module Bits {

  function Pow2(n: nat): (p: nat)
    ensures p >= 1
  {
    if n == 0 then 1 else 2 * Pow2(n - 1)
  }

  /** Bitwise and, least significant bit last. */
  function And(a: nat, b: nat): nat
    decreases a
  {
    if a == 0 || b == 0 then 0 else 2 * And(a / 2, b / 2) + (if a % 2 == 1 && b % 2 == 1 then 1 else 0)
  }

  /** Bitwise exclusive or. */
  function Xor(a: nat, b: nat): nat
    decreases a + b
  {
    if a == 0 then b else if b == 0 then a
    else 2 * Xor(a / 2, b / 2) + (if a % 2 != b % 2 then 1 else 0)
  }

  /** The only quotient and remainder of a division. */
  lemma DivModUnique(a: int, m: int, q: int, r: int)
    requires m > 0 && 0 <= r < m && a == m * q + r
    ensures a / m == q && a % m == r
  {
    var q', r' := a / m, a % m;
    assert a == m * q' + r';
    assert m * (q - q') == r' - r;
    if q < q' {
      MulMono(m, q - q', -1);
    } else if q > q' {
      MulMono(m, 1, q - q');
    }
  }

  lemma MulMono(m: int, a: int, b: int)
    requires m >= 0 && a <= b
    ensures m * a <= m * b
  {
    assert m * (b - a) >= 0;
  }

  lemma ModDouble(a: nat, h: nat)
    requires h > 0
    ensures a % (2 * h) == 2 * ((a / 2) % h) + a % 2
  {
    var q, m := (a / 2) / h, (a / 2) % h;
    assert a / 2 == h * q + m;
    assert (2 * h) * q == 2 * (h * q);
    DivModUnique(a, 2 * h, q, 2 * m + a % 2);
  }

  lemma AndStep(a: nat, h: nat)
    requires h > 0 && And(a / 2, h - 1) == (a / 2) % h
    ensures And(a, 2 * h - 1) == a % (2 * h)
  {
    var b := 2 * h - 1;
    assert b / 2 == h - 1 && b % 2 == 1;
    ModDouble(a, h);
  }

  /** Masking with `2^n - 1` is reduction modulo `2^n`. */
  lemma {:induction false} AndMask(a: nat, n: nat)
    ensures And(a, Pow2(n) - 1) == a % Pow2(n)
    decreases n
  {
    if n == 0 {
    } else {
      AndMask(a / 2, n - 1);
      AndStep(a, Pow2(n - 1));
    }
  }
}
