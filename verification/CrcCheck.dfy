/** The checksum's check value, on the register as a machine word. */
module CrcCheck {
  import Bits
  import opened Bytes
  import opened Crc
  import opened CrcDivision

  /** The low `n` bits of a machine word, lowest first. */
  function BitsIn(v: bv32, n: nat): (s: seq<bool>)
    ensures |s| == n
  {
    if n == 0 then [] else [v & 1 == 1] + BitsIn(v >> 1, n - 1)
  }

  lemma XorDown(a: bv32, b: bv32)
    ensures (a ^ b) >> 1 == (a >> 1) ^ (b >> 1)
    ensures (a ^ b) & 1 == 1 <==> (a & 1 == 1) != (b & 1 == 1)
  {
  }

  lemma {:induction false} XorIn(a: bv32, b: bv32, n: nat)
    ensures Xor(BitsIn(a, n), BitsIn(b, n)) == BitsIn(a ^ b, n)
    decreases n
  {
    if n == 0 {
    } else {
      XorIn(a >> 1, b >> 1, n - 1);
      XorDown(a, b);
      XorCons(a & 1 == 1, b & 1 == 1, BitsIn(a >> 1, n - 1), BitsIn(b >> 1, n - 1));
    }
  }

  lemma XorCons(x: bool, y: bool, s: seq<bool>, t: seq<bool>)
    requires |s| == |t|
    ensures Xor([x] + s, [y] + t) == [x != y] + Xor(s, t)
  {
  }

  /** What is left of a word above its low `n` bits. */
  function Above(v: bv32, n: nat): bv32
    decreases n
  {
    if n == 0 then v else Above(v >> 1, n - 1)
  }

  lemma {:induction false} NothingAbove(v: bv32, n: nat)
    requires Above(v, n) == 0
    ensures BitsIn(v, n + 1) == BitsIn(v, n) + [false]
    decreases n
  {
    if n == 0 {
      assert BitsIn(v >> 1, 0) == [];
    } else {
      NothingAbove(v >> 1, n - 1);
    }
  }

  lemma AboveFour(v: bv32, w: bv32, n: nat)
    requires n >= 4 && v >> 1 >> 1 >> 1 >> 1 == w
    ensures Above(v, n) == Above(w, n - 4)
  {
    assert Above(v, n) == Above(v >> 1 >> 1, n - 2);
    assert Above(v >> 1 >> 1, n - 2) == Above(v >> 1 >> 1 >> 1 >> 1, n - 4);
  }

  lemma AboveEnd(w: bv32, n: nat)
    requires n == 3 && w >> 1 >> 1 >> 1 == 0
    ensures Above(w, n) == 0
  {
    assert Above(w >> 1 >> 1, n - 2) == Above(w >> 1 >> 1 >> 1, n - 3);
  }

  lemma Above5(v: bv32, n: nat)
    requires n >= 4
    ensures Above(v >> 1, n) == Above(v >> 5, n - 4)
  {
    AboveFour(v >> 1, v >> 5, n);
  }

  lemma Above9(v: bv32, n: nat)
    requires n >= 4
    ensures Above(v >> 5, n) == Above(v >> 9, n - 4)
  {
    AboveFour(v >> 5, v >> 9, n);
  }

  lemma Above13(v: bv32, n: nat)
    requires n >= 4
    ensures Above(v >> 9, n) == Above(v >> 13, n - 4)
  {
    AboveFour(v >> 9, v >> 13, n);
  }

  lemma Above17(v: bv32, n: nat)
    requires n >= 4
    ensures Above(v >> 13, n) == Above(v >> 17, n - 4)
  {
    AboveFour(v >> 13, v >> 17, n);
  }

  lemma Above21(v: bv32, n: nat)
    requires n >= 4
    ensures Above(v >> 17, n) == Above(v >> 21, n - 4)
  {
    AboveFour(v >> 17, v >> 21, n);
  }

  lemma Above32(v: bv32, n: nat)
    requires n == 11
    ensures Above(v >> 21, n) == 0
  {
    AboveFour(v >> 21, v >> 25, n);
    AboveFour(v >> 25, v >> 29, n - 4);
    AboveEnd(v >> 29, n - 8);
  }

  lemma AboveWord(v: bv32, n: nat)
    requires n == 31
    ensures Above(v >> 1, n) == 0
  {
    Above5(v, n);
    Above9(v, n - 4);
    Above13(v, n - 8);
    Above17(v, n - 12);
    Above21(v, n - 16);
    Above32(v, n - 20);
  }

  /** One turn of the inner loop, as it is coded. */
  function Turn(v: bv32): bv32 { if v & 1 == 1 then (v >> 1) ^ 0xEDB8_8320 else v >> 1 }

  function EightTurns(v: bv32): bv32 { Turn(Turn(Turn(Turn(Turn(Turn(Turn(Turn(v)))))))) }

  lemma TurnIsShift(p: Word, v: bv32, n: nat)
    requires n == 32 && p == BitsIn(0xEDB8_8320, n)
    ensures Shift(p, BitsIn(v, n)) == BitsIn(Turn(v), n)
  {
    AboveWord(v, n - 1);
    NothingAbove(v >> 1, n - 1);
    var c: Word := BitsIn(v, n);
    assert c[1..] + [false] == BitsIn(v >> 1, n);
    XorIn(v >> 1, 0xEDB8_8320, n);
  }

  lemma TurnsAreShifts(p: Word, v: bv32, n: nat)
    requires n == 32 && p == BitsIn(0xEDB8_8320, n)
    ensures Shifts(p, BitsIn(v, n), 8) == BitsIn(EightTurns(v), n)
  {
    var v1 := Turn(v);
    var v2 := Turn(v1);
    var v3 := Turn(v2);
    var v4 := Turn(v3);
    var v5 := Turn(v4);
    var v6 := Turn(v5);
    var v7 := Turn(v6);
    TurnIsShift(p, v, n);
    TurnIsShift(p, v1, n);
    TurnIsShift(p, v2, n);
    TurnIsShift(p, v3, n);
    TurnIsShift(p, v4, n);
    TurnIsShift(p, v5, n);
    TurnIsShift(p, v6, n);
    TurnIsShift(p, v7, n);
    assert Shifts(p, BitsIn(v4, n), 4) == BitsIn(Turn(v7), n) by {
      assert Shifts(p, BitsIn(v6, n), 2) == BitsIn(Turn(v7), n);
    }
    assert Shifts(p, BitsIn(v2, n), 6) == Shifts(p, BitsIn(v4, n), 4);
  }

  // ---- Numbers and words ----------------------------------------------------------------------

  predicate Same(n: nat, v: bv32, len: nat) { BitsOf(n, len) == BitsIn(v, len) }

  lemma {:induction false} SameZero(len: nat)
    ensures Same(0, 0, len)
    decreases len
  {
    if len == 0 {
    } else {
      SameZero(len - 1);
      assert (0 as bv32) >> 1 == 0;
    }
  }

  lemma SameBit(b: bool, x: nat, u: bv32, len: nat, n: nat, v: bv32)
    requires Same(x, u, len) && n == 2 * x + (if b then 1 else 0) && v >> 1 == u && (v & 1 == 1 <==> b)
    ensures Same(n, v, len + 1)
  {
  }

  /** Four more bits below. */
  lemma SameFour(a: bool, b: bool, c: bool, d: bool, x: nat, u: bv32, len: nat, v3: bv32, v2: bv32, v1: bv32, n: nat,
                 v: bv32, k: nat)
    requires Same(x, u, len) && k == 4 && v3 >> 1 == u && v2 >> 1 == v3 && v1 >> 1 == v2 && v >> 1 == v1
    requires n == 16 * x + (if d then 8 else 0) + (if c then 4 else 0) + (if b then 2 else 0) + if a then 1 else 0
    requires (v & 1 == 1 <==> a) && (v1 & 1 == 1 <==> b) && (v2 & 1 == 1 <==> c) && (v3 & 1 == 1 <==> d)
    ensures Same(n, v, len + k)
  {
    var x3 := 2 * x + if d then 1 else 0;
    var x2 := 2 * x3 + if c then 1 else 0;
    var x1 := 2 * x2 + if b then 1 else 0;
    SameBit(d, x, u, len, x3, v3);
    SameBit(c, x3, v3, len + 1, x2, v2);
    SameBit(b, x2, v2, len + 2, x1, v1);
    SameBit(a, x1, v1, len + 3, n, v);
  }

  lemma PolynomialWord(n: nat, k: nat)
    requires n == POLYNOMIAL && k == 4
    ensures Same(n, 0xEDB8_8320, 8 * k)
  {
    SameFour(false, true, true, true, 0, 0, 0, 1, 3, 7, n / 0x1000_0000, 0xE, k);
    SameFour(true, false, true, true, n / 0x1000_0000, 0xE, k, 0x1D, 0x3B, 0x76, n / 0x100_0000, 0xED, k);
    SameFour(true, true, false, true, n / 0x100_0000, 0xED, 2 * k, 0x1DB, 0x3B6, 0x76D, n / 0x10_0000, 0xEDB, k);
    SameFour(false, false, false, true, n / 0x10_0000, 0xEDB, 3 * k, 0x1DB7, 0x3B6E, 0x76DC, n / 0x1_0000, 0xEDB8, k);
    SameFour(false, false, false, true, n / 0x1_0000, 0xEDB8, 4 * k, 0x1_DB71, 0x3_B6E2, 0x7_6DC4,
             n / 0x1000, 0xE_DB88, k);
    SameFour(true, true, false, false, n / 0x1000, 0xE_DB88, 5 * k, 0x1D_B710, 0x3B_6E20,
             0x76_DC41, n / 0x100, 0xED_B883, k);
    SameFour(false, true, false, false, n / 0x100, 0xED_B883, 6 * k, 0x1DB_7106, 0x3B6_E20C,
             0x76D_C419, n / 0x10, 0xEDB_8832, k);
    SameFour(false, false, false, false, n / 0x10, 0xEDB_8832, 7 * k, 0x1DB7_1064, 0x3B6E_20C8,
             0x76DC_4190, n, 0xEDB8_8320, k);
  }

  lemma ResultWord(n: nat, k: nat)
    requires n == 0xCBF4_3926 && k == 4
    ensures Same(n, 0xCBF4_3926, 8 * k)
  {
    SameFour(false, false, true, true, 0, 0, 0, 1, 3, 6, n / 0x1000_0000, 0xC, k);
    SameFour(true, true, false, true, n / 0x1000_0000, 0xC, k, 0x19, 0x32, 0x65, n / 0x100_0000, 0xCB, k);
    SameFour(true, true, true, true, n / 0x100_0000, 0xCB, 2 * k, 0x197, 0x32F, 0x65F, n / 0x10_0000, 0xCBF, k);
    SameFour(false, false, true, false, n / 0x10_0000, 0xCBF, 3 * k, 0x197E, 0x32FD, 0x65FA, n / 0x1_0000, 0xCBF4, k);
    SameFour(true, true, false, false, n / 0x1_0000, 0xCBF4, 4 * k, 0x1_97E8, 0x3_2FD0, 0x6_5FA1,
             n / 0x1000, 0xC_BF43, k);
    SameFour(true, false, false, true, n / 0x1000, 0xC_BF43, 5 * k, 0x19_7E87, 0x32_FD0E,
             0x65_FA1C, n / 0x100, 0xCB_F439, k);
    SameFour(false, true, false, false, n / 0x100, 0xCB_F439, 6 * k, 0x197_E872, 0x32F_D0E4,
             0x65F_A1C9, n / 0x10, 0xCBF_4392, k);
    SameFour(false, true, true, false, n / 0x10, 0xCBF_4392, 7 * k, 0x197E_8724, 0x32FD_0E49,
             0x65FA_1C93, n, 0xCBF4_3926, k);
  }

  lemma OnesWord(n: nat, k: nat)
    requires n == 0xFFFF_FFFF && k == 4
    ensures Same(n, 0xFFFF_FFFF, 8 * k)
  {
    SameFour(true, true, true, true, 0, 0, 0, 1, 3, 7, n / 0x1000_0000, 0xF, k);
    SameFour(true, true, true, true, n / 0x1000_0000, 0xF, k, 0x1F, 0x3F, 0x7F, n / 0x100_0000, 0xFF, k);
    SameFour(true, true, true, true, n / 0x100_0000, 0xFF, 2 * k, 0x1FF, 0x3FF, 0x7FF, n / 0x10_0000, 0xFFF, k);
    SameFour(true, true, true, true, n / 0x10_0000, 0xFFF, 3 * k, 0x1FFF, 0x3FFF, 0x7FFF, n / 0x1_0000, 0xFFFF, k);
    SameFour(true, true, true, true, n / 0x1_0000, 0xFFFF, 4 * k, 0x1_FFFF, 0x3_FFFF, 0x7_FFFF,
             n / 0x1000, 0xF_FFFF, k);
    SameFour(true, true, true, true, n / 0x1000, 0xF_FFFF, 5 * k, 0x1F_FFFF, 0x3F_FFFF, 0x7F_FFFF,
             n / 0x100, 0xFF_FFFF, k);
    SameFour(true, true, true, true, n / 0x100, 0xFF_FFFF, 6 * k, 0x1FF_FFFF, 0x3FF_FFFF,
             0x7FF_FFFF, n / 0x10, 0xFFF_FFFF, k);
    SameFour(true, true, true, true, n / 0x10, 0xFFF_FFFF, 7 * k, 0x1FFF_FFFF, 0x3FFF_FFFF,
             0x7FFF_FFFF, n, 0xFFFF_FFFF, k);
  }

  /** A byte of the form 0x3d. */
  lemma DigitWord(a: bool, b: bool, c: bool, d: bool, x: nat, v: bv32, v1: bv32, v2: bv32, v3: bv32, k: nat, n: nat)
    requires k == 4 && n == 24 && v3 == 6 + (if d then 1 else 0) && v >> 1 == v1 && v1 >> 1 == v2 && v2 >> 1 == v3
    requires (v & 1 == 1 <==> a) && (v1 & 1 == 1 <==> b) && (v2 & 1 == 1 <==> c) && (v3 & 1 == 1 <==> d)
    requires x == 0x30 + (if d then 8 else 0) + (if c then 4 else 0) + (if b then 2 else 0) + if a then 1 else 0
    ensures Same(x, v, n + 2 * k)
  {
    SameZero(n);
    SameFour(true, true, false, false, 0, 0, n, 0, 0, 1, 3, 3, k);
    assert v3 >> 1 == 3;
    SameFour(a, b, c, d, 3, 3, n + k, v3, v2, v1, x, v, k);
  }

  /** The register over one more byte. */
  lemma NextByte(p: Word, u: bv32, v: bv32, x: byte, data: seq<byte>, n: nat)
    requires n == 32 && p == BitsIn(0xEDB8_8320, n) && data != [] && data[0] == x && Same(x, v, n)
    ensures Register(p, BitsIn(u, n), data) == Register(p, BitsIn(EightTurns(u ^ v), n), data[1..])
  {
    XorIn(u, v, n);
    TurnsAreShifts(p, u ^ v, n);
  }

  lemma TurnValues()
    ensures EightTurns(0xFFFF_FFFF ^ 0x31) == 0x7C23_1048
    ensures EightTurns(0x7C23_1048 ^ 0x32) == 0xB0AC_BB32
    ensures EightTurns(0xB0AC_BB32 ^ 0x33) == 0x77B7_9C2D
    ensures EightTurns(0x77B7_9C2D ^ 0x34) == 0x641C_1F5C
    ensures EightTurns(0x641C_1F5C ^ 0x35) == 0x340A_C5E3
    ensures EightTurns(0x340A_C5E3 ^ 0x36) == 0xF68D_2C9E
    ensures EightTurns(0xF68D_2C9E ^ 0x37) == 0xAFFC_9660
    ensures EightTurns(0xAFFC_9660 ^ 0x38) == 0x651F_2550
    ensures EightTurns(0x651F_2550 ^ 0x39) == 0x340B_C6D9
  {
  }

  lemma Digit(a: bool, b: bool, c: bool, d: bool, x: byte, v: bv32, v1: bv32, v2: bv32, v3: bv32, p: Word, u: bv32,
              w: bv32, data: seq<byte>, n: nat)
    requires v3 == 6 + (if d then 1 else 0) && v >> 1 == v1 && v1 >> 1 == v2 && v2 >> 1 == v3
    requires (v & 1 == 1 <==> a) && (v1 & 1 == 1 <==> b) && (v2 & 1 == 1 <==> c) && (v3 & 1 == 1 <==> d)
    requires x == 0x30 + (if d then 8 else 0) + (if c then 4 else 0) + (if b then 2 else 0) + if a then 1 else 0
    requires n == 32 && p == BitsIn(0xEDB8_8320, n) && data != [] && data[0] == x && EightTurns(u ^ v) == w
    ensures Register(p, BitsIn(u, n), data) == Register(p, BitsIn(w, n), data[1..])
  {
    DigitWord(a, b, c, d, x, v, v1, v2, v3, 4, n - 8);
    NextByte(p, u, v, x, data, n);
  }

  lemma FirstDigits(p: Word, data: seq<byte>, n: nat)
    requires n == 32 && p == BitsIn(0xEDB8_8320, n) && |data| >= 3
    requires data[0] == 0x31 && data[1] == 0x32 && data[2] == 0x33
    ensures Register(p, BitsIn(0xFFFF_FFFF, n), data) == Register(p, BitsIn(0x77B7_9C2D, n), data[3..])
  {
    TurnValues();
    Digit(true, false, false, false, 0x31, 0x31, 0x18, 0xc, 6, p, 0xFFFF_FFFF, 0x7C23_1048, data[0..], n);
    Digit(false, true, false, false, 0x32, 0x32, 0x19, 0xc, 6, p, 0x7C23_1048, 0xB0AC_BB32, data[1..], n);
    Digit(true, true, false, false, 0x33, 0x33, 0x19, 0xc, 6, p, 0xB0AC_BB32, 0x77B7_9C2D, data[2..], n);
    assert data[1..][1..] == data[2..] && data[2..][1..] == data[3..];
  }

  lemma MoreDigits(p: Word, data: seq<byte>, n: nat)
    requires n == 32 && p == BitsIn(0xEDB8_8320, n) && |data| >= 3
    requires data[0] == 0x34 && data[1] == 0x35 && data[2] == 0x36
    ensures Register(p, BitsIn(0x77B7_9C2D, n), data) == Register(p, BitsIn(0xF68D_2C9E, n), data[3..])
  {
    TurnValues();
    Digit(false, false, true, false, 0x34, 0x34, 0x1a, 0xd, 6, p, 0x77B7_9C2D, 0x641C_1F5C, data[0..], n);
    Digit(true, false, true, false, 0x35, 0x35, 0x1a, 0xd, 6, p, 0x641C_1F5C, 0x340A_C5E3, data[1..], n);
    Digit(false, true, true, false, 0x36, 0x36, 0x1b, 0xd, 6, p, 0x340A_C5E3, 0xF68D_2C9E, data[2..], n);
    assert data[1..][1..] == data[2..] && data[2..][1..] == data[3..];
  }

  lemma LastDigits(p: Word, data: seq<byte>, n: nat)
    requires n == 32 && p == BitsIn(0xEDB8_8320, n) && |data| >= 3
    requires data[0] == 0x37 && data[1] == 0x38 && data[2] == 0x39
    ensures Register(p, BitsIn(0xF68D_2C9E, n), data) == Register(p, BitsIn(0x340B_C6D9, n), data[3..])
  {
    TurnValues();
    Digit(true, true, true, false, 0x37, 0x37, 0x1b, 0xd, 6, p, 0xF68D_2C9E, 0xAFFC_9660, data[0..], n);
    Digit(false, false, false, true, 0x38, 0x38, 0x1c, 0xe, 7, p, 0xAFFC_9660, 0x651F_2550, data[1..], n);
    Digit(true, false, false, true, 0x39, 0x39, 0x1c, 0xe, 7, p, 0x651F_2550, 0x340B_C6D9, data[2..], n);
    assert data[1..][1..] == data[2..] && data[2..][1..] == data[3..];
  }

  lemma NineDigits(p: Word, data: seq<byte>, n: nat)
    requires n == 32 && p == BitsIn(0xEDB8_8320, n)
    requires data == [0x31, 0x32, 0x33, 0x34, 0x35, 0x36, 0x37, 0x38, 0x39]
    ensures Register(p, BitsIn(0xFFFF_FFFF, n), data) == BitsIn(0x340B_C6D9, n)
  {
    FirstDigits(p, data, n);
    MoreDigits(p, data[3..], n);
    LastDigits(p, data[6..], n);
    assert data[3..][3..] == data[6..] && data[6..][3..] == [];
  }

  lemma OnesIn(n: nat)
    requires n == 32
    ensures Ones() == BitsIn(0xFFFF_FFFF, n)
  {
    OnesWord(0xFFFF_FFFF, 4);
    ValueOnes(n);
    Pow2Byte(0);
    Pow2Byte(8);
    Pow2Byte(16);
    Pow2Byte(24);
    assert Ones() == seq(n, _ => true);
    BitsOfValue(Ones());
  }

  lemma {:induction false} ValueOnes(n: nat)
    ensures Value(seq(n, _ => true)) == Bits.Pow2(n) - 1
    decreases n
  {
    if n == 0 {
    } else {
      ValueOnes(n - 1);
      assert seq(n, _ => true)[1..] == seq(n - 1, _ => true);
    }
  }

  lemma ResultIn(c: Word, n: nat)
    requires n == 32 && c == BitsIn(0x340B_C6D9, n)
    ensures Value(Xor(c, Ones())) == 0xCBF4_3926
  {
    OnesIn(n);
    XorIn(0x340B_C6D9, 0xFFFF_FFFF, n);
    assert (0x340B_C6D9 as bv32) ^ 0xFFFF_FFFF == 0xCBF4_3926;
    ResultWord(0xCBF4_3926, 4);
    Pow2Byte(0);
    Pow2Byte(8);
    Pow2Byte(16);
    Pow2Byte(24);
    ValueOfBits(0xCBF4_3926, n);
  }

  /** The check value: the digits from 1 to 9. */
  lemma CheckValue(data: seq<byte>)
    requires data == [0x31, 0x32, 0x33, 0x34, 0x35, 0x36, 0x37, 0x38, 0x39]
    ensures Crc32(data) == 0xCBF4_3926
  {
    var n := 32;
    PolynomialWord(POLYNOMIAL, 4);
    OnesIn(n);
    NineDigits(Polynomial(), data, n);
    ResultIn(Register(Polynomial(), Ones(), data), n);
  }
}
