/** Bitwise operations on unsigned words, bit by bit, and the arithmetic they amount to. */
module Bits {
  import opened Wire

  type Word = x: int | 0 <= x < 0x1_0000_0000
  type Half = x: int | 0 <= x < 0x1_0000

  function Xor(a: nat, b: nat): nat
    decreases a + b, 1
  {
    if a == 0 && b == 0 then 0 else (a % 2 + b % 2) % 2 + 2 * XorUpper(a, b)
  }

  function XorUpper(a: nat, b: nat): nat
    requires a + b > 0
    decreases a + b, 0
  {
    Xor(a / 2, b / 2)
  }

  function Or(a: nat, b: nat): nat
    decreases a + b, 1
  {
    if a == 0 && b == 0 then 0 else (if a % 2 == 1 || b % 2 == 1 then 1 else 0) + 2 * OrUpper(a, b)
  }

  function OrUpper(a: nat, b: nat): nat
    requires a + b > 0
    decreases a + b, 0
  {
    Or(a / 2, b / 2)
  }

  function Pow2(n: nat): (p: nat)
    ensures p >= 1
  {
    if n == 0 then 1 else 2 * Pow2(n - 1)
  }

  lemma Pow2Values()
    ensures Pow2(8) == 0x100 && Pow2(16) == 0x1_0000 && Pow2(32) == 0x1_0000_0000
  {
    assert Pow2(4) == 16;
    assert Pow2(8) == 0x100;
    assert Pow2(12) == 0x1000;
    assert Pow2(16) == 0x1_0000;
    assert Pow2(20) == 0x10_0000;
    assert Pow2(24) == 0x100_0000;
    assert Pow2(28) == 0x1000_0000;
  }

  lemma {:induction false} XorBound(n: nat, a: nat, b: nat)
    requires a < Pow2(n) && b < Pow2(n)
    ensures Xor(a, b) < Pow2(n)
  {
    if n > 0 {
      XorBound(n - 1, a / 2, b / 2);
    }
  }

  lemma {:induction false} XorZero(a: nat)
    ensures Xor(a, 0) == a && Xor(0, a) == a
  {
    if a > 0 {
      XorZero(a / 2);
    }
  }

  lemma XorStep(a: nat, b: nat)
    ensures Xor(a, b) == (a % 2 + b % 2) % 2 + 2 * Xor(a / 2, b / 2)
    ensures Xor(a, b) % 2 == (a % 2 + b % 2) % 2 && Xor(a, b) / 2 == Xor(a / 2, b / 2)
  {
    var bit, rest := (a % 2 + b % 2) % 2, Xor(a / 2, b / 2);
    assert Xor(a, b) == bit + 2 * rest;
    SplitBit(bit, rest);
  }

  lemma SplitBit(bit: nat, rest: nat)
    requires bit < 2
    ensures (bit + 2 * rest) % 2 == bit && (bit + 2 * rest) / 2 == rest
  {
  }

  lemma AddEven(lo: nat, u: nat)
    ensures (lo + 2 * u) % 2 == lo % 2 && (lo + 2 * u) / 2 == lo / 2 + u
  {
  }

  /** Applying the same mask twice gives the original back. */
  lemma {:induction false} XorTwice(a: nat, k: nat)
    ensures Xor(Xor(a, k), k) == a
    decreases a + k
  {
    if a + k > 0 {
      hide Xor;
      XorStep(a, k);
      XorTwice(a / 2, k / 2);
      XorStep(Xor(a, k), k);
      BitTwice(a % 2, k % 2);
    }
  }

  lemma BitTwice(a: nat, k: nat)
    requires a < 2 && k < 2
    ensures ((a + k) % 2 + k) % 2 == a
  {
  }

  /** Peeling the lowest bit off two sums whose upper parts are even. */
  lemma XorLowBit(lo1: nat, u1: nat, lo2: nat, u2: nat, rest: nat)
    requires Xor(lo1 / 2 + u1, lo2 / 2 + u2) == Xor(lo1 / 2, lo2 / 2) + rest
    ensures Xor(lo1 + 2 * u1, lo2 + 2 * u2) == Xor(lo1, lo2) + 2 * rest
  {
    hide Xor;
    XorStep(lo1 + 2 * u1, lo2 + 2 * u2);
    XorStep(lo1, lo2);
    AddEven(lo1, u1);
    AddEven(lo2, u2);
  }

  /** XOR works separately on the n low bits and on the rest. */
  lemma {:induction false} XorSplit(n: nat, lo1: nat, hi1: nat, lo2: nat, hi2: nat)
    requires lo1 < Pow2(n) && lo2 < Pow2(n)
    ensures Xor(lo1 + Pow2(n) * hi1, lo2 + Pow2(n) * hi2) == Xor(lo1, lo2) + Pow2(n) * Xor(hi1, hi2)
    decreases n
  {
    hide Xor;
    if n > 0 {
      XorSplit(n - 1, lo1 / 2, hi1, lo2 / 2, hi2);
      XorSplitBit(Pow2(n - 1), lo1, hi1, lo2, hi2);
    } else {
      XorZero(0);
    }
  }

  lemma XorSplitBit(p: nat, lo1: nat, hi1: nat, lo2: nat, hi2: nat)
    requires Xor(lo1 / 2 + p * hi1, lo2 / 2 + p * hi2) == Xor(lo1 / 2, lo2 / 2) + p * Xor(hi1, hi2)
    ensures Xor(lo1 + 2 * p * hi1, lo2 + 2 * p * hi2) == Xor(lo1, lo2) + 2 * p * Xor(hi1, hi2)
  {
    hide Xor;
    var rest := Xor(hi1, hi2);
    XorLowBit(lo1, p * hi1, lo2, p * hi2, p * rest);
    Double(p, hi1);
    Double(p, hi2);
    Double(p, rest);
  }

  lemma OrStep(a: nat, b: nat)
    ensures Or(a, b) == (if a % 2 == 1 || b % 2 == 1 then 1 else 0) + 2 * Or(a / 2, b / 2)
  {
  }

  lemma Double(p: nat, x: nat)
    ensures 2 * p * x == 2 * (p * x)
  {
  }

  lemma HalveSum(p: nat, lo: nat, hi: nat)
    ensures (lo + 2 * p * hi) % 2 == lo % 2
    ensures (lo + 2 * p * hi) / 2 == lo / 2 + p * hi
  {
    Double(p, hi);
  }

  /** ORing a word shifted left by n with an n-bit word is placing them side by side. */
  lemma {:induction false} OrConcat(n: nat, hi: nat, lo: nat)
    requires lo < Pow2(n)
    ensures Or(Pow2(n) * hi, lo) == Pow2(n) * hi + lo
    decreases n
  {
    if n == 0 {
      OrZero(hi);
    } else {
      var p := Pow2(n - 1);
      HalveSum(p, 0, hi);
      OrConcat(n - 1, hi, lo / 2);
      OrStep(2 * p * hi, lo);
      Double(p, hi);
    }
  }

  lemma {:induction false} OrZero(a: nat)
    ensures Or(a, 0) == a
  {
    if a > 0 {
      OrZero(a / 2);
    }
  }

  // ---------------------------------------------------------------- bit by bit

  lemma DivTwice(v: nat, p: nat)
    requires p >= 1
    ensures v / (2 * p) == v / 2 / p
  {
    var k, r := v / 2 / p, v / 2 % p;
    assert v / 2 == k * p + r;
    assert v == k * (2 * p) + (2 * r + v % 2) by {
      Double(p, k);
    }
    ModUnique(v, 2 * p, k, 2 * r + v % 2);
  }

  /** Bit k of the XOR is set exactly when the operands' bits k differ. */
  lemma {:induction false} XorBit(a: nat, b: nat, k: nat)
    ensures Xor(a, b) / Pow2(k) % 2 == (a / Pow2(k) % 2 + b / Pow2(k) % 2) % 2
    decreases k
  {
    hide Xor;
    XorStep(a, b);
    if k > 0 {
      XorBit(a / 2, b / 2, k - 1);
      DivTwice(a, Pow2(k - 1));
      DivTwice(b, Pow2(k - 1));
      DivTwice(Xor(a, b), Pow2(k - 1));
    }
  }

  /** Bit k of the OR is set exactly when either operand's is. */
  lemma {:induction false} OrBit(a: nat, b: nat, k: nat)
    ensures Or(a, b) / Pow2(k) % 2 == 1 <==> a / Pow2(k) % 2 == 1 || b / Pow2(k) % 2 == 1
    decreases k
  {
    OrStep(a, b);
    hide Or;
    if k > 0 {
      OrBit(a / 2, b / 2, k - 1);
      SplitBit(if a % 2 == 1 || b % 2 == 1 then 1 else 0, Or(a / 2, b / 2));
      DivTwice(a, Pow2(k - 1));
      DivTwice(b, Pow2(k - 1));
      DivTwice(Or(a, b), Pow2(k - 1));
    }
  }

  lemma ModHalf(v: nat, p: nat)
    requires p >= 1
    ensures v % (2 * p) / 2 == v / 2 % p && v % (2 * p) % 2 == v % 2
  {
    var k, r := v / 2 / p, v / 2 % p;
    assert v / 2 == k * p + r;
    assert v == k * (2 * p) + (2 * r + v % 2) by {
      Double(p, k);
    }
    ModUnique(v, 2 * p, k, 2 * r + v % 2);
    SplitBit(v % 2, r);
  }

  /** Reducing modulo 2^n keeps the n low bits. */
  lemma {:induction false} LowBitKept(v: nat, n: nat, k: nat)
    requires k < n
    ensures v % Pow2(n) / Pow2(k) % 2 == v / Pow2(k) % 2
    decreases n
  {
    ModHalf(v, Pow2(n - 1));
    if k > 0 {
      LowBitKept(v / 2, n - 1, k - 1);
      DivTwice(v, Pow2(k - 1));
      DivTwice(v % Pow2(n), Pow2(k - 1));
    }
  }

  lemma {:induction false} DivPow2(v: nat, m: nat, n: nat)
    ensures v / Pow2(m) / Pow2(n) == v / Pow2(m + n)
    decreases m
  {
    if m > 0 {
      DivPow2(v / 2, m - 1, n);
      DivTwice(v, Pow2(m - 1));
      DivTwice(v, Pow2(m - 1 + n));
    }
  }

  // ---------------------------------------------------------------- 32-bit words

  function XorWord(a: Word, b: Word): (r: Word) {
    Pow2Values();
    XorBound(32, a, b);
    Xor(a, b)
  }

  function XorHalf(a: Half, b: Half): (r: Half) {
    Pow2Values();
    XorBound(16, a, b);
    Xor(a, b)
  }

  function XorByte(a: byte, b: byte): (r: byte) {
    Pow2Values();
    XorBound(8, a, b);
    Xor(a, b)
  }

  lemma XorByteTwice(a: byte, k: byte)
    ensures XorByte(XorByte(a, k), k) == a
  {
    XorTwice(a, k);
  }

  /** Two 16-bit halves side by side, the high one first: the || of RFC 4503, section 2.2. */
  function Concat(hi: Half, lo: Half): Word {
    hi * 0x1_0000 + lo
  }

  function Hi(w: Word): Half {
    w / 0x1_0000
  }

  function Lo(w: Word): Half {
    w % 0x1_0000
  }

  function ShiftLeft16(w: Word): Word {
    (w * 0x1_0000) % 0x1_0000_0000
  }

  function ShiftRight16(w: Word): Word {
    w / 0x1_0000
  }

  /** uint32 addition. */
  function Plus(a: Word, b: Word): Word {
    (a + b) % 0x1_0000_0000
  }

  function RotateLeft8(w: Word): Word {
    (w * 0x100) % 0x1_0000_0000 + w / 0x100_0000
  }

  function RotateLeft16(w: Word): Word {
    (w * 0x1_0000) % 0x1_0000_0000 + w / 0x1_0000
  }

  /** hi<<16 | lo, for 16-bit lo, computed as the two halves side by side. */
  function ShiftOr(hi: Word, lo: Half): Word {
    Concat(Lo(hi), lo)
  }

  lemma Half2() returns (p: nat)
    ensures p == Pow2(16) == 0x1_0000
  {
    Pow2Values();
    p := 0x1_0000;
  }

  /** The bits of the two halves do not overlap, so that is the bitwise OR. */
  lemma ShiftOrIsOr(hi: Word, lo: Half)
    ensures ShiftOr(hi, lo) == Or(ShiftLeft16(hi), lo)
  {
    ModUnique(hi * 0x1_0000, 0x1_0000_0000, Hi(hi), 0x1_0000 * Lo(hi));
    var p := Half2();
    OrConcat(16, Lo(hi), lo);
  }

  /** A rotation by 8: the bits moved up and the byte that comes round do not overlap. */
  lemma RotateLeft8IsOr(w: Word)
    ensures RotateLeft8(w) == Or((w * 0x100) % 0x1_0000_0000, w / 0x100_0000)
  {
    ModUnique(w * 0x100, 0x1_0000_0000, w / 0x100_0000, 0x100 * (w % 0x100_0000));
    Pow2Values();
    OrConcat(8, w % 0x100_0000, w / 0x100_0000);
  }

  lemma RotateLeft16IsOr(w: Word)
    ensures RotateLeft16(w) == Or((w * 0x1_0000) % 0x1_0000_0000, w / 0x1_0000)
  {
    ModUnique(w * 0x1_0000, 0x1_0000_0000, Hi(w), 0x1_0000 * Lo(w));
    var p := Half2();
    OrConcat(16, Lo(w), Hi(w));
  }

  lemma XorHalves(a: Word, b: Word)
    ensures Lo(XorWord(a, b)) == XorHalf(Lo(a), Lo(b))
    ensures Hi(XorWord(a, b)) == XorHalf(Hi(a), Hi(b))
  {
    var p := Half2();
    XorSplit(16, Lo(a), Hi(a), Lo(b), Hi(b));
    ModUnique(XorWord(a, b), 0x1_0000, XorHalf(Hi(a), Hi(b)), XorHalf(Lo(a), Lo(b)));
  }

  lemma {:induction false} OrCommutes(a: nat, b: nat)
    ensures Or(a, b) == Or(b, a)
    decreases a + b
  {
    if a + b > 0 {
      OrCommutes(a / 2, b / 2);
      OrStep(a, b);
      OrStep(b, a);
    }
  }

  /** uint32(lo) | uint32(hi)<<8 of two bytes, computed as the two bytes side by side. */
  function OrShift8(lo: byte, hi: byte): Half {
    (lo as int) + 0x100 * (hi as int)
  }

  lemma OrShift8IsOr(lo: byte, hi: byte)
    ensures OrShift8(lo, hi) == Or(lo, 0x100 * (hi as int))
  {
    Pow2Values();
    OrCommutes(lo, 0x100 * (hi as int));
    OrConcat(8, hi, lo);
  }

  /** The halves of a ^ (b>>16) ^ (c<<16). */
  lemma MixedHalves(a: Word, b: Word, c: Word)
    ensures Lo(XorWord(XorWord(a, ShiftRight16(b)), ShiftLeft16(c))) == XorHalf(Lo(a), Hi(b))
    ensures Hi(XorWord(XorWord(a, ShiftRight16(b)), ShiftLeft16(c))) == XorHalf(Hi(a), Lo(c))
  {
    var r, l := ShiftRight16(b), ShiftLeft16(c);
    XorHalves(a, r);
    XorHalves(XorWord(a, r), l);
    ModUnique(r, 0x1_0000, 0, Hi(b));
    ModUnique(c * 0x1_0000, 0x1_0000_0000, Hi(c), 0x1_0000 * Lo(c));
    ModUnique(l, 0x1_0000, Lo(c), 0);
    XorZero(Hi(a));
    XorZero(XorHalf(Lo(a), Hi(b)));
  }

  lemma LE2(v: nat)
    ensures LE(2, v) == [v % 256, v / 256 % 256]
  {
    assert LE(1, v / 256) == [v / 256 % 256] + LE(0, v / 256 / 256);
  }

  lemma LE4(v: nat)
    ensures LE(4, v) == [v % 256, v / 256 % 256] + LE(2, v / 256 / 256)
  {
    assert LE(3, v / 256) == [v / 256 % 256] + LE(2, v / 256 / 256);
  }

  /** A word's bytes are its low half's, then its high half's. */
  lemma WordBytes(w: Word)
    ensures LE(4, w) == LE(2, Lo(w)) + LE(2, Hi(w))
  {
    LE4(w);
    LE2(Lo(w));
    assert w / 256 / 256 == Hi(w);
    assert Lo(w) % 256 == w % 256 && Lo(w) / 256 % 256 == w / 256 % 256;
  }
}
