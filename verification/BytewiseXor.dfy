/** XOR of bytes as bit-vectors compute it, the same as bit by bit. */
module BytewiseXor {
  import opened Wire
  import opened Bits

  function N(a: bv8): byte {
    a as int
  }

  lemma HalfBv(a: bv8)
    ensures N(a) % 2 == N(a & 1) && N(a) / 2 == N(a >> 1)
  {
    assert a as int == (a & 1) as int + 2 * ((a >> 1) as int);
    assert a & 1 == 0 || a & 1 == 1;
  }

  lemma LowBits(a: bv8, b: bv8)
    ensures N((a ^ b) & 1) == (N(a & 1) + N(b & 1)) % 2
    ensures (a ^ b) >> 1 == (a >> 1) ^ (b >> 1)
  {
    assert a & 1 == 0 || a & 1 == 1;
    assert b & 1 == 0 || b & 1 == 1;
    assert (a ^ b) & 1 == (a & 1) ^ (b & 1);
  }

  lemma SmallerBv(a: bv8)
    ensures a != 0 ==> a >> 1 < a
    ensures a == 0 ==> a >> 1 == 0
  {
  }

  lemma XorOfHalves(x: nat, y: nat, z: nat)
    requires z % 2 == (x % 2 + y % 2) % 2 && z / 2 == Xor(x / 2, y / 2)
    ensures Xor(x, y) == z
  {
    hide Xor;
    XorStep(x, y);
  }

  /** The two definitions of XOR agree on bytes. */
  lemma {:induction false} XorBv(a: bv8, b: bv8)
    ensures Xor(N(a), N(b)) == N(a ^ b)
    decreases a, b
  {
    hide Xor, N;
    if a == 0 && b == 0 {
      ZeroBv();
    } else {
      SmallerBv(a);
      SmallerBv(b);
      XorBv(a >> 1, b >> 1);
      XorOfBv(a, b);
    }
  }

  lemma ZeroBv()
    ensures Xor(N(0), N(0)) == N(0 ^ 0)
  {
    XorZero(0);
  }

  lemma XorOfBv(a: bv8, b: bv8)
    requires Xor(N(a >> 1), N(b >> 1)) == N((a >> 1) ^ (b >> 1))
    ensures Xor(N(a), N(b)) == N(a ^ b)
  {
    hide Xor, N;
    HalfBv(a);
    HalfBv(b);
    LowBits(a, b);
    HalfBv(a ^ b);
    XorOfHalves(N(a), N(b), N(a ^ b));
  }

  // ---------------------------------------------------------------- words and halves, byte by byte

  function Quad(b3: byte, b2: byte, b1: byte, b0: byte): Word {
    0x100_0000 * (b3 as int) + 0x1_0000 * (b2 as int) + 0x100 * (b1 as int) + b0
  }

  function Pair(b1: byte, b0: byte): Half {
    0x100 * (b1 as int) + b0
  }

  lemma XorSplit8(lo1: byte, hi1: nat, lo2: byte, hi2: nat)
    ensures Xor(lo1 + 0x100 * hi1, lo2 + 0x100 * hi2) == Xor(lo1, lo2) + 0x100 * Xor(hi1, hi2)
  {
    hide Xor;
    Pow2Values();
    XorSplit(8, lo1, hi1, lo2, hi2);
  }

  lemma XorQuads(a3: byte, a2: byte, a1: byte, a0: byte, b3: byte, b2: byte, b1: byte, b0: byte)
    ensures XorWord(Quad(a3, a2, a1, a0), Quad(b3, b2, b1, b0))
         == Quad(XorByte(a3, b3), XorByte(a2, b2), XorByte(a1, b1), XorByte(a0, b0))
  {
    hide Xor;
    var p2, q2 := a2 as int + 0x100 * (a3 as int), b2 as int + 0x100 * (b3 as int);
    var p1, q1 := a1 as int + 0x100 * p2, b1 as int + 0x100 * q2;
    XorSplit8(a2, a3, b2, b3);
    XorSplit8(a1, p2, b1, q2);
    XorSplit8(a0, p1, b0, q1);
    assert Quad(a3, a2, a1, a0) == a0 + 0x100 * p1 && Quad(b3, b2, b1, b0) == b0 + 0x100 * q1;
  }

  lemma XorPairs(a1: byte, a0: byte, b1: byte, b0: byte)
    ensures XorHalf(Pair(a1, a0), Pair(b1, b0)) == Pair(XorByte(a1, b1), XorByte(a0, b0))
  {
    hide Xor;
    XorSplit8(a0, a1, b0, b1);
    assert Pair(a1, a0) == a0 + 0x100 * (a1 as int) && Pair(b1, b0) == b0 + 0x100 * (b1 as int);
    var hi, lo := XorByte(a1, b1), XorByte(a0, b0);
    assert Pair(hi, lo) == lo + 0x100 * (hi as int);
    hide Pair;
  }

  lemma ByteBv(a: bv8, b: bv8)
    ensures XorByte(N(a), N(b)) == N(a ^ b)
  {
    hide Xor, N;
    XorBv(a, b);
  }

  lemma XorAt(a3: bv8, a2: bv8, a1: bv8, a0: bv8, b3: bv8, b2: bv8, b1: bv8, b0: bv8)
    ensures XorWord(Quad(N(a3), N(a2), N(a1), N(a0)), Quad(N(b3), N(b2), N(b1), N(b0)))
         == Quad(N(a3 ^ b3), N(a2 ^ b2), N(a1 ^ b1), N(a0 ^ b0))
  {
    hide Quad, XorByte, XorWord, N;
    ByteBv(a3, b3);
    ByteBv(a2, b2);
    ByteBv(a1, b1);
    ByteBv(a0, b0);
    XorQuads(N(a3), N(a2), N(a1), N(a0), N(b3), N(b2), N(b1), N(b0));
  }

  lemma PairBytes(b1: byte, b0: byte)
    ensures LE(2, Pair(b1, b0)) == [b0, b1]
  {
    LE2(Pair(b1, b0));
  }

  lemma HalfAt(a1: bv8, a0: bv8, b1: bv8, b0: bv8)
    ensures LE(2, XorHalf(Pair(N(a1), N(a0)), Pair(N(b1), N(b0)))) == [N(a0 ^ b0), N(a1 ^ b1)]
  {
    hide Pair, XorByte, XorHalf, N, LE;
    ByteBv(a1, b1);
    ByteBv(a0, b0);
    XorPairs(N(a1), N(a0), N(b1), N(b0));
    PairBytes(N(a1 ^ b1), N(a0 ^ b0));
  }
}
