/** Bytes and little-endian integers, the vocabulary shared by the codec and the transport. */
module Wire {

  type byte = x: int | 0 <= x < 256
  type bytes = seq<byte>

  datatype Option<+T> = None | Some(value: T)

  datatype Result<+T, +E> = Ok(value: T) | Err(error: E)

  /** 256^w: the number of values a w-byte field can hold. */
  function Pow256(w: nat): (p: nat)
    ensures p >= 1
  {
    if w == 0 then 1 else 256 * Pow256(w - 1)
  }

  /** Byte widths of the fixed-width integers. */
  type Width = w: nat | w == 1 || w == 2 || w == 4 || w == 8 witness 1

  /** The number of values an integer field can hold. */
  function Modulus(w: Width): (p: nat)
    ensures p >= 0x100 && p % 2 == 0
  {
    if w == 1 then 0x100
    else if w == 2 then 0x1_0000
    else if w == 4 then 0x1_0000_0000
    else 0x1_0000_0000_0000_0000
  }

  lemma ModulusIsPow256(w: Width)
    ensures Pow256(w) == Modulus(w)
  {
    assert Pow256(2) == 256 * Pow256(1);
    assert Pow256(3) == 256 * Pow256(2);
    assert Pow256(4) == 256 * Pow256(3);
    assert Pow256(5) == 256 * Pow256(4);
    assert Pow256(6) == 256 * Pow256(5);
    assert Pow256(7) == 256 * Pow256(6);
    assert Pow256(8) == 256 * Pow256(7);
  }

  /** The w low-order bytes of v, least significant first; higher bytes are cut off. */
  function LE(w: nat, v: nat): (bs: bytes)
    ensures |bs| == w
  {
    if w == 0 then [] else [v % 256] + LE(w - 1, v / 256)
  }

  /** The integer a run of bytes stands for, least significant byte first. */
  function Val(bs: bytes): (v: nat)
    ensures v < Pow256(|bs|)
  {
    if bs == [] then 0 else bs[0] + 256 * Val(bs[1..])
  }

  lemma ModSplit(v: nat, p: nat)
    requires p >= 1
    ensures v % (256 * p) == v % 256 + 256 * ((v / 256) % p)
    ensures v / (256 * p) == v / 256 / p
  {
    var q, r := v / 256, v % 256;
    var k, m := q / p, q % p;
    assert q == k * p + m;
    assert v == 256 * q + r;
    assert v == k * (256 * p) + (256 * m + r);
    assert 0 <= 256 * m + r < 256 * p;
    ModUnique(v, 256 * p, k, 256 * m + r);
  }

  lemma MulAtLeast(k: int, d: int)
    requires d >= 0
    ensures k >= 1 ==> k * d >= d
    ensures k <= -1 ==> k * d <= -d
  {
    if k >= 1 {
      assert k * d == d + (k - 1) * d;
    } else if k <= -1 {
      assert k * d == -d + (k + 1) * d;
    }
  }

  lemma ModUnique(v: int, d: int, k: int, r: int)
    requires d >= 1 && v == k * d + r && 0 <= r < d
    ensures v % d == r && v / d == k
  {
    var k', r' := v / d, v % d;
    assert v == k' * d + r';
    assert (k - k') * d == r' - r;
    MulAtLeast(k - k', d);
  }

  lemma ModOfShift(n: int, p: int, k: int)
    requires p >= 1
    ensures (n + k * p) % p == n % p
  {
    var q, r := n / p, n % p;
    assert n + k * p == (q + k) * p + r;
    ModUnique(n + k * p, p, q + k, r);
  }

  /** Byte i of an integer's encoding is its digit i in base 256. */
  lemma {:induction false} ByteAt(w: nat, v: nat, i: nat)
    requires i < w
    ensures LE(w, v)[i] == v / Pow256(i) % 256
  {
    if i > 0 {
      ByteAt(w - 1, v / 256, i - 1);
      ModSplit(v, Pow256(i - 1));
    }
  }

  /** Writing then reading a w-byte field keeps the integer modulo 256^w. */
  lemma {:induction false} ValLE(w: nat, v: nat)
    ensures Val(LE(w, v)) == v % Pow256(w)
  {
    if w > 0 {
      ValLE(w - 1, v / 256);
      assert LE(w, v)[1..] == LE(w - 1, v / 256);
      ModSplit(v, Pow256(w - 1));
    }
  }

  /** Reading then writing a run of bytes gives the bytes back. */
  lemma {:induction false} LEVal(bs: bytes)
    ensures LE(|bs|, Val(bs)) == bs
  {
    if bs != [] {
      LEVal(bs[1..]);
      ModUnique(Val(bs), 256, Val(bs[1..]), bs[0]);
      assert bs == [bs[0]] + bs[1..];
    }
  }

  /** Reading back a w-byte integer that was in range. */
  lemma ReadWritten(w: Width, v: nat)
    requires v < Modulus(w)
    ensures Val(LE(w, v)) == v
  {
    ValLE(w, v);
    ModulusIsPow256(w);
  }

  /** Two's-complement reading of a w-byte integer: int8/int16/int32/int64 of the raw bits. */
  function Signed(w: Width, raw: nat): int
    requires raw < Modulus(w)
  {
    if 2 * raw >= Modulus(w) then raw - Modulus(w) else raw
  }

  /** The bits left of any integer after truncation to w bytes (uint8/uint16/uint32/uint64 of it). */
  function Truncate(w: Width, n: int): (raw: nat)
    ensures raw < Modulus(w)
  {
    if w == 1 then n % 0x100
    else if w == 2 then n % 0x1_0000
    else if w == 4 then n % 0x1_0000_0000
    else n % 0x1_0000_0000_0000_0000
  }

  /** Adding a multiple of 2^64 changes no field of at most 64 bits. */
  lemma TruncateShift(w: Width, n: int, c: int)
    ensures Truncate(w, n + c * 0x1_0000_0000_0000_0000) == Truncate(w, n)
  {
    var k := 0x1_0000_0000_0000_0000 / Modulus(w);
    ModOfShift(n, Modulus(w), c * k);
  }

  lemma TruncateSigned(w: Width, raw: nat)
    requires raw < Modulus(w)
    ensures Truncate(w, Signed(w, raw)) == raw
  {
  }

  /** A value that already fits in w bytes as a signed integer survives truncation. */
  lemma SignedTruncate(w: Width, n: int)
    requires -(Modulus(w) / 2) <= n < Modulus(w) / 2
    ensures Signed(w, Truncate(w, n)) == n
  {
  }
}
