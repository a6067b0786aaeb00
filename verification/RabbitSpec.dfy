/** The Rabbit stream cipher as sections 2.3 to 2.7 of RFC 4503 define it. */
module RabbitSpec {
  import opened Wire
  import opened Bits
  import opened Keystreams

  type Words = ws: seq<Word> | |ws| == 8 witness [0, 0, 0, 0, 0, 0, 0, 0]
  type Carry = b: nat | b <= 1

  /** State variables, counter variables and the counter carry bit (section 2.1). */
  datatype State = State(x: Words, c: Words, b: Carry)

  /** The constants A0 to A7 of section 2.5. */
  const A: Words := [
    0x4D34D34D, 0xD34D34D3, 0x34D34D34, 0x4D34D34D,
    0xD34D34D3, 0x34D34D34, 0x4D34D34D, 0xD34D34D3
  ]

  // ---------------------------------------------------------------- 2.5 counter system

  /** Word by word, least significant first: the sum modulo 2^32 and the carry into the next word. */
  function AddWords(c: seq<Word>, a: seq<Word>, b: Carry): (r: (seq<Word>, Carry))
    requires |c| == |a|
    ensures |r.0| == |c|
  {
    if c == [] then ([], b)
    else
      var temp := c[0] + a[0] + b;
      var (sum, carry) := AddWords(c[1..], a[1..], temp / 0x1_0000_0000);
      ([temp % 0x1_0000_0000] + sum, carry)
  }

  // ---------------------------------------------------------------- 2.6 next-state function

  function G(u: Word, v: Word): Word {
    var s := Plus(u, v);
    XorWord(s * s % 0x1_0000_0000, s * s / 0x1_0000_0000 % 0x1_0000_0000)
  }

  /** Bit k of a g-value is set exactly when bits k and 32 + k of the square of the sum differ. */
  lemma GBit(u: Word, v: Word, k: nat)
    requires k < 32
    ensures var s := ((u as int) + v) % 0x1_0000_0000;
            G(u, v) / Pow2(k) % 2 == (s * s / Pow2(k) % 2 + s * s / Pow2(32 + k) % 2) % 2
  {
    hide Xor;
    var s: nat := Plus(u, v);
    var q: nat := s * s;
    Pow2Values();
    hide Pow2;
    XorBit(q % Pow2(32), q / Pow2(32) % Pow2(32), k);
    LowBitKept(q, 32, k);
    LowBitKept(q / Pow2(32), 32, k);
    DivPow2(q, 32, k);
  }

  function Gs(x: Words, c: Words): (g: Words)
    ensures forall j :: 0 <= j < 8 ==> g[j] == G(x[j], c[j])
  {
    seq(8, j requires 0 <= j < 8 => G(x[j], c[j]))
  }

  /** Even variables take the two preceding g-values rotated by 16; odd ones take one rotated by 8 and one plain. */
  function Mix(g: Words, j: nat): Word
    requires j < 8
  {
    var p, q := g[(j + 7) % 8], g[(j + 6) % 8];
    if j % 2 == 0 then Plus(Plus(g[j], RotateLeft16(p)), RotateLeft16(q))
    else Plus(Plus(g[j], RotateLeft8(p)), q)
  }

  function Next(s: State): (r: State)
    ensures forall j :: 0 <= j < 8 ==> r.x[j] == Mix(Gs(s.x, r.c), j)
    ensures (r.c, r.b) == AddWords(s.c, A, s.b)
  {
    var (c, b) := AddWords(s.c, A, s.b);
    var g := Gs(s.x, c);
    State(seq(8, j requires 0 <= j < 8 => Mix(g, j)), c, b)
  }

  /** One step of the cipher and the block it yields. */
  const RABBIT: Generator<State> := Generator(Next, Extract)

  // ---------------------------------------------------------------- 2.3 key setup

  /** The 16-bit subkey K_j, from the key's bytes least significant first. */
  function Subkey(key: bytes, j: nat): Half
    requires |key| >= 16 && j < 8
  {
    (key[2 * j] as int) + 0x100 * (key[2 * j + 1] as int)
  }

  function KeyX(key: bytes, j: nat): Word
    requires |key| >= 16 && j < 8
  {
    if j % 2 == 0 then Concat(Subkey(key, (j + 1) % 8), Subkey(key, j))
    else Concat(Subkey(key, (j + 5) % 8), Subkey(key, (j + 4) % 8))
  }

  function KeyC(key: bytes, j: nat): Word
    requires |key| >= 16 && j < 8
  {
    if j % 2 == 0 then Concat(Subkey(key, (j + 4) % 8), Subkey(key, (j + 5) % 8))
    else Concat(Subkey(key, j), Subkey(key, (j + 1) % 8))
  }

  function KeyLoaded(key: bytes): (r: State)
    requires |key| >= 16
    ensures forall j :: 0 <= j < 8 ==> r.x[j] == KeyX(key, j) && r.c[j] == KeyC(key, j)
    ensures r.b == 0
  {
    State(
      seq(8, j requires 0 <= j < 8 => KeyX(key, j)),
      seq(8, j requires 0 <= j < 8 => KeyC(key, j)),
      0)
  }

  function Reinitialised(s: State): (r: State)
    ensures r.x == s.x && r.b == s.b
    ensures forall j :: 0 <= j < 8 ==> r.c[j] == XorWord(s.c[j], s.x[(j + 4) % 8])
  {
    s.(c := seq(8, j requires 0 <= j < 8 => XorWord(s.c[j], s.x[(j + 4) % 8])))
  }

  function KeySetup(key: bytes): State
    requires |key| >= 16
  {
    Reinitialised(Iterate(RABBIT, KeyLoaded(key), 4))
  }

  // ---------------------------------------------------------------- 2.4 IV setup

  /** The 16-bit slice of the 64-bit IV that starts at bit 16 * i. */
  function IvHalf(iv: nat, i: nat): Half
    requires i < 4
  {
    (if i == 0 then iv
     else if i == 1 then iv / 0x1_0000
     else if i == 2 then iv / 0x1_0000_0000
     else iv / 0x1_0000_0000_0000) % 0x1_0000
  }

  /** What counter variable j is XORed with. */
  function IvMask(iv: nat, j: nat): Word
    requires j < 8
  {
    if j % 4 == 0 then Concat(IvHalf(iv, 1), IvHalf(iv, 0))
    else if j % 4 == 1 then Concat(IvHalf(iv, 3), IvHalf(iv, 1))
    else if j % 4 == 2 then Concat(IvHalf(iv, 3), IvHalf(iv, 2))
    else Concat(IvHalf(iv, 2), IvHalf(iv, 0))
  }

  function Masked(s: State, iv: nat): (r: State)
    ensures r.x == s.x && r.b == s.b
    ensures forall j :: 0 <= j < 8 ==> r.c[j] == XorWord(s.c[j], IvMask(iv, j))
  {
    s.(c := seq(8, j requires 0 <= j < 8 => XorWord(s.c[j], IvMask(iv, j))))
  }

  function Setup(key: bytes, iv: Option<bytes>): State
    requires |key| >= 16 && (iv.Some? ==> |iv.value| >= 8)
  {
    match iv
    case None => KeySetup(key)
    case Some(v) => Iterate(RABBIT, Masked(KeySetup(key), Val(v[..8])), 4)
  }

  // ---------------------------------------------------------------- 2.7 extraction

  /** The 16-bit slice of an output block that starts at bit 16 * i. */
  function ExtractHalf(x: Words, i: nat): Half
    requires i < 8
  {
    var k := i / 2 * 2;
    if i % 2 == 0 then XorHalf(Lo(x[k]), Hi(x[(k + 5) % 8]))
    else XorHalf(Hi(x[k]), Lo(x[(k + 3) % 8]))
  }

  function Extract(s: State): (r: Block) {
    LE(2, ExtractHalf(s.x, 0)) + LE(2, ExtractHalf(s.x, 1)) + LE(2, ExtractHalf(s.x, 2)) + LE(2, ExtractHalf(s.x, 3)) +
    LE(2, ExtractHalf(s.x, 4)) + LE(2, ExtractHalf(s.x, 5)) + LE(2, ExtractHalf(s.x, 6)) + LE(2, ExtractHalf(s.x, 7))
  }
}
