/** The cipher as it is run: words overwritten in place and a buffer of keystream, against RFC 4503. */
module Ciphers {
  import opened Wire
  import opened Bits
  import opened Keystreams
  import opened RabbitSpec

  /** What the code tests after adding in 32 bits. */
  predicate LooksCarried(c: Word, increment: nat) {
    (c + increment) % 0x1_0000_0000 < c
  }

  /** What the standard calls the carry. */
  predicate Carries(c: Word, increment: nat) {
    (c + increment) / 0x1_0000_0000 == 1
  }

  /** Comparing the wrapped sum with the counter word finds the carry, for exactly the increments below 2^32. */
  lemma CarryTest(increment: nat)
    requires increment <= 0x1_0000_0000
    ensures (forall c: Word :: LooksCarried(c, increment) <==> Carries(c, increment)) <==> increment < 0x1_0000_0000
  {
    if increment == 0x1_0000_0000 {
      assert Carries(0, increment) && !LooksCarried(0, increment);
    }
  }

  lemma Increments(j: nat, b: Carry)
    requires j < 8
    ensures 0 < A[j] + b < 0x1_0000_0000
  {
  }

  /** One word of the counter: the wrapped sum, and the carry found by comparing. */
  lemma CounterWord(c: seq<Word>, j: nat, b: Carry)
    requires |c| == 8 && j < 8
    ensures var t := Plus(Plus(c[j], A[j]), b);
            var (sum, carry) := AddWords(c[j + 1..], A[j + 1..], if t < c[j] then 1 else 0);
            AddWords(c[j..], A[j..], b) == ([t] + sum, carry)
  {
    hide AddWords;
    FirstWord(c[j..], A[j..], b);
    Increments(j, b);
    CarryTest(A[j] + b);
    assert LooksCarried(c[j], A[j] + b) <==> Carries(c[j], A[j] + b);
    assert Plus(Plus(c[j], A[j]), b) == (c[j] + A[j] + b) % 0x1_0000_0000;
    assert c[j..][1..] == c[j + 1..] && A[j..][1..] == A[j + 1..];
  }

  lemma MoveOver(done: seq<Word>, t: Word, rest: seq<Word>)
    ensures done + ([t] + rest) == done + [t] + rest
  {
  }

  lemma FirstWord(c: seq<Word>, a: seq<Word>, b: Carry)
    requires |c| == |a| > 0
    ensures var (sum, carry) := AddWords(c[1..], a[1..], (c[0] + a[0] + b) / 0x1_0000_0000);
            AddWords(c, a, b) == ([(c[0] + a[0] + b) % 0x1_0000_0000] + sum, carry)
  {
  }

  lemma NoWords(c: seq<Word>, a: seq<Word>, b: Carry)
    requires c == a == []
    ensures AddWords(c, a, b) == ([], b)
  {
  }

  lemma ShiftOrHalves(hi: Half, lo: Half)
    ensures ShiftOr(hi, lo) == Concat(hi, lo)
  {
  }

  lemma IvMasks(iv: bytes)
    requires |iv| >= 8
    ensures var v, i0, i1 := Val(iv[..8]), Val(iv[..4]), Val(iv[4..8]);
            && i0 < 0x1_0000_0000 && i1 < 0x1_0000_0000
            && IvMask(v, 0) == IvMask(v, 4) == i0
            && IvMask(v, 1) == IvMask(v, 5) == ShiftOr(Hi(i1), Hi(i0))
            && IvMask(v, 2) == IvMask(v, 6) == i1
            && IvMask(v, 3) == IvMask(v, 7) == ShiftOr(Lo(i1), Lo(i0))
  {
    var v, i0, i1 := Val(iv[..8]), Val(iv[..4]), Val(iv[4..8]);
    ModulusIsPow256(4);
    assert iv[..8] == iv[..4] + iv[4..8];
    ValAppend(iv[..4], iv[4..8]);
    assert v == i0 + 0x1_0000_0000 * i1;
    IvHalves(v, i0, i1);
    ShiftOrHalves(Hi(i1), Hi(i0));
    ShiftOrHalves(Lo(i1), Lo(i0));
  }

  lemma IvHalves(v: nat, i0: Word, i1: Word)
    requires v == i0 + 0x1_0000_0000 * i1
    ensures IvHalf(v, 0) == Lo(i0) && IvHalf(v, 1) == Hi(i0)
    ensures IvHalf(v, 2) == Lo(i1) && IvHalf(v, 3) == Hi(i1)
  {
    assert v / 0x1_0000 == i0 / 0x1_0000 + 0x1_0000 * i1;
    assert v / 0x1_0000_0000 == i1;
    assert v / 0x1_0000_0000_0000 == i1 / 0x1_0000;
  }

  lemma {:induction false} ValAppend(lo: bytes, hi: bytes)
    ensures Val(lo + hi) == Val(lo) + Pow256(|lo|) * Val(hi)
  {
    if lo == [] {
      assert lo + hi == hi;
    } else {
      ValAppend(lo[1..], hi);
      assert (lo + hi)[1..] == lo[1..] + hi;
      TimesAssociates(256, Pow256(|lo| - 1), Val(hi));
    }
  }

  lemma TimesAssociates(a: int, b: int, c: int)
    ensures (a * b) * c == a * (b * c)
  {
  }

  class Rabbit {
    const x: array<Word>
    const c: array<Word>
    var b: Carry
    var buf: bytes

    ghost predicate Valid()
      reads this, x, c
    {
      x.Length == 8 && c.Length == 8 && x != c
    }

    ghost function State(): State
      reads this, x, c
      requires Valid()
    {
      RabbitSpec.State(x[..], c[..], b)
    }

    ghost function Buffered(): Buffered<State>
      reads this, x, c
      requires Valid()
    {
      Keystreams.Buffered(State(), buf)
    }

    /** NewRabbit: key setup, then IV setup when there is an IV. */
    constructor (key: bytes, iv: Option<bytes>)
      requires |key| >= 16 && (iv.Some? ==> |iv.value| >= 8)
      ensures Valid() && fresh(x) && fresh(c)
      ensures State() == Setup(key, iv) && buf == []
    {
      x := new Word[8];
      c := new Word[8];
      b := 0;
      buf := [];
      new;
      LoadKey(key);
      FourRounds();
      Reinitialise();
      if iv.Some? {
        MaskCounter(iv.value);
        FourRounds();
      }
    }

    method FourRounds()
      requires Valid()
      modifies x, c, this`b
      ensures Valid() && State() == Iterate(RABBIT, old(State()), 4)
    {
      for i := 0 to 4
        invariant Valid() && State() == Iterate(RABBIT, old(State()), i)
      {
        Next();
        OneStep(old(State()), i);
      }
    }

    method LoadKey(key: bytes)
      requires Valid() && |key| >= 16 && b == 0
      modifies x, c
      ensures Valid() && State() == KeyLoaded(key)
    {
      var k := new Half[8];
      for i := 0 to 8
        invariant forall m :: 0 <= m < i ==> k[m] == Subkey(key, m)
      {
        k[i] := OrShift8(key[2 * i], key[2 * i + 1]);
      }
      ExpandKey(key, k);
      assert x[..] == KeyLoaded(key).x && c[..] == KeyLoaded(key).c;
    }

    method ExpandKey(key: bytes, k: array<Half>)
      requires Valid() && |key| >= 16
      requires k.Length == 8 && forall m :: 0 <= m < 8 ==> k[m] == Subkey(key, m)
      modifies x, c
      ensures Valid() && forall m :: 0 <= m < 8 ==> x[m] == KeyX(key, m) && c[m] == KeyC(key, m)
    {
      hide Concat, ShiftOr, Subkey;
      for j := 0 to 8
        invariant forall m :: 0 <= m < j ==> x[m] == KeyX(key, m) && c[m] == KeyC(key, m)
      {
        ShiftOrHalves(k[j], k[(j + 1) % 8]);
        ShiftOrHalves(k[(j + 1) % 8], k[j]);
        ShiftOrHalves(k[(j + 4) % 8], k[(j + 5) % 8]);
        ShiftOrHalves(k[(j + 5) % 8], k[(j + 4) % 8]);
        if j % 2 == 0 {
          x[j] := ShiftOr(k[(j + 1) % 8], k[j]);
          c[j] := ShiftOr(k[(j + 4) % 8], k[(j + 5) % 8]);
        } else {
          x[j] := ShiftOr(k[(j + 5) % 8], k[(j + 4) % 8]);
          c[j] := ShiftOr(k[j], k[(j + 1) % 8]);
        }
        assert x[j] == KeyX(key, j) && c[j] == KeyC(key, j);
      }
    }

    method Reinitialise()
      requires Valid()
      modifies c
      ensures Valid() && State() == Reinitialised(old(State()))
    {
      for j := 0 to 8
        invariant forall m :: 0 <= m < j ==> c[m] == XorWord(old(c[m]), x[(m + 4) % 8])
        invariant forall m :: j <= m < 8 ==> c[m] == old(c[m])
      {
        c[j] := XorWord(c[j], x[(j + 4) % 8]);
      }
      assert c[..] == Reinitialised(old(State())).c;
    }

    method MaskCounter(iv: bytes)
      requires Valid() && |iv| >= 8
      modifies c
      ensures Valid() && State() == Masked(old(State()), Val(iv[..8]))
    {
      hide Val, XorWord, ShiftOr, IvMask;
      IvMasks(iv);
      var i0: Word, i1: Word := Val(iv[..4]), Val(iv[4..8]);
      var hi := ShiftOr(Hi(i1), Hi(i0));
      var lo := ShiftOr(Lo(i1), Lo(i0));
      c[0] := XorWord(c[0], i0);
      c[1] := XorWord(c[1], hi);
      c[2] := XorWord(c[2], i1);
      c[3] := XorWord(c[3], lo);
      c[4] := XorWord(c[4], i0);
      c[5] := XorWord(c[5], hi);
      c[6] := XorWord(c[6], i1);
      c[7] := XorWord(c[7], lo);
      assert forall m :: 0 <= m < 8 ==> c[m] == XorWord(old(c[m]), IvMask(Val(iv[..8]), m));
      assert c[..] == Masked(old(State()), Val(iv[..8])).c;
    }

    /** One step: the counter with its carry, the g-values, then the eight state words. */
    method Next()
      requires Valid()
      modifies x, c, this`b
      ensures Valid() && State() == RabbitSpec.Next(old(State()))
    {
      AdvanceCounter();
      var g := Squares();
      MixStates(g);
    }

    static method RabbitG(u: Word, v: Word) returns (g: Word)
      ensures g == G(u, v)
    {
      hide Plus, XorWord;
      var s := Plus(u, v);
      Square(s);
      var sq: nat := (s as int) * (s as int);
      HighWord(sq);
      g := XorWord(sq % 0x1_0000_0000, sq / 0x1_0000_0000);
    }

    method Squares() returns (g: array<Word>)
      requires Valid()
      ensures fresh(g) && g.Length == 8 && g[..] == Gs(x[..], c[..])
    {
      g := new Word[8];
      for j := 0 to 8
        invariant forall m :: 0 <= m < j ==> g[m] == G(x[m], c[m])
      {
        g[j] := RabbitG(x[j], c[j]);
      }
    }

    method MixStates(g: array<Word>)
      requires Valid() && g.Length == 8 && g != x
      modifies x
      ensures Valid() && forall j :: 0 <= j < 8 ==> x[j] == Mix(g[..], j)
    {
      hide Plus, RotateLeft8, RotateLeft16;
      ghost var gs: Words := g[..];
      MixValues(gs);
      x[0] := Plus(Plus(g[0], RotateLeft16(g[7])), RotateLeft16(g[6]));
      assert x[0] == Mix(gs, 0);
      x[1] := Plus(Plus(g[1], RotateLeft8(g[0])), g[7]);
      assert x[1] == Mix(gs, 1);
      x[2] := Plus(Plus(g[2], RotateLeft16(g[1])), RotateLeft16(g[0]));
      assert x[2] == Mix(gs, 2);
      x[3] := Plus(Plus(g[3], RotateLeft8(g[2])), g[1]);
      assert x[3] == Mix(gs, 3);
      x[4] := Plus(Plus(g[4], RotateLeft16(g[3])), RotateLeft16(g[2]));
      assert x[4] == Mix(gs, 4);
      x[5] := Plus(Plus(g[5], RotateLeft8(g[4])), g[3]);
      assert x[5] == Mix(gs, 5);
      x[6] := Plus(Plus(g[6], RotateLeft16(g[5])), RotateLeft16(g[4]));
      assert x[6] == Mix(gs, 6);
      x[7] := Plus(Plus(g[7], RotateLeft8(g[6])), g[5]);
      assert x[7] == Mix(gs, 7);
    }

    /** The carry is found by comparing the wrapped sum with the counter word. */
    method AdvanceCounter()
      requires Valid()
      modifies c, this`b
      ensures Valid() && (c[..], b) == AddWords(old(c[..]), A, old(b))
    {
      hide Plus, AddWords;
      var carry := b;
      ghost var start := c[..];
      ghost var all := AddWords(start, A, b);
      assert start[0..] == start && A[0..] == A && c[..0] + all.0 == all.0;
      for j := 0 to 8
        invariant c[j..] == start[j..]
        invariant var (sum, last) := AddWords(start[j..], A[j..], carry);
                  all == (c[..j] + sum, last)
      {
        CounterWord(start, j, carry);
        ghost var done := c[..j];
        assert c[j] == c[j..][0] == start[j];
        var t := Plus(Plus(c[j], A[j]), carry);
        carry := if t < c[j] then 1 else 0;
        ghost var sum := AddWords(start[j + 1..], A[j + 1..], carry).0;
        c[j] := t;
        assert c[..j + 1] == done + [t];
        MoveOver(done, t, sum);
      }
      NoWords(start[8..], A[8..], carry);
      assert c[..8] + [] == c[..];
      b := carry;
    }

    /** The block read off the current state words. */
    method Block() returns (block: bytes)
      requires Valid()
      ensures block == Extract(State())
    {
      block :=
        LE(4, XorWord(XorWord(x[0], ShiftRight16(x[5])), ShiftLeft16(x[3]))) +
        LE(4, XorWord(XorWord(x[2], ShiftRight16(x[7])), ShiftLeft16(x[5]))) +
        LE(4, XorWord(XorWord(x[4], ShiftRight16(x[1])), ShiftLeft16(x[7]))) +
        LE(4, XorWord(XorWord(x[6], ShiftRight16(x[3])), ShiftLeft16(x[1])));
      ExtractedBlock(State());
    }

    /** Keystream: refill block by block, then cut n bytes off the front. */
    method Keystream(n: nat) returns (out: bytes)
      requires Valid()
      modifies this, x, c
      ensures Valid()
      ensures (out, Buffered()) == Request(RABBIT, old(Buffered()), n)
    {
      while |buf| < n
        invariant Valid()
        invariant Refill(RABBIT, Buffered(), n) == Refill(RABBIT, old(Buffered()), n)
        decreases n - |buf|
      {
        ghost var before := Buffered();
        Next();
        var block := Block();
        RefillStep(before, n);
        buf := buf + block;
      }
      out := buf[..n];
      buf := buf[n..];
    }
  }

  lemma OneStep(s: State, n: nat)
    ensures Iterate(RABBIT, s, n + 1) == RabbitSpec.Next(Iterate(RABBIT, s, n))
  {
  }

  lemma MixValues(g: Words)
    ensures Mix(g, 0) == Plus(Plus(g[0], RotateLeft16(g[7])), RotateLeft16(g[6]))
    ensures Mix(g, 1) == Plus(Plus(g[1], RotateLeft8(g[0])), g[7])
    ensures Mix(g, 2) == Plus(Plus(g[2], RotateLeft16(g[1])), RotateLeft16(g[0]))
    ensures Mix(g, 3) == Plus(Plus(g[3], RotateLeft8(g[2])), g[1])
    ensures Mix(g, 4) == Plus(Plus(g[4], RotateLeft16(g[3])), RotateLeft16(g[2]))
    ensures Mix(g, 5) == Plus(Plus(g[5], RotateLeft8(g[4])), g[3])
    ensures Mix(g, 6) == Plus(Plus(g[6], RotateLeft16(g[5])), RotateLeft16(g[4]))
    ensures Mix(g, 7) == Plus(Plus(g[7], RotateLeft8(g[6])), g[5])
  {
  }

  lemma RefillStep(k: Buffered<State>, n: nat)
    requires |k.buf| < n
    ensures var s := RabbitSpec.Next(k.state);
            Refill(RABBIT, k, n) == Refill(RABBIT, Buffered(s, k.buf + Extract(s)), n)
  {
  }

  /** The square of a 32-bit word fits in 64 bits, so both of its halves are words. */
  lemma Square(s: Word)
    ensures (s as int) * (s as int) < 0x1_0000_0000_0000_0000
  {
    var k := 0xFFFF_FFFF;
    Product(s, k, s);
    Product(s, k, k);
  }

  lemma HighWord(v: nat)
    requires v < 0x1_0000_0000_0000_0000
    ensures v / 0x1_0000_0000 % 0x1_0000_0000 == v / 0x1_0000_0000
  {
  }

  lemma Product(a: nat, b: nat, c: nat)
    requires a <= b
    ensures a * c <= b * c
  {
    assert (b - a) * c >= 0;
    assert b * c == a * c + (b - a) * c;
  }

  /** One output word of the implementation is two 16-bit slices of the standard. */
  lemma ExtractedWord(a: Word, p: Word, q: Word)
    ensures LE(4, XorWord(XorWord(a, ShiftRight16(p)), ShiftLeft16(q)))
         == LE(2, XorHalf(Lo(a), Hi(p))) + LE(2, XorHalf(Hi(a), Lo(q)))
  {
    MixedHalves(a, p, q);
    WordBytes(XorWord(XorWord(a, ShiftRight16(p)), ShiftLeft16(q)));
  }

  lemma ExtractHalves(x: Words)
    ensures ExtractHalf(x, 0) == XorHalf(Lo(x[0]), Hi(x[5])) && ExtractHalf(x, 1) == XorHalf(Hi(x[0]), Lo(x[3]))
    ensures ExtractHalf(x, 2) == XorHalf(Lo(x[2]), Hi(x[7])) && ExtractHalf(x, 3) == XorHalf(Hi(x[2]), Lo(x[5]))
    ensures ExtractHalf(x, 4) == XorHalf(Lo(x[4]), Hi(x[1])) && ExtractHalf(x, 5) == XorHalf(Hi(x[4]), Lo(x[7]))
    ensures ExtractHalf(x, 6) == XorHalf(Lo(x[6]), Hi(x[3])) && ExtractHalf(x, 7) == XorHalf(Hi(x[6]), Lo(x[1]))
  {
  }

  lemma Pairs(a: bytes, b: bytes, c: bytes, d: bytes, e: bytes, f: bytes, g: bytes, h: bytes)
    ensures (a + b) + (c + d) + (e + f) + (g + h) == a + b + c + d + e + f + g + h
  {
  }

  lemma ExtractedBlock(s: State)
    ensures LE(4, XorWord(XorWord(s.x[0], ShiftRight16(s.x[5])), ShiftLeft16(s.x[3]))) +
            LE(4, XorWord(XorWord(s.x[2], ShiftRight16(s.x[7])), ShiftLeft16(s.x[5]))) +
            LE(4, XorWord(XorWord(s.x[4], ShiftRight16(s.x[1])), ShiftLeft16(s.x[7]))) +
            LE(4, XorWord(XorWord(s.x[6], ShiftRight16(s.x[3])), ShiftLeft16(s.x[1])))
         == Extract(s)
  {
    var x := s.x;
    ExtractedWord(x[0], x[5], x[3]);
    ExtractedWord(x[2], x[7], x[5]);
    ExtractedWord(x[4], x[1], x[7]);
    ExtractedWord(x[6], x[3], x[1]);
    ExtractHalves(x);
    Pairs(LE(2, ExtractHalf(x, 0)), LE(2, ExtractHalf(x, 1)), LE(2, ExtractHalf(x, 2)), LE(2, ExtractHalf(x, 3)),
          LE(2, ExtractHalf(x, 4)), LE(2, ExtractHalf(x, 5)), LE(2, ExtractHalf(x, 6)), LE(2, ExtractHalf(x, 7)));
  }
}
