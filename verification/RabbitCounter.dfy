/** The counter system as arithmetic modulo 2^256 - 1, and its full period. */
module RabbitCounter {
  import opened Wire
  import opened Bits
  import opened Keystreams
  import opened RabbitSpec

  /** The integer eight counter words stand for, least significant word first. */
  function Big(ws: seq<Word>): nat
    decreases |ws|, 1
  {
    if ws == [] then 0 else BigCons(ws)
  }

  function BigCons(ws: seq<Word>): nat
    requires ws != []
    decreases |ws|, 0
  {
    ws[0] + 0x1_0000_0000 * Big(ws[1..])
  }

  function PowW(n: nat): nat {
    if n == 0 then 1 else 0x1_0000_0000 * PowW(n - 1)
  }

  const TWO256: nat := 0x1_0000_0000_0000_0000_0000_0000_0000_0000_0000_0000_0000_0000_0000_0000_0000_0000
  const PERIOD: nat := TWO256 - 1
  const BIG_A: nat := 0xD34D_34D3_4D34_D34D_34D3_4D34_D34D_34D3_4D34_D34D_34D3_4D34_D34D_34D3_4D34_D34D

  lemma PowW8()
    ensures PowW(8) == TWO256
  {
    assert PowW(2) == 0x1_0000_0000_0000_0000;
    assert PowW(4) == 0x1_0000_0000_0000_0000_0000_0000_0000_0000;
    assert PowW(6) == 0x1_0000_0000_0000_0000_0000_0000_0000_0000_0000_0000_0000_0000;
  }

  lemma BigFrom(ws: seq<Word>, i: nat)
    requires i < |ws|
    ensures Big(ws[i..]) == ws[i] + 0x1_0000_0000 * Big(ws[i + 1..])
  {
    assert ws[i..][1..] == ws[i + 1..];
  }

  lemma BigOfA()
    ensures Big(A) == BIG_A
  {
    assert A[0..] == A && A[8..] == [];
    BigFrom(A, 7);
    BigFrom(A, 6);
    BigFrom(A, 5);
    BigFrom(A, 4);
    BigFrom(A, 3);
    BigFrom(A, 2);
    BigFrom(A, 1);
    BigFrom(A, 0);
  }

  /** Word-by-word addition with carry is addition of the integers; the carry is what no longer fits. */
  lemma {:induction false} AddWordsValue(c: seq<Word>, a: seq<Word>, b: Carry)
    requires |c| == |a|
    ensures Big(AddWords(c, a, b).0) + AddWords(c, a, b).1 * PowW(|c|) == Big(c) + Big(a) + b
  {
    if c != [] {
      var temp := c[0] + a[0] + b;
      var (sum, carry) := AddWords(c[1..], a[1..], temp / 0x1_0000_0000);
      AddWordsValue(c[1..], a[1..], temp / 0x1_0000_0000);
      var all := AddWords(c, a, b).0;
      assert all[0] == temp % 0x1_0000_0000 && all[1..] == sum;
      assert carry * PowW(|c|) == 0x1_0000_0000 * (carry * PowW(|c| - 1));
    }
  }

  /** The counter with its pending carry. */
  function Counter(s: State): nat {
    Big(s.c) + s.b
  }

  /** One step adds the constant, wrapping at 2^256 with the carry brought back in: addition modulo 2^256 - 1. */
  lemma {:induction false} CounterStep(s: State)
    ensures Big(Next(s).c) + Next(s).b * TWO256 == Big(s.c) + BIG_A + s.b
    ensures Counter(Next(s)) == Counter(s) + BIG_A - Next(s).b * PERIOD
  {
    AddWordsValue(s.c, A, s.b);
    PowW8();
    BigOfA();
  }

  lemma RabbitStep(s: State, n: nat)
    requires n > 0
    ensures Iterate(RABBIT, s, n) == Next(Iterate(RABBIT, s, n - 1))
  {
  }

  lemma {:induction false} CounterSteps(s: State, n: nat) returns (wraps: nat)
    ensures Counter(Iterate(RABBIT, s, n)) == Counter(s) + n * BIG_A - wraps * PERIOD
  {
    hide Next, Counter;
    if n == 0 {
      wraps := 0;
    } else {
      var w := CounterSteps(s, n - 1);
      var s' := Iterate(RABBIT, s, n - 1);
      RabbitStep(s, n);
      var b := CounterAdvance(s');
      wraps := w + b;
      StepArithmetic(Counter(s), n, w, Counter(s'), b, Counter(Next(s')));
    }
  }

  lemma CounterAdvance(s: State) returns (b: nat)
    ensures Counter(Next(s)) == Counter(s) + BIG_A - b * PERIOD
  {
    CounterStep(s);
    b := Next(s).b;
  }

  lemma StepArithmetic(v: int, n: nat, w: nat, before: int, b: nat, after: int)
    requires before == v + (n - 1) * BIG_A - w * PERIOD
    requires after == before + BIG_A - b * PERIOD
    ensures after == v + n * BIG_A - (w + b) * PERIOD
  {
  }

  lemma {:induction false} SameResidue(a: int, b: int, k: int, m: nat)
    requires m > 0 && a == b + k * m
    ensures a % m == b % m
  {
    ModOfShift(b, m, k);
  }

  lemma ResidueGap(a: int, b: int, m: nat) returns (k: int)
    requires m > 0 && a % m == b % m
    ensures a - b == k * m
  {
    k := a / m - b / m;
    assert a == (a / m) * m + a % m && b == (b / m) * m + b % m;
    assert k * m == (a / m) * m - (b / m) * m;
  }

  /** After n steps the counter is its initial value plus n times the constant, modulo 2^256 - 1. */
  lemma {:induction false} CounterClosedForm(s: State, n: nat)
    ensures Counter(Iterate(RABBIT, s, n)) % PERIOD == (Counter(s) + n * BIG_A) % PERIOD
  {
    var w := CounterSteps(s, n);
    SameResidue(Counter(s) + n * BIG_A, Counter(Iterate(RABBIT, s, n)), w, PERIOD);
  }

  // BIG_A has an inverse modulo 2^256 - 1.
  const INVERSE: nat := 0x5BE5_BE5B_E5BE_5BE5_BE5B_E5BE_5BE5_BE5B_E5BE_5BE5_BE5B_E5BE_5BE5_BE5B_E5BE_5BE7
  const QUOTIENT: nat := 0x4BDA_12F6_84BD_A12F_684B_DA12_F684_BDA1_2F68_4BDA_12F6_84BD_A12F_684B_DA12_F686

  lemma Invertible()
    ensures INVERSE * BIG_A == 1 + QUOTIENT * PERIOD
  {
  }

  /** A multiple of BIG_A is a multiple of 2^256 - 1 only if the other factor is. */
  lemma {:induction false} FactorOut(d: int, k: int)
    requires d * BIG_A == k * PERIOD
    ensures d % PERIOD == 0
  {
    Invertible();
    var m := PERIOD;
    assert d * (INVERSE * BIG_A) == INVERSE * (d * BIG_A) by {
      Rearrange(d, INVERSE, BIG_A);
    }
    assert INVERSE * (k * m) == (INVERSE * k) * m by {
      Rearrange(INVERSE, k, m);
    }
    assert d * (1 + QUOTIENT * m) == d + (d * QUOTIENT) * m by {
      Rearrange(d, QUOTIENT, m);
    }
    assert d == 0 + (INVERSE * k - d * QUOTIENT) * m by {
      Subtract(INVERSE * k, d * QUOTIENT, m);
    }
    SameResidue(d, 0, INVERSE * k - d * QUOTIENT, m);
  }

  lemma Rearrange(a: int, b: int, c: int)
    ensures a * (b * c) == b * (a * c) == (a * b) * c
    ensures a * (1 + b * c) == a + (a * b) * c
  {
  }

  lemma Subtract(a: int, b: int, m: int)
    ensures (a - b) * m == a * m - b * m
  {
  }

  lemma {:induction false} PeriodArithmetic(v: int, i: nat, j: nat)
    ensures (v + i * BIG_A) % PERIOD == (v + j * BIG_A) % PERIOD <==> (j - i) % PERIOD == 0
  {
    var vi, vj := v + i * BIG_A, v + j * BIG_A;
    Subtract(j, i, BIG_A);
    if vi % PERIOD == vj % PERIOD {
      var k := ResidueGap(vj, vi, PERIOD);
      FactorOut(j - i, k);
    }
    if (j - i) % PERIOD == 0 {
      var q := (j - i) / PERIOD;
      Rearrange(BIG_A, q, PERIOD);
      SameResidue(vj, vi, q * BIG_A, PERIOD);
    }
  }

  /**
   * The counter system has the full period: the counters after i and after j steps agree modulo 2^256 - 1
   * exactly when i and j differ by a multiple of 2^256 - 1.
   */
  lemma {:induction false} CounterPeriod(s: State, i: nat, j: nat)
    ensures Counter(Iterate(RABBIT, s, i)) % PERIOD == Counter(Iterate(RABBIT, s, j)) % PERIOD
       <==> (j - i) % PERIOD == 0
  {
    CounterClosedForm(s, i);
    CounterClosedForm(s, j);
    PeriodArithmetic(Counter(s), i, j);
  }

  lemma ShortGap(d: int)
    requires 0 < d < PERIOD
    ensures d % PERIOD != 0
  {
    ModUnique(d, PERIOD, 0, d);
  }

  lemma {:induction false} CountersDiffer(s: State, i: nat, j: nat)
    requires i < j < i + PERIOD
    ensures Counter(Iterate(RABBIT, s, i)) != Counter(Iterate(RABBIT, s, j))
  {
    ShortGap(j - i);
    CounterPeriod(s, i, j);
  }

  /** No counter value recurs within 2^256 - 1 steps, so neither does a cipher state. */
  lemma {:induction false} NoEarlyRepeat(s: State, i: nat, j: nat)
    requires i < j < i + PERIOD
    ensures Iterate(RABBIT, s, i) != Iterate(RABBIT, s, j)
  {
    CountersDiffer(s, i, j);
  }
}
