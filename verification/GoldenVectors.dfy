/** The published keystreams of the cipher, worked through state by state. */
module GoldenVectors {
  import opened Wire
  import opened Bits
  import opened BytewiseXor
  import opened Keystreams
  import opened RabbitSpec
  import Ciphers

  /** A g-value, from the square of the sum split into bytes. */
  lemma GAt(u: Word, v: Word, s: Word, h3: bv8, h2: bv8, h1: bv8, h0: bv8, l3: bv8, l2: bv8, l1: bv8, l0: bv8)
    requires Plus(u, v) == s
    requires (s as int) * (s as int) 
             == 0x1_0000_0000 * Quad(N(h3), N(h2), N(h1), N(h0)) + Quad(N(l3), N(l2), N(l1), N(l0))
    ensures G(u, v) == Quad(N(l3 ^ h3), N(l2 ^ h2), N(l1 ^ h1), N(l0 ^ h0))
  {
    hide Plus, Quad, N, XorWord;
    Folded(u, v, s, Quad(N(h3), N(h2), N(h1), N(h0)), Quad(N(l3), N(l2), N(l1), N(l0)));
    XorAt(l3, l2, l1, l0, h3, h2, h1, h0);
  }

  lemma Folded(u: Word, v: Word, s: Word, hi: Word, lo: Word)
    requires Plus(u, v) == s && (s as int) * (s as int) == 0x1_0000_0000 * (hi as int) + lo
    ensures G(u, v) == XorWord(lo, hi)
  {
    hide Plus, XorWord;
    SplitAt(s * s, hi, lo);
  }

  lemma SplitAt(q: int, hi: Word, lo: Word)
    requires q == 0x1_0000_0000 * (hi as int) + lo
    ensures q % 0x1_0000_0000 == lo && q / 0x1_0000_0000 == hi
  {
  }

  /** Adding with carries that are given. */
  lemma {:induction false} Sums(c: seq<Word>, a: seq<Word>, d: seq<Word>, b: seq<Carry>)
    requires |c| == |a| == |d| && |b| == |c| + 1
    requires forall j :: 0 <= j < |c| ==> (c[j] as int) + a[j] + b[j] == d[j] + 0x1_0000_0000 * (b[j + 1] as int)
    ensures AddWords(c, a, b[0]) == (d, b[|c|])
  {
    if c != [] {
      Sums(c[1..], a[1..], d[1..], b[1..]);
      assert d == [d[0]] + d[1..];
    }
  }

  lemma CounterAt(
      c0: Word, c1: Word, c2: Word, c3: Word, c4: Word, c5: Word, c6: Word, c7: Word, b0: Carry,
      d0: Word, d1: Word, d2: Word, d3: Word, d4: Word, d5: Word, d6: Word, d7: Word,
      b1: Carry, b2: Carry, b3: Carry, b4: Carry, b5: Carry, b6: Carry, b7: Carry, b8: Carry)
    requires c0 as int + 0x4D34D34D + b0 == d0 + 0x1_0000_0000 * (b1 as int)
    requires c1 as int + 0xD34D34D3 + b1 == d1 + 0x1_0000_0000 * (b2 as int)
    requires c2 as int + 0x34D34D34 + b2 == d2 + 0x1_0000_0000 * (b3 as int)
    requires c3 as int + 0x4D34D34D + b3 == d3 + 0x1_0000_0000 * (b4 as int)
    requires c4 as int + 0xD34D34D3 + b4 == d4 + 0x1_0000_0000 * (b5 as int)
    requires c5 as int + 0x34D34D34 + b5 == d5 + 0x1_0000_0000 * (b6 as int)
    requires c6 as int + 0x4D34D34D + b6 == d6 + 0x1_0000_0000 * (b7 as int)
    requires c7 as int + 0xD34D34D3 + b7 == d7 + 0x1_0000_0000 * (b8 as int)
    ensures AddWords([c0, c1, c2, c3, c4, c5, c6, c7], A, b0) == ([d0, d1, d2, d3, d4, d5, d6, d7], b8)
  {
    hide AddWords;
    Sums([c0, c1, c2, c3, c4, c5, c6, c7], A, [d0, d1, d2, d3, d4, d5, d6, d7], [b0, b1, b2, b3, b4, b5, b6, b7, b8]);
  }

  ghost predicate Mixes(g: Words, y: Words) {
    forall j :: 0 <= j < 8 ==> Mix(g, j) == y[j]
  }

  /** The eight equations of section 2.6, with p the g-values rotated by 16 and q the even ones rotated by 8. */
  lemma MixAt(
      g0: Word, g1: Word, g2: Word, g3: Word, g4: Word, g5: Word, g6: Word, g7: Word,
      p0: Word, p1: Word, p2: Word, p3: Word, p4: Word, p5: Word, p6: Word, p7: Word,
      q0: Word, q2: Word, q4: Word, q6: Word)
    requires p0 == RotateLeft16(g0) && p1 == RotateLeft16(g1) && p2 == RotateLeft16(g2) && p3 == RotateLeft16(g3)
    requires p4 == RotateLeft16(g4) && p5 == RotateLeft16(g5) && p6 == RotateLeft16(g6) && p7 == RotateLeft16(g7)
    requires q0 == RotateLeft8(g0) && q2 == RotateLeft8(g2) && q4 == RotateLeft8(g4) && q6 == RotateLeft8(g6)
    ensures Mixes([g0, g1, g2, g3, g4, g5, g6, g7],
                  [Plus(Plus(g0, p7), p6), Plus(Plus(g1, q0), g7), Plus(Plus(g2, p1), p0), Plus(Plus(g3, q2), g1),
                   Plus(Plus(g4, p3), p2), Plus(Plus(g5, q4), g3), Plus(Plus(g6, p5), p4), Plus(Plus(g7, q6), g5)])
  {
    hide Plus, RotateLeft8, RotateLeft16;
    Ciphers.MixValues([g0, g1, g2, g3, g4, g5, g6, g7]);
  }

  lemma NextIs(s: State, t: State, g: Words)
    requires AddWords(s.c, A, s.b) == (t.c, t.b)
    requires forall j :: 0 <= j < 8 ==> G(s.x[j], t.c[j]) == g[j]
    requires Mixes(g, t.x)
    ensures Next(s) == t
  {
    hide G, Mix, AddWords;
    assert Gs(s.x, t.c) == g;
    assert Next(s).x == t.x;
  }

  // ---------------------------------------------------------------- the states

  const KEY: bytes := [
    0x00, 0x01, 0x02, 0x03, 0x04, 0x05, 0x06, 0x07, 0x08, 0x09, 0x0A, 0x0B, 0x0C, 0x0D, 0x0E, 0x0F
  ]

  const IV: bytes := [0xAA, 0xBB, 0xCC, 0xDD, 0x01, 0x02, 0x03, 0x04]

  const K0: State := State(
    [0x03020100, 0x0D0C0B0A, 0x07060504, 0x01000F0E, 0x0B0A0908, 0x05040302, 0x0F0E0D0C, 0x09080706],
    [0x09080B0A, 0x03020504, 0x0D0C0F0E, 0x07060908, 0x01000302, 0x0B0A0D0C, 0x05040706, 0x0F0E0100],
    0)

  lemma Subkeys()
    ensures forall j :: 0 <= j < 8 ==> Subkey(KEY, j) == 0x100 + 0x202 * j
  {
  }

  lemma Loaded()
    ensures KeyLoaded(KEY) == K0
  {
    Subkeys();
    hide Subkey;
    assert KeyLoaded(KEY).x == K0.x && KeyLoaded(KEY).c == K0.c;
  }

  const K1: State := State(
    [0x05783933, 0x162113C0, 0xB38F168E, 0xF08A919E, 0x7F2CDA94, 0xACBEB878, 0x0D5257A9, 0x4FF46B46],
    [0x563CDE57, 0xD64F39D7, 0x41DF5C42, 0x543ADC55, 0xD44D37D5, 0x3FDD5A40, 0x5238DA53, 0xE25B35D3],
    0)

  lemma Squared1()
    ensures G(0x03020100, 0x563CDE57) == 0x71E0692A && G(0x0D0C0B0A, 0xD64F39D7) == 0xD994B170
    ensures G(0x07060504, 0x41DF5C42) == 0x98F3CB1A && G(0x01000F0E, 0x543ADC55) == 0x232AC596
    ensures G(0x0B0A0908, 0xD44D37D5) == 0xEE7C1E77 && G(0x05040302, 0x3FDD5A40) == 0x0D757AF4
    ensures G(0x0F0E0D0C, 0x5238DA53) == 0x73E65BB8 && G(0x09080706, 0xE25B35D3) == 0x5C2337DF
  {
    hide G;
    GAt(0x03020100, 0x563CDE57, 0x593EDF57, 0x1F, 0x1C, 0xC6, 0xBB, 0x6E, 0xFC, 0xAF, 0x91);
    GAt(0x0D0C0B0A, 0xD64F39D7, 0xE35B44E1, 0xC9, 0xEA, 0xFC, 0xB1, 0x10, 0x7E, 0x4D, 0xC1);
    GAt(0x07060504, 0x41DF5C42, 0x48E56146, 0x14, 0xC1, 0xD4, 0x3E, 0x8C, 0x32, 0x1F, 0x24);
    GAt(0x01000F0E, 0x543ADC55, 0x553AEB63, 0x1C, 0x60, 0x2D, 0xDF, 0x3F, 0x4A, 0xE8, 0x49);
    GAt(0x0B0A0908, 0xD44D37D5, 0xDF5740DD, 0xC2, 0xD9, 0x20, 0xBE, 0x2C, 0xA5, 0x3E, 0xC9);
    GAt(0x05040302, 0x3FDD5A40, 0x44E15D42, 0x12, 0x88, 0x7F, 0xF0, 0x1F, 0xFD, 0x05, 0x04);
    GAt(0x0F0E0D0C, 0x5238DA53, 0x6146E75F, 0x24, 0xF6, 0xCE, 0xF9, 0x57, 0x10, 0x95, 0x41);
    GAt(0x09080706, 0xE25B35D3, 0xEB633CD9, 0xD8, 0x6F, 0x58, 0x2E, 0x84, 0x4C, 0x6F, 0xF1);
  }

  lemma Counted1()
    ensures AddWords([0x09080B0A, 0x03020504, 0x0D0C0F0E, 0x07060908, 0x01000302, 0x0B0A0D0C, 0x05040706, 0x0F0E0100], A, 0)
         == ([0x563CDE57, 0xD64F39D7, 0x41DF5C42, 0x543ADC55, 0xD44D37D5, 0x3FDD5A40, 0x5238DA53, 0xE25B35D3], 0)
  {
    hide AddWords;
    CounterAt(0x09080B0A, 0x03020504, 0x0D0C0F0E, 0x07060908, 0x01000302, 0x0B0A0D0C, 0x05040706, 0x0F0E0100, 0,
              0x563CDE57, 0xD64F39D7, 0x41DF5C42, 0x543ADC55, 0xD44D37D5, 0x3FDD5A40, 0x5238DA53, 0xE25B35D3, 0, 0, 0, 0, 0, 0, 0, 0);
  }

  lemma Mixed1()
    ensures Mixes([0x71E0692A, 0xD994B170, 0x98F3CB1A, 0x232AC596, 0xEE7C1E77, 0x0D757AF4, 0x73E65BB8, 0x5C2337DF],
                  [0x05783933, 0x162113C0, 0xB38F168E, 0xF08A919E, 0x7F2CDA94, 0xACBEB878, 0x0D5257A9, 0x4FF46B46])
  {
    MixAt(0x71E0692A, 0xD994B170, 0x98F3CB1A, 0x232AC596, 0xEE7C1E77, 0x0D757AF4, 0x73E65BB8, 0x5C2337DF,
          0x692A71E0, 0xB170D994, 0xCB1A98F3, 0xC596232A, 0x1E77EE7C, 0x7AF40D75, 0x5BB873E6, 0x37DF5C23,
          0xE0692A71, 0xF3CB1A98, 0x7C1E77EE, 0xE65BB873);
    hide Mixes, RotateLeft8, RotateLeft16;
  }

  lemma Step1()
    ensures Next(K0) == K1
  {
    hide G, AddWords, Mixes, Plus;
    Squared1();
    Counted1();
    Mixed1();
    NextIs(K0, K1, [0x71E0692A, 0xD994B170, 0x98F3CB1A, 0x232AC596, 0xEE7C1E77, 0x0D757AF4, 0x73E65BB8, 0x5C2337DF]);
  }

  const K2: State := State(
    [0x798C2CEC, 0xCC05FFD4, 0x50D68324, 0x2C306745, 0xAD519559, 0x81595E7A, 0x29A589E2, 0x15212B97],
    [0xA371B1A4, 0xA99C6EAA, 0x76B2A977, 0xA16FAFA2, 0xA79A6CA8, 0x74B0A775, 0x9F6DADA0, 0xB5A86AA6],
    1)

  lemma Squared2()
    ensures G(0x05783933, 0xA371B1A4) == 0xEDB81966 && G(0x162113C0, 0xA99C6EAA) == 0x716F8707
    ensures G(0xB38F168E, 0x76B2A977) == 0xB06823FD && G(0xF08A919E, 0xA16FAFA2) == 0x529CE28E
    ensures G(0x7F2CDA94, 0xA79A6CA8) == 0xA6C59255 && G(0xACBEB878, 0x74B0A775) == 0x692A2646
    ensures G(0x0D5257A9, 0x9F6DADA0) == 0x710979F3 && G(0x4FF46B46, 0xB5A86AA6) == 0xA27D11E0
  {
    hide G;
    GAt(0x05783933, 0xA371B1A4, 0xA8E9EAD7, 0x6F, 0x73, 0xD9, 0xF7, 0x82, 0xCB, 0xC0, 0x91);
    GAt(0x162113C0, 0xA99C6EAA, 0xBFBD826A, 0x8F, 0x9C, 0x54, 0xE3, 0xFE, 0xF3, 0xD3, 0xE4);
    GAt(0xB38F168E, 0x76B2A977, 0x2A41C005, 0x06, 0xF9, 0xA3, 0xE4, 0xB6, 0x91, 0x80, 0x19);
    GAt(0xF08A919E, 0xA16FAFA2, 0x91FA4140, 0x53, 0x3D, 0x72, 0x8E, 0x01, 0xA1, 0x90, 0x00);
    GAt(0x7F2CDA94, 0xA79A6CA8, 0x26C7473C, 0x05, 0xDF, 0xC4, 0x45, 0xA3, 0x1A, 0x56, 0x10);
    GAt(0xACBEB878, 0x74B0A775, 0x216F5FED, 0x04, 0x5D, 0xE7, 0x2F, 0x6D, 0x77, 0xC1, 0x69);
    GAt(0x0D5257A9, 0x9F6DADA0, 0xACC00549, 0x74, 0x92, 0x97, 0x22, 0x05, 0x9B, 0xEE, 0xD1);
    GAt(0x4FF46B46, 0xB5A86AA6, 0x059CD5EC, 0x00, 0x1F, 0x80, 0x70, 0xA2, 0x62, 0x91, 0x90);
  }

  lemma Counted2()
    ensures AddWords([0x563CDE57, 0xD64F39D7, 0x41DF5C42, 0x543ADC55, 0xD44D37D5, 0x3FDD5A40, 0x5238DA53, 0xE25B35D3], A, 0)
         == ([0xA371B1A4, 0xA99C6EAA, 0x76B2A977, 0xA16FAFA2, 0xA79A6CA8, 0x74B0A775, 0x9F6DADA0, 0xB5A86AA6], 1)
  {
    hide AddWords;
    CounterAt(0x563CDE57, 0xD64F39D7, 0x41DF5C42, 0x543ADC55, 0xD44D37D5, 0x3FDD5A40, 0x5238DA53, 0xE25B35D3, 0,
              0xA371B1A4, 0xA99C6EAA, 0x76B2A977, 0xA16FAFA2, 0xA79A6CA8, 0x74B0A775, 0x9F6DADA0, 0xB5A86AA6, 0, 1, 0, 0, 1, 0, 0, 1);
  }

  lemma Mixed2()
    ensures Mixes([0xEDB81966, 0x716F8707, 0xB06823FD, 0x529CE28E, 0xA6C59255, 0x692A2646, 0x710979F3, 0xA27D11E0],
                  [0x798C2CEC, 0xCC05FFD4, 0x50D68324, 0x2C306745, 0xAD519559, 0x81595E7A, 0x29A589E2, 0x15212B97])
  {
    MixAt(0xEDB81966, 0x716F8707, 0xB06823FD, 0x529CE28E, 0xA6C59255, 0x692A2646, 0x710979F3, 0xA27D11E0,
          0x1966EDB8, 0x8707716F, 0x23FDB068, 0xE28E529C, 0x9255A6C5, 0x2646692A, 0x79F37109, 0x11E0A27D,
          0xB81966ED, 0x6823FDB0, 0xC59255A6, 0x0979F371);
    hide Mixes, RotateLeft8, RotateLeft16;
  }

  lemma Step2()
    ensures Next(K1) == K2
  {
    hide G, AddWords, Mixes, Plus;
    Squared2();
    Counted2();
    Mixed2();
    NextIs(K1, K2, [0xEDB81966, 0x716F8707, 0xB06823FD, 0x529CE28E, 0xA6C59255, 0x692A2646, 0x710979F3, 0xA27D11E0]);
  }

  const K3: State := State(
    [0xCD328957, 0x66D5AB1F, 0x0D115824, 0xFCCEB784, 0x12E900D7, 0x36A46997, 0x9F40C5BC, 0xAB1C8A08],
    [0xF0A684F2, 0x7CE9A37D, 0xAB85F6AC, 0xEEA482EF, 0x7AE7A17B, 0xA983F4AA, 0xECA280ED, 0x88F59F79],
    1)

  lemma Squared3()
    ensures G(0x798C2CEC, 0xF0A684F2) == 0xE242B9D1 && G(0xCC05FFD4, 0x7CE9A37D) == 0xFDA9938E
    ensures G(0x50D68324, 0xAB85F6AC) == 0xBFB07839 && G(0x2C306745, 0xEEA482EF) == 0x4EACEA37
    ensures G(0xAD519559, 0x7AE7A17B) == 0xB077F27B && G(0x81595E7A, 0xA983F4AA) == 0x700503B0
    ensures G(0x29A589E2, 0xECA280ED) == 0xA914A540 && G(0x15212B97, 0x88F59F79) == 0x267245AF
  {
    hide G;
    GAt(0x798C2CEC, 0xF0A684F2, 0x6A32B1DE, 0x2C, 0x0E, 0x05, 0x55, 0xCE, 0x4C, 0xBC, 0x84);
    GAt(0xCC05FFD4, 0x7CE9A37D, 0x48EFA351, 0x14, 0xC7, 0xAC, 0x2F, 0xE9, 0x6E, 0x3F, 0xA1);
    GAt(0x50D68324, 0xAB85F6AC, 0xFC5C79D0, 0xF8, 0xC6, 0x31, 0x39, 0x47, 0x76, 0x49, 0x00);
    GAt(0x2C306745, 0xEEA482EF, 0x1AD4EA34, 0x02, 0xCF, 0xF0, 0xA7, 0x4C, 0x63, 0x1A, 0x90);
    GAt(0xAD519559, 0x7AE7A17B, 0x283936D4, 0x06, 0x51, 0xED, 0xEB, 0xB6, 0x26, 0x1F, 0x90);
    GAt(0x81595E7A, 0xA983F4AA, 0x2ADD5324, 0x07, 0x2D, 0x5E, 0xA0, 0x77, 0x28, 0x5D, 0x10);
    GAt(0x29A589E2, 0xECA280ED, 0x16480ACF, 0x01, 0xF0, 0x76, 0x21, 0xA8, 0xE4, 0xD3, 0x61);
    GAt(0x15212B97, 0x88F59F79, 0x9E16CB10, 0x61, 0xA0, 0x24, 0xAF, 0x47, 0xD2, 0x61, 0x00);
  }

  lemma Counted3()
    ensures AddWords([0xA371B1A4, 0xA99C6EAA, 0x76B2A977, 0xA16FAFA2, 0xA79A6CA8, 0x74B0A775, 0x9F6DADA0, 0xB5A86AA6], A, 1)
         == ([0xF0A684F2, 0x7CE9A37D, 0xAB85F6AC, 0xEEA482EF, 0x7AE7A17B, 0xA983F4AA, 0xECA280ED, 0x88F59F79], 1)
  {
    hide AddWords;
    CounterAt(0xA371B1A4, 0xA99C6EAA, 0x76B2A977, 0xA16FAFA2, 0xA79A6CA8, 0x74B0A775, 0x9F6DADA0, 0xB5A86AA6, 1,
              0xF0A684F2, 0x7CE9A37D, 0xAB85F6AC, 0xEEA482EF, 0x7AE7A17B, 0xA983F4AA, 0xECA280ED, 0x88F59F79, 0, 1, 0, 0, 1, 0, 0, 1);
  }

  lemma Mixed3()
    ensures Mixes([0xE242B9D1, 0xFDA9938E, 0xBFB07839, 0x4EACEA37, 0xB077F27B, 0x700503B0, 0xA914A540, 0x267245AF],
                  [0xCD328957, 0x66D5AB1F, 0x0D115824, 0xFCCEB784, 0x12E900D7, 0x36A46997, 0x9F40C5BC, 0xAB1C8A08])
  {
    MixAt(0xE242B9D1, 0xFDA9938E, 0xBFB07839, 0x4EACEA37, 0xB077F27B, 0x700503B0, 0xA914A540, 0x267245AF,
          0xB9D1E242, 0x938EFDA9, 0x7839BFB0, 0xEA374EAC, 0xF27BB077, 0x03B07005, 0xA540A914, 0x45AF2672,
          0x42B9D1E2, 0xB07839BF, 0x77F27BB0, 0x14A540A9);
    hide Mixes, RotateLeft8, RotateLeft16;
  }

  lemma Step3()
    ensures Next(K2) == K3
  {
    hide G, AddWords, Mixes, Plus;
    Squared3();
    Counted3();
    Mixed3();
    NextIs(K2, K3, [0xE242B9D1, 0xFDA9938E, 0xBFB07839, 0x4EACEA37, 0xB077F27B, 0x700503B0, 0xA914A540, 0x267245AF]);
  }

  const K4: State := State(
    [0xA31515F8, 0x5DFD3AC6, 0x33CD6AD2, 0x4BD778E5, 0x89708269, 0xD93095C1, 0x5E495F60, 0xC197863A],
    [0x3DDB5840, 0x5036D851, 0xE05943E1, 0x3BD9563C, 0x4E34D64F, 0xDE5741DF, 0x39D7543A, 0x5C42D44D],
    1)

  lemma Squared4()
    ensures G(0xCD328957, 0x3DDB5840) == 0xAA5AF532 && G(0x66D5AB1F, 0x5036D851) == 0x37193586
    ensures G(0x0D115824, 0xE05943E1) == 0x0914895F && G(0xFCCEB784, 0x3BD9563C) == 0x0034E456
    ensures G(0x12E900D7, 0x4E34D64F) == 0x1BBB7921 && G(0x36A46997, 0xDE5741DF) == 0x1D829050
    ensures G(0x9F40C5BC, 0x39D7543A) == 0x54D82623 && G(0xAB1C8A08, 0x5C42D44D) == 0xCBEED296
  {
    hide G;
    GAt(0xCD328957, 0x3DDB5840, 0x0B0DE197, 0x00, 0x7A, 0x32, 0x23, 0xAA, 0x20, 0xC7, 0x11);
    GAt(0x66D5AB1F, 0x5036D851, 0xB70C8370, 0x82, 0xE2, 0xE4, 0x86, 0xB5, 0xFB, 0xD1, 0x00);
    GAt(0x0D115824, 0xE05943E1, 0xED6A9C05, 0xDC, 0x2E, 0x91, 0x46, 0xD5, 0x3A, 0x18, 0x19);
    GAt(0xFCCEB784, 0x3BD9563C, 0x38A80DC0, 0x0C, 0x89, 0xF4, 0x56, 0x0C, 0xBD, 0x10, 0x00);
    GAt(0x12E900D7, 0x4E34D64F, 0x611DD726, 0x24, 0xD7, 0xA0, 0x85, 0x3F, 0x6C, 0xD9, 0xA4);
    GAt(0x36A46997, 0xDE5741DF, 0x14FBAB76, 0x01, 0xB8, 0x4A, 0x34, 0x1C, 0x3A, 0xDA, 0x64);
    GAt(0x9F40C5BC, 0x39D7543A, 0xD91819F6, 0xB8, 0x19, 0xDE, 0x47, 0xEC, 0xC1, 0xF8, 0x64);
    GAt(0xAB1C8A08, 0x5C42D44D, 0x075F5E55, 0x00, 0x36, 0x5A, 0xAF, 0xCB, 0xD8, 0x88, 0x39);
  }

  lemma Counted4()
    ensures AddWords([0xF0A684F2, 0x7CE9A37D, 0xAB85F6AC, 0xEEA482EF, 0x7AE7A17B, 0xA983F4AA, 0xECA280ED, 0x88F59F79], A, 1)
         == ([0x3DDB5840, 0x5036D851, 0xE05943E1, 0x3BD9563C, 0x4E34D64F, 0xDE5741DF, 0x39D7543A, 0x5C42D44D], 1)
  {
    hide AddWords;
    CounterAt(0xF0A684F2, 0x7CE9A37D, 0xAB85F6AC, 0xEEA482EF, 0x7AE7A17B, 0xA983F4AA, 0xECA280ED, 0x88F59F79, 1,
              0x3DDB5840, 0x5036D851, 0xE05943E1, 0x3BD9563C, 0x4E34D64F, 0xDE5741DF, 0x39D7543A, 0x5C42D44D, 1, 1, 0, 1, 1, 0, 1, 1);
  }

  lemma Mixed4()
    ensures Mixes([0xAA5AF532, 0x37193586, 0x0914895F, 0x0034E456, 0x1BBB7921, 0x1D829050, 0x54D82623, 0xCBEED296],
                  [0xA31515F8, 0x5DFD3AC6, 0x33CD6AD2, 0x4BD778E5, 0x89708269, 0xD93095C1, 0x5E495F60, 0xC197863A])
  {
    MixAt(0xAA5AF532, 0x37193586, 0x0914895F, 0x0034E456, 0x1BBB7921, 0x1D829050, 0x54D82623, 0xCBEED296,
          0xF532AA5A, 0x35863719, 0x895F0914, 0xE4560034, 0x79211BBB, 0x90501D82, 0x262354D8, 0xD296CBEE,
          0x5AF532AA, 0x14895F09, 0xBB79211B, 0xD8262354);
    hide Mixes, RotateLeft8, RotateLeft16;
  }

  lemma Step4()
    ensures Next(K3) == K4
  {
    hide G, AddWords, Mixes, Plus;
    Squared4();
    Counted4();
    Mixed4();
    NextIs(K3, K4, [0xAA5AF532, 0x37193586, 0x0914895F, 0x0034E456, 0x1BBB7921, 0x1D829050, 0x54D82623, 0xCBEED296]);
  }

  const KEYED: State := State(
    [0xA31515F8, 0x5DFD3AC6, 0x33CD6AD2, 0x4BD778E5, 0x89708269, 0xD93095C1, 0x5E495F60, 0xC197863A],
    [0xB4ABDA29, 0x89064D90, 0xBE101C81, 0xFA4ED006, 0xED21C3B7, 0x83AA7B19, 0x0A1A3EE8, 0x1795ACA8],
    1)

  lemma Keyed()
    ensures Reinitialised(K4) == KEYED
  {
    XorAt(0x3D, 0xDB, 0x58, 0x40, 0x89, 0x70, 0x82, 0x69);
    XorAt(0x50, 0x36, 0xD8, 0x51, 0xD9, 0x30, 0x95, 0xC1);
    XorAt(0xE0, 0x59, 0x43, 0xE1, 0x5E, 0x49, 0x5F, 0x60);
    XorAt(0x3B, 0xD9, 0x56, 0x3C, 0xC1, 0x97, 0x86, 0x3A);
    XorAt(0x4E, 0x34, 0xD6, 0x4F, 0xA3, 0x15, 0x15, 0xF8);
    XorAt(0xDE, 0x57, 0x41, 0xDF, 0x5D, 0xFD, 0x3A, 0xC6);
    XorAt(0x39, 0xD7, 0x54, 0x3A, 0x33, 0xCD, 0x6A, 0xD2);
    XorAt(0x5C, 0x42, 0xD4, 0x4D, 0x4B, 0xD7, 0x78, 0xE5);
    hide XorWord;
    assert Reinitialised(K4).c == KEYED.c;
  }

  const FIRST: State := State(
    [0x51D918AB, 0x7BD66B83, 0x39D170FE, 0x294D7296, 0x8D86D48C, 0x58A32ED3, 0x8EDC4763, 0x80D56411],
    [0x01E0AD77, 0x5C538264, 0xF2E369B6, 0x4783A353, 0xC06EF88B, 0xB87DC84E, 0x574F1235, 0xEAE2E17B],
    0)

  lemma Squared5()
    ensures G(0xA31515F8, 0x01E0AD77) == 0xB5E38474 && G(0x5DFD3AC6, 0x5C538264) == 0x499E66B3
    ensures G(0x33CD6AD2, 0xF2E369B6) == 0x4EA9717D && G(0x4BD778E5, 0x4783A353) == 0x363D8E95
    ensures G(0x89708269, 0xC06EF88B) == 0x8D744FA6 && G(0xD93095C1, 0xB87DC84E) == 0xAE15F9B1
    ensures G(0x5E495F60, 0x574F1235) == 0x45840BDA && G(0xC197863A, 0xEAE2E17B) == 0x4EB3901B
  {
    hide G;
    GAt(0xA31515F8, 0x01E0AD77, 0xA4F5C36F, 0x6A, 0x4B, 0xCE, 0x55, 0xDF, 0xA8, 0x4A, 0x21);
    GAt(0x5DFD3AC6, 0x5C538264, 0xBA50BD2A, 0x87, 0x99, 0x6C, 0x57, 0xCE, 0x07, 0x0A, 0xE4);
    GAt(0x33CD6AD2, 0xF2E369B6, 0x26B0D488, 0x05, 0xD8, 0xF9, 0x3D, 0x4B, 0x71, 0x88, 0x40);
    GAt(0x4BD778E5, 0x4783A353, 0x935B1C38, 0x54, 0xD1, 0xC2, 0xD5, 0x62, 0xEC, 0x4C, 0x40);
    GAt(0x89708269, 0xC06EF88B, 0x49DF7AF4, 0x15, 0x51, 0x37, 0x36, 0x98, 0x25, 0x78, 0x90);
    GAt(0xD93095C1, 0xB87DC84E, 0x91AE5E0F, 0x52, 0xE6, 0xFD, 0x50, 0xFC, 0xF3, 0x04, 0xE1);
    GAt(0x5E495F60, 0x574F1235, 0xB5987195, 0x80, 0xD0, 0xEB, 0x63, 0xC5, 0x54, 0xE0, 0xB9);
    GAt(0xC197863A, 0xEAE2E17B, 0xAC7A67B5, 0x74, 0x34, 0xB5, 0xE2, 0x3A, 0x87, 0x25, 0xF9);
  }

  lemma Counted5()
    ensures AddWords([0xB4ABDA29, 0x89064D90, 0xBE101C81, 0xFA4ED006, 0xED21C3B7, 0x83AA7B19, 0x0A1A3EE8, 0x1795ACA8], A, 1)
         == ([0x01E0AD77, 0x5C538264, 0xF2E369B6, 0x4783A353, 0xC06EF88B, 0xB87DC84E, 0x574F1235, 0xEAE2E17B], 0)
  {
    hide AddWords;
    CounterAt(0xB4ABDA29, 0x89064D90, 0xBE101C81, 0xFA4ED006, 0xED21C3B7, 0x83AA7B19, 0x0A1A3EE8, 0x1795ACA8, 1,
              0x01E0AD77, 0x5C538264, 0xF2E369B6, 0x4783A353, 0xC06EF88B, 0xB87DC84E, 0x574F1235, 0xEAE2E17B, 1, 1, 0, 1, 1, 0, 0, 0);
  }

  lemma Mixed5()
    ensures Mixes([0xB5E38474, 0x499E66B3, 0x4EA9717D, 0x363D8E95, 0x8D744FA6, 0xAE15F9B1, 0x45840BDA, 0x4EB3901B],
                  [0x51D918AB, 0x7BD66B83, 0x39D170FE, 0x294D7296, 0x8D86D48C, 0x58A32ED3, 0x8EDC4763, 0x80D56411])
  {
    MixAt(0xB5E38474, 0x499E66B3, 0x4EA9717D, 0x363D8E95, 0x8D744FA6, 0xAE15F9B1, 0x45840BDA, 0x4EB3901B,
          0x8474B5E3, 0x66B3499E, 0x717D4EA9, 0x8E95363D, 0x4FA68D74, 0xF9B1AE15, 0x0BDA4584, 0x901B4EB3,
          0xE38474B5, 0xA9717D4E, 0x744FA68D, 0x840BDA45);
    hide Mixes, RotateLeft8, RotateLeft16;
  }

  lemma Step5()
    ensures Next(KEYED) == FIRST
  {
    hide G, AddWords, Mixes, Plus;
    Squared5();
    Counted5();
    Mixed5();
    NextIs(KEYED, FIRST, [0xB5E38474, 0x499E66B3, 0x4EA9717D, 0x363D8E95, 0x8D744FA6, 0xAE15F9B1, 0x45840BDA, 0x4EB3901B]);
  }

  lemma FirstBlock()
    ensures Extract(FIRST) == [0x08, 0x40, 0x4F, 0x23, 0x2B, 0xF0, 0x02, 0x17, 0x5A, 0xAF, 0x97, 0xE9, 0x2E, 0x6E, 0x5F, 0xE5]
  {
    HalfAt(0x18, 0xAB, 0x58, 0xA3);
    HalfAt(0x51, 0xD9, 0x72, 0x96);
    HalfAt(0x70, 0xFE, 0x80, 0xD5);
    HalfAt(0x39, 0xD1, 0x2E, 0xD3);
    HalfAt(0xD4, 0x8C, 0x7B, 0xD6);
    HalfAt(0x8D, 0x86, 0x64, 0x11);
    HalfAt(0x47, 0x63, 0x29, 0x4D);
    HalfAt(0x8E, 0xDC, 0x6B, 0x83);
    Ciphers.ExtractHalves(FIRST.x);
    hide XorHalf, LE, ExtractHalf;
  }

  const V0: State := State(
    [0xA31515F8, 0x5DFD3AC6, 0x33CD6AD2, 0x4BD778E5, 0x89708269, 0xD93095C1, 0x5E495F60, 0xC197863A],
    [0x69676183, 0x8D05905C, 0xBA131E80, 0xF84F6BAC, 0x30ED781D, 0x87A9A6D5, 0x0E193CE9, 0x15941702],
    1)

  lemma IvMasked()
    ensures Masked(KEYED, Val(IV)) == V0
  {
    IvWords();
    hide XorWord, IvMask, Val;
    IvXors();
    assert Masked(KEYED, Val(IV)).c == V0.c;
  }

  lemma IvXors()
    ensures XorWord(0xB4ABDA29, 0xDDCCBBAA) == 0x69676183
    ensures XorWord(0x89064D90, 0x0403DDCC) == 0x8D05905C
    ensures XorWord(0xBE101C81, 0x04030201) == 0xBA131E80
    ensures XorWord(0xFA4ED006, 0x0201BBAA) == 0xF84F6BAC
    ensures XorWord(0xED21C3B7, 0xDDCCBBAA) == 0x30ED781D
    ensures XorWord(0x83AA7B19, 0x0403DDCC) == 0x87A9A6D5
    ensures XorWord(0x0A1A3EE8, 0x04030201) == 0x0E193CE9
    ensures XorWord(0x1795ACA8, 0x0201BBAA) == 0x15941702
  {
    XorAt(0xB4, 0xAB, 0xDA, 0x29, 0xDD, 0xCC, 0xBB, 0xAA);
    XorAt(0x89, 0x06, 0x4D, 0x90, 0x04, 0x03, 0xDD, 0xCC);
    XorAt(0xBE, 0x10, 0x1C, 0x81, 0x04, 0x03, 0x02, 0x01);
    XorAt(0xFA, 0x4E, 0xD0, 0x06, 0x02, 0x01, 0xBB, 0xAA);
    XorAt(0xED, 0x21, 0xC3, 0xB7, 0xDD, 0xCC, 0xBB, 0xAA);
    XorAt(0x83, 0xAA, 0x7B, 0x19, 0x04, 0x03, 0xDD, 0xCC);
    XorAt(0x0A, 0x1A, 0x3E, 0xE8, 0x04, 0x03, 0x02, 0x01);
    XorAt(0x17, 0x95, 0xAC, 0xA8, 0x02, 0x01, 0xBB, 0xAA);
  }

  const V1: State := State(
    [0xDEC6221C, 0xC6541ED4, 0x7DEB3F60, 0x497D5CCB, 0xFC9AA8AA, 0x00A4C7B1, 0xE710F6E2, 0x96470AE9],
    [0xB69C34D1, 0x6052C52F, 0xEEE66BB5, 0x45843EF9, 0x043AACF1, 0xBC7CF40A, 0x5B4E1036, 0xE8E14BD5],
    0)

  lemma Squared6()
    ensures G(0xA31515F8, 0xB69C34D1) == 0x5EA61119 && G(0x5DFD3AC6, 0x6052C52F) == 0x285AD896
    ensures G(0x33CD6AD2, 0xEEE66BB5) == 0x943BB860 && G(0x4BD778E5, 0x45843EF9) == 0xE56A23A1
    ensures G(0x89708269, 0x043AACF1) == 0x20982F05 && G(0xD93095C1, 0xBC7CF40A) == 0x830B9EF0
    ensures G(0x5E495F60, 0x5B4E1036) == 0x191B533F && G(0xC197863A, 0xE8E14BD5) == 0xF7E82CE0
  {
    hide G;
    GAt(0xA31515F8, 0xB69C34D1, 0x59B14AC9, 0x1F, 0x6C, 0xC0, 0xC8, 0x41, 0xCA, 0xD1, 0xD1);
    GAt(0x5DFD3AC6, 0x6052C52F, 0xBE4FFFF5, 0x8D, 0x7A, 0xD8, 0xEF, 0xA5, 0x20, 0x00, 0x79);
    GAt(0x33CD6AD2, 0xEEE66BB5, 0x22B3D687, 0x04, 0xB4, 0x43, 0x51, 0x90, 0x8F, 0xFB, 0x31);
    GAt(0x4BD778E5, 0x45843EF9, 0x915BB7DE, 0x52, 0x89, 0x07, 0x25, 0xB7, 0xE3, 0x24, 0x84);
    GAt(0x89708269, 0x043AACF1, 0x8DAB2F5A, 0x4E, 0x66, 0x04, 0xA1, 0x6E, 0xFE, 0x2B, 0xA4);
    GAt(0xD93095C1, 0xBC7CF40A, 0x95AD89CB, 0x57, 0x83, 0x78, 0x09, 0xD4, 0x88, 0xE6, 0xF9);
    GAt(0x5E495F60, 0x5B4E1036, 0xB9976F96, 0x86, 0x8C, 0x38, 0xDB, 0x9F, 0x97, 0x6B, 0xE4);
    GAt(0xC197863A, 0xE8E14BD5, 0xAA78D20F, 0x71, 0x84, 0xB0, 0x01, 0x86, 0x6C, 0x9C, 0xE1);
  }

  lemma Counted6()
    ensures AddWords([0x69676183, 0x8D05905C, 0xBA131E80, 0xF84F6BAC, 0x30ED781D, 0x87A9A6D5, 0x0E193CE9, 0x15941702], A, 1)
         == ([0xB69C34D1, 0x6052C52F, 0xEEE66BB5, 0x45843EF9, 0x043AACF1, 0xBC7CF40A, 0x5B4E1036, 0xE8E14BD5], 0)
  {
    hide AddWords;
    CounterAt(0x69676183, 0x8D05905C, 0xBA131E80, 0xF84F6BAC, 0x30ED781D, 0x87A9A6D5, 0x0E193CE9, 0x15941702, 1,
              0xB69C34D1, 0x6052C52F, 0xEEE66BB5, 0x45843EF9, 0x043AACF1, 0xBC7CF40A, 0x5B4E1036, 0xE8E14BD5, 0, 1, 0, 1, 1, 0, 0, 0);
  }

  lemma Mixed6()
    ensures Mixes([0x5EA61119, 0x285AD896, 0x943BB860, 0xE56A23A1, 0x20982F05, 0x830B9EF0, 0x191B533F, 0xF7E82CE0],
                  [0xDEC6221C, 0xC6541ED4, 0x7DEB3F60, 0x497D5CCB, 0xFC9AA8AA, 0x00A4C7B1, 0xE710F6E2, 0x96470AE9])
  {
    MixAt(0x5EA61119, 0x285AD896, 0x943BB860, 0xE56A23A1, 0x20982F05, 0x830B9EF0, 0x191B533F, 0xF7E82CE0,
          0x11195EA6, 0xD896285A, 0xB860943B, 0x23A1E56A, 0x2F052098, 0x9EF0830B, 0x533F191B, 0x2CE0F7E8,
          0xA611195E, 0x3BB86094, 0x982F0520, 0x1B533F19);
    hide Mixes, RotateLeft8, RotateLeft16;
  }

  lemma Step6()
    ensures Next(V0) == V1
  {
    hide G, AddWords, Mixes, Plus;
    Squared6();
    Counted6();
    Mixed6();
    NextIs(V0, V1, [0x5EA61119, 0x285AD896, 0x943BB860, 0xE56A23A1, 0x20982F05, 0x830B9EF0, 0x191B533F, 0xF7E82CE0]);
  }

  const V2: State := State(
    [0xEBE533EC, 0x32A806B7, 0x36060631, 0x4492C502, 0x97118ADF, 0x160E3DA9, 0xB9F28BFD, 0x94428DED],
    [0x03D1081E, 0x339FFA03, 0x23B9B8EA, 0x92B91247, 0xD787E1C4, 0xF150413E, 0xA882E383, 0xBC2E80A8],
    1)

  lemma Squared7()
    ensures G(0xDEC6221C, 0x03D1081E) == 0xF7EC2AF5 && G(0xC6541ED4, 0x339FFA03) == 0x6E4DC580
    ensures G(0x7DEB3F60, 0x23B9B8EA) == 0x458F9FF8 && G(0x497D5CCB, 0x92B91247) == 0x46A5073D
    ensures G(0xFC9AA8AA, 0xD787E1C4) == 0xEFDBFEAB && G(0x00A4C7B1, 0xF150413E) == 0xF36A8A7D
    ensures G(0xE710F6E2, 0xA882E383) == 0x30C8A8B8 && G(0x96470AE9, 0xBC2E80A8) == 0xD82F4B40
  {
    hide G;
    GAt(0xDEC6221C, 0x03D1081E, 0xE2972A3A, 0xC8, 0x8F, 0x3F, 0xD1, 0x3F, 0x63, 0x15, 0x24);
    GAt(0xC6541ED4, 0x339FFA03, 0xF9F418D7, 0xF4, 0x0C, 0xC1, 0x11, 0x9A, 0x41, 0x04, 0x91);
    GAt(0x7DEB3F60, 0x23B9B8EA, 0xA1A4F84A, 0x66, 0x10, 0xEA, 0x9C, 0x23, 0x9F, 0x75, 0x64);
    GAt(0x497D5CCB, 0x92B91247, 0xDC366F12, 0xBD, 0x6D, 0x9A, 0x79, 0xFB, 0xC8, 0x9D, 0x44);
    GAt(0xFC9AA8AA, 0xD787E1C4, 0xD4228A6E, 0xAF, 0xC9, 0x39, 0xEF, 0x40, 0x12, 0xC7, 0x44);
    GAt(0x00A4C7B1, 0xF150413E, 0xF1F508EF, 0xE4, 0xAF, 0x45, 0x5C, 0x17, 0xC5, 0xCF, 0x21);
    GAt(0xE710F6E2, 0xA882E383, 0x8F93DA65, 0x50, 0x86, 0x83, 0x61, 0x60, 0x4E, 0x2B, 0xD9);
    GAt(0x96470AE9, 0xBC2E80A8, 0x52758B91, 0x1A, 0x8F, 0x83, 0x61, 0xC2, 0xA0, 0xC8, 0x21);
  }

  lemma Counted7()
    ensures AddWords([0xB69C34D1, 0x6052C52F, 0xEEE66BB5, 0x45843EF9, 0x043AACF1, 0xBC7CF40A, 0x5B4E1036, 0xE8E14BD5], A, 0)
         == ([0x03D1081E, 0x339FFA03, 0x23B9B8EA, 0x92B91247, 0xD787E1C4, 0xF150413E, 0xA882E383, 0xBC2E80A8], 1)
  {
    hide AddWords;
    CounterAt(0xB69C34D1, 0x6052C52F, 0xEEE66BB5, 0x45843EF9, 0x043AACF1, 0xBC7CF40A, 0x5B4E1036, 0xE8E14BD5, 0,
              0x03D1081E, 0x339FFA03, 0x23B9B8EA, 0x92B91247, 0xD787E1C4, 0xF150413E, 0xA882E383, 0xBC2E80A8, 1, 1, 1, 0, 0, 0, 0, 1);
  }

  lemma Mixed7()
    ensures Mixes([0xF7EC2AF5, 0x6E4DC580, 0x458F9FF8, 0x46A5073D, 0xEFDBFEAB, 0xF36A8A7D, 0x30C8A8B8, 0xD82F4B40],
                  [0xEBE533EC, 0x32A806B7, 0x36060631, 0x4492C502, 0x97118ADF, 0x160E3DA9, 0xB9F28BFD, 0x94428DED])
  {
    MixAt(0xF7EC2AF5, 0x6E4DC580, 0x458F9FF8, 0x46A5073D, 0xEFDBFEAB, 0xF36A8A7D, 0x30C8A8B8, 0xD82F4B40,
          0x2AF5F7EC, 0xC5806E4D, 0x9FF8458F, 0x073D46A5, 0xFEABEFDB, 0x8A7DF36A, 0xA8B830C8, 0x4B40D82F,
          0xEC2AF5F7, 0x8F9FF845, 0xDBFEABEF, 0xC8A8B830);
    hide Mixes, RotateLeft8, RotateLeft16;
  }

  lemma Step7()
    ensures Next(V1) == V2
  {
    hide G, AddWords, Mixes, Plus;
    Squared7();
    Counted7();
    Mixed7();
    NextIs(V1, V2, [0xF7EC2AF5, 0x6E4DC580, 0x458F9FF8, 0x46A5073D, 0xEFDBFEAB, 0xF36A8A7D, 0x30C8A8B8, 0xD82F4B40]);
  }

  const V3: State := State(
    [0x50F115B4, 0xC0F1B771, 0x7BD078C9, 0x6B358665, 0x4F8C2D4F, 0x494361EE, 0x297A31D4, 0x0D1B21F9],
    [0x5105DB6C, 0x06ED2ED6, 0x588D061F, 0xDFEDE594, 0xAAD51697, 0x26238E73, 0xF5B7B6D1, 0x8F7BB57B],
    1)

  lemma Squared8()
    ensures G(0xEBE533EC, 0x5105DB6C) == 0x62046946 && G(0x32A806B7, 0x06ED2ED6) == 0x27A66779
    ensures G(0x36060631, 0x588D061F) == 0xAB10EF1F && G(0x4492C502, 0xDFEDE594) == 0x329FFF41
    ensures G(0x97118ADF, 0xAAD51697) == 0x612B4FA0 && G(0x160E3DA9, 0x26238E73) == 0xEB53C24C
    ensures G(0xB9F28BFD, 0xF5B7B6D1) == 0x178CE556 && G(0x94428DED, 0x8F7BB57B) == 0x94E20996
  {
    hide G;
    GAt(0xEBE533EC, 0x5105DB6C, 0x3CEB0F58, 0x0E, 0x7F, 0x07, 0x06, 0x6C, 0x7B, 0x6E, 0x40);
    GAt(0x32A806B7, 0x06ED2ED6, 0x3995358D, 0x0C, 0xF3, 0xC8, 0xD0, 0x2B, 0x55, 0xAF, 0xA9);
    GAt(0x36060631, 0x588D061F, 0x8E930C50, 0x4F, 0x67, 0x76, 0x1F, 0xE4, 0x77, 0x99, 0x00);
    GAt(0x4492C502, 0xDFEDE594, 0x2480AA96, 0x05, 0x34, 0x70, 0xA5, 0x37, 0xAB, 0x8F, 0xE4);
    GAt(0x97118ADF, 0xAAD51697, 0x41E6A176, 0x10, 0xF6, 0xED, 0xC4, 0x71, 0xDD, 0xA2, 0x64);
    GAt(0x160E3DA9, 0x26238E73, 0x3C31CC1C, 0x0E, 0x27, 0x61, 0x5C, 0xE5, 0x74, 0xA3, 0x10);
    GAt(0xB9F28BFD, 0xF5B7B6D1, 0xAFAA42CE, 0x78, 0x8A, 0x38, 0x92, 0x6F, 0x06, 0xDD, 0xC4);
    GAt(0x94428DED, 0x8F7BB57B, 0x23BE4368, 0x04, 0xFD, 0x93, 0xD6, 0x90, 0x1F, 0x9A, 0x40);
  }

  lemma Counted8()
    ensures AddWords([0x03D1081E, 0x339FFA03, 0x23B9B8EA, 0x92B91247, 0xD787E1C4, 0xF150413E, 0xA882E383, 0xBC2E80A8], A, 1)
         == ([0x5105DB6C, 0x06ED2ED6, 0x588D061F, 0xDFEDE594, 0xAAD51697, 0x26238E73, 0xF5B7B6D1, 0x8F7BB57B], 1)
  {
    hide AddWords;
    CounterAt(0x03D1081E, 0x339FFA03, 0x23B9B8EA, 0x92B91247, 0xD787E1C4, 0xF150413E, 0xA882E383, 0xBC2E80A8, 1,
              0x5105DB6C, 0x06ED2ED6, 0x588D061F, 0xDFEDE594, 0xAAD51697, 0x26238E73, 0xF5B7B6D1, 0x8F7BB57B, 0, 1, 0, 0, 1, 1, 0, 1);
  }

  lemma Mixed8()
    ensures Mixes([0x62046946, 0x27A66779, 0xAB10EF1F, 0x329FFF41, 0x612B4FA0, 0xEB53C24C, 0x178CE556, 0x94E20996],
                  [0x50F115B4, 0xC0F1B771, 0x7BD078C9, 0x6B358665, 0x4F8C2D4F, 0x494361EE, 0x297A31D4, 0x0D1B21F9])
  {
    MixAt(0x62046946, 0x27A66779, 0xAB10EF1F, 0x329FFF41, 0x612B4FA0, 0xEB53C24C, 0x178CE556, 0x94E20996,
          0x69466204, 0x677927A6, 0xEF1FAB10, 0xFF41329F, 0x4FA0612B, 0xC24CEB53, 0xE556178C, 0x099694E2,
          0x04694662, 0x10EF1FAB, 0x2B4FA061, 0x8CE55617);
    hide Mixes, RotateLeft8, RotateLeft16;
  }

  lemma Step8()
    ensures Next(V2) == V3
  {
    hide G, AddWords, Mixes, Plus;
    Squared8();
    Counted8();
    Mixed8();
    NextIs(V2, V3, [0x62046946, 0x27A66779, 0xAB10EF1F, 0x329FFF41, 0x612B4FA0, 0xEB53C24C, 0x178CE556, 0x94E20996]);
  }

  const V4: State := State(
    [0x2975126A, 0xD0506C82, 0x933B8F55, 0xF000349D, 0xDFE81E39, 0xCB015512, 0xD6689322, 0xE56AE3AB],
    [0x9E3AAEBA, 0xDA3A63A9, 0x8D605353, 0x2D22B8E1, 0x7E224B6B, 0x5AF6DBA8, 0x42EC8A1E, 0x62C8EA4F],
    1)

  lemma Squared9()
    ensures G(0x50F115B4, 0x9E3AAEBA) == 0x28DE5F04 && G(0xC0F1B771, 0xDA3A63A9) == 0x91C00ECE
    ensures G(0x7BD078C9, 0x8D605353) == 0x2568D4B7 && G(0x6B358665, 0x2D22B8E1) == 0xF56B6EAA
    ensures G(0x4F8C2D4F, 0x7E224B6B) == 0x9C860366 && G(0x494361EE, 0x5AF6DBA8) == 0x4F927FCC
    ensures G(0x297A31D4, 0x42EC8A1E) == 0x5335A70A && G(0x0D1B21F9, 0x62C8EA4F) == 0x6031598C
  {
    hide G;
    GAt(0x50F115B4, 0x9E3AAEBA, 0xEF2BC46E, 0xDF, 0x72, 0xC0, 0x40, 0xF7, 0xAC, 0x9F, 0x44);
    GAt(0xC0F1B771, 0xDA3A63A9, 0x9B2C1B1A, 0x5E, 0x0E, 0x70, 0x6A, 0xCF, 0xCE, 0x7E, 0xA4);
    GAt(0x7BD078C9, 0x8D605353, 0x0930CC1C, 0x00, 0x54, 0x77, 0xA7, 0x25, 0x3C, 0xA3, 0x10);
    GAt(0x6B358665, 0x2D22B8E1, 0x98583F46, 0x5A, 0xA8, 0xE9, 0x8E, 0xAF, 0xC3, 0x87, 0x24);
    GAt(0x4F8C2D4F, 0x7E224B6B, 0xCDAE78BA, 0xA5, 0x40, 0xE4, 0x42, 0x39, 0xC6, 0xE7, 0x24);
    GAt(0x494361EE, 0x5AF6DBA8, 0xA43A3D96, 0x69, 0x5A, 0xAC, 0x28, 0x26, 0xC8, 0xD3, 0xE4);
    GAt(0x297A31D4, 0x42EC8A1E, 0x6C66BBF2, 0x2D, 0xE6, 0xD7, 0xCE, 0x7E, 0xD3, 0x70, 0xC4);
    GAt(0x0D1B21F9, 0x62C8EA4F, 0x6FE40C48, 0x30, 0xE7, 0x8D, 0xCC, 0x50, 0xD6, 0xD4, 0x40);
  }

  lemma Counted9()
    ensures AddWords([0x5105DB6C, 0x06ED2ED6, 0x588D061F, 0xDFEDE594, 0xAAD51697, 0x26238E73, 0xF5B7B6D1, 0x8F7BB57B], A, 1)
         == ([0x9E3AAEBA, 0xDA3A63A9, 0x8D605353, 0x2D22B8E1, 0x7E224B6B, 0x5AF6DBA8, 0x42EC8A1E, 0x62C8EA4F], 1)
  {
    hide AddWords;
    CounterAt(0x5105DB6C, 0x06ED2ED6, 0x588D061F, 0xDFEDE594, 0xAAD51697, 0x26238E73, 0xF5B7B6D1, 0x8F7BB57B, 1,
              0x9E3AAEBA, 0xDA3A63A9, 0x8D605353, 0x2D22B8E1, 0x7E224B6B, 0x5AF6DBA8, 0x42EC8A1E, 0x62C8EA4F, 0, 0, 0, 1, 1, 0, 1, 1);
  }

  lemma Mixed9()
    ensures Mixes([0x28DE5F04, 0x91C00ECE, 0x2568D4B7, 0xF56B6EAA, 0x9C860366, 0x4F927FCC, 0x5335A70A, 0x6031598C],
                  [0x2975126A, 0xD0506C82, 0x933B8F55, 0xF000349D, 0xDFE81E39, 0xCB015512, 0xD6689322, 0xE56AE3AB])
  {
    MixAt(0x28DE5F04, 0x91C00ECE, 0x2568D4B7, 0xF56B6EAA, 0x9C860366, 0x4F927FCC, 0x5335A70A, 0x6031598C,
          0x5F0428DE, 0x0ECE91C0, 0xD4B72568, 0x6EAAF56B, 0x03669C86, 0x7FCC4F92, 0xA70A5335, 0x598C6031,
          0xDE5F0428, 0x68D4B725, 0x8603669C, 0x35A70A53);
    hide Mixes, RotateLeft8, RotateLeft16;
  }

  lemma Step9()
    ensures Next(V3) == V4
  {
    hide G, AddWords, Mixes, Plus;
    Squared9();
    Counted9();
    Mixed9();
    NextIs(V3, V4, [0x28DE5F04, 0x91C00ECE, 0x2568D4B7, 0xF56B6EAA, 0x9C860366, 0x4F927FCC, 0x5335A70A, 0x6031598C]);
  }

  const FIRST_IV: State := State(
    [0xDBED31C3, 0xE83B856E, 0x18D6B8CE, 0xFC4F0AC1, 0x799B9F19, 0x398AD45E, 0x45446BF3, 0x15C04DBB],
    [0xEB6F8208, 0xAD87987C, 0xC233A088, 0x7A578C2E, 0x516F803E, 0x8FCA28DD, 0x90215D6B, 0x36161F22],
    1)

  lemma Squared10()
    ensures G(0x2975126A, 0xEB6F8208) == 0x9090818E && G(0xD0506C82, 0xAD87987C) == 0x4564472C
    ensures G(0x933B8F55, 0xC233A088) == 0x501BE2DA && G(0xF000349D, 0x7A578C2E) == 0x9B07E945
    ensures G(0xDFE81E39, 0x516F803E) == 0xAD7BB3F7 && G(0xCB015512, 0x8FCA28DD) == 0x22CEF36C
    ensures G(0xD6689322, 0x90215D6B) == 0x9DE09BAA && G(0xE56AE3AB, 0x36161F22) == 0x1255AFB2
  {
    hide G;
    GAt(0x2975126A, 0xEB6F8208, 0x14E49472, 0x01, 0xB4, 0x83, 0x4A, 0x91, 0x24, 0x02, 0xC4);
    GAt(0xD0506C82, 0xAD87987C, 0x7DD804FE, 0x3D, 0xDC, 0xAB, 0x28, 0x78, 0xB8, 0xEC, 0x04);
    GAt(0x933B8F55, 0xC233A088, 0x556F2FDD, 0x1C, 0x83, 0x06, 0x13, 0x4C, 0x98, 0xE4, 0xC9);
    GAt(0xF000349D, 0x7A578C2E, 0x6A57C0CB, 0x2C, 0x2C, 0xC9, 0xBC, 0xB7, 0x2B, 0x20, 0xF9);
    GAt(0xDFE81E39, 0x516F803E, 0x31579E77, 0x09, 0x82, 0xA8, 0xA6, 0xA4, 0xF9, 0x1B, 0x51);
    GAt(0xCB015512, 0x8FCA28DD, 0x5ACB7DEF, 0x20, 0x33, 0xB6, 0x4D, 0x02, 0xFD, 0x45, 0x21);
    GAt(0xD6689322, 0x90215D6B, 0x6689F08D, 0x29, 0x12, 0x36, 0x03, 0xB4, 0xF2, 0xAD, 0xA9);
    GAt(0xE56AE3AB, 0x36161F22, 0x1B8102CD, 0x02, 0xF4, 0x77, 0x9B, 0x10, 0xA1, 0xD8, 0x29);
  }

  lemma Counted10()
    ensures AddWords([0x9E3AAEBA, 0xDA3A63A9, 0x8D605353, 0x2D22B8E1, 0x7E224B6B, 0x5AF6DBA8, 0x42EC8A1E, 0x62C8EA4F], A, 1)
         == ([0xEB6F8208, 0xAD87987C, 0xC233A088, 0x7A578C2E, 0x516F803E, 0x8FCA28DD, 0x90215D6B, 0x36161F22], 1)
  {
    hide AddWords;
    CounterAt(0x9E3AAEBA, 0xDA3A63A9, 0x8D605353, 0x2D22B8E1, 0x7E224B6B, 0x5AF6DBA8, 0x42EC8A1E, 0x62C8EA4F, 1,
              0xEB6F8208, 0xAD87987C, 0xC233A088, 0x7A578C2E, 0x516F803E, 0x8FCA28DD, 0x90215D6B, 0x36161F22, 0, 1, 0, 0, 1, 0, 0, 1);
  }

  lemma Mixed10()
    ensures Mixes([0x9090818E, 0x4564472C, 0x501BE2DA, 0x9B07E945, 0xAD7BB3F7, 0x22CEF36C, 0x9DE09BAA, 0x1255AFB2],
                  [0xDBED31C3, 0xE83B856E, 0x18D6B8CE, 0xFC4F0AC1, 0x799B9F19, 0x398AD45E, 0x45446BF3, 0x15C04DBB])
  {
    MixAt(0x9090818E, 0x4564472C, 0x501BE2DA, 0x9B07E945, 0xAD7BB3F7, 0x22CEF36C, 0x9DE09BAA, 0x1255AFB2,
          0x818E9090, 0x472C4564, 0xE2DA501B, 0xE9459B07, 0xB3F7AD7B, 0xF36C22CE, 0x9BAA9DE0, 0xAFB21255,
          0x90818E90, 0x1BE2DA50, 0x7BB3F7AD, 0xE09BAA9D);
    hide Mixes, RotateLeft8, RotateLeft16;
  }

  lemma Step10()
    ensures Next(V4) == FIRST_IV
  {
    hide G, AddWords, Mixes, Plus;
    Squared10();
    Counted10();
    Mixed10();
    NextIs(V4, FIRST_IV, [0x9090818E, 0x4564472C, 0x501BE2DA, 0x9B07E945, 0xAD7BB3F7, 0x22CEF36C, 0x9DE09BAA, 0x1255AFB2]);
  }

  lemma FirstIvBlock()
    ensures Extract(FIRST_IV) == [0x49, 0x08, 0x2C, 0xD1, 0x0E, 0xAD, 0x88, 0xCC, 0x22, 0x77, 0x20, 0x34, 0xBC, 0x97, 0x2A, 0xC0]
  {
    HalfAt(0x31, 0xC3, 0x39, 0x8A);
    HalfAt(0xDB, 0xED, 0x0A, 0xC1);
    HalfAt(0xB8, 0xCE, 0x15, 0xC0);
    HalfAt(0x18, 0xD6, 0xD4, 0x5E);
    HalfAt(0x9F, 0x19, 0xE8, 0x3B);
    HalfAt(0x79, 0x9B, 0x4D, 0xBB);
    HalfAt(0x6B, 0xF3, 0xFC, 0x4F);
    HalfAt(0x45, 0x44, 0x85, 0x6E);
    Ciphers.ExtractHalves(FIRST_IV.x);
    hide XorHalf, LE, ExtractHalf;
  }

  // ---------------------------------------------------------------- the keystreams

  lemma IvValues()
    ensures Val(IV[..4]) == 0xDDCC_BBAA && Val(IV[4..8]) == 0x0403_0201
  {
    assert IV[..4] == LE(4, 0xDDCC_BBAA) && IV[4..8] == LE(4, 0x0403_0201);
    ReadWritten(4, 0xDDCC_BBAA);
    ReadWritten(4, 0x0403_0201);
  }

  lemma IvShifted()
    ensures ShiftOr(Hi(0x0403_0201), Hi(0xDDCC_BBAA)) == 0x0403_DDCC
    ensures ShiftOr(Lo(0x0403_0201), Lo(0xDDCC_BBAA)) == 0x0201_BBAA
  {
  }

  lemma SetupWithIv(key: bytes, iv: bytes)
    requires |key| == 16 && |iv| == 8
    ensures Setup(key, Some(iv)) == Iterate(RABBIT, Masked(KeySetup(key), Val(iv)), 4)
  {
    hide KeySetup, Masked, Val;
    assert iv[..8] == iv;
  }

  lemma IvWords()
    ensures var v := Val(IV);
            && IvMask(v, 0) == IvMask(v, 4) == 0xDDCC_BBAA && IvMask(v, 1) == IvMask(v, 5) == 0x0403_DDCC
            && IvMask(v, 2) == IvMask(v, 6) == 0x0403_0201 && IvMask(v, 3) == IvMask(v, 7) == 0x0201_BBAA
  {
    IvValues();
    IvShifted();
    hide Val, IvMask, ShiftOr, Hi, Lo;
    assert IV[..8] == IV;
    Ciphers.IvMasks(IV);
  }

  lemma {:induction false} FourSteps(a: State, b: State, c: State, d: State, e: State)
    ensures Next(a) == b && Next(b) == c && Next(c) == d && Next(d) == e ==> Iterate(RABBIT, a, 4) == e
  {
    hide Next;
    Ciphers.OneStep(a, 0);
    Ciphers.OneStep(a, 1);
    Ciphers.OneStep(a, 2);
    Ciphers.OneStep(a, 3);
  }

  lemma SetUp()
    ensures KeySetup(KEY) == KEYED
  {
    hide Next, KeyLoaded, Reinitialised;
    Loaded();
    Step1();
    Step2();
    Step3();
    Step4();
    FourSteps(K0, K1, K2, K3, K4);
    Keyed();
  }

  lemma FirstOf(s: State, t: State)
    requires Next(s) == t
    ensures Blocks(RABBIT, s, 1) == Extract(t)
  {
    hide Next, Extract;
    Ciphers.OneStep(s, 0);
    assert Blocks(RABBIT, s, 0) + Extract(t) == Extract(t);
  }

  /** The first block under the key 00 01 ... 0F. */
  lemma KeyOnly()
    ensures Blocks(RABBIT, Setup(KEY, None), 1)
         == [0x08, 0x40, 0x4F, 0x23, 0x2B, 0xF0, 0x02, 0x17, 0x5A, 0xAF, 0x97, 0xE9, 0x2E, 0x6E, 0x5F, 0xE5]
  {
    hide KeySetup, Next, Extract;
    SetUp();
    Step5();
    FirstOf(KEYED, FIRST);
    FirstBlock();
  }

  /** The first block under that key and the IV AA BB CC DD 01 02 03 04. */
  lemma KeyAndIv()
    ensures Blocks(RABBIT, Setup(KEY, Some(IV)), 1)
         == [0x49, 0x08, 0x2C, 0xD1, 0x0E, 0xAD, 0x88, 0xCC, 0x22, 0x77, 0x20, 0x34, 0xBC, 0x97, 0x2A, 0xC0]
  {
    hide KeySetup, Setup, Masked, Next, Extract, Val;
    SetupWithIv(KEY, IV);
    SetUp();
    IvMasked();
    Step6();
    Step7();
    Step8();
    Step9();
    Step10();
    FourSteps(V0, V1, V2, V3, V4);
    FirstOf(V4, FIRST_IV);
    FirstIvBlock();
  }
}
