/** UTF-16 as Go's unicode/utf16 package computes it (RFC 2781, sections 2.1 and 2.2). */
module Utf16 {

  /** A Unicode scalar value: what a Go string yields rune by rune. */
  type Rune = r: int | 0 <= r < 0x11_0000 && !(0xD800 <= r < 0xE000)
  type Unit = u: int | 0 <= u < 0x1_0000
  type Text = seq<Rune>

  const REPLACEMENT: Rune := 0xFFFD

  function EncodeRune(r: Rune): (us: seq<Unit>)
    ensures 1 <= |us| <= 2
  {
    if r < 0x1_0000 then [r]
    else [0xD800 + (r - 0x1_0000) / 0x400, 0xDC00 + (r - 0x1_0000) % 0x400]
  }

  function Encode(s: Text): (us: seq<Unit>)
  {
    if s == [] then [] else EncodeRune(s[0]) + Encode(s[1..])
  }

  predicate IsPair(us: seq<Unit>) {
    |us| >= 2 && 0xD800 <= us[0] < 0xDC00 <= us[1] < 0xE000
  }

  /** Lone surrogates decode to U+FFFD, one replacement for each unit. */
  function Decode(us: seq<Unit>): (s: Text)
  {
    if us == [] then []
    else if IsPair(us) then
      [(us[0] - 0xD800) * 0x400 + (us[1] - 0xDC00) + 0x1_0000] + Decode(us[2..])
    else if 0xD800 <= us[0] < 0xE000 then [REPLACEMENT] + Decode(us[1..])
    else [us[0]] + Decode(us[1..])
  }

  /** A scalar value above 0xFFFF is a high and a low surrogate that together carry it; any other is its own unit. */
  lemma RuneUnits(r: Rune)
    ensures var us := EncodeRune(r);
            if r < 0x1_0000 then us == [r]
            else
              && |us| == 2 && 0xD800 <= us[0] < 0xDC00 <= us[1] < 0xE000
              && r == 0x1_0000 + ((us[0] as int) - 0xD800) * 0x400 + ((us[1] as int) - 0xDC00)
  {
  }

  /** A surrogate that does not begin a pair reads as U+FFFD, and what comes after it is read on its own. */
  lemma LoneSurrogate(u: Unit, us: seq<Unit>)
    requires 0xD800 <= u < 0xE000
    requires !(u < 0xDC00 && us != [] && 0xDC00 <= us[0] < 0xE000)
    ensures Decode([u] + us) == [0xFFFD] + Decode(us)
  {
    assert ([u] + us)[1..] == us;
  }

  lemma {:induction false} DecodeEncode(s: Text)
    ensures Decode(Encode(s)) == s
  {
    if s != [] {
      DecodeEncode(s[1..]);
      var us := EncodeRune(s[0]) + Encode(s[1..]);
      if s[0] < 0x1_0000 {
        assert us[1..] == Encode(s[1..]);
      } else {
        assert us[2..] == Encode(s[1..]);
      }
    }
  }

  /** Re-encoding decoded units keeps their number, even when lone surrogates were replaced. */
  lemma {:induction false} EncodeDecodeLength(us: seq<Unit>)
    ensures |Encode(Decode(us))| == |us|
  {
    if us != [] {
      var n := if IsPair(us) then 2 else 1;
      EncodeDecodeLength(us[n..]);
      assert Decode(us)[1..] == Decode(us[n..]);
    }
  }

  predicate NulFree(s: seq<int>) {
    0 !in s
  }

  lemma {:induction false} NulFreeEncode(s: Text)
    ensures NulFree(Encode(s)) <==> NulFree(s)
  {
    if s != [] {
      NulFreeEncode(s[1..]);
      assert s == [s[0]] + s[1..];
      assert 0 in EncodeRune(s[0]) <==> s[0] == 0;
    }
  }

  lemma {:induction false} NulFreeDecode(us: seq<Unit>)
    requires NulFree(us)
    ensures NulFree(Decode(us))
  {
    if us != [] {
      NulFreeDecode(us[if IsPair(us) then 2 else 1..]);
      assert us[0] != 0;
    }
  }
}
