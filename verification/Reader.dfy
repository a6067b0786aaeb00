/** The decoding cursor: reads forward over a body and is rolled back to the start of a field it cannot read. */
module Reading {
  import opened Wire
  import opened CodecSpec
  import Utf16

  /** What the specification says when a read ends with r and rest is left. */
  function Outcome<T>(r: Option<T>, rest: bytes): Parsed<T> {
    if r.Some? then Some((r.value, rest)) else None
  }

  /** Items read earlier, put in front of those read next. */
  function Prepend<T>(first: seq<T>, r: Parsed<seq<T>>): Parsed<seq<T>> {
    if r.Some? then Some((first + r.value.0, r.value.1)) else None
  }

  lemma PrependAgain<T>(first: seq<T>, x: T, r: Parsed<seq<T>>)
    ensures Prepend(first, Prepend([x], r)) == Prepend(first + [x], r)
  {
    if r.Some? {
      assert first + ([x] + r.value.0) == first + [x] + r.value.0;
    }
  }

  lemma PrependNothing<T>(r: Parsed<seq<T>>)
    ensures Prepend([], r) == r
  {
    if r.Some? {
      assert [] + r.value.0 == r.value.0;
    }
  }

  class Reader {
    const buf: bytes
    var pos: nat

    ghost predicate Valid()
      reads this
    {
      pos <= |buf|
    }

    ghost function Rest(): bytes
      reads this
      requires Valid()
    {
      buf[pos..]
    }

    constructor (buf: bytes)
      ensures Valid() && this.buf == buf && pos == 0
    {
      this.buf := buf;
      pos := 0;
    }

    method U8() returns (r: Option<nat>)
      requires Valid()
      modifies this`pos
      ensures Valid() && old(pos) <= pos
      ensures Outcome(r, Rest()) == TakeUint(1, old(Rest()))
    {
      if pos + 1 > |buf| {
        return None;
      }
      var v := Val(buf[pos..pos + 1]);
      Advance(buf, pos, 1);
      pos := pos + 1;
      return Some(v);
    }

    method U16() returns (r: Option<nat>)
      requires Valid()
      modifies this`pos
      ensures Valid() && old(pos) <= pos
      ensures Outcome(r, Rest()) == TakeUint(2, old(Rest()))
    {
      if pos + 2 > |buf| {
        return None;
      }
      var v := Val(buf[pos..pos + 2]);
      Advance(buf, pos, 2);
      pos := pos + 2;
      return Some(v);
    }

    method U32() returns (r: Option<nat>)
      requires Valid()
      modifies this`pos
      ensures Valid() && old(pos) <= pos
      ensures Outcome(r, Rest()) == TakeUint(4, old(Rest()))
    {
      if pos + 4 > |buf| {
        return None;
      }
      var v := Val(buf[pos..pos + 4]);
      Advance(buf, pos, 4);
      pos := pos + 4;
      return Some(v);
    }

    method U64() returns (r: Option<nat>)
      requires Valid()
      modifies this`pos
      ensures Valid() && old(pos) <= pos
      ensures Outcome(r, Rest()) == TakeUint(8, old(Rest()))
    {
      if pos + 8 > |buf| {
        return None;
      }
      var v := Val(buf[pos..pos + 8]);
      Advance(buf, pos, 8);
      pos := pos + 8;
      return Some(v);
    }

    /** System.String: a 32-bit count of UTF-16 units, then the units. */
    method Str() returns (r: Option<Utf16.Text>)
      requires Valid()
      modifies this`pos
      ensures Valid() && old(pos) <= pos
      ensures Outcome(r, Rest()) == DecString(old(Rest()))
    {
      hide DecUnits, TakeUint, Utf16.Decode;
      var n := U32();
      if n.None? {
        return None;
      }
      var count := n.value;
      if pos + 2 * count > |buf| {
        return None;
      }
      ghost var start := pos;
      var units: seq<Utf16.Unit> := [];
      for i := 0 to count
        invariant |units| == i
        invariant pos == start + 2 * i && Valid() && pos + 2 * (count - i) <= |buf|
        invariant units + DecUnits(count - i, Rest()) == DecUnits(count, buf[start..])
      {
        NextUnit(buf, pos, count - i, units);
        var u := Val(buf[pos..pos + 2]);
        pos := pos + 2;
        units := units + [u];
      }
      AllUnits(buf, start, count, units);
      return Some(Utf16.Decode(units));
    }

    /** System.Char[]: UTF-16 units up to and including a NUL. */
    method CharArray() returns (r: Option<Utf16.Text>)
      requires Valid()
      modifies this`pos
      ensures Valid() && old(pos) <= pos
      ensures match DecUntilNul(old(Rest()))
              case None => r == None
              case Some((us, rest)) => r == Some(Utf16.Decode(us)) && Rest() == rest
    {
      var units: seq<Utf16.Unit> := [];
      PrependNothing(DecUntilNul(Rest()));
      while true
        invariant Valid() && old(pos) <= pos
        invariant Prepend(units, DecUntilNul(Rest())) == DecUntilNul(old(Rest()))
        decreases |buf| - pos
      {
        ghost var here := Rest();
        var ch := U16();
        if ch.None? {
          return None;
        }
        assert |Rest()| == |here| - 2;
        if ch.value == 0 {
          assert units + [] == units;
          return Some(Utf16.Decode(units));
        }
        PrependAgain(units, ch.value, DecUntilNul(Rest()));
        units := units + [ch.value];
      }
    }
  }

  /** The first of n units, read and put behind those read before it. */
  lemma NextUnit(buf: bytes, pos: nat, n: nat, units: seq<Utf16.Unit>)
    requires n > 0 && pos + 2 * n <= |buf|
    ensures Val(buf[pos..pos + 2]) < 0x1_0000
    ensures units + DecUnits(n, buf[pos..]) == units + [Val(buf[pos..pos + 2])] + DecUnits(n - 1, buf[pos + 2..])
  {
    Advance(buf, pos, 2);
    ModulusIsPow256(2);
    var u := Val(buf[pos..pos + 2]);
    assert DecUnits(n, buf[pos..]) == [u] + DecUnits(n - 1, buf[pos + 2..]);
    assert units + ([u] + DecUnits(n - 1, buf[pos + 2..])) == units + [u] + DecUnits(n - 1, buf[pos + 2..]);
  }

  /** The units read one by one are all of them. */
  lemma AllUnits(buf: bytes, start: nat, n: nat, units: seq<Utf16.Unit>)
    requires start + 2 * n <= |buf|
    requires units + DecUnits(0, buf[start + 2 * n..]) == DecUnits(n, buf[start..])
    ensures units == DecUnits(n, buf[start..])
    ensures buf[start..][2 * n..] == buf[start + 2 * n..]
  {
    assert units + [] == units;
  }

  lemma Advance(buf: bytes, pos: nat, w: nat)
    requires pos + w <= |buf|
    ensures buf[pos..][..w] == buf[pos..pos + w]
    ensures buf[pos..][w..] == buf[pos + w..]
  {
  }
}
