/** Frames on the socket, and encryption of one direction frame by frame. */
module Framing {
  import opened Wire
  import opened Bits
  import opened Keystreams

  /** The longest body whose length, with the two bytes of the header, fits in the header. */
  const MAX_BODY: nat := 65533

  /** writeFrame: the length in a uint16, then the body. */
  function Frame(body: bytes): bytes {
    LE(2, Truncate(2, |body| + 2)) + body
  }

  /** What reading a frame from the bytes received so far comes to. */
  datatype FrameRead =
    | Waiting
    | Bogus(length: nat, rest: bytes)
    | Body(body: bytes, rest: bytes)

  /** readFrame on the bytes received so far. */
  function ReadFrame(stream: bytes): FrameRead {
    if |stream| < 2 then Waiting
    else
      var length := Val(stream[..2]);
      if length < 2 then Bogus(length, stream[2..])
      else if |stream| < length then Waiting
      else Body(stream[2..length], stream[length..])
  }

  /** A frame begins with its own length, both bytes of it included, low byte first. */
  lemma FrameLayout(body: bytes)
    requires |body| <= MAX_BODY
    ensures var frame := Frame(body);
            |frame| == |body| + 2 == (frame[0] as int) + 256 * (frame[1] as int) && frame[2..] == body
  {
    LE2(|body| + 2);
  }

  lemma ReadHeader(length: nat, after: bytes)
    requires length < 0x1_0000
    ensures var stream := LE(2, length) + after;
            && Val(stream[..2]) == length
            && stream[2..] == after
            && (2 <= length <= |stream| ==>
                  stream[2..length] == after[..length - 2] && stream[length..] == after[length - 2..])
  {
    ReadWritten(2, length);
    var stream := LE(2, length) + after;
    assert stream[..2] == LE(2, length);
  }

  /** A frame is read back, and what follows it is left alone, exactly when the body is at most 65533 bytes long. */
  lemma FrameRoundTrip(body: bytes, rest: bytes)
    ensures ReadFrame(Frame(body) + rest) == Body(body, rest) <==> |body| <= MAX_BODY
  {
    var length := Truncate(2, |body| + 2);
    assert Frame(body) + rest == LE(2, length) + (body + rest);
    ReadHeader(length, body + rest);
    if |body| <= MAX_BODY {
      assert (body + rest)[..length - 2] == body && (body + rest)[length - 2..] == rest;
    }
  }

  /** One byte more and the length wraps to 0: the reader reports a bogus length and takes the body for later frames. */
  lemma OversizedFrame(body: bytes, rest: bytes)
    requires |body| == MAX_BODY + 1
    ensures ReadFrame(Frame(body) + rest) == Bogus(0, body + rest)
  {
    assert Frame(body) + rest == LE(2, 0) + (body + rest);
    ReadHeader(0, body + rest);
  }

  /** A frame whose writing broke off leaves its reader waiting, and then at the end of the stream: nothing is delivered. */
  lemma CutFrame(body: bytes, n: nat)
    requires |body| <= MAX_BODY && n < |Frame(body)|
    ensures ReadFrame(Frame(body)[..n]) == Waiting
  {
    if n >= 2 {
      FrameRoundTrip(body, []);
      assert Frame(body) + [] == Frame(body);
      assert Frame(body) == Frame(body)[..n] + Frame(body)[n..];
      ReadFrameExtends(Frame(body)[..n], Frame(body)[n..]);
    }
  }

  /** More bytes arriving do not change a frame that was already complete. */
  lemma ReadFrameExtends(stream: bytes, more: bytes)
    ensures match ReadFrame(stream)
            case Waiting => true
            case Bogus(length, rest) => ReadFrame(stream + more) == Bogus(length, rest + more)
            case Body(body, rest) => ReadFrame(stream + more) == Body(body, rest + more)
  {
    if |stream| >= 2 {
      assert (stream + more)[..2] == stream[..2];
      var length := Val(stream[..2]);
      assert (stream + more)[2..] == stream[2..] + more;
      if 2 <= length <= |stream| {
        assert (stream + more)[2..length] == stream[2..length];
        assert (stream + more)[length..] == stream[length..] + more;
      }
    }
  }

  // ---------------------------------------------------------------- encryption

  function XorBytes(a: bytes, k: bytes): (r: bytes)
    requires |a| <= |k|
    ensures |r| == |a|
    ensures forall i :: 0 <= i < |a| ==> r[i] == XorByte(a[i], k[i])
  {
    seq(|a|, i requires 0 <= i < |a| => XorByte(a[i], k[i]))
  }

  lemma XorBytesTwice(a: bytes, k: bytes)
    requires |a| <= |k|
    ensures XorBytes(XorBytes(a, k), k) == a
  {
    forall i | 0 <= i < |a|
      ensures XorBytes(XorBytes(a, k), k)[i] == a[i]
    {
      XorByteTwice(a[i], k[i]);
    }
  }

  /** crypt: a body XORed with the next whole blocks of keystream that cover it. */
  function Crypt<S>(gen: Generator<S>, k: Buffered<S>, body: bytes): (r: (bytes, Buffered<S>))
    ensures |r.0| == |body|
  {
    var (ks, k') := Request(gen, k, 16 * BlocksFor(|body|));
    (XorBytes(body, ks), k')
  }

  /** A cipher in the same state decrypts what was encrypted, and ends in the same state. */
  lemma CryptTwice<S>(gen: Generator<S>, k: Buffered<S>, body: bytes)
    ensures Crypt(gen, k, Crypt(gen, k, body).0) == (body, Crypt(gen, k, body).1)
  {
    XorBytesTwice(body, Request(gen, k, 16 * BlocksFor(|body|)).0);
  }

  lemma BlocksForWhole(m: nat)
    ensures BlocksFor(16 * m) == m
  {
  }

  /** With nothing buffered, a frame takes whole blocks and leaves nothing buffered. */
  lemma CryptAligned<S>(gen: Generator<S>, s: S, body: bytes)
    ensures var m := BlocksFor(|body|);
            Crypt(gen, Buffered(s, []), body) == (XorBytes(body, Blocks(gen, s, m)), Buffered(Iterate(gen, s, m), []))
  {
    var m := BlocksFor(|body|);
    BlocksForWhole(m);
    RequestAt(gen, s, 0, Buffered(s, []), 16 * m);
    assert Blocks(gen, s, m)[0..16 * m] == Blocks(gen, s, m);
    assert Blocks(gen, s, m)[16 * m..] == [];
  }

  // ---------------------------------------------------------------- whole histories of one direction

  /** The cipher after a history of frames. */
  function After<S>(gen: Generator<S>, k: Buffered<S>, bodies: seq<bytes>): Buffered<S>
    decreases |bodies|
  {
    if bodies == [] then k else After(gen, Crypt(gen, k, bodies[0]).1, bodies[1..])
  }

  /** The encrypted bodies of a history of frames. */
  function CryptAll<S>(gen: Generator<S>, k: Buffered<S>, bodies: seq<bytes>): (r: seq<bytes>)
    ensures |r| == |bodies|
    decreases |bodies|
  {
    if bodies == [] then []
    else [Crypt(gen, k, bodies[0]).0] + CryptAll(gen, Crypt(gen, k, bodies[0]).1, bodies[1..])
  }

  /** The block at which frame i starts. */
  function Start(bodies: seq<bytes>, i: nat): nat
    requires i <= |bodies|
  {
    if i == 0 then 0 else BlocksFor(|bodies[0]|) + Start(bodies[1..], i - 1)
  }

  lemma {:induction false} StartStep(bodies: seq<bytes>, i: nat)
    requires i < |bodies|
    ensures Start(bodies, i + 1) == Start(bodies, i) + BlocksFor(|bodies[i]|)
  {
    if i > 0 {
      StartStep(bodies[1..], i - 1);
    }
  }

  /** Frames use disjoint stretches of keystream, in order. */
  lemma {:induction false} StretchesDisjoint(bodies: seq<bytes>, i: nat, j: nat)
    requires i < j < |bodies|
    ensures Start(bodies, i) + BlocksFor(|bodies[i]|) <= Start(bodies, j)
    decreases j
  {
    StartStep(bodies, j - 1);
    if i < j - 1 {
      StretchesDisjoint(bodies, i, j - 1);
    } else {
      StartStep(bodies, i);
    }
  }

  /** Over every history of frames from a fresh cipher nothing is buffered between frames, and every block is used. */
  lemma {:induction false} StepsTaken<S>(gen: Generator<S>, s: S, bodies: seq<bytes>)
    ensures After(gen, Buffered(s, []), bodies) == Buffered(Iterate(gen, s, Start(bodies, |bodies|)), [])
    decreases |bodies|
  {
    if bodies != [] {
      var m := BlocksFor(|bodies[0]|);
      CryptAligned(gen, s, bodies[0]);
      StepsTaken(gen, Iterate(gen, s, m), bodies[1..]);
      IterateSum(gen, s, m, Start(bodies[1..], |bodies| - 1));
    }
  }

  /** Frame i of a history is its body XORed with the blocks from Start(i) on. */
  lemma {:induction false} FrameKeystream<S>(gen: Generator<S>, s: S, bodies: seq<bytes>, i: nat)
    requires i < |bodies|
    ensures CryptAll(gen, Buffered(s, []), bodies)[i]
         == XorBytes(bodies[i], Blocks(gen, Iterate(gen, s, Start(bodies, i)), BlocksFor(|bodies[i]|)))
    decreases i
  {
    hide XorBytes, Blocks, Crypt, BlocksFor;
    var m := BlocksFor(|bodies[0]|);
    CryptAligned(gen, s, bodies[0]);
    if i > 0 {
      FrameKeystream(gen, Iterate(gen, s, m), bodies[1..], i - 1);
      IterateSum(gen, s, m, Start(bodies[1..], i - 1));
    }
  }

  /** An instance that starts in the same state decrypts the whole history and ends in the same state. */
  lemma {:induction false} Lockstep<S>(gen: Generator<S>, k: Buffered<S>, bodies: seq<bytes>)
    ensures CryptAll(gen, k, CryptAll(gen, k, bodies)) == bodies
    ensures After(gen, k, CryptAll(gen, k, bodies)) == After(gen, k, bodies)
    decreases |bodies|
  {
    if bodies != [] {
      CryptTwice(gen, k, bodies[0]);
      var k' := Crypt(gen, k, bodies[0]).1;
      Lockstep(gen, k', bodies[1..]);
      assert CryptAll(gen, k, bodies)[1..] == CryptAll(gen, k', bodies[1..]);
    }
  }

  // ---------------------------------------------------------------- the byte stream of one direction

  /** The bytes a history of frames puts on the socket. */
  function Written<S>(gen: Generator<S>, k: Buffered<S>, bodies: seq<bytes>): bytes
    decreases |bodies|
  {
    if bodies == [] then []
    else Frame(Crypt(gen, k, bodies[0]).0) + Written(gen, Crypt(gen, k, bodies[0]).1, bodies[1..])
  }

  lemma {:induction false} WrittenAppend<S>(gen: Generator<S>, k: Buffered<S>, bodies: seq<bytes>, body: bytes)
    ensures var k' := After(gen, k, bodies);
            && After(gen, k, bodies + [body]) == Crypt(gen, k', body).1
            && Written(gen, k, bodies + [body]) == Written(gen, k, bodies) + Frame(Crypt(gen, k', body).0)
    decreases |bodies|
  {
    if bodies == [] {
      assert [] + [body] == [body];
      assert Written(gen, k, [body]) == Frame(Crypt(gen, k, body).0) + [];
    } else {
      WrittenAppend(gen, Crypt(gen, k, bodies[0]).1, bodies[1..], body);
      assert (bodies + [body])[0] == bodies[0] && (bodies + [body])[1..] == bodies[1..] + [body];
    }
  }
}
