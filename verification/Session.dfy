/** A keyed connection: frames written and read step by step over two ciphers that advance in place. */
module Session {
  import opened Wire
  import opened Schema
  import opened TypeNames
  import opened CodecSpec
  import opened Keystreams
  import opened RabbitSpec
  import opened Ciphers
  import opened Handshakes
  import opened SessionSpec
  import Decoder
  import Encoder
  import Framing
  import Bits

  method Crypt(r: Rabbit, body: bytes) returns (out: bytes)
    requires r.Valid()
    modifies r, r.x, r.c
    ensures r.Valid()
    ensures (out, r.Buffered()) == Framing.Crypt(RABBIT, old(r.Buffered()), body)
  {
    hide Bits.XorByte, RABBIT;
    var aligned := (|body| + 15) / 16 * 16;
    assert aligned == 16 * BlocksFor(|body|);
    var ks := r.Keystream(aligned);
    out := [];
    for i := 0 to |body|
      invariant |out| == i
      invariant forall j :: 0 <= j < i ==> out[j] == Bits.XorByte(body[j], ks[j])
    {
      out := out + [Bits.XorByte(body[i], ks[i])];
    }
    assert out == Framing.XorBytes(body, ks);
  }

  class Conn {
    const cat: Catalog<string>
    const c2s: Rabbit
    const s2c: Rabbit
    const socketUID: Nonce
    const connectionKey: Nonce
    var raw: bytes
    var rx: bytes

    ghost predicate Valid()
      reads this, c2s, c2s.x, c2s.c, s2c, s2c.x, s2c.c
    {
      && c2s.Valid() && s2c.Valid()
      && c2s != s2c && {c2s.x, c2s.c} !! {s2c.x, s2c.c}
      && Acyclic(Read(cat))
    }

    ghost function Keys(): Keys
      requires Valid()
      reads this, c2s, c2s.x, c2s.c, s2c, s2c.x, s2c.c
    {
      Handshakes.Keys(c2s.Buffered(), s2c.Buffered())
    }

    constructor (cat: Catalog<string>, derived: Key, s: Secrets, rx: bytes)
      requires Acyclic(Read(cat))
      ensures Valid() && fresh(c2s) && fresh(c2s.x) && fresh(c2s.c) && fresh(s2c) && fresh(s2c.x) && fresh(s2c.c)
      ensures this.cat == cat && this.rx == rx && raw == []
      ensures socketUID == s.socketUID && connectionKey == s.connectionKey
      ensures Keys() == KeysFrom(derived, s.clientSendIV, s.serverSendIV)
      ensures c2s.State() == Setup(derived, Some(LE(8, s.clientSendIV))) && c2s.buf == []
      ensures s2c.State() == Setup(derived, Some(LE(8, s.serverSendIV))) && s2c.buf == []
    {
      hide Setup, LE;
      NonceBytes(s.clientSendIV);
      NonceBytes(s.serverSendIV);
      var up := new Rabbit(derived, Some(Int64LE(s.clientSendIV)));
      var down := new Rabbit(derived, Some(Int64LE(s.serverSendIV)));
      this.cat := cat;
      c2s, s2c := up, down;
      socketUID, connectionKey := s.socketUID, s.connectionKey;
      raw := [];
      this.rx := rx;
    }

    /** readFrame: two bytes of length, then the body; the reader keeps nothing of a frame cut short. */
    method ReadFrame() returns (r: Result<bytes, Received>)
      modifies this`rx
      ensures match Framing.ReadFrame(old(rx))
              case Waiting => r == Err(Eof) && rx == []
              case Bogus(length, rest) => r == Err(BadLength(length)) && rx == rest
              case Body(body, rest) => r == Ok(body) && rx == rest
    {
      var before := rx;
      if |rx| < 2 {
        rx := [];
        return Err(Eof);
      }
      var length := Val(rx[..2]);
      rx := rx[2..];
      if length < 2 {
        return Err(BadLength(length));
      }
      if |rx| < length - 2 {
        rx := [];
        return Err(Eof);
      }
      assert before[2..][..length - 2] == before[2..length] && before[2..][length - 2..] == before[length..];
      r := Ok(rx[..length - 2]);
      rx := rx[length - 2..];
    }

    /** writeFrame on a socket that takes so many more bytes: what it does not take is not written, and is an error. */
    method WriteFrame(body: bytes, room: nat) returns (ok: bool)
      modifies this`raw
      ensures ok == (room >= |Framing.Frame(body)|)
      ensures raw == old(raw) + if ok then Framing.Frame(body) else Framing.Frame(body)[..room]
    {
      var header := LE(2, Truncate(2, |body| + 2));
      var frame := header + body;
      if |frame| > room {
        raw := raw + frame[..room];
        return false;
      }
      raw := raw + frame;
      return true;
    }

    /** The keystream is spent before the write, whether or not the socket takes the frame. */
    method Send(name: string, values: Values, room: nat) returns (err: Option<SendError>)
      requires Valid()
      modifies this`raw, s2c, s2c.x, s2c.c
      ensures Valid()
      ensures match SendStep(Read(cat), old(Keys()).s2c, name, values)
              case Err(e) => err == Some(Unencodable(e)) && raw == old(raw) && Keys() == old(Keys())
              case Ok((bs, k)) =>
                && Keys() == old(Keys()).(s2c := k)
                && err == (if room >= |bs| then None else Some(Unwritten))
                && raw == old(raw) + if err.None? then bs else bs[..room]
    {
      var plain := Encoder.Encode(cat, name, values);
      if plain.Err? {
        return Some(Unencodable(plain.error));
      }
      var body := Crypt(s2c, plain.value);
      var ok := WriteFrame(body, room);
      return if ok then None else Some(Unwritten);
    }

    method Recv() returns (r: Received)
      requires Valid()
      modifies this`rx, c2s, c2s.x, c2s.c
      ensures Valid() && Keys().s2c == old(Keys()).s2c
      ensures (r, Keys().c2s, rx) == RecvStep(Read(cat), old(Keys()).c2s, old(rx))
    {
      var body := ReadFrame();
      if body.Err? {
        return body.error;
      }
      var plain := Crypt(c2s, body.value);
      var d := Decoder.Decode(cat, plain);
      return Arrived(d);
    }
  }

  /** The connection is keyed with each direction's own IV, and knows the identifiers the client must echo. */
  ghost predicate KeyedBy(conn: Conn, derived: Key, s: Secrets)
    requires conn.Valid()
    reads conn, conn.c2s, conn.c2s.x, conn.c2s.c, conn.s2c, conn.s2c.x, conn.s2c.c
  {
    && conn.c2s.State() == Setup(derived, Some(LE(8, s.clientSendIV))) && conn.c2s.buf == []
    && conn.s2c.State() == Setup(derived, Some(LE(8, s.serverSendIV))) && conn.s2c.buf == []
    && conn.socketUID == s.socketUID && conn.connectionKey == s.connectionKey
  }

  /** The hello's frame, byte for byte. */
  function HelloFrame(opcode: Opcode, s: Secrets): bytes {
    [54, 0] + LE(4, opcode) + LE(8, s.socketUID) + LE(8, s.connectionKey)
    + LE(8, s.clientSendIV) + LE(8, s.serverSendIV) + s.rawKey
  }

  lemma HelloFramed(cat: Catalog<Type>, s: Secrets)
    requires HasHello(cat)
    ensures Encode(cat, HELLO, HelloValues(s)).Ok?
    ensures Framing.Frame(Encode(cat, HELLO, HelloValues(s)).value) == HelloFrame(cat.byName[HELLO].id, s)
  {
    HelloBytes(cat, s);
    hide Encode, HelloValues;
    Framed52(LE(4, cat.byName[HELLO].id), LE(8, s.socketUID), LE(8, s.connectionKey),
             LE(8, s.clientSendIV), LE(8, s.serverSendIV), s.rawKey);
  }

  lemma Framed52(a: bytes, b: bytes, c: bytes, d: bytes, e: bytes, f: bytes)
    requires |a| == 4 && |b| == |c| == |d| == |e| == 8 && |f| == 16
    ensures Framing.Frame(a + b + c + d + e + f) == [54, 0] + a + b + c + d + e + f
  {
    Bits.LE2(54);
    hide LE;
    assert [54, 0] + (a + b + c + d + e + f) == [54, 0] + a + b + c + d + e + f;
  }

  /** Handshake: key both ciphers, then send the hello in plaintext, which advances neither of them. */
  method Handshake(cat: Catalog<string>, derive: Key -> Key, s: Secrets, rx: bytes, room: nat)
    returns (r: Result<Conn, SendError>)
    requires Acyclic(Read(cat))
    ensures match Encode(Read(cat), HELLO, HelloValues(s))
            case Err(e) => r == Err(Unencodable(e))
            case Ok(body) =>
              if room < |Framing.Frame(body)| then r == Err(Unwritten)
              else
                && r.Ok? && r.value.Valid() && r.value.Keys() == ServerKeys(derive, s)
                && r.value.cat == cat && r.value.raw == Framing.Frame(body) && r.value.rx == rx
    ensures r.Ok? ==> r.value.Valid() && KeyedBy(r.value, derive(s.rawKey), s)
    ensures HasHello(Read(cat)) && room >= 54 ==>
              r.Ok? && r.value.raw == HelloFrame(Read(cat).byName["S2C_CheckConnection"].id, s)
  {
    hide Setup, LE;
    if HasHello(Read(cat)) {
      HelloFramed(Read(cat), s);
    }
    var conn := new Conn(cat, derive(s.rawKey), s, rx);
    var body := Encoder.Encode(cat, HELLO, HelloValues(s));
    if body.Err? {
      return Err(Unencodable(body.error));
    }
    var ok := conn.WriteFrame(body.value, room);
    if !ok {
      return Err(Unwritten);
    }
    assert conn.raw == Framing.Frame(body.value);
    return Ok(conn);
  }
}
