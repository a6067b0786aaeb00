/** What sending and receiving one message amount to. */
module SessionSpec {
  import opened Wire
  import opened Schema
  import opened CodecSpec
  import opened Keystreams
  import Framing
  import opened RabbitSpec

  /** Sending: the bytes put on the socket and the cipher afterwards, or the encoder's error and nothing. */
  function SendStep(cat: Catalog<Type>, k: Buffered<State>, name: string, values: Values):
    Result<(bytes, Buffered<State>), EncodeError>
  {
    match Encode(cat, name, values)
    case Err(e) => Err(e)
    case Ok(plain) =>
      var (body, k') := Framing.Crypt(RABBIT, k, plain);
      Ok((Framing.Frame(body), k'))
  }

  datatype SendError = Unencodable(error: EncodeError) | Unwritten

  datatype Received =
    | Eof
    | BadLength(length: nat)
    | Arrived(decoded: Decoded)

  /** Receiving from all the bytes the peer sends before it closes: the result, the cipher and the bytes left. */
  function RecvStep(cat: Catalog<Type>, k: Buffered<State>, stream: bytes): (Received, Buffered<State>, bytes)
    requires Acyclic(cat)
  {
    match Framing.ReadFrame(stream)
    case Waiting => (Eof, k, [])
    case Bogus(length, rest) => (BadLength(length), k, rest)
    case Body(body, rest) =>
      var (plain, k') := Framing.Crypt(RABBIT, k, body);
      (Arrived(Decode(cat, plain)), k', rest)
  }
}
