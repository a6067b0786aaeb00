/** The plaintext hello that carries the key material, and the keys each end computes. */
module Handshakes {
  import opened Wire
  import opened Schema
  import opened CodecSpec
  import opened CodecValues
  import CodecProofs
  import CodecInput
  import opened Keystreams
  import opened RabbitSpec

  const HELLO: string := "S2C_CheckConnection"

  const INT64: Type := Prim(Integer(8, true))

  const HELLO_LAYOUT: Layout<Type> := [
    Field("m_socketUID", INT64), Field("m_connectionKey", INT64), Field("m_clientSendIV", INT64),
    Field("m_serverSendIV", INT64), Field("m_encryptionKeyLow", INT64), Field("m_encryptionKeyHigh", INT64)
  ]

  ghost predicate HasHello(cat: Catalog<Type>) {
    HELLO in cat.byName && cat.byName[HELLO].fields == HELLO_LAYOUT
  }

  /** What randInt63 yields. */
  type Nonce = n: int | 0 <= n < 0x8000_0000_0000_0000

  type Key = bs: bytes | |bs| == 16 witness [0, 0, 0, 0, 0, 0, 0, 0, 0, 0, 0, 0, 0, 0, 0, 0]

  /** What a handshake draws at random. */
  datatype Secrets = Secrets(
    socketUID: Nonce, connectionKey: Nonce, clientSendIV: Nonce, serverSendIV: Nonce, rawKey: Key)

  /** int64LE */
  function Int64LE(v: Int64): bytes {
    LE(8, Truncate(8, v))
  }

  /** int64 of eight bytes, least significant first. */
  function ToInt64LE(bs: bytes): Int64
    requires |bs| == 8
  {
    ModulusIsPow256(8);
    Signed(8, Val(bs))
  }

  lemma Int64LERoundTrip(bs: bytes)
    requires |bs| == 8
    ensures Int64LE(ToInt64LE(bs)) == bs
  {
    ModulusIsPow256(8);
    TruncateSigned(8, Val(bs));
    LEVal(bs);
  }

  function HelloValues(s: Secrets): Values {
    map[
      "m_socketUID" := Int(s.socketUID),
      "m_connectionKey" := Int(s.connectionKey),
      "m_clientSendIV" := Int(s.clientSendIV),
      "m_serverSendIV" := Int(s.serverSendIV),
      "m_encryptionKeyLow" := Int(ToInt64LE(s.rawKey[0..8])),
      "m_encryptionKeyHigh" := Int(ToInt64LE(s.rawKey[8..16]))
    ]
  }

  /** The two ciphers of a session, one for each direction. */
  datatype Keys = Keys(c2s: Buffered<State>, s2c: Buffered<State>)

  function KeysFrom(derived: Key, clientSendIV: Int64, serverSendIV: Int64): Keys {
    Keys(
      Buffered(Setup(derived, Some(Int64LE(clientSendIV))), []),
      Buffered(Setup(derived, Some(Int64LE(serverSendIV))), []))
  }

  function ServerKeys(derive: Key -> Key, s: Secrets): Keys {
    KeysFrom(derive(s.rawKey), s.clientSendIV, s.serverSendIV)
  }

  /** The keys the peer computes from a decoded hello. */
  function PeerKeys(derive: Key -> Key, d: Decoded): Option<Keys> {
    if d.Decoded? && d.name == HELLO && forall f <- HELLO_LAYOUT :: f.name in d.values && d.values[f.name].Int? then
      var v := d.values;
      HelloNames();
      var rawKey := Int64LE(v["m_encryptionKeyLow"].i) + Int64LE(v["m_encryptionKeyHigh"].i);
      Some(KeysFrom(derive(rawKey), v["m_clientSendIV"].i, v["m_serverSendIV"].i))
    else None
  }

  lemma HelloNames()
    ensures Names(HELLO_LAYOUT) == {
              "m_socketUID", "m_connectionKey", "m_clientSendIV", "m_serverSendIV",
              "m_encryptionKeyLow", "m_encryptionKeyHigh"}
  {
    assert HELLO_LAYOUT[0].name == "m_socketUID";
    assert HELLO_LAYOUT[1].name == "m_connectionKey";
    assert HELLO_LAYOUT[2].name == "m_clientSendIV";
    assert HELLO_LAYOUT[3].name == "m_serverSendIV";
    assert HELLO_LAYOUT[4].name == "m_encryptionKeyLow";
    assert HELLO_LAYOUT[5].name == "m_encryptionKeyHigh";
  }

  ghost predicate HoldsInt64(f: Field<Type>, values: Values) {
    f.ftype == INT64 && f.name in values && values[f.name].Int?
  }

  lemma {:induction false} Int64Fields(cat: Catalog<Type>, fields: Layout<Type>, owner: string, values: Values)
    requires forall f <- fields :: HoldsInt64(f, values)
    ensures CanonicalFields(cat, fields, owner, Struct(values))
    ensures EncFields(cat, fields, owner, Struct(values)).Ok?
    ensures |EncFields(cat, fields, owner, Struct(values)).value| == 8 * |fields|
  {
    if fields != [] {
      assert HoldsInt64(fields[0], values);
      Int64Fields(cat, fields[1..], owner, values);
    }
  }

  lemma Int64Message(cat: Catalog<Type>, name: string, values: Values)
    requires WellFormed(cat) && name in cat.byName
    requires forall f <- cat.byName[name].fields :: HoldsInt64(f, values)
    requires values.Keys == Names(cat.byName[name].fields)
    ensures var r := Encode(cat, name, values);
            && r.Ok?
            && |r.value| == 4 + 8 * |cat.byName[name].fields|
            && Decode(cat, r.value) == Decoded(name, values, [])
  {
    var fields := cat.byName[name].fields;
    var owner := MESSAGE_PREFIX + name;
    Int64Fields(cat, fields, owner, values);
    CodecInput.CanonicalFieldsNormal(cat, fields, owner, Struct(values), map[]);
    assert NormalFields(cat, fields, Struct(values), map[]) == values;
    CodecProofs.RoundTrip(cat, name, values, []);
    var body := Encode(cat, name, values).value;
    assert body + [] == body;
  }

  lemma HelloHoldsInt64(s: Secrets)
    ensures forall f <- HELLO_LAYOUT :: HoldsInt64(f, HelloValues(s))
    ensures HelloValues(s).Keys == Names(HELLO_LAYOUT)
  {
    hide ToInt64LE;
    HelloNames();
    var v := HelloValues(s);
    assert HoldsInt64(HELLO_LAYOUT[0], v) && HoldsInt64(HELLO_LAYOUT[1], v) && HoldsInt64(HELLO_LAYOUT[2], v);
    assert HoldsInt64(HELLO_LAYOUT[3], v) && HoldsInt64(HELLO_LAYOUT[4], v) && HoldsInt64(HELLO_LAYOUT[5], v);
  }

  /** The hello encodes to 52 bytes and decodes to exactly what was sent. */
  lemma HelloRoundTrip(cat: Catalog<Type>, s: Secrets)
    requires WellFormed(cat) && HasHello(cat)
    ensures var r := Encode(cat, HELLO, HelloValues(s));
            r.Ok? && |r.value| == 52 && Decode(cat, r.value) == Decoded(HELLO, HelloValues(s), [])
  {
    HelloHoldsInt64(s);
    assert |HELLO_LAYOUT| == 6;
    Int64Message(cat, HELLO, HelloValues(s));
  }

  lemma {:induction false} Int64Written(cat: Catalog<Type>, fields: Layout<Type>, owner: string, v: Values, i: Int64)
    requires fields != [] && fields[0].ftype == INT64 && fields[0].name in v && v[fields[0].name] == Int(i)
    requires EncFields(cat, fields[1..], owner, Struct(v)).Ok?
    ensures EncFields(cat, fields, owner, Struct(v))
         == Ok(Int64LE(i) + EncFields(cat, fields[1..], owner, Struct(v)).value)
  {
  }

  lemma HelloFields(cat: Catalog<Type>, owner: string, v: Values, ns: seq<Int64>)
    requires |ns| == 6 && forall i :: 0 <= i < 6 ==> HELLO_LAYOUT[i].name in v && v[HELLO_LAYOUT[i].name] == Int(ns[i])
    ensures EncFields(cat, HELLO_LAYOUT, owner, Struct(v))
         == Ok(Int64LE(ns[0]) + (Int64LE(ns[1]) + (Int64LE(ns[2]) + (Int64LE(ns[3])
               + (Int64LE(ns[4]) + (Int64LE(ns[5]) + []))))))
  {
    hide Int64LE;
    var l := HELLO_LAYOUT;
    assert l[6..] == [] && EncFields(cat, l[6..], owner, Struct(v)) == Ok([]);
    hide EncFields;
    Int64FieldWritten(cat, 5, owner, v, ns[5]);
    Int64FieldWritten(cat, 4, owner, v, ns[4]);
    Int64FieldWritten(cat, 3, owner, v, ns[3]);
    Int64FieldWritten(cat, 2, owner, v, ns[2]);
    Int64FieldWritten(cat, 1, owner, v, ns[1]);
    Int64FieldWritten(cat, 0, owner, v, ns[0]);
    assert l[0..] == l;
  }

  lemma Int64FieldWritten(cat: Catalog<Type>, k: nat, owner: string, v: Values, i: Int64)
    requires k < 6 && HELLO_LAYOUT[k].name in v && v[HELLO_LAYOUT[k].name] == Int(i)
    requires EncFields(cat, HELLO_LAYOUT[k + 1..], owner, Struct(v)).Ok?
    ensures EncFields(cat, HELLO_LAYOUT[k..], owner, Struct(v))
         == Ok(Int64LE(i) + EncFields(cat, HELLO_LAYOUT[k + 1..], owner, Struct(v)).value)
  {
    hide Int64LE;
    assert HELLO_LAYOUT[k..][1..] == HELLO_LAYOUT[k + 1..] && HELLO_LAYOUT[k..][0] == HELLO_LAYOUT[k];
    Int64Written(cat, HELLO_LAYOUT[k..], owner, v, i);
  }

  /** The hello on the wire: the opcode, the two identifiers, the two IVs, and the key as it was drawn. */
  lemma HelloBytes(cat: Catalog<Type>, s: Secrets)
    requires HasHello(cat)
    ensures Encode(cat, "S2C_CheckConnection", HelloValues(s))
         == Ok(LE(4, cat.byName["S2C_CheckConnection"].id) + LE(8, s.socketUID) + LE(8, s.connectionKey)
               + LE(8, s.clientSendIV) + LE(8, s.serverSendIV) + s.rawKey)
  {
    Int64LERoundTrip(s.rawKey[0..8]);
    Int64LERoundTrip(s.rawKey[8..16]);
    var low, high := ToInt64LE(s.rawKey[0..8]), ToInt64LE(s.rawKey[8..16]);
    hide ToInt64LE, Int64LE, LE, EncFields;
    HelloFields(cat, MESSAGE_PREFIX + cat.byName[HELLO].name, HelloValues(s),
                [s.socketUID, s.connectionKey, s.clientSendIV, s.serverSendIV, low, high]);
    HelloJoined(s, low, high);
    var opcode := LE(4, cat.byName[HELLO].id);
    LeftFirst(opcode, LE(8, s.socketUID), LE(8, s.connectionKey), LE(8, s.clientSendIV), LE(8, s.serverSendIV), s.rawKey);
  }

  lemma LeftFirst(a: bytes, b: bytes, c: bytes, d: bytes, e: bytes, f: bytes)
    ensures a + (b + c + d + e + f) == a + b + c + d + e + f
  {
  }

  lemma NonceBytes(n: Nonce)
    ensures Int64LE(n) == LE(8, n)
  {
    hide LE;
    assert Truncate(8, n) == n;
  }

  lemma HelloJoined(s: Secrets, low: Int64, high: Int64)
    requires Int64LE(low) == s.rawKey[0..8] && Int64LE(high) == s.rawKey[8..16]
    ensures Int64LE(s.socketUID) + (Int64LE(s.connectionKey) + (Int64LE(s.clientSendIV) + (Int64LE(s.serverSendIV)
            + (Int64LE(low) + (Int64LE(high) + [])))))
         == LE(8, s.socketUID) + LE(8, s.connectionKey) + LE(8, s.clientSendIV) + LE(8, s.serverSendIV) + s.rawKey
  {
    hide LE, Int64LE;
    NonceBytes(s.socketUID);
    NonceBytes(s.connectionKey);
    NonceBytes(s.clientSendIV);
    NonceBytes(s.serverSendIV);
    assert s.rawKey == s.rawKey[0..8] + s.rawKey[8..16];
  }

  /** The key material in a hello's values is what the server started from. */
  lemma KeyMaterial(derive: Key -> Key, s: Secrets)
    ensures PeerKeys(derive, Decoded(HELLO, HelloValues(s), [])) == Some(ServerKeys(derive, s))
  {
    hide KeysFrom, Int64LE, ToInt64LE, Names;
    HelloHoldsInt64(s);
    var v := HelloValues(s);
    assert v["m_clientSendIV"] == Int(s.clientSendIV) && v["m_serverSendIV"] == Int(s.serverSendIV);
    Int64LERoundTrip(s.rawKey[0..8]);
    Int64LERoundTrip(s.rawKey[8..16]);
    assert s.rawKey == s.rawKey[0..8] + s.rawKey[8..16];
  }

  /** The peer, decoding the hello, arrives at the same two ciphers, whatever key derivation both ends use. */
  lemma PeersAgree(cat: Catalog<Type>, derive: Key -> Key, s: Secrets, body: bytes)
    requires WellFormed(cat) && HasHello(cat)
    requires Encode(cat, HELLO, HelloValues(s)) == Ok(body)
    ensures PeerKeys(derive, Decode(cat, body)) == Some(ServerKeys(derive, s))
  {
    HelloRoundTrip(cat, s);
    KeyMaterial(derive, s);
  }

  const HELLO_MESSAGE: Message<Type> := Message(HELLO, "S2C", 0x32E4_591F, HELLO_LAYOUT)

  /** The smallest catalog a session needs. */
  function HelloCatalog(): Catalog<Type> {
    Catalog(map[HELLO_MESSAGE.id := HELLO_MESSAGE], map[HELLO := HELLO_MESSAGE], map[], map[], {})
  }

  lemma HelloCatalogServes()
    ensures WellFormed(HelloCatalog()) && HasHello(HelloCatalog())
  {
    var cat := HelloCatalog();
    assert cat.Indexed();
    assert RankedBy(cat, map[]);
    HelloDistinct();
  }

  lemma HelloDistinct()
    ensures Distinct(HELLO_LAYOUT)
  {
    var names := [
      "m_socketUID", "m_connectionKey", "m_clientSendIV", "m_serverSendIV", "m_encryptionKeyLow", "m_encryptionKeyHigh"];
    assert forall i :: 0 <= i < 6 ==> HELLO_LAYOUT[i].name == names[i];
  }
}
