/** Which keystream every frame of a session is encrypted with, over every interleaving. */
module Sealing {
  import opened Wire
  import opened Schema
  import opened CodecSpec
  import opened Keystreams
  import opened Framing
  import opened RabbitSpec
  import opened Handshakes
  import opened SessionSpec
  import L = Link

  /** The cipher keyed from an IV, with nothing buffered. */
  function Fresh(derived: Key, iv: Nonce): Buffered<State> {
    Buffered(Setup(derived, Some(LE(8, iv))), [])
  }

  lemma KeysAre(derive: Key -> Key, s: Secrets)
    ensures ServerKeys(derive, s)
         == Keys(Fresh(derive(s.rawKey), s.clientSendIV), Fresh(derive(s.rawKey), s.serverSendIV))
  {
    hide Setup, Int64LE;
    NonceBytes(s.clientSendIV);
    NonceBytes(s.serverSendIV);
  }

  /** Each end's sending cipher has encrypted what that end has sent, in order, and nothing else. */
  ghost predicate InStep(cat: Catalog<Type>, derive: Key -> Key, s: Secrets, l: L.Link) {
    && l.server.s2c == After(RABBIT, Fresh(derive(s.rawKey), s.serverSendIV), L.Plains(cat, l.down.sent))
    && match l.client
       case None => l.up.sent == []
       case Some(keys) => keys.c2s == After(RABBIT, Fresh(derive(s.rawKey), s.clientSendIV), L.Plains(cat, l.up.sent))
  }

  lemma OneMoreSent(cat: Catalog<Type>, k0: Buffered<State>, k: Buffered<State>, sent: seq<L.Sent>, m: L.Sent)
    requires k == After(RABBIT, k0, L.Plains(cat, sent)) && SendStep(cat, k, m.name, m.values).Ok?
    ensures SendStep(cat, k, m.name, m.values).value.1 == After(RABBIT, k0, L.Plains(cat, sent + [m]))
  {
    hide After, Crypt;
    WrittenAppend(RABBIT, k0, L.Plains(cat, sent), L.Plain(cat, m));
    assert L.Plains(cat, sent + [m]) == L.Plains(cat, sent) + [L.Plain(cat, m)];
  }

  lemma {:induction false} KeptBySend(cat: Catalog<Type>, derive: Key -> Key, s: Secrets, l: L.Link, e: L.Event)
    requires Acyclic(cat) && InStep(cat, derive, s, l) && e.Send?
    ensures InStep(cat, derive, s, L.Apply(cat, derive, l, e))
  {
    hide SendStep, After, Fresh, L.Plains;
    var m, key := e.msg, derive(s.rawKey);
    if e.side.Server? {
      if SendStep(cat, l.server.s2c, m.name, m.values).Ok? {
        OneMoreSent(cat, Fresh(key, s.serverSendIV), l.server.s2c, l.down.sent, m);
      }
    } else if l.client.Some? && SendStep(cat, l.client.value.c2s, m.name, m.values).Ok? {
      OneMoreSent(cat, Fresh(key, s.clientSendIV), l.client.value.c2s, l.up.sent, m);
    }
  }

  /** The first frame the client reads is the hello, so its keys are the server's. */
  lemma Greeted(cat: Catalog<Type>, derive: Key -> Key, s: Secrets, hello: bytes, l: L.Link)
    requires WellFormed(cat) && HasHello(cat) && Encode(cat, HELLO, HelloValues(s)) == Ok(hello)
    requires L.Invariant(cat, derive, s, hello, l) && l.client.None?
    ensures var l' := L.Greet(cat, derive, l);
            && (l'.client == None || l'.client == Some(ServerKeys(derive, s)))
            && l'.server == l.server && l'.up == l.up && l'.down.sent == l.down.sent
  {
    hide Encode, Decode, Crypt, Frame, ReadFrame, PeerKeys, HelloValues, L.Plains;
    var unread := Written(RABBIT, ServerKeys(derive, s).s2c, L.Plains(cat, l.down.sent));
    HelloRoundTrip(cat, s);
    PeersAgree(cat, derive, s, hello);
    FrameRoundTrip(hello, unread);
    ReadFrameExtends(l.down.arrived, l.down.transit);
  }

  lemma KeptByRecv(cat: Catalog<Type>, derive: Key -> Key, s: Secrets, hello: bytes, l: L.Link, e: L.Event)
    requires WellFormed(cat) && HasHello(cat) && Encode(cat, HELLO, HelloValues(s)) == Ok(hello)
    requires L.Invariant(cat, derive, s, hello, l) && InStep(cat, derive, s, l) && e.Recv?
    ensures InStep(cat, derive, s, L.Apply(cat, derive, l, e))
  {
    hide L.Invariant, Encode, HelloValues, RecvStep, ReadFrame, Fresh, L.Greet;
    if e.side.Client? && l.client.None? {
      Greeted(cat, derive, s, hello, l);
      KeysAre(derive, s);
      assert L.Plains(cat, []) == [];
    }
  }

  lemma {:induction false} StaysInStep(
    cat: Catalog<Type>, derive: Key -> Key, s: Secrets, hello: bytes, events: seq<L.Event>)
    requires WellFormed(cat) && HasHello(cat) && Encode(cat, HELLO, HelloValues(s)) == Ok(hello)
    requires forall e <- events :: L.Sends(cat, e)
    ensures InStep(cat, derive, s, L.Run(cat, derive, L.Start(derive, s, hello), events))
    decreases |events|
  {
    hide L.Invariant, L.Sendable, Encode, HelloValues, InStep;
    if events == [] {
      StartsInStep(cat, derive, s, hello);
    } else {
      var front, e := events[..|events| - 1], events[|events| - 1];
      StaysInStep(cat, derive, s, hello, front);
      L.Reached(cat, derive, s, hello, front);
      var l := L.Run(cat, derive, L.Start(derive, s, hello), front);
      match e
      case Send(_, _) => KeptBySend(cat, derive, s, l, e);
      case Deliver(_, _) => KeptByDeliver(cat, derive, s, l, e);
      case Recv(_) => KeptByRecv(cat, derive, s, hello, l, e);
    }
  }

  lemma StartsInStep(cat: Catalog<Type>, derive: Key -> Key, s: Secrets, hello: bytes)
    ensures InStep(cat, derive, s, L.Start(derive, s, hello))
  {
    hide Fresh, Frame;
    KeysAre(derive, s);
    assert L.Plains(cat, []) == [];
  }

  lemma KeptByDeliver(cat: Catalog<Type>, derive: Key -> Key, s: Secrets, l: L.Link, e: L.Event)
    requires Acyclic(cat) && InStep(cat, derive, s, l) && e.Deliver?
    ensures InStep(cat, derive, s, L.Apply(cat, derive, l, e))
  {
    hide Fresh, After, L.Plains;
  }

  /** The IV that the hello announces under a name, as the bytes a cipher is set up with. */
  function Announced(hello: Decoded, fname: string): bytes
    requires hello.Decoded? && fname in hello.values && hello.values[fname].Int?
  {
    LE(8, Truncate(8, hello.values[fname].i))
  }

  /** Frame k: the body XORed with the blocks from the sum of the earlier bodies' block counts on. */
  function SealedFrame(derived: Key, iv: bytes, earlier: seq<bytes>, body: bytes): bytes
    requires |iv| >= 8
  {
    var first := Framing.Start(earlier, |earlier|);
    Frame(XorBytes(body, Blocks(RABBIT, Iterate(RABBIT, Setup(derived, Some(iv)), first), BlocksFor(|body|))))
  }

  lemma SealedWith(cat: Catalog<Type>, derived: Key, iv: Nonce, k: Buffered<State>, sent: seq<L.Sent>, m: L.Sent)
    requires k == After(RABBIT, Fresh(derived, iv), L.Plains(cat, sent)) && Encode(cat, m.name, m.values).Ok?
    ensures SendStep(cat, k, m.name, m.values).Ok?
    ensures SendStep(cat, k, m.name, m.values).value.0
         == SealedFrame(derived, LE(8, iv), L.Plains(cat, sent), Encode(cat, m.name, m.values).value)
  {
    hide Setup, Encode, L.Plains, Frame, Crypt, XorBytes, LE;
    var s0 := Setup(derived, Some(LE(8, iv)));
    var earlier := L.Plains(cat, sent);
    StepsTaken(RABBIT, s0, earlier);
    CryptAligned(RABBIT, Iterate(RABBIT, s0, Framing.Start(earlier, |earlier|)), Encode(cat, m.name, m.values).value);
  }

  lemma Pushed(cat: Catalog<Type>, derive: Key -> Key, l: L.Link, m: L.Sent)
    requires Acyclic(cat)
    ensures SendStep(cat, l.server.s2c, m.name, m.values).Ok? ==>
              L.Apply(cat, derive, l, L.Send(L.Server, m)).down.transit
              == l.down.transit + SendStep(cat, l.server.s2c, m.name, m.values).value.0
    ensures l.client.Some? && SendStep(cat, l.client.value.c2s, m.name, m.values).Ok? ==>
              L.Apply(cat, derive, l, L.Send(L.Client, m)).up.transit
              == l.up.transit + SendStep(cat, l.client.value.c2s, m.name, m.values).value.0
  {
    hide SendStep;
  }

  /** The hello names both IVs. */
  ghost predicate Announces(d: Decoded) {
    && d.Decoded? && "m_serverSendIV" in d.values && d.values["m_serverSendIV"].Int?
    && "m_clientSendIV" in d.values && d.values["m_clientSendIV"].Int?
  }

  lemma HelloAnnounces(cat: Catalog<Type>, s: Secrets, hello: bytes)
    requires WellFormed(cat) && HasHello(cat) && Encode(cat, HELLO, HelloValues(s)) == Ok(hello)
    ensures var d := Decode(cat, hello);
            && Announces(d)
            && Announced(d, "m_serverSendIV") == LE(8, s.serverSendIV)
            && Announced(d, "m_clientSendIV") == LE(8, s.clientSendIV)
  {
    HelloRoundTrip(cat, s);
    HelloIvs(s);
    hide Encode, Decode, HelloValues, LE;
    NonceBytes(s.serverSendIV);
    NonceBytes(s.clientSendIV);
  }

  lemma HelloIvs(s: Secrets)
    ensures var v := HelloValues(s);
            && "m_serverSendIV" in v && v["m_serverSendIV"] == Int(s.serverSendIV)
            && "m_clientSendIV" in v && v["m_clientSendIV"] == Int(s.clientSendIV)
  {
    hide ToInt64LE;
  }

  /**
   * In every reachable state, what the server next sends goes out XORed with its own stretch of the keystream that the
   * announced m_serverSendIV starts, and what the client sends with that of m_clientSendIV.
   */
  lemma {:induction false} EveryFrameSealed(
    cat: Catalog<Type>, derive: Key -> Key, s: Secrets, hello: bytes, events: seq<L.Event>, m: L.Sent)
    requires WellFormed(cat) && HasHello(cat) && Encode(cat, HELLO, HelloValues(s)) == Ok(hello)
    requires forall e <- events :: L.Sends(cat, e)
    requires Encode(cat, m.name, m.values).Ok?
    ensures Announces(Decode(cat, hello))
    ensures var d, l := Decode(cat, hello), L.Run(cat, derive, L.Start(derive, s, hello), events);
            var body, down := Encode(cat, m.name, m.values).value, L.Plains(cat, l.down.sent);
            L.Apply(cat, derive, l, L.Send(L.Server, m)).down.transit
            == l.down.transit + SealedFrame(derive(s.rawKey), Announced(d, "m_serverSendIV"), down, body)
    ensures var d, l := Decode(cat, hello), L.Run(cat, derive, L.Start(derive, s, hello), events);
            var body, up := Encode(cat, m.name, m.values).value, L.Plains(cat, l.up.sent);
            l.client.Some? ==>
              L.Apply(cat, derive, l, L.Send(L.Client, m)).up.transit
              == l.up.transit + SealedFrame(derive(s.rawKey), Announced(d, "m_clientSendIV"), up, body)
  {
    HelloAnnounces(cat, s, hello);
    StaysInStep(cat, derive, s, hello, events);
    var l := L.Run(cat, derive, L.Start(derive, s, hello), events);
    Pushed(cat, derive, l, m);
    hide SendStep, SealedFrame, Announced, Encode, Decode, HelloValues, L.Sends, L.Plains, L.Run, L.Apply, Fresh, LE;
    SealedWith(cat, derive(s.rawKey), s.serverSendIV, l.server.s2c, l.down.sent, m);
    if l.client.Some? {
      SealedWith(cat, derive(s.rawKey), s.clientSendIV, l.client.value.c2s, l.up.sent, m);
    }
  }
}
