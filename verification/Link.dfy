/** Both ends of a session and the two byte streams between them, over every interleaving. */
module Link {
  import opened Wire
  import opened Schema
  import opened CodecSpec
  import opened CodecValues
  import opened Keystreams
  import opened Framing
  import opened RabbitSpec
  import opened Handshakes
  import opened SessionSpec
  import CodecProofs

  datatype Sent = Sent(name: string, values: Values)

  /** One direction: bytes still on their way, bytes arrived but unread, and what was sent and received so far. */
  datatype Stream = Stream(transit: bytes, arrived: bytes, sent: seq<Sent>, got: seq<Received>)

  datatype Side = Server | Client

  /** The client has no keys until it has read the hello. */
  datatype Link = Link(server: Keys, client: Option<Keys>, up: Stream, down: Stream)

  datatype Event =
    | Send(side: Side, msg: Sent)
    | Deliver(side: Side, n: nat)
    | Recv(side: Side)

  // ---------------------------------------------------------------- steps

  function Push(st: Stream, msg: Sent, bs: bytes): Stream {
    st.(transit := st.transit + bs, sent := st.sent + [msg])
  }

  function Move(st: Stream, n: nat): Stream {
    var m := if n <= |st.transit| then n else |st.transit|;
    st.(transit := st.transit[m..], arrived := st.arrived + st.transit[..m])
  }

  /** One receive; until a whole frame has arrived it blocks. */
  function Pull(cat: Catalog<Type>, k: Buffered<State>, st: Stream): (Buffered<State>, Stream)
    requires Acyclic(cat)
  {
    if ReadFrame(st.arrived).Waiting? then (k, st)
    else
      var (r, k', rest) := RecvStep(cat, k, st.arrived);
      (k', st.(arrived := rest, got := st.got + [r]))
  }

  /** The client's first read: a plaintext frame, from which it takes its keys. */
  function Greet(cat: Catalog<Type>, derive: Key -> Key, l: Link): Link
    requires Acyclic(cat)
  {
    match ReadFrame(l.down.arrived)
    case Body(body, rest) =>
      l.(client := PeerKeys(derive, Decode(cat, body)), down := l.down.(arrived := rest))
    case _ => l
  }

  function Apply(cat: Catalog<Type>, derive: Key -> Key, l: Link, e: Event): Link
    requires Acyclic(cat)
  {
    match e
    case Send(Server, m) =>
      (match SendStep(cat, l.server.s2c, m.name, m.values)
       case Err(_) => l
       case Ok((bs, k)) => l.(server := l.server.(s2c := k), down := Push(l.down, m, bs)))
    case Send(Client, m) =>
      if l.client.None? then l
      else
        (match SendStep(cat, l.client.value.c2s, m.name, m.values)
         case Err(_) => l
         case Ok((bs, k)) => l.(client := Some(l.client.value.(c2s := k)), up := Push(l.up, m, bs)))
    case Deliver(Server, n) => l.(up := Move(l.up, n))
    case Deliver(Client, n) => l.(down := Move(l.down, n))
    case Recv(Server) =>
      var (k, st) := Pull(cat, l.server.c2s, l.up);
      l.(server := l.server.(c2s := k), up := st)
    case Recv(Client) =>
      if l.client.None? then Greet(cat, derive, l)
      else
        var (k, st) := Pull(cat, l.client.value.s2c, l.down);
        l.(client := Some(l.client.value.(s2c := k)), down := st)
  }

  /** After the server's handshake: its keys, and the hello on its way to the client. */
  function Start(derive: Key -> Key, s: Secrets, hello: bytes): Link {
    Link(ServerKeys(derive, s), None, Stream([], [], [], []), Stream(Frame(hello), [], [], []))
  }

  function Run(cat: Catalog<Type>, derive: Key -> Key, l: Link, events: seq<Event>): Link
    requires Acyclic(cat)
    decreases |events|
  {
    if events == [] then l else Apply(cat, derive, Run(cat, derive, l, events[..|events| - 1]), events[|events| - 1])
  }

  // ---------------------------------------------------------------- what must arrive

  /** The encoder refuses it, or the wire can represent it in one frame. */
  ghost predicate Sendable(cat: Catalog<Type>, m: Sent) {
    match Encode(cat, m.name, m.values)
    case Err(_) => true
    case Ok(body) => CodecProofs.FitsMessage(cat, m.name, m.values, Wireable) && |body| <= MAX_BODY
  }

  ghost predicate Sends(cat: Catalog<Type>, e: Event) {
    e.Send? ==> Sendable(cat, e.msg)
  }

  /** What a message sent is received as: every integer wrapped to its field, and no bytes left over. */
  function Expected(cat: Catalog<Type>, m: Sent): Received {
    Arrived(Decoded(
      m.name,
      if m.name in cat.byName then NormalFields(cat, cat.byName[m.name].fields, Struct(m.values), map[]) else map[],
      []))
  }

  ghost predicate InOrder(cat: Catalog<Type>, st: Stream) {
    && |st.got| <= |st.sent|
    && forall i :: 0 <= i < |st.got| ==> st.got[i] == Expected(cat, st.sent[i])
  }

  /** Nothing on its way and no whole frame left to read. */
  predicate Drained(st: Stream) {
    st.transit == [] && ReadFrame(st.arrived).Waiting?
  }

  // ---------------------------------------------------------------- the invariant of one direction

  function Plain(cat: Catalog<Type>, m: Sent): bytes {
    match Encode(cat, m.name, m.values)
    case Ok(body) => body
    case Err(_) => []
  }

  function Plains(cat: Catalog<Type>, ms: seq<Sent>): (r: seq<bytes>)
    ensures |r| == |ms| && forall i :: 0 <= i < |ms| ==> r[i] == Plain(cat, ms[i])
  {
    seq(|ms|, i requires 0 <= i < |ms| => Plain(cat, ms[i]))
  }

  ghost predicate Delivers(cat: Catalog<Type>, m: Sent) {
    && CodecProofs.FitsMessage(cat, m.name, m.values, Wireable)
    && Encode(cat, m.name, m.values).Ok?
    && |Plain(cat, m)| <= MAX_BODY
  }

  /** The unread bytes are the frames of the messages not yet received, and reading them would bring the ciphers level. */
  ghost predicate Flow(cat: Catalog<Type>, sender: Buffered<State>, receiver: Buffered<State>, unread: bytes, st: Stream) {
    && InOrder(cat, st)
    && (forall m <- st.sent :: Delivers(cat, m))
    && sender == After(RABBIT, receiver, Plains(cat, st.sent[|st.got|..]))
    && unread == Written(RABBIT, receiver, Plains(cat, st.sent[|st.got|..]))
  }

  lemma SendOf(cat: Catalog<Type>, k: Buffered<State>, m: Sent)
    requires Sendable(cat, m)
    ensures var (body, k') := Crypt(RABBIT, k, Plain(cat, m));
            match SendStep(cat, k, m.name, m.values)
            case Err(_) => true
            case Ok(sent) => Delivers(cat, m) && sent == (Frame(body), k')
  {
  }

  lemma RecvOf(cat: Catalog<Type>, k: Buffered<State>, m: Sent, stream: bytes, rest: bytes)
    requires WellFormed(cat) && Delivers(cat, m)
    requires ReadFrame(stream) == Body(Crypt(RABBIT, k, Plain(cat, m)).0, rest)
    ensures RecvStep(cat, k, stream) == (Expected(cat, m), Crypt(RABBIT, k, Plain(cat, m)).1, rest)
  {
    CryptTwice(RABBIT, k, Plain(cat, m));
    CodecProofs.RoundTrip(cat, m.name, m.values, []);
    assert Plain(cat, m) + [] == Plain(cat, m);
  }

  lemma {:induction false} FlowSend(
    cat: Catalog<Type>, sender: Buffered<State>, receiver: Buffered<State>, unread: bytes, st: Stream, m: Sent)
    requires Flow(cat, sender, receiver, unread, st) && Sendable(cat, m)
    requires SendStep(cat, sender, m.name, m.values).Ok?
    ensures var (bs, k) := SendStep(cat, sender, m.name, m.values).value;
            Flow(cat, k, receiver, unread + bs, Push(st, m, bs))
  {
    hide SendStep, Crypt, Frame, After, Written, Plain, Sendable, Delivers, Expected;
    SendOf(cat, sender, m);
    var pending := st.sent[|st.got|..];
    var (bs, k) := SendStep(cat, sender, m.name, m.values).value;
    WrittenAppend(RABBIT, receiver, Plains(cat, pending), Plain(cat, m));
    assert (st.sent + [m])[|st.got|..] == pending + [m];
    assert Plains(cat, pending + [m]) == Plains(cat, pending) + [Plain(cat, m)];
  }

  /** The first pending frame, when there is one, is what the receiver reads. */
  lemma FirstPending(cat: Catalog<Type>, sender: Buffered<State>, receiver: Buffered<State>, unread: bytes, st: Stream)
    returns (body: bytes, rest: bytes)
    requires Flow(cat, sender, receiver, unread, st) && |st.got| < |st.sent|
    ensures body == Crypt(RABBIT, receiver, Plain(cat, st.sent[|st.got|])).0
    ensures ReadFrame(unread) == Body(body, rest)
    ensures var pending := Plains(cat, st.sent[|st.got| + 1..]);
            var k' := Crypt(RABBIT, receiver, Plain(cat, st.sent[|st.got|])).1;
            sender == After(RABBIT, k', pending) && rest == Written(RABBIT, k', pending)
  {
    var n := |st.got|;
    var m := st.sent[n];
    assert Delivers(cat, m);
    var pending := Plains(cat, st.sent[n..]);
    assert pending[0] == Plain(cat, m) && pending[1..] == Plains(cat, st.sent[n + 1..]);
    var k';
    body, k' := Crypt(RABBIT, receiver, Plain(cat, m)).0, Crypt(RABBIT, receiver, Plain(cat, m)).1;
    rest := Written(RABBIT, k', pending[1..]);
    FrameRoundTrip(body, rest);
  }

  lemma NothingToRead(arrived: bytes, transit: bytes)
    requires arrived + transit == []
    ensures ReadFrame(arrived) == Waiting
  {
  }

  lemma FlowRecv(cat: Catalog<Type>, sender: Buffered<State>, receiver: Buffered<State>, unread: bytes, st: Stream)
    requires WellFormed(cat)
    requires Flow(cat, sender, receiver, unread, st) && st.arrived + st.transit == unread
    ensures var (k, st') := Pull(cat, receiver, st);
            Flow(cat, sender, k, st'.arrived + st'.transit, st')
    ensures Drained(st) ==> |st.got| == |st.sent|
  {
    hide RecvStep, Crypt, Frame, ReadFrame, After, Plain, Delivers, Expected;
    ReadFrameExtends(st.arrived, st.transit);
    if |st.got| < |st.sent| {
      var body, rest := FirstPending(cat, sender, receiver, unread, st);
      var m := st.sent[|st.got|];
      assert Delivers(cat, m);
      if ReadFrame(st.arrived).Body? {
        RecvOf(cat, receiver, m, st.arrived, ReadFrame(st.arrived).rest);
      }
      assert Drained(st) ==> st.arrived + st.transit == st.arrived;
    } else {
      assert Plains(cat, st.sent[|st.got|..]) == [];
      NothingToRead(st.arrived, st.transit);
    }
  }

  lemma PullNothing(cat: Catalog<Type>, k: Buffered<State>)
    requires Acyclic(cat)
    ensures Pull(cat, k, Stream([], [], [], [])) == (k, Stream([], [], [], []))
  {
  }

  lemma MoveKeepsBytes(st: Stream, n: nat)
    ensures var st' := Move(st, n);
            st'.arrived + st'.transit == st.arrived + st.transit && st'.sent == st.sent && st'.got == st.got
  {
  }

  // ---------------------------------------------------------------- the invariant of the link

  ghost predicate Invariant(cat: Catalog<Type>, derive: Key -> Key, s: Secrets, hello: bytes, l: Link) {
    match l.client
    case Some(keys) =>
      && Flow(cat, keys.c2s, l.server.c2s, l.up.arrived + l.up.transit, l.up)
      && Flow(cat, l.server.s2c, keys.s2c, l.down.arrived + l.down.transit, l.down)
    case None =>
      && l.up == Stream([], [], [], [])
      && l.server.c2s == ServerKeys(derive, s).c2s
      && l.down.got == []
      && var unread := Written(RABBIT, ServerKeys(derive, s).s2c, Plains(cat, l.down.sent));
         && l.down.arrived + l.down.transit == Frame(hello) + unread
         && Flow(cat, l.server.s2c, ServerKeys(derive, s).s2c, unread, l.down)
  }

  lemma {:induction false} KeptBySend(cat: Catalog<Type>, derive: Key -> Key, s: Secrets, hello: bytes, l: Link, e: Event)
    requires WellFormed(cat) && Invariant(cat, derive, s, hello, l)
    requires e.Send? && Sendable(cat, e.msg)
    ensures Invariant(cat, derive, s, hello, Apply(cat, derive, l, e))
  {
    hide SendStep, After, Frame, Plain, Delivers, Expected, ServerKeys;
    var m := e.msg;
    var k := if e.side.Server? then l.server.s2c else if l.client.Some? then l.client.value.c2s else l.server.c2s;
    var sent := SendStep(cat, k, m.name, m.values);
    if sent.Ok? {
      var bs := sent.value.0;
      if l.client.Some? {
        if e.side.Server? {
          CodecProofs.Concat3(l.down.arrived, l.down.transit, bs);
          FlowSend(cat, k, l.client.value.s2c, l.down.arrived + l.down.transit, l.down, m);
        } else {
          CodecProofs.Concat3(l.up.arrived, l.up.transit, bs);
          FlowSend(cat, k, l.server.c2s, l.up.arrived + l.up.transit, l.up, m);
        }
      } else if e.side.Server? {
        var receiver := ServerKeys(derive, s).s2c;
        var unread := Written(RABBIT, receiver, Plains(cat, l.down.sent));
        CodecProofs.Concat3(l.down.arrived, l.down.transit, bs);
        CodecProofs.Concat3(Frame(hello), unread, bs);
        FlowSend(cat, k, receiver, unread, l.down, m);
        assert (l.down.sent + [m])[0..] == l.down.sent + [m];
      }
    }
  }

  lemma {:induction false} KeptByDeliver(cat: Catalog<Type>, derive: Key -> Key, s: Secrets, hello: bytes, l: Link, e: Event)
    requires WellFormed(cat) && Invariant(cat, derive, s, hello, l)
    requires e.Deliver?
    ensures Invariant(cat, derive, s, hello, Apply(cat, derive, l, e))
  {
    hide Move, Written, After, Frame, Plain, Delivers, Expected, ServerKeys;
    MoveKeepsBytes(l.up, e.n);
    MoveKeepsBytes(l.down, e.n);
  }

  lemma KeptByGreet(cat: Catalog<Type>, derive: Key -> Key, s: Secrets, hello: bytes, l: Link)
    requires WellFormed(cat) && HasHello(cat) && Encode(cat, HELLO, HelloValues(s)) == Ok(hello)
    requires Invariant(cat, derive, s, hello, l) && l.client.None?
    ensures Invariant(cat, derive, s, hello, Greet(cat, derive, l))
    ensures !Drained(l.down)
  {
    hide Encode, Decode, Crypt, Frame, ReadFrame, Plain, Delivers, PeerKeys, HelloValues;
    var unread := Written(RABBIT, ServerKeys(derive, s).s2c, Plains(cat, l.down.sent));
    HelloRoundTrip(cat, s);
    PeersAgree(cat, derive, s, hello);
    FrameRoundTrip(hello, unread);
    ReadFrameExtends(l.down.arrived, l.down.transit);
    assert Drained(l.down) ==> l.down.arrived + l.down.transit == l.down.arrived;
    assert Plains(cat, []) == [];
  }

  lemma KeptByRecv(cat: Catalog<Type>, derive: Key -> Key, s: Secrets, hello: bytes, l: Link, e: Event)
    requires WellFormed(cat) && HasHello(cat) && Encode(cat, HELLO, HelloValues(s)) == Ok(hello)
    requires Invariant(cat, derive, s, hello, l)
    requires e.Recv?
    ensures Invariant(cat, derive, s, hello, Apply(cat, derive, l, e))
  {
    hide Pull, Written, After, Frame, ReadFrame, Plain, Delivers, Expected, ServerKeys, Encode;
    if e.side.Client? {
      if l.client.None? {
        KeptByGreet(cat, derive, s, hello, l);
      } else {
        FlowRecv(cat, l.server.s2c, l.client.value.s2c, l.down.arrived + l.down.transit, l.down);
      }
    } else if l.client.Some? {
      FlowRecv(cat, l.client.value.c2s, l.server.c2s, l.up.arrived + l.up.transit, l.up);
    } else {
      PullNothing(cat, l.server.c2s);
    }
  }

  lemma Started(cat: Catalog<Type>, derive: Key -> Key, s: Secrets, hello: bytes)
    ensures Invariant(cat, derive, s, hello, Start(derive, s, hello))
  {
    assert Plains(cat, []) == [];
    assert Frame(hello) + [] == Frame(hello) == [] + Frame(hello);
  }

  lemma {:induction false} Reached(
    cat: Catalog<Type>, derive: Key -> Key, s: Secrets, hello: bytes, events: seq<Event>)
    requires WellFormed(cat) && HasHello(cat) && Encode(cat, HELLO, HelloValues(s)) == Ok(hello)
    requires forall e <- events :: Sends(cat, e)
    ensures Invariant(cat, derive, s, hello, Run(cat, derive, Start(derive, s, hello), events))
    decreases |events|
  {
    hide Frame, Plain, Delivers, Expected, ServerKeys, Encode;
    if events == [] {
      Started(cat, derive, s, hello);
    } else {
      var front, e := events[..|events| - 1], events[|events| - 1];
      Reached(cat, derive, s, hello, front);
      var l := Run(cat, derive, Start(derive, s, hello), front);
      assert Sends(cat, e);
      match e
      case Send(_, _) => KeptBySend(cat, derive, s, hello, l, e);
      case Deliver(_, _) => KeptByDeliver(cat, derive, s, hello, l, e);
      case Recv(_) => KeptByRecv(cat, derive, s, hello, l, e);
    }
  }

  /**
   * Over every interleaving of sends and receives at both ends, and every way the byte streams are cut up: what each
   * end has received is what the other end sent, in order and in normal form, from the first message on; and once
   * everything has arrived and been read, it is all of it.
   */
  lemma {:induction false} EndToEnd(cat: Catalog<Type>, derive: Key -> Key, s: Secrets, hello: bytes, events: seq<Event>)
    requires WellFormed(cat) && HasHello(cat) && Encode(cat, HELLO, HelloValues(s)) == Ok(hello)
    requires forall e <- events :: Sends(cat, e)
    ensures var l := Run(cat, derive, Start(derive, s, hello), events);
            && InOrder(cat, l.up) && InOrder(cat, l.down)
            && (Drained(l.up) ==> |l.up.got| == |l.up.sent|)
            && (Drained(l.down) ==> |l.down.got| == |l.down.sent|)
  {
    Reached(cat, derive, s, hello, events);
    var l := Run(cat, derive, Start(derive, s, hello), events);
    if l.client.Some? {
      FlowRecv(cat, l.client.value.c2s, l.server.c2s, l.up.arrived + l.up.transit, l.up);
      FlowRecv(cat, l.server.s2c, l.client.value.s2c, l.down.arrived + l.down.transit, l.down);
    } else {
      KeptByGreet(cat, derive, s, hello, l);
    }
  }

  // ---------------------------------------------------------------- nothing gets stuck

  lemma {:induction false} RunCons(cat: Catalog<Type>, derive: Key -> Key, l: Link, e: Event, events: seq<Event>)
    requires Acyclic(cat)
    ensures Run(cat, derive, l, [e] + events) == Run(cat, derive, Apply(cat, derive, l, e), events)
    decreases |events|
  {
    hide Apply;
    if events == [] {
      assert [e] + [] == [e] && [e][..0] == [];
    } else {
      RunCons(cat, derive, l, e, events[..|events| - 1]);
      assert ([e] + events)[..|events|] == [e] + events[..|events| - 1];
    }
  }

  lemma {:induction false} RunConcat(cat: Catalog<Type>, derive: Key -> Key, l: Link, a: seq<Event>, b: seq<Event>)
    requires Acyclic(cat)
    ensures Run(cat, derive, l, a + b) == Run(cat, derive, Run(cat, derive, l, a), b)
    decreases |b|
  {
    hide Apply;
    if b == [] {
      assert a + b == a;
    } else {
      RunConcat(cat, derive, l, a, b[..|b| - 1]);
      assert (a + b)[..|a + b| - 1] == a + b[..|b| - 1];
    }
  }

  ghost function Missing(st: Stream): nat {
    if |st.got| < |st.sent| then |st.sent| - |st.got| else 0
  }

  ghost function Unkeyed(l: Link): nat {
    if l.client.None? then 1 else 0
  }

  /** From l to l' nothing was sent, and there are fewer bytes on their way, or fewer messages yet to be received. */
  ghost predicate Closer(l: Link, l': Link) {
    && l'.up.sent == l.up.sent && l'.down.sent == l.down.sent
    && (|l.down.transit|, |l.up.transit|, Unkeyed(l), Missing(l.down), Missing(l.up)
        decreases to |l'.down.transit|, |l'.up.transit|, Unkeyed(l'), Missing(l'.down), Missing(l'.up))
  }

  /** The next thing to do towards having everything received. */
  function NextEvent(l: Link): Option<Event> {
    if l.down.transit != [] then Some(Deliver(Client, |l.down.transit|))
    else if l.up.transit != [] then Some(Deliver(Server, |l.up.transit|))
    else if l.client.None? || |l.down.got| < |l.down.sent| then Some(Recv(Client))
    else if |l.up.got| < |l.up.sent| then Some(Recv(Server))
    else None
  }

  lemma PullGrows(cat: Catalog<Type>, sender: Buffered<State>, receiver: Buffered<State>, st: Stream)
    requires WellFormed(cat)
    requires Flow(cat, sender, receiver, st.arrived + st.transit, st) && st.transit == [] && |st.got| < |st.sent|
    ensures var st' := Pull(cat, receiver, st).1;
            st'.transit == [] && st'.sent == st.sent && |st'.got| == |st.got| + 1
  {
    hide RecvStep, After, Written, Plain, Delivers, Expected;
    FlowRecv(cat, sender, receiver, st.arrived + st.transit, st);
  }

  lemma GreetKeys(cat: Catalog<Type>, derive: Key -> Key, s: Secrets, hello: bytes, l: Link)
    requires WellFormed(cat) && HasHello(cat) && Encode(cat, HELLO, HelloValues(s)) == Ok(hello)
    requires Invariant(cat, derive, s, hello, l) && l.client.None? && l.down.transit == []
    ensures var l' := Greet(cat, derive, l);
            && l'.client.Some? && l'.up == l.up
            && l'.down.transit == [] && l'.down.sent == l.down.sent && l'.down.got == l.down.got
  {
    hide Encode, Decode, Frame, ReadFrame, Plain, Delivers, PeerKeys, HelloValues;
    var unread := Written(RABBIT, ServerKeys(derive, s).s2c, Plains(cat, l.down.sent));
    HelloRoundTrip(cat, s);
    PeersAgree(cat, derive, s, hello);
    FrameRoundTrip(hello, unread);
    assert l.down.arrived == l.down.arrived + l.down.transit;
  }

  lemma DeliverCloser(cat: Catalog<Type>, derive: Key -> Key, l: Link, side: Side, n: nat)
    requires Acyclic(cat) && NextEvent(l) == Some(Deliver(side, n))
    ensures Closer(l, Apply(cat, derive, l, Deliver(side, n)))
  {
  }

  lemma RecvCloser(cat: Catalog<Type>, derive: Key -> Key, s: Secrets, hello: bytes, l: Link, side: Side)
    requires WellFormed(cat) && HasHello(cat) && Encode(cat, HELLO, HelloValues(s)) == Ok(hello)
    requires Invariant(cat, derive, s, hello, l) && NextEvent(l) == Some(Recv(side))
    ensures Closer(l, Apply(cat, derive, l, Recv(side)))
  {
    hide Pull, Greet, Encode, HelloValues, Frame, After, Written, Plain, Delivers, Expected;
    if l.client.None? {
      GreetKeys(cat, derive, s, hello, l);
    } else if side.Client? {
      PullGrows(cat, l.server.s2c, l.client.value.s2c, l.down);
    } else {
      PullGrows(cat, l.client.value.c2s, l.server.c2s, l.up);
    }
  }

  lemma {:induction false} Drain(cat: Catalog<Type>, derive: Key -> Key, s: Secrets, hello: bytes, l: Link)
    returns (more: seq<Event>)
    requires WellFormed(cat) && HasHello(cat) && Encode(cat, HELLO, HelloValues(s)) == Ok(hello)
    requires Invariant(cat, derive, s, hello, l)
    ensures forall e <- more :: !e.Send?
    ensures var l' := Run(cat, derive, l, more);
            && l'.up.sent == l.up.sent && l'.down.sent == l.down.sent
            && |l'.up.got| == |l.up.sent| && |l'.down.got| == |l.down.sent|
    decreases |l.down.transit|, |l.up.transit|, Unkeyed(l), Missing(l.down), Missing(l.up)
  {
    hide Apply, Encode, HelloValues, Frame, After, Written, Plain, Delivers, Expected;
    more := [];
    if NextEvent(l).Some? {
      var e := NextEvent(l).value;
      if e.Deliver? {
        KeptByDeliver(cat, derive, s, hello, l, e);
        DeliverCloser(cat, derive, l, e.side, e.n);
      } else {
        KeptByRecv(cat, derive, s, hello, l, e);
        RecvCloser(cat, derive, s, hello, l, e.side);
      }
      var rest := Drain(cat, derive, s, hello, Apply(cat, derive, l, e));
      RunCons(cat, derive, l, e, rest);
      more := [e] + rest;
    }
  }

  /** From every state a run can reach, deliveries and receives alone bring each end everything the other has sent. */
  lemma {:induction false} EverythingArrives(
    cat: Catalog<Type>, derive: Key -> Key, s: Secrets, hello: bytes, events: seq<Event>)
    returns (more: seq<Event>)
    requires WellFormed(cat) && HasHello(cat) && Encode(cat, HELLO, HelloValues(s)) == Ok(hello)
    requires forall e <- events :: Sends(cat, e)
    ensures forall e <- more :: !e.Send?
    ensures var l := Run(cat, derive, Start(derive, s, hello), events);
            var l' := Run(cat, derive, Start(derive, s, hello), events + more);
            && l'.up.sent == l.up.sent && |l'.up.got| == |l.up.sent| && InOrder(cat, l'.up)
            && l'.down.sent == l.down.sent && |l'.down.got| == |l.down.sent| && InOrder(cat, l'.down)
  {
    hide Apply, Encode, HelloValues, InOrder, Invariant, Sendable;
    Reached(cat, derive, s, hello, events);
    more := Drain(cat, derive, s, hello, Run(cat, derive, Start(derive, s, hello), events));
    RunConcat(cat, derive, Start(derive, s, hello), events, more);
    EndToEnd(cat, derive, s, hello, events + more);
  }
}
