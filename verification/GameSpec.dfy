/** One client's passage from login into the world: what each message does to the session, and what every run keeps. */
module GameSpec {
  import opened Wire
  import opened CodecSpec
  import opened Store
  import opened SessionSpec
  import Utf16
  import W = World

  const OID_WORLD_MULTIPLIER: int := 1_000_000_000
  const NO_CHARACTER: nat := 50101
  const AUTH_FAILED: nat := 1

  /** What the server and the connection bring to every message. */
  datatype Config = Config(worldID: Int64, protocolVer: Int32, socketUID: Int64, connectionKey: Int64)

  /** A session of the region service: whose it is, for which world. */
  datatype Account = Account(accountID: Int64, worldID: Int64, userCode: Utf16.Text)

  /**
   * What the world outside answers while one message is handled; of the region service, its sessions by their keys, less
   * those it fails to tell of.
   */
  datatype Env = Env(
    sessions: map<Int32, Account>, upserted: bool, listing: Option<seq<Character>>, token: Option<Int64>, created: bool)

  datatype Request = Request(name: string, values: Values)

  datatype Reply =
    | VersionReply
    | LoginReply(result: nat)
    | EnterReply(result: nat, slot: Int32)
    | EnterCompleteReply(token: Int64, oid: Int64)
    | MapEnterReply(mapID: Int32)
    | MapEnterCompleteReply(oid: Int64)
    | OtherReply(name: string)

  /** The session's fields, and how many more sends its connection will take. */
  datatype State = State(
    accountID: Int64, authed: bool, character: Option<Character>, playerOID: Int64, warpToken: Int64, inWorld: bool,
    link: nat)

  // ---------------------------------------------------------------- reading a request

  function AsInt64(values: Values, fname: string): Int64 {
    if fname in values && ToInt64(values[fname]).Some? then ToInt64(values[fname]).value else 0
  }

  function AsUint64(values: Values, fname: string): UInt64 {
    if fname in values && ToUint64(values[fname]).Some? then ToUint64(values[fname]).value else 0
  }

  function AsText(values: Values, fname: string): Utf16.Text {
    if fname in values && values[fname].Text? then values[fname].s else []
  }

  function ToInt32(v: int): Int32 {
    Signed(4, Truncate(4, v))
  }

  function Wrap64(v: int): Int64 {
    Signed(8, Truncate(8, v))
  }

  /** Fields are read as 64 bits, whichever sign they were decoded with; one that is missing or of another kind is 0. */
  lemma FieldRead(values: Values, fname: string)
    ensures var i, u := AsInt64(values, fname), AsUint64(values, fname);
            && (i - u) % 0x1_0000_0000_0000_0000 == 0
            && (fname in values && values[fname].Int? ==> i == values[fname].i)
            && (fname in values && values[fname].UInt? ==> u == values[fname].u)
            && (!(fname in values && (values[fname].Int? || values[fname].UInt?)) ==> i == u == 0)
    ensures AsText(values, fname) == if fname in values && values[fname].Text? then values[fname].s else []
  {
  }

  /** int32 of an integer: its low 32 bits, signed. */
  lemma Int32Wraps(n: int)
    ensures -0x8000_0000 <= ToInt32(n) < 0x8000_0000 && (ToInt32(n) - n) % 0x1_0000_0000 == 0
  {
  }

  /** The object id the server hands out for a character. */
  function PlayerOID(cfg: Config, c: Character): Int64 {
    Wrap64(cfg.worldID * OID_WORLD_MULTIPLIER + c.id)
  }

  /** newWarpToken: never zero. */
  function WarpToken(raw: Int64): (token: Int64)
    ensures token != 0
  {
    if raw == 0 then 1 else raw
  }

  /** The character's slot, as a uint64, is the one asked for. */
  predicate HasSlot(c: Character, slot: UInt64) {
    ToUint64(Int(c.slotIndex)) == Some(slot)
  }

  /** The first listed character in the slot. */
  function InSlot(listed: seq<Character>, slot: UInt64): Option<Character> {
    if listed == [] then None
    else if HasSlot(listed[0], slot) then Some(listed[0])
    else InSlot(listed[1..], slot)
  }

  /** A listed character in the slot is found exactly when there is one. */
  lemma {:induction false} InSlotMeans(listed: seq<Character>, slot: UInt64)
    ensures InSlot(listed, slot).Some? <==> exists c <- listed :: HasSlot(c, slot)
    ensures InSlot(listed, slot).Some? ==>
              InSlot(listed, slot).value in listed && HasSlot(InSlot(listed, slot).value, slot)
  {
    if listed != [] {
      InSlotMeans(listed[1..], slot);
      assert forall c <- listed[1..] :: c in listed;
      assert forall c <- listed :: c == listed[0] || c in listed[1..];
    }
  }

  function Joining(cfg: Config, s: State, c: Character): W.Player {
    W.Player(PlayerOID(cfg, c), c.id, s.accountID, c.name, c.mapID, c.pose)
  }

  // ---------------------------------------------------------------- handling a request

  /** What a handler set out to do; its replies go out in order until one fails. */
  datatype Plan = Plan(state: State, replies: seq<Reply>, joins: seq<W.Command>, ok: bool)

  function Refuse(s: State): Plan {
    Plan(s, [], [], false)
  }

  function Answer(s: State, r: Reply): Plan {
    Plan(s, [r], [], true)
  }

  function PlanVersionCheck(cfg: Config, s: State, v: Values): Plan {
    if AsInt64(v, "m_socketUID") != cfg.socketUID || AsInt64(v, "m_connectionKey") != cfg.connectionKey then Refuse(s)
    else if cfg.protocolVer != 0 && ToInt32(AsInt64(v, "m_protocolVer")) != cfg.protocolVer then Refuse(s)
    else Answer(s, VersionReply)
  }

  /** Validate: the session of that key, if it is of that user. */
  function Validate(sessions: map<Int32, Account>, key: Int32, code: Utf16.Text): Option<Account> {
    if key in sessions && sessions[key].userCode == code then Some(sessions[key]) else None
  }

  function PlanLogin(cfg: Config, s: State, v: Values, env: Env): Plan {
    var a := Validate(env.sessions, ToInt32(AsInt64(v, "m_sessionKey")), AsText(v, "m_accountCode"));
    if a.None? || a.value.worldID != cfg.worldID || !env.upserted then Answer(s, LoginReply(AUTH_FAILED))
    else Answer(s.(accountID := a.value.accountID, authed := true), LoginReply(0))
  }

  function PlanEnterWorld(cfg: Config, s: State, v: Values, env: Env): Plan {
    if env.listing.None? then Refuse(s)
    else
      var slot := AsUint64(v, "m_playerSlotIndex");
      match InSlot(env.listing.value, slot)
      case None => Answer(s, EnterReply(NO_CHARACTER, ToInt32(slot)))
      case Some(c) =>
        if env.token.None? then Refuse(s)
        else
          var token := WarpToken(env.token.value);
          var oid := PlayerOID(cfg, c);
          Plan(s.(character := Some(c), playerOID := oid, warpToken := token, inWorld := true),
               [EnterReply(0, c.slotIndex), EnterCompleteReply(token, oid)],
               [W.Join(Joining(cfg, s, c))],
               true)
  }

  function PlanMapEnter(s: State, v: Values): Plan {
    if s.character.None? || AsInt64(v, "m_warpToken") != s.warpToken then Refuse(s)
    else Answer(s, MapEnterReply(s.character.value.mapID))
  }

  function PlanMapEnterComplete(s: State): Plan {
    if s.character.None? then Refuse(s) else Answer(s, MapEnterCompleteReply(s.playerOID))
  }

  /** The messages whose handlers leave the session as it is. */
  function PlanLobby(s: State, name: string, env: Env): Plan {
    if name == "C2S_WaitingUserCount" || name == "C2S_MapEnterPreComplete" || name == "C2S_PlayerLoadFirstCall"
       || name == "C2S_Logout" then Answer(s, OtherReply(name))
    else if name == "C2S_PlayerList" then (if env.listing.None? then Refuse(s) else Answer(s, OtherReply(name)))
    else if name == "C2S_CreatePlayer" then (if env.created then Answer(s, OtherReply(name)) else Refuse(s))
    else Plan(s, [], [], true)
  }

  /** dispatch: everything but the version check and the login needs an authenticated session. */
  function PlanFor(cfg: Config, s: State, r: Request, env: Env): Plan {
    if r.name == "C2S_VersionCheck" then PlanVersionCheck(cfg, s, r.values)
    else if r.name == "C2S_SessionAuthLogin" then PlanLogin(cfg, s, r.values, env)
    else if !s.authed then Refuse(s)
    else if r.name == "C2S_EnterWorld" then PlanEnterWorld(cfg, s, r.values, env)
    else if r.name == "C2S_MapEnter" then PlanMapEnter(s, r.values)
    else if r.name == "C2S_MapEnterComplete" then PlanMapEnterComplete(s)
    else PlanLobby(s, r.name, env)
  }

  /** Sending the planned replies over a connection that takes so many more sends. */
  function Carry(p: Plan): (r: Plan)
    ensures r.replies <= p.replies && r.joins == p.joins
  {
    var n := |p.replies|;
    if n <= p.state.link then p.(state := p.state.(link := p.state.link - n))
    else Plan(p.state.(link := 0), p.replies[..p.state.link], p.joins, false)
  }

  function Turn(cfg: Config, s: State, r: Request, env: Env): Plan {
    Carry(PlanFor(cfg, s, r, env))
  }

  // ---------------------------------------------------------------- a whole connection

  datatype Event =
    | Got(request: Request)
    | Said(reply: Reply)

  function Says(replies: seq<Reply>): (r: seq<Event>)
    ensures |r| == |replies| && forall i :: 0 <= i < |r| ==> r[i] == Said(replies[i])
  {
    seq(|replies|, i requires 0 <= i < |replies| => Said(replies[i]))
  }

  /** A connection so far: the session, everything heard and said, its joins, and whether it is still being served. */
  datatype Life = Life(state: State, trace: seq<Event>, joins: seq<W.Command>, open: bool)

  datatype Input = Input(received: Received, env: Env)

  function Born(link: nat): Life {
    Life(State(0, false, None, 0, 0, false, link), [], [], true)
  }

  /** One turn of the serving loop: an unknown opcode is skipped; a failed receive or handler ends the connection. */
  function Hear(cfg: Config, l: Life, input: Input): Life {
    if !l.open then l
    else
      match input.received
      case Arrived(Decoded(name, values, _)) =>
        var r := Request(name, values);
        var p := Turn(cfg, l.state, r, input.env);
        Life(p.state, l.trace + [Got(r)] + Says(p.replies), l.joins + p.joins, p.ok)
      case Arrived(UnknownOpcode(_)) => l
      case _ => l.(open := false)
  }

  function Live(cfg: Config, l: Life, inputs: seq<Input>): Life {
    if inputs == [] then l else Hear(cfg, Live(cfg, l, inputs[..|inputs| - 1]), inputs[|inputs| - 1])
  }

  /** What the serving loop leaves behind in the world's queue when it ends. */
  function Commands(l: Life): seq<W.Command> {
    l.joins + if l.state.inWorld && l.state.character.Some? then [W.Leave(l.state.character.value.id)] else []
  }

  // ---------------------------------------------------------------- what every run keeps

  ghost predicate LoggedIn(trace: seq<Event>) {
    Said(LoginReply(0)) in trace
  }

  /** The token and object id a client was given when it entered the world. */
  datatype Entry = Entry(token: Int64, oid: Int64)

  /** What the last S2C_EnterWorldComplete said. */
  function LastEntry(trace: seq<Event>): Option<Entry> {
    if trace == [] then None
    else
      var last := trace[|trace| - 1];
      if last.Said? && last.reply.EnterCompleteReply? then Some(Entry(last.reply.token, last.reply.oid))
      else LastEntry(trace[..|trace| - 1])
  }

  predicate JoinsOf(joins: seq<W.Command>, c: Character) {
    joins != [] && joins[|joins| - 1].Join? && joins[|joins| - 1].player.characterID == c.id
  }

  predicate Sound(cfg: Config, s: State) {
    && (s.inWorld <==> s.character.Some?)
    && (s.character.Some? ==> s.authed && s.warpToken != 0 && s.playerOID == PlayerOID(cfg, s.character.value))
  }

  /** The messages that are heard before a login. */
  const OPEN: set<string> := {"C2S_VersionCheck", "C2S_SessionAuthLogin"}

  /** The messages that are answered without touching the session. */
  const LOBBY: set<string> := {
    "C2S_WaitingUserCount", "C2S_PlayerList", "C2S_CreatePlayer", "C2S_MapEnterPreComplete", "C2S_PlayerLoadFirstCall",
    "C2S_Logout"}

  /** Both handshake identifiers, and the version if the server requires one. */
  predicate Echoes(cfg: Config, v: Values) {
    && AsInt64(v, "m_socketUID") == cfg.socketUID
    && AsInt64(v, "m_connectionKey") == cfg.connectionKey
    && (cfg.protocolVer == 0 || ToInt32(AsInt64(v, "m_protocolVer")) == cfg.protocolVer)
  }

  /** The message said at i directly follows a request of this name. */
  predicate Asked(trace: seq<Event>, i: nat, name: string)
    requires i < |trace|
  {
    i > 0 && trace[i - 1].Got? && trace[i - 1].request.name == name
  }

  /** Why a reply may be said where it is. */
  ghost predicate Entitled(cfg: Config, trace: seq<Event>, i: nat)
    requires i < |trace|
  {
    trace[i].Said? ==>
      match trace[i].reply
      case VersionReply => Asked(trace, i, "C2S_VersionCheck") && Echoes(cfg, trace[i - 1].request.values)
      case LoginReply(_) => Asked(trace, i, "C2S_SessionAuthLogin")
      case EnterReply(_, _) => Asked(trace, i, "C2S_EnterWorld") && LoggedIn(trace[..i])
      case EnterCompleteReply(token, _) =>
        token != 0 && i > 0 && trace[i - 1].Said? && trace[i - 1].reply.EnterReply? && trace[i - 1].reply.result == 0
      case MapEnterReply(_) =>
        && Asked(trace, i, "C2S_MapEnter") && LoggedIn(trace[..i])
        && AsInt64(trace[i - 1].request.values, "m_warpToken") != 0
        && LastEntry(trace[..i]).Some?
        && LastEntry(trace[..i]).value.token == AsInt64(trace[i - 1].request.values, "m_warpToken")
      case MapEnterCompleteReply(oid) =>
        && Asked(trace, i, "C2S_MapEnterComplete") && LoggedIn(trace[..i])
        && LastEntry(trace[..i]).Some? && LastEntry(trace[..i]).value.oid == oid
      case OtherReply(name) => Asked(trace, i, name) && name in LOBBY && LoggedIn(trace[..i])
  }

  ghost predicate AllEntitled(cfg: Config, trace: seq<Event>) {
    forall i :: 0 <= i < |trace| ==> Entitled(cfg, trace, i)
  }

  /** A request that needs a login came after one, or was the last thing heard and ended the connection unanswered. */
  ghost predicate Gated(trace: seq<Event>, open: bool, i: nat)
    requires i < |trace|
  {
    trace[i].Got? && trace[i].request.name !in OPEN ==> LoggedIn(trace[..i]) || (i + 1 == |trace| && !open)
  }

  ghost predicate AllGated(trace: seq<Event>, open: bool) {
    forall i :: 0 <= i < |trace| ==> Gated(trace, open, i)
  }

  ghost predicate Invariant(cfg: Config, l: Life) {
    && Sound(cfg, l.state)
    && (forall j <- l.joins :: j.Join?)
    && (l.state.character.Some? ==> JoinsOf(l.joins, l.state.character.value))
    && (l.state.character.None? ==> l.joins == [])
    && (LoggedIn(l.trace) ==> l.state.authed)
    && (l.open && l.state.authed ==> LoggedIn(l.trace))
    && (l.open && l.state.character.Some? ==>
          LastEntry(l.trace) == Some(Entry(l.state.warpToken, l.state.playerOID)))
    && AllEntitled(cfg, l.trace)
    && AllGated(l.trace, l.open)
  }

  lemma LastEntryStep(trace: seq<Event>, e: Event)
    ensures LastEntry(trace + [e])
         == if e.Said? && e.reply.EnterCompleteReply? then Some(Entry(e.reply.token, e.reply.oid)) else LastEntry(trace)
  {
    assert (trace + [e])[..|trace|] == trace;
  }

  /** A trace stays in order when it grows by something that has its reason. */
  lemma EntitledAppend(cfg: Config, trace: seq<Event>, e: Event)
    requires AllEntitled(cfg, trace) && Entitled(cfg, trace + [e], |trace|)
    ensures AllEntitled(cfg, trace + [e])
    ensures LoggedIn(trace + [e]) <==> LoggedIn(trace) || e == Said(LoginReply(0))
  {
    forall i | 0 <= i < |trace + [e]|
      ensures Entitled(cfg, trace + [e], i)
    {
      if i < |trace| {
        assert Entitled(cfg, trace, i);
        assert (trace + [e])[..i] == trace[..i];
      }
    }
  }

  /** The gate stays shut when replies follow a request that was let through. */
  lemma GatedAppend(trace: seq<Event>, more: seq<Event>, open: bool)
    requires AllGated(trace, true) && forall e <- more :: e.Said?
    ensures AllGated(trace + more, open)
  {
    forall i | 0 <= i < |trace + more|
      ensures Gated(trace + more, open, i)
    {
      if i < |trace| {
        assert Gated(trace, true, i);
        assert (trace + more)[i] == trace[i] && (trace + more)[..i] == trace[..i];
      } else {
        assert (trace + more)[i] == more[i - |trace|] && more[i - |trace|] in more;
      }
    }
  }

  lemma GatedHear(trace: seq<Event>, r: Request, open: bool)
    requires AllGated(trace, true)
    requires r.name in OPEN || LoggedIn(trace) || !open
    ensures AllGated(trace + [Got(r)], open)
  {
    forall i | 0 <= i < |trace + [Got(r)]|
      ensures Gated(trace + [Got(r)], open, i)
    {
      if i < |trace| {
        assert Gated(trace, true, i);
      }
      assert (trace + [Got(r)])[..i] == trace[..i];
    }
  }

  lemma SaysOneByOne(replies: seq<Reply>, trace: seq<Event>)
    ensures replies == [] ==> trace + Says(replies) == trace
    ensures |replies| == 1 ==> trace + Says(replies) == trace + [Said(replies[0])]
    ensures |replies| == 2 ==> trace + Says(replies) == trace + [Said(replies[0])] + [Said(replies[1])]
  {
  }

  /** What a session in state s may say first in answer to r. */
  predicate Allowed(cfg: Config, s: State, r: Request, x: Reply) {
    match x
    case VersionReply => r.name == "C2S_VersionCheck" && Echoes(cfg, r.values)
    case LoginReply(_) => r.name == "C2S_SessionAuthLogin"
    case EnterReply(_, _) => r.name == "C2S_EnterWorld" && s.authed
    case EnterCompleteReply(_, _) => false
    case MapEnterReply(_) =>
      r.name == "C2S_MapEnter" && s.authed && s.character.Some? && AsInt64(r.values, "m_warpToken") == s.warpToken
    case MapEnterCompleteReply(oid) =>
      r.name == "C2S_MapEnterComplete" && s.authed && s.character.Some? && oid == s.playerOID
    case OtherReply(name) => r.name == name && name in LOBBY && s.authed
  }

  /** What a plan must meet for the invariant to survive it. */
  ghost predicate Acceptable(cfg: Config, s: State, r: Request, p: Plan) {
    && Sound(cfg, p.state)
    && (p.state.authed == s.authed || p.replies == [LoginReply(0)])
    && (s.authed || LoginReply(0) in p.replies ==> p.state.authed)
    && (!s.authed && r.name !in OPEN ==> p.replies == [] && !p.ok)
    && (p.replies != [] ==> Allowed(cfg, s, r, p.replies[0]))
    && (forall j <- p.joins :: j.Join?)
    && (p.joins == [] ==>
          && p.state.character == s.character && p.state.warpToken == s.warpToken && p.state.playerOID == s.playerOID
          && |p.replies| <= 1)
    && (p.joins != [] ==>
          && p.state.character.Some? && JoinsOf(p.joins, p.state.character.value)
          && |p.replies| == 2 && p.replies[0].EnterReply? && p.replies[0].result == 0
          && p.replies[1] == EnterCompleteReply(p.state.warpToken, p.state.playerOID))
  }

  lemma PlansAcceptable(cfg: Config, s: State, r: Request, env: Env)
    requires Sound(cfg, s)
    ensures Acceptable(cfg, s, r, PlanFor(cfg, s, r, env))
  {
    hide PlanEnterWorld, PlanLobby, AsInt64, PlayerOID, ToInt32;
    if s.authed {
      if r.name == "C2S_EnterWorld" {
        EnterWorldAcceptable(cfg, s, r, env);
      }
      LobbyAcceptable(cfg, s, r, env);
    }
  }

  lemma EnterWorldAcceptable(cfg: Config, s: State, r: Request, env: Env)
    requires Sound(cfg, s) && s.authed && r.name == "C2S_EnterWorld"
    ensures Acceptable(cfg, s, r, PlanEnterWorld(cfg, s, r.values, env))
  {
    hide PlayerOID, InSlot, AsUint64, ToInt32;
  }

  lemma LobbyAcceptable(cfg: Config, s: State, r: Request, env: Env)
    requires Sound(cfg, s) && s.authed
    ensures Acceptable(cfg, s, r, PlanLobby(s, r.name, env))
  {
    hide PlayerOID;
  }

  /** The first answer to a request has its reason. */
  lemma AnswerEntitled(cfg: Config, l: Life, r: Request, x: Reply)
    requires Invariant(cfg, l) && l.open && Allowed(cfg, l.state, r, x)
    ensures Entitled(cfg, l.trace + [Got(r)] + [Said(x)], |l.trace| + 1)
  {
    var heard := l.trace + [Got(r)];
    LastEntryStep(l.trace, Got(r));
    assert (heard + [Said(x)])[..|l.trace| + 1] == heard;
    assert heard[|l.trace|] == Got(r);
  }

  /** At most one answer, or the two that entering the world takes. */
  ghost predicate Answers(cfg: Config, s: State, r: Request, replies: seq<Reply>) {
    && |replies| <= 2
    && (replies != [] ==> Allowed(cfg, s, r, replies[0]))
    && (|replies| == 2 ==>
          && replies[0].EnterReply? && replies[0].result == 0
          && replies[1].EnterCompleteReply? && replies[1].token != 0)
  }

  lemma AllowedPassesGate(cfg: Config, l: Life, r: Request, x: Reply)
    requires Invariant(cfg, l) && l.open && Allowed(cfg, l.state, r, x)
    ensures r.name in OPEN || LoggedIn(l.trace)
    ensures !x.EnterCompleteReply?
  {
  }

  lemma TurnTrace(cfg: Config, l: Life, r: Request, replies: seq<Reply>, open: bool) returns (trace: seq<Event>)
    requires Invariant(cfg, l) && l.open && Answers(cfg, l.state, r, replies)
    requires replies == [] ==> r.name in OPEN || l.state.authed || !open
    ensures trace == l.trace + [Got(r)] + Says(replies)
    ensures AllEntitled(cfg, trace) && AllGated(trace, open)
    ensures LoggedIn(trace) <==> LoggedIn(l.trace) || LoginReply(0) in replies
    ensures LastEntry(trace)
         == if |replies| == 2 then Some(Entry(replies[1].token, replies[1].oid)) else LastEntry(l.trace)
  {
    hide Allowed, Entitled, Gated, Sound;
    var heard := l.trace + [Got(r)];
    HeardEntitled(cfg, l.trace, r);
    LastEntryStep(l.trace, Got(r));
    SaysOneByOne(replies, heard);
    trace := heard + Says(replies);
    if replies == [] {
      GatedHear(l.trace, r, open);
    } else {
      AllowedPassesGate(cfg, l, r, replies[0]);
      GatedHear(l.trace, r, true);
      GatedAppend(heard, Says(replies), open);
      AnswerEntitled(cfg, l, r, replies[0]);
      SaidNext(cfg, heard, replies[0]);
      if |replies| == 2 {
        CompleteEntitled(cfg, heard, replies[0], replies[1]);
        SaidNext(cfg, heard + [Said(replies[0])], replies[1]);
      }
    }
  }

  lemma SaidNext(cfg: Config, heard: seq<Event>, x: Reply)
    requires AllEntitled(cfg, heard) && Entitled(cfg, heard + [Said(x)], |heard|)
    ensures AllEntitled(cfg, heard + [Said(x)])
    ensures LoggedIn(heard + [Said(x)]) <==> LoggedIn(heard) || x == LoginReply(0)
    ensures LastEntry(heard + [Said(x)])
         == if x.EnterCompleteReply? then Some(Entry(x.token, x.oid)) else LastEntry(heard)
  {
    EntitledAppend(cfg, heard, Said(x));
    LastEntryStep(heard, Said(x));
  }

  lemma KeptByTurn(cfg: Config, l: Life, r: Request, p: Plan)
    requires Invariant(cfg, l) && l.open && Acceptable(cfg, l.state, r, p)
    ensures var q := Carry(p);
            Invariant(cfg, Life(q.state, l.trace + [Got(r)] + Says(q.replies), l.joins + q.joins, q.ok))
  {
    hide Allowed, AllEntitled, AllGated, LoggedIn, LastEntry, Says, PlayerOID;
    var q := Carry(p);
    var trace := TurnTrace(cfg, l, r, q.replies, q.ok);
  }

  lemma HeardEntitled(cfg: Config, trace: seq<Event>, r: Request)
    requires AllEntitled(cfg, trace)
    ensures AllEntitled(cfg, trace + [Got(r)])
    ensures LoggedIn(trace + [Got(r)]) <==> LoggedIn(trace)
  {
    EntitledAppend(cfg, trace, Got(r));
  }

  lemma CompleteEntitled(cfg: Config, heard: seq<Event>, first: Reply, second: Reply)
    requires first.EnterReply? && first.result == 0 && second.EnterCompleteReply? && second.token != 0
    ensures Entitled(cfg, heard + [Said(first)] + [Said(second)], |heard| + 1)
  {
  }

  lemma {:induction false} EveryLife(cfg: Config, link: nat, inputs: seq<Input>)
    ensures Invariant(cfg, Live(cfg, Born(link), inputs))
  {
    if inputs != [] {
      var l := Live(cfg, Born(link), inputs[..|inputs| - 1]);
      EveryLife(cfg, link, inputs[..|inputs| - 1]);
      var input := inputs[|inputs| - 1];
      if l.open {
        match input.received
        case Arrived(Decoded(name, values, _)) =>
          var r := Request(name, values);
          PlansAcceptable(cfg, l.state, r, input.env);
          KeptByTurn(cfg, l, r, PlanFor(cfg, l.state, r, input.env));
        case Arrived(UnknownOpcode(_)) =>
        case _ =>
          GatedAppend(l.trace, [], false);
          assert l.trace + [] == l.trace;
      }
    }
  }

  /**
   * Nothing but a version check or a login is acted on before a successful login: any other message then ends the
   * connection, unanswered, and is the last thing it hears.
   */
  lemma LoginGate(cfg: Config, link: nat, inputs: seq<Input>, i: nat)
    requires i < |Live(cfg, Born(link), inputs).trace|
    ensures var l := Live(cfg, Born(link), inputs);
            l.trace[i].Got? && l.trace[i].request.name !in {"C2S_VersionCheck", "C2S_SessionAuthLogin"}
            && !LoggedIn(l.trace[..i]) ==>
              i + 1 == |l.trace| && !l.open
  {
    EveryLife(cfg, link, inputs);
    var l := Live(cfg, Born(link), inputs);
    assert Gated(l.trace, l.open, i);
  }

  /** A version check is answered exactly when it echoes what it must, on a connection that still takes a send. */
  lemma VersionAnswer(cfg: Config, s: State, v: Values, env: Env)
    ensures var p := Turn(cfg, s, Request("C2S_VersionCheck", v), env);
            && (p.ok <==> Echoes(cfg, v) && s.link > 0)
            && (VersionReply in p.replies <==> p.ok)
            && p.state == if p.ok then s.(link := s.link - 1) else s
  {
    hide AsInt64, ToInt32;
  }

  /** A lobby request is acknowledged on a connection that still takes a send, if what it asks of the store comes about. */
  lemma LobbyAnswer(cfg: Config, s: State, r: Request, env: Env)
    requires s.authed && r.name !in {"C2S_VersionCheck", "C2S_SessionAuthLogin", "C2S_EnterWorld", "C2S_MapEnter",
                                     "C2S_MapEnterComplete"}
    ensures var p := Turn(cfg, s, r, env);
            var known := r.name in {"C2S_WaitingUserCount", "C2S_MapEnterPreComplete", "C2S_PlayerLoadFirstCall",
                                    "C2S_Logout", "C2S_PlayerList", "C2S_CreatePlayer"};
            var done := (r.name == "C2S_PlayerList" ==> env.listing.Some?) && (r.name == "C2S_CreatePlayer" ==> env.created);
            && (p.ok <==> known ==> done && s.link > 0)
            && p.replies == (if known && done && s.link > 0 then [OtherReply(r.name)] else [])
            && p.state == s.(link := s.link - |p.replies|) && p.joins == []
  {
  }

  /** What else a connection receives: an unknown opcode changes nothing, anything unreadable ends it, unanswered. */
  lemma OtherInputs(cfg: Config, l: Life, env: Env)
    requires l.open
    ensures forall tail :: Hear(cfg, l, Input(Arrived(UnknownOpcode(tail)), env)) == l
    ensures forall body :: Hear(cfg, l, Input(Arrived(TooShort(body)), env)) == l.(open := false)
    ensures forall n :: Hear(cfg, l, Input(BadLength(n), env)) == l.(open := false)
    ensures Hear(cfg, l, Input(Eof, env)) == l.(open := false)
  {
  }

  /** A map entry whose token was not decoded is refused, whatever the session's state. */
  lemma UndecodedTokenRefused(cfg: Config, link: nat, inputs: seq<Input>, r: Request, env: Env)
    requires r.name == "C2S_MapEnter" && AsInt64(r.values, "m_warpToken") == 0
    ensures var s := Live(cfg, Born(link), inputs).state;
            Turn(cfg, s, r, env) == Plan(s, [], [], false)
  {
    EveryLife(cfg, link, inputs);
  }
}
