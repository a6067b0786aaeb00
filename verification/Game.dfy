/** The session object and its handlers, against what each message is to do. */
module Game {
  import opened Wire
  import opened CodecSpec
  import opened Store
  import opened GameSpec
  import opened Logins
  import W = World

  class Session {
    const cfg: Config
    var accountID: Int64
    var authed: bool
    var character: Option<Character>
    var playerOID: Int64
    var warpToken: Int64
    var inWorld: bool
    var link: nat
    var said: seq<Reply>
    var joins: seq<W.Command>

    ghost function State(): State
      reads this
    {
      GameSpec.State(accountID, authed, character, playerOID, warpToken, inWorld, link)
    }

    /** A handler went as planned: the session is in the planned state, and the replies went out until one failed. */
    twostate predicate Did(p: Plan, ok: bool)
      reads this
    {
      && State() == Carry(p).state
      && said == old(said) + Carry(p).replies
      && joins == old(joins) + p.joins
      && ok == Carry(p).ok
    }

    constructor (cfg: Config, link: nat)
      ensures this.cfg == cfg && State() == Born(link).state && said == [] && joins == []
    {
      this.cfg := cfg;
      accountID, authed, character, playerOID, warpToken, inWorld := 0, false, None, 0, 0, false;
      this.link := link;
      said, joins := [], [];
    }

    method Send(r: Reply) returns (ok: bool)
      modifies this`link, this`said
      ensures Did(Answer(old(State()), r), ok)
    {
      if link == 0 {
        return false;
      }
      link := link - 1;
      said := said + [r];
      return true;
    }

    /** The second reply is sent only when the first went out. */
    method SendBoth(first: Reply, second: Reply) returns (ok: bool)
      modifies this`link, this`said
      ensures Did(Plan(old(State()), [first, second], [], true), ok)
    {
      ok := Send(first);
      if ok {
        ok := Send(second);
      }
    }

    method HandleVersionCheck(v: Values) returns (ok: bool)
      modifies this`link, this`said
      ensures Did(PlanVersionCheck(cfg, old(State()), v), ok)
    {
      var socketUID := AsInt64(v, "m_socketUID");
      var connectionKey := AsInt64(v, "m_connectionKey");
      if socketUID != cfg.socketUID || connectionKey != cfg.connectionKey {
        return false;
      }
      var clientVer := AsInt64(v, "m_protocolVer");
      if cfg.protocolVer != 0 && ToInt32(clientVer) != cfg.protocolVer {
        return false;
      }
      ok := Send(VersionReply);
    }

    method HandleLogin(v: Values, env: Env) returns (ok: bool)
      modifies this
      ensures Did(PlanLogin(cfg, old(State()), v, env), ok)
    {
      hide ToInt32;
      var accountCode := AsText(v, "m_accountCode");
      var sessionKey := ToInt32(AsInt64(v, "m_sessionKey"));
      var validated := Validate(env.sessions, sessionKey, accountCode);
      if validated.None? {
        ok := Send(LoginReply(AUTH_FAILED));
        return;
      }
      var account := validated.value;
      if account.worldID != cfg.worldID {
        ok := Send(LoginReply(AUTH_FAILED));
        return;
      }
      if !env.upserted {
        ok := Send(LoginReply(AUTH_FAILED));
        return;
      }
      accountID := account.accountID;
      authed := true;
      ok := Send(LoginReply(0));
    }

    method HandleEnterWorld(v: Values, env: Env) returns (ok: bool)
      modifies this
      ensures Did(PlanEnterWorld(cfg, old(State()), v, env), ok)
    {
      hide PlayerOID, InSlot, AsUint64, ToInt32;
      var slot := AsUint64(v, "m_playerSlotIndex");
      if env.listing.None? {
        return false;
      }
      var chosen := FindSlot(env.listing.value, slot);
      if chosen.None? {
        ok := Send(EnterReply(NO_CHARACTER, ToInt32(slot)));
        return;
      }
      var c := chosen.value;
      if env.token.None? {
        return false;
      }
      character := Some(c);
      playerOID := PlayerOID(cfg, c);
      warpToken := WarpToken(env.token.value);
      inWorld := true;
      joins := joins + [W.Join(W.Player(playerOID, c.id, accountID, c.name, c.mapID, c.pose))];
      ok := SendBoth(EnterReply(0, c.slotIndex), EnterCompleteReply(warpToken, playerOID));
    }

    static method FindSlot(listed: seq<Character>, slot: UInt64) returns (chosen: Option<Character>)
      ensures chosen == InSlot(listed, slot)
      ensures chosen.Some? ==> chosen.value in listed && HasSlot(chosen.value, slot)
      ensures chosen.None? ==> forall c <- listed :: !HasSlot(c, slot)
    {
      InSlotMeans(listed, slot);
      assert listed[0..] == listed;
      for i := 0 to |listed|
        invariant InSlot(listed[i..], slot) == InSlot(listed, slot)
      {
        assert listed[i..][1..] == listed[i + 1..];
        if HasSlot(listed[i], slot) {
          return Some(listed[i]);
        }
      }
      return None;
    }

    method HandleMapEnter(v: Values) returns (ok: bool)
      modifies this`link, this`said
      ensures Did(PlanMapEnter(old(State()), v), ok)
    {
      if character.None? {
        return false;
      }
      var token := AsInt64(v, "m_warpToken");
      if token != warpToken {
        return false;
      }
      ok := Send(MapEnterReply(character.value.mapID));
    }

    method HandleMapEnterComplete() returns (ok: bool)
      modifies this`link, this`said
      ensures Did(PlanMapEnterComplete(old(State())), ok)
    {
      if character.None? {
        return false;
      }
      ok := Send(MapEnterCompleteReply(playerOID));
    }

    method HandleLobby(name: string, env: Env) returns (ok: bool)
      modifies this`link, this`said
      ensures Did(PlanLobby(old(State()), name, env), ok)
    {
      match name {
        case "C2S_WaitingUserCount" => ok := Send(OtherReply(name));
        case "C2S_MapEnterPreComplete" => ok := Send(OtherReply(name));
        case "C2S_PlayerLoadFirstCall" => ok := Send(OtherReply(name));
        case "C2S_Logout" => ok := Send(OtherReply(name));
        case "C2S_PlayerList" =>
          if env.listing.None? {
            return false;
          }
          ok := Send(OtherReply(name));
        case "C2S_CreatePlayer" =>
          if !env.created {
            return false;
          }
          ok := Send(OtherReply(name));
        case _ => ok := true;
      }
    }

    method Dispatch(r: Request, env: Env) returns (ok: bool)
      modifies this
      ensures Did(PlanFor(cfg, old(State()), r, env), ok)
    {
      if r.name == "C2S_VersionCheck" {
        ok := HandleVersionCheck(r.values);
        return;
      }
      if r.name == "C2S_SessionAuthLogin" {
        ok := HandleLogin(r.values, env);
        return;
      }
      if !authed {
        return false;
      }
      if r.name == "C2S_EnterWorld" {
        ok := HandleEnterWorld(r.values, env);
      } else if r.name == "C2S_MapEnter" {
        ok := HandleMapEnter(r.values);
      } else if r.name == "C2S_MapEnterComplete" {
        ok := HandleMapEnterComplete();
      } else {
        ok := HandleLobby(r.name, env);
      }
    }
  }

  /** Replies among everything heard and said. */
  function Replies(trace: seq<Event>): seq<Reply> {
    if trace == [] then []
    else
      var front := Replies(trace[..|trace| - 1]);
      var last := trace[|trace| - 1];
      if last.Said? then front + [last.reply] else front
  }

  lemma {:induction false} RepliesAppend(trace: seq<Event>, replies: seq<Reply>)
    ensures Replies(trace + Says(replies)) == Replies(trace) + replies
  {
    if replies == [] {
      assert trace + Says(replies) == trace;
    } else {
      var front, last := replies[..|replies| - 1], replies[|replies| - 1];
      RepliesAppend(trace, front);
      assert (trace + Says(replies))[..|trace| + |front|] == trace + Says(front);
      assert replies == front + [last];
    }
  }

  lemma TurnReplies(cfg: Config, l: Life, r: Request, env: Env)
    ensures var p := Turn(cfg, l.state, r, env);
            Replies(l.trace + [Got(r)] + Says(p.replies)) == Replies(l.trace) + p.replies
  {
    assert (l.trace + [Got(r)])[..|l.trace|] == l.trace;
    RepliesAppend(l.trace + [Got(r)], Turn(cfg, l.state, r, env).replies);
  }

  /** Entered characters are all joins, and the connection's last command takes out the one joined last. */
  ghost predicate LeavesLast(commands: seq<W.Command>) {
    commands != [] ==>
      && |commands| >= 2
      && (forall c <- commands[..|commands| - 1] :: c.Join?)
      && commands[|commands| - 1] == W.Leave(commands[|commands| - 2].player.characterID)
  }

  lemma CommandsLeaveLast(cfg: Config, l: Life)
    requires Invariant(cfg, l)
    ensures LeavesLast(GameSpec.Commands(l))
  {
    if l.state.character.Some? {
      assert GameSpec.Commands(l)[..|l.joins|] == l.joins;
      assert l.joins[|l.joins| - 1] in l.joins;
    }
  }

  /**
   * Serve: receive and dispatch until something fails, then take the character out of the world. Every reply sent had its
   * reason, nothing was acted on before a login, the session is authenticated as the last accepted login's account or not
   * at all, and what is left for the world to do ends with a leave.
   */
  method Serve(s: Session, inputs: seq<Input>) returns (commands: seq<W.Command>, ghost trace: seq<Event>)
    requires s.State() == Born(s.link).state && s.said == [] && s.joins == []
    modifies s
    ensures var l := Live(s.cfg, Born(old(s.link)), inputs);
            s.State() == l.state && trace == l.trace && commands == GameSpec.Commands(l) && AllGated(trace, l.open)
    ensures s.said == Replies(trace) && AllEntitled(s.cfg, trace)
    ensures Sound(s.cfg, s.State()) && LeavesLast(commands)
    ensures s.authed <==> exists i :: AcceptedAt(s.cfg, old(s.link), inputs, i)
    ensures forall i: nat :: LastAccepted(s.cfg, old(s.link), inputs, |inputs|, i) ==>
              s.accountID == Vouched(s.cfg, inputs[i])
  {
    hide Entitled, Sound, Gated, AcceptedAt, LastAccepted;
    ghost var l := Born(s.link);
    assert Live(s.cfg, Born(s.link), inputs[..0]) == l;
    var i := 0;
    var open := true;
    while open && i < |inputs|
      invariant 0 <= i <= |inputs|
      invariant l == Live(s.cfg, Born(old(s.link)), inputs[..i])
      invariant s.State() == l.state && s.said == Replies(l.trace) && s.joins == l.joins && open == l.open
    {
      assert inputs[..i + 1][..i] == inputs[..i];
      ghost var l' := Hear(s.cfg, l, inputs[i]);
      match inputs[i].received {
        case Arrived(Decoded(name, values, tail)) =>
          var r := Request(name, values);
          TurnReplies(s.cfg, l, r, inputs[i].env);
          open := s.Dispatch(r, inputs[i].env);
        case Arrived(UnknownOpcode(tail)) =>
        case _ =>
          open := false;
      }
      l := l';
      i := i + 1;
    }
    ClosedStays(s.cfg, Born(old(s.link)), inputs, i);
    commands := s.joins;
    if s.inWorld && s.character.Some? {
      commands := commands + [W.Leave(s.character.value.id)];
    }
    trace := l.trace;
    EveryLife(s.cfg, old(s.link), inputs);
    AuthenticatedIff(s.cfg, old(s.link), inputs);
    CommandsLeaveLast(s.cfg, l);
  }

  lemma {:induction false} ClosedStays(cfg: Config, l: Life, inputs: seq<Input>, i: nat)
    requires i <= |inputs|
    requires i == |inputs| || !Live(cfg, l, inputs[..i]).open
    ensures Live(cfg, l, inputs) == Live(cfg, l, inputs[..i])
    decreases |inputs|
  {
    if i == |inputs| {
      assert inputs[..i] == inputs;
    } else {
      var front := inputs[..|inputs| - 1];
      assert front[..i] == inputs[..i];
      ClosedStays(cfg, l, front, i);
    }
  }
}
