/** Who a session is authenticated as, told by the logins it heard. */
module Logins {
  import opened CodecSpec
  import opened Store
  import opened GameSpec

  predicate Names(input: Input, name: string) {
    input.received.Arrived? && input.received.decoded.Decoded? && input.received.decoded.name == name
  }

  predicate IsLogin(input: Input) {
    Names(input, "C2S_SessionAuthLogin")
  }

  /** The session key a login presents: the low 32 bits of what was decoded. */
  function Key(input: Input): Int32
    requires IsLogin(input)
  {
    ToInt32(AsInt64(input.received.decoded.values, "m_sessionKey"))
  }

  /** A login with the key of a live session of the named user, for this server's world, whose account was stored. */
  predicate Accepts(cfg: Config, input: Input) {
    && IsLogin(input)
    && Key(input) in input.env.sessions
    && input.env.sessions[Key(input)].userCode == AsText(input.received.decoded.values, "m_accountCode")
    && input.env.sessions[Key(input)].worldID == cfg.worldID
    && input.env.upserted
  }

  /** The account of the session whose key was presented. */
  function Vouched(cfg: Config, input: Input): Int64
    requires Accepts(cfg, input)
  {
    input.env.sessions[Key(input)].accountID
  }

  /** The state before input i was heard. */
  function Before(cfg: Config, link: nat, inputs: seq<Input>, i: nat): Life
    requires i <= |inputs|
  {
    Live(cfg, Born(link), inputs[..i])
  }

  /** Input i was heard, and is a login to accept. */
  predicate AcceptedAt(cfg: Config, link: nat, inputs: seq<Input>, i: nat) {
    i < |inputs| && Before(cfg, link, inputs, i).open && Accepts(cfg, inputs[i])
  }

  /** The last login accepted among the first n inputs. */
  ghost predicate LastAccepted(cfg: Config, link: nat, inputs: seq<Input>, n: nat, i: nat) {
    && i < n <= |inputs| && AcceptedAt(cfg, link, inputs, i)
    && forall j :: i < j < n ==> !AcceptedAt(cfg, link, inputs, j)
  }

  // ---------------------------------------------------------------- the account

  /** What an input does to the session's account. */
  lemma LoginStep(cfg: Config, l: Life, input: Input)
    ensures var s, s' := l.state, Hear(cfg, l, input).state;
            if l.open && Accepts(cfg, input) then s'.authed && s'.accountID == Vouched(cfg, input)
            else s'.authed == s.authed && s'.accountID == s.accountID
  {
    hide PlanEnterWorld, PlanVersionCheck, PlanMapEnter, PlanMapEnterComplete, PlanLobby, Says, AsInt64, AsText, ToInt32;
    if l.open && input.received.Arrived? && input.received.decoded.Decoded? && !IsLogin(input) {
      OthersKeepAccount(cfg, l.state, Request(input.received.decoded.name, input.received.decoded.values), input.env);
    }
  }

  lemma OthersKeepAccount(cfg: Config, s: State, r: Request, env: Env)
    requires r.name != "C2S_SessionAuthLogin"
    ensures var s' := PlanFor(cfg, s, r, env).state; s'.authed == s.authed && s'.accountID == s.accountID
  {
    hide InSlot, PlayerOID, AsInt64, AsUint64, ToInt32;
  }

  /** One more input: it is the last accepted login, or that is the last of those before. */
  lemma LastAcceptedNext(cfg: Config, link: nat, inputs: seq<Input>, n: nat)
    requires n < |inputs|
    ensures forall i: nat ::
              LastAccepted(cfg, link, inputs, n + 1, i)
              <==> if AcceptedAt(cfg, link, inputs, n) then i == n else LastAccepted(cfg, link, inputs, n, i)
  {
    hide AcceptedAt;
    forall i: nat
      ensures LastAccepted(cfg, link, inputs, n + 1, i)
         <==> if AcceptedAt(cfg, link, inputs, n) then i == n else LastAccepted(cfg, link, inputs, n, i)
    {
    }
  }

  /** Where some login was accepted one was the last. */
  lemma {:induction false} SomeLast(cfg: Config, link: nat, inputs: seq<Input>, n: nat, i: nat)
    requires i < n <= |inputs| && AcceptedAt(cfg, link, inputs, i)
    ensures exists b :: LastAccepted(cfg, link, inputs, n, b)
  {
    hide AcceptedAt;
    LastAcceptedNext(cfg, link, inputs, n - 1);
    if AcceptedAt(cfg, link, inputs, n - 1) {
      assert LastAccepted(cfg, link, inputs, n, n - 1);
    } else {
      SomeLast(cfg, link, inputs, n - 1, i);
      var b :| LastAccepted(cfg, link, inputs, n - 1, b);
      assert LastAccepted(cfg, link, inputs, n, b);
    }
  }

  /** Authenticated only after an accepted login, and then as the account of the last. */
  ghost predicate ByLast(cfg: Config, link: nat, inputs: seq<Input>, n: nat, s: State)
    requires n <= |inputs|
  {
    && (s.authed ==> exists i :: LastAccepted(cfg, link, inputs, n, i))
    && forall i: nat :: LastAccepted(cfg, link, inputs, n, i) ==> s.authed && s.accountID == Vouched(cfg, inputs[i])
  }

  lemma ByLastNext(cfg: Config, link: nat, inputs: seq<Input>, n: nat)
    requires n < |inputs| && ByLast(cfg, link, inputs, n, Before(cfg, link, inputs, n).state)
    ensures ByLast(cfg, link, inputs, n + 1, Hear(cfg, Before(cfg, link, inputs, n), inputs[n]).state)
  {
    hide Before, Hear, Accepts, Vouched;
    LoginStep(cfg, Before(cfg, link, inputs, n), inputs[n]);
    LastAcceptedNext(cfg, link, inputs, n);
    assert AcceptedAt(cfg, link, inputs, n) ==> LastAccepted(cfg, link, inputs, n + 1, n);
  }

  lemma {:induction false} AccountOfLast(cfg: Config, link: nat, inputs: seq<Input>, n: nat)
    requires n <= |inputs|
    ensures ByLast(cfg, link, inputs, n, Before(cfg, link, inputs, n).state)
  {
    if n > 0 {
      AccountOfLast(cfg, link, inputs, n - 1);
      ByLastNext(cfg, link, inputs, n - 1);
      hide ByLast, Hear;
      assert inputs[..n][..n - 1] == inputs[..n - 1];
    }
  }

  /**
   * A session is authenticated if and only if it heard a login that presented the key and user of a live session of the
   * region service, for this world, whose account was stored; and it is then the account of the last such login.
   */
  lemma AuthenticatedIff(cfg: Config, link: nat, inputs: seq<Input>)
    ensures var s := Live(cfg, Born(link), inputs).state;
            && (s.authed <==> exists i :: AcceptedAt(cfg, link, inputs, i))
            && (s.authed <==> exists i :: LastAccepted(cfg, link, inputs, |inputs|, i))
            && forall i: nat :: LastAccepted(cfg, link, inputs, |inputs|, i) ==> s.accountID == Vouched(cfg, inputs[i])
  {
    hide Live, Accepts, Vouched;
    AccountOfLast(cfg, link, inputs, |inputs|);
    assert inputs[..|inputs|] == inputs;
    if i :| AcceptedAt(cfg, link, inputs, i) {
      SomeLast(cfg, link, inputs, |inputs|, i);
    }
  }

  // ---------------------------------------------------------------- the answers

  /** Input i was heard, is a login answered with r over a connection that took the answer, and k is its place. */
  predicate AnsweredAt(cfg: Config, link: nat, inputs: seq<Input>, i: nat, k: nat, r: nat) {
    && i < |inputs| && IsLogin(inputs[i])
    && AnswerTo(cfg, Before(cfg, link, inputs, i), inputs[i], k, r)
  }

  predicate AnswerTo(cfg: Config, l: Life, input: Input, k: nat, r: nat) {
    && l.open && l.state.link > 0
    && k == |l.trace| + 1
    && r == if Accepts(cfg, input) then 0 else 1
  }

  lemma OthersAnswer(cfg: Config, s: State, r: Request, env: Env)
    requires r.name != "C2S_SessionAuthLogin"
    ensures forall x <- PlanFor(cfg, s, r, env).replies :: !x.LoginReply?
  {
    hide InSlot, PlayerOID, AsInt64, AsUint64, ToInt32;
  }

  /** The answers to one message that are answers to a login. */
  lemma TurnAnswers(cfg: Config, s: State, input: Input, m: nat, r: nat)
    requires input.received.Arrived? && input.received.decoded.Decoded?
    ensures var q := Request(input.received.decoded.name, input.received.decoded.values);
            var replies := Turn(cfg, s, q, input.env).replies;
            m < |replies| && replies[m] == LoginReply(r)
            <==> IsLogin(input) && s.link > 0 && m == 0 && r == if Accepts(cfg, input) then 0 else 1
  {
    hide PlanEnterWorld, PlanVersionCheck, PlanMapEnter, PlanMapEnterComplete, PlanLobby, AsInt64, AsText, ToInt32;
    if !IsLogin(input) {
      OthersAnswer(cfg, s, Request(input.received.decoded.name, input.received.decoded.values), input.env);
    }
  }

  /** What an input adds to the trace, as far as answers to logins go. */
  lemma AnswerStep(cfg: Config, l: Life, input: Input, k: nat, r: nat)
    ensures var t, t' := l.trace, Hear(cfg, l, input).trace;
            && t <= t'
            && (|t| <= k < |t'| && t'[k] == Said(LoginReply(r)) <==> IsLogin(input) && AnswerTo(cfg, l, input, k, r))
  {
    hide PlanFor, Carry, Accepts;
    if l.open && input.received.Arrived? && input.received.decoded.Decoded? && k > |l.trace| {
      TurnAnswers(cfg, l.state, input, k - |l.trace| - 1, r);
    }
  }

  /**
   * The server says a login succeeded exactly where it answers one it accepted, and that it failed exactly where it
   * answers one it did not.
   */
  lemma {:induction false} LoginAnswers(cfg: Config, link: nat, inputs: seq<Input>, k: nat, r: nat)
    ensures var t := Live(cfg, Born(link), inputs).trace;
            k < |t| && t[k] == Said(LoginReply(r)) <==> exists i :: AnsweredAt(cfg, link, inputs, i, k, r)
  {
    if inputs != [] {
      var n := |inputs| - 1;
      LoginAnswers(cfg, link, inputs[..n], k, r);
      hide Hear, AnswerTo, IsLogin, AnsweredAt;
      AnsweredNext(cfg, link, inputs, k, r);
      AnswerStep(cfg, Before(cfg, link, inputs, n), inputs[n], k, r);
      assert AnsweredAt(cfg, link, inputs, n, k, r)
        <==> IsLogin(inputs[n]) && AnswerTo(cfg, Before(cfg, link, inputs, n), inputs[n], k, r);
    }
  }

  lemma AnsweredNext(cfg: Config, link: nat, inputs: seq<Input>, k: nat, r: nat)
    requires inputs != []
    ensures var n := |inputs| - 1;
            && forall i: nat :: AnsweredAt(cfg, link, inputs, i, k, r)
                 <==> if i == n then IsLogin(inputs[n]) && AnswerTo(cfg, Before(cfg, link, inputs, n), inputs[n], k, r)
                      else AnsweredAt(cfg, link, inputs[..n], i, k, r)
  {
    hide Live, AnswerTo, IsLogin;
    var n := |inputs| - 1;
    assert forall i: nat :: i <= n ==> inputs[..n][..i] == inputs[..i];
  }

  /** A login was accepted and its success said before place k. */
  ghost predicate AcceptedEarlier(cfg: Config, link: nat, inputs: seq<Input>, k: nat) {
    exists i: nat :: AcceptedAt(cfg, link, inputs, i) && |Before(cfg, link, inputs, i).trace| + 1 < k
  }

  /**
   * In every run every reply has its reason. Among them: S2C_VersionCheck answers a request that echoed both handshake
   * identifiers and any required version; S2C_MapEnter one that echoed, non-zero, the token of the most recent
   * S2C_EnterWorldComplete; S2C_MapEnterComplete carries the object id that one gave. All but the answers to version
   * checks and logins come after a login that was accepted. Being in the world, having a character, being authenticated
   * with a token and holding the character's object id go together.
   */
  lemma TraceSafety(cfg: Config, link: nat, inputs: seq<Input>, k: nat)
    requires k < |Live(cfg, Born(link), inputs).trace|
    ensures var l := Live(cfg, Born(link), inputs);
            && Entitled(cfg, l.trace, k)
            && (l.trace[k].Said? && !l.trace[k].reply.VersionReply? && !l.trace[k].reply.LoginReply? ==>
                  AcceptedEarlier(cfg, link, inputs, k))
            && Sound(cfg, l.state)
  {
    EveryLife(cfg, link, inputs);
    var l := Live(cfg, Born(link), inputs);
    var e := l.trace[k];
    assert Entitled(cfg, l.trace, k);
    if e.Said? && !e.reply.VersionReply? && !e.reply.LoginReply? {
      if e.reply.EnterCompleteReply? {
        assert Entitled(cfg, l.trace, k - 1);
        EarlierLogin(cfg, link, inputs, k - 1);
      } else {
        EarlierLogin(cfg, link, inputs, k);
      }
    }
  }

  lemma EarlierLogin(cfg: Config, link: nat, inputs: seq<Input>, k: nat)
    requires k <= |Live(cfg, Born(link), inputs).trace| && LoggedIn(Live(cfg, Born(link), inputs).trace[..k])
    ensures AcceptedEarlier(cfg, link, inputs, k)
  {
    hide Live, Accepts;
    var t := Live(cfg, Born(link), inputs).trace;
    var m :| 0 <= m < k && t[..k][m] == Said(LoginReply(0));
    LoginAnswers(cfg, link, inputs, m, 0);
    var i :| AnsweredAt(cfg, link, inputs, i, m, 0);
    assert AcceptedAt(cfg, link, inputs, i);
  }
}
