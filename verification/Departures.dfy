/** What a connection leaves in the world it shares with all the others. */
module Departures {
  import opened Wire
  import opened CodecSpec
  import opened Store
  import opened SessionSpec
  import opened GameSpec
  import W = World

  ghost predicate Joined(l: Life, id: int) {
    exists j <- l.joins :: W.Enters(j, id)
  }

  ghost predicate SameCharacter(joins: seq<W.Command>) {
    forall i, j :: 0 <= i < j < |joins| && joins[i].Join? && joins[j].Join? ==>
      joins[i].player.characterID == joins[j].player.characterID
  }

  /** None of the characters the connection put into the world is there. */
  ghost predicate Cleared(l: Life, players: W.Players) {
    forall j <- l.joins :: j.Join? ==> j.player.characterID !in players
  }

  /** Every command the connection issued was drained, among whatever the other sessions sent. */
  ghost predicate AllArrived(l: Life, events: seq<W.Event>, session: nat) {
    W.Of(session, W.Run(events).drained) == Commands(l)
  }

  /** No other session's drained command joins or removes a character of this connection. */
  ghost predicate Untouched(l: Life, events: seq<W.Event>, session: nat) {
    forall x <- W.Run(events).drained :: x.session != session ==>
      forall id :: Joined(l, id) ==> !W.Decides(x.command, id)
  }

  lemma {:induction false} SentCommands(session: nat, sent: seq<W.Sent>, c: W.Command)
    requires c in W.Of(session, sent)
    ensures c in W.Commands(sent)
  {
    var front, last := sent[..|sent| - 1], sent[|sent| - 1];
    if c != last.command {
      SentCommands(session, front, c);
      assert sent == front + [last];
      W.CommandsAppend(front, last);
    } else {
      assert W.Commands(sent)[|sent| - 1] == c;
    }
  }

  /**
   * Whatever other connections do: a character this one put into the world is gone, once its commands have been run, if
   * and only if the last command run that joins or removes it, no matter whose, is a leave.
   */
  lemma GoneIff(cfg: Config, link: nat, inputs: seq<Input>, events: seq<W.Event>, session: nat, id: int)
    requires var l := Live(cfg, Born(link), inputs); Joined(l, id) && AllArrived(l, events, session)
    ensures id !in W.Run(events).players <==> exists i: nat :: W.LastLeave(W.Commands(W.Run(events).drained), id, i)
  {
    var l := Live(cfg, Born(link), inputs);
    var j :| j in l.joins && W.Enters(j, id);
    SentCommands(session, W.Run(events).drained, j);
    W.AbsentIff(events, id);
  }

  // ---------------------------------------------------------------- alone with its characters

  lemma {:induction false} JoinsVerdict(joins: seq<W.Command>, id: int)
    requires forall j <- joins :: j.Join?
    ensures W.Verdict(joins, id) == if exists j <- joins :: W.Enters(j, id) then W.Entered else W.Undecided
  {
    if joins != [] {
      var front, last := joins[..|joins| - 1], joins[|joins| - 1];
      JoinsVerdict(front, id);
      assert joins == front + [last];
      assert W.Enters(last, id) ==> last in joins;
    }
  }

  /** Of the characters a connection entered with, its own commands take out the last. */
  lemma OwnVerdict(cfg: Config, l: Life, id: int)
    requires Invariant(cfg, l) && Joined(l, id)
    ensures l.state.character.Some?
    ensures W.Verdict(Commands(l), id) == if id == l.state.character.value.id then W.Left else W.Entered
  {
    JoinsVerdict(l.joins, id);
    var leave := W.Leave(l.state.character.value.id);
    assert Commands(l) == l.joins + [leave];
    assert (l.joins + [leave])[..|l.joins|] == l.joins;
  }

  /**
   * A connection whose characters no other connection joins or removes takes out only the one it entered with last: once
   * its commands have been run, none of its characters is left if and only if they were all the same one.
   */
  lemma ClearedIffOneCharacter(cfg: Config, link: nat, inputs: seq<Input>, events: seq<W.Event>, session: nat)
    requires var l := Live(cfg, Born(link), inputs);
             AllArrived(l, events, session) && Untouched(l, events, session)
    ensures var l := Live(cfg, Born(link), inputs);
            Cleared(l, W.Run(events).players) <==> SameCharacter(l.joins)
  {
    EveryLife(cfg, link, inputs);
    var l := Live(cfg, Born(link), inputs);
    var n := |l.joins|;
    W.LogReplay(events);
    forall i | 0 <= i < n
      ensures l.joins[i].player.characterID in W.Run(events).players
              <==> l.joins[i].player.characterID != l.joins[n - 1].player.characterID
    {
      LeftIn(cfg, l, events, session, i);
    }
  }

  lemma LeftIn(cfg: Config, l: Life, events: seq<W.Event>, session: nat, i: nat)
    requires Invariant(cfg, l) && i < |l.joins|
    requires AllArrived(l, events, session) && Untouched(l, events, session)
    requires W.Replayed(W.Run(events))
    ensures var id := l.joins[i].player.characterID;
            id in W.Run(events).players <==> id != l.joins[|l.joins| - 1].player.characterID
  {
    hide W.Verdict, W.Of, W.Run, W.ApplyAll, W.Commands, Commands;
    var id := l.joins[i].player.characterID;
    assert l.joins[i] in l.joins && W.Enters(l.joins[i], id);
    OwnVerdict(cfg, l, id);
    W.VerdictOf(session, W.Run(events).drained, id);
    W.VerdictPresence(W.Commands(W.Run(events).drained), id);
  }

  // ---------------------------------------------------------------- a connection that leaves a character behind

  /** One session by itself: every command is issued, enqueued and run before the next. */
  function Solo(session: nat, cs: seq<W.Command>): seq<W.Event> {
    if cs == [] then []
    else
      Solo(session, cs[..|cs| - 1]) + [W.Issue(session, cs[|cs| - 1]), W.Enqueue(session), W.Drain]
  }

  lemma RunOneMore(events: seq<W.Event>, e: W.Event)
    ensures W.Run(events + [e]) == W.Step(W.Run(events), e)
    ensures W.Legal(events + [e]) <==> W.Legal(events) && W.Enabled(W.Run(events), e)
  {
    assert (events + [e])[..|events|] == events;
  }

  lemma RunThreeMore(events: seq<W.Event>, a: W.Event, b: W.Event, c: W.Event)
    requires W.Legal(events)
    requires var w := W.Run(events);
             W.Enabled(w, a) && W.Enabled(W.Step(w, a), b) && W.Enabled(W.Step(W.Step(w, a), b), c)
    ensures W.Run(events + [a, b, c]) == W.Step(W.Step(W.Step(W.Run(events), a), b), c)
    ensures W.Legal(events + [a, b, c])
  {
    hide W.Run, W.Legal, W.Step, W.Enabled;
    RunOneMore(events, a);
    RunOneMore(events + [a], b);
    RunOneMore(events + [a] + [b], c);
    assert events + [a] + [b] + [c] == events + [a, b, c];
  }

  /** One command issued, enqueued and run in an idle world. */
  lemma SoloTurn(session: nat, w: W.Schedule, c: W.Command)
    requires w.queue == [] && w.waiting == map[]
    ensures var w1 := W.Step(w, W.Issue(session, c));
            var w2 := W.Step(w1, W.Enqueue(session));
            && W.Enabled(w, W.Issue(session, c)) && W.Enabled(w1, W.Enqueue(session)) && W.Enabled(w2, W.Drain)
            && W.Step(w2, W.Drain)
               == W.Schedule(W.Apply(w.players, c), [], map[], w.drained + [W.Sent(session, c)])
  {
    hide W.Apply;
    var w1 := W.Step(w, W.Issue(session, c));
    var w2 := W.Step(w1, W.Enqueue(session));
    assert w1.waiting == map[session := c];
    assert w2.waiting == map[] && w2.queue == [W.Sent(session, c)];
  }

  /** An idle world that has run one session's commands and nothing else. */
  ghost predicate Alone(session: nat, cs: seq<W.Command>, w: W.Schedule) {
    && w.queue == [] && w.waiting == map[]
    && W.Of(session, w.drained) == cs == W.Commands(w.drained)
    && forall x <- w.drained :: x.session == session
  }

  lemma AloneMore(session: nat, cs: seq<W.Command>, w: W.Schedule, c: W.Command, players: W.Players)
    requires Alone(session, cs, w)
    ensures Alone(session, cs + [c], W.Schedule(players, [], map[], w.drained + [W.Sent(session, c)]))
  {
    hide W.Of, W.Commands;
    var x := W.Sent(session, c);
    W.OfConcat(session, w.drained, [x]);
    W.OfOne(session, x);
    W.CommandsAppend(w.drained, x);
  }

  lemma {:induction false} SoloRuns(session: nat, cs: seq<W.Command>)
    ensures W.Legal(Solo(session, cs))
    ensures Alone(session, cs, W.Run(Solo(session, cs)))
  {
    if cs != [] {
      hide W.Legal, W.Run, Alone, Solo;
      var front, c := cs[..|cs| - 1], cs[|cs| - 1];
      SoloRuns(session, front);
      SoloMore(session, front, c);
      assert front + [c] == cs;
    }
  }

  lemma SoloMore(session: nat, cs: seq<W.Command>, c: W.Command)
    requires W.Legal(Solo(session, cs)) && Alone(session, cs, W.Run(Solo(session, cs)))
    ensures W.Legal(Solo(session, cs + [c])) && Alone(session, cs + [c], W.Run(Solo(session, cs + [c])))
  {
    hide W.Legal, W.Run, W.Step, W.Enabled, W.Of, W.Commands, W.Apply;
    var w := W.Run(Solo(session, cs));
    SoloTurn(session, w, c);
    RunThreeMore(Solo(session, cs), W.Issue(session, c), W.Enqueue(session), W.Drain);
    AloneMore(session, cs, w, c, W.Apply(w.players, c));
    assert (cs + [c])[..|cs|] == cs;
  }

  function Named(slot: Int32, id: int): Character {
    Character(id, 7, slot, [65], 2, 0, 1, 501, Pose(0, 0, 0, 0), 0)
  }

  /** A login with session key 1, which is the account's. */
  function Login(account: Account): Input {
    Input(Arrived(Decoded("C2S_SessionAuthLogin", map["m_sessionKey" := Int(1), "m_accountCode" := Text([66])], [])),
          Env(map[1 := account.(userCode := [66])], true, None, None, true))
  }

  /** A login, then entering the world from the slots 0 and 1 in turn. */
  function TwoEntries(cfg: Config): seq<Input> {
    var env := Env(map[], true, Some([Named(0, 1), Named(1, 2)]), Some(5), true);
    [Login(Account(7, cfg.worldID, [])),
     Input(Arrived(Decoded("C2S_EnterWorld", map["m_playerSlotIndex" := UInt(0)], [])), env),
     Input(Arrived(Decoded("C2S_EnterWorld", map["m_playerSlotIndex" := UInt(1)], [])), env)]
  }

  lemma LiveOneMore(cfg: Config, l: Life, inputs: seq<Input>, input: Input)
    ensures Live(cfg, l, inputs + [input]) == Hear(cfg, Live(cfg, l, inputs), input)
  {
    assert (inputs + [input])[..|inputs|] == inputs;
  }

  /** Entering from slot k of a listing of the two characters. */
  lemma EnterTurn(cfg: Config, l: Life, input: Input, k: nat)
    requires k < 2 && l.open && l.state.authed && l.state.link >= 2
    requires input == TwoEntries(cfg)[k + 1]
    ensures var c := Named(k, k + 1);
            var l' := Hear(cfg, l, input);
            && l'.open && l'.state.authed && l'.state.link == l.state.link - 2
            && l'.state.inWorld && l'.state.character == Some(c)
            && l'.joins == l.joins + [W.Join(Joining(cfg, l.state, c))]
  {
    hide PlayerOID, Says;
    var listed := [Named(0, 1), Named(1, 2)];
    assert listed[1..] == [Named(1, 2)];
    assert InSlot(listed, k) == Some(Named(k, k + 1));
  }

  lemma TwoEntriesMade(cfg: Config) returns (l: Life)
    ensures l == Live(cfg, Born(10), TwoEntries(cfg))
    ensures Joined(l, 1) && Joined(l, 2) && l.state.character == Some(Named(1, 2))
  {
    hide PlayerOID, Says, Hear;
    var inputs := TwoEntries(cfg);
    LiveOneMore(cfg, Born(10), [], inputs[0]);
    LiveOneMore(cfg, Born(10), [inputs[0]], inputs[1]);
    LiveOneMore(cfg, Born(10), [inputs[0], inputs[1]], inputs[2]);
    assert [] + [inputs[0]] == [inputs[0]] && [inputs[0]] + [inputs[1]] == [inputs[0], inputs[1]];
    assert inputs == [inputs[0], inputs[1]] + [inputs[2]];
    var l0 := Hear(cfg, Born(10), inputs[0]);
    LoginTurn(cfg, inputs[0]);
    EnterTurn(cfg, l0, inputs[1], 0);
    var l1 := Hear(cfg, l0, inputs[1]);
    EnterTurn(cfg, l1, inputs[2], 1);
    l := Hear(cfg, l1, inputs[2]);
    assert W.Enters(l.joins[0], 1) && W.Enters(l.joins[1], 2);
  }

  lemma LoginTurn(cfg: Config, input: Input)
    requires input == TwoEntries(cfg)[0]
    ensures var l := Hear(cfg, Born(10), input);
            l.open && l.state.authed && l.state.link == 9 && l.joins == []
  {
    hide Says;
  }

  /** On every server, a client that enters with two of its characters in turn leaves the first one behind. */
  lemma LeavesOneBehind(cfg: Config)
    ensures var l := Live(cfg, Born(10), TwoEntries(cfg));
            var events := Solo(0, Commands(l));
            && W.Legal(events) && AllArrived(l, events, 0) && Untouched(l, events, 0)
            && Joined(l, 1) && Joined(l, 2)
            && 1 in W.Run(events).players && 2 !in W.Run(events).players
  {
    var l := TwoEntriesMade(cfg);
    EveryLife(cfg, 10, TwoEntries(cfg));
    hide Live, TwoEntries, Invariant, Joined, W.Run, W.Legal, W.Verdict, Solo, Commands;
    SoloRuns(0, Commands(l));
    W.LogReplay(Solo(0, Commands(l)));
    OwnVerdict(cfg, l, 1);
    OwnVerdict(cfg, l, 2);
    W.VerdictPresence(Commands(l), 1);
    W.VerdictPresence(Commands(l), 2);
  }
}
