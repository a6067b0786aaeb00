/** The world's players, changed only by commands taken one at a time from a bounded queue. */
module World {
  import opened Store
  import Utf16

  datatype Player = Player(oid: int, characterID: int, accountID: int, name: Utf16.Text, mapID: int, pose: Pose)

  datatype Command =
    | Join(player: Player)
    | Leave(id: int)
    | Move(id: int, pose: Pose)

  type Players = map<int, Player>

  /** What a command does when the owner runs it. */
  function Apply(players: Players, c: Command): Players {
    match c
    case Join(p) => players[p.characterID := p]
    case Leave(id) => players - {id}
    case Move(id, pose) => if id in players then players[id := players[id].(pose := pose)] else players
  }

  function ApplyAll(players: Players, cs: seq<Command>): Players {
    if cs == [] then players else Apply(ApplyAll(players, cs[..|cs| - 1]), cs[|cs| - 1])
  }

  // ---------------------------------------------------------------- what the fold means

  predicate Enters(c: Command, id: int) {
    c.Join? && c.player.characterID == id
  }

  /** Joins or leaves with this character. */
  predicate Decides(c: Command, id: int) {
    Enters(c, id) || c == Leave(id)
  }

  predicate Moves(c: Command, id: int) {
    c.Move? && c.id == id
  }

  /** Command i puts the character into the world, and no later one joins or removes it. */
  ghost predicate LastJoin(cs: seq<Command>, id: int, i: nat) {
    && i < |cs| && Enters(cs[i], id)
    && forall j :: i < j < |cs| ==> !Decides(cs[j], id)
  }

  /** The pose of the last move in cs[i..], or the given one. */
  function LastPose(cs: seq<Command>, id: int, i: nat, pose: Pose): Pose
    requires i <= |cs|
    decreases |cs|
  {
    if i == |cs| then pose
    else
      var last := cs[|cs| - 1];
      if Moves(last, id) then last.pose else LastPose(cs[..|cs| - 1], id, i, pose)
  }

  /**
   * A character is in the world exactly when the last of its joins and leaves was a join; it is then the player of
   * that join, at the pose of the last move since, under its own id.
   */
  lemma {:induction false} Presence(cs: seq<Command>, id: int)
    ensures id in ApplyAll(map[], cs) <==> exists i: nat :: LastJoin(cs, id, i)
    ensures forall i: nat :: LastJoin(cs, id, i) ==>
              ApplyAll(map[], cs)[id] == cs[i].player.(pose := LastPose(cs, id, i + 1, cs[i].player.pose))
    ensures id in ApplyAll(map[], cs) ==> ApplyAll(map[], cs)[id].characterID == id
  {
    if cs != [] {
      var front, last := cs[..|cs| - 1], cs[|cs| - 1];
      Presence(front, id);
      assert cs == front + [last];
      if Enters(last, id) {
        assert LastJoin(cs, id, |cs| - 1);
        assert forall i: nat :: i < |front| && LastJoin(cs, id, i) ==> Decides(cs[|cs| - 1], id);
      } else if last == Leave(id) {
        assert forall i: nat :: i < |front| && LastJoin(cs, id, i) ==> Decides(cs[|cs| - 1], id);
      } else {
        LastJoinFront(cs, id);
        assert id in ApplyAll(map[], cs) <==> id in ApplyAll(map[], front);
        if i: nat :| LastJoin(front, id, i) {
          assert LastJoin(cs, id, i);
        }
        forall i: nat | LastJoin(cs, id, i)
          ensures ApplyAll(map[], cs)[id] == cs[i].player.(pose := LastPose(cs, id, i + 1, cs[i].player.pose))
        {
          assert LastJoin(front, id, i) && front[i] == cs[i];
        }
      }
    }
  }

  lemma LastJoinFront(cs: seq<Command>, id: int)
    requires cs != [] && !Decides(cs[|cs| - 1], id)
    ensures forall i: nat :: LastJoin(cs, id, i) <==> LastJoin(cs[..|cs| - 1], id, i)
  {
    var front := cs[..|cs| - 1];
    forall i: nat
      ensures LastJoin(cs, id, i) <==> LastJoin(front, id, i)
    {
      if LastJoin(front, id, i) {
        assert forall j :: i < j < |front| ==> cs[j] == front[j];
      }
    }
  }

  /** Command i takes the character out of the world, and no later one joins or removes it. */
  ghost predicate LastLeave(cs: seq<Command>, id: int, i: nat) {
    && i < |cs| && cs[i] == Leave(id)
    && forall j :: i < j < |cs| ==> !Decides(cs[j], id)
  }

  datatype Fate = Undecided | Entered | Left

  /** What the last join or leave of a character makes of it. */
  function Verdict(cs: seq<Command>, id: int): Fate {
    if cs == [] then Undecided
    else
      var last := cs[|cs| - 1];
      if Enters(last, id) then Entered else if last == Leave(id) then Left else Verdict(cs[..|cs| - 1], id)
  }

  lemma {:induction false} VerdictPresence(cs: seq<Command>, id: int)
    ensures id in ApplyAll(map[], cs) <==> Verdict(cs, id) == Entered
  {
    if cs != [] {
      VerdictPresence(cs[..|cs| - 1], id);
    }
  }

  lemma {:induction false} VerdictWitness(cs: seq<Command>, id: int)
    ensures Verdict(cs, id) == Left <==> exists i: nat :: LastLeave(cs, id, i)
    ensures Verdict(cs, id) == Undecided <==> forall c <- cs :: !Decides(c, id)
  {
    if cs != [] {
      var front, last := cs[..|cs| - 1], cs[|cs| - 1];
      VerdictWitness(front, id);
      assert cs == front + [last];
      if last == Leave(id) {
        assert LastLeave(cs, id, |front|) && last in cs && Decides(last, id);
      } else if Decides(last, id) {
        assert forall i: nat :: LastLeave(cs, id, i) ==> i < |front| && !Decides(cs[|front|], id);
      } else {
        forall i: nat
          ensures LastLeave(cs, id, i) <==> LastLeave(front, id, i)
        {
          assert forall j :: i < j < |front| ==> cs[j] == front[j];
        }
      }
    }
  }

  // ---------------------------------------------------------------- every schedule of the queue

  const QUEUE: nat := 256

  /** A command and the session that sent it. */
  datatype Sent = Sent(session: nat, command: Command)

  /** The world, its queue, the command each blocked session waits to enqueue, and all that was taken off the queue. */
  datatype Schedule = Schedule(players: Players, queue: seq<Sent>, waiting: map<nat, Command>, drained: seq<Sent>)

  /** A session issues a command and waits; the command is then enqueued, or given up when the context is cancelled. */
  datatype Event =
    | Issue(session: nat, command: Command)
    | Enqueue(session: nat)
    | GiveUp(session: nat)
    | Drain
    | Tick

  /** A waiting session issues nothing more; a full queue enqueues nothing; an empty one drains nothing. */
  predicate Enabled(w: Schedule, e: Event) {
    match e
    case Issue(s, _) => s !in w.waiting
    case Enqueue(s) => s in w.waiting && |w.queue| < QUEUE
    case GiveUp(s) => s in w.waiting
    case Drain => w.queue != []
    case Tick => true
  }

  function Step(w: Schedule, e: Event): Schedule {
    if !Enabled(w, e) then w
    else
      match e
      case Issue(s, c) => w.(waiting := w.waiting[s := c])
      case Enqueue(s) => w.(waiting := w.waiting - {s}, queue := w.queue + [Sent(s, w.waiting[s])])
      case GiveUp(s) => w.(waiting := w.waiting - {s})
      case Drain =>
        var sent := w.queue[0];
        w.(players := Apply(w.players, sent.command), queue := w.queue[1..], drained := w.drained + [sent])
      case Tick => w
  }

  function Run(events: seq<Event>): Schedule {
    if events == [] then Schedule(map[], [], map[], []) else Step(Run(events[..|events| - 1]), events[|events| - 1])
  }

  /** Everything that happens can happen when it does. */
  predicate Legal(events: seq<Event>) {
    events != [] ==> Legal(events[..|events| - 1]) && Enabled(Run(events[..|events| - 1]), events[|events| - 1])
  }

  /** The commands a session issued and did not give up, in program order, read off the events alone. */
  function Issued(session: nat, events: seq<Event>): seq<Command> {
    if events == [] then []
    else
      var front := Issued(session, events[..|events| - 1]);
      match events[|events| - 1]
      case Issue(s, c) => if s == session then front + [c] else front
      case GiveUp(s) => if s == session && front != [] then front[..|front| - 1] else front
      case _ => front
  }

  function Commands(sent: seq<Sent>): seq<Command> {
    seq(|sent|, i requires 0 <= i < |sent| => sent[i].command)
  }

  /** One session's commands, in the order they appear. */
  function Of(session: nat, sent: seq<Sent>): seq<Command> {
    if sent == [] then []
    else
      var front := Of(session, sent[..|sent| - 1]);
      var last := sent[|sent| - 1];
      if last.session == session then front + [last.command] else front
  }

  lemma {:induction false} OfConcat(session: nat, a: seq<Sent>, b: seq<Sent>)
    ensures Of(session, a + b) == Of(session, a) + Of(session, b)
  {
    if b == [] {
      assert a + b == a;
    } else {
      OfConcat(session, a, b[..|b| - 1]);
      assert (a + b)[..|a + b| - 1] == a + b[..|b| - 1];
    }
  }

  lemma CommandsAppend(sent: seq<Sent>, s: Sent)
    ensures Commands(sent + [s]) == Commands(sent) + [s.command]
  {
  }

  lemma ApplyAllAppend(players: Players, cs: seq<Command>, c: Command)
    ensures ApplyAll(players, cs + [c]) == Apply(ApplyAll(players, cs), c)
  {
    assert (cs + [c])[..|cs|] == cs;
  }

  ghost predicate Replayed(w: Schedule) {
    w.players == ApplyAll(map[], Commands(w.drained)) && |w.queue| <= QUEUE
  }

  lemma ReplayedStep(w: Schedule, e: Event)
    requires Replayed(w)
    ensures Replayed(Step(w, e))
  {
    hide Apply, ApplyAll, Commands;
    if e.Drain? && w.queue != [] {
      var s := w.queue[0];
      CommandsAppend(w.drained, s);
      ApplyAllAppend(map[], Commands(w.drained), s.command);
    }
  }

  /** Over every schedule the players are the fold of the drained commands, and the queue never exceeds its capacity. */
  lemma {:induction false} LogReplay(events: seq<Event>)
    ensures Replayed(Run(events))
  {
    if events != [] {
      LogReplay(events[..|events| - 1]);
      ReplayedStep(Run(events[..|events| - 1]), events[|events| - 1]);
    }
  }

  /** The command a session waits to enqueue, if it is waiting. */
  function WaitingOf(session: nat, w: Schedule): seq<Command> {
    if session in w.waiting then [w.waiting[session]] else []
  }

  /** A session's commands on their way: drained, then queued, then the one it waits with. */
  function Underway(session: nat, w: Schedule): seq<Command> {
    Of(session, w.drained) + Of(session, w.queue) + WaitingOf(session, w)
  }

  lemma OfOne(session: nat, x: Sent)
    ensures Of(session, [x]) == if x.session == session then [x.command] else []
  {
    assert [x][..0] == [];
    assert Of(session, []) == [];
  }

  /** A command that moves from the sender to the end of the queue stays last of its session's. */
  lemma UnderwayEnqueue(session: nat, w: Schedule, s: nat)
    requires s in w.waiting && |w.queue| < QUEUE
    ensures Underway(session, Step(w, Enqueue(s))) == Underway(session, w)
  {
    hide Of;
    var x := Sent(s, w.waiting[s]);
    OfConcat(session, w.queue, [x]);
    OfOne(session, x);
  }

  lemma UnderwayDrain(session: nat, w: Schedule)
    requires w.queue != []
    ensures Underway(session, Step(w, Drain)) == Underway(session, w)
  {
    hide Of, Apply;
    var x, rest := w.queue[0], w.queue[1..];
    OfConcat(session, [x], rest);
    OfConcat(session, w.drained, [x]);
    assert w.queue == [x] + rest;
  }

  lemma UnderwayStep(session: nat, w: Schedule, e: Event)
    requires Enabled(w, e)
    ensures var before, after := Underway(session, w), Underway(session, Step(w, e));
            match e
            case Issue(s, c) => after == if s == session then before + [c] else before
            case GiveUp(s) => if s == session then before != [] && after == before[..|before| - 1] else after == before
            case _ => after == before
  {
    hide Of, Apply;
    match e
    case Enqueue(s) => UnderwayEnqueue(session, w, s);
    case Drain => UnderwayDrain(session, w);
    case _ =>
  }

  /**
   * Over every schedule, the commands a session issued and did not give up are exactly those drained, those queued and
   * the one it waits with, in program order: none is lost, doubled or overtaken by a later one of the same session.
   */
  lemma {:induction false} ProgramOrder(events: seq<Event>, session: nat)
    requires Legal(events)
    ensures Issued(session, events) == Underway(session, Run(events))
  {
    if events != [] {
      ProgramOrder(events[..|events| - 1], session);
      UnderwayStep(session, Run(events[..|events| - 1]), events[|events| - 1]);
    }
  }

  /** The queue is first in, first out, across all sessions: nothing enters it but at its end, and Drain takes its head. */
  lemma QueueOrder(w: Schedule, e: Event)
    ensures var w' := Step(w, e);
            w.drained + w.queue <= w'.drained + w'.queue
  {
    if e.Drain? && w.queue != [] {
      assert w.drained + w.queue == w.drained + [w.queue[0]] + w.queue[1..];
    }
  }

  /**
   * Whoever else uses the world: a character that some drained command joined or removed is absent if and only if the
   * last drained command that does either is a leave; one that none did is absent.
   */
  lemma AbsentIff(events: seq<Event>, id: int)
    ensures var cs := Commands(Run(events).drained);
            id !in Run(events).players
            <==> (exists i: nat :: LastLeave(cs, id, i)) || forall c <- cs :: !Decides(c, id)
  {
    var cs := Commands(Run(events).drained);
    LogReplay(events);
    VerdictPresence(cs, id);
    VerdictWitness(cs, id);
  }

  /** If no other session's command decides a character, one session's commands alone do. */
  lemma {:induction false} VerdictOf(session: nat, sent: seq<Sent>, id: int)
    requires forall x <- sent :: x.session != session ==> !Decides(x.command, id)
    ensures Verdict(Commands(sent), id) == Verdict(Of(session, sent), id)
  {
    if sent != [] {
      var front, last := sent[..|sent| - 1], sent[|sent| - 1];
      assert sent == front + [last];
      VerdictOf(session, front, id);
      CommandsAppend(front, last);
      assert (Commands(front) + [last.command])[..|front|] == Commands(front);
      if last.session == session {
        assert (Of(session, front) + [last.command])[..|Of(session, front)|] == Of(session, front);
      }
    }
  }

  // ---------------------------------------------------------------- the owner

  class Owner {
    var players: Players
    var queue: seq<Sent>
    var waiting: map<nat, Command>
    ghost var drained: seq<Sent>

    ghost function Now(): Schedule
      reads this
    {
      Schedule(players, queue, waiting, drained)
    }

    constructor ()
      ensures Now() == Run([])
    {
      players := map[];
      queue := [];
      waiting := map[];
      drained := [];
    }

    /** do, reached: the sender offers its command. */
    method Offer(session: nat, c: Command)
      requires session !in waiting
      modifies this
      ensures Now() == Step(old(Now()), Issue(session, c))
    {
      waiting := waiting[session := c];
    }

    /** do, left: the command goes on the queue when there is room, or is dropped when the context is cancelled. */
    method Do(session: nat, cancelled: bool) returns (done: bool)
      requires session in waiting
      modifies this
      ensures Now() == Step(old(Now()), if cancelled then GiveUp(session) else Enqueue(session))
      ensures done == (session !in waiting) == (cancelled || old(|queue|) < 256)
    {
      if !cancelled {
        if |queue| >= QUEUE {
          return false;
        }
        queue := queue + [Sent(session, waiting[session])];
      }
      waiting := waiting - {session};
      return true;
    }

    /** One turn of the owner's loop: run the oldest command, or tick. */
    method Turn(tick: bool)
      modifies this
      ensures Now() == Step(old(Now()), if tick then Tick else Drain)
    {
      if tick || queue == [] {
        return;
      }
      var s := queue[0];
      queue := queue[1..];
      drained := drained + [s];
      match s.command {
        case Join(p) =>
          players := players[p.characterID := p];
        case Leave(id) =>
          if id in players {
            players := players - {id};
          }
        case Move(id, pose) =>
          if id in players {
            players := players[id := players[id].(pose := pose)];
          }
      }
    }
  }

  /** The owner's methods, called in the order of any schedule, bring it to where that schedule leads. */
  method Play(events: seq<Event>) returns (players: Players)
    requires Legal(events)
    ensures players == ApplyAll(map[], Commands(Run(events).drained))
    ensures forall session :: Issued(session, events) == Underway(session, Run(events))
  {
    var w := new Owner();
    for i := 0 to |events|
      invariant w.Now() == Run(events[..i])
    {
      assert events[..i + 1][..i] == events[..i];
      LegalPrefix(events, i + 1);
      match events[i] {
        case Issue(s, c) => w.Offer(s, c);
        case Enqueue(s) =>
          var done := w.Do(s, false);
        case GiveUp(s) =>
          var done := w.Do(s, true);
        case Drain => w.Turn(false);
        case Tick => w.Turn(true);
      }
    }
    assert events[..|events|] == events;
    LogReplay(events);
    forall session
      ensures Issued(session, events) == Underway(session, Run(events))
    {
      ProgramOrder(events, session);
    }
    return w.players;
  }

  lemma {:induction false} LegalPrefix(events: seq<Event>, n: nat)
    requires Legal(events) && n <= |events|
    ensures Legal(events[..n])
    decreases |events|
  {
    if n == |events| {
      assert events[..n] == events;
    } else {
      LegalPrefix(events[..|events| - 1], n);
      assert events[..|events| - 1][..n] == events[..n];
    }
  }
}
