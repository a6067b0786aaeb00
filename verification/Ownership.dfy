/** Whose character a session plays. */
module Ownership {
  import opened Wire
  import opened CodecSpec
  import opened Store
  import opened SessionSpec
  import opened GameSpec
  import opened Logins
  import Departures
  import W = World

  /** Every listing the store answers with is of the account the session is then logged in as. */
  ghost predicate Honest(cfg: Config, link: nat, inputs: seq<Input>) {
    forall i :: 0 <= i < |inputs| ==> HonestAt(inputs[i].env, Live(cfg, Born(link), inputs[..i]).state.accountID)
  }

  ghost predicate HonestAt(env: Env, accountID: int) {
    env.listing.Some? ==> exists rows: seq<Character> :: env.listing.value == Listing(rows, accountID)
  }

  /** The account the session was logged in as when it last entered the world, as the world was told. */
  function EnteredAs(l: Life): int
    requires l.joins != [] && l.joins[|l.joins| - 1].Join?
  {
    l.joins[|l.joins| - 1].player.accountID
  }

  ghost predicate PlaysOwn(l: Life) {
    l.state.character.Some? ==>
      && l.joins != [] && l.joins[|l.joins| - 1].Join?
      && l.state.character.value.accountID == EnteredAs(l)
  }

  // ---------------------------------------------------------------- entering the world

  function Slot(input: Input): UInt64
    requires Names(input, "C2S_EnterWorld")
  {
    AsUint64(input.received.decoded.values, "m_playerSlotIndex")
  }

  /** A request to enter the world from a slot that a listed character has, and a token for it was drawn. */
  predicate Chooses(input: Input) {
    && Names(input, "C2S_EnterWorld")
    && input.env.listing.Some? && input.env.token.Some?
    && exists c <- input.env.listing.value :: HasSlot(c, Slot(input))
  }

  /** The character it chooses. */
  function Chosen(input: Input): (c: Character)
    requires Chooses(input)
    ensures c in input.env.listing.value && HasSlot(c, Slot(input))
  {
    InSlotMeans(input.env.listing.value, Slot(input));
    InSlot(input.env.listing.value, Slot(input)).value
  }

  /** Only entering the world joins and sets the character. */
  lemma OthersKeepCharacter(cfg: Config, s: State, r: Request, env: Env)
    requires r.name != "C2S_EnterWorld"
    ensures var p := PlanFor(cfg, s, r, env); p.state.character == s.character && p.joins == []
  {
    hide PlayerOID, AsInt64, AsText, ToInt32;
  }

  /** What an input does to the session's character, and what it tells the world. */
  lemma EntryStep(cfg: Config, l: Life, input: Input)
    ensures var l' := Hear(cfg, l, input);
            if l.open && l.state.authed && Chooses(input) then
              && l'.state.character == Some(Chosen(input))
              && l'.joins == l.joins + [W.Join(Joining(cfg, l.state, Chosen(input)))]
            else
              l'.state.character == l.state.character && l'.joins == l.joins
  {
    hide PlanVersionCheck, PlanLogin, PlanMapEnter, PlanMapEnterComplete, PlanLobby, Says, AsUint64, PlayerOID, ToInt32,
      InSlot, HasSlot;
    if l.open && input.received.Arrived? && input.received.decoded.Decoded? {
      var r := Request(input.received.decoded.name, input.received.decoded.values);
      if r.name != "C2S_EnterWorld" {
        OthersKeepCharacter(cfg, l.state, r, input.env);
      } else if input.env.listing.Some? {
        InSlotMeans(input.env.listing.value, Slot(input));
      }
    }
    assert l.joins + [] == l.joins;
  }

  lemma OneSlot(a: Character, b: Character, slot: UInt64)
    requires HasSlot(a, slot) && HasSlot(b, slot)
    ensures a.slotIndex == b.slotIndex
  {
  }

  /** What the account's listing shows in a slot is the one live row the account has there. */
  lemma OnlyInSlot(t: Table, accountID: int, slot: UInt64, c: Character)
    requires Consistent(t)
    ensures InSlot(Listing(t.rows, accountID), slot) == Some(c)
       <==> c in t.rows && Shown(c, accountID) && HasSlot(c, slot)
  {
    var listed := Listing(t.rows, accountID);
    ListingShows(t.rows, accountID);
    InSlotMeans(listed, slot);
    if c in listed && HasSlot(c, slot) {
      var d := InSlot(listed, slot).value;
      OneSlot(c, d, slot);
      var i :| 0 <= i < |t.rows| && t.rows[i] == c;
      var j :| 0 <= j < |t.rows| && t.rows[j] == d;
      assert SameSlot(t.rows[i], t.rows[j]) && SameSlot(t.rows[j], t.rows[i]);
    }
  }

  lemma ChosenIsOwn(input: Input, accountID: int)
    requires Chooses(input) && HonestAt(input.env, accountID)
    ensures Chosen(input).accountID == accountID
  {
    var rows: seq<Character> :| input.env.listing.value == Listing(rows, accountID);
    ListingShows(rows, accountID);
  }

  lemma KeptByHear(cfg: Config, l: Life, input: Input)
    requires PlaysOwn(l) && HonestAt(input.env, l.state.accountID)
    ensures PlaysOwn(Hear(cfg, l, input))
  {
    hide Hear, Chooses, HonestAt;
    EntryStep(cfg, l, input);
    if Chooses(input) {
      ChosenIsOwn(input, l.state.accountID);
    }
  }

  /** With honest listings the session's character is of the account it entered the world as. */
  lemma {:induction false} EveryEntryIsOwn(cfg: Config, link: nat, inputs: seq<Input>)
    requires Honest(cfg, link, inputs)
    ensures PlaysOwn(Live(cfg, Born(link), inputs))
  {
    if inputs != [] {
      var front := inputs[..|inputs| - 1];
      assert Honest(cfg, link, front) by {
        assert forall i :: 0 <= i < |front| ==> front[i] == inputs[i] && front[..i] == inputs[..i];
      }
      EveryEntryIsOwn(cfg, link, front);
      assert HonestAt(inputs[|inputs| - 1].env, Live(cfg, Born(link), front).state.accountID);
      KeptByHear(cfg, Live(cfg, Born(link), front), inputs[|inputs| - 1]);
    }
  }

  // ---------------------------------------------------------------- whose character, told by the inputs

  /** The session has no character, or one of the account it is authenticated as. */
  predicate Owns(s: State) {
    s.character.Some? ==> s.character.value.accountID == s.accountID
  }

  /** A session that plays its own character goes on to unless a login as another account is accepted while it does. */
  lemma OwnershipStep(cfg: Config, l: Life, input: Input)
    requires Owns(l.state) && HonestAt(input.env, l.state.accountID)
    ensures Owns(Hear(cfg, l, input).state)
       <==> !(l.open && Accepts(cfg, input) && l.state.character.Some? && Vouched(cfg, input) != l.state.accountID)
  {
    hide Hear, HonestAt, Accepts, Chooses;
    EntryStep(cfg, l, input);
    LoginStep(cfg, l, input);
    if Chooses(input) {
      ChosenIsOwn(input, l.state.accountID);
      ChoosesOrLogs(cfg, input);
    }
  }

  lemma ChoosesOrLogs(cfg: Config, input: Input)
    ensures !(Chooses(input) && Accepts(cfg, input))
  {
  }

  /** Input e was heard after an accepted login, and chooses a character. */
  ghost predicate EntersAt(cfg: Config, link: nat, inputs: seq<Input>, e: nat) {
    && e < |inputs| && Before(cfg, link, inputs, e).open && Chooses(inputs[e])
    && exists b :: LastAccepted(cfg, link, inputs, e, b)
  }

  /** The latest of those among the first n inputs. */
  ghost predicate LatestEntry(cfg: Config, link: nat, inputs: seq<Input>, n: nat, e: nat) {
    && e < n <= |inputs| && EntersAt(cfg, link, inputs, e)
    && forall j :: e < j < n ==> !EntersAt(cfg, link, inputs, j)
  }

  lemma LatestNext(cfg: Config, link: nat, inputs: seq<Input>, n: nat)
    requires n < |inputs|
    ensures forall e: nat ::
              LatestEntry(cfg, link, inputs, n + 1, e)
              <==> if EntersAt(cfg, link, inputs, n) then e == n else LatestEntry(cfg, link, inputs, n, e)
  {
    hide EntersAt;
    forall e: nat
      ensures LatestEntry(cfg, link, inputs, n + 1, e)
         <==> if EntersAt(cfg, link, inputs, n) then e == n else LatestEntry(cfg, link, inputs, n, e)
    {
    }
  }

  /** A request to enter counts as an entry exactly when the session it is heard by is being served and authenticated. */
  lemma EntersIff(cfg: Config, link: nat, inputs: seq<Input>, e: nat)
    requires e < |inputs|
    ensures var l := Before(cfg, link, inputs, e);
            EntersAt(cfg, link, inputs, e) <==> l.open && l.state.authed && Chooses(inputs[e])
  {
    hide Live, Chooses, LastAccepted, Vouched;
    AccountOfLast(cfg, link, inputs, e);
  }

  /** The character is the one the latest entry chose. */
  ghost predicate ByLatest(cfg: Config, link: nat, inputs: seq<Input>, n: nat, s: State)
    requires n <= |inputs|
  {
    && (s.character.Some? ==> exists e :: LatestEntry(cfg, link, inputs, n, e))
    && forall e: nat :: LatestEntry(cfg, link, inputs, n, e) ==> s.character == Some(Chosen(inputs[e]))
  }

  lemma ByLatestNext(cfg: Config, link: nat, inputs: seq<Input>, n: nat)
    requires n < |inputs| && ByLatest(cfg, link, inputs, n, Before(cfg, link, inputs, n).state)
    ensures ByLatest(cfg, link, inputs, n + 1, Hear(cfg, Before(cfg, link, inputs, n), inputs[n]).state)
  {
    EntersIff(cfg, link, inputs, n);
    hide Before, Hear, Chooses, Chosen, EntersAt;
    EntryStep(cfg, Before(cfg, link, inputs, n), inputs[n]);
    LatestNext(cfg, link, inputs, n);
    assert EntersAt(cfg, link, inputs, n) ==> LatestEntry(cfg, link, inputs, n + 1, n);
  }

  lemma {:induction false} CharacterOfLatest(cfg: Config, link: nat, inputs: seq<Input>, n: nat)
    requires n <= |inputs|
    ensures ByLatest(cfg, link, inputs, n, Before(cfg, link, inputs, n).state)
  {
    if n > 0 {
      CharacterOfLatest(cfg, link, inputs, n - 1);
      ByLatestNext(cfg, link, inputs, n - 1);
      hide ByLatest, Hear;
      assert inputs[..n][..n - 1] == inputs[..n - 1];
    }
  }

  /** The session's character is the one its latest entry chose. */
  lemma CharacterIff(cfg: Config, link: nat, inputs: seq<Input>)
    ensures var s := Live(cfg, Born(link), inputs).state;
            && (s.character.Some? <==> exists e :: LatestEntry(cfg, link, inputs, |inputs|, e))
            && forall e: nat :: LatestEntry(cfg, link, inputs, |inputs|, e) ==> s.character == Some(Chosen(inputs[e]))
  {
    hide Live, Chooses, Chosen, EntersAt;
    CharacterOfLatest(cfg, link, inputs, |inputs|);
    assert inputs[..|inputs|] == inputs;
  }

  /** The latest entry e, the last login b accepted before it, and the last login i of all. */
  ghost predicate Passage(cfg: Config, link: nat, inputs: seq<Input>, e: nat, b: nat, i: nat) {
    && LatestEntry(cfg, link, inputs, |inputs|, e)
    && LastAccepted(cfg, link, inputs, e, b)
    && LastAccepted(cfg, link, inputs, |inputs|, i)
  }

  /**
   * A session has a character exactly when it entered the world. The character is then of the account that the last login
   * accepted before the latest entry named, and the session of the one that the last login of all named: so it plays
   * its own if and only if those two name the same account.
   */
  lemma OwnCharacterIff(cfg: Config, link: nat, inputs: seq<Input>)
    requires Honest(cfg, link, inputs)
    ensures var s := Live(cfg, Born(link), inputs).state;
            && (s.character.Some? <==> exists e, b, i :: Passage(cfg, link, inputs, e, b, i))
            && forall e: nat, b: nat, i: nat :: Passage(cfg, link, inputs, e, b, i) ==>
                 && s.character.Some?
                 && s.character.value.accountID == Vouched(cfg, inputs[b]) && s.accountID == Vouched(cfg, inputs[i])
                 && (s.character.value.accountID == s.accountID
                     <==> Vouched(cfg, inputs[i]) == Vouched(cfg, inputs[b]))
  {
    var s := Live(cfg, Born(link), inputs).state;
    hide Live, Chooses, Chosen, Accepts, Vouched;
    CharacterIff(cfg, link, inputs);
    AuthenticatedIff(cfg, link, inputs);
    if s.character.Some? {
      var e :| LatestEntry(cfg, link, inputs, |inputs|, e);
      var b :| LastAccepted(cfg, link, inputs, e, b);
      var i :| LastAccepted(cfg, link, inputs, |inputs|, i);
      assert Passage(cfg, link, inputs, e, b, i);
    }
    forall e: nat, b: nat, i: nat | Passage(cfg, link, inputs, e, b, i)
      ensures s.character.Some? && s.character.value.accountID == Vouched(cfg, inputs[b])
    {
      EntryAccount(cfg, link, inputs, e, b);
    }
  }

  /** An entry chooses a character of the account that the last login accepted before it named. */
  lemma EntryAccount(cfg: Config, link: nat, inputs: seq<Input>, e: nat, b: nat)
    requires Honest(cfg, link, inputs)
    requires e < |inputs| && Chooses(inputs[e]) && LastAccepted(cfg, link, inputs, e, b)
    ensures Chosen(inputs[e]).accountID == Vouched(cfg, inputs[b])
  {
    hide Live, Chooses, Chosen, Accepts, Vouched, HonestAt;
    AccountOfLast(cfg, link, inputs, e);
    ChosenIsOwn(inputs[e], Before(cfg, link, inputs, e).state.accountID);
  }

  /** Every login the connection accepts is of one account. */
  ghost predicate OneAccount(cfg: Config, link: nat, inputs: seq<Input>, accountID: Int64) {
    forall i: nat :: AcceptedAt(cfg, link, inputs, i) ==> Vouched(cfg, inputs[i]) == accountID
  }

  /** On a connection that only one account logs in on, the character is always that account's. */
  lemma OneAccountOwns(cfg: Config, link: nat, inputs: seq<Input>, accountID: Int64)
    requires Honest(cfg, link, inputs) && OneAccount(cfg, link, inputs, accountID)
    ensures var s := Live(cfg, Born(link), inputs).state;
            s.character.Some? ==> s.accountID == accountID == s.character.value.accountID
  {
    OwnCharacterIff(cfg, link, inputs);
  }

  /** A login as account 7, entering with its character, and a login as account 8. */
  function SecondLogin(cfg: Config): seq<Input> {
    var env := Env(map[], true, Some([Departures.Named(0, 1)]), Some(5), true);
    [Departures.Login(Account(7, cfg.worldID, [])),
     Input(Arrived(Decoded("C2S_EnterWorld", map["m_playerSlotIndex" := UInt(0)], [])), env),
     Departures.Login(Account(8, cfg.worldID, []))]
  }

  /** The logins are accepted, and the entry chooses the one listed character. */
  lemma SecondLoginInputs(cfg: Config)
    ensures var inputs := SecondLogin(cfg);
            && Accepts(cfg, inputs[0]) && Vouched(cfg, inputs[0]) == 7
            && Chooses(inputs[1]) && Chosen(inputs[1]) == Departures.Named(0, 1)
            && Accepts(cfg, inputs[2]) && Vouched(cfg, inputs[2]) == 8
  {
    assert HasSlot(Departures.Named(0, 1), Slot(SecondLogin(cfg)[1]));
  }

  /** They find the connection open. */
  lemma SecondLoginOpen(cfg: Config, l1: Life, l2: Life)
    requires l1 == Hear(cfg, Born(10), SecondLogin(cfg)[0]) && l2 == Hear(cfg, l1, SecondLogin(cfg)[1])
    ensures l1.open && l2.open
  {
    hide PlayerOID, Says;
    SecondLoginInputs(cfg);
    assert InSlot([Departures.Named(0, 1)], 0) == Some(Departures.Named(0, 1));
  }

  lemma OneRowListed(c: Character)
    requires c.deletedTime == 0
    ensures Listing([c], c.accountID) == [c]
  {
    assert [c][..0] == [];
    assert InsertBySlot(c, Listing([], c.accountID)) == [c] + [];
  }

  /** On every server, and with honest listings: a session logged in as account 8 plays account 7's character. */
  lemma SecondLoginKeepsCharacter(cfg: Config)
    ensures Honest(cfg, 10, SecondLogin(cfg))
    ensures var s := Live(cfg, Born(10), SecondLogin(cfg)).state;
            s.accountID == 8 && s.character.Some? && s.character.value.accountID == 7
  {
    var inputs := SecondLogin(cfg);
    var l := Born(10);
    var l1 := Hear(cfg, l, inputs[0]);
    var l2 := Hear(cfg, l1, inputs[1]);
    SecondLoginListings(cfg, l1.state.accountID);
    hide Hear, Accepts, Vouched, Chooses, Chosen, SecondLogin, HonestAt;
    SecondLoginInputs(cfg);
    SecondLoginOpen(cfg, l1, l2);
    LoginStep(cfg, l, inputs[0]);
    EntryStep(cfg, l, inputs[0]);
    LoginStep(cfg, l1, inputs[1]);
    EntryStep(cfg, l1, inputs[1]);
    LoginStep(cfg, l2, inputs[2]);
    EntryStep(cfg, l2, inputs[2]);
    ChoosesOrLogs(cfg, inputs[0]);
    ChoosesOrLogs(cfg, inputs[1]);
    ChoosesOrLogs(cfg, inputs[2]);
    ThreeHeard(cfg, l, inputs);
  }

  lemma ThreeHeard(cfg: Config, l: Life, inputs: seq<Input>)
    requires |inputs| == 3
    ensures Live(cfg, l, inputs[..0]) == l
    ensures Live(cfg, l, inputs[..1]) == Hear(cfg, l, inputs[0])
    ensures Live(cfg, l, inputs[..2]) == Hear(cfg, Hear(cfg, l, inputs[0]), inputs[1])
    ensures Live(cfg, l, inputs) == Hear(cfg, Hear(cfg, Hear(cfg, l, inputs[0]), inputs[1]), inputs[2])
  {
    hide Hear;
    assert inputs[..1][..0] == [] && inputs[..2][..1] == inputs[..1] && inputs[..3] == inputs;
  }

  lemma SecondLoginListings(cfg: Config, accountID: int)
    ensures |SecondLogin(cfg)| == 3
    ensures HonestAt(SecondLogin(cfg)[0].env, 0)
    ensures accountID == 7 ==> HonestAt(SecondLogin(cfg)[1].env, accountID)
    ensures forall a: int :: HonestAt(SecondLogin(cfg)[2].env, a)
  {
    OneRowListed(Departures.Named(0, 1));
  }
}
