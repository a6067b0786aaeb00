/** What the replies that lead a client into the world say, told by the requests it made. */
module EntryReplies {
  import opened Wire
  import opened CodecSpec
  import opened Store
  import opened SessionSpec
  import opened GameSpec
  import opened Logins
  import opened Ownership
  import W = World

  // ---------------------------------------------------------------- object ids

  /** Ids and worlds for which the object id shows both. */
  predicate InRange(cfg: Config, c: Character) {
    0 <= cfg.worldID < 9_000_000_000 && 0 <= c.id < 1_000_000_000
  }

  /** The object id is the world's number followed by the character's nine digits. */
  predicate Identifies(cfg: Config, c: Character, oid: int) {
    InRange(cfg, c) ==> oid / 1_000_000_000 == cfg.worldID && oid % 1_000_000_000 == c.id
  }

  lemma OidIdentifies(cfg: Config, c: Character)
    ensures Identifies(cfg, c, PlayerOID(cfg, c))
  {
  }

  /** Different characters, or characters of different worlds, never share an object id. */
  lemma WorldUnique(cfg1: Config, c1: Character, cfg2: Config, c2: Character)
    requires InRange(cfg1, c1) && InRange(cfg2, c2)
    ensures PlayerOID(cfg1, c1) == PlayerOID(cfg2, c2) <==> cfg1.worldID == cfg2.worldID && c1.id == c2.id
  {
    OidIdentifies(cfg1, c1);
    OidIdentifies(cfg2, c2);
  }

  /** Within one world no two characters share an object id, whatever their 64-bit ids. */
  lemma UniqueInWorld(cfg: Config, c1: Character, c2: Character)
    requires 0 <= c1.id < 0x8000_0000_0000_0000 && 0 <= c2.id < 0x8000_0000_0000_0000
    ensures PlayerOID(cfg, c1) == PlayerOID(cfg, c2) <==> c1.id == c2.id
  {
  }

  /** With more than nine digits an id runs over into the next world's. */
  lemma RunsOver(cfg: Config, c: Character)
    requires cfg.worldID < 9_000_000_000
    ensures PlayerOID(cfg, c.(id := 1_000_000_001)) == PlayerOID(cfg.(worldID := cfg.worldID + 1), c.(id := 1))
  {
  }

  // ---------------------------------------------------------------- what each reply says

  /** The place in the trace of the n-th answer to input i. */
  ghost predicate AnswerAt(cfg: Config, link: nat, inputs: seq<Input>, i: nat, n: nat, k: nat) {
    i < |inputs| && Before(cfg, link, inputs, i).open && k == |Before(cfg, link, inputs, i).trace| + n
  }

  /** What a request to enter was answered: the slot of the character it chose, or that none has the slot it named. */
  ghost predicate SaysEntry(input: Input, result: nat, slot: Int32) {
    && Names(input, "C2S_EnterWorld") && input.env.listing.Some?
    && if exists c <- input.env.listing.value :: HasSlot(c, Slot(input)) then
         result == 0 && Chooses(input) && slot == Chosen(input).slotIndex
       else
         result == 50101 && slot == ToInt32(Slot(input))
  }

  /** The token is the one drawn, or 1 if that is zero; the object id is the chosen character's. */
  ghost predicate SaysComplete(cfg: Config, input: Input, token: Int64, oid: Int64) {
    && Chooses(input)
    && token == (if input.env.token.value == 0 then 1 else input.env.token.value)
    && Identifies(cfg, Chosen(input), oid)
  }

  ghost predicate Explained(cfg: Config, link: nat, inputs: seq<Input>, k: nat, x: Reply) {
    match x
    case EnterReply(result, slot) =>
      exists i: nat :: AnswerAt(cfg, link, inputs, i, 1, k) && SaysEntry(inputs[i], result, slot)
    case EnterCompleteReply(token, oid) =>
      exists i: nat :: AnswerAt(cfg, link, inputs, i, 2, k) && SaysComplete(cfg, inputs[i], token, oid)
    case MapEnterReply(mapID) =>
      exists i: nat, e: nat :: AnswerAt(cfg, link, inputs, i, 1, k) && LatestEntry(cfg, link, inputs, i, e)
        && mapID == Chosen(inputs[e]).mapID
    case MapEnterCompleteReply(oid) =>
      exists i: nat, e: nat :: AnswerAt(cfg, link, inputs, i, 1, k) && LatestEntry(cfg, link, inputs, i, e)
        && Identifies(cfg, Chosen(inputs[e]), oid)
    case _ => true
  }

  /** What the answers to one request say, in terms of the request and the session. */
  ghost predicate Fits(cfg: Config, s: State, input: Input, m: nat, x: Reply) {
    match x
    case EnterReply(result, slot) => m == 0 && SaysEntry(input, result, slot)
    case EnterCompleteReply(token, oid) => m == 1 && SaysComplete(cfg, input, token, oid)
    case MapEnterReply(mapID) => m == 0 && s.character.Some? && mapID == s.character.value.mapID
    case MapEnterCompleteReply(oid) => m == 0 && s.character.Some? && oid == s.playerOID
    case _ => true
  }

  lemma EntryFits(cfg: Config, s: State, input: Input, m: nat)
    requires Names(input, "C2S_EnterWorld")
    requires var p := PlanEnterWorld(cfg, s, input.received.decoded.values, input.env); m < |p.replies|
    ensures Fits(cfg, s, input, m, PlanEnterWorld(cfg, s, input.received.decoded.values, input.env).replies[m])
  {
    hide PlayerOID, AsUint64, ToInt32, InSlot, HasSlot, Identifies;
    InSlotMeans(input.env.listing.value, Slot(input));
    if InSlot(input.env.listing.value, Slot(input)).Some? {
      OidIdentifies(cfg, InSlot(input.env.listing.value, Slot(input)).value);
    }
  }

  lemma PlanFits(cfg: Config, s: State, input: Input, m: nat)
    requires input.received.Arrived? && input.received.decoded.Decoded?
    requires var r := Request(input.received.decoded.name, input.received.decoded.values);
             m < |PlanFor(cfg, s, r, input.env).replies|
    ensures var r := Request(input.received.decoded.name, input.received.decoded.values);
            Fits(cfg, s, input, m, PlanFor(cfg, s, r, input.env).replies[m])
  {
    hide PlanEnterWorld, AsInt64, AsText, ToInt32, Validate, SaysEntry, SaysComplete;
    if Names(input, "C2S_EnterWorld") && s.authed {
      EntryFits(cfg, s, input, m);
    }
  }

  /** Whatever an input adds to the trace fits it. */
  lemma SaidFits(cfg: Config, l: Life, input: Input, k: nat)
    ensures var t, t' := l.trace, Hear(cfg, l, input).trace;
            && t <= t'
            && (|t| <= k < |t'| && t'[k].Said? ==>
                  l.open && k > |t| && Fits(cfg, l.state, input, k - |t| - 1, t'[k].reply))
  {
    hide PlanFor, Fits;
    if l.open && input.received.Arrived? && input.received.decoded.Decoded? {
      var r := Request(input.received.decoded.name, input.received.decoded.values);
      if |l.trace| < k <= |l.trace| + |PlanFor(cfg, l.state, r, input.env).replies| {
        PlanFits(cfg, l.state, input, k - |l.trace| - 1);
      }
    }
  }

  /** The object id of a session is its character's. */
  lemma SessionOid(cfg: Config, link: nat, inputs: seq<Input>, n: nat)
    requires n <= |inputs|
    ensures var s := Before(cfg, link, inputs, n).state;
            s.character.Some? ==>
              && Identifies(cfg, s.character.value, s.playerOID)
              && exists e: nat :: LatestEntry(cfg, link, inputs, n, e) && s.character == Some(Chosen(inputs[e]))
  {
    EveryLife(cfg, link, inputs[..n]);
    CharacterOfLatest(cfg, link, inputs, n);
    var s := Before(cfg, link, inputs, n).state;
    hide Live, Identifies, Chosen, LatestEntry, PlayerOID;
    if s.character.Some? {
      OidIdentifies(cfg, s.character.value);
    }
  }

  lemma FitsExplained(cfg: Config, link: nat, inputs: seq<Input>, n: nat, k: nat, x: Reply)
    requires n < |inputs| && Before(cfg, link, inputs, n).open && k > |Before(cfg, link, inputs, n).trace|
    requires Fits(cfg, Before(cfg, link, inputs, n).state, inputs[n], k - |Before(cfg, link, inputs, n).trace| - 1, x)
    ensures Explained(cfg, link, inputs, k, x)
  {
    SessionOid(cfg, link, inputs, n);
    hide Before, SaysEntry, SaysComplete, Identifies, Chosen, LatestEntry;
    assert AnswerAt(cfg, link, inputs, n, 1, k) || AnswerAt(cfg, link, inputs, n, 2, k) || x.VersionReply?
      || x.LoginReply? || x.OtherReply?;
  }

  /**
   * In every run: a request to enter is answered with the slot of the listed character it chose, or with 50101 and the
   * slot it named if no listed character has that; the second answer gives the token drawn and the chosen character's
   * object id; and the answers to loading a map give the map and the object id of the character entered with last.
   */
  lemma {:induction false} EveryReplyExplained(cfg: Config, link: nat, inputs: seq<Input>, n: nat, k: nat)
    requires n <= |inputs| && k < |Before(cfg, link, inputs, n).trace|
    ensures var t := Before(cfg, link, inputs, n).trace;
            t[k].Said? ==> Explained(cfg, link, inputs, k, t[k].reply)
  {
    if n > 0 {
      assert inputs[..n][..n - 1] == inputs[..n - 1];
      var l := Before(cfg, link, inputs, n - 1);
      assert Before(cfg, link, inputs, n) == Hear(cfg, l, inputs[n - 1]);
      SaidFits(cfg, l, inputs[n - 1], k);
      hide Before, Hear, Explained, Fits;
      if k < |l.trace| {
        EveryReplyExplained(cfg, link, inputs, n - 1, k);
      } else if Hear(cfg, l, inputs[n - 1]).trace[k].Said? {
        FitsExplained(cfg, link, inputs, n - 1, k, Hear(cfg, l, inputs[n - 1]).trace[k].reply);
      }
    }
  }

  // ---------------------------------------------------------------- what the world is told

  /** The join of an entry: the chosen character under its object id, for the account logged in. */
  ghost predicate Tells(cfg: Config, link: nat, inputs: seq<Input>, e: nat, c: W.Command) {
    && EntersAt(cfg, link, inputs, e) && c.Join?
    && var chosen := Chosen(inputs[e]);
       && Identifies(cfg, chosen, c.player.oid)
       && c.player.characterID == chosen.id && c.player.name == chosen.name
       && c.player.mapID == chosen.mapID && c.player.pose == chosen.pose
       && exists b: nat :: LastAccepted(cfg, link, inputs, e, b) && c.player.accountID == Vouched(cfg, inputs[b])
  }

  lemma JoinTells(cfg: Config, link: nat, inputs: seq<Input>, e: nat)
    requires e < |inputs| && EntersAt(cfg, link, inputs, e)
    ensures Tells(cfg, link, inputs, e,
                  W.Join(Joining(cfg, Before(cfg, link, inputs, e).state, Chosen(inputs[e]))))
  {
    OidIdentifies(cfg, Chosen(inputs[e]));
    hide Before, Chosen, Chooses, Identifies, PlayerOID, Accepts, Vouched, LastAccepted;
    AccountOfLast(cfg, link, inputs, e);
    var b: nat :| LastAccepted(cfg, link, inputs, e, b);
  }

  /** Every join the world is told is an entry's. */
  lemma {:induction false} EveryJoinTold(cfg: Config, link: nat, inputs: seq<Input>, n: nat, j: nat) returns (e: nat)
    requires n <= |inputs| && j < |Before(cfg, link, inputs, n).joins|
    ensures e < n && Tells(cfg, link, inputs, e, Before(cfg, link, inputs, n).joins[j])
  {
    assert n > 0;
    assert inputs[..n][..n - 1] == inputs[..n - 1];
    var l := Before(cfg, link, inputs, n - 1);
    assert Before(cfg, link, inputs, n) == Hear(cfg, l, inputs[n - 1]);
    EntersIff(cfg, link, inputs, n - 1);
    hide Before, Hear, Tells, EntersAt, Chooses, Chosen, Joining;
    EntryStep(cfg, l, inputs[n - 1]);
    if j < |l.joins| {
      e := EveryJoinTold(cfg, link, inputs, n - 1, j);
    } else {
      e := n - 1;
      JoinTells(cfg, link, inputs, e);
    }
  }
}
