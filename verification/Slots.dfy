/** Creating a character: a slot is chosen from a listing and claimed by a later insert, other sessions in between. */
module Slots {
  import opened Wire
  import opened Store
  import Utf16

  const MAX_SLOTS: nat := 3
  const MIN_NAME: nat := 1
  const MAX_NAME: nat := 16
  const DEFAULT_START_MAP: Int32 := 501

  const START_MAPS: map<Int32, Int32> := map[2 := 501]

  function StartMap(classType: Int32): Int32 {
    if classType in START_MAPS then START_MAPS[classType] else DEFAULT_START_MAP
  }

  // ---------------------------------------------------------------- names

  predicate IsSpace(r: int) {
    || 0x09 <= r <= 0x0D || r == 0x20 || r == 0x85 || r == 0xA0 || r == 0x1680 || 0x2000 <= r <= 0x200A
    || r == 0x2028 || r == 0x2029 || r == 0x202F || r == 0x205F || r == 0x3000
  }

  /** What strings.TrimSpace cuts off: the 25 code points that Unicode calls White_Space. */
  lemma WhiteSpace(r: int)
    ensures IsSpace(r) <==> r in {0x09, 0x0A, 0x0B, 0x0C, 0x0D, 0x20, 0x85, 0xA0, 0x1680, 0x2000, 0x2001, 0x2002, 0x2003,
                                  0x2004, 0x2005, 0x2006, 0x2007, 0x2008, 0x2009, 0x200A, 0x2028, 0x2029, 0x202F, 0x205F,
                                  0x3000}
  {
  }

  function TrimLeft(s: Utf16.Text): (t: Utf16.Text)
    ensures t != [] ==> !IsSpace(t[0])
    ensures |t| <= |s| && s[|s| - |t|..] == t
    ensures forall r <- s[..|s| - |t|] :: IsSpace(r)
  {
    if s != [] && IsSpace(s[0]) then TrimLeft(s[1..]) else s
  }

  function TrimRight(s: Utf16.Text): (t: Utf16.Text)
    ensures t != [] ==> !IsSpace(t[|t| - 1])
    ensures |t| <= |s| && s[..|t|] == t
    ensures forall r <- s[|t|..] :: IsSpace(r)
  {
    if s != [] && IsSpace(s[|s| - 1]) then TrimRight(s[..|s| - 1]) else s
  }

  function TrimSpace(s: Utf16.Text): Utf16.Text {
    TrimRight(TrimLeft(s))
  }

  predicate ValidName(name: Utf16.Text) {
    MIN_NAME <= |name| <= MAX_NAME
  }

  // ---------------------------------------------------------------- the free slot

  function UsedSlots(listed: seq<Character>): set<int> {
    set c <- listed :: c.slotIndex
  }

  /** The lowest slot below the cap that no listed character has. */
  function LowestFree(used: set<int>, from: nat): (r: Option<nat>)
    ensures r.Some? ==> from <= r.value < MAX_SLOTS && r.value !in used
    ensures forall slot :: from <= slot < (if r.Some? then r.value else MAX_SLOTS) ==> slot in used
    decreases MAX_SLOTS - from
  {
    if from >= MAX_SLOTS then None
    else if from !in used then Some(from)
    else LowestFree(used, from + 1)
  }

  /** freeSlot: mark the slots in use, then look for the first unmarked one. */
  method FreeSlot(listed: seq<Character>) returns (slot: nat, ok: bool)
    ensures ok ==> slot < 3 && slot !in UsedSlots(listed)
    ensures forall lower :: 0 <= lower < (if ok then slot else 3) ==> lower in UsedSlots(listed)
    ensures LowestFree(UsedSlots(listed), 0) == if ok then Some(slot) else None
  {
    var used: map<int, bool> := map[];
    for i := 0 to |listed|
      invariant used.Keys == UsedSlots(listed[..i])
      invariant forall s <- used :: used[s]
    {
      used := used[listed[i].slotIndex := true];
      assert listed[..i + 1] == listed[..i] + [listed[i]];
    }
    assert listed[..|listed|] == listed;
    slot := 0;
    while slot < MAX_SLOTS
      invariant slot <= MAX_SLOTS
      invariant forall lower :: 0 <= lower < slot ==> lower in UsedSlots(listed)
      invariant LowestFree(UsedSlots(listed), 0) == LowestFree(UsedSlots(listed), slot)
    {
      if slot !in used {
        return slot, true;
      }
      slot := slot + 1;
    }
    return 0, false;
  }

  // ---------------------------------------------------------------- the steps of creating a character

  datatype Request = Request(accountID: int, name: Utf16.Text, classType: Int32, headType: Int32)

  datatype Outcome = Created(row: Character) | InvalidName | DuplicateName | NoFreeSlot

  /** The m_result code of an outcome. */
  function ResultCode(o: Outcome): nat {
    match o
    case Created(_) => 0
    case InvalidName => 26
    case DuplicateName => 50102
    case NoFreeSlot => 55001
  }

  /** What is inserted, once a slot has been chosen. */
  function Candidate(q: Request, slot: Int32): Character {
    var noPose := Pose(0, 0, 0, 0);
    Character(0, q.accountID, slot, TrimSpace(q.name), q.classType, q.headType, 1, StartMap(q.classType), noPose, 0)
  }

  /** The first half: check the name, list, and choose a slot. */
  function Choose(t: Table, q: Request): Result<Character, Outcome> {
    if !ValidName(TrimSpace(q.name)) then Err(InvalidName)
    else
      match LowestFree(UsedSlots(Listing(t.rows, q.accountID)), 0)
      case None => Err(NoFreeSlot)
      case Some(slot) => Ok(Candidate(q, slot))
  }

  /** The second half: the insert, and the outcome the client is told. */
  function Claim(t: Table, c: Character, either: Constraint): (Outcome, Table) {
    var (r, t') := Insert(t, c, either);
    match r
    case Ok(row) => (Created(row), t')
    case Err(NameTaken) => (DuplicateName, t')
    case Err(SlotTaken) => (NoFreeSlot, t')
  }

  // ---------------------------------------------------------------- any number of sessions

  /** A chosen character not yet inserted; when it was chosen the table held its first `seen` rows. */
  datatype Pending = Pending(candidate: Character, seen: nat)

  datatype System = System(table: Table, pending: map<nat, Pending>)

  datatype Event =
    | List(session: nat, request: Request)
    | Create(session: nat, either: Constraint)
    | Abandon(session: nat)

  function Step(sys: System, e: Event): System {
    match e
    case List(s, q) =>
      if s in sys.pending then sys
      else
        (match Choose(sys.table, q)
         case Err(_) => sys
         case Ok(c) => sys.(pending := sys.pending[s := Pending(c, |sys.table.rows|)]))
    case Create(s, either) =>
      if s !in sys.pending then sys
      else System(Claim(sys.table, sys.pending[s].candidate, either).1, sys.pending - {s})
    case Abandon(s) => sys.(pending := sys.pending - {s})
  }

  function Run(events: seq<Event>): System {
    if events == [] then System(Table([], 1), map[])
    else Step(Run(events[..|events| - 1]), events[|events| - 1])
  }

  // ---------------------------------------------------------------- what every run keeps

  function SlotsOf(rows: seq<Character>, accountID: int): set<int> {
    set c <- rows | c.accountID == accountID :: c.slotIndex
  }

  /** The account's slots are the first k. */
  ghost predicate FirstSlots(rows: seq<Character>, accountID: int, k: nat) {
    forall slot: int :: slot in SlotsOf(rows, accountID) <==> 0 <= slot < k
  }

  ghost predicate InitialSegment(rows: seq<Character>, accountID: int) {
    exists k: nat :: k <= MAX_SLOTS && FirstSlots(rows, accountID, k)
  }

  ghost predicate WellNamed(c: Character) {
    && ValidName(c.name)
    && !IsSpace(c.name[0]) && !IsSpace(c.name[|c.name| - 1])
  }

  /** When it was chosen every lower slot was taken, and its own was free. */
  ghost predicate WellChosen(rows: seq<Character>, p: Pending) {
    && p.seen <= |rows|
    && WellNamed(p.candidate)
    && p.candidate.deletedTime == 0
    && 0 <= p.candidate.slotIndex < MAX_SLOTS
    && p.candidate.slotIndex !in SlotsOf(rows[..p.seen], p.candidate.accountID)
    && forall lower: int :: 0 <= lower < p.candidate.slotIndex ==> lower in SlotsOf(rows, p.candidate.accountID)
  }

  ghost predicate Invariant(sys: System) {
    && Consistent(sys.table)
    && (forall row <- sys.table.rows :: WellNamed(row) && row.deletedTime == 0)
    && (forall a: int :: InitialSegment(sys.table.rows, a))
    && (forall s <- sys.pending :: WellChosen(sys.table.rows, sys.pending[s]))
  }

  lemma ListedSlots(rows: seq<Character>, accountID: int)
    requires forall row <- rows :: row.deletedTime == 0
    ensures UsedSlots(Listing(rows, accountID)) == SlotsOf(rows, accountID)
  {
    ListingShows(rows, accountID);
  }

  lemma SlotsAppend(rows: seq<Character>, row: Character, accountID: int)
    ensures SlotsOf(rows + [row], accountID)
         == SlotsOf(rows, accountID) + if row.accountID == accountID then {row.slotIndex as int} else {}
  {
  }

  lemma TrimmedName(name: Utf16.Text)
    requires ValidName(TrimSpace(name))
    ensures !IsSpace(TrimSpace(name)[0]) && !IsSpace(TrimSpace(name)[|TrimSpace(name)| - 1])
  {
    hide IsSpace;
    var left := TrimLeft(name);
    var trimmed := TrimRight(left);
    assert trimmed[0] == left[..|trimmed|][0] == left[0];
  }

  lemma {:induction false} KeptByList(sys: System, s: nat, q: Request)
    requires Invariant(sys)
    ensures Invariant(Step(sys, List(s, q)))
  {
    hide Choose, WellChosen, Consistent, InitialSegment, WellNamed;
    if Choose(sys.table, q).Ok? && s !in sys.pending {
      JustChosen(sys.table, q);
    }
  }

  /** A slot just chosen from the table is well chosen. */
  lemma JustChosen(t: Table, q: Request)
    requires Choose(t, q).Ok? && forall row <- t.rows :: row.deletedTime == 0
    ensures WellChosen(t.rows, Pending(Choose(t, q).value, |t.rows|))
  {
    ListedSlots(t.rows, q.accountID);
    TrimmedName(q.name);
    assert t.rows[..|t.rows|] == t.rows;
  }

  /** Claiming the next slot extends the account's segment by one, and leaves every other account's alone. */
  lemma ClaimExtends(rows: seq<Character>, p: Pending, row: Character, accountID: int)
    requires WellChosen(rows, p) && InitialSegment(rows, accountID)
    requires row.accountID == p.candidate.accountID && row.slotIndex == p.candidate.slotIndex
    requires row.slotIndex !in SlotsOf(rows, row.accountID)
    ensures InitialSegment(rows + [row], accountID)
  {
    SlotsAppend(rows, row, accountID);
    var k: nat :| k <= MAX_SLOTS && FirstSlots(rows, accountID, k);
    if accountID == row.accountID {
      assert k !in SlotsOf(rows, accountID);
      assert FirstSlots(rows + [row], accountID, k + 1);
    } else {
      assert FirstSlots(rows + [row], accountID, k);
    }
  }

  lemma StillChosen(rows: seq<Character>, row: Character, p: Pending)
    requires WellChosen(rows, p)
    ensures WellChosen(rows + [row], p)
  {
    SlotsAppend(rows, row, p.candidate.accountID);
    assert (rows + [row])[..p.seen] == rows[..p.seen];
  }

  lemma KeptByInsert(sys: System, s: nat, row: Character)
    requires Invariant(sys) && s in sys.pending
    requires SameSlot(row, sys.pending[s].candidate) && !SlotViolated(sys.table.rows, row)
    ensures forall a: int :: InitialSegment(sys.table.rows + [row], a)
    ensures forall s' <- sys.pending :: WellChosen(sys.table.rows + [row], sys.pending[s'])
  {
    var rows := sys.table.rows;
    forall a: int
      ensures InitialSegment(rows + [row], a)
    {
      ClaimExtends(rows, sys.pending[s], row, a);
    }
    forall s' <- sys.pending
      ensures WellChosen(rows + [row], sys.pending[s'])
    {
      StillChosen(rows, row, sys.pending[s']);
    }
  }

  lemma KeptByCreate(sys: System, s: nat, either: Constraint)
    requires Invariant(sys) && s in sys.pending
    ensures Invariant(Step(sys, Create(s, either)))
  {
    hide Consistent, InitialSegment;
    var t, p := sys.table, sys.pending[s];
    InsertKeepsConsistent(t, p.candidate, either);
    var row := p.candidate.(id := t.nextId);
    assert WellChosen(t.rows, p);
    if Violated(t.rows, row, either) == None {
      KeptByInsert(sys, s, row);
    }
  }

  lemma {:induction false} EveryRun(events: seq<Event>)
    ensures Invariant(Run(events))
  {
    if events == [] {
      forall a: int
        ensures InitialSegment([], a)
      {
        assert FirstSlots([], a, 0);
      }
    } else {
      EveryRun(events[..|events| - 1]);
      var sys := Run(events[..|events| - 1]);
      match events[|events| - 1]
      case List(s, q) => KeptByList(sys, s, q);
      case Create(s, either) => if s in sys.pending { KeptByCreate(sys, s, either); }
      case Abandon(s) =>
    }
  }

  /**
   * Whatever lists and creates of however many sessions came before, an account's slots are 0 to k - 1 for some k of
   * at most 3.
   */
  lemma {:induction false} SlotsStayInitial(events: seq<Event>, accountID: int)
    ensures exists k: nat :: k <= 3 && FirstSlots(Run(events).table.rows, accountID, k)
  {
    EveryRun(events);
    assert InitialSegment(Run(events).table.rows, accountID);
  }

  /** No two characters ever share an account and slot, nor a name, nor an id; ids are positive. */
  lemma {:induction false} ConstraintsHold(events: seq<Event>)
    ensures var rows := Run(events).table.rows;
            && (forall i, j :: 0 <= i < j < |rows| ==>
                  && !(rows[i].accountID == rows[j].accountID && rows[i].slotIndex == rows[j].slotIndex)
                  && rows[i].name != rows[j].name
                  && rows[i].id != rows[j].id)
            && (forall row <- rows :: row.id > 0 && row.deletedTime == 0)
  {
    EveryRun(events);
  }

  /** A row for the candidate's account and slot was committed after the candidate was chosen. */
  predicate Raced(rows: seq<Character>, p: Pending) {
    exists i :: p.seen <= i < |rows| && SameSlot(rows[i], p.candidate)
  }

  /** A well-chosen slot is taken exactly when a create that committed since took it. */
  lemma TakenSince(rows: seq<Character>, p: Pending)
    requires WellChosen(rows, p)
    ensures SlotViolated(rows, p.candidate) <==> Raced(rows, p)
  {
    forall i | 0 <= i < p.seen
      ensures !SameSlot(rows[i], p.candidate)
    {
      assert rows[..p.seen][i] == rows[i];
    }
  }

  /** No free slot is what a create is told when the slot is taken, unless a taken name is reported instead. */
  lemma ReportedTaken(t: Table, c: Character, either: Constraint)
    ensures Claim(t, c, either).0 == NoFreeSlot
            <==> SlotViolated(t.rows, c) && (NameViolated(t.rows, c) ==> either == AccountSlot)
  {
    var row := c.(id := t.nextId);
    assert forall r <- t.rows :: SameSlot(r, row) == SameSlot(r, c);
    assert forall r <- t.rows :: SameName(r, row) == SameName(r, c);
  }

  /**
   * A session finds its chosen slot taken exactly when another create for the same account and slot committed after
   * it listed; so a create that directly follows its list never does. That is when it is told there is no free slot,
   * unless its name is taken as well and the database reports that instead.
   */
  lemma {:induction false} SlotTakenIsARace(events: seq<Event>, s: nat, either: Constraint)
    requires s in Run(events).pending
    ensures var t, p := Run(events).table, Run(events).pending[s];
            && (SlotViolated(t.rows, p.candidate) <==> Raced(t.rows, p))
            && (Claim(t, p.candidate, either).0 == NoFreeSlot
                <==> Raced(t.rows, p) && (NameViolated(t.rows, p.candidate) ==> either == AccountSlot))
  {
    hide *;
    EveryRun(events);
    Chosen(Run(events), s);
    TakenSince(Run(events).table.rows, Run(events).pending[s]);
    ReportedTaken(Run(events).table, Run(events).pending[s].candidate, either);
  }

  lemma Chosen(sys: System, s: nat)
    requires Invariant(sys) && s in sys.pending
    ensures WellChosen(sys.table.rows, sys.pending[s])
  {
  }

  /** A creation that no other session gets in between of. */
  function Undisturbed(t: Table, q: Request, either: Constraint): (Outcome, Table) {
    match Choose(t, q)
    case Err(o) => (o, t)
    case Ok(c) => Claim(t, c, either)
  }

  /** The first half of handleCreatePlayer, up to the choice of a slot. */
  method ChooseSlot(db: Database, q: Request) returns (r: Result<Character, Outcome>)
    ensures r == Choose(db.Snapshot(), q)
  {
    var name := TrimSpace(q.name);
    if !(MIN_NAME <= |name| <= MAX_NAME) {
      return Err(InvalidName);
    }
    var listed := db.ListCharacters(q.accountID);
    var slot, ok := FreeSlot(listed);
    return if ok then Ok(Candidate(q, slot)) else Err(NoFreeSlot);
  }

  /** The second half: the insert, which may come after other sessions' inserts, and the result the client is told. */
  method ClaimSlot(db: Database, c: Character, either: Constraint) returns (o: Outcome)
    modifies db
    ensures (o, db.Snapshot()) == Claim(old(db.Snapshot()), c, either)
  {
    var r := db.CreateCharacter(c, either);
    match r {
      case Ok(row) => o := Created(row);
      case Err(NameTaken) => o := DuplicateName;
      case Err(SlotTaken) => o := NoFreeSlot;
    }
  }

  /** handleCreatePlayer, when no other session gets in between. */
  method HandleCreatePlayer(db: Database, q: Request, either: Constraint) returns (o: Outcome)
    modifies db
    ensures (o, db.Snapshot()) == Undisturbed(old(db.Snapshot()), q, either)
  {
    var chosen := ChooseSlot(db, q);
    match chosen {
      case Err(refused) => o := refused;
      case Ok(c) => o := ClaimSlot(db, c, either);
    }
  }

  /**
   * Undisturbed, the outcome tells the state of the table: no free slot means three characters, a duplicate name means
   * that name is in use, and a character that is created gets the slot after the account's last.
   */
  lemma {:induction false} UndisturbedOutcome(events: seq<Event>, q: Request, either: Constraint)
    ensures var t := Run(events).table;
            var (o, t') := Undisturbed(t, q, either);
            var valid := 1 <= |TrimSpace(q.name)| <= 16;
            var full := FirstSlots(t.rows, q.accountID, 3);
            && (ResultCode(o) == 26 <==> !valid)
            && (ResultCode(o) == 55001 <==> valid && full)
            && (ResultCode(o) == 50102 <==> valid && !full && exists row <- t.rows :: row.name == TrimSpace(q.name))
            && (ResultCode(o) == 0 <==> o.Created?)
            && (o.Created? ==> FirstSlots(t.rows, q.accountID, o.row.slotIndex))
            && t'.rows == (if o.Created? then t.rows + [o.row] else t.rows)
            && (o.Created? ==>
                  o.row == Character(t.nextId, q.accountID, o.row.slotIndex, TrimSpace(q.name), q.classType, q.headType,
                                     1, 501, Pose(0, 0, 0, 0), 0))
  {
    CreatedRow(Run(events).table, q, either);
    EveryRun(events);
    var t := Run(events).table;
    ChosenSlot(Run(events), q);
    if Choose(t, q).Ok? {
      var row := Choose(t, q).value.(id := t.nextId);
      assert row.slotIndex !in SlotsOf(t.rows, row.accountID);
      assert !SlotViolated(t.rows, row);
      NameInUse(t.rows, row);
    }
  }

  lemma CreatedRow(t: Table, q: Request, either: Constraint)
    ensures var (o, t') := Undisturbed(t, q, either);
            && t'.rows == (if o.Created? then t.rows + [o.row] else t.rows)
            && (o.Created? ==>
                  o.row == Character(t.nextId, q.accountID, o.row.slotIndex, TrimSpace(q.name), q.classType, q.headType,
                                     1, 501, Pose(0, 0, 0, 0), 0))
  {
    hide TrimSpace, LowestFree, Violated;
  }

  lemma NameInUse(rows: seq<Character>, c: Character)
    requires c.deletedTime == 0 && forall row <- rows :: row.deletedTime == 0
    ensures NameViolated(rows, c) <==> exists row <- rows :: row.name == c.name
  {
    if row :| row in rows && row.name == c.name {
      assert SameName(row, c);
    }
  }

  lemma ChosenSlot(sys: System, q: Request)
    requires Invariant(sys)
    ensures match Choose(sys.table, q)
            case Ok(c) => FirstSlots(sys.table.rows, q.accountID, c.slotIndex)
            case Err(InvalidName) => true
            case Err(o) => o == NoFreeSlot && FirstSlots(sys.table.rows, q.accountID, MAX_SLOTS)
  {
    var rows := sys.table.rows;
    ListedSlots(rows, q.accountID);
    assert InitialSegment(rows, q.accountID);
    var k: nat :| k <= MAX_SLOTS && FirstSlots(rows, q.accountID, k);
    assert forall slot :: 0 <= slot < k ==> slot in SlotsOf(rows, q.accountID);
    assert k !in SlotsOf(rows, q.accountID);
    assert LowestFree(SlotsOf(rows, q.accountID), 0) == if k < MAX_SLOTS then Some(k) else None;
  }
}
