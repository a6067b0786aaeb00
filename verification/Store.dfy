/** The characters table: what listing and inserting come to, and the table updated in place. */
module Store {
  import opened Wire
  import Utf16

  type Int32 = i: int | -0x8000_0000 <= i < 0x8000_0000

  /** Map position and facing, as IEEE bit patterns. */
  datatype Pose = Pose(x: nat, y: nat, z: nat, dir: nat)

  datatype Character = Character(
    id: int, accountID: int, slotIndex: Int32, name: Utf16.Text, classType: Int32, headType: Int32, level: Int32,
    mapID: Int32, pose: Pose, deletedTime: int)

  datatype Constraint = NameActive | AccountSlot

  datatype StoreError = NameTaken | SlotTaken

  /** uniqueViolation: the store's error for a violated constraint. */
  function UniqueViolation(c: Constraint): StoreError {
    match c
    case NameActive => NameTaken
    case AccountSlot => SlotTaken
  }

  /** The rows of the table in the order they were committed, and the next serial id. */
  datatype Table = Table(rows: seq<Character>, nextId: int)

  predicate Shown(row: Character, accountID: int) {
    row.accountID == accountID && row.deletedTime == 0
  }

  function InsertBySlot(row: Character, listed: seq<Character>): seq<Character> {
    if listed == [] || row.slotIndex <= listed[0].slotIndex then [row] + listed
    else [listed[0]] + InsertBySlot(row, listed[1..])
  }

  /** ListCharacters: the account's characters that are not deleted, ordered by slot. */
  function Listing(rows: seq<Character>, accountID: int): seq<Character> {
    if rows == [] then []
    else
      var listed := Listing(rows[..|rows| - 1], accountID);
      var last := rows[|rows| - 1];
      if Shown(last, accountID) then InsertBySlot(last, listed) else listed
  }

  predicate BySlot(listed: seq<Character>) {
    forall i, j :: 0 <= i < j < |listed| ==> listed[i].slotIndex <= listed[j].slotIndex
  }

  lemma {:induction false} InsertKeeps(row: Character, listed: seq<Character>)
    requires BySlot(listed)
    ensures var r := InsertBySlot(row, listed);
            BySlot(r) && multiset(r) == multiset(listed) + multiset{row}
  {
    if listed != [] && row.slotIndex > listed[0].slotIndex {
      InsertKeeps(row, listed[1..]);
      assert listed == [listed[0]] + listed[1..];
      InsertedAbove(row, listed[1..], InsertBySlot(row, listed[1..]), listed[0]);
    }
  }

  /** What is inserted above first, into a listing above it, stays above it. */
  lemma InsertedAbove(row: Character, rest: seq<Character>, r: seq<Character>, first: Character)
    requires BySlot([first] + rest) && first.slotIndex < row.slotIndex
    requires BySlot(r) && multiset(r) == multiset(rest) + multiset{row}
    ensures BySlot([first] + r)
  {
    forall c <- r
      ensures first.slotIndex <= c.slotIndex
    {
      assert c in multiset(r);
      if c != row {
        assert c in rest;
        var k :| 0 <= k < |rest| && rest[k] == c;
        assert ([first] + rest)[0] == first && ([first] + rest)[k + 1] == c;
      }
    }
    ConsBySlot(first, r);
  }

  lemma ConsBySlot(first: Character, r: seq<Character>)
    requires BySlot(r) && forall c <- r :: first.slotIndex <= c.slotIndex
    ensures BySlot([first] + r)
  {
  }

  /** The rows a listing shows. */
  function ShownRows(rows: seq<Character>, accountID: int): multiset<Character> {
    if rows == [] then multiset{}
    else
      var rest := ShownRows(rows[..|rows| - 1], accountID);
      var last := rows[|rows| - 1];
      if Shown(last, accountID) then rest + multiset{last} else rest
  }

  /** A listing shows exactly the account's live rows, each once, in slot order. */
  lemma {:induction false} ListingShows(rows: seq<Character>, accountID: int)
    ensures BySlot(Listing(rows, accountID))
    ensures multiset(Listing(rows, accountID)) == ShownRows(rows, accountID)
    ensures forall c :: c in Listing(rows, accountID) <==> c in rows && c.accountID == accountID && c.deletedTime == 0
  {
    if rows != [] {
      var front, last := rows[..|rows| - 1], rows[|rows| - 1];
      ListingShows(front, accountID);
      assert rows == front + [last];
      if Shown(last, accountID) {
        var listed := Listing(front, accountID);
        InsertKeeps(last, listed);
        forall c
          ensures c in InsertBySlot(last, listed) <==> c in listed || c == last
        {
          assert c in multiset(InsertBySlot(last, listed)) <==> c in multiset(listed) || c == last;
        }
      }
    }
  }

  predicate SameSlot(row: Character, c: Character) {
    row.accountID == c.accountID && row.slotIndex == c.slotIndex
  }

  predicate SameName(row: Character, c: Character) {
    row.deletedTime == c.deletedTime == 0 && row.name == c.name
  }

  predicate SlotViolated(rows: seq<Character>, c: Character) {
    exists row <- rows :: SameSlot(row, c)
  }

  predicate NameViolated(rows: seq<Character>, c: Character) {
    exists row <- rows :: SameName(row, c)
  }

  /** The constraint the database reports; when both are violated it may report either. */
  function Violated(rows: seq<Character>, c: Character, either: Constraint): Option<Constraint> {
    if SlotViolated(rows, c) && NameViolated(rows, c) then Some(either)
    else if SlotViolated(rows, c) then Some(AccountSlot)
    else if NameViolated(rows, c) then Some(NameActive)
    else None
  }

  /** CreateCharacter, as one step: a serial id is drawn even when the insert is refused. */
  function Insert(t: Table, c: Character, either: Constraint): (Result<Character, StoreError>, Table) {
    var row := c.(id := t.nextId);
    match Violated(t.rows, row, either)
    case Some(constraint) => (Err(UniqueViolation(constraint)), t.(nextId := t.nextId + 1))
    case None => (Ok(row), Table(t.rows + [row], t.nextId + 1))
  }

  /** What the constraints and the serial ids keep true of the table. */
  ghost predicate Consistent(t: Table) {
    && (forall i, j :: 0 <= i < j < |t.rows| ==> !SameSlot(t.rows[i], t.rows[j]))
    && (forall i, j :: 0 <= i < j < |t.rows| ==> !SameName(t.rows[i], t.rows[j]))
    && (forall i, j :: 0 <= i < j < |t.rows| ==> t.rows[i].id != t.rows[j].id)
    && (forall row <- t.rows :: 0 < row.id < t.nextId) && 0 < t.nextId
  }

  lemma InsertKeepsConsistent(t: Table, c: Character, either: Constraint)
    requires Consistent(t)
    ensures Consistent(Insert(t, c, either).1)
  {
    var row := c.(id := t.nextId);
    if Violated(t.rows, row, either) == None {
      forall i | 0 <= i < |t.rows|
        ensures !SameSlot(t.rows[i], row) && !SameName(t.rows[i], row) && t.rows[i].id < row.id
      {
        assert t.rows[i] in t.rows;
      }
    }
  }

  class Database {
    var rows: seq<Character>
    var nextId: int

    ghost function Snapshot(): Table
      reads this
    {
      Table(rows, nextId)
    }

    constructor ()
      ensures Snapshot() == Table([], 1)
    {
      rows := [];
      nextId := 1;
    }

    method ListCharacters(accountID: int) returns (listed: seq<Character>)
      ensures listed == Listing(rows, accountID)
    {
      listed := [];
      for i := 0 to |rows|
        invariant listed == Listing(rows[..i], accountID)
      {
        assert rows[..i + 1][..i] == rows[..i];
        if Shown(rows[i], accountID) {
          listed := InsertBySlot(rows[i], listed);
        }
      }
      assert rows[..|rows|] == rows;
    }

    /** One statement: the insert with its constraints checked and its id returned. */
    method CreateCharacter(c: Character, either: Constraint) returns (r: Result<Character, StoreError>)
      modifies this
      ensures (r, Snapshot()) == Insert(old(Snapshot()), c, either)
      ensures nextId == old(nextId) + 1 && rows == old(rows) + if r.Ok? then [r.value] else []
      ensures r.Ok? ==> r.value == c.(id := old(nextId))
    {
      var row := c.(id := nextId);
      nextId := nextId + 1;
      var violated := Violated(rows, row, either);
      if violated.Some? {
        return Err(UniqueViolation(violated.value));
      }
      rows := rows + [row];
      return Ok(row);
    }
  }
}
