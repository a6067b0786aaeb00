/** The message catalog: field types, layouts and the tables the codec interprets. */
module Schema {
  import opened Wire

  datatype Primitive =
    | Integer(width: Width, signed: bool)
    | Boolean
    | Single
    | Double
    | String
    | CharArray

  /** The structure the codec sees in a field's type. */
  datatype Type =
    | Prim(p: Primitive)
    | Array(elem: Type)
    | List(inner: Type)
    | Named(name: string)

  datatype Field<T> = Field(name: string, ftype: T)

  type Layout<T> = seq<Field<T>>

  type Opcode = x: int | 0 <= x < 0x1_0000_0000

  datatype Message<T> = Message(name: string, dir: string, id: Opcode, fields: Layout<T>)

  const MESSAGE_PREFIX: string := "Protocol."

  /** The codec's tables, with field types either as strings or already read into Type. */
  datatype Catalog<T> = Catalog(
    messages: map<Opcode, Message<T>>,
    byName: map<string, Message<T>>,
    structs: map<string, Layout<T>>,
    fixedArrays: map<string, nat>,
    messageFullNames: set<string>)
  {
    /** Both indexes list the same messages, each under its own opcode and its own name. */
    ghost predicate Indexed() {
      && (forall id <- messages ::
            && messages[id].id == id
            && messages[id].name in byName
            && byName[messages[id].name] == messages[id])
      && (forall n <- byName ::
            && byName[n].name == n
            && byName[n].id in messages
            && messages[byName[n].id] == byName[n])
    }

    /** Every struct marked as a message used as an element is the full name of a known message. */
    ghost predicate ElementsKnown() {
      forall n <- messageFullNames :: KnownElement(n)
    }

    predicate KnownElement(n: string) {
      |n| >= |MESSAGE_PREFIX| && n[|MESSAGE_PREFIX|..] in byName
    }

    ghost predicate DistinctFields() {
      && (forall n <- structs :: Distinct(structs[n]))
      && (forall id <- messages :: Distinct(messages[id].fields))
    }
  }

  ghost predicate Distinct<T>(fields: Layout<T>) {
    forall i, j :: 0 <= i < j < |fields| ==> fields[i].name != fields[j].name
  }

  function SizeKey(owner: string, fname: string): string {
    owner + "|" + fname
  }

  // ---------------------------------------------------------------- containment

  /** The struct a type contains without an intervening list. */
  function Direct(ty: Type): Option<string> {
    match ty
    case Prim(_) => None
    case Array(elem) => Direct(elem)
    case List(_) => None
    case Named(n) => Some(n)
  }

  /** No struct contains itself other than through a list. */
  ghost predicate Acyclic(cat: Catalog<Type>) {
    exists rank: map<string, nat> :: RankedBy(cat, rank)
  }

  ghost predicate RankedBy(cat: Catalog<Type>, rank: map<string, nat>) {
    forall n <- cat.structs :: n in rank && forall f <- cat.structs[n] :: RankBelow(cat, rank, f, rank[n])
  }

  ghost predicate RankBelow(cat: Catalog<Type>, rank: map<string, nat>, f: Field<Type>, bound: nat) {
    var d := Direct(f.ftype);
    d.Some? && d.value in cat.structs && d.value in rank ==> rank[d.value] < bound
  }

  ghost predicate WellFormed(cat: Catalog<Type>) {
    cat.Indexed() && cat.ElementsKnown() && cat.DistinctFields() && Acyclic(cat)
  }

  lemma MessageDistinct(cat: Catalog<Type>, name: string)
    requires WellFormed(cat) && name in cat.byName
    ensures Distinct(cat.byName[name].fields) && cat.byName[name].name == name
  {
    assert cat.messages[cat.byName[name].id] == cat.byName[name];
  }
}
