/** The tables the catalog compiler emits, which hold only the layouts it reaches. */
module Emitted {
  import opened Wire
  import opened Schema
  import opened TypeNames
  import opened CodecSpec
  import opened CodecProofs
  import opened PrunedContents
  import opened Pruning
  import opened Reachability

  // ---------------------------------------------------------------- the compiler's reachable set

  predicate Plain(ty: Type) {
    ty.Prim? || ty.Named?
  }

  /** The shapes collectReachable sees through: X, X[], List<X> and List<X>[]. */
  predicate Simple(ty: Type) {
    match ty
    case Prim(_) => true
    case Named(_) => true
    case List(inner) => Plain(inner)
    case Array(elem) => Plain(elem) || (elem.List? && Plain(elem.inner))
  }

  ghost predicate FieldsSimple(fields: Layout<string>) {
    forall i :: 0 <= i < |fields| ==> Simple(ParseType(fields[i].ftype))
  }

  /** Apart from the bare prefix itself, the compiler and the codec agree on what a list type looks like. */
  lemma ListTestsAgree(b: string)
    requires b != LIST_PREFIX
    ensures StartsWithList(b) <==> HasListPrefix(b)
  {
    if |b| == |LIST_PREFIX| {
      assert b[..|b|] == b;
    }
  }

  lemma PeeledName(b: string)
    requires b != LIST_PREFIX
    requires ParseType(b).Named? || (ParseType(b).List? && ParseType(b).inner.Named?)
    ensures Leaf(ParseType(b)) == Some(if StartsWithList(b) then b[|LIST_PREFIX|..|b| - 1] else b)
  {
    ListTestsAgree(b);
    ParseShape(b);
    if HasListPrefix(b) {
      ParseShape(InnerOf(b));
    }
  }

  /** On a simple type the compiler strips the string down to the very struct the codec will look up. */
  lemma SimpleBaseName(t: string)
    requires Peels(t) && Simple(ParseType(t)) && Leaf(ParseType(t)).Some?
    ensures Leaf(ParseType(t)) == Some(BaseName(t))
  {
    ParseShape(t);
    PeeledName(WithoutArray(t));
  }

  /** On fields of simple types, what the compiler marks is what the codec asks for. */
  lemma {:induction false} MarkedFieldsAsk(cat: Catalog<string>, s: set<string>, fields: Layout<string>, owner: string)
    requires Acyclic(Read(cat))
    requires FieldsPeel(fields) && FieldsSimple(fields) && FieldsMark(cat.structs, fields, s)
    ensures FieldsAsk(Read(cat), s, Errors, ReadLayout(fields), owner)
    decreases |fields|
  {
    if fields != [] {
      var t := fields[0].ftype;
      assert Marks(cat.structs, t, s);
      if Leaf(ParseType(t)).Some? {
        SimpleBaseName(t);
      }
      assert ReadLayout(fields)[1..] == ReadLayout(fields[1..]);
      assert forall i :: 0 <= i < |fields| - 1 ==> fields[1..][i] == fields[i + 1];
      MarkedFieldsAsk(cat, s, fields[1..], owner);
    }
  }

  lemma ReadPrune(cat: Catalog<string>, s: set<string>)
    ensures Read(Prune(cat, s)) == Prune(Read(cat), s)
  {
    assert Read(Prune(cat, s)).structs == Prune(Read(cat), s).structs;
  }

  /** The layouts of all messages, which the compiler collects from. */
  ghost predicate MessageRoots(cat: Catalog<string>, roots: seq<Layout<string>>) {
    && (forall id <- cat.messages :: cat.messages[id].fields in roots)
    && (forall n <- cat.byName :: cat.byName[n].fields in roots)
  }

  /**
   * The emitted tables read every body as the full ones do, write the same messages as the same bytes, and report the
   * same errors besides, each if and only if they keep the layouts it takes.
   */
  lemma EmittedExactly(cat: Catalog<string>, s: set<string>)
    requires WellFormed(Read(cat))
    ensures Acyclic(Read(Prune(cat, s)))
    ensures (forall body :: Decode(Read(Prune(cat, s)), body) == Decode(Read(cat), body))
       <==> KeepsForReading(Read(cat), s)
    ensures (forall name, values, body ::
               Encode(Read(Prune(cat, s)), name, values) == Ok(body) <==> Encode(Read(cat), name, values) == Ok(body))
       <==> KeepsForWriting(Read(cat), s)
    ensures (forall name, values :: Encode(Read(Prune(cat, s)), name, values) == Encode(Read(cat), name, values))
       <==> KeepsForErrors(Read(cat), s)
  {
    ReadPrune(cat, s);
    ReadExactly(Read(cat), s);
    WrittenExactly(Read(cat), s);
    ErrorsExactly(Read(cat), s);
  }

  /**
   * If every field of every message and of every kept layout has a simple type, then over the tables with only
   * the reachable structs the codec encodes every message and decodes every body as it does over the full tables.
   */
  lemma PruningPreserves(cat: Catalog<string>, roots: seq<Layout<string>>, s: set<string>)
    requires WellFormed(Read(cat)) && MessageRoots(cat, roots)
    requires AllPeel(cat.structs) && forall i :: 0 <= i < |roots| ==> FieldsPeel(roots[i])
    requires IsReachable(cat.structs, roots, s)
    requires forall i :: 0 <= i < |roots| ==> FieldsSimple(roots[i])
    requires forall n <- s :: FieldsSimple(cat.structs[n])
    ensures Acyclic(Read(Prune(cat, s)))
    ensures forall name, values :: Encode(Read(Prune(cat, s)), name, values) == Encode(Read(cat), name, values)
    ensures forall body :: Decode(Read(Prune(cat, s)), body) == Decode(Read(cat), body)
  {
    var full := Read(cat);
    forall name | name in full.byName
      ensures MessageAsks(full, s, Errors, name)
    {
      MarkedFieldsAsk(cat, s, cat.byName[name].fields, MESSAGE_PREFIX + name);
    }
    forall n | n in full.structs && n in s
      ensures FieldsAsk(full, s, Errors, full.structs[n], n)
    {
      MarkedFieldsAsk(cat, s, cat.structs[n], n);
    }
    assert LayoutsAsk(full, s, Errors) && forall name <- full.byName :: MessageAsks(full, s, Errors, name);
    FromErrorsToWriting(full, s);
    EmittedExactly(cat, s);
  }

  // ---------------------------------------------------------------- a shape the compiler does not see through

  /** A message with one field of type X[][], whose leaf X is an empty struct. */
  function NestedArrays(): Catalog<string> {
    var m := Message("M", "S2C", 0, [Field("f", "X[][]")]);
    Catalog(map[0 := m], map["M" := m], map["X" := []], map["Protocol.M|f" := 1], {})
  }

  lemma PrimitivesLong(t: string)
    requires t in PRIMITIVES
    ensures |t| > 5
  {
  }

  /** Names this short are neither primitives nor lists. */
  lemma ShortName(t: string)
    requires |t| <= 5
    ensures t !in PRIMITIVES && !StartsWithList(t) && !HasListPrefix(t)
    ensures ParseType(t) == if HasArraySuffix(t) then Array(ParseType(ElemOf(t))) else Named(t)
  {
    if t in PRIMITIVES {
      PrimitivesLong(t);
    }
  }

  lemma NestedType()
    ensures ParseType("X[][]") == Array(Array(Named("X")))
    ensures Peels("X[][]") && BaseName("X[][]") == "X[]"
  {
    var t := "X[][]";
    ShortName(t);
    assert t[3..] == "[]";
    assert ElemOf(t) == "X[]";
    ShortName(ElemOf(t));
    assert ElemOf(t)[1..] == "[]";
    assert ElemOf(ElemOf(t)) == "X";
    ShortName("X");
  }

  lemma OneItem(cat: Catalog<Type>, ty: Type, owner: string, fname: string, v: Value, buf: bytes)
    requires Acyclic(cat)
    requires DecValue(cat, ty, owner, fname, buf) == Some((v, buf))
    ensures DecItems(cat, ty, owner, fname, 1, buf) == Some(([v], buf))
  {
    DecItemsCons(cat, ty, owner, fname, 1, buf, v, buf, [], buf);
    assert [v] + [] == [v];
  }

  lemma NestedField(cat: Catalog<Type>, owner: string, fname: string, buf: bytes)
    requires Acyclic(cat)
    requires "X" in cat.structs && cat.structs["X"] == [] && "X" !in cat.messageFullNames
    requires SizeKey(owner, fname) in cat.fixedArrays && cat.fixedArrays[SizeKey(owner, fname)] == 1
    ensures DecValue(cat, Array(Array(Named("X"))), owner, fname, buf) == Some((Items([Items([Struct(map[])])]), buf))
  {
    assert DecFields(cat, [], "X", buf, map[]) == Some((map[], buf));
    assert DecValue(cat, Named("X"), owner, fname, buf) == Some((Struct(map[]), buf));
    OneItem(cat, Named("X"), owner, fname, Struct(map[]), buf);
    OneItem(cat, Array(Named("X")), owner, fname, Items([Struct(map[])]), buf);
  }

  lemma DroppedField(cat: Catalog<Type>, owner: string, fname: string, buf: bytes)
    requires Acyclic(cat)
    requires "X" !in cat.structs
    requires SizeKey(owner, fname) in cat.fixedArrays && cat.fixedArrays[SizeKey(owner, fname)] == 1
    ensures DecValue(cat, Array(Array(Named("X"))), owner, fname, buf) == None
  {
    assert DecValue(cat, Named("X"), owner, fname, buf) == None;
    assert DecItems(cat, Named("X"), owner, fname, 1, buf) == None;
    assert DecItems(cat, Array(Named("X")), owner, fname, 1, buf) == None;
  }

  lemma NestedAcyclic()
    ensures Acyclic(Read(NestedArrays())) && Acyclic(Read(Prune(NestedArrays(), {})))
  {
    hide ParseType;
    var full := Read(NestedArrays());
    assert full.structs["X"] == [];
    assert RankedBy(full, map["X" := 0]);
    ReadPrune(NestedArrays(), {});
    PruneAcyclic(full, {});
  }

  lemma NestedReachesNothing()
    ensures Peels("X[][]")
    ensures IsReachable(NestedArrays().structs, [[Field("f", "X[][]")]], {})
  {
    NestedType();
    var structs := NestedArrays().structs;
    assert "X[]" != "X";
    assert FieldsMark(structs, [Field("f", "X[][]")], {});
  }

  /** The one run the two catalogs disagree on. */
  lemma NestedDecode(cat: Catalog<Type>, body: bytes)
    requires Acyclic(cat) && body == [0, 0, 0, 0]
    requires 0 in cat.messages
    requires cat.messages[0] == Message("M", "S2C", 0, [Field("f", Array(Array(Named("X"))))])
    ensures Decode(cat, body)
         == match DecValue(cat, Array(Array(Named("X"))), MESSAGE_PREFIX + "M", "f", [])
            case None => Decoded("M", map[], [])
            case Some((v, rest)) => Decoded("M", map["f" := v], rest)
  {
    assert Val([0, 0, 0, 0]) == 0 by {
      assert Val([0]) == 0 && Val([0, 0]) == 0 && Val([0, 0, 0]) == 0;
    }
    assert body[..4] == [0, 0, 0, 0] && body[4..] == [];
    var fields := cat.messages[0].fields;
    assert fields[1..] == [];
  }

  lemma NestedCatalogs()
    ensures var full := Read(NestedArrays());
            var small := Read(Prune(NestedArrays(), {}));
            var msg := Message("M", "S2C", 0, [Field("f", Array(Array(Named("X"))))]);
            && full.messages == small.messages == map[0 := msg]
            && full.structs == map["X" := []]
            && small.structs == map[]
            && full.messageFullNames == small.messageFullNames == {}
            && full.fixedArrays == small.fixedArrays == map[SizeKey(MESSAGE_PREFIX + "M", "f") := 1]
  {
    hide ParseType;
    NestedType();
    assert SizeKey(MESSAGE_PREFIX + "M", "f") == "Protocol.M|f";
    assert ReadLayout([Field("f", "X[][]")]) == [Field("f", Array(Array(Named("X"))))];
  }

  /**
   * Outside those shapes pruning can change what the codec reads: from X[][] the compiler reaches nothing, so X
   * is dropped, and a body the full tables decode completely loses its field.
   */
  lemma NestedArraysNotPreserved()
    ensures Acyclic(Read(NestedArrays())) && Acyclic(Read(Prune(NestedArrays(), {})))
    ensures Peels("X[][]") && IsReachable(NestedArrays().structs, [[Field("f", "X[][]")]], {})
    ensures Decode(Read(NestedArrays()), [0, 0, 0, 0])
         == Decoded("M", map["f" := Items([Items([Struct(map[])])])], [])
    ensures Decode(Read(Prune(NestedArrays(), {})), [0, 0, 0, 0]) == Decoded("M", map[], [])
  {
    NestedAcyclic();
    NestedReachesNothing();
    NestedCatalogs();
    var full, small := Read(NestedArrays()), Read(Prune(NestedArrays(), {}));
    NestedDecode(full, [0, 0, 0, 0]);
    NestedDecode(small, [0, 0, 0, 0]);
    NestedField(full, MESSAGE_PREFIX + "M", "f", []);
    DroppedField(small, MESSAGE_PREFIX + "M", "f", []);
  }
}
