/** Dropping struct layouts: exactly which can be dropped without changing any body that is written or read. */
module PrunedContents {
  import opened Wire
  import opened Schema
  import opened CodecSpec
  import opened CodecValues
  import opened CodecProofs
  import opened CodecInput
  import opened Pruning
  import opened ZeroValues

  // ---------------------------------------------------------------- what the kept tables do, the full ones do too

  /** What can be read over the kept tables is read the same over all of them. */
  lemma {:induction false} ReadBefore(
      cat: Catalog<Type>, s: set<string>, ty: Type, owner: string, fname: string, buf: bytes)
    requires Acyclic(cat) && Acyclic(Prune(cat, s))
    requires DecValue(Prune(cat, s), ty, owner, fname, buf).Some?
    ensures DecValue(cat, ty, owner, fname, buf) == DecValue(Prune(cat, s), ty, owner, fname, buf)
    decreases |buf|, TypeRank(cat, ty), TypeSize(ty), 0
  {
    match ty
    case Prim(_) =>
    case Array(elem) => ItemsReadBefore(cat, s, elem, owner, fname, cat.fixedArrays[SizeKey(owner, fname)], buf);
    case List(inner) =>
      var (n, rest) := TakeUint(4, buf).value;
      ItemsReadBefore(cat, s, inner, owner, fname, n, rest);
    case Named(n) =>
      StructFieldsRank(cat, n);
      FieldsReadBefore(cat, s, cat.structs[n], n, SkipElementPrefix(cat, n, buf).value, map[]);
  }

  lemma {:induction false} ItemsReadBefore(
      cat: Catalog<Type>, s: set<string>, ty: Type, owner: string, fname: string, n: nat, buf: bytes)
    requires Acyclic(cat) && Acyclic(Prune(cat, s))
    requires DecItems(Prune(cat, s), ty, owner, fname, n, buf).Some?
    ensures DecItems(cat, ty, owner, fname, n, buf) == DecItems(Prune(cat, s), ty, owner, fname, n, buf)
    decreases |buf|, TypeRank(cat, ty), TypeSize(ty), n + 1
  {
    if n > 0 {
      ReadBefore(cat, s, ty, owner, fname, buf);
      ItemsReadBefore(cat, s, ty, owner, fname, n - 1, DecValue(cat, ty, owner, fname, buf).value.1);
    }
  }

  lemma {:induction false} FieldsReadBefore(
      cat: Catalog<Type>, s: set<string>, fields: Layout<Type>, owner: string, buf: bytes, acc: Values)
    requires Acyclic(cat) && Acyclic(Prune(cat, s))
    requires DecFields(Prune(cat, s), fields, owner, buf, acc).Some?
    ensures DecFields(cat, fields, owner, buf, acc) == DecFields(Prune(cat, s), fields, owner, buf, acc)
    decreases |buf|, FieldsRank(cat, fields), 0, |fields|
  {
    if fields != [] {
      var f := fields[0];
      ReadBefore(cat, s, f.ftype, owner, f.name, buf);
      var (v, rest) := DecValue(cat, f.ftype, owner, f.name, buf).value;
      FieldsReadBefore(cat, s, fields[1..], owner, rest, acc[f.name := v]);
    }
  }

  /** What can be written over the kept tables is written the same over all of them. */
  lemma {:induction false} WrittenBefore(
      cat: Catalog<Type>, s: set<string>, ty: Type, owner: string, fname: string, v: Value)
    requires EncValue(Prune(cat, s), ty, owner, fname, v).Ok?
    ensures EncValue(cat, ty, owner, fname, v) == EncValue(Prune(cat, s), ty, owner, fname, v)
    decreases v, 1, ty, 0
  {
    match ty
    case Prim(_) =>
    case Array(elem) => ItemsWrittenBefore(cat, s, elem, owner, fname, v.items);
    case List(inner) => ItemsWrittenBefore(cat, s, inner, owner, fname, v.items);
    case Named(n) =>
      FieldsWrittenBefore(cat, s, cat.structs[n], n, v);
      assert ElementPrefix(Prune(cat, s), n) == ElementPrefix(cat, n);
  }

  lemma {:induction false} ItemsWrittenBefore(
      cat: Catalog<Type>, s: set<string>, ty: Type, owner: string, fname: string, items: seq<Value>)
    requires EncItems(Prune(cat, s), ty, owner, fname, items).Ok?
    ensures EncItems(cat, ty, owner, fname, items) == EncItems(Prune(cat, s), ty, owner, fname, items)
    decreases items, 0
  {
    if items != [] {
      WrittenBefore(cat, s, ty, owner, fname, items[0]);
      ItemsWrittenBefore(cat, s, ty, owner, fname, items[1..]);
    }
  }

  lemma {:induction false} FieldsWrittenBefore(
      cat: Catalog<Type>, s: set<string>, fields: Layout<Type>, owner: string, v: Value)
    requires v.Struct? && EncFields(Prune(cat, s), fields, owner, v).Ok?
    ensures EncFields(cat, fields, owner, v) == EncFields(Prune(cat, s), fields, owner, v)
    decreases v, 0, fields
  {
    if fields != [] {
      WrittenBefore(cat, s, fields[0].ftype, owner, fields[0].name, v.fields[fields[0].name]);
      FieldsWrittenBefore(cat, s, fields[1..], owner, v);
    }
  }

  // ---------------------------------------------------------------- enough

  /** A value that fits over all the tables fits over the kept ones, when its type asks only for kept layouts. */
  lemma {:induction false} StillFits(cat: Catalog<Type>, s: set<string>, needed: set<string>, ty: Type, owner: string,
                                     fname: string, v: Value)
    requires Acyclic(cat) && needed <= s && LayoutsAsk(cat, needed, Contents)
    requires Asks(cat, needed, Contents, ty, owner, fname) && Fits(cat, ty, owner, fname, v, Shape)
    ensures Fits(Prune(cat, s), ty, owner, fname, v, Shape)
    decreases v, 1, ty, 0
  {
    match ty
    case Prim(_) =>
    case Array(elem) => if v.items != [] { ItemsStillFit(cat, s, needed, elem, owner, fname, v.items); }
    case List(inner) => ItemsStillFit(cat, s, needed, inner, owner, fname, v.items);
    case Named(n) =>
      FittedIsSized(cat, Named(n), "", "", v, Shape);
      FieldsStillFit(cat, s, needed, cat.structs[n], n, v);
  }

  lemma {:induction false} ItemsStillFit(cat: Catalog<Type>, s: set<string>, needed: set<string>, ty: Type, owner: string,
                                         fname: string, items: seq<Value>)
    requires Acyclic(cat) && needed <= s && LayoutsAsk(cat, needed, Contents)
    requires Asks(cat, needed, Contents, ty, owner, fname) && FitsItems(cat, ty, owner, fname, items, Shape)
    ensures FitsItems(Prune(cat, s), ty, owner, fname, items, Shape)
    decreases items, 0
  {
    if items != [] {
      StillFits(cat, s, needed, ty, owner, fname, items[0]);
      ItemsStillFit(cat, s, needed, ty, owner, fname, items[1..]);
    }
  }

  lemma {:induction false} FieldsStillFit(
      cat: Catalog<Type>, s: set<string>, needed: set<string>, fields: Layout<Type>, owner: string, v: Value)
    requires Acyclic(cat) && needed <= s && LayoutsAsk(cat, needed, Contents)
    requires v.Struct? && FieldsAsk(cat, needed, Contents, fields, owner) && FitsFields(cat, fields, owner, v, Shape)
    ensures FitsFields(Prune(cat, s), fields, owner, v, Shape)
    decreases v, 0, fields
  {
    if fields != [] {
      var f, w := fields[0], v.fields[fields[0].name];
      FittedIsSized(cat, f.ftype, owner, f.name, w, Shape);
      StillFits(cat, s, needed, f.ftype, owner, f.name, w);
      FieldsStillFit(cat, s, needed, fields[1..], owner, v);
    }
  }

  /** A type some bytes can be read as is sized. */
  lemma ReadIsSized(cat: Catalog<Type>, ty: Type, owner: string, fname: string, buf: bytes)
    requires WellFormed(cat) && DecValue(cat, ty, owner, fname, buf).Some?
    ensures Sized(cat, ty, owner, fname)
  {
    var (v, rest) := DecValue(cat, ty, owner, fname, buf).value;
    ValueReencodes(cat, ty, owner, fname, buf, v, rest);
    CanonicalIsNormal(cat, ty, owner, fname, v);
    FittedIsSized(cat, ty, owner, fname, v, Wireable);
  }

  /** What can be read over all the tables is read over the kept ones, when its type asks only for kept layouts. */
  lemma {:induction false} StillRead(cat: Catalog<Type>, s: set<string>, needed: set<string>, ty: Type, owner: string,
                                     fname: string, buf: bytes)
    requires WellFormed(cat) && Acyclic(Prune(cat, s)) && needed <= s && LayoutsAsk(cat, needed, Contents)
    requires Asks(cat, needed, Contents, ty, owner, fname) && DecValue(cat, ty, owner, fname, buf).Some?
    ensures DecValue(Prune(cat, s), ty, owner, fname, buf).Some?
    decreases |buf|, TypeRank(cat, ty), TypeSize(ty), 0
  {
    match ty
    case Prim(_) =>
    case Array(elem) =>
      var size := cat.fixedArrays[SizeKey(owner, fname)];
      if size > 0 {
        ItemsStillRead(cat, s, needed, elem, owner, fname, size, buf);
      }
    case List(inner) =>
      var (n, rest) := TakeUint(4, buf).value;
      ItemsStillRead(cat, s, needed, inner, owner, fname, n, rest);
    case Named(n) =>
      StructRead(cat, n, owner, fname, buf);
      ReadIsSized(cat, Named(n), "", "", buf);
      StructFieldsRank(cat, n);
      FieldsStillRead(cat, s, needed, cat.structs[n], n, SkipElementPrefix(cat, n, buf).value, map[]);
  }

  /** A struct is read the same wherever it stands. */
  lemma StructRead(cat: Catalog<Type>, n: string, owner: string, fname: string, buf: bytes)
    requires Acyclic(cat)
    ensures DecValue(cat, Named(n), owner, fname, buf) == DecValue(cat, Named(n), "", "", buf)
  {
  }

  lemma {:induction false} ItemsStillRead(cat: Catalog<Type>, s: set<string>, needed: set<string>, ty: Type, owner: string,
                                          fname: string, n: nat, buf: bytes)
    requires WellFormed(cat) && Acyclic(Prune(cat, s)) && needed <= s && LayoutsAsk(cat, needed, Contents)
    requires Asks(cat, needed, Contents, ty, owner, fname) && DecItems(cat, ty, owner, fname, n, buf).Some?
    ensures DecItems(Prune(cat, s), ty, owner, fname, n, buf).Some?
    decreases |buf|, TypeRank(cat, ty), TypeSize(ty), n + 1
  {
    if n > 0 {
      StillRead(cat, s, needed, ty, owner, fname, buf);
      ReadBefore(cat, s, ty, owner, fname, buf);
      ItemsStillRead(cat, s, needed, ty, owner, fname, n - 1, DecValue(cat, ty, owner, fname, buf).value.1);
    }
  }

  lemma {:induction false} FieldsStillRead(cat: Catalog<Type>, s: set<string>, needed: set<string>, fields: Layout<Type>,
                                           owner: string, buf: bytes, acc: Values)
    requires WellFormed(cat) && Acyclic(Prune(cat, s)) && needed <= s && LayoutsAsk(cat, needed, Contents)
    requires FieldsAsk(cat, needed, Contents, fields, owner) && DecFields(cat, fields, owner, buf, acc).Some?
    ensures DecFields(Prune(cat, s), fields, owner, buf, acc).Some?
    decreases |buf|, FieldsRank(cat, fields), 0, |fields|
  {
    if fields != [] {
      var f := fields[0];
      ReadIsSized(cat, f.ftype, owner, f.name, buf);
      StillRead(cat, s, needed, f.ftype, owner, f.name, buf);
      ReadBefore(cat, s, f.ftype, owner, f.name, buf);
      var (v, rest) := DecValue(cat, f.ftype, owner, f.name, buf).value;
      FieldsStillRead(cat, s, needed, fields[1..], owner, rest, acc[f.name := v]);
    }
  }

  lemma {:induction false} RunAlike(cat: Catalog<Type>, s: set<string>, needed: set<string>, fields: Layout<Type>,
                                    owner: string, buf: bytes, acc: Values)
    requires WellFormed(cat) && Acyclic(Prune(cat, s)) && needed <= s && LayoutsAsk(cat, needed, Contents)
    requires FieldsAsk(cat, needed, Contents, fields, owner)
    ensures DecRun(Prune(cat, s), fields, owner, buf, acc) == DecRun(cat, fields, owner, buf, acc)
    decreases |fields|
  {
    if fields != [] {
      var f := fields[0];
      if DecValue(cat, f.ftype, owner, f.name, buf).Some? {
        ReadIsSized(cat, f.ftype, owner, f.name, buf);
        StillRead(cat, s, needed, f.ftype, owner, f.name, buf);
        ReadBefore(cat, s, f.ftype, owner, f.name, buf);
        var (v, rest) := DecValue(cat, f.ftype, owner, f.name, buf).value;
        RunAlike(cat, s, needed, fields[1..], owner, rest, acc[f.name := v]);
      } else if DecValue(Prune(cat, s), f.ftype, owner, f.name, buf).Some? {
        ReadBefore(cat, s, f.ftype, owner, f.name, buf);
      }
    }
  }

  // ---------------------------------------------------------------- no less will do

  /** A value the codec can decode to over all the tables, and cannot even encode over the kept ones. */
  ghost predicate Lost(cat: Catalog<Type>, s: set<string>, ty: Type, owner: string, fname: string, v: Value) {
    Canonical(cat, ty, owner, fname, v) && !Fits(Prune(cat, s), ty, owner, fname, v, Shape)
  }

  ghost predicate FieldsLost(cat: Catalog<Type>, s: set<string>, fields: Layout<Type>, owner: string, m: Values) {
    && m.Keys == Names(fields)
    && CanonicalFields(cat, fields, owner, Struct(m))
    && !FitsFields(Prune(cat, s), fields, owner, Struct(m), Shape)
  }

  lemma PruneWellFormed(cat: Catalog<Type>, s: set<string>)
    requires WellFormed(cat)
    ensures WellFormed(Prune(cat, s))
  {
    PruneAcyclic(cat, s);
    assert forall n <- Prune(cat, s).messageFullNames :: cat.KnownElement(n);
  }

  /** The bytes of a lost value are read over all the tables, and over the kept ones not whatever follows them. */
  lemma LostBytes(cat: Catalog<Type>, s: set<string>, ty: Type, owner: string, fname: string, v: Value, rest: bytes)
    requires WellFormed(cat) && Acyclic(Prune(cat, s)) && Lost(cat, s, ty, owner, fname, v)
    ensures EncValue(cat, ty, owner, fname, v).Ok?
    ensures var buf := EncValue(cat, ty, owner, fname, v).value + rest;
            && DecValue(cat, ty, owner, fname, buf) == Some((v, rest))
            && DecValue(Prune(cat, s), ty, owner, fname, buf) == None
  {
    CanonicalIsNormal(cat, ty, owner, fname, v);
    ValueRoundTrip(cat, ty, owner, fname, v, rest);
    var buf := EncValue(cat, ty, owner, fname, v).value + rest;
    if DecValue(Prune(cat, s), ty, owner, fname, buf).Some? {
      ReadBefore(cat, s, ty, owner, fname, buf);
      PruneWellFormed(cat, s);
      ValueReencodes(Prune(cat, s), ty, owner, fname, buf, v, rest);
      ValueEncodes(Prune(cat, s), ty, owner, fname, v);
    }
  }

  lemma {:induction false} RepeatedLost(
      cat: Catalog<Type>, s: set<string>, ty: Type, owner: string, fname: string, n: nat, v: Value)
    requires Lost(cat, s, ty, owner, fname, v)
    ensures CanonicalItems(cat, ty, owner, fname, Repeated(n, v))
    ensures n > 0 ==> !FitsItems(Prune(cat, s), ty, owner, fname, Repeated(n, v), Shape)
  {
    if n > 0 {
      RepeatedLost(cat, s, ty, owner, fname, n - 1, v);
      assert Repeated(n, v)[0] == v && Repeated(n, v)[1..] == Repeated(n - 1, v);
    }
  }

  /** A value lost at a type's leaf, wrapped in the arrays and lists above it, is lost at the type, which is sized. */
  lemma {:induction false} LostAbove(cat: Catalog<Type>, s: set<string>, ty: Type, owner: string, fname: string, v: Value)
    returns (w: Value)
    requires Acyclic(cat) && LooksUp(cat, ty, owner, fname) && Leaf(ty).Some?
    requires Lost(cat, s, Named(Leaf(ty).value), "", "", v)
    ensures Lost(cat, s, ty, owner, fname, w)
  {
    match ty
    case Array(elem) =>
      var size := cat.fixedArrays[SizeKey(owner, fname)];
      var item := LostAbove(cat, s, elem, owner, fname, v);
      RepeatedLost(cat, s, elem, owner, fname, size, item);
      w := Items(Repeated(size, item));
    case List(inner) =>
      var item := LostAbove(cat, s, inner, owner, fname, v);
      RepeatedLost(cat, s, inner, owner, fname, 1, item);
      w := Items(Repeated(1, item));
    case Named(_) => w := v;
  }

  /** Fields do not depend on entries under other names. */
  lemma {:induction false} OtherEntriesFit(
      cat: Catalog<Type>, c: Catalog<Type>, fields: Layout<Type>, owner: string, m: Values, name: string, v: Value)
    requires name !in Names(fields)
    ensures CanonicalFields(cat, fields, owner, Struct(m[name := v])) <==> CanonicalFields(cat, fields, owner, Struct(m))
    ensures FitsFields(c, fields, owner, Struct(m[name := v]), Shape) <==> FitsFields(c, fields, owner, Struct(m), Shape)
    decreases |fields|
  {
    if fields != [] {
      NamesCons(fields);
      OtherEntriesFit(cat, c, fields[1..], owner, m, name, v);
    }
  }

  lemma ConsFields(cat: Catalog<Type>, c: Catalog<Type>, fields: Layout<Type>, owner: string, v: Value, m: Values)
    requires fields != [] && Distinct(fields) && m.Keys == Names(fields[1..])
    ensures var m' := m[fields[0].name := v];
            && m'.Keys == Names(fields)
            && (CanonicalFields(cat, fields, owner, Struct(m')) <==>
                  Canonical(cat, fields[0].ftype, owner, fields[0].name, v)
                  && CanonicalFields(cat, fields[1..], owner, Struct(m)))
            && (FitsFields(c, fields, owner, Struct(m'), Shape) <==>
                  Fits(c, fields[0].ftype, owner, fields[0].name, v, Shape)
                  && FitsFields(c, fields[1..], owner, Struct(m), Shape))
  {
    DistinctTail(fields);
    NamesCons(fields);
    OtherEntriesFit(cat, c, fields[1..], owner, m, fields[0].name, v);
  }

  /** The structs that have values, none of which is lost. */
  ghost function Safe(cat: Catalog<Type>, s: set<string>): set<string>
    requires Acyclic(cat)
  {
    set n | n in cat.structs && Sized(cat, Named(n), "", "") && !exists v :: Lost(cat, s, Named(n), "", "", v)
  }

  lemma AskedIsLost(cat: Catalog<Type>, s: set<string>, ty: Type, owner: string, fname: string) returns (w: Value)
    requires Acyclic(cat) && !Asks(cat, Safe(cat, s), Contents, ty, owner, fname)
    ensures Lost(cat, s, ty, owner, fname, w)
  {
    var leaf :| Lost(cat, s, Named(Leaf(ty).value), "", "", leaf);
    w := LostAbove(cat, s, ty, owner, fname, leaf);
  }

  /** Fields that all have values, one of which asks for a struct with a lost value, have lost values. */
  lemma {:induction false} FieldsLose(cat: Catalog<Type>, s: set<string>, fields: Layout<Type>, owner: string)
    returns (m: Values)
    requires WellFormed(cat) && Distinct(fields) && FieldsSized(cat, fields, owner)
    requires !FieldsAsk(cat, Safe(cat, s), Contents, fields, owner)
    ensures FieldsLost(cat, s, fields, owner, m)
    decreases |fields|
  {
    var f, small := fields[0], Prune(cat, s);
    DistinctTail(fields);
    if !Asks(cat, Safe(cat, s), Contents, f.ftype, owner, f.name) {
      var w := AskedIsLost(cat, s, f.ftype, owner, f.name);
      ZeroOfFields(cat, fields[1..], owner, map[]);
      m := ZeroFields(cat, fields[1..], owner, map[]).value;
      ConsFields(cat, small, fields, owner, w, m);
      m := m[f.name := w];
    } else {
      ZeroOfType(cat, f.ftype, owner, f.name);
      m := FieldsLose(cat, s, fields[1..], owner);
      var w := ZeroValue(cat, f.ftype, owner, f.name).value;
      ConsFields(cat, small, fields, owner, w, m);
      m := m[f.name := w];
    }
  }

  lemma StructLost(cat: Catalog<Type>, s: set<string>, n: string, m: Values)
    requires n in cat.structs && FieldsLost(cat, s, cat.structs[n], n, m)
    ensures Lost(cat, s, Named(n), "", "", Struct(m))
  {
  }

  /** The structs without lost values are kept, and lead only to structs without lost values. */
  lemma SafeIsClosed(cat: Catalog<Type>, s: set<string>)
    requires WellFormed(cat)
    ensures Safe(cat, s) <= s && LayoutsAsk(cat, Safe(cat, s), Contents)
  {
    var safe := Safe(cat, s);
    forall n | n in safe
      ensures n in s
    {
      ZeroOfType(cat, Named(n), "", "");
      assert n in s || Lost(cat, s, Named(n), "", "", ZeroValue(cat, Named(n), "", "").value);
    }
    forall n | n in cat.structs && n in safe
      ensures FieldsAsk(cat, safe, Contents, cat.structs[n], n)
    {
      StructFieldsRank(cat, n);
      if !FieldsAsk(cat, safe, Contents, cat.structs[n], n) {
        var m := FieldsLose(cat, s, cat.structs[n], n);
        StructLost(cat, s, n, m);
      }
    }
  }

  lemma {:induction false} RunKeeps(cat: Catalog<Type>, fields: Layout<Type>, owner: string, buf: bytes, acc: Values)
    requires Acyclic(cat)
    ensures acc.Keys <= DecRun(cat, fields, owner, buf, acc).0.Keys
    decreases |fields|
  {
    if fields != [] && DecValue(cat, fields[0].ftype, owner, fields[0].name, buf).Some? {
      var (v, rest) := DecValue(cat, fields[0].ftype, owner, fields[0].name, buf).value;
      RunKeeps(cat, fields[1..], owner, rest, acc[fields[0].name := v]);
    }
  }

  /** A field read over all the tables only makes the runs differ. */
  lemma RunsPart(cat: Catalog<Type>, s: set<string>, fields: Layout<Type>, owner: string, buf: bytes, acc: Values)
    requires Acyclic(cat) && Acyclic(Prune(cat, s)) && fields != [] && fields[0].name !in acc
    requires DecValue(cat, fields[0].ftype, owner, fields[0].name, buf).Some?
    requires DecValue(Prune(cat, s), fields[0].ftype, owner, fields[0].name, buf).None?
    ensures DecRun(Prune(cat, s), fields, owner, buf, acc) != DecRun(cat, fields, owner, buf, acc)
  {
    var (v, rest) := DecValue(cat, fields[0].ftype, owner, fields[0].name, buf).value;
    RunKeeps(cat, fields[1..], owner, rest, acc[fields[0].name := v]);
  }

  /** Fields that come to ask for a struct with a lost value are read differently from some bytes. */
  lemma {:induction false} RunsDiffer(cat: Catalog<Type>, s: set<string>, fields: Layout<Type>, owner: string, acc: Values)
    returns (buf: bytes)
    requires WellFormed(cat) && Acyclic(Prune(cat, s)) && Distinct(fields) && Names(fields) !! acc.Keys
    requires !FieldsAsk(cat, Safe(cat, s), Contents, fields, owner)
    ensures DecRun(Prune(cat, s), fields, owner, buf, acc) != DecRun(cat, fields, owner, buf, acc)
    decreases |fields|
  {
    var f := fields[0];
    DistinctTail(fields);
    NamesCons(fields);
    if !Asks(cat, Safe(cat, s), Contents, f.ftype, owner, f.name) {
      var w := AskedIsLost(cat, s, f.ftype, owner, f.name);
      LostBytes(cat, s, f.ftype, owner, f.name, w, []);
      buf := EncValue(cat, f.ftype, owner, f.name, w).value + [];
      RunsPart(cat, s, fields, owner, buf, acc);
    } else {
      ZeroOfType(cat, f.ftype, owner, f.name);
      var w := ZeroValue(cat, f.ftype, owner, f.name).value;
      var rest := RunsDiffer(cat, s, fields[1..], owner, acc[f.name := w]);
      CanonicalIsNormal(cat, f.ftype, owner, f.name, w);
      ValueRoundTrip(cat, f.ftype, owner, f.name, w, rest);
      buf := EncValue(cat, f.ftype, owner, f.name, w).value + rest;
      if DecValue(Prune(cat, s), f.ftype, owner, f.name, buf).Some? {
        ReadBefore(cat, s, f.ftype, owner, f.name, buf);
        RunStep(cat, fields, owner, buf, acc);
        RunStep(Prune(cat, s), fields, owner, buf, acc);
      } else {
        RunsPart(cat, s, fields, owner, buf, acc);
      }
    }
  }

  // ---------------------------------------------------------------- exactly

  /** Every layout that reading a body can come to ask for, and find bytes for, is kept. */
  ghost predicate KeepsForReading(cat: Catalog<Type>, s: set<string>)
    requires Acyclic(cat)
  {
    exists needed: set<string> ::
      && needed <= s
      && LayoutsAsk(cat, needed, Contents)
      && forall name <- cat.byName :: MessageAsks(cat, needed, Contents, name)
  }

  /** Every layout that writing some message takes is kept. */
  ghost predicate KeepsForWriting(cat: Catalog<Type>, s: set<string>)
    requires Acyclic(cat)
  {
    exists needed: set<string> ::
      && needed <= s
      && LayoutsAsk(cat, needed, Contents)
      && forall name <- cat.byName :: MessageSized(cat, name) ==> MessageAsks(cat, needed, Contents, name)
  }

  ghost predicate ReadsAlike(cat: Catalog<Type>, s: set<string>)
    requires Acyclic(cat) && Acyclic(Prune(cat, s))
  {
    forall body :: Decode(Prune(cat, s), body) == Decode(cat, body)
  }

  /** The same messages encode, to the same bytes. */
  ghost predicate WritesAlike(cat: Catalog<Type>, s: set<string>) {
    forall name, values, body :: Encode(Prune(cat, s), name, values) == Ok(body) <==> Encode(cat, name, values) == Ok(body)
  }

  lemma KeptReadsAlike(cat: Catalog<Type>, s: set<string>)
    requires WellFormed(cat) && Acyclic(Prune(cat, s)) && KeepsForReading(cat, s)
    ensures ReadsAlike(cat, s)
  {
    var needed: set<string> :|
      && needed <= s
      && LayoutsAsk(cat, needed, Contents)
      && forall name <- cat.byName :: MessageAsks(cat, needed, Contents, name);
    forall body
      ensures Decode(Prune(cat, s), body) == Decode(cat, body)
    {
      if |body| >= 4 {
        ModulusIsPow256(4);
        var opcode := Val(body[..4]);
        if opcode in cat.messages {
          var msg := cat.messages[opcode];
          assert cat.byName[msg.name] == msg;
          assert MessageAsks(cat, needed, Contents, msg.name);
          RunAlike(cat, s, needed, msg.fields, MESSAGE_PREFIX + msg.name, body[4..], map[]);
        }
      }
    }
  }

  lemma MessageWritten(cat: Catalog<Type>, s: set<string>, needed: set<string>, name: string, values: Values)
    requires WellFormed(cat) && needed <= s && LayoutsAsk(cat, needed, Contents)
    requires name in cat.byName ==> MessageSized(cat, name) ==> MessageAsks(cat, needed, Contents, name)
    ensures Encode(cat, name, values).Ok? || Encode(Prune(cat, s), name, values).Ok? ==>
              Encode(Prune(cat, s), name, values) == Encode(cat, name, values)
  {
    if name in cat.byName {
      var msg, m := cat.byName[name], Struct(values);
      var owner := MESSAGE_PREFIX + name;
      assert msg.name == name;
      FieldsEncode(cat, msg.fields, owner, m);
      FieldsEncode(Prune(cat, s), msg.fields, owner, m);
      if EncFields(cat, msg.fields, owner, m).Ok? {
        FittedFieldsAreSized(cat, msg.fields, owner, m, Shape);
        FieldsStillFit(cat, s, needed, msg.fields, owner, m);
      }
      if EncFields(Prune(cat, s), msg.fields, owner, m).Ok? {
        FieldsWrittenBefore(cat, s, msg.fields, owner, m);
      }
    }
  }

  lemma KeptWritesAlike(cat: Catalog<Type>, s: set<string>)
    requires WellFormed(cat) && KeepsForWriting(cat, s)
    ensures WritesAlike(cat, s)
  {
    var needed: set<string> :|
      && needed <= s
      && LayoutsAsk(cat, needed, Contents)
      && forall name <- cat.byName :: MessageSized(cat, name) ==> MessageAsks(cat, needed, Contents, name);
    forall name, values, body
      ensures Encode(Prune(cat, s), name, values) == Ok(body) <==> Encode(cat, name, values) == Ok(body)
    {
      MessageWritten(cat, s, needed, name, values);
    }
  }

  /** Over the kept tables Decode does the same on every body if and only if every layout reading can need is kept. */
  lemma ReadExactly(cat: Catalog<Type>, s: set<string>)
    requires WellFormed(cat)
    ensures Acyclic(Prune(cat, s))
    ensures ReadsAlike(cat, s) <==> KeepsForReading(cat, s)
  {
    PruneAcyclic(cat, s);
    if KeepsForReading(cat, s) {
      KeptReadsAlike(cat, s);
    }
    if ReadsAlike(cat, s) {
      SafeIsClosed(cat, s);
      forall name | name in cat.byName
        ensures MessageAsks(cat, Safe(cat, s), Contents, name)
      {
        if !MessageAsks(cat, Safe(cat, s), Contents, name) {
          MessageDistinct(cat, name);
          var buf := RunsDiffer(cat, s, cat.byName[name].fields, MESSAGE_PREFIX + name, map[]);
          BodiesDiffer(cat, s, name, buf);
        }
      }
    }
  }

  lemma BodiesDiffer(cat: Catalog<Type>, s: set<string>, name: string, buf: bytes)
    requires WellFormed(cat) && Acyclic(Prune(cat, s)) && name in cat.byName
    requires var msg := cat.byName[name];
             var owner := MESSAGE_PREFIX + name;
             DecRun(Prune(cat, s), msg.fields, owner, buf, map[]) != DecRun(cat, msg.fields, owner, buf, map[])
    ensures !ReadsAlike(cat, s)
  {
    var body := LE(4, cat.byName[name].id) + buf;
    PruneWellFormed(cat, s);
    DecodeBody(cat, name, buf);
    DecodeBody(Prune(cat, s), name, buf);
    assert Decode(Prune(cat, s), body) != Decode(cat, body);
  }

  /** Over the kept tables the same messages encode to the same bytes if and only if every layout writing needs is kept. */
  lemma WrittenExactly(cat: Catalog<Type>, s: set<string>)
    requires WellFormed(cat)
    ensures WritesAlike(cat, s) <==> KeepsForWriting(cat, s)
  {
    if KeepsForWriting(cat, s) {
      KeptWritesAlike(cat, s);
    }
    if WritesAlike(cat, s) {
      SafeIsClosed(cat, s);
      forall name | name in cat.byName && MessageSized(cat, name)
        ensures MessageAsks(cat, Safe(cat, s), Contents, name)
      {
        if !MessageAsks(cat, Safe(cat, s), Contents, name) {
          MessageDistinct(cat, name);
          var m := FieldsLose(cat, s, cat.byName[name].fields, MESSAGE_PREFIX + name);
          LostMessage(cat, s, name, m);
        }
      }
    }
  }

  lemma LostMessage(cat: Catalog<Type>, s: set<string>, name: string, m: Values)
    requires WellFormed(cat) && name in cat.byName && cat.byName[name].name == name
    requires FieldsLost(cat, s, cat.byName[name].fields, MESSAGE_PREFIX + name, m)
    ensures !WritesAlike(cat, s)
  {
    CanonicalFieldsNormal(cat, cat.byName[name].fields, MESSAGE_PREFIX + name, Struct(m), map[]);
    FieldsEncodable(cat, name, m);
    EncodeSucceedsIff(Prune(cat, s), name, m);
    var body := Encode(cat, name, m).value;
    assert Encode(Prune(cat, s), name, m) != Ok(body);
  }

  lemma FieldsEncodable(cat: Catalog<Type>, name: string, m: Values)
    requires WellFormed(cat) && FitsMessage(cat, name, m, Wireable)
    ensures Encode(cat, name, m).Ok?
  {
    RoundTrip(cat, name, m, []);
  }

  // ---------------------------------------------------------------- how the three compare

  lemma {:induction false} FieldsAskLess(cat: Catalog<Type>, needed: set<string>, fields: Layout<Type>, owner: string)
    requires Acyclic(cat) && FieldsAsk(cat, needed, Errors, fields, owner)
    ensures FieldsAsk(cat, needed, Contents, fields, owner)
    decreases |fields|
  {
    if fields != [] && Sized(cat, fields[0].ftype, owner, fields[0].name) {
      FieldsAskLess(cat, needed, fields[1..], owner);
    }
  }

  /** Layouts enough for Encode to report the same errors are enough for reading, and those are enough for writing. */
  lemma FromErrorsToWriting(cat: Catalog<Type>, s: set<string>)
    requires Acyclic(cat)
    ensures KeepsForErrors(cat, s) ==> KeepsForReading(cat, s)
    ensures KeepsForReading(cat, s) ==> KeepsForWriting(cat, s)
  {
    if needed: set<string> :|
      needed <= s && LayoutsAsk(cat, needed, Errors) && forall name <- cat.byName :: MessageAsks(cat, needed, Errors, name)
    {
      forall name | name in cat.byName
        ensures MessageAsks(cat, needed, Contents, name)
      {
        FieldsAskLess(cat, needed, cat.byName[name].fields, MESSAGE_PREFIX + name);
      }
      forall n | n in cat.structs && n in needed
        ensures FieldsAsk(cat, needed, Contents, cat.structs[n], n)
      {
        FieldsAskLess(cat, needed, cat.structs[n], n);
      }
      assert LayoutsAsk(cat, needed, Contents);
    }
  }
}
