/** Dropping struct layouts: exactly which can be dropped without changing what the codec writes or reads. */
module Pruning {
  import opened Wire
  import opened Schema
  import opened CodecSpec
  import opened CodecValues
  import opened CodecInput
  import opened ZeroValues

  /** The catalog as the compiler emits it: only the structs in s, and only those message names. */
  function Prune<T>(cat: Catalog<T>, s: set<string>): Catalog<T> {
    cat.(structs := map n | n in cat.structs && n in s :: cat.structs[n],
         messageFullNames := cat.messageFullNames * s)
  }

  /** The struct name under any arrays and lists. */
  function Leaf(ty: Type): Option<string> {
    match ty
    case Prim(_) => None
    case Array(elem) => Leaf(elem)
    case List(inner) => Leaf(inner)
    case Named(n) => Some(n)
  }

  lemma PruneAcyclic(cat: Catalog<Type>, s: set<string>)
    requires Acyclic(cat)
    ensures Acyclic(Prune(cat, s))
  {
    var rank :| RankedBy(cat, rank);
    var small := Prune(cat, s);
    forall n | n in small.structs
      ensures n in rank && forall f <- small.structs[n] :: RankBelow(small, rank, f, rank[n])
    {
      assert forall f <- cat.structs[n] :: RankBelow(cat, rank, f, rank[n]);
    }
    assert RankedBy(small, rank);
  }

  // ---------------------------------------------------------------- which layouts the codec asks for

  /** Some value of the type makes the codec look up the struct at its leaf: no array above it is unsized or empty. */
  predicate LooksUp(cat: Catalog<Type>, ty: Type, owner: string, fname: string) {
    match ty
    case Prim(_) => false
    case Array(elem) =>
      var key := SizeKey(owner, fname);
      key in cat.fixedArrays && cat.fixedArrays[key] > 0 && LooksUp(cat, elem, owner, fname)
    case List(inner) => LooksUp(cat, inner, owner, fname)
    case Named(_) => true
  }

  /** What of the codec's behaviour is to stay: every error Encode reports too, or only what is written and read. */
  datatype Concern = Errors | Contents

  /** A struct no value fits changes nothing that is written or read, but errors tell whether its layout is there. */
  ghost predicate Asks(cat: Catalog<Type>, needed: set<string>, c: Concern, ty: Type, owner: string, fname: string)
    requires Acyclic(cat)
  {
    LooksUp(cat, ty, owner, fname) && Leaf(ty).Some? && LeafMatters(cat, c, Leaf(ty).value) ==> Leaf(ty).value in needed
  }

  ghost predicate LeafMatters(cat: Catalog<Type>, c: Concern, n: string)
    requires Acyclic(cat)
  {
    n in cat.structs && (c.Contents? ==> Sized(cat, Named(n), "", ""))
  }

  /** A field is only come to when every field before it is of a type that has values at all. */
  ghost predicate FieldsAsk(cat: Catalog<Type>, needed: set<string>, c: Concern, fields: Layout<Type>, owner: string)
    requires Acyclic(cat)
  {
    fields != [] ==>
      && Asks(cat, needed, c, fields[0].ftype, owner, fields[0].name)
      && (Sized(cat, fields[0].ftype, owner, fields[0].name) ==> FieldsAsk(cat, needed, c, fields[1..], owner))
  }

  /** From a needed layout the codec comes to ask only for needed layouts. */
  ghost predicate LayoutsAsk(cat: Catalog<Type>, needed: set<string>, c: Concern)
    requires Acyclic(cat)
  {
    forall n <- cat.structs :: n in needed ==> FieldsAsk(cat, needed, c, cat.structs[n], n)
  }

  ghost predicate MessageAsks(cat: Catalog<Type>, needed: set<string>, c: Concern, name: string)
    requires Acyclic(cat) && name in cat.byName
  {
    FieldsAsk(cat, needed, c, cat.byName[name].fields, MESSAGE_PREFIX + name)
  }

  /** Every layout that Encode can come to ask for, from any message, is kept. */
  ghost predicate KeepsForErrors(cat: Catalog<Type>, s: set<string>)
    requires Acyclic(cat)
  {
    exists needed: set<string> ::
      needed <= s && LayoutsAsk(cat, needed, Errors) && forall name <- cat.byName :: MessageAsks(cat, needed, Errors, name)
  }

  // ---------------------------------------------------------------- enough

  /** A type some value fits is sized. */
  lemma {:induction false} FittedIsSized(cat: Catalog<Type>, ty: Type, owner: string, fname: string, v: Value, d: Demand)
    requires Acyclic(cat) && Fits(cat, ty, owner, fname, v, d)
    ensures Sized(cat, ty, owner, fname)
    decreases v, 1, ty, 0
  {
    match ty
    case Prim(_) =>
    case Array(elem) => if v.items != [] { FittedIsSized(cat, elem, owner, fname, v.items[0], d); }
    case List(_) =>
    case Named(n) => FittedFieldsAreSized(cat, cat.structs[n], n, v, d);
  }

  lemma {:induction false} FittedFieldsAreSized(
      cat: Catalog<Type>, fields: Layout<Type>, owner: string, v: Value, d: Demand)
    requires Acyclic(cat) && v.Struct? && FitsFields(cat, fields, owner, v, d)
    ensures FieldsSized(cat, fields, owner)
    decreases v, 0, fields
  {
    if fields != [] {
      FittedIsSized(cat, fields[0].ftype, owner, fields[0].name, v.fields[fields[0].name], d);
      FittedFieldsAreSized(cat, fields[1..], owner, v, d);
    }
  }

  lemma {:induction false} EncValueAlike(cat: Catalog<Type>, s: set<string>, needed: set<string>, ty: Type, owner: string,
                                         fname: string, v: Value)
    requires Acyclic(cat) && needed <= s && LayoutsAsk(cat, needed, Errors) && Asks(cat, needed, Errors, ty, owner, fname)
    ensures EncValue(Prune(cat, s), ty, owner, fname, v) == EncValue(cat, ty, owner, fname, v)
    decreases v, 1, ty, 0
  {
    match ty
    case Prim(_) =>
    case Array(elem) =>
      var key := SizeKey(owner, fname);
      if key in cat.fixedArrays && cat.fixedArrays[key] > 0 && v.Items? {
        EncItemsAlike(cat, s, needed, elem, owner, fname, v.items);
      }
    case List(inner) => if v.Items? { EncItemsAlike(cat, s, needed, inner, owner, fname, v.items); }
    case Named(n) =>
      if n in cat.structs && v.Struct? {
        EncFieldsAlike(cat, s, needed, cat.structs[n], n, v);
        assert ElementPrefix(Prune(cat, s), n) == ElementPrefix(cat, n);
      }
  }

  lemma {:induction false} EncItemsAlike(cat: Catalog<Type>, s: set<string>, needed: set<string>, ty: Type, owner: string,
                                         fname: string, items: seq<Value>)
    requires Acyclic(cat) && needed <= s && LayoutsAsk(cat, needed, Errors) && Asks(cat, needed, Errors, ty, owner, fname)
    ensures EncItems(Prune(cat, s), ty, owner, fname, items) == EncItems(cat, ty, owner, fname, items)
    decreases items, 0
  {
    if items != [] {
      EncValueAlike(cat, s, needed, ty, owner, fname, items[0]);
      EncItemsAlike(cat, s, needed, ty, owner, fname, items[1..]);
    }
  }

  lemma {:induction false} EncFieldsAlike(
      cat: Catalog<Type>, s: set<string>, needed: set<string>, fields: Layout<Type>, owner: string, v: Value)
    requires Acyclic(cat) && needed <= s && LayoutsAsk(cat, needed, Errors)
    requires v.Struct? && FieldsAsk(cat, needed, Errors, fields, owner)
    ensures EncFields(Prune(cat, s), fields, owner, v) == EncFields(cat, fields, owner, v)
    decreases v, 0, fields
  {
    if fields != [] && fields[0].name in v.fields {
      var f, w := fields[0], v.fields[fields[0].name];
      EncValueAlike(cat, s, needed, f.ftype, owner, f.name, w);
      ValueEncodes(cat, f.ftype, owner, f.name, w);
      if EncValue(cat, f.ftype, owner, f.name, w).Ok? {
        FittedIsSized(cat, f.ftype, owner, f.name, w, Shape);
        EncFieldsAlike(cat, s, needed, fields[1..], owner, v);
      }
    }
  }

  // ---------------------------------------------------------------- no less will do

  /** A value that shows the two sets of tables apart: one has the struct it comes to, the other has not. */
  ghost predicate Tells(cat: Catalog<Type>, s: set<string>, ty: Type, owner: string, fname: string, v: Value) {
    && EncValue(cat, ty, owner, fname, v) == Err(ExpectedStruct)
    && EncValue(Prune(cat, s), ty, owner, fname, v) == Err(CannotEncode)
  }

  ghost predicate FieldsTell(cat: Catalog<Type>, s: set<string>, fields: Layout<Type>, owner: string, m: Values) {
    && EncFields(cat, fields, owner, Struct(m)) == Err(ExpectedStruct)
    && EncFields(Prune(cat, s), fields, owner, Struct(m)) == Err(CannotEncode)
  }

  ghost predicate BothEncode(cat: Catalog<Type>, s: set<string>, ty: Type, owner: string, fname: string, v: Value) {
    EncValue(cat, ty, owner, fname, v).Ok? && EncValue(Prune(cat, s), ty, owner, fname, v).Ok?
  }

  ghost predicate FieldsBothEncode(cat: Catalog<Type>, s: set<string>, fields: Layout<Type>, owner: string, m: Values) {
    EncFields(cat, fields, owner, Struct(m)).Ok? && EncFields(Prune(cat, s), fields, owner, Struct(m)).Ok?
  }

  /** Fields do not depend on entries under other names. */
  lemma {:induction false} OtherEntries(
      cat: Catalog<Type>, fields: Layout<Type>, owner: string, m: Values, name: string, v: Value)
    requires name !in Names(fields)
    ensures EncFields(cat, fields, owner, Struct(m[name := v])) == EncFields(cat, fields, owner, Struct(m))
    decreases |fields|
  {
    if fields != [] {
      NamesCons(fields);
      OtherEntries(cat, fields[1..], owner, m, name, v);
    }
  }

  function Repeated(n: nat, v: Value): (items: seq<Value>)
    ensures |items| == n
  {
    if n == 0 then [] else [v] + Repeated(n - 1, v)
  }

  /** Copies of one value encode if it does, and fail as it does. */
  lemma {:induction false} RepeatedEncodes(cat: Catalog<Type>, ty: Type, owner: string, fname: string, n: nat, v: Value)
    ensures var one, all := EncValue(cat, ty, owner, fname, v), EncItems(cat, ty, owner, fname, Repeated(n, v));
            if n == 0 || one.Ok? then all.Ok? else all == Err(one.error)
  {
    if n > 0 {
      RepeatedEncodes(cat, ty, owner, fname, n - 1, v);
      assert Repeated(n, v)[0] == v && Repeated(n, v)[1..] == Repeated(n - 1, v);
    }
  }

  /** A value that tells at a type's leaf, wrapped in the arrays and lists above it, tells at the type. */
  lemma {:induction false} TellsAbove(cat: Catalog<Type>, s: set<string>, ty: Type, owner: string, fname: string, v: Value)
    returns (w: Value)
    requires LooksUp(cat, ty, owner, fname) && Leaf(ty).Some?
    requires Tells(cat, s, Named(Leaf(ty).value), "", "", v)
    ensures Tells(cat, s, ty, owner, fname, w)
  {
    match ty
    case Array(elem) =>
      var size := cat.fixedArrays[SizeKey(owner, fname)];
      var item := TellsAbove(cat, s, elem, owner, fname, v);
      RepeatedEncodes(cat, elem, owner, fname, size, item);
      RepeatedEncodes(Prune(cat, s), elem, owner, fname, size, item);
      w := Items(Repeated(size, item));
    case List(inner) =>
      var item := TellsAbove(cat, s, inner, owner, fname, v);
      w := Items([item]);
    case Named(_) => w := v;
  }

  /** The first field can tell by itself. */
  lemma FirstTells(cat: Catalog<Type>, s: set<string>, fields: Layout<Type>, owner: string, v: Value)
    requires fields != [] && Tells(cat, s, fields[0].ftype, owner, fields[0].name, v)
    ensures FieldsTell(cat, s, fields, owner, map[fields[0].name := v])
  {
  }

  /** Behind a first field that encodes, the others behave as they do alone. */
  lemma BehindFirst(cat: Catalog<Type>, s: set<string>, fields: Layout<Type>, owner: string, v: Value, m: Values)
    requires fields != [] && Distinct(fields)
    requires BothEncode(cat, s, fields[0].ftype, owner, fields[0].name, v)
    ensures FieldsTell(cat, s, fields[1..], owner, m) ==> FieldsTell(cat, s, fields, owner, m[fields[0].name := v])
    ensures FieldsBothEncode(cat, s, fields[1..], owner, m) ==>
              FieldsBothEncode(cat, s, fields, owner, m[fields[0].name := v])
  {
    DistinctTail(fields);
    OtherEntries(cat, fields[1..], owner, m, fields[0].name, v);
    OtherEntries(Prune(cat, s), fields[1..], owner, m, fields[0].name, v);
  }

  lemma StructTells(cat: Catalog<Type>, s: set<string>, n: string, owner: string, fname: string, m: Values)
    requires n in cat.structs && n in s
    ensures FieldsTell(cat, s, cat.structs[n], n, m) ==> Tells(cat, s, Named(n), owner, fname, Struct(m))
    ensures FieldsBothEncode(cat, s, cat.structs[n], n, m) ==> BothEncode(cat, s, Named(n), owner, fname, Struct(m))
  {
  }

  /** A dropped struct is told by anything that is not a struct. */
  lemma DroppedTells(cat: Catalog<Type>, s: set<string>, n: string, owner: string, fname: string)
    requires n in cat.structs && n !in s
    ensures Tells(cat, s, Named(n), owner, fname, Int(0))
  {
  }

  /** A sized type has a value that both tables encode, or one that tells them apart. */
  lemma {:induction false} Probe(cat: Catalog<Type>, s: set<string>, ty: Type, owner: string, fname: string)
    returns (told: bool, v: Value)
    requires WellFormed(cat) && Sized(cat, ty, owner, fname)
    ensures if told then Tells(cat, s, ty, owner, fname, v) else BothEncode(cat, s, ty, owner, fname, v)
    decreases TypeRank(cat, ty), TypeSize(ty), 0
  {
    match ty
    case Prim(p) => told, v := false, ZeroPrim(p);
    case Array(elem) =>
      var size := cat.fixedArrays[SizeKey(owner, fname)];
      if size == 0 {
        told, v := false, Items([]);
      } else {
        var item;
        told, item := Probe(cat, s, elem, owner, fname);
        RepeatedEncodes(cat, elem, owner, fname, size, item);
        RepeatedEncodes(Prune(cat, s), elem, owner, fname, size, item);
        v := Items(Repeated(size, item));
      }
    case List(_) => told, v := false, Items([]);
    case Named(n) =>
      if n in s {
        var m;
        StructFieldsRank(cat, n);
        told, m := ProbeFields(cat, s, cat.structs[n], n);
        StructTells(cat, s, n, owner, fname, m);
        v := Struct(m);
      } else {
        DroppedTells(cat, s, n, owner, fname);
        told, v := true, Int(0);
      }
  }

  lemma {:induction false} ProbeFields(cat: Catalog<Type>, s: set<string>, fields: Layout<Type>, owner: string)
    returns (told: bool, m: Values)
    requires WellFormed(cat) && Distinct(fields) && FieldsSized(cat, fields, owner)
    ensures if told then FieldsTell(cat, s, fields, owner, m) else FieldsBothEncode(cat, s, fields, owner, m)
    decreases FieldsRank(cat, fields), 0, |fields|
  {
    told, m := false, map[];
    if fields != [] {
      var v;
      told, v := Probe(cat, s, fields[0].ftype, owner, fields[0].name);
      if told {
        FirstTells(cat, s, fields, owner, v);
        m := map[fields[0].name := v];
      } else {
        DistinctTail(fields);
        told, m := ProbeFields(cat, s, fields[1..], owner);
        BehindFirst(cat, s, fields, owner, v, m);
        m := m[fields[0].name := v];
      }
    }
  }

  /** The structs on which nothing tells the tables apart. */
  ghost function Alike(cat: Catalog<Type>, s: set<string>): set<string> {
    set n | n in cat.structs && !exists v :: Tells(cat, s, Named(n), "", "", v)
  }

  /** Fields that ask for a struct on which the tables can be told apart can tell them apart. */
  lemma {:induction false} AskedTells(cat: Catalog<Type>, s: set<string>, fields: Layout<Type>, owner: string)
    returns (m: Values)
    requires WellFormed(cat) && Distinct(fields) && !FieldsAsk(cat, Alike(cat, s), Errors, fields, owner)
    ensures FieldsTell(cat, s, fields, owner, m)
    decreases |fields|
  {
    var f := fields[0];
    var told, v := true, Int(0);
    if !Asks(cat, Alike(cat, s), Errors, f.ftype, owner, f.name) {
      var leaf :| Tells(cat, s, Named(Leaf(f.ftype).value), "", "", leaf);
      v := TellsAbove(cat, s, f.ftype, owner, f.name, leaf);
    } else {
      told, v := Probe(cat, s, f.ftype, owner, f.name);
    }
    if told {
      FirstTells(cat, s, fields, owner, v);
      m := map[f.name := v];
    } else {
      DistinctTail(fields);
      m := AskedTells(cat, s, fields[1..], owner);
      BehindFirst(cat, s, fields, owner, v, m);
      m := m[f.name := v];
    }
  }

  // ---------------------------------------------------------------- exactly

  ghost predicate EncodesAlike(cat: Catalog<Type>, s: set<string>) {
    forall name, values :: Encode(Prune(cat, s), name, values) == Encode(cat, name, values)
  }

  lemma KeptEncodesAlike(cat: Catalog<Type>, s: set<string>)
    requires WellFormed(cat) && KeepsForErrors(cat, s)
    ensures EncodesAlike(cat, s)
  {
    var needed: set<string> :|
      needed <= s && LayoutsAsk(cat, needed, Errors) && forall name <- cat.byName :: MessageAsks(cat, needed, Errors, name);
    forall name, values
      ensures Encode(Prune(cat, s), name, values) == Encode(cat, name, values)
    {
      if name in cat.byName {
        EncFieldsAlike(cat, s, needed, cat.byName[name].fields, MESSAGE_PREFIX + name, Struct(values));
      }
    }
  }

  lemma MessageTells(cat: Catalog<Type>, s: set<string>, name: string, m: Values)
    requires name in cat.byName && cat.byName[name].name == name
    requires FieldsTell(cat, s, cat.byName[name].fields, MESSAGE_PREFIX + name, m)
    ensures !EncodesAlike(cat, s)
  {
    assert Encode(Prune(cat, s), name, m) != Encode(cat, name, m);
  }

  lemma AlikeAsksOnlyForItself(cat: Catalog<Type>, s: set<string>)
    requires WellFormed(cat) && EncodesAlike(cat, s)
    ensures KeepsForErrors(cat, s)
  {
    var needed := Alike(cat, s);
    forall n | n in needed
      ensures n in s
    {
      if n !in s {
        DroppedTells(cat, s, n, "", "");
      }
    }
    forall name | name in cat.byName
      ensures MessageAsks(cat, needed, Errors, name)
    {
      MessageDistinct(cat, name);
      if !MessageAsks(cat, needed, Errors, name) {
        var m := AskedTells(cat, s, cat.byName[name].fields, MESSAGE_PREFIX + name);
        MessageTells(cat, s, name, m);
      }
    }
    forall n | n in cat.structs && n in needed
      ensures FieldsAsk(cat, needed, Errors, cat.structs[n], n)
    {
      if !FieldsAsk(cat, needed, Errors, cat.structs[n], n) {
        var m := AskedTells(cat, s, cat.structs[n], n);
        StructTells(cat, s, n, "", "", m);
      }
    }
    assert needed <= s && LayoutsAsk(cat, needed, Errors) && forall name <- cat.byName :: MessageAsks(cat, needed, Errors, name);
  }

  /**
   * Whatever set of layouts is kept, Encode does the same over the kept tables as over all of them, in the errors it
   * reports as well, if and only if every layout it can come to ask for is kept.
   */
  lemma ErrorsExactly(cat: Catalog<Type>, s: set<string>)
    requires WellFormed(cat)
    ensures EncodesAlike(cat, s) <==> KeepsForErrors(cat, s)
  {
    if KeepsForErrors(cat, s) {
      KeptEncodesAlike(cat, s);
    }
    if EncodesAlike(cat, s) {
      AlikeAsksOnlyForItself(cat, s);
    }
  }
}
