/** Structurally complete default values for a message. */
module ZeroValues {
  import opened Wire
  import opened Schema
  import opened TypeNames
  import opened CodecSpec
  import opened CodecValues
  import opened CodecProofs
  import opened CodecInput
  import Decoder

  function ZeroPrim(p: Primitive): Value {
    match p
    case Integer(_, signed) => if signed then Int(0) else UInt(0)
    case Boolean => Bool(false)
    case Single => SingleBits(0)
    case Double => DoubleBits(0)
    case String => Text([])
    case CharArray => Text([])
  }

  function ZeroValue(cat: Catalog<Type>, ty: Type, owner: string, fname: string): Option<Value>
    requires Acyclic(cat)
    decreases TypeRank(cat, ty), TypeSize(ty), 0
  {
    match ty
    case Prim(p) => Some(ZeroPrim(p))
    case Array(elem) =>
      var key := SizeKey(owner, fname);
      if key !in cat.fixedArrays then None
      else
        (match ZeroItems(cat, elem, owner, fname, cat.fixedArrays[key])
         case None => None
         case Some(items) => Some(Items(items)))
    case List(_) => Some(Items([]))
    case Named(n) =>
      if n !in cat.structs then None
      else
        StructFieldsRank(cat, n);
        match ZeroFields(cat, cat.structs[n], n, map[])
        case None => None
        case Some(fields) => Some(Struct(fields))
  }

  function ZeroItems(cat: Catalog<Type>, ty: Type, owner: string, fname: string, n: nat): (r: Option<seq<Value>>)
    requires Acyclic(cat)
    ensures r.Some? ==> |r.value| == n
    decreases TypeRank(cat, ty), TypeSize(ty), n + 1
  {
    if n == 0 then Some([])
    else
      match ZeroValue(cat, ty, owner, fname)
      case None => None
      case Some(v) =>
        match ZeroItems(cat, ty, owner, fname, n - 1)
        case None => None
        case Some(vs) => Some([v] + vs)
  }

  function ZeroFields(cat: Catalog<Type>, fields: Layout<Type>, owner: string, acc: Values): Option<Values>
    requires Acyclic(cat)
    decreases FieldsRank(cat, fields), 0, |fields|
  {
    if fields == [] then Some(acc)
    else
      match ZeroValue(cat, fields[0].ftype, owner, fields[0].name)
      case None => None
      case Some(v) => ZeroFields(cat, fields[1..], owner, acc[fields[0].name := v])
  }

  // ---------------------------------------------------------------- when a zero exists

  /** Outside lists, every array has a declared size and every named type has a layout. */
  ghost predicate Sized(cat: Catalog<Type>, ty: Type, owner: string, fname: string)
    requires Acyclic(cat)
    decreases TypeRank(cat, ty), TypeSize(ty)
  {
    match ty
    case Prim(_) => true
    case Array(elem) =>
      var key := SizeKey(owner, fname);
      key in cat.fixedArrays && (cat.fixedArrays[key] == 0 || Sized(cat, elem, owner, fname))
    case List(_) => true
    case Named(n) =>
      n in cat.structs && (StructFieldsRank(cat, n); FieldsSized(cat, cat.structs[n], n))
  }

  ghost predicate FieldsSized(cat: Catalog<Type>, fields: Layout<Type>, owner: string)
    requires Acyclic(cat)
    decreases FieldsRank(cat, fields), 0, |fields|
  {
    fields != [] ==>
      Sized(cat, fields[0].ftype, owner, fields[0].name) && FieldsSized(cat, fields[1..], owner)
  }

  /** A sized type has a zero, an unsized one has none, and the zero is a value the codec could itself have decoded. */
  lemma {:induction false} ZeroOfType(cat: Catalog<Type>, ty: Type, owner: string, fname: string)
    requires WellFormed(cat)
    ensures ZeroValue(cat, ty, owner, fname).Some? <==> Sized(cat, ty, owner, fname)
    ensures Sized(cat, ty, owner, fname) ==>
              Canonical(cat, ty, owner, fname, ZeroValue(cat, ty, owner, fname).value)
    decreases TypeRank(cat, ty), TypeSize(ty), 0
  {
    match ty
    case Prim(p) =>
    case Array(elem) =>
      var key := SizeKey(owner, fname);
      if key in cat.fixedArrays {
        ZeroOfItems(cat, elem, owner, fname, cat.fixedArrays[key]);
      }
    case List(_) =>
    case Named(n) =>
      if n in cat.structs {
        StructFieldsRank(cat, n);
        ZeroOfFields(cat, cat.structs[n], n, map[]);
      }
  }

  lemma {:induction false} ZeroOfItems(cat: Catalog<Type>, ty: Type, owner: string, fname: string, n: nat)
    requires WellFormed(cat)
    ensures ZeroItems(cat, ty, owner, fname, n).Some? <==> n == 0 || Sized(cat, ty, owner, fname)
    ensures ZeroItems(cat, ty, owner, fname, n).Some? ==>
              CanonicalItems(cat, ty, owner, fname, ZeroItems(cat, ty, owner, fname, n).value)
    decreases TypeRank(cat, ty), TypeSize(ty), n + 1
  {
    if n > 0 {
      ZeroOfType(cat, ty, owner, fname);
      ZeroOfItems(cat, ty, owner, fname, n - 1);
      if ZeroItems(cat, ty, owner, fname, n).Some? {
        var v, vs := ZeroValue(cat, ty, owner, fname).value, ZeroItems(cat, ty, owner, fname, n - 1).value;
        assert ([v] + vs)[1..] == vs;
      }
    }
  }

  lemma {:induction false} ZeroOfFields(cat: Catalog<Type>, fields: Layout<Type>, owner: string, acc: Values)
    requires WellFormed(cat) && Distinct(fields)
    ensures ZeroFields(cat, fields, owner, acc).Some? <==> FieldsSized(cat, fields, owner)
    ensures FieldsSized(cat, fields, owner) ==>
              var m := ZeroFields(cat, fields, owner, acc).value;
              && m.Keys == acc.Keys + Names(fields)
              && (forall n <- acc.Keys - Names(fields) :: m[n] == acc[n])
              && CanonicalFields(cat, fields, owner, Struct(m))
    decreases FieldsRank(cat, fields), 0, |fields|
  {
    if fields != [] {
      var f := fields[0];
      ZeroOfType(cat, f.ftype, owner, f.name);
      if Sized(cat, f.ftype, owner, f.name) {
        var v := ZeroValue(cat, f.ftype, owner, f.name).value;
        NamesCons(fields);
        DistinctTail(fields);
        ZeroOfFields(cat, fields[1..], owner, acc[f.name := v]);
      }
    }
  }

  // ---------------------------------------------------------------- whole messages

  function MessageZero(cat: Catalog<Type>, name: string): Option<Values>
    requires Acyclic(cat)
  {
    if name !in cat.byName then None
    else ZeroFields(cat, cat.byName[name].fields, MESSAGE_PREFIX + cat.byName[name].name, map[])
  }

  ghost predicate MessageSized(cat: Catalog<Type>, name: string)
    requires Acyclic(cat)
  {
    && name in cat.byName
    && FieldsSized(cat, cat.byName[name].fields, MESSAGE_PREFIX + cat.byName[name].name)
  }

  /**
   * ZeroValues succeeds exactly on messages whose arrays outside lists are sized; what it builds encodes, and
   * decodes to itself with nothing left over.
   */
  lemma ZeroRoundTrip(cat: Catalog<Type>, name: string)
    requires WellFormed(cat)
    ensures MessageZero(cat, name).Some? <==> MessageSized(cat, name)
    ensures MessageSized(cat, name) ==>
              var zero := MessageZero(cat, name).value;
              && Encode(cat, name, zero).Ok?
              && Decode(cat, Encode(cat, name, zero).value) == Decoded(name, zero, [])
  {
    if name in cat.byName {
      var msg := cat.byName[name];
      var owner := MESSAGE_PREFIX + msg.name;
      MessageDistinct(cat, name);
      ZeroOfFields(cat, msg.fields, owner, map[]);
      if MessageSized(cat, name) {
        var zero := MessageZero(cat, name).value;
        CanonicalFieldsNormal(cat, msg.fields, owner, Struct(zero), map[]);
        assert NormalFields(cat, msg.fields, Struct(zero), map[]) == zero;
        RoundTrip(cat, name, zero, []);
        assert Encode(cat, name, zero).value + [] == Encode(cat, name, zero).value;
      }
    }
  }

  /** Every override is for a declared field, with a value of that field's shape. */
  ghost predicate FittingOverrides(cat: Catalog<Type>, fields: Layout<Type>, owner: string, over: Values) {
    forall f <- fields :: f.name in over ==> Fits(cat, f.ftype, owner, f.name, over[f.name], Shape)
  }

  lemma {:induction false} OverriddenFit(cat: Catalog<Type>, fields: Layout<Type>, owner: string, base: Values, over: Values)
    requires FitsFields(cat, fields, owner, Struct(base), Shape)
    requires FittingOverrides(cat, fields, owner, over)
    ensures FitsFields(cat, fields, owner, Struct(base + over), Shape)
    decreases |fields|
  {
    if fields != [] {
      assert forall f <- fields[1..] :: f in fields;
      OverriddenFit(cat, fields[1..], owner, base, over);
    }
  }

  /** A handler that starts from the zero values and overrides fields with values of their shapes can always encode. */
  lemma OverriddenZeroEncodes(cat: Catalog<Type>, name: string, over: Values)
    requires WellFormed(cat) && MessageSized(cat, name)
    requires FittingOverrides(cat, cat.byName[name].fields, MESSAGE_PREFIX + cat.byName[name].name, over)
    ensures MessageZero(cat, name).Some?
    ensures Encode(cat, name, MessageZero(cat, name).value + over).Ok?
  {
    ZeroRoundTrip(cat, name);
    var msg := cat.byName[name];
    var zero := MessageZero(cat, name).value;
    EncodeSucceedsIff(cat, name, zero);
    OverriddenFit(cat, msg.fields, MESSAGE_PREFIX + msg.name, zero, over);
    EncodeSucceedsIff(cat, name, zero + over);
  }

  // ---------------------------------------------------------------- over the string-typed catalog

  /** zeroValue: the switch over primitive names, then T[], List<T>, struct. */
  method BuildValue(cat: Catalog<string>, ftype: string, owner: string, fname: string) returns (r: Option<Value>)
    requires Acyclic(Read(cat))
    ensures r == ZeroValue(Read(cat), ParseType(ftype), owner, fname)
    decreases TypeRank(Read(cat), ParseType(ftype)), TypeSize(ParseType(ftype)), 0
  {
    if ftype in PRIMITIVES {
      return Some(ZeroPrim(PRIMITIVES[ftype]));
    }
    if HasArraySuffix(ftype) {
      var key := SizeKey(owner, fname);
      if key !in cat.fixedArrays {
        return None;
      }
      var items := BuildItems(cat, ElemOf(ftype), owner, fname, cat.fixedArrays[key]);
      return if items.None? then None else Some(Items(items.value));
    }
    if HasListPrefix(ftype) {
      return Some(Items([]));
    }
    if ftype in cat.structs {
      StructFieldsRank(Read(cat), ftype);
      var fields := BuildFields(cat, cat.structs[ftype], ftype);
      return if fields.None? then None else Some(Struct(fields.value));
    }
    return None;
  }

  method BuildItems(cat: Catalog<string>, elem: string, owner: string, fname: string, size: nat)
    returns (r: Option<seq<Value>>)
    requires Acyclic(Read(cat))
    ensures r == ZeroItems(Read(cat), ParseType(elem), owner, fname, size)
    decreases TypeRank(Read(cat), ParseType(elem)), TypeSize(ParseType(elem)), size + 1
  {
    var out: seq<Value> := [];
    ghost var rcat, ty := Read(cat), ParseType(elem);
    PrependItemsNothing(ZeroItems(rcat, ty, owner, fname, size));
    for i := 0 to size
      invariant PrependItems(out, ZeroItems(rcat, ty, owner, fname, size - i)) == ZeroItems(rcat, ty, owner, fname, size)
    {
      var v := BuildValue(cat, elem, owner, fname);
      if v.None? {
        return None;
      }
      PrependItemsStep(out, v.value, ZeroItems(rcat, ty, owner, fname, size - i - 1));
      out := out + [v.value];
    }
    assert out + [] == out;
    return Some(out);
  }

  lemma PrependItemsNothing(r: Option<seq<Value>>)
    ensures PrependItems([], r) == r
  {
    if r.Some? {
      assert [] + r.value == r.value;
    }
  }

  function PrependItems(first: seq<Value>, r: Option<seq<Value>>): Option<seq<Value>> {
    if r.Some? then Some(first + r.value) else None
  }

  lemma PrependItemsStep(first: seq<Value>, v: Value, r: Option<seq<Value>>)
    ensures PrependItems(first, PrependItems([v], r)) == PrependItems(first + [v], r)
  {
    if r.Some? {
      assert first + ([v] + r.value) == first + [v] + r.value;
    }
  }

  lemma ZeroFieldsStep(cat: Catalog<Type>, fields: Layout<Type>, owner: string, acc: Values)
    requires Acyclic(cat) && fields != []
    ensures ZeroFields(cat, fields, owner, acc)
         == match ZeroValue(cat, fields[0].ftype, owner, fields[0].name)
            case None => None
            case Some(v) => ZeroFields(cat, fields[1..], owner, acc[fields[0].name := v])
  {
  }

  lemma {:induction false} FieldRankAt(cat: Catalog<Type>, fields: Layout<Type>, i: nat)
    requires Acyclic(cat) && i < |fields|
    ensures TypeRank(cat, fields[i].ftype) < FieldsRank(cat, fields)
    decreases i
  {
    if i > 0 {
      FieldRankAt(cat, fields[1..], i - 1);
    }
  }

  method BuildFields(cat: Catalog<string>, fields: Layout<string>, owner: string) returns (r: Option<Values>)
    requires Acyclic(Read(cat))
    ensures r == ZeroFields(Read(cat), ReadLayout(fields), owner, map[])
    decreases FieldsRank(Read(cat), ReadLayout(fields)), 0, 0
  {
    ghost var rcat, rfields := Read(cat), ReadLayout(fields);
    var out: Values := map[];
    assert rfields[0..] == rfields;
    for i := 0 to |fields|
      invariant ZeroFields(rcat, rfields[i..], owner, out) == ZeroFields(rcat, rfields, owner, map[])
    {
      Decoder.LayoutTail(fields, i);
      ZeroFieldsStep(rcat, rfields[i..], owner, out);
      FieldRankAt(rcat, rfields, i);
      var v := BuildValue(cat, fields[i].ftype, owner, fields[i].name);
      if v.None? {
        return None;
      }
      out := out[fields[i].name := v.value];
    }
    return Some(out);
  }

  method Build(cat: Catalog<string>, name: string) returns (r: Option<Values>)
    requires Acyclic(Read(cat))
    ensures r == MessageZero(Read(cat), name)
  {
    if name !in cat.byName {
      return None;
    }
    var msg := cat.byName[name];
    assert Read(cat).byName[name] == ReadMessage(msg);
    r := BuildFields(cat, msg.fields, MESSAGE_PREFIX + msg.name);
  }
}
