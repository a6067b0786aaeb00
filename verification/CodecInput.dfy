/** What Encode accepts, what Decode can produce, and why decoded input survives being encoded again. */
module CodecInput {
  import opened Wire
  import opened Schema
  import opened CodecSpec
  import opened CodecValues
  import opened CodecProofs
  import Utf16

  // ---------------------------------------------------------------- which values encode

  lemma {:induction false} ValueEncodes(cat: Catalog<Type>, ty: Type, owner: string, fname: string, v: Value)
    ensures EncValue(cat, ty, owner, fname, v).Ok? <==> Fits(cat, ty, owner, fname, v, Shape)
    decreases v, 1, ty, 0
  {
    match ty
    case Prim(_) =>
    case Array(elem) => if v.Items? { ItemsEncode(cat, elem, owner, fname, v.items); }
    case List(inner) => if v.Items? { ItemsEncode(cat, inner, owner, fname, v.items); }
    case Named(n) => if v.Struct? && n in cat.structs { FieldsEncode(cat, cat.structs[n], n, v); }
  }

  lemma {:induction false} ItemsEncode(cat: Catalog<Type>, ty: Type, owner: string, fname: string, items: seq<Value>)
    ensures EncItems(cat, ty, owner, fname, items).Ok? <==> FitsItems(cat, ty, owner, fname, items, Shape)
    decreases items, 0
  {
    if items != [] {
      ValueEncodes(cat, ty, owner, fname, items[0]);
      ItemsEncode(cat, ty, owner, fname, items[1..]);
    }
  }

  lemma {:induction false} FieldsEncode(cat: Catalog<Type>, fields: Layout<Type>, owner: string, v: Value)
    requires v.Struct?
    ensures EncFields(cat, fields, owner, v).Ok? <==> FitsFields(cat, fields, owner, v, Shape)
    decreases v, 0, fields
  {
    if fields != [] {
      if fields[0].name in v.fields {
        ValueEncodes(cat, fields[0].ftype, owner, fields[0].name, v.fields[fields[0].name]);
      }
      FieldsEncode(cat, fields[1..], owner, v);
    }
  }

  /** Encode succeeds exactly on a known message whose fields are all present and have their types' shapes. */
  lemma EncodeSucceedsIff(cat: Catalog<Type>, name: string, values: Values)
    ensures Encode(cat, name, values).Ok? <==> FitsMessage(cat, name, values, Shape)
  {
    if name in cat.byName {
      FieldsEncode(cat, cat.byName[name].fields, MESSAGE_PREFIX + cat.byName[name].name, Struct(values));
    }
  }

  // ---------------------------------------------------------------- canonical values

  lemma CanonicalPrimFits(p: Primitive, v: Value)
    requires CanonicalPrim(p, v)
    ensures FitsPrim(p, v, Wireable) && NormalPrim(p, v) == v
  {
    if p.Integer? && p.signed {
      SignedTruncate(p.width, v.i);
    }
  }

  /** A canonical value can cross the wire and is already in normal form. */
  lemma {:induction false} CanonicalIsNormal(cat: Catalog<Type>, ty: Type, owner: string, fname: string, v: Value)
    requires Canonical(cat, ty, owner, fname, v)
    ensures Fits(cat, ty, owner, fname, v, Wireable)
    ensures Normal(cat, ty, v) == v
    decreases v, 1, ty, 0
  {
    match ty
    case Prim(p) => CanonicalPrimFits(p, v);
    case Array(elem) => CanonicalItemsNormal(cat, elem, owner, fname, v.items);
    case List(inner) => CanonicalItemsNormal(cat, inner, owner, fname, v.items);
    case Named(n) =>
      CanonicalFieldsNormal(cat, cat.structs[n], n, v, map[]);
      assert NormalFields(cat, cat.structs[n], v, map[]) == v.fields;
  }

  lemma {:induction false} CanonicalItemsNormal(
      cat: Catalog<Type>, ty: Type, owner: string, fname: string, items: seq<Value>)
    requires CanonicalItems(cat, ty, owner, fname, items)
    ensures FitsItems(cat, ty, owner, fname, items, Wireable)
    ensures NormalItems(cat, ty, items) == items
    decreases items, 0
  {
    if items != [] {
      CanonicalIsNormal(cat, ty, owner, fname, items[0]);
      CanonicalItemsNormal(cat, ty, owner, fname, items[1..]);
    }
  }

  /** m is acc with the named entries taken from src. */
  ghost predicate Overwrites(m: Values, acc: Values, names: set<string>, src: Values) {
    && m.Keys == acc.Keys + names
    && (forall n <- names :: n in src && m[n] == src[n])
    && (forall n <- acc.Keys - names :: m[n] == acc[n])
  }

  lemma NamesCons(fields: Layout<Type>)
    requires fields != []
    ensures Names(fields) == {fields[0].name} + Names(fields[1..])
  {
    assert fields == [fields[0]] + fields[1..];
  }

  lemma {:induction false} CanonicalFieldsNormal(
      cat: Catalog<Type>, fields: Layout<Type>, owner: string, v: Value, acc: Values)
    requires v.Struct? && CanonicalFields(cat, fields, owner, v)
    ensures FitsFields(cat, fields, owner, v, Wireable)
    ensures Overwrites(NormalFields(cat, fields, v, acc), acc, Names(fields), v.fields)
    decreases v, 0, fields
  {
    if fields != [] {
      var f := fields[0];
      NamesCons(fields);
      CanonicalIsNormal(cat, f.ftype, owner, f.name, v.fields[f.name]);
      CanonicalFieldsNormal(cat, fields[1..], owner, v, acc[f.name := v.fields[f.name]]);
    }
  }

  // ---------------------------------------------------------------- decoded values are canonical

  lemma {:induction false} UntilNulFree(buf: bytes)
    requires DecUntilNul(buf).Some?
    ensures Utf16.NulFree(DecUntilNul(buf).value.0)
    ensures 2 * |DecUntilNul(buf).value.0| + 2 + |DecUntilNul(buf).value.1| == |buf|
    decreases |buf|
  {
    var (u, rest) := TakeUint(2, buf).value;
    if u != 0 {
      UntilNulFree(rest);
    }
  }

  /** Whatever bytes a primitive was read from, it is canonical and writes as many bytes as were read. */
  lemma PrimReencodes(p: Primitive, buf: bytes, v: Value, rest: bytes)
    requires DecPrim(p, buf) == Some((v, rest))
    ensures CanonicalPrim(p, v)
    ensures EncPrim(p, v).Ok? && |EncPrim(p, v).value| + |rest| == |buf|
  {
    match p
    case String =>
      var (n, mid) := TakeUint(4, buf).value;
      Utf16.EncodeDecodeLength(DecUnits(n, mid));
    case CharArray =>
      UntilNulFree(buf);
      var us := DecUntilNul(buf).value.0;
      Utf16.EncodeDecodeLength(us);
      Utf16.NulFreeDecode(us);
    case _ =>
  }

  /** v is what reading this type yields: canonical, and as long on the wire as the bytes it was read from. */
  ghost predicate Reencodes(cat: Catalog<Type>, ty: Type, owner: string, fname: string, v: Value, n: int) {
    && Canonical(cat, ty, owner, fname, v)
    && EncValue(cat, ty, owner, fname, v).Ok?
    && |EncValue(cat, ty, owner, fname, v).value| == n
  }

  lemma {:induction false} ValueReencodes(
      cat: Catalog<Type>, ty: Type, owner: string, fname: string, buf: bytes, v: Value, rest: bytes)
    requires WellFormed(cat)
    requires DecValue(cat, ty, owner, fname, buf) == Some((v, rest))
    ensures Reencodes(cat, ty, owner, fname, v, |buf| - |rest|)
    decreases |buf|, TypeRank(cat, ty), TypeSize(ty), 0
  {
    match ty
    case Prim(p) => PrimReencodes(p, buf, v, rest);
    case Array(elem) =>
      ItemsReencode(cat, elem, owner, fname, cat.fixedArrays[SizeKey(owner, fname)], buf, v.items, rest);
    case List(inner) =>
      var (n, mid) := TakeUint(4, buf).value;
      ItemsReencode(cat, inner, owner, fname, n, mid, v.items, rest);
    case Named(n) =>
      var mid := SkipElementPrefix(cat, n, buf).value;
      StructFieldsRank(cat, n);
      FieldsReencode(cat, cat.structs[n], n, mid, map[], v.fields, rest);
      assert |ElementPrefix(cat, n)| + |mid| == |buf|;
  }

  lemma {:induction false} ItemsReencode(cat: Catalog<Type>, ty: Type, owner: string, fname: string, n: nat, buf: bytes,
                                         vs: seq<Value>, rest: bytes)
    requires WellFormed(cat)
    requires DecItems(cat, ty, owner, fname, n, buf) == Some((vs, rest))
    ensures CanonicalItems(cat, ty, owner, fname, vs)
    ensures EncItems(cat, ty, owner, fname, vs).Ok?
    ensures |EncItems(cat, ty, owner, fname, vs).value| + |rest| == |buf|
    decreases |buf|, TypeRank(cat, ty), TypeSize(ty), n + 1
  {
    if n > 0 {
      var (v, mid) := DecValue(cat, ty, owner, fname, buf).value;
      ValueReencodes(cat, ty, owner, fname, buf, v, mid);
      var vs' := DecItems(cat, ty, owner, fname, n - 1, mid).value.0;
      ItemsReencode(cat, ty, owner, fname, n - 1, mid, vs', rest);
      assert vs[0] == v && vs[1..] == vs';
    }
  }

  lemma {:induction false} FieldsReencode(cat: Catalog<Type>, fields: Layout<Type>, owner: string, buf: bytes,
                                          acc: Values, m: Values, rest: bytes)
    requires WellFormed(cat) && Distinct(fields)
    requires DecFields(cat, fields, owner, buf, acc) == Some((m, rest))
    ensures m.Keys == acc.Keys + Names(fields)
    ensures forall n <- acc.Keys - Names(fields) :: m[n] == acc[n]
    ensures CanonicalFields(cat, fields, owner, Struct(m))
    ensures EncFields(cat, fields, owner, Struct(m)).Ok?
    ensures |EncFields(cat, fields, owner, Struct(m)).value| + |rest| == |buf|
    decreases |buf|, FieldsRank(cat, fields), 0, |fields|
  {
    if fields != [] {
      var f := fields[0];
      var (v, mid) := DecValue(cat, f.ftype, owner, f.name, buf).value;
      ValueReencodes(cat, f.ftype, owner, f.name, buf, v, mid);
      DistinctTail(fields);
      NamesCons(fields);
      FieldsReencode(cat, fields[1..], owner, mid, acc[f.name := v], m, rest);
      assert m[f.name] == v;
    }
  }

  lemma DistinctTail(fields: Layout<Type>)
    requires fields != [] && Distinct(fields)
    ensures Distinct(fields[1..])
    ensures fields[0].name !in Names(fields[1..])
  {
  }

  // ---------------------------------------------------------------- whole messages

  /** A run of fields is complete exactly when every field's name got a value. */
  lemma {:induction false} CompleteRun(cat: Catalog<Type>, fields: Layout<Type>, owner: string, buf: bytes, acc: Values)
    requires WellFormed(cat) && Distinct(fields)
    requires Names(fields) !! acc.Keys
    requires Names(fields) <= DecRun(cat, fields, owner, buf, acc).0.Keys
    ensures DecFields(cat, fields, owner, buf, acc) == Some(DecRun(cat, fields, owner, buf, acc))
    decreases |fields|
  {
    if fields != [] {
      var f := fields[0];
      NamesCons(fields);
      DistinctTail(fields);
      if DecValue(cat, f.ftype, owner, f.name, buf).Some? {
        var (v, rest) := DecValue(cat, f.ftype, owner, f.name, buf).value;
        CompleteRun(cat, fields[1..], owner, rest, acc[f.name := v]);
      }
    }
  }

  /**
   * Whatever bytes arrived, if every field could be read then the values read encode again, to as many bytes
   * as were consumed, and those bytes decode to the same values with nothing left over.
   */
  lemma DecodeNormalises(cat: Catalog<Type>, body: bytes, name: string, values: Values, tail: bytes)
    requires WellFormed(cat)
    requires Decode(cat, body) == Decoded(name, values, tail)
    requires name in cat.byName && Names(cat.byName[name].fields) <= values.Keys
    ensures Encode(cat, name, values).Ok?
    ensures |Encode(cat, name, values).value| + |tail| == |body|
    ensures Decode(cat, Encode(cat, name, values).value) == Decoded(name, values, [])
  {
    var msg := cat.byName[name];
    var owner := MESSAGE_PREFIX + name;
    CompleteRun(cat, msg.fields, owner, body[4..], map[]);
    FieldsReencode(cat, msg.fields, owner, body[4..], map[], values, tail);
    CanonicalFieldsNormal(cat, msg.fields, owner, Struct(values), map[]);
    assert NormalFields(cat, msg.fields, Struct(values), map[]) == values;
    RoundTrip(cat, name, values, []);
    assert Encode(cat, name, values).value + [] == Encode(cat, name, values).value;
  }
}
