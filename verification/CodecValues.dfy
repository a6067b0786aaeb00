/** Which values fit a type, and what a value becomes once it has crossed the wire. */
module CodecValues {
  import opened Wire
  import opened Schema
  import opened CodecSpec
  import Utf16

  /** How much is asked of a value: only that it has its type's shape, or also that the wire can represent it. */
  datatype Demand = Shape | Wireable

  predicate FitsPrim(p: Primitive, v: Value, d: Demand) {
    match p
    case Integer(_, _) => v.Int? || v.UInt?
    case Boolean => v.Bool?
    case Single => v.SingleBits?
    case Double => v.DoubleBits?
    case String => v.Text? && (d.Wireable? ==> |Utf16.Encode(v.s)| < 0x1_0000_0000)
    case CharArray => v.Text? && (d.Wireable? ==> Utf16.NulFree(v.s))
  }

  predicate Fits(cat: Catalog<Type>, ty: Type, owner: string, fname: string, v: Value, d: Demand)
    decreases v, 1, ty, 0
  {
    match ty
    case Prim(p) => FitsPrim(p, v, d)
    case Array(elem) =>
      var key := SizeKey(owner, fname);
      && key in cat.fixedArrays
      && v.Items?
      && |v.items| == cat.fixedArrays[key]
      && FitsItems(cat, elem, owner, fname, v.items, d)
    case List(inner) =>
      && v.Items?
      && (d.Wireable? ==> |v.items| < 0x1_0000_0000)
      && FitsItems(cat, inner, owner, fname, v.items, d)
    case Named(n) =>
      n in cat.structs && v.Struct? && FitsFields(cat, cat.structs[n], n, v, d)
  }

  predicate FitsItems(cat: Catalog<Type>, ty: Type, owner: string, fname: string, items: seq<Value>, d: Demand)
    decreases items, 0
  {
    items != [] ==> Fits(cat, ty, owner, fname, items[0], d) && FitsItems(cat, ty, owner, fname, items[1..], d)
  }

  predicate FitsFields(cat: Catalog<Type>, fields: Layout<Type>, owner: string, v: Value, d: Demand)
    requires v.Struct?
    decreases v, 0, fields
  {
    fields != [] ==>
      && fields[0].name in v.fields
      && Fits(cat, fields[0].ftype, owner, fields[0].name, v.fields[fields[0].name], d)
      && FitsFields(cat, fields[1..], owner, v, d)
  }

  // ---------------------------------------------------------------- normal form

  /** The mathematical integer a numeric value holds. */
  function Number(v: Value): int
    requires v.Int? || v.UInt?
  {
    if v.Int? then v.i else v.u
  }

  /** Integers wrap to the field's width and take the field's signedness; everything else is unchanged. */
  function NormalPrim(p: Primitive, v: Value): Value {
    if p.Integer? && (v.Int? || v.UInt?) then
      var raw := Truncate(p.width, Number(v));
      if p.signed then Int(Signed(p.width, raw)) else UInt(raw)
    else v
  }

  /** A value with every integer wrapped and every struct cut down to its declared fields. */
  function Normal(cat: Catalog<Type>, ty: Type, v: Value): Value
    decreases v, 1, ty, 0
  {
    match ty
    case Prim(p) => NormalPrim(p, v)
    case Array(elem) => if v.Items? then Items(NormalItems(cat, elem, v.items)) else v
    case List(inner) => if v.Items? then Items(NormalItems(cat, inner, v.items)) else v
    case Named(n) =>
      if v.Struct? && n in cat.structs then Struct(NormalFields(cat, cat.structs[n], v, map[])) else v
  }

  function NormalItems(cat: Catalog<Type>, ty: Type, items: seq<Value>): (r: seq<Value>)
    ensures |r| == |items|
    decreases items, 0
  {
    if items == [] then [] else [Normal(cat, ty, items[0])] + NormalItems(cat, ty, items[1..])
  }

  function NormalFields(cat: Catalog<Type>, fields: Layout<Type>, v: Value, acc: Values): Values
    requires v.Struct?
    decreases v, 0, fields
  {
    if fields == [] then acc
    else
      var f := fields[0];
      if f.name in v.fields
      then NormalFields(cat, fields[1..], v, acc[f.name := Normal(cat, f.ftype, v.fields[f.name])])
      else NormalFields(cat, fields[1..], v, acc)
  }

  // ---------------------------------------------------------------- canonical values

  /** The values a field of this type can decode to. */
  predicate CanonicalPrim(p: Primitive, v: Value) {
    match p
    case Integer(w, signed) =>
      if signed then v.Int? && -(Modulus(w) / 2) <= v.i < Modulus(w) / 2
      else v.UInt? && v.u < Modulus(w)
    case _ => FitsPrim(p, v, Wireable)
  }

  predicate Canonical(cat: Catalog<Type>, ty: Type, owner: string, fname: string, v: Value)
    decreases v, 1, ty, 0
  {
    match ty
    case Prim(p) => CanonicalPrim(p, v)
    case Array(elem) =>
      var key := SizeKey(owner, fname);
      && key in cat.fixedArrays
      && v.Items?
      && |v.items| == cat.fixedArrays[key]
      && CanonicalItems(cat, elem, owner, fname, v.items)
    case List(inner) =>
      && v.Items?
      && |v.items| < 0x1_0000_0000
      && CanonicalItems(cat, inner, owner, fname, v.items)
    case Named(n) =>
      && n in cat.structs
      && v.Struct?
      && v.fields.Keys == Names(cat.structs[n])
      && CanonicalFields(cat, cat.structs[n], n, v)
  }

  predicate CanonicalItems(cat: Catalog<Type>, ty: Type, owner: string, fname: string, items: seq<Value>)
    decreases items, 0
  {
    items != [] ==> Canonical(cat, ty, owner, fname, items[0]) && CanonicalItems(cat, ty, owner, fname, items[1..])
  }

  predicate CanonicalFields(cat: Catalog<Type>, fields: Layout<Type>, owner: string, v: Value)
    requires v.Struct?
    decreases v, 0, fields
  {
    fields != [] ==>
      && fields[0].name in v.fields
      && Canonical(cat, fields[0].ftype, owner, fields[0].name, v.fields[fields[0].name])
      && CanonicalFields(cat, fields[1..], owner, v)
  }

  function Names(fields: Layout<Type>): set<string> {
    set f <- fields :: f.name
  }
}
