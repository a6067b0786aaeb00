/** What a value looks like on the wire, as functions of the type: the specification of the codec's cursors. */
module CodecSpec {
  import opened Wire
  import opened Schema
  import Utf16

  type Int64 = i: int | -0x8000_0000_0000_0000 <= i < 0x8000_0000_0000_0000
  type UInt64 = u: int | 0 <= u < 0x1_0000_0000_0000_0000
  type Bits32 = b: int | 0 <= b < 0x1_0000_0000
  type Bits64 = b: int | 0 <= b < 0x1_0000_0000_0000_0000

  /** A dynamically typed value. Floats are carried as their IEEE bit patterns. */
  datatype Value =
    | Int(i: Int64)
    | UInt(u: UInt64)
    | SingleBits(b32: Bits32)
    | DoubleBits(b64: Bits64)
    | Bool(b: bool)
    | Text(s: Utf16.Text)
    | Items(items: seq<Value>)
    | Struct(fields: map<string, Value>)

  type Values = map<string, Value>

  datatype EncodeError =
    | UnknownMessage
    | MissingField(fname: string)
    | UnsizedArray
    | ExpectedItems
    | WrongLength
    | ExpectedStruct
    | ExpectedInteger
    | ExpectedFloat
    | ExpectedBool
    | ExpectedText
    | CannotEncode

  // ---------------------------------------------------------------- integers

  /** toInt64: an unsigned value keeps its 64 bits. */
  function ToInt64(v: Value): Option<Int64> {
    match v
    case Int(i) => Some(i)
    case UInt(u) => Some(if u >= 0x8000_0000_0000_0000 then u - 0x1_0000_0000_0000_0000 else u)
    case _ => None
  }

  /** toUint64: a signed value keeps its 64 bits. */
  function ToUint64(v: Value): Option<UInt64> {
    match v
    case Int(i) => Some(if i < 0 then i + 0x1_0000_0000_0000_0000 else i)
    case UInt(u) => Some(u)
    case _ => None
  }

  // ---------------------------------------------------------------- encoding

  function EncUnits(us: seq<Utf16.Unit>): (bs: bytes)
    ensures |bs| == 2 * |us|
  {
    if us == [] then [] else LE(2, us[0]) + EncUnits(us[1..])
  }

  function EncPrim(p: Primitive, v: Value): Result<bytes, EncodeError> {
    match p
    case Integer(w, signed) =>
      if signed then
        (match ToInt64(v)
         case Some(i) => Ok(LE(w, Truncate(w, i)))
         case None => Err(ExpectedInteger))
      else
        (match ToUint64(v)
         case Some(u) => Ok(LE(w, Truncate(w, u)))
         case None => Err(ExpectedInteger))
    case Boolean => if v.Bool? then Ok(LE(1, if v.b then 1 else 0)) else Err(ExpectedBool)
    case Single => if v.SingleBits? then Ok(LE(4, v.b32)) else Err(ExpectedFloat)
    case Double => if v.DoubleBits? then Ok(LE(8, v.b64)) else Err(ExpectedFloat)
    case String =>
      if v.Text? then
        var us := Utf16.Encode(v.s);
        Ok(LE(4, |us|) + EncUnits(us))
      else Err(ExpectedText)
    case CharArray =>
      if v.Text? then Ok(EncUnits(Utf16.Encode(v.s)) + LE(2, 0)) else Err(ExpectedText)
  }

  /** The opcode written before a message that is used as an element. */
  function ElementPrefix<T>(cat: Catalog<T>, n: string): bytes {
    if n in cat.messageFullNames && cat.KnownElement(n)
    then LE(4, cat.byName[n[|MESSAGE_PREFIX|..]].id)
    else []
  }

  function EncValue(cat: Catalog<Type>, ty: Type, owner: string, fname: string, v: Value): Result<bytes, EncodeError>
    decreases v, 1, ty, 0
  {
    match ty
    case Prim(p) => EncPrim(p, v)
    case Array(elem) =>
      var key := SizeKey(owner, fname);
      if key !in cat.fixedArrays then Err(UnsizedArray)
      else if !v.Items? then Err(ExpectedItems)
      else if |v.items| != cat.fixedArrays[key] then Err(WrongLength)
      else EncItems(cat, elem, owner, fname, v.items)
    case List(inner) =>
      if !v.Items? then Err(ExpectedItems)
      else
        (match EncItems(cat, inner, owner, fname, v.items)
         case Ok(bs) => Ok(LE(4, |v.items|) + bs)
         case Err(e) => Err(e))
    case Named(n) =>
      if n !in cat.structs then Err(CannotEncode)
      else if !v.Struct? then Err(ExpectedStruct)
      else
        (match EncFields(cat, cat.structs[n], n, v)
         case Ok(bs) => Ok(ElementPrefix(cat, n) + bs)
         case Err(e) => Err(e))
  }

  function EncItems(cat: Catalog<Type>, ty: Type, owner: string, fname: string, items: seq<Value>): Result<bytes, EncodeError>
    decreases items, 0
  {
    if items == [] then Ok([])
    else
      match EncValue(cat, ty, owner, fname, items[0])
      case Err(e) => Err(e)
      case Ok(head) =>
        match EncItems(cat, ty, owner, fname, items[1..])
        case Err(e) => Err(e)
        case Ok(tail) => Ok(head + tail)
  }

  function EncFields(cat: Catalog<Type>, fields: Layout<Type>, owner: string, v: Value): Result<bytes, EncodeError>
    requires v.Struct?
    decreases v, 0, fields
  {
    if fields == [] then Ok([])
    else if fields[0].name !in v.fields then Err(MissingField(fields[0].name))
    else
      match EncValue(cat, fields[0].ftype, owner, fields[0].name, v.fields[fields[0].name])
      case Err(e) => Err(e)
      case Ok(head) =>
        match EncFields(cat, fields[1..], owner, v)
        case Err(e) => Err(e)
        case Ok(tail) => Ok(head + tail)
  }

  /** A full message body: the opcode, then every declared field. */
  function Encode(cat: Catalog<Type>, name: string, values: Values): Result<bytes, EncodeError> {
    if name !in cat.byName then Err(UnknownMessage)
    else
      var msg := cat.byName[name];
      match EncFields(cat, msg.fields, MESSAGE_PREFIX + msg.name, Struct(values))
      case Err(e) => Err(e)
      case Ok(bs) => Ok(LE(4, msg.id) + bs)
  }

  // ---------------------------------------------------------------- decoding

  /** A decoded item and the bytes after it; None when the item cannot be read. */
  type Parsed<T> = Option<(T, bytes)>

  function TakeUint(w: Width, buf: bytes): (r: Parsed<nat>)
    ensures r.Some? ==> |r.value.1| == |buf| - w && r.value.0 < Modulus(w)
  {
    ModulusIsPow256(w);
    if |buf| < w then None else Some((Val(buf[..w]), buf[w..]))
  }

  function DecUnits(n: nat, buf: bytes): (us: seq<Utf16.Unit>)
    requires |buf| >= 2 * n
    ensures |us| == n
  {
    if n == 0 then [] else
      ModulusIsPow256(2);
      [Val(buf[..2])] + DecUnits(n - 1, buf[2..])
  }

  function DecString(buf: bytes): (r: Parsed<Utf16.Text>)
    ensures r.Some? ==> |r.value.1| <= |buf|
  {
    match TakeUint(4, buf)
    case None => None
    case Some((n, rest)) =>
      if |rest| < 2 * n then None else Some((Utf16.Decode(DecUnits(n, rest)), rest[2 * n..]))
  }

  function DecUntilNul(buf: bytes): (r: Parsed<seq<Utf16.Unit>>)
    ensures r.Some? ==> |r.value.1| <= |buf|
    decreases |buf|
  {
    match TakeUint(2, buf)
    case None => None
    case Some((u, rest)) =>
      if u == 0 then Some(([], rest))
      else
        match DecUntilNul(rest)
        case None => None
        case Some((us, rest')) => Some(([u] + us, rest'))
  }

  /** The width of a primitive that always takes the same number of bytes. */
  function FixedWidth(p: Primitive): (w: Width)
    requires !p.String? && !p.CharArray?
  {
    match p
    case Integer(w, _) => w
    case Boolean => 1
    case Single => 4
    case Double => 8
  }

  function FromRaw(p: Primitive, raw: nat): Value
    requires !p.String? && !p.CharArray? && raw < Modulus(FixedWidth(p))
  {
    match p
    case Integer(w, signed) => if signed then Int(Signed(w, raw)) else UInt(raw)
    case Boolean => Bool(raw != 0)
    case Single => SingleBits(raw)
    case Double => DoubleBits(raw)
  }

  function DecPrim(p: Primitive, buf: bytes): (r: Parsed<Value>)
    ensures r.Some? ==> |r.value.1| <= |buf|
  {
    if p.String? then
      match DecString(buf)
      case None => None
      case Some((s, rest)) => Some((Text(s), rest))
    else if p.CharArray? then
      match DecUntilNul(buf)
      case None => None
      case Some((us, rest)) => Some((Text(Utf16.Decode(us)), rest))
    else
      match TakeUint(FixedWidth(p), buf)
      case None => None
      case Some((raw, rest)) => Some((FromRaw(p, raw), rest))
  }

  // Ranks that make decoding terminate: a struct reads strictly lower structs until a list's count is consumed.

  ghost function Rank(cat: Catalog<Type>): (rank: map<string, nat>)
    requires Acyclic(cat)
    ensures RankedBy(cat, rank)
  {
    var rank :| RankedBy(cat, rank);
    rank
  }

  ghost function TypeRank(cat: Catalog<Type>, ty: Type): nat
    requires Acyclic(cat)
  {
    var d := Direct(ty);
    if d.Some? && d.value in cat.structs then Rank(cat)[d.value] + 1 else 0
  }

  ghost function FieldsRank(cat: Catalog<Type>, fields: Layout<Type>): nat
    requires Acyclic(cat)
  {
    if fields == [] then 0
    else
      var head := TypeRank(cat, fields[0].ftype) + 1;
      var tail := FieldsRank(cat, fields[1..]);
      if head >= tail then head else tail
  }

  ghost function TypeSize(ty: Type): nat {
    match ty
    case Prim(_) => 1
    case Array(elem) => 1 + TypeSize(elem)
    case List(inner) => 1 + TypeSize(inner)
    case Named(_) => 1
  }

  lemma {:induction false} FieldsRankBound(cat: Catalog<Type>, fields: Layout<Type>, bound: nat)
    requires Acyclic(cat)
    requires forall f <- fields :: RankBelow(cat, Rank(cat), f, bound)
    ensures FieldsRank(cat, fields) <= bound + 1
  {
    if fields != [] {
      FieldsRankBound(cat, fields[1..], bound);
      assert RankBelow(cat, Rank(cat), fields[0], bound);
    }
  }

  lemma StructFieldsRank(cat: Catalog<Type>, n: string)
    requires Acyclic(cat) && n in cat.structs
    ensures FieldsRank(cat, cat.structs[n]) <= TypeRank(cat, Named(n))
  {
    FieldsRankBound(cat, cat.structs[n], Rank(cat)[n]);
  }

  /** Bytes left after the opcode of a message used as an element; its value is not checked. */
  function SkipElementPrefix(cat: Catalog<Type>, n: string, buf: bytes): (r: Option<bytes>)
    ensures r.Some? ==> |r.value| <= |buf|
  {
    if n in cat.messageFullNames then
      if |buf| < 4 then None else Some(buf[4..])
    else Some(buf)
  }

  function DecValue(cat: Catalog<Type>, ty: Type, owner: string, fname: string, buf: bytes): (r: Parsed<Value>)
    requires Acyclic(cat)
    ensures r.Some? ==> |r.value.1| <= |buf|
    decreases |buf|, TypeRank(cat, ty), TypeSize(ty), 0
  {
    match ty
    case Prim(p) => DecPrim(p, buf)
    case Array(elem) =>
      var key := SizeKey(owner, fname);
      if key !in cat.fixedArrays then None
      else
        (match DecItems(cat, elem, owner, fname, cat.fixedArrays[key], buf)
         case None => None
         case Some((items, rest)) => Some((Items(items), rest)))
    case List(inner) =>
      (match TakeUint(4, buf)
       case None => None
       case Some((n, rest)) =>
         match DecItems(cat, inner, owner, fname, n, rest)
         case None => None
         case Some((items, rest')) => Some((Items(items), rest')))
    case Named(n) =>
      if n !in cat.structs then None
      else
        match SkipElementPrefix(cat, n, buf)
        case None => None
        case Some(rest) =>
          StructFieldsRank(cat, n);
          match DecFields(cat, cat.structs[n], n, rest, map[])
          case None => None
          case Some((fields, rest')) => Some((Struct(fields), rest'))
  }

  function DecItems(cat: Catalog<Type>, ty: Type, owner: string, fname: string, n: nat, buf: bytes): (r: Parsed<seq<Value>>)
    requires Acyclic(cat)
    ensures r.Some? ==> |r.value.1| <= |buf| && |r.value.0| == n
    decreases |buf|, TypeRank(cat, ty), TypeSize(ty), n + 1
  {
    if n == 0 then Some(([], buf))
    else
      match DecValue(cat, ty, owner, fname, buf)
      case None => None
      case Some((v, rest)) =>
        match DecItems(cat, ty, owner, fname, n - 1, rest)
        case None => None
        case Some((vs, rest')) => Some(([v] + vs, rest'))
  }

  function DecFields(cat: Catalog<Type>, fields: Layout<Type>, owner: string, buf: bytes, acc: Values): (r: Parsed<Values>)
    requires Acyclic(cat)
    ensures r.Some? ==> |r.value.1| <= |buf|
    decreases |buf|, FieldsRank(cat, fields), 0, |fields|
  {
    if fields == [] then Some((acc, buf))
    else
      match DecValue(cat, fields[0].ftype, owner, fields[0].name, buf)
      case None => None
      case Some((v, rest)) => DecFields(cat, fields[1..], owner, rest, acc[fields[0].name := v])
  }

  /** The leading run of fields that can be read, and the bytes from the first one that cannot. */
  function DecRun(cat: Catalog<Type>, fields: Layout<Type>, owner: string, buf: bytes, acc: Values): (r: (Values, bytes))
    requires Acyclic(cat)
    ensures |r.1| <= |buf|
    decreases |fields|
  {
    if fields == [] then (acc, buf)
    else
      match DecValue(cat, fields[0].ftype, owner, fields[0].name, buf)
      case None => (acc, buf)
      case Some((v, rest)) => DecRun(cat, fields[1..], owner, rest, acc[fields[0].name := v])
  }

  lemma RunStep(cat: Catalog<Type>, fields: Layout<Type>, owner: string, buf: bytes, acc: Values)
    requires Acyclic(cat) && fields != []
    ensures DecRun(cat, fields, owner, buf, acc)
         == match DecValue(cat, fields[0].ftype, owner, fields[0].name, buf)
            case None => (acc, buf)
            case Some((v, rest)) => DecRun(cat, fields[1..], owner, rest, acc[fields[0].name := v])
  {
  }

  datatype Decoded =
    | TooShort(body: bytes)
    | UnknownOpcode(tail: bytes)
    | Decoded(name: string, values: Values, tail: bytes)

  function Decode(cat: Catalog<Type>, body: bytes): Decoded
    requires Acyclic(cat)
  {
    if |body| < 4 then TooShort(body)
    else
      ModulusIsPow256(4);
      var opcode := Val(body[..4]);
      if opcode !in cat.messages then UnknownOpcode(body[4..])
      else
        var msg := cat.messages[opcode];
        var (values, tail) := DecRun(cat, msg.fields, MESSAGE_PREFIX + msg.name, body[4..], map[]);
        Decoded(msg.name, values, tail)
  }
}
