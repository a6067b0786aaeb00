/** The encoding cursor and encoding over the string-typed catalog. */
module Encoder {
  import opened Wire
  import opened Schema
  import opened TypeNames
  import opened CodecSpec
  import Utf16

  class Writer {
    var buf: bytes

    constructor ()
      ensures buf == []
    {
      buf := [];
    }

    /** AppendUint8/16/32/64: the low w bytes of v, least significant first. */
    method Uint(w: Width, v: nat)
      modifies this
      ensures buf == old(buf) + LE(w, v)
    {
      buf := buf + LE(w, v);
    }

    method Units(us: seq<Utf16.Unit>)
      modifies this
      ensures buf == old(buf) + EncUnits(us)
    {
      assert us[0..] == us;
      for i := 0 to |us|
        invariant buf + EncUnits(us[i..]) == old(buf) + EncUnits(us)
      {
        ghost var here := buf;
        assert us[i..][0] == us[i] && us[i..][1..] == us[i + 1..];
        Uint(2, us[i]);
        assert here + (LE(2, us[i]) + EncUnits(us[i + 1..])) == here + LE(2, us[i]) + EncUnits(us[i + 1..]);
      }
    }

    method Str(s: Utf16.Text)
      modifies this
      ensures buf == old(buf) + (LE(4, |Utf16.Encode(s)|) + EncUnits(Utf16.Encode(s)))
    {
      var us := Utf16.Encode(s);
      Uint(4, |us|);
      Units(us);
    }

    method CharArray(s: Utf16.Text)
      modifies this
      ensures buf == old(buf) + (EncUnits(Utf16.Encode(s)) + LE(2, 0))
    {
      Units(Utf16.Encode(s));
      Uint(2, 0);
    }
  }

  /** A failed encoding reports the specification's error; a successful one appends exactly its bytes. */
  ghost predicate Wrote(err: Option<EncodeError>, before: bytes, after: bytes, spec: Result<bytes, EncodeError>) {
    match spec
    case Ok(bs) => err == None && after == before + bs
    case Err(e) => err == Some(e)
  }

  method EncodePrimitive(w: Writer, p: Primitive, v: Value) returns (err: Option<EncodeError>)
    modifies w
    ensures Wrote(err, old(w.buf), w.buf, EncPrim(p, v))
  {
    err := None;
    match p {
      case Integer(width, signed) =>
        if signed {
          var n := ToInt64(v);
          w.Uint(width, if n.Some? then Truncate(width, n.value) else 0);
          err := if n.Some? then None else Some(ExpectedInteger);
        } else {
          var n := ToUint64(v);
          w.Uint(width, if n.Some? then Truncate(width, n.value) else 0);
          err := if n.Some? then None else Some(ExpectedInteger);
        }
      case Boolean =>
        if !v.Bool? {
          return Some(ExpectedBool);
        }
        w.Uint(1, if v.b then 1 else 0);
      case Single =>
        w.Uint(4, if v.SingleBits? then v.b32 else 0);
        err := if v.SingleBits? then None else Some(ExpectedFloat);
      case Double =>
        w.Uint(8, if v.DoubleBits? then v.b64 else 0);
        err := if v.DoubleBits? then None else Some(ExpectedFloat);
      case String =>
        if !v.Text? {
          return Some(ExpectedText);
        }
        w.Str(v.s);
      case CharArray =>
        if !v.Text? {
          return Some(ExpectedText);
        }
        w.CharArray(v.s);
    }
  }

  lemma SamePrefix(cat: Catalog<string>, n: string)
    ensures ElementPrefix(Read(cat), n) == ElementPrefix(cat, n)
  {
  }

  function PrependBytes(bs: bytes, r: Result<bytes, EncodeError>): Result<bytes, EncodeError> {
    match r
    case Ok(tail) => Ok(bs + tail)
    case Err(e) => Err(e)
  }

  lemma PrependTwice(a: bytes, b: bytes, r: Result<bytes, EncodeError>)
    ensures PrependBytes(a, PrependBytes(b, r)) == PrependBytes(a + b, r)
  {
    match r
    case Ok(tail) => assert a + (b + tail) == a + b + tail;
    case Err(_) =>
  }

  lemma ItemsStep(cat: Catalog<Type>, ty: Type, owner: string, fname: string, items: seq<Value>, i: nat, before: bytes)
    requires i < |items|
    ensures PrependBytes(before, EncItems(cat, ty, owner, fname, items[i..]))
         == match EncValue(cat, ty, owner, fname, items[i])
            case Err(e) => Err(e)
            case Ok(bs) => PrependBytes(before + bs, EncItems(cat, ty, owner, fname, items[i + 1..]))
  {
    assert items[i..][0] == items[i] && items[i..][1..] == items[i + 1..];
    match EncValue(cat, ty, owner, fname, items[i])
    case Err(_) =>
    case Ok(bs) => PrependTwice(before, bs, EncItems(cat, ty, owner, fname, items[i + 1..]));
  }

  lemma FieldsStep(cat: Catalog<Type>, fields: Layout<Type>, owner: string, v: Value, i: nat, before: bytes)
    requires v.Struct? && i < |fields|
    ensures PrependBytes(before, EncFields(cat, fields[i..], owner, v))
         == if fields[i].name !in v.fields then Err(MissingField(fields[i].name))
            else match EncValue(cat, fields[i].ftype, owner, fields[i].name, v.fields[fields[i].name])
                 case Err(e) => Err(e)
                 case Ok(bs) => PrependBytes(before + bs, EncFields(cat, fields[i + 1..], owner, v))
  {
    assert fields[i..][0] == fields[i] && fields[i..][1..] == fields[i + 1..];
    if fields[i].name in v.fields {
      match EncValue(cat, fields[i].ftype, owner, fields[i].name, v.fields[fields[i].name])
      case Err(_) =>
      case Ok(bs) => PrependTwice(before, bs, EncFields(cat, fields[i + 1..], owner, v));
    }
  }

  /** encodeValue: dispatch on the type string, in the order primitive, T[], List<T>, struct. */
  method EncodeValue(w: Writer, cat: Catalog<string>, ftype: string, v: Value, owner: string, fname: string)
    returns (err: Option<EncodeError>)
    modifies w
    ensures Wrote(err, old(w.buf), w.buf, EncValue(Read(cat), ParseType(ftype), owner, fname, v))
    decreases v, 1, |ftype|, 0
  {
    if ftype in PRIMITIVES {
      err := EncodePrimitive(w, PRIMITIVES[ftype], v);
    } else if HasArraySuffix(ftype) {
      var key := SizeKey(owner, fname);
      if key !in cat.fixedArrays {
        return Some(UnsizedArray);
      }
      if !v.Items? {
        return Some(ExpectedItems);
      }
      if |v.items| != cat.fixedArrays[key] {
        return Some(WrongLength);
      }
      err := EncodeItems(w, cat, ElemOf(ftype), v.items, owner, fname);
    } else if HasListPrefix(ftype) {
      if !v.Items? {
        return Some(ExpectedItems);
      }
      ghost var before := w.buf;
      w.Uint(4, |v.items|);
      err := EncodeItems(w, cat, InnerOf(ftype), v.items, owner, fname);
      ghost var spec := EncItems(Read(cat), ParseType(InnerOf(ftype)), owner, fname, v.items);
      PrependTwice(before, LE(4, |v.items|), spec);
    } else if ftype in cat.structs {
      ghost var before := w.buf;
      w.buf := w.buf + ElementPrefix(cat, ftype);
      if !v.Struct? {
        return Some(ExpectedStruct);
      }
      ReadStruct(cat, ftype);
      SamePrefix(cat, ftype);
      err := EncodeFields(w, cat, cat.structs[ftype], ftype, v);
      ghost var spec := EncFields(Read(cat), ReadLayout(cat.structs[ftype]), ftype, v);
      PrependTwice(before, ElementPrefix(cat, ftype), spec);
    } else {
      return Some(CannotEncode);
    }
  }

  method EncodeItems(w: Writer, cat: Catalog<string>, elem: string, items: seq<Value>, owner: string, fname: string)
    returns (err: Option<EncodeError>)
    modifies w
    ensures Wrote(err, old(w.buf), w.buf, EncItems(Read(cat), ParseType(elem), owner, fname, items))
    decreases items, 0
  {
    ghost var rcat, ty := Read(cat), ParseType(elem);
    assert items[0..] == items;
    for i := 0 to |items|
      invariant PrependBytes(w.buf, EncItems(rcat, ty, owner, fname, items[i..]))
             == PrependBytes(old(w.buf), EncItems(rcat, ty, owner, fname, items))
    {
      ItemsStep(rcat, ty, owner, fname, items, i, w.buf);
      err := EncodeValue(w, cat, elem, items[i], owner, fname);
      if err.Some? {
        return;
      }
    }
    assert w.buf + [] == w.buf;
    return None;
  }

  method EncodeFields(w: Writer, cat: Catalog<string>, fields: Layout<string>, owner: string, v: Value)
    returns (err: Option<EncodeError>)
    requires v.Struct?
    modifies w
    ensures Wrote(err, old(w.buf), w.buf, EncFields(Read(cat), ReadLayout(fields), owner, v))
    decreases v, 0, |fields|
  {
    ghost var rcat, rfields := Read(cat), ReadLayout(fields);
    assert rfields[0..] == rfields;
    for i := 0 to |fields|
      invariant PrependBytes(w.buf, EncFields(rcat, rfields[i..], owner, v))
             == PrependBytes(old(w.buf), EncFields(rcat, rfields, owner, v))
    {
      FieldsStep(rcat, rfields, owner, v, i, w.buf);
      if fields[i].name !in v.fields {
        return Some(MissingField(fields[i].name));
      }
      err := EncodeValue(w, cat, fields[i].ftype, v.fields[fields[i].name], owner, fields[i].name);
      if err.Some? {
        return;
      }
    }
    assert w.buf + [] == w.buf;
    return None;
  }

  method Encode(cat: Catalog<string>, name: string, values: Values) returns (r: Result<bytes, EncodeError>)
    ensures r == CodecSpec.Encode(Read(cat), name, values)
  {
    if name !in cat.byName {
      return Err(UnknownMessage);
    }
    var msg := cat.byName[name];
    assert Read(cat).byName[name] == ReadMessage(msg);
    var w := new Writer();
    w.Uint(4, msg.id);
    assert w.buf == LE(4, msg.id);
    var err := EncodeFields(w, cat, msg.fields, MESSAGE_PREFIX + msg.name, Struct(values));
    return if err.Some? then Err(err.value) else Ok(w.buf);
  }
}
