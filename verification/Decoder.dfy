/** Decoding over the string-typed catalog, proved against the specification over the types the strings name. */
module Decoder {
  import opened Wire
  import opened Schema
  import opened TypeNames
  import opened CodecSpec
  import opened Reading

  method DecodePrimitive(rd: Reader, p: Primitive) returns (r: Option<Value>)
    requires rd.Valid()
    modifies rd`pos
    ensures rd.Valid() && old(rd.pos) <= rd.pos
    ensures Outcome(r, rd.Rest()) == DecPrim(p, old(rd.Rest()))
  {
    if p.String? {
      var s := rd.Str();
      return if s.None? then None else Some(Text(s.value));
    }
    if p.CharArray? {
      var s := rd.CharArray();
      return if s.None? then None else Some(Text(s.value));
    }
    var raw;
    var w := FixedWidth(p);
    if w == 1 {
      raw := rd.U8();
    } else if w == 2 {
      raw := rd.U16();
    } else if w == 4 {
      raw := rd.U32();
    } else {
      raw := rd.U64();
    }
    return if raw.None? then None else Some(FromRaw(p, raw.value));
  }

  lemma LayoutTail(fields: Layout<string>, i: nat)
    requires i < |fields|
    ensures ReadLayout(fields)[i..][0] == Field(fields[i].name, ParseType(fields[i].ftype))
    ensures ReadLayout(fields)[i..][1..] == ReadLayout(fields)[i + 1..]
  {
  }

  /** Reading one more field of a layout, in the terms of the specification. */
  lemma FieldStep(cat: Catalog<Type>, fields: Layout<Type>, owner: string, buf: bytes, acc: Values)
    requires Acyclic(cat) && fields != []
    ensures DecFields(cat, fields, owner, buf, acc)
         == match DecValue(cat, fields[0].ftype, owner, fields[0].name, buf)
            case None => None
            case Some((v, rest)) => DecFields(cat, fields[1..], owner, rest, acc[fields[0].name := v])
  {
  }

  lemma ItemStep(cat: Catalog<Type>, ty: Type, owner: string, fname: string, n: nat, buf: bytes, out: seq<Value>)
    requires Acyclic(cat) && n > 0
    ensures Prepend(out, DecItems(cat, ty, owner, fname, n, buf))
         == match DecValue(cat, ty, owner, fname, buf)
            case None => None
            case Some((v, rest)) => Prepend(out + [v], DecItems(cat, ty, owner, fname, n - 1, rest))
  {
    match DecValue(cat, ty, owner, fname, buf)
    case None =>
    case Some((v, rest)) =>
      PrependAgain(out, v, DecItems(cat, ty, owner, fname, n - 1, rest));
  }

  /** decodeValue: dispatch on the type string, in the order primitive, T[], List<T>, struct. */
  method DecodeValue(rd: Reader, cat: Catalog<string>, ftype: string, owner: string, fname: string)
    returns (r: Option<Value>)
    requires rd.Valid() && Acyclic(Read(cat))
    modifies rd`pos
    ensures rd.Valid() && old(rd.pos) <= rd.pos
    ensures Outcome(r, rd.Rest()) == DecValue(Read(cat), ParseType(ftype), owner, fname, old(rd.Rest()))
    decreases |rd.buf| - rd.pos, TypeRank(Read(cat), ParseType(ftype)), TypeSize(ParseType(ftype)), 0
  {
    if ftype in PRIMITIVES {
      r := DecodePrimitive(rd, PRIMITIVES[ftype]);
    } else if HasArraySuffix(ftype) {
      var key := SizeKey(owner, fname);
      if key !in cat.fixedArrays {
        return None;
      }
      r := DecodeItems(rd, cat, ElemOf(ftype), owner, fname, cat.fixedArrays[key]);
    } else if HasListPrefix(ftype) {
      ghost var before := rd.Rest();
      var n := rd.U32();
      if n.None? {
        return None;
      }
      assert |rd.Rest()| == |before| - 4;
      r := DecodeItems(rd, cat, InnerOf(ftype), owner, fname, n.value);
    } else if ftype in cat.structs {
      ReadStruct(cat, ftype);
      StructFieldsRank(Read(cat), ftype);
      r := DecodeStruct(rd, cat, ftype, owner, fname);
    } else {
      r := None;
    }
  }

  /** The loop over the elements of a fixed array or a counted list. */
  method DecodeItems(rd: Reader, cat: Catalog<string>, elem: string, owner: string, fname: string, n: nat)
    returns (r: Option<Value>)
    requires rd.Valid() && Acyclic(Read(cat))
    modifies rd`pos
    ensures rd.Valid() && old(rd.pos) <= rd.pos
    ensures match DecItems(Read(cat), ParseType(elem), owner, fname, n, old(rd.Rest()))
            case None => r == None
            case Some((items, rest)) => r == Some(Items(items)) && rd.Rest() == rest
    decreases |rd.buf| - rd.pos, TypeRank(Read(cat), ParseType(elem)), TypeSize(ParseType(elem)), n + 1
  {
    var out: seq<Value> := [];
    ghost var rcat, ty, start := Read(cat), ParseType(elem), rd.Rest();
    PrependNothing(DecItems(rcat, ty, owner, fname, n, start));
    for i := 0 to n
      invariant rd.Valid() && old(rd.pos) <= rd.pos
      invariant Prepend(out, DecItems(rcat, ty, owner, fname, n - i, rd.Rest()))
             == DecItems(rcat, ty, owner, fname, n, start)
    {
      ItemStep(rcat, ty, owner, fname, n - i, rd.Rest(), out);
      var v := DecodeValue(rd, cat, elem, owner, fname);
      if v.None? {
        return None;
      }
      out := out + [v.value];
    }
    assert out + [] == out;
    return Some(Items(out));
  }

  /** A nested struct, or a message used as an element, whose opcode is consumed without being looked at. */
  method DecodeStruct(rd: Reader, cat: Catalog<string>, n: string, owner: string, fname: string)
    returns (r: Option<Value>)
    requires rd.Valid() && Acyclic(Read(cat)) && n in cat.structs
    modifies rd`pos
    ensures rd.Valid() && old(rd.pos) <= rd.pos
    ensures Outcome(r, rd.Rest()) == DecValue(Read(cat), Named(n), owner, fname, old(rd.Rest()))
    decreases |rd.buf| - rd.pos, TypeRank(Read(cat), Named(n)), 0, 1
  {
    ghost var before := rd.Rest();
    if n in cat.messageFullNames {
      var opcode := rd.U32();
      if opcode.None? {
        return None;
      }
    }
    assert SkipElementPrefix(Read(cat), n, before) == Some(rd.Rest());
    var fields := DecodeFields(rd, cat, n);
    return if fields.None? then None else Some(Struct(fields.value));
  }

  /** The loop over a struct's fields. */
  method DecodeFields(rd: Reader, cat: Catalog<string>, n: string) returns (r: Option<Values>)
    requires rd.Valid() && Acyclic(Read(cat)) && n in cat.structs
    modifies rd`pos
    ensures rd.Valid() && old(rd.pos) <= rd.pos
    ensures Outcome(r, rd.Rest()) == DecFields(Read(cat), Read(cat).structs[n], n, old(rd.Rest()), map[])
    decreases |rd.buf| - rd.pos, TypeRank(Read(cat), Named(n)), 0, 0
  {
    ReadStruct(cat, n);
    var layout := cat.structs[n];
    ghost var rcat, rlayout := Read(cat), Read(cat).structs[n];
    var out: Values := map[];
    for i := 0 to |layout|
      invariant rd.Valid() && old(rd.pos) <= rd.pos
      invariant DecFields(rcat, rlayout[i..], n, rd.Rest(), out) == DecFields(rcat, rlayout, n, old(rd.Rest()), map[])
    {
      LayoutTail(layout, i);
      FieldStep(rcat, rlayout[i..], n, rd.Rest(), out);
      FieldRankBelow(rcat, n, i);
      var v := DecodeValue(rd, cat, layout[i].ftype, n, layout[i].name);
      if v.None? {
        return None;
      }
      out := out[layout[i].name := v.value];
    }
    return Some(out);
  }

  lemma FieldRankBelow(cat: Catalog<Type>, n: string, i: nat)
    requires Acyclic(cat) && n in cat.structs && i < |cat.structs[n]|
    ensures TypeRank(cat, cat.structs[n][i].ftype) < TypeRank(cat, Named(n))
  {
    assert RankBelow(cat, Rank(cat), cat.structs[n][i], Rank(cat)[n]);
  }

  /** The loop over a message's fields: the first that cannot be read is rolled back into the tail. */
  method DecodeRun(rd: Reader, cat: Catalog<string>, fields: Layout<string>, owner: string) returns (values: Values)
    requires rd.Valid() && Acyclic(Read(cat))
    modifies rd`pos
    ensures rd.Valid()
    ensures (values, rd.Rest()) == DecRun(Read(cat), ReadLayout(fields), owner, old(rd.Rest()), map[])
  {
    values := map[];
    ghost var rcat, rfields := Read(cat), ReadLayout(fields);
    var i := 0;
    while i < |fields|
      invariant 0 <= i <= |fields| && rd.Valid()
      invariant DecRun(rcat, rfields[i..], owner, rd.Rest(), values)
             == DecRun(rcat, rfields, owner, old(rd.Rest()), map[])
    {
      LayoutTail(fields, i);
      RunStep(rcat, rfields[i..], owner, rd.Rest(), values);
      var mark := rd.pos;
      var v := DecodeValue(rd, cat, fields[i].ftype, owner, fields[i].name);
      if v.None? {
        rd.pos := mark;
        return;
      }
      values := values[fields[i].name := v.value];
      i := i + 1;
    }
  }

  method Decode(cat: Catalog<string>, body: bytes) returns (r: Decoded)
    requires Acyclic(Read(cat))
    ensures r == CodecSpec.Decode(Read(cat), body)
  {
    if |body| < 4 {
      return TooShort(body);
    }
    ModulusIsPow256(4);
    var opcode := Val(body[..4]);
    var rd := new Reader(body[4..]);
    if opcode !in cat.messages {
      return UnknownOpcode(rd.buf[rd.pos..]);
    }
    var msg := cat.messages[opcode];
    assert Read(cat).messages[opcode] == ReadMessage(msg);
    var values := DecodeRun(rd, cat, msg.fields, MESSAGE_PREFIX + msg.name);
    return Decoded(msg.name, values, rd.buf[rd.pos..]);
  }
}
