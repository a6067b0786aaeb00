/** The laws of the codec: round trip, prefix-freeness, truncation, and re-encoding of decoded input. */
module CodecProofs {
  import opened Wire
  import opened Schema
  import opened CodecSpec
  import opened CodecValues
  import Utf16

  // ---------------------------------------------------------------- bytes

  lemma TakeLE(w: Width, v: nat, rest: bytes)
    requires v < Modulus(w)
    ensures TakeUint(w, LE(w, v) + rest) == Some((v, rest))
  {
    DropHead(LE(w, v), rest);
    ReadWritten(w, v);
  }

  lemma Concat3(a: bytes, b: bytes, c: bytes)
    ensures a + b + c == a + (b + c)
  {
  }

  lemma DropHead(a: bytes, b: bytes)
    ensures (a + b)[|a|..] == b && (a + b)[..|a|] == a
  {
  }

  lemma {:induction false} UnitsRoundTrip(us: seq<Utf16.Unit>, rest: bytes)
    ensures DecUnits(|us|, EncUnits(us) + rest) == us
  {
    if us != [] {
      var tail := EncUnits(us[1..]) + rest;
      UnitsRoundTrip(us[1..], rest);
      Concat3(LE(2, us[0]), EncUnits(us[1..]), rest);
      DropHead(LE(2, us[0]), tail);
      ReadWritten(2, us[0]);
      assert us == [us[0]] + us[1..];
    }
  }

  lemma {:induction false} UntilNulRoundTrip(us: seq<Utf16.Unit>, rest: bytes)
    requires Utf16.NulFree(us)
    ensures DecUntilNul(EncUnits(us) + LE(2, 0) + rest) == Some((us, rest))
  {
    if us == [] {
      assert EncUnits(us) + LE(2, 0) + rest == LE(2, 0) + rest;
      TakeLE(2, 0, rest);
    } else {
      UntilNulRoundTrip(us[1..], rest);
      var tail := EncUnits(us[1..]) + LE(2, 0) + rest;
      assert EncUnits(us) + LE(2, 0) + rest == LE(2, us[0]) + tail;
      TakeLE(2, us[0], tail);
      assert us[0] != 0;
      assert [us[0]] + us[1..] == us;
    }
  }

  /** Reinterpreting 64-bit integers between signed and unsigned does not change the bits a field keeps. */
  lemma CoercionKeepsBits(w: Width, v: Value)
    requires v.Int? || v.UInt?
    ensures Truncate(w, ToInt64(v).value) == Truncate(w, Number(v))
    ensures Truncate(w, ToUint64(v).value) == Truncate(w, Number(v))
  {
    TruncateShift(w, Number(v), 1);
    TruncateShift(w, Number(v), -1);
  }

  lemma FixedRoundTrip(p: Primitive, raw: nat, rest: bytes)
    requires !p.String? && !p.CharArray? && raw < Modulus(FixedWidth(p))
    ensures DecPrim(p, LE(FixedWidth(p), raw) + rest) == Some((FromRaw(p, raw), rest))
  {
    TakeLE(FixedWidth(p), raw, rest);
  }

  lemma IntegerRoundTrip(w: Width, signed: bool, v: Value, rest: bytes)
    requires v.Int? || v.UInt?
    ensures EncPrim(Integer(w, signed), v) == Ok(LE(w, Truncate(w, Number(v))))
    ensures DecPrim(Integer(w, signed), LE(w, Truncate(w, Number(v))) + rest)
         == Some((NormalPrim(Integer(w, signed), v), rest))
  {
    CoercionKeepsBits(w, v);
    FixedRoundTrip(Integer(w, signed), Truncate(w, Number(v)), rest);
  }

  lemma CountedUnits(us: seq<Utf16.Unit>, rest: bytes)
    requires |us| < 0x1_0000_0000
    ensures DecString(LE(4, |us|) + (EncUnits(us) + rest)) == Some((Utf16.Decode(us), rest))
  {
    hide LE, EncUnits, DecUnits, TakeUint;
    TakeLE(4, |us|, EncUnits(us) + rest);
    UnitsRoundTrip(us, rest);
    DropHead(EncUnits(us), rest);
  }

  lemma StringRoundTrip(s: Utf16.Text, rest: bytes)
    requires |Utf16.Encode(s)| < 0x1_0000_0000
    ensures DecString(LE(4, |Utf16.Encode(s)|) + EncUnits(Utf16.Encode(s)) + rest) == Some((s, rest))
  {
    var us := Utf16.Encode(s);
    Concat3(LE(4, |us|), EncUnits(us), rest);
    CountedUnits(us, rest);
    Utf16.DecodeEncode(s);
  }

  lemma PrimRoundTrip(p: Primitive, v: Value, rest: bytes)
    requires FitsPrim(p, v, Wireable)
    ensures EncPrim(p, v).Ok?
    ensures DecPrim(p, EncPrim(p, v).value + rest) == Some((NormalPrim(p, v), rest))
  {
    match p
    case Integer(w, signed) => IntegerRoundTrip(w, signed, v, rest);
    case Boolean => FixedRoundTrip(p, if v.b then 1 else 0, rest);
    case Single => FixedRoundTrip(p, v.b32, rest);
    case Double => FixedRoundTrip(p, v.b64, rest);
    case String => StringRoundTrip(v.s, rest);
    case CharArray =>
      Utf16.NulFreeEncode(v.s);
      UntilNulRoundTrip(Utf16.Encode(v.s), rest);
      Utf16.DecodeEncode(v.s);
  }

  // ---------------------------------------------------------------- round trip

  lemma ListRoundTrip(cat: Catalog<Type>, inner: Type, owner: string, fname: string, n: nat, vs: seq<Value>,
                      bs: bytes, rest: bytes)
    requires Acyclic(cat)
    requires n < 0x1_0000_0000
    requires DecItems(cat, inner, owner, fname, n, bs + rest) == Some((vs, rest))
    ensures DecValue(cat, List(inner), owner, fname, LE(4, n) + bs + rest) == Some((Items(vs), rest))
  {
    Concat3(LE(4, n), bs, rest);
    TakeLE(4, n, bs + rest);
  }

  lemma SkipWritten(cat: Catalog<Type>, n: string, rest: bytes)
    requires cat.ElementsKnown()
    ensures SkipElementPrefix(cat, n, ElementPrefix(cat, n) + rest) == Some(rest)
  {
    if n in cat.messageFullNames {
      var prefix := ElementPrefix(cat, n);
      assert |prefix| == 4;
      assert (prefix + rest)[4..] == rest;
    } else {
      assert [] + rest == rest;
    }
  }

  lemma DecStruct(cat: Catalog<Type>, n: string, owner: string, fname: string, buf: bytes, mid: bytes,
                  fields: Values, rest: bytes)
    requires Acyclic(cat) && n in cat.structs
    requires SkipElementPrefix(cat, n, buf) == Some(mid)
    requires DecFields(cat, cat.structs[n], n, mid, map[]) == Some((fields, rest))
    ensures DecValue(cat, Named(n), owner, fname, buf) == Some((Struct(fields), rest))
  {
  }

  lemma StructRoundTrip(cat: Catalog<Type>, n: string, owner: string, fname: string, fields: Values,
                        bs: bytes, rest: bytes)
    requires Acyclic(cat) && cat.ElementsKnown()
    requires n in cat.structs
    requires DecFields(cat, cat.structs[n], n, bs + rest, map[]) == Some((fields, rest))
    ensures DecValue(cat, Named(n), owner, fname, ElementPrefix(cat, n) + bs + rest) == Some((Struct(fields), rest))
  {
    Concat3(ElementPrefix(cat, n), bs, rest);
    SkipWritten(cat, n, bs + rest);
    DecStruct(cat, n, owner, fname, ElementPrefix(cat, n) + bs + rest, bs + rest, fields, rest);
  }

  lemma DecItemsCons(cat: Catalog<Type>, ty: Type, owner: string, fname: string, n: nat, buf: bytes,
                     v: Value, mid: bytes, vs: seq<Value>, rest: bytes)
    requires Acyclic(cat) && n > 0
    requires DecValue(cat, ty, owner, fname, buf) == Some((v, mid))
    requires DecItems(cat, ty, owner, fname, n - 1, mid) == Some((vs, rest))
    ensures DecItems(cat, ty, owner, fname, n, buf) == Some(([v] + vs, rest))
  {
  }

  lemma {:induction false} ValueRoundTrip(cat: Catalog<Type>, ty: Type, owner: string, fname: string, v: Value, rest: bytes)
    requires Acyclic(cat) && cat.ElementsKnown()
    requires Fits(cat, ty, owner, fname, v, Wireable)
    ensures EncValue(cat, ty, owner, fname, v).Ok?
    ensures DecValue(cat, ty, owner, fname, EncValue(cat, ty, owner, fname, v).value + rest)
         == Some((Normal(cat, ty, v), rest))
    decreases v, 1, ty, 0
  {
    match ty
    case Prim(p) => PrimRoundTrip(p, v, rest);
    case Array(elem) => ItemsRoundTrip(cat, elem, owner, fname, v.items, rest);
    case List(inner) =>
      ItemsRoundTrip(cat, inner, owner, fname, v.items, rest);
      ListRoundTrip(cat, inner, owner, fname, |v.items|, NormalItems(cat, inner, v.items),
                    EncItems(cat, inner, owner, fname, v.items).value, rest);
    case Named(n) =>
      FieldsRoundTrip(cat, cat.structs[n], n, v, rest, map[]);
      StructRoundTrip(cat, n, owner, fname, NormalFields(cat, cat.structs[n], v, map[]),
                      EncFields(cat, cat.structs[n], n, v).value, rest);
  }

  lemma {:induction false} ItemsRoundTrip(
      cat: Catalog<Type>, ty: Type, owner: string, fname: string, items: seq<Value>, rest: bytes)
    requires Acyclic(cat) && cat.ElementsKnown()
    requires FitsItems(cat, ty, owner, fname, items, Wireable)
    ensures EncItems(cat, ty, owner, fname, items).Ok?
    ensures DecItems(cat, ty, owner, fname, |items|, EncItems(cat, ty, owner, fname, items).value + rest)
         == Some((NormalItems(cat, ty, items), rest))
    decreases items, 0
  {
    if items == [] {
      assert [] + rest == rest;
    } else {
      ItemsRoundTrip(cat, ty, owner, fname, items[1..], rest);
      var tail := EncItems(cat, ty, owner, fname, items[1..]).value;
      ValueRoundTrip(cat, ty, owner, fname, items[0], tail + rest);
      var head := EncValue(cat, ty, owner, fname, items[0]).value;
      assert EncItems(cat, ty, owner, fname, items) == Ok(head + tail);
      Concat3(head, tail, rest);
      DecItemsCons(cat, ty, owner, fname, |items|, head + tail + rest, Normal(cat, ty, items[0]), tail + rest,
                   NormalItems(cat, ty, items[1..]), rest);
    }
  }

  lemma {:induction false} FieldsRoundTrip(
      cat: Catalog<Type>, fields: Layout<Type>, owner: string, v: Value, rest: bytes, acc: Values)
    requires Acyclic(cat) && cat.ElementsKnown()
    requires v.Struct? && FitsFields(cat, fields, owner, v, Wireable)
    ensures EncFields(cat, fields, owner, v).Ok?
    ensures DecFields(cat, fields, owner, EncFields(cat, fields, owner, v).value + rest, acc)
         == Some((NormalFields(cat, fields, v, acc), rest))
    decreases v, 0, fields
  {
    if fields == [] {
      assert [] + rest == rest;
    } else {
      var f := fields[0];
      var nv := Normal(cat, f.ftype, v.fields[f.name]);
      FieldsRoundTrip(cat, fields[1..], owner, v, rest, acc[f.name := nv]);
      var tail := EncFields(cat, fields[1..], owner, v).value;
      ValueRoundTrip(cat, f.ftype, owner, f.name, v.fields[f.name], tail + rest);
      Concat3(EncValue(cat, f.ftype, owner, f.name, v.fields[f.name]).value, tail, rest);
    }
  }

  // ---------------------------------------------------------------- whole messages

  lemma {:induction false} RunOfFields(cat: Catalog<Type>, fields: Layout<Type>, owner: string, buf: bytes, acc: Values)
    requires Acyclic(cat)
    requires DecFields(cat, fields, owner, buf, acc).Some?
    ensures DecRun(cat, fields, owner, buf, acc) == DecFields(cat, fields, owner, buf, acc).value
  {
    if fields != [] {
      var (v, rest) := DecValue(cat, fields[0].ftype, owner, fields[0].name, buf).value;
      RunOfFields(cat, fields[1..], owner, rest, acc[fields[0].name := v]);
    }
  }

  ghost predicate FitsMessage(cat: Catalog<Type>, name: string, values: Values, d: Demand) {
    && name in cat.byName
    && FitsFields(cat, cat.byName[name].fields, MESSAGE_PREFIX + cat.byName[name].name, Struct(values), d)
  }

  /** Decode finds the message by its opcode and reads the run of its fields. */
  lemma DecodeBody(cat: Catalog<Type>, name: string, buf: bytes)
    requires WellFormed(cat) && name in cat.byName
    ensures var msg := cat.byName[name];
            var (values, tail) := DecRun(cat, msg.fields, MESSAGE_PREFIX + msg.name, buf, map[]);
            Decode(cat, LE(4, msg.id) + buf) == Decoded(name, values, tail)
  {
    var msg := cat.byName[name];
    DropHead(LE(4, msg.id), buf);
    ReadWritten(4, msg.id);
  }

  /** Decode gives back what Encode was given, in normal form, and leaves alone whatever follows. */
  lemma RoundTrip(cat: Catalog<Type>, name: string, values: Values, rest: bytes)
    requires WellFormed(cat)
    requires FitsMessage(cat, name, values, Wireable)
    ensures Encode(cat, name, values).Ok?
    ensures Decode(cat, Encode(cat, name, values).value + rest)
         == Decoded(name, NormalFields(cat, cat.byName[name].fields, Struct(values), map[]), rest)
  {
    var msg := cat.byName[name];
    var owner := MESSAGE_PREFIX + msg.name;
    FieldsRoundTrip(cat, msg.fields, owner, Struct(values), rest, map[]);
    var bs := EncFields(cat, msg.fields, owner, Struct(values)).value;
    Concat3(LE(4, msg.id), bs, rest);
    RunOfFields(cat, msg.fields, owner, bs + rest, map[]);
    DecodeBody(cat, name, bs + rest);
  }
}
