/** Exactly which values survive the wire. */
module CodecExact {
  import opened Wire
  import opened Schema
  import opened CodecSpec
  import opened CodecValues
  import opened CodecProofs
  import opened CodecInput
  import Utf16

  /** Each field's normal value is found under its own name. */
  ghost predicate NormalUnder(cat: Catalog<Type>, fields: Layout<Type>, v: Value, m: Values)
    requires v.Struct?
  {
    forall f <- fields :: NormalAt(cat, f, v, m)
  }

  ghost predicate NormalAt(cat: Catalog<Type>, f: Field<Type>, v: Value, m: Values)
    requires v.Struct?
  {
    f.name in v.fields && f.name in m && m[f.name] == Normal(cat, f.ftype, v.fields[f.name])
  }

  lemma {:induction false} NormalLookup(cat: Catalog<Type>, fields: Layout<Type>, owner: string, v: Value, acc: Values)
    requires v.Struct? && FitsFields(cat, fields, owner, v, Shape) && Distinct(fields)
    ensures NormalUnder(cat, fields, v, NormalFields(cat, fields, v, acc))
    ensures NormalFields(cat, fields, v, acc).Keys == acc.Keys + Names(fields)
    ensures forall n <- acc.Keys - Names(fields) :: NormalFields(cat, fields, v, acc)[n] == acc[n]
    decreases |fields|
  {
    if fields != [] {
      var f := fields[0];
      DistinctTail(fields);
      NamesCons(fields);
      NormalLookup(cat, fields[1..], owner, v, acc[f.name := Normal(cat, f.ftype, v.fields[f.name])]);
      assert fields == [f] + fields[1..];
    }
  }

  lemma PrimFitsBack(p: Primitive, v: Value)
    requires FitsPrim(p, v, Shape) && FitsPrim(p, NormalPrim(p, v), Wireable)
    ensures FitsPrim(p, v, Wireable)
  {
  }

  /** Normalising touches only integers, so it cannot make a value the wire cannot represent into one it can. */
  lemma {:induction false} FitsBack(cat: Catalog<Type>, ty: Type, owner: string, fname: string, v: Value)
    requires cat.DistinctFields()
    requires Fits(cat, ty, owner, fname, v, Shape) && Fits(cat, ty, owner, fname, Normal(cat, ty, v), Wireable)
    ensures Fits(cat, ty, owner, fname, v, Wireable)
    decreases v, 1, ty, 0
  {
    match ty
    case Prim(p) => PrimFitsBack(p, v);
    case Array(elem) => ItemsFitBack(cat, elem, owner, fname, v.items);
    case List(inner) => ItemsFitBack(cat, inner, owner, fname, v.items);
    case Named(n) =>
      NormalLookup(cat, cat.structs[n], n, v, map[]);
      FieldsFitBack(cat, cat.structs[n], n, v, NormalFields(cat, cat.structs[n], v, map[]));
  }

  lemma {:induction false} ItemsFitBack(cat: Catalog<Type>, ty: Type, owner: string, fname: string, items: seq<Value>)
    requires cat.DistinctFields()
    requires FitsItems(cat, ty, owner, fname, items, Shape)
    requires FitsItems(cat, ty, owner, fname, NormalItems(cat, ty, items), Wireable)
    ensures FitsItems(cat, ty, owner, fname, items, Wireable)
    decreases items, 0
  {
    if items != [] {
      var normal := NormalItems(cat, ty, items);
      assert normal[0] == Normal(cat, ty, items[0]) && normal[1..] == NormalItems(cat, ty, items[1..]);
      FitsBack(cat, ty, owner, fname, items[0]);
      ItemsFitBack(cat, ty, owner, fname, items[1..]);
    }
  }

  lemma {:induction false} FieldsFitBack(cat: Catalog<Type>, fields: Layout<Type>, owner: string, v: Value, m: Values)
    requires cat.DistinctFields()
    requires v.Struct? && FitsFields(cat, fields, owner, v, Shape) && NormalUnder(cat, fields, v, m)
    requires FitsFields(cat, fields, owner, Struct(m), Wireable)
    ensures FitsFields(cat, fields, owner, v, Wireable)
    decreases v, 0, fields
  {
    if fields != [] {
      var f := fields[0];
      assert NormalAt(cat, f, v, m);
      FitsBack(cat, f.ftype, owner, f.name, v.fields[f.name]);
      FieldsFitBack(cat, fields[1..], owner, v, m);
    }
  }

  /** A System.Char[] text is cut at its first NUL, and the rest of its units is left to be read as other fields. */
  lemma NulCutsText(before: Utf16.Text, after: Utf16.Text, rest: bytes)
    requires Utf16.NulFree(before)
    ensures EncPrim(CharArray, Text(before + [0] + after)).Ok?
    ensures DecPrim(CharArray, EncPrim(CharArray, Text(before + [0] + after)).value + rest)
         == Some((Text(before), EncUnits(Utf16.Encode(after)) + LE(2, 0) + rest))
  {
    Utf16.NulFreeEncode(before);
    Utf16.DecodeEncode(before);
    NulUnits(before, after);
    NulCutsUnits(Utf16.Encode(before), Utf16.Encode(after), rest);
  }

  lemma NulUnits(before: Utf16.Text, after: Utf16.Text)
    ensures Utf16.Encode(before + [0] + after) == Utf16.Encode(before) + ([0] + Utf16.Encode(after))
  {
    assert before + [0] + after == before + ([0] + after);
    EncodeConcat(before, [0] + after);
    assert ([0] + after)[1..] == after;
  }

  lemma NulCutsUnits(us: seq<Utf16.Unit>, vs: seq<Utf16.Unit>, rest: bytes)
    requires Utf16.NulFree(us)
    ensures DecUntilNul(EncUnits(us + ([0] + vs)) + LE(2, 0) + rest) == Some((us, EncUnits(vs) + LE(2, 0) + rest))
  {
    hide DecUntilNul, LE;
    UnitsConcat(us, [0] + vs);
    assert ([0] + vs)[1..] == vs;
    var tail := EncUnits(vs) + LE(2, 0) + rest;
    assert EncUnits(us + ([0] + vs)) + LE(2, 0) + rest == EncUnits(us) + LE(2, 0) + tail;
    UntilNulRoundTrip(us, tail);
  }

  lemma {:induction false} EncodeConcat(a: Utf16.Text, b: Utf16.Text)
    ensures Utf16.Encode(a + b) == Utf16.Encode(a) + Utf16.Encode(b)
  {
    hide Utf16.Encode, Utf16.EncodeRune;
    if a == [] {
      EncodeNothing();
      assert a + b == b;
    } else {
      EncodeConcat(a[1..], b);
      EncodeFirst(a);
      EncodeFirst(a + b);
      assert (a + b)[1..] == a[1..] + b;
      var first, rest := Utf16.EncodeRune(a[0]), Utf16.Encode(a[1..]);
      assert first + (rest + Utf16.Encode(b)) == first + rest + Utf16.Encode(b);
    }
  }

  lemma EncodeNothing()
    ensures Utf16.Encode([]) == []
  {
  }

  lemma EncodeFirst(s: Utf16.Text)
    requires s != []
    ensures Utf16.Encode(s) == Utf16.EncodeRune(s[0]) + Utf16.Encode(s[1..])
  {
    hide Utf16.EncodeRune;
  }

  lemma {:induction false} UnitsConcat(a: seq<Utf16.Unit>, b: seq<Utf16.Unit>)
    ensures EncUnits(a + b) == EncUnits(a) + EncUnits(b)
  {
    hide LE;
    if a == [] {
      assert a + b == b;
    } else {
      UnitsConcat(a[1..], b);
      assert (a + b)[1..] == a[1..] + b;
    }
  }

  /**
   * Whenever a message encodes, decoding it gives its normal form back, leaving alone what follows, exactly when the
   * wire can represent it: its fixed NUL-terminated texts hold no NUL, and its counts stay below 2^32.
   */
  lemma RoundTripExactly(cat: Catalog<Type>, name: string, values: Values, body: bytes, rest: bytes)
    requires WellFormed(cat) && Encode(cat, name, values) == Ok(body)
    ensures Decode(cat, body + rest)
            == Decoded(name, NormalFields(cat, cat.byName[name].fields, Struct(values), map[]), rest)
            <==> FitsMessage(cat, name, values, Wireable)
  {
    EncodeSucceedsIff(cat, name, values);
    MessageDistinct(cat, name);
    var fields := cat.byName[name].fields;
    var owner := MESSAGE_PREFIX + name;
    var normal := NormalFields(cat, fields, Struct(values), map[]);
    if FitsMessage(cat, name, values, Wireable) {
      RoundTrip(cat, name, values, rest);
    } else if Decode(cat, body + rest) == Decoded(name, normal, rest) {
      var buf := (body + rest)[4..];
      NormalLookup(cat, fields, owner, Struct(values), map[]);
      CompleteRun(cat, fields, owner, buf, map[]);
      FieldsReencode(cat, fields, owner, buf, map[], normal, rest);
      CanonicalFieldsNormal(cat, fields, owner, Struct(normal), map[]);
      FieldsFitBack(cat, fields, owner, Struct(values), normal);
      assert false;
    }
  }
}
