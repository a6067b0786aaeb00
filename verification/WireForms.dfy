/** What fields of each named type look like on the wire, over catalogs whose types are strings. */
module WireForms {
  import opened Wire
  import opened Schema
  import opened TypeNames
  import opened CodecSpec
  import opened CodecValues
  import opened CodecProofs
  import opened ZeroValues
  import Utf16

  /** A message with a single field, of the named type. */
  ghost predicate OneField(cat: Catalog<string>, name: string, fname: string, t: string) {
    WellFormed(Read(cat)) && name in cat.byName && cat.byName[name].fields == [Field(fname, t)]
  }

  /** The message carries v as its opcode and bs; whatever follows, that reads back as v; and its zero is z. */
  ghost predicate Carries(cat: Catalog<string>, name: string, fname: string, v: Value, bs: bytes, z: Value)
    requires WellFormed(Read(cat)) && name in cat.byName
  {
    && Encode(Read(cat), name, map[fname := v]) == Ok(LE(4, cat.byName[name].id) + bs)
    && (forall rest :: Decode(Read(cat), LE(4, cat.byName[name].id) + bs + rest) == Decoded(name, map[fname := v], rest))
    && MessageZero(Read(cat), name) == Some(map[fname := z])
  }

  lemma CarriesOne(cat: Catalog<string>, name: string, fname: string, t: string, v: Value, bs: bytes, z: Value)
    requires OneField(cat, name, fname, t)
    requires var ty, owner := ParseType(t), MESSAGE_PREFIX + name;
             && Fits(Read(cat), ty, owner, fname, v, Wireable) && Normal(Read(cat), ty, v) == v
             && EncValue(Read(cat), ty, owner, fname, v) == Ok(bs)
             && ZeroValue(Read(cat), ty, owner, fname) == Some(z)
    ensures Carries(cat, name, fname, v, bs, z)
  {
    var full := Read(cat);
    var f, values := Field(fname, ParseType(t)), map[fname := v];
    assert full.byName[name].fields == [f] && full.byName[name].name == name;
    hide Read, ParseType;
    OneFieldEncodes(full, f, MESSAGE_PREFIX + name, v, bs, z);
    hide EncFields, FitsFields, NormalFields, ZeroFields, Decode;
    forall rest
      ensures Decode(full, LE(4, full.byName[name].id) + bs + rest) == Decoded(name, values, rest)
    {
      RoundTrip(full, name, values, rest);
    }
  }

  lemma OneFieldEncodes(cat: Catalog<Type>, f: Field<Type>, owner: string, v: Value, bs: bytes, z: Value)
    requires WellFormed(cat)
    requires Fits(cat, f.ftype, owner, f.name, v, Wireable) && Normal(cat, f.ftype, v) == v
    requires EncValue(cat, f.ftype, owner, f.name, v) == Ok(bs) && ZeroValue(cat, f.ftype, owner, f.name) == Some(z)
    ensures EncFields(cat, [f], owner, Struct(map[f.name := v])) == Ok(bs)
    ensures NormalFields(cat, [f], Struct(map[f.name := v]), map[]) == map[f.name := v]
    ensures FitsFields(cat, [f], owner, Struct(map[f.name := v]), Wireable)
    ensures ZeroFields(cat, [f], owner, map[]) == Some(map[f.name := z])
  {
    hide Fits, Normal, EncValue, ZeroValue;
    assert [f][1..] == [];
    assert bs + [] == bs;
    assert map[][f.name := v] == map[f.name := v] && map[][f.name := z] == map[f.name := z];
    assert EncFields(cat, [], owner, Struct(map[f.name := v])) == Ok([]);
  }

  lemma PrimitiveNames()
    ensures ParseType("System.SByte") == Prim(Integer(1, true)) && ParseType("System.Byte") == Prim(Integer(1, false))
    ensures ParseType("System.Int16") == Prim(Integer(2, true)) && ParseType("System.UInt16") == Prim(Integer(2, false))
    ensures ParseType("System.Int32") == Prim(Integer(4, true)) && ParseType("System.UInt32") == Prim(Integer(4, false))
    ensures ParseType("System.Int64") == Prim(Integer(8, true)) && ParseType("System.UInt64") == Prim(Integer(8, false))
    ensures ParseType("System.Boolean") == Prim(Boolean)
    ensures ParseType("System.Single") == Prim(Single) && ParseType("System.Double") == Prim(Double)
    ensures ParseType("System.String") == Prim(String) && ParseType("System.Char[]") == Prim(CharArray)
  {
  }

  // ---------------------------------------------------------------- primitives

  /** Signed integers: two's complement in as many bytes as the name says. */
  lemma SignedField(cat: Catalog<string>, name: string, fname: string, t: string, w: Width, i: Int64)
    requires OneField(cat, name, fname, t)
    requires (t == "System.SByte" && w == 1) || (t == "System.Int16" && w == 2)
          || (t == "System.Int32" && w == 4) || (t == "System.Int64" && w == 8)
    requires -(Modulus(w) / 2) <= i < Modulus(w) / 2
    ensures Carries(cat, name, fname, Int(i), LE(w, if i < 0 then i + Modulus(w) else i), Int(0))
  {
    PrimitiveNames();
    SignedCarries(cat, name, fname, t, w, i);
  }

  lemma SignedCarries(cat: Catalog<string>, name: string, fname: string, t: string, w: Width, i: Int64)
    requires OneField(cat, name, fname, t) && ParseType(t) == Prim(Integer(w, true))
    requires -(Modulus(w) / 2) <= i < Modulus(w) / 2
    ensures Carries(cat, name, fname, Int(i), LE(w, if i < 0 then i + Modulus(w) else i), Int(0))
  {
    SignedTruncate(w, i);
    hide ParseType, Carries, LE;
    CarriesOne(cat, name, fname, t, Int(i), LE(w, if i < 0 then i + Modulus(w) else i), Int(0));
  }

  lemma UnsignedField(cat: Catalog<string>, name: string, fname: string, t: string, w: Width, u: UInt64)
    requires OneField(cat, name, fname, t)
    requires (t == "System.Byte" && w == 1) || (t == "System.UInt16" && w == 2)
          || (t == "System.UInt32" && w == 4) || (t == "System.UInt64" && w == 8)
    requires u < Modulus(w)
    ensures Carries(cat, name, fname, UInt(u), LE(w, u), UInt(0))
  {
    PrimitiveNames();
    hide ParseType, Carries, LE;
    CarriesOne(cat, name, fname, t, UInt(u), LE(w, u), UInt(0));
  }

  lemma BooleanField(cat: Catalog<string>, name: string, fname: string, b: bool)
    requires OneField(cat, name, fname, "System.Boolean")
    ensures Carries(cat, name, fname, Bool(b), [if b then 1 else 0], Bool(false))
  {
    PrimitiveNames();
    hide ParseType, Carries;
    assert LE(1, if b then 1 else 0) == [if b then 1 else 0];
    CarriesOne(cat, name, fname, "System.Boolean", Bool(b), [if b then 1 else 0], Bool(false));
  }

  /** Floats: their IEEE bit patterns. */
  lemma FloatField(cat: Catalog<string>, name: string, fname: string, b32: Bits32, b64: Bits64)
    ensures OneField(cat, name, fname, "System.Single") ==>
              Carries(cat, name, fname, SingleBits(b32), LE(4, b32), SingleBits(0))
    ensures OneField(cat, name, fname, "System.Double") ==>
              Carries(cat, name, fname, DoubleBits(b64), LE(8, b64), DoubleBits(0))
  {
    PrimitiveNames();
    hide ParseType, Carries;
    if OneField(cat, name, fname, "System.Single") {
      CarriesOne(cat, name, fname, "System.Single", SingleBits(b32), LE(4, b32), SingleBits(0));
    }
    if OneField(cat, name, fname, "System.Double") {
      CarriesOne(cat, name, fname, "System.Double", DoubleBits(b64), LE(8, b64), DoubleBits(0));
    }
  }

  /** UTF-16 units, least significant byte first. */
  ghost predicate UnitBytes(bs: bytes, us: seq<Utf16.Unit>) {
    && |bs| == 2 * |us|
    && forall i :: 0 <= i < |us| ==> UnitAt(bs, i) == us[i]
  }

  function UnitAt(bs: bytes, i: nat): int
    requires 2 * i + 1 < |bs|
  {
    (bs[2 * i] as int) + 256 * (bs[2 * i + 1] as int)
  }

  lemma {:induction false} UnitsWritten(us: seq<Utf16.Unit>)
    ensures UnitBytes(EncUnits(us), us)
  {
    if us != [] {
      UnitsWritten(us[1..]);
      var bs, rest := EncUnits(us), EncUnits(us[1..]);
      assert LE(2, us[0]) == [us[0] % 256, us[0] / 256 % 256] by {
        assert LE(1, us[0] / 256) == [us[0] / 256 % 256] + LE(0, us[0] / 256 / 256);
      }
      hide LE;
      forall i | 0 <= i < |us|
        ensures UnitAt(bs, i) == us[i]
      {
        if i > 0 {
          assert UnitAt(bs, i) == UnitAt(rest, i - 1);
        }
      }
    }
  }

  /** A counted string: the number of its units, then the units. */
  lemma StringField(cat: Catalog<string>, name: string, fname: string, s: Utf16.Text)
    requires OneField(cat, name, fname, "System.String") && |Utf16.Encode(s)| < 0x1_0000_0000
    ensures exists units ::
              && UnitBytes(units, Utf16.Encode(s))
              && Carries(cat, name, fname, Text(s), LE(4, |Utf16.Encode(s)|) + units, Text([]))
  {
    PrimitiveNames();
    var us := Utf16.Encode(s);
    UnitsWritten(us);
    hide ParseType, Carries, UnitBytes, EncUnits, LE, Utf16.Encode;
    CarriesOne(cat, name, fname, "System.String", Text(s), LE(4, |us|) + EncUnits(us), Text([]));
  }

  /** A terminated string: its units, then a NUL. */
  lemma CharArrayField(cat: Catalog<string>, name: string, fname: string, s: Utf16.Text)
    requires OneField(cat, name, fname, "System.Char[]") && 0 !in s
    ensures exists units ::
              && UnitBytes(units, Utf16.Encode(s))
              && Carries(cat, name, fname, Text(s), units + [0, 0], Text([]))
  {
    PrimitiveNames();
    CharsCarry(cat, name, fname, "System.Char[]", s);
  }

  lemma CharsCarry(cat: Catalog<string>, name: string, fname: string, t: string, s: Utf16.Text)
    requires OneField(cat, name, fname, t) && ParseType(t) == Prim(CharArray) && 0 !in s
    ensures exists units ::
              UnitBytes(units, Utf16.Encode(s)) && Carries(cat, name, fname, Text(s), units + [0, 0], Text([]))
  {
    var us := Utf16.Encode(s);
    UnitsWritten(us);
    assert LE(2, 0) == [0, 0] by {
      assert LE(1, 0) == [0] + LE(0, 0);
    }
    hide ParseType, Carries, UnitBytes, EncUnits, LE, Utf16.Encode;
    CarriesOne(cat, name, fname, t, Text(s), EncUnits(us) + [0, 0], Text([]));
  }

  // ---------------------------------------------------------------- the syntax of type names

  lemma NotPrimitive(t: string)
    requires |t| > 14
    ensures t !in PRIMITIVES
  {
  }

  /** A list's name holds its element's. */
  lemma ListSyntax(t: string)
    ensures ParseType("System.Collections.Generic.List<" + t + ">") == List(ParseType(t))
  {
    var l := "System.Collections.Generic.List<" + t + ">";
    assert l[|l| - 1] == '>';
    NotPrimitive(l);
    assert l[..|LIST_PREFIX|] == LIST_PREFIX;
    assert InnerOf(l) == t;
  }

  /** Brackets make an array, except in System.Char[]. */
  lemma ArraySyntax(t: string)
    ensures ParseType(t + "[]") == Array(ParseType(t)) <==> t != "System.Char"
  {
    var a := t + "[]";
    assert a[|a| - 2..] == "[]" && ElemOf(a) == t;
    assert a in PRIMITIVES ==> a == "System.Char[]";
    assert "System.Char" + "[]" == "System.Char[]";
  }

  /** Whatever else is not a primitive is the name of a struct. */
  lemma NameSyntax(t: string)
    requires !(|t| >= 2 && t[|t| - 2..] == "[]")
    requires !(|t| > 32 && t[..32] == "System.Collections.Generic.List<")
    requires t !in {"System.SByte", "System.Int16", "System.Int32", "System.Int64",
                    "System.Byte", "System.UInt16", "System.UInt32", "System.UInt64",
                    "System.Boolean", "System.Single", "System.Double", "System.String", "System.Char[]"}
    ensures ParseType(t) == Named(t)
  {
    PrimitiveKeys(t);
    hide PRIMITIVES;
    assert |LIST_PREFIX| == 32;
  }

  lemma PrimitiveKeys(t: string)
    ensures t in PRIMITIVES ==>
              t in {"System.SByte", "System.Int16", "System.Int32", "System.Int64",
                    "System.Byte", "System.UInt16", "System.UInt32", "System.UInt64",
                    "System.Boolean", "System.Single", "System.Double", "System.String", "System.Char[]"}
  {
  }

  // ---------------------------------------------------------------- arrays, lists and embedded messages

  /** Bytes as the values of byte-sized fields. */
  function ByteValues(bs: bytes): (vs: seq<Value>)
    ensures |vs| == |bs| && forall i :: 0 <= i < |bs| ==> vs[i] == UInt(bs[i])
  {
    seq(|bs|, i requires 0 <= i < |bs| => UInt(bs[i]))
  }

  lemma {:induction false} BytesWritten(cat: Catalog<Type>, owner: string, fname: string, bs: bytes)
    requires Acyclic(cat)
    ensures var ty, vs := Prim(Integer(1, false)), ByteValues(bs);
            && EncItems(cat, ty, owner, fname, vs) == Ok(bs) && NormalItems(cat, ty, vs) == vs
            && FitsItems(cat, ty, owner, fname, vs, Wireable)
            && ZeroItems(cat, ty, owner, fname, |bs|) == Some(ByteValues(seq(|bs|, i => 0)))
  {
    if bs != [] {
      var vs, zeros := ByteValues(bs), ByteValues(seq(|bs|, i => 0));
      BytesWritten(cat, owner, fname, bs[1..]);
      assert vs[0] == UInt(bs[0]) && vs[1..] == ByteValues(bs[1..]);
      assert LE(1, bs[0]) == [bs[0]] && [bs[0]] + bs[1..] == bs;
      assert [vs[0]] + vs[1..] == vs;
      assert [UInt(0)] + ByteValues(seq(|bs| - 1, i => 0)) == zeros;
    }
  }

  /** A fixed array has no count; its size is the one declared for its owner and field. */
  lemma ByteArrayField(cat: Catalog<string>, name: string, fname: string, bs: bytes)
    requires OneField(cat, name, fname, "System.Byte[]") && "Protocol." + name + "|" + fname in cat.fixedArrays
    requires cat.fixedArrays["Protocol." + name + "|" + fname] == |bs|
    ensures Carries(cat, name, fname, Items(ByteValues(bs)), bs, Items(ByteValues(seq(|bs|, i => 0))))
  {
    ByteTypes();
    BytesWritten(Read(cat), MESSAGE_PREFIX + name, fname, bs);
    assert SizeKey(MESSAGE_PREFIX + name, fname) == "Protocol." + name + "|" + fname;
    hide ParseType, Carries, ByteValues, SizeKey;
    CarriesOne(cat, name, fname, "System.Byte[]", Items(ByteValues(bs)), bs, Items(ByteValues(seq(|bs|, i => 0))));
  }

  /** A list has a 32-bit count. */
  lemma ByteListField(cat: Catalog<string>, name: string, fname: string, bs: bytes)
    requires OneField(cat, name, fname, "System.Collections.Generic.List<System.Byte>") && |bs| < 0x1_0000_0000
    ensures Carries(cat, name, fname, Items(ByteValues(bs)), LE(4, |bs|) + bs, Items([]))
  {
    ByteTypes();
    BytesCarry(cat, name, fname, "System.Collections.Generic.List<System.Byte>", bs);
  }

  lemma BytesCarry(cat: Catalog<string>, name: string, fname: string, t: string, bs: bytes)
    requires OneField(cat, name, fname, t) && ParseType(t) == List(Prim(Integer(1, false))) && |bs| < 0x1_0000_0000
    ensures Carries(cat, name, fname, Items(ByteValues(bs)), LE(4, |bs|) + bs, Items([]))
  {
    BytesWritten(Read(cat), MESSAGE_PREFIX + name, fname, bs);
    hide ParseType, Carries, ByteValues, LE;
    CarriesOne(cat, name, fname, t, Items(ByteValues(bs)), LE(4, |bs|) + bs, Items([]));
  }

  lemma ByteTypes()
    ensures ParseType("System.Byte[]") == Array(Prim(Integer(1, false)))
    ensures ParseType("System.Collections.Generic.List<System.Byte>") == List(Prim(Integer(1, false)))
  {
    PrimitiveNames();
    hide ParseType;
    ListSyntax("System.Byte");
    ArraySyntax("System.Byte");
    assert "System.Byte" + "[]" == "System.Byte[]";
    assert "System.Collections.Generic.List<" + "System.Byte" + ">" == "System.Collections.Generic.List<System.Byte>";
  }

  /**
   * A message used as an element is written as that message's own body, opcode and all: whenever its layout is the
   * message's, encoding it in place and encoding it as a message come to the same.
   */
  lemma EmbeddedIsMessage(cat: Catalog<Type>, m: string, owner: string, fname: string, values: Values)
    requires WellFormed(cat) && m in cat.byName
    requires "Protocol." + m in cat.messageFullNames && "Protocol." + m in cat.structs
    requires cat.structs["Protocol." + m] == cat.byName[m].fields
    ensures EncValue(cat, Named("Protocol." + m), owner, fname, Struct(values)) == Encode(cat, m, values)
    ensures var r, normal := EncValue(cat, Named("Protocol." + m), owner, fname, Struct(values)),
                             NormalFields(cat, cat.byName[m].fields, Struct(values), map[]);
            FitsMessage(cat, m, values, Wireable) ==> r.Ok? && Decode(cat, r.value) == Decoded(m, normal, [])
  {
    var n := "Protocol." + m;
    assert n[|MESSAGE_PREFIX|..] == m;
    if FitsMessage(cat, m, values, Wireable) {
      RoundTrip(cat, m, values, []);
      var body := Encode(cat, m, values).value;
      assert body + [] == body;
    }
  }

  /** Encoding names the first declared field that is missing, when all before it encode. */
  lemma {:induction false} FirstMissingNamed(cat: Catalog<Type>, fields: Layout<Type>, owner: string, v: Value, i: nat)
    requires v.Struct? && i < |fields| && fields[i].name !in v.fields
    requires forall j :: 0 <= j < i ==>
               && fields[j].name in v.fields
               && EncValue(cat, fields[j].ftype, owner, fields[j].name, v.fields[fields[j].name]).Ok?
    ensures EncFields(cat, fields, owner, v) == Err(MissingField(fields[i].name))
    decreases i
  {
    if i > 0 {
      FirstMissingNamed(cat, fields[1..], owner, v, i - 1);
    }
  }

  /** A body too short for an opcode, or with one that no message has. */
  lemma NoMessage(cat: Catalog<Type>, body: bytes, id: Opcode, rest: bytes)
    requires Acyclic(cat)
    ensures |body| < 4 ==> Decode(cat, body) == TooShort(body)
    ensures id !in cat.messages ==> Decode(cat, LE(4, id) + rest) == UnknownOpcode(rest)
  {
    DropHead(LE(4, id), rest);
    ReadWritten(4, id);
  }

  /** A struct that is no message has no opcode before its fields. */
  lemma PlainStruct(cat: Catalog<Type>, n: string, owner: string, fname: string, values: Values)
    requires n in cat.structs && n !in cat.messageFullNames
    ensures EncValue(cat, Named(n), owner, fname, Struct(values)) == EncFields(cat, cat.structs[n], n, Struct(values))
  {
    match EncFields(cat, cat.structs[n], n, Struct(values))
    case Ok(bs) => assert [] + bs == bs;
    case Err(_) =>
  }
}
