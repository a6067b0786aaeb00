/** Decoding reads no further than it must: extensions, prefix-freeness and truncated bodies. */
module CodecPrefix {
  import opened Wire
  import opened Schema
  import opened CodecSpec
  import opened CodecValues
  import opened CodecProofs

  // ---------------------------------------------------------------- extending the input

  lemma ExtendSlice(buf: bytes, ext: bytes, n: nat)
    requires n <= |buf|
    ensures (buf + ext)[..n] == buf[..n]
    ensures (buf + ext)[n..] == buf[n..] + ext
  {
  }

  lemma TakeExtends(w: Width, buf: bytes, ext: bytes)
    requires TakeUint(w, buf).Some?
    ensures TakeUint(w, buf + ext) == Some((TakeUint(w, buf).value.0, TakeUint(w, buf).value.1 + ext))
  {
    ExtendSlice(buf, ext, w);
  }

  lemma {:induction false} UnitsExtend(n: nat, buf: bytes, ext: bytes)
    requires |buf| >= 2 * n
    ensures DecUnits(n, buf + ext) == DecUnits(n, buf)
  {
    if n > 0 {
      ExtendSlice(buf, ext, 2);
      UnitsExtend(n - 1, buf[2..], ext);
    }
  }

  lemma {:induction false} UntilNulExtends(buf: bytes, ext: bytes)
    requires DecUntilNul(buf).Some?
    ensures DecUntilNul(buf + ext) == Some((DecUntilNul(buf).value.0, DecUntilNul(buf).value.1 + ext))
    decreases |buf|
  {
    TakeExtends(2, buf, ext);
    var (u, rest) := TakeUint(2, buf).value;
    if u != 0 {
      UntilNulExtends(rest, ext);
    }
  }

  lemma StringExtends(buf: bytes, ext: bytes)
    requires DecString(buf).Some?
    ensures DecString(buf + ext) == Some((DecString(buf).value.0, DecString(buf).value.1 + ext))
  {
    TakeExtends(4, buf, ext);
    var (n, rest) := TakeUint(4, buf).value;
    UnitsExtend(n, rest, ext);
    ExtendSlice(rest, ext, 2 * n);
  }

  lemma PrimExtends(p: Primitive, buf: bytes, ext: bytes)
    requires DecPrim(p, buf).Some?
    ensures DecPrim(p, buf + ext) == Some((DecPrim(p, buf).value.0, DecPrim(p, buf).value.1 + ext))
  {
    match p
    case String => StringExtends(buf, ext);
    case CharArray => UntilNulExtends(buf, ext);
    case _ => TakeExtends(FixedWidth(p), buf, ext);
  }

  /** Appending bytes to a readable input changes neither the value read nor where reading stops. */
  lemma {:induction false} ValueExtends(cat: Catalog<Type>, ty: Type, owner: string, fname: string, buf: bytes,
                                        v: Value, rest: bytes, ext: bytes)
    requires Acyclic(cat)
    requires DecValue(cat, ty, owner, fname, buf) == Some((v, rest))
    ensures DecValue(cat, ty, owner, fname, buf + ext) == Some((v, rest + ext))
    decreases |buf|, TypeRank(cat, ty), TypeSize(ty), 0
  {
    match ty
    case Prim(p) => PrimExtends(p, buf, ext);
    case Array(elem) =>
      ItemsExtend(cat, elem, owner, fname, cat.fixedArrays[SizeKey(owner, fname)], buf, v.items, rest, ext);
    case List(inner) =>
      TakeExtends(4, buf, ext);
      var (n, mid) := TakeUint(4, buf).value;
      ItemsExtend(cat, inner, owner, fname, n, mid, v.items, rest, ext);
    case Named(n) =>
      var mid := SkipElementPrefix(cat, n, buf).value;
      StructFieldsRank(cat, n);
      FieldsExtend(cat, cat.structs[n], n, mid, map[], v.fields, rest, ext);
      if n in cat.messageFullNames {
        ExtendSlice(buf, ext, 4);
      }
      DecStruct(cat, n, owner, fname, buf + ext, mid + ext, v.fields, rest + ext);
  }

  lemma {:induction false} ItemsExtend(cat: Catalog<Type>, ty: Type, owner: string, fname: string, n: nat, buf: bytes,
                                       vs: seq<Value>, rest: bytes, ext: bytes)
    requires Acyclic(cat)
    requires DecItems(cat, ty, owner, fname, n, buf) == Some((vs, rest))
    ensures DecItems(cat, ty, owner, fname, n, buf + ext) == Some((vs, rest + ext))
    decreases |buf|, TypeRank(cat, ty), TypeSize(ty), n + 1
  {
    if n > 0 {
      var (v, mid) := DecValue(cat, ty, owner, fname, buf).value;
      ValueExtends(cat, ty, owner, fname, buf, v, mid, ext);
      var vs' := DecItems(cat, ty, owner, fname, n - 1, mid).value.0;
      ItemsExtend(cat, ty, owner, fname, n - 1, mid, vs', rest, ext);
      DecItemsCons(cat, ty, owner, fname, n, buf + ext, v, mid + ext, vs', rest + ext);
    }
  }

  lemma {:induction false} FieldsExtend(cat: Catalog<Type>, fields: Layout<Type>, owner: string, buf: bytes, acc: Values,
                                        m: Values, rest: bytes, ext: bytes)
    requires Acyclic(cat)
    requires DecFields(cat, fields, owner, buf, acc) == Some((m, rest))
    ensures DecFields(cat, fields, owner, buf + ext, acc) == Some((m, rest + ext))
    decreases |buf|, FieldsRank(cat, fields), 0, |fields|
  {
    if fields != [] {
      var (v, mid) := DecValue(cat, fields[0].ftype, owner, fields[0].name, buf).value;
      ValueExtends(cat, fields[0].ftype, owner, fields[0].name, buf, v, mid, ext);
      FieldsExtend(cat, fields[1..], owner, mid, acc[fields[0].name := v], m, rest, ext);
    }
  }

  // ---------------------------------------------------------------- prefix-freeness

  /** No proper prefix of an encoded value can be read as that type. */
  lemma PrefixUnreadable(cat: Catalog<Type>, ty: Type, owner: string, fname: string, v: Value, buf: bytes, cut: bytes)
    requires Acyclic(cat) && cat.ElementsKnown()
    requires Fits(cat, ty, owner, fname, v, Wireable)
    requires EncValue(cat, ty, owner, fname, v) == Ok(buf + cut) && cut != []
    ensures DecValue(cat, ty, owner, fname, buf) == None
  {
    ValueRoundTrip(cat, ty, owner, fname, v, []);
    assert buf + cut + [] == buf + cut;
    if DecValue(cat, ty, owner, fname, buf).Some? {
      var (v', rest) := DecValue(cat, ty, owner, fname, buf).value;
      ValueExtends(cat, ty, owner, fname, buf, v', rest, cut);
    }
  }

  /** Two values of one type whose encodings start the same stream are the same value once normalised. */
  lemma PrefixFree(cat: Catalog<Type>, ty: Type, owner: string, fname: string, v: Value, w: Value, s: bytes, t: bytes)
    requires Acyclic(cat) && cat.ElementsKnown()
    requires Fits(cat, ty, owner, fname, v, Wireable) && Fits(cat, ty, owner, fname, w, Wireable)
    requires EncValue(cat, ty, owner, fname, v).Ok? && EncValue(cat, ty, owner, fname, w).Ok?
    requires EncValue(cat, ty, owner, fname, v).value + s == EncValue(cat, ty, owner, fname, w).value + t
    ensures Normal(cat, ty, v) == Normal(cat, ty, w) && s == t
    ensures EncValue(cat, ty, owner, fname, v) == EncValue(cat, ty, owner, fname, w)
  {
    ValueRoundTrip(cat, ty, owner, fname, v, s);
    ValueRoundTrip(cat, ty, owner, fname, w, t);
    var a, b := EncValue(cat, ty, owner, fname, v).value, EncValue(cat, ty, owner, fname, w).value;
    assert |a + s| == |b + t|;
    assert a == (a + s)[..|a|] && b == (b + t)[..|b|];
  }

  // ---------------------------------------------------------------- truncated bodies

  /** The number of bytes each field takes up. */
  ghost function Sizes(cat: Catalog<Type>, fields: Layout<Type>, owner: string, v: Value): (r: seq<nat>)
    requires v.Struct?
    ensures |r| == |fields|
  {
    if fields == [] then []
    else
      var f := fields[0];
      var enc := if f.name in v.fields then EncValue(cat, f.ftype, owner, f.name, v.fields[f.name]) else Ok([]);
      [if enc.Ok? then |enc.value| else 0] + Sizes(cat, fields[1..], owner, v)
  }

  ghost function Sum(sizes: seq<nat>, k: nat): nat
    requires k <= |sizes|
  {
    if k == 0 then 0 else sizes[0] + Sum(sizes[1..], k - 1)
  }

  /** k is the largest number of leading sizes that add up to at most n. */
  ghost predicate LongestRun(sizes: seq<nat>, n: nat, k: nat) {
    && k <= |sizes|
    && Sum(sizes, k) <= n
    && (k < |sizes| ==> n < Sum(sizes, k + 1))
  }

  lemma LongestStep(size: nat, sizes: seq<nat>, n: nat, k: nat)
    requires LongestRun(sizes, n, k)
    ensures LongestRun([size] + sizes, size + n, k + 1)
    ensures Sum([size] + sizes, k + 1) == size + Sum(sizes, k)
  {
    assert ([size] + sizes)[1..] == sizes;
  }

  lemma NormalStep(cat: Catalog<Type>, fields: Layout<Type>, v: Value, k: nat, acc: Values)
    requires v.Struct? && k < |fields| && fields[0].name in v.fields
    ensures NormalFields(cat, fields[..k + 1], v, acc)
         == NormalFields(cat, fields[1..][..k], v,
                         acc[fields[0].name := Normal(cat, fields[0].ftype, v.fields[fields[0].name])])
  {
    assert fields[..k + 1][1..] == fields[1..][..k];
  }

  /** The bytes after head, when a prefix of head + tail reaches past head. */
  lemma PastHead(buf: bytes, cut: bytes, head: bytes, tail: bytes) returns (mid: bytes)
    requires buf + cut == head + tail && |head| <= |buf|
    ensures buf == head + mid && mid + cut == tail
  {
    mid := buf[|head|..];
    assert buf[..|head|] == (buf + cut)[..|head|] == head;
    assert tail == (head + tail)[|head|..] == (buf + cut)[|head|..];
  }

  /** The missing bytes of head, when a prefix of head + tail stops inside head. */
  lemma WithinHead(buf: bytes, cut: bytes, head: bytes, tail: bytes) returns (missing: bytes)
    requires buf + cut == head + tail && |buf| < |head|
    ensures head == buf + missing && missing != []
  {
    missing := head[|buf|..];
    assert buf == (buf + cut)[..|buf|] == (head + tail)[..|buf|];
  }

  /** buf is read up to the k-th field: read holds exactly k fields, which are v's, and rest holds no further one. */
  ghost predicate CutAt(cat: Catalog<Type>, fields: Layout<Type>, owner: string, v: Value, buf: bytes, acc: Values,
                        k: nat, read: bytes, rest: bytes)
    requires Acyclic(cat) && v.Struct?
  {
    && LongestRun(Sizes(cat, fields, owner, v), |buf|, k)
    && buf == read + rest && |read| == Sum(Sizes(cat, fields, owner, v), k)
    && DecRun(cat, fields, owner, buf, acc) == (NormalFields(cat, fields[..k], v, acc), rest)
  }

  /** A run whose first field lies beyond the cut, or that has no field, reads nothing. */
  lemma StopsAtOnce(cat: Catalog<Type>, fields: Layout<Type>, owner: string, v: Value, buf: bytes, cut: bytes,
                    acc: Values)
    requires Acyclic(cat) && cat.ElementsKnown()
    requires v.Struct? && FitsFields(cat, fields, owner, v, Wireable)
    requires EncFields(cat, fields, owner, v) == Ok(buf + cut)
    requires fields != [] ==> |buf| < |EncValue(cat, fields[0].ftype, owner, fields[0].name,
                                                v.fields[fields[0].name]).value|
    ensures CutAt(cat, fields, owner, v, buf, acc, 0, [], buf)
  {
    if fields != [] {
      var f := fields[0];
      var head := EncValue(cat, f.ftype, owner, f.name, v.fields[f.name]).value;
      var missing := WithinHead(buf, cut, head, EncFields(cat, fields[1..], owner, v).value);
      PrefixUnreadable(cat, f.ftype, owner, f.name, v.fields[f.name], buf, missing);
      assert Sum(Sizes(cat, fields, owner, v)[1..], 0) == 0;
    }
  }

  /** A run whose first field is complete reads it and goes on with the bytes after it. */
  lemma ReadsFirst(cat: Catalog<Type>, fields: Layout<Type>, owner: string, v: Value, mid: bytes, acc: Values)
    requires Acyclic(cat) && cat.ElementsKnown()
    requires v.Struct? && fields != [] && FitsFields(cat, fields, owner, v, Wireable)
    requires EncValue(cat, fields[0].ftype, owner, fields[0].name, v.fields[fields[0].name]).Ok?
    ensures var f := fields[0];
            var head := EncValue(cat, f.ftype, owner, f.name, v.fields[f.name]).value;
            var nv := Normal(cat, f.ftype, v.fields[f.name]);
            DecRun(cat, fields, owner, head + mid, acc) == DecRun(cat, fields[1..], owner, mid, acc[f.name := nv])
  {
    var f := fields[0];
    ValueRoundTrip(cat, f.ftype, owner, f.name, v.fields[f.name], mid);
    var head := EncValue(cat, f.ftype, owner, f.name, v.fields[f.name]).value;
    RunStep(cat, fields, owner, head + mid, acc);
  }

  /** What a run cut after its first field comes to, given what the fields after that come to. */
  lemma CutLater(cat: Catalog<Type>, fields: Layout<Type>, owner: string, v: Value, mid: bytes, acc: Values,
                 k: nat, read: bytes, rest: bytes)
    requires Acyclic(cat) && cat.ElementsKnown()
    requires v.Struct? && fields != [] && FitsFields(cat, fields, owner, v, Wireable)
    requires var f := fields[0];
             && EncValue(cat, f.ftype, owner, f.name, v.fields[f.name]).Ok?
             && CutAt(cat, fields[1..], owner, v, mid, acc[f.name := Normal(cat, f.ftype, v.fields[f.name])],
                      k, read, rest)
    ensures var head := EncValue(cat, fields[0].ftype, owner, fields[0].name, v.fields[fields[0].name]).value;
            CutAt(cat, fields, owner, v, head + mid, acc, k + 1, head + read, rest)
  {
    var head := EncValue(cat, fields[0].ftype, owner, fields[0].name, v.fields[fields[0].name]).value;
    LongestStep(|head|, Sizes(cat, fields[1..], owner, v), |mid|, k);
    ReadsFirst(cat, fields, owner, v, mid, acc);
    NormalStep(cat, fields, v, k, acc);
    Concat3(head, read, rest);
  }

  lemma {:induction false} TruncatedRun(cat: Catalog<Type>, fields: Layout<Type>, owner: string, v: Value,
                                        buf: bytes, cut: bytes, acc: Values)
    returns (k: nat, read: bytes, rest: bytes)
    requires Acyclic(cat) && cat.ElementsKnown()
    requires v.Struct? && FitsFields(cat, fields, owner, v, Wireable)
    requires EncFields(cat, fields, owner, v) == Ok(buf + cut)
    ensures CutAt(cat, fields, owner, v, buf, acc, k, read, rest)
    decreases fields
  {
    hide CutAt;
    if fields != [] {
      var f := fields[0];
      var head := EncValue(cat, f.ftype, owner, f.name, v.fields[f.name]).value;
      if |buf| >= |head| {
        var mid := PastHead(buf, cut, head, EncFields(cat, fields[1..], owner, v).value);
        k, read, rest :=
          TruncatedRun(cat, fields[1..], owner, v, mid, cut, acc[f.name := Normal(cat, f.ftype, v.fields[f.name])]);
        CutLater(cat, fields, owner, v, mid, acc, k, read, rest);
        return k + 1, head + read, rest;
      }
    }
    StopsAtOnce(cat, fields, owner, v, buf, cut, acc);
    return 0, [], buf;
  }

  /**
   * A body cut off after its opcode decodes to the longest run of leading fields that lie wholly before the cut,
   * and the tail begins with the first byte of the first field that does not.
   */
  lemma Truncation(cat: Catalog<Type>, name: string, values: Values, body: bytes, n: nat) returns (k: nat, start: nat)
    requires WellFormed(cat)
    requires FitsMessage(cat, name, values, Wireable)
    requires Encode(cat, name, values) == Ok(body) && 4 <= n <= |body|
    ensures var msg := cat.byName[name];
            var sizes := Sizes(cat, msg.fields, MESSAGE_PREFIX + msg.name, Struct(values));
            && LongestRun(sizes, n - 4, k)
            && start == 4 + Sum(sizes, k)
            && Decode(cat, body[..n])
               == Decoded(name, NormalFields(cat, msg.fields[..k], Struct(values), map[]), body[start..n])
  {
    var msg := cat.byName[name];
    var owner := MESSAGE_PREFIX + msg.name;
    var buf, cut := body[4..n], body[n..];
    BodySplit(LE(4, msg.id), EncFields(cat, msg.fields, owner, Struct(values)).value, body, n);
    var read, rest;
    k, read, rest := TruncatedRun(cat, msg.fields, owner, Struct(values), buf, cut, map[]);
    start := 4 + |read|;
    DecodeBody(cat, name, buf);
    DropTwice(body, n, read, rest);
  }

  lemma BodySplit(opcode: bytes, fields: bytes, body: bytes, n: nat)
    requires body == opcode + fields && |opcode| <= n <= |body|
    ensures fields == body[|opcode|..n] + body[n..]
    ensures body[..n] == opcode + body[|opcode|..n]
  {
  }

  lemma DropTwice(body: bytes, n: nat, read: bytes, rest: bytes)
    requires 4 <= n <= |body| && body[4..n] == read + rest
    ensures rest == body[4 + |read|..n]
  {
    assert rest == body[4..n][|read|..];
  }
}
