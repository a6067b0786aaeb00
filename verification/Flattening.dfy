/** Inheritance flattening in the catalog compiler: every layout is base-first. */
module Flattening {
  import opened Schema

  type Fields = Layout<string>

  /** Following class -> base never comes back to a class. */
  ghost predicate AcyclicBases(bases: map<string, string>) {
    exists rank: map<string, nat> :: BasesRankedBy(bases, rank)
  }

  ghost predicate BasesRankedBy(bases: map<string, string>, rank: map<string, nat>) {
    forall c <- bases :: c in rank && (bases[c] in bases && bases[c] in rank ==> rank[bases[c]] < rank[c])
  }

  ghost function Depth(bases: map<string, string>, c: string): nat
    requires AcyclicBases(bases)
  {
    var rank: map<string, nat> :| BasesRankedBy(bases, rank);
    if c in bases then rank[c] + 1 else 0
  }

  function Own(own: map<string, Fields>, c: string): Fields {
    if c in own then own[c] else []
  }

  /** The class, its parent, and so on up to the root; the empty name is nobody's root. */
  function Chain(bases: map<string, string>, c: string): seq<string>
    requires AcyclicBases(bases)
    decreases Depth(bases, c)
  {
    if c in bases then [c] + Chain(bases, bases[c])
    else if c != "" then [c]
    else []
  }

  /** What a class serialises: all that its base serialises, then its own fields. */
  function Flat(bases: map<string, string>, own: map<string, Fields>, c: string): Fields
    requires AcyclicBases(bases)
    decreases Depth(bases, c)
  {
    if c in bases then Flat(bases, own, bases[c]) + Own(own, c)
    else if c != "" then Own(own, c)
    else []
  }

  /** A class's own fields come last in its layout, in the order they were declared, after its base's. */
  lemma OwnFieldsLast(bases: map<string, string>, own: map<string, Fields>, c: string)
    requires AcyclicBases(bases) && (c in bases || c != "")
    ensures var inherited := if c in bases then Flat(bases, own, bases[c]) else [];
            Flat(bases, own, c) == if c in own then inherited + own[c] else inherited
  {
  }

  /** Own fields of the classes, last class first. */
  function LastFirst(classes: seq<string>, own: map<string, Fields>): Fields {
    if classes == [] then [] else LastFirst(classes[1..], own) + Own(own, classes[0])
  }

  // ---------------------------------------------------------------- the compiler's loops

  method BuildChain(full: string, bases: map<string, string>) returns (out: seq<string>)
    requires AcyclicBases(bases)
    ensures out == Chain(bases, full)
  {
    out := [];
    var cur := full;
    while cur in bases
      invariant out + Chain(bases, cur) == Chain(bases, full)
      decreases Depth(bases, cur)
    {
      assert out + ([cur] + Chain(bases, bases[cur])) == out + [cur] + Chain(bases, bases[cur]);
      out := out + [cur];
      cur := bases[cur];
    }
    if cur != "" {
      out := out + [cur];
    }
  }

  method FieldsOf(classes: seq<string>, own: map<string, Fields>) returns (fields: Fields)
    ensures fields == LastFirst(classes, own)
  {
    fields := [];
    assert classes[|classes|..] == [];
    for i := |classes| downto 0
      invariant fields == LastFirst(classes[i..], own)
    {
      assert classes[i..][1..] == classes[i + 1..];
      fields := fields + Own(own, classes[i]);
    }
    assert classes[0..] == classes;
  }

  /** The chain walked from its far end is the flattened layout. */
  lemma {:induction false} ChainIsFlat(bases: map<string, string>, own: map<string, Fields>, c: string)
    requires AcyclicBases(bases)
    ensures LastFirst(Chain(bases, c), own) == Flat(bases, own, c)
    decreases Depth(bases, c)
  {
    if c in bases {
      ChainIsFlat(bases, own, bases[c]);
      assert ([c] + Chain(bases, bases[c]))[1..] == Chain(bases, bases[c]);
    } else if c != "" {
      assert LastFirst([c], own) == LastFirst([], own) + Own(own, c);
    }
  }

  /** Every ancestor's layout is a prefix of the descendant's. */
  lemma {:induction false} AncestorPrefix(bases: map<string, string>, own: map<string, Fields>, c: string, a: string)
    requires AcyclicBases(bases)
    requires a in Chain(bases, c)
    ensures Flat(bases, own, a) <= Flat(bases, own, c)
    decreases Depth(bases, c)
  {
    if c in bases && a != c {
      AncestorPrefix(bases, own, bases[c], a);
    }
  }

  /** The layout table entry; an empty flattening falls back to the class's own fields. */
  function StructLayout(bases: map<string, string>, own: map<string, Fields>, n: string): Fields
    requires AcyclicBases(bases) && n in own
  {
    if Flat(bases, own, n) == [] then own[n] else Flat(bases, own, n)
  }

  /** The fallback only ever changes the layout of a root class whose name is empty. */
  lemma FallbackIsIdle(bases: map<string, string>, own: map<string, Fields>, n: string)
    requires AcyclicBases(bases) && n in own
    ensures StructLayout(bases, own, n) == Flat(bases, own, n)
       <==> n in bases || n != "" || own[n] == []
  {
  }

  method BuildStructs(own: map<string, Fields>, bases: map<string, string>) returns (structs: map<string, Fields>)
    requires AcyclicBases(bases)
    ensures structs.Keys == own.Keys
    ensures forall n <- own :: structs[n] == StructLayout(bases, own, n)
  {
    structs := map[];
    var todo := own.Keys;
    while todo != {}
      invariant todo <= own.Keys
      invariant structs.Keys == own.Keys - todo
      invariant forall n <- structs :: structs[n] == StructLayout(bases, own, n)
      decreases |todo|
    {
      var name :| name in todo;
      var classes := BuildChain(name, bases);
      var layout := FieldsOf(classes, own);
      ChainIsFlat(bases, own, name);
      if |layout| == 0 {
        layout := own[name];
      }
      structs := structs[name := layout];
      todo := todo - {name};
    }
  }

  /** A message: the fields inherited from the classes strictly above it, then its own declared fields. */
  method MessageFields(name: string, fields: Fields, bases: map<string, string>, own: map<string, Fields>)
    returns (out: Fields)
    requires AcyclicBases(bases)
    ensures var full := MESSAGE_PREFIX + name;
            out == (if full in bases then Flat(bases, own, bases[full]) else []) + fields
  {
    var full := MESSAGE_PREFIX + name;
    var ch := BuildChain(full, bases);
    var prefix: Fields := [];
    if |ch| > 1 {
      prefix := FieldsOf(ch[1..], own);
    }
    if full in bases {
      assert ch[1..] == Chain(bases, bases[full]);
      ChainIsFlat(bases, own, bases[full]);
    }
    return prefix + fields;
  }
}
