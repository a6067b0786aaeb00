/** Reading a field's type string the way the codec dispatches on it. */
module TypeNames {
  import opened Schema

  const PRIMITIVES: map<string, Primitive> := map[
    "System.Int32" := Integer(4, true),
    "System.UInt32" := Integer(4, false),
    "System.Int64" := Integer(8, true),
    "System.UInt64" := Integer(8, false),
    "System.Int16" := Integer(2, true),
    "System.UInt16" := Integer(2, false),
    "System.Byte" := Integer(1, false),
    "System.SByte" := Integer(1, true),
    "System.Boolean" := Boolean,
    "System.Single" := Single,
    "System.Double" := Double,
    "System.String" := String,
    "System.Char[]" := CharArray
  ]

  const LIST_PREFIX: string := "System.Collections.Generic.List<"

  predicate HasArraySuffix(t: string) {
    |t| >= 2 && t[|t| - 2..] == "[]"
  }

  predicate HasListPrefix(t: string) {
    |t| > |LIST_PREFIX| && t[..|LIST_PREFIX|] == LIST_PREFIX
  }

  function ElemOf(t: string): string
    requires HasArraySuffix(t)
  {
    t[..|t| - 2]
  }

  function InnerOf(t: string): string
    requires HasListPrefix(t)
  {
    t[|LIST_PREFIX|..|t| - 1]
  }

  /** The order of the tests is the codec's: primitives, then the [] suffix, then the List< prefix. */
  function ParseType(t: string): Type
    decreases |t|
  {
    if t in PRIMITIVES then Prim(PRIMITIVES[t])
    else if HasArraySuffix(t) then Array(ParseType(ElemOf(t)))
    else if HasListPrefix(t) then List(ParseType(InnerOf(t)))
    else Named(t)
  }

  lemma ParseShape(t: string)
    ensures ParseType(t).Named? ==> ParseType(t) == Named(t) && !HasArraySuffix(t) && !HasListPrefix(t)
    ensures ParseType(t).List? ==> !HasArraySuffix(t) && HasListPrefix(t) && ParseType(t).inner == ParseType(InnerOf(t))
    ensures ParseType(t).Array? ==> HasArraySuffix(t) && ParseType(t).elem == ParseType(ElemOf(t))
  {
  }

  function ReadLayout(fields: Layout<string>): (r: Layout<Type>)
    ensures |r| == |fields|
    ensures forall i :: 0 <= i < |r| ==> r[i] == Field(fields[i].name, ParseType(fields[i].ftype))
  {
    seq(|fields|, i requires 0 <= i < |fields| => Field(fields[i].name, ParseType(fields[i].ftype)))
  }

  function ReadMessage(m: Message<string>): Message<Type> {
    Message(m.name, m.dir, m.id, ReadLayout(m.fields))
  }

  /** The catalog with every type string read. */
  function Read(cat: Catalog<string>): Catalog<Type> {
    Catalog(
      map id <- cat.messages :: ReadMessage(cat.messages[id]),
      map n <- cat.byName :: ReadMessage(cat.byName[n]),
      map n <- cat.structs :: ReadLayout(cat.structs[n]),
      cat.fixedArrays,
      cat.messageFullNames)
  }

  lemma ReadStruct(cat: Catalog<string>, n: string)
    requires n in cat.structs
    ensures n in Read(cat).structs && Read(cat).structs[n] == ReadLayout(cat.structs[n])
  {
  }
}
