/** Which struct layouts the catalog compiler keeps: those reachable from the messages' fields. */
module Reachability {
  import opened Schema
  import opened TypeNames

  type Structs = map<string, Layout<string>>

  function WithoutArray(t: string): string {
    if HasArraySuffix(t) then ElemOf(t) else t
  }

  /** strings.HasPrefix, which unlike the codec's test also accepts the bare prefix. */
  predicate StartsWithList(t: string) {
    |t| >= |LIST_PREFIX| && t[..|LIST_PREFIX|] == LIST_PREFIX
  }

  /** Slicing the element type out of the bare list prefix is out of range in the compiler. */
  predicate Peels(t: string) {
    WithoutArray(t) != LIST_PREFIX
  }

  /** The struct name a field type leads to: one [] suffix is stripped, then one List<...>. */
  function BaseName(t: string): string
    requires Peels(t)
  {
    var base := WithoutArray(t);
    if StartsWithList(base) then base[|LIST_PREFIX|..|base| - 1] else base
  }

  ghost predicate AllPeel(structs: Structs) {
    forall n <- structs :: FieldsPeel(structs[n])
  }

  ghost predicate FieldsPeel(fields: Layout<string>) {
    forall i :: 0 <= i < |fields| ==> Peels(fields[i].ftype)
  }

  /** The struct named by a field type, if there is one, is in s. */
  ghost predicate Marks(structs: Structs, t: string, s: set<string>)
    requires Peels(t)
  {
    BaseName(t) in structs ==> BaseName(t) in s
  }

  ghost predicate FieldsMark(structs: Structs, fields: Layout<string>, s: set<string>)
    requires FieldsPeel(fields)
  {
    forall i :: 0 <= i < |fields| ==> Marks(structs, fields[i].ftype, s)
  }

  /** s contains every struct that a layout of one of its members names. */
  ghost predicate Closed(structs: Structs, s: set<string>)
    requires AllPeel(structs)
  {
    forall n <- s :: n in structs ==> FieldsMark(structs, structs[n], s)
  }

  /** Everything marked since before has all that its layout names marked too. */
  ghost predicate ClosedSince(structs: Structs, before: set<string>, after: set<string>)
    requires AllPeel(structs)
  {
    forall n <- after - before :: n in structs && FieldsMark(structs, structs[n], after)
  }

  lemma ClosedSinceChains(structs: Structs, a: set<string>, b: set<string>, c: set<string>)
    requires AllPeel(structs) && a <= b <= c
    requires ClosedSince(structs, a, b) && ClosedSince(structs, b, c)
    ensures ClosedSince(structs, a, c)
  {
    forall n | n in c - a
      ensures n in structs && FieldsMark(structs, structs[n], c)
    {
      if n in b {
        assert n in b - a;
      } else {
        assert n in c - b;
      }
    }
  }

  /** Every closed set that contains before and what the fields name contains after. */
  ghost predicate Minimal(structs: Structs, fields: Layout<string>, before: set<string>, after: set<string>)
    requires AllPeel(structs) && FieldsPeel(fields)
  {
    forall s: set<string> :: before <= s && Closed(structs, s) && FieldsMark(structs, fields, s) ==> after <= s
  }

  ghost predicate MinimalFrom(structs: Structs, t: string, before: set<string>, after: set<string>)
    requires AllPeel(structs) && Peels(t)
  {
    forall s: set<string> :: before <= s && Closed(structs, s) && Marks(structs, t, s) ==> after <= s
  }

  lemma MinimalChains(structs: Structs, fields: Layout<string>, i: nat, a: set<string>, b: set<string>, c: set<string>)
    requires AllPeel(structs) && FieldsPeel(fields) && i < |fields|
    requires Minimal(structs, fields, a, b) && MinimalFrom(structs, fields[i].ftype, b, c)
    ensures Minimal(structs, fields, a, c)
  {
  }

  lemma MarksGrow(structs: Structs, fields: Layout<string>, i: nat, a: set<string>, b: set<string>)
    requires FieldsPeel(fields) && i < |fields| && a <= b
    requires forall k :: 0 <= k < i ==> Marks(structs, fields[k].ftype, a)
    requires Marks(structs, fields[i].ftype, b)
    ensures forall k :: 0 <= k < i + 1 ==> Marks(structs, fields[k].ftype, b)
  {
  }

  class Collector {
    var reachable: set<string>

    constructor ()
      ensures reachable == {}
    {
      reachable := {};
    }

    /**
     * collectReachable: a depth-first walk that marks a struct before following its fields. What it newly marks
     * is closed when it returns, and it marks nothing that some closed set containing its start would miss.
     */
    method Collect(ftype: string, structs: Structs)
      requires AllPeel(structs) && Peels(ftype)
      modifies this
      ensures old(reachable) <= reachable <= old(reachable) + structs.Keys
      ensures Marks(structs, ftype, reachable)
      ensures ClosedSince(structs, old(reachable), reachable)
      ensures MinimalFrom(structs, ftype, old(reachable), reachable)
      decreases structs.Keys - reachable, 0
    {
      var base := BaseName(ftype);
      if base in reachable {
        return;
      }
      if base !in structs {
        return;
      }
      var layout := structs[base];
      assert base in structs.Keys - reachable;
      reachable := reachable + {base};
      CollectAll(layout, structs);
    }

    /** The walk over a list of fields. */
    method CollectAll(fields: Layout<string>, structs: Structs)
      requires AllPeel(structs) && FieldsPeel(fields)
      modifies this
      ensures old(reachable) <= reachable <= old(reachable) + structs.Keys
      ensures FieldsMark(structs, fields, reachable)
      ensures ClosedSince(structs, old(reachable), reachable)
      ensures Minimal(structs, fields, old(reachable), reachable)
      decreases structs.Keys - reachable, 1
    {
      for i := 0 to |fields|
        invariant old(reachable) <= reachable <= old(reachable) + structs.Keys
        invariant forall k :: 0 <= k < i ==> Marks(structs, fields[k].ftype, reachable)
        invariant ClosedSince(structs, old(reachable), reachable)
        invariant Minimal(structs, fields, old(reachable), reachable)
      {
        assert structs.Keys - reachable <= structs.Keys - old(reachable);
        ghost var mid := reachable;
        Collect(fields[i].ftype, structs);
        ClosedSinceChains(structs, old(reachable), mid, reachable);
        MinimalChains(structs, fields, i, old(reachable), mid, reachable);
        MarksGrow(structs, fields, i, mid, reachable);
      }
    }
  }

  /** s is the least set that contains every struct the roots name and is closed under the layouts. */
  ghost predicate IsReachable(structs: Structs, roots: seq<Layout<string>>, s: set<string>)
    requires AllPeel(structs) && RootsPeel(roots)
  {
    && s <= structs.Keys
    && Closed(structs, s)
    && RootsMark(structs, roots, s)
    && Least(structs, roots, s)
  }

  ghost predicate RootsPeel(roots: seq<Layout<string>>) {
    forall i :: 0 <= i < |roots| ==> FieldsPeel(roots[i])
  }

  /** s contains every struct that the roots name. */
  ghost predicate RootsMark(structs: Structs, roots: seq<Layout<string>>, s: set<string>)
    requires RootsPeel(roots)
  {
    forall i :: 0 <= i < |roots| ==> FieldsMark(structs, roots[i], s)
  }

  /** Every closed set that contains what the roots name contains s. */
  ghost predicate Least(structs: Structs, roots: seq<Layout<string>>, s: set<string>)
    requires AllPeel(structs) && RootsPeel(roots)
  {
    forall t: set<string> :: Closed(structs, t) && RootsMark(structs, roots, t) ==> s <= t
  }

  lemma LeastAfter(structs: Structs, roots: seq<Layout<string>>, i: nat, before: set<string>, after: set<string>)
    requires AllPeel(structs) && RootsPeel(roots) && i < |roots|
    requires Least(structs, roots, before) && Minimal(structs, roots[i], before, after)
    ensures Least(structs, roots, after)
  {
  }

  lemma ClosedAfter(structs: Structs, before: set<string>, after: set<string>)
    requires AllPeel(structs) && before <= after
    requires Closed(structs, before) && ClosedSince(structs, before, after)
    ensures Closed(structs, after)
  {
    forall n | n in after && n in structs
      ensures FieldsMark(structs, structs[n], after)
    {
      if n !in before {
        assert n in after - before;
      }
    }
  }

  lemma RootsGrow(structs: Structs, roots: seq<Layout<string>>, i: nat, before: set<string>, after: set<string>)
    requires RootsPeel(roots) && i < |roots| && before <= after
    requires RootsMark(structs, roots[..i], before) && FieldsMark(structs, roots[i], after)
    ensures RootsMark(structs, roots[..i + 1], after)
  {
    var seen := roots[..i + 1];
    forall k | 0 <= k < |seen|
      ensures FieldsMark(structs, seen[k], after)
    {
      if k < i {
        assert roots[..i][k] == roots[k];
      }
    }
  }

  /** The compiler's outer loop: collect from every field of every message. */
  method CollectReachable(roots: seq<Layout<string>>, structs: Structs) returns (reachable: set<string>)
    requires AllPeel(structs) && RootsPeel(roots)
    ensures IsReachable(structs, roots, reachable)
  {
    var c := new Collector();
    for i := 0 to |roots|
      invariant c.reachable <= structs.Keys
      invariant Closed(structs, c.reachable)
      invariant RootsMark(structs, roots[..i], c.reachable)
      invariant Least(structs, roots, c.reachable)
    {
      ghost var before := c.reachable;
      c.CollectAll(roots[i], structs);
      ClosedAfter(structs, before, c.reachable);
      RootsGrow(structs, roots, i, before, c.reachable);
      LeastAfter(structs, roots, i, before, c.reachable);
    }
    assert roots[..|roots|] == roots;
    reachable := c.reachable;
  }
}
