/** The walk over every definition of a schema and what is built on it: resolving references
    and finding groups, src/blink_schema.c:137-159, 547-563, 1787-1881, 2257-2314. */
module Definitions {
  import opened Base
  import opened Schema

  // -------------------------------------------------------------------- the walk

  /** The definitions from place j of namespace i on, namespace by namespace. */
  function RefsFrom(nss: Namespaces, i: nat, j: nat): (refs: seq<Ref>)
    requires i < |nss| ==> j <= |nss[i].defs|
    decreases |nss| - i, if i < |nss| then |nss[i].defs| - j else 0
  {
    if i >= |nss| then []
    else if j < |nss[i].defs| then [Ref(i, j)] + RefsFrom(nss, i, j + 1)
    else RefsFrom(nss, i + 1, 0)
  }

  function AllDefs(nss: Namespaces): (refs: seq<Ref>)
  {
    RefsFrom(nss, 0, 0)
  }

  /** Order of definitions in the schema. */
  predicate Before(a: Ref, b: Ref) {
    a.ns < b.ns || (a.ns == b.ns && a.at < b.at)
  }

  ghost predicate Ordered(refs: seq<Ref>) {
    forall a, b :: 0 <= a < b < |refs| ==> Before(refs[a], refs[b])
  }

  /** A definition at place j of namespace i or behind it. */
  ghost predicate From(nss: Namespaces, i: nat, j: nat, r: Ref) {
    ValidRef(nss, r) && (r.ns > i || (r.ns == i && r.at >= j))
  }

  lemma {:induction false} RefsFromListed(nss: Namespaces, i: nat, j: nat)
    requires i < |nss| ==> j <= |nss[i].defs|
    ensures forall r :: r in RefsFrom(nss, i, j) <==> From(nss, i, j, r)
    decreases |nss| - i, if i < |nss| then |nss[i].defs| - j else 0
  {
    hide From;
    if i < |nss| {
      if j < |nss[i].defs| { RefsFromListed(nss, i, j + 1); } else { RefsFromListed(nss, i + 1, 0); }
    }
    forall r ensures r in RefsFrom(nss, i, j) <==> From(nss, i, j, r) { FromStep(nss, i, j, r); }
  }

  lemma FromStep(nss: Namespaces, i: nat, j: nat, r: Ref)
    requires i < |nss| ==> j <= |nss[i].defs|
    ensures From(nss, i, j, r) <==>
            i < |nss| && if j < |nss[i].defs| then r == Ref(i, j) || From(nss, i, j + 1, r) else From(nss, i + 1, 0, r)
  {
  }

  lemma {:induction false} RefsFromOrdered(nss: Namespaces, i: nat, j: nat)
    requires i < |nss| ==> j <= |nss[i].defs|
    ensures Ordered(RefsFrom(nss, i, j))
    decreases |nss| - i, if i < |nss| then |nss[i].defs| - j else 0
  {
    hide Ordered;
    if i >= |nss| {
      OrderedNone();
    } else if j < |nss[i].defs| {
      RefsFromOrdered(nss, i, j + 1);
      RefsFromListed(nss, i, j + 1);
      OrderedCons(Ref(i, j), RefsFrom(nss, i, j + 1));
    } else {
      RefsFromOrdered(nss, i + 1, 0);
    }
  }

  lemma OrderedNone()
    ensures Ordered([])
  {
  }

  lemma OrderedCons(r: Ref, refs: seq<Ref>)
    requires Ordered(refs) && forall q :: q in refs ==> Before(r, q)
    ensures Ordered([r] + refs)
  {
    var all := [r] + refs;
    forall a, b | 0 <= a < b < |all| ensures Before(all[a], all[b]) {
      if a == 0 { assert all[b] in refs; } else { assert Before(refs[a - 1], refs[b - 1]); }
    }
  }

  /** Every definition is listed, once, in order; a namespace may be empty. */
  lemma WalkIsComplete(nss: Namespaces)
    ensures forall r :: r in AllDefs(nss) <==> ValidRef(nss, r)
    ensures Ordered(AllDefs(nss)) && Distinct(AllDefs(nss))
  {
    hide RefsFrom;
    RefsFromListed(nss, 0, 0);
    RefsFromOrdered(nss, 0, 0);
    OrderedDistinct(AllDefs(nss));
  }

  lemma OrderedDistinct(refs: seq<Ref>)
    requires Ordered(refs)
    ensures Distinct(refs)
  {
    assert forall r :: !Before(r, r);
  }

  /** Same lists, by length. */
  ghost predicate SameShape(nss: Namespaces, nss': Namespaces) {
    |nss'| == |nss| && forall i :: 0 <= i < |nss| ==> |nss'[i].defs| == |nss[i].defs|
  }

  lemma {:induction false} RefsSameShape(nss: Namespaces, nss': Namespaces, i: nat, j: nat)
    requires SameShape(nss, nss') && (i < |nss| ==> j <= |nss[i].defs|)
    ensures RefsFrom(nss', i, j) == RefsFrom(nss, i, j)
    decreases |nss| - i, if i < |nss| then |nss[i].defs| - j else 0
  {
    if i < |nss| {
      if j < |nss[i].defs| { RefsSameShape(nss, nss', i, j + 1); } else { RefsSameShape(nss, nss', i + 1, 0); }
    }
  }

  /** struct blink_group_iterator: a namespace and a definition in it. The end of a list, NULL
      in the source, is the length of the list for namespaces and None for definitions. */
  lemma RefsStep(nss: Namespaces, i: nat, j: nat)
    requires i < |nss| && j <= |nss[i].defs|
    ensures RefsFrom(nss, i, j) ==
              if j < |nss[i].defs| then [Ref(i, j)] + RefsFrom(nss, i, j + 1) else RefsFrom(nss, i + 1, 0)
  {
  }

  lemma RefsEnd(nss: Namespaces, i: nat)
    ensures i >= |nss| ==> RefsFrom(nss, i, 0) == []
  {
  }

  class DefIterator {
    var ns: nat
    var def: Option<nat>

    ghost predicate On(nss: Namespaces)
      reads this
    {
      ns <= |nss| && (def.Some? ==> ns < |nss| && def.value < |nss[ns].defs|)
    }

    /** What is still to come. */
    ghost function Rest(nss: Namespaces): seq<Ref>
      requires On(nss)
      reads this
    {
      if def.None? then [] else RefsFrom(nss, ns, def.value)
    }

    /** initDefinitionIterator */
    constructor (nss: Namespaces)
      ensures On(nss) && Rest(nss) == AllDefs(nss)
    {
      var i := 0;
      while i < |nss| && nss[i].defs == []
        invariant i <= |nss| && RefsFrom(nss, i, 0) == AllDefs(nss)
      {
        i := i + 1;
      }
      ns := i;
      def := if i < |nss| then Some(0) else None;
    }

    /** peekDefinition */
    method Peek(nss: Namespaces) returns (r: Option<Ref>)
      requires On(nss)
      ensures r == if Rest(nss) == [] then None else Some(Rest(nss)[0])
    {
      r := if def.Some? then Some(Ref(ns, def.value)) else None;
    }

    /** nextDefinition: returns the current definition and moves on, past empty namespaces. */
    method Next(nss: Namespaces) returns (r: Option<Ref>)
      requires On(nss)
      modifies this
      ensures On(nss)
      ensures var rest := old(Rest(nss));
              if rest == [] then r == None && Rest(nss) == [] else r == Some(rest[0]) && Rest(nss) == rest[1..]
    {
      hide RefsFrom;
      if def.None? {
        return None;
      }
      RefsStep(nss, ns, def.value);
      ghost var rest := Rest(nss)[1..];
      r := Some(Ref(ns, def.value));
      def := if def.value + 1 < |nss[ns].defs| then Some(def.value + 1) else None;
      if def.None? {
        while ns < |nss|
          invariant ns <= |nss| && def.None?
          invariant rest == if ns < |nss| then RefsFrom(nss, ns, |nss[ns].defs|) else []
        {
          RefsStep(nss, ns, |nss[ns].defs|);
          ns := ns + 1;
          RefsEnd(nss, ns);
          if ns < |nss| {
            if nss[ns].defs != [] {
              def := Some(0);
              return;
            }
          }
        }
      }
    }

    /** BLINK_GroupIterator_next: moves on to a group. */
    method NextGroup(nss: Namespaces) returns (r: Option<Ref>)
      requires On(nss)
      modifies this
      ensures On(nss)
      ensures var groups := old(Groups(nss, Rest(nss)));
              if groups == [] then r == None && Rest(nss) == []
              else r == Some(groups[0]) && Groups(nss, Rest(nss)) == groups[1..]
    {
      hide IsGroup, RefsFrom, Groups, On;
      ghost var groups, all := Groups(nss, Rest(nss)), Rest(nss);
      r := Next(nss);
      NextOf(nss, all);
      while r.Some? && !IsGroup(nss, r.value)
        invariant On(nss)
        invariant r == None ==> Rest(nss) == [] && groups == []
        invariant r.Some? ==> groups == (if IsGroup(nss, r.value) then [r.value] else []) + Groups(nss, Rest(nss))
        decreases r.Some?, |Rest(nss)|
      {
        ghost var rest := Rest(nss);
        assert [] + Groups(nss, rest) == Groups(nss, rest);
        NextOf(nss, rest);
        r := Next(nss);
      }
    }
  }

  predicate IsGroup(nss: Namespaces, r: Ref) {
    r.ns < |nss| && r.at < |nss[r.ns].defs| && nss[r.ns].defs[r.at].Group?
  }

  function Groups(nss: Namespaces, refs: seq<Ref>): seq<Ref> {
    if refs == [] then []
    else (if IsGroup(nss, refs[0]) then [refs[0]] else []) + Groups(nss, refs[1..])
  }

  lemma NextOf(nss: Namespaces, refs: seq<Ref>)
    ensures refs == [] ==> Groups(nss, refs) == []
    ensures refs != [] ==>
              Groups(nss, refs) == (if IsGroup(nss, refs[0]) then [refs[0]] else []) + Groups(nss, refs[1..])
  {
  }

  lemma {:induction false} GroupsListed(nss: Namespaces, refs: seq<Ref>)
    requires Ordered(refs)
    ensures Ordered(Groups(nss, refs)) && forall r :: r in Groups(nss, refs) <==> r in refs && IsGroup(nss, r)
  {
    hide Before, IsGroup;
    if refs != [] {
      assert Ordered(refs[1..]) by {
        forall a, b | 0 <= a < b < |refs[1..]| ensures Before(refs[1..][a], refs[1..][b]) {}
      }
      GroupsListed(nss, refs[1..]);
      FirstIsBefore(refs);
      OrderedCons(refs[0], Groups(nss, refs[1..]));
    }
  }

  lemma FirstIsBefore(refs: seq<Ref>)
    requires Ordered(refs) && refs != []
    ensures forall q :: q in refs[1..] ==> Before(refs[0], q)
  {
    forall q | q in refs[1..] ensures Before(refs[0], q) {
      var k :| 0 <= k < |refs[1..]| && refs[1..][k] == q;
      assert refs[k + 1] == q;
    }
  }

  /** A client's loop over BLINK_GroupIterator_next: every group exactly once, in order. */
  method ListGroups(nss: Namespaces) returns (gs: seq<Ref>)
    ensures forall r :: r in gs <==> ValidRef(nss, r) && DefAt(nss, r).Group?
    ensures Ordered(gs) && Distinct(gs)
  {
    hide RefsFrom, Ordered, Groups;
    var it := new DefIterator(nss);
    ghost var all := Groups(nss, AllDefs(nss));
    gs := [];
    var g := it.NextGroup(nss);
    while g.Some?
      invariant it.On(nss)
      invariant g == None ==> gs == all
      invariant g.Some? ==> gs + [g.value] + Groups(nss, it.Rest(nss)) == all
      decreases g.Some?, |Groups(nss, it.Rest(nss))|
    {
      gs := gs + [g.value];
      g := it.NextGroup(nss);
    }
    WalkIsComplete(nss);
    GroupsListed(nss, AllDefs(nss));
    OrderedDistinct(gs);
  }

  predicate HasId(nss: Namespaces, r: Ref, id: uint64) {
    IsGroup(nss, r) && nss[r.ns].defs[r.at].id == Some(id)
  }

  function FirstWithId(nss: Namespaces, refs: seq<Ref>, id: uint64): Option<Ref> {
    if refs == [] then None
    else if HasId(nss, refs[0], id) then Some(refs[0])
    else FirstWithId(nss, refs[1..], id)
  }

  lemma {:induction false} FirstWithIdMeans(nss: Namespaces, refs: seq<Ref>, id: uint64)
    requires Ordered(refs)
    ensures var r := FirstWithId(nss, refs, id);
            && (r.Some? ==>
                  HasId(nss, r.value, id)
                  && forall q :: q in refs && HasId(nss, q, id) && q != r.value ==> Before(r.value, q))
            && (r.None? ==> forall q :: q in refs ==> !HasId(nss, q, id))
  {
    hide Before, HasId;
    if refs != [] {
      FirstIsBefore(refs);
      assert Ordered(refs[1..]) by {
        forall a, b | 0 <= a < b < |refs[1..]| ensures Before(refs[1..][a], refs[1..][b]) {}
      }
      FirstWithIdMeans(nss, refs[1..], id);
    }
  }

  /** BLINK_Schema_getGroupByID: the first group with the number, or none if there is none.
      The walk sees the first definition twice, which does no harm. */
  method GetGroupByID(nss: Namespaces, id: uint64) returns (r: Option<Ref>)
    ensures r.Some? ==> HasId(nss, r.value, id) && forall q :: HasId(nss, q, id) && q != r.value ==> Before(r.value, q)
    ensures r.None? ==> forall q :: !HasId(nss, q, id)
    ensures r == FirstWithId(nss, AllDefs(nss), id)
  {
    hide RefsFrom, Ordered, Before;
    var it := new DefIterator(nss);
    r := None;
    var d := it.Peek(nss);
    while r.None? && d.Some?
      invariant it.On(nss)
      invariant d.None? ==> it.Rest(nss) == []
      invariant FirstWithId(nss, AllDefs(nss), id) ==
                if r.Some? then r else if d.None? then None else FirstWithId(nss, [d.value] + it.Rest(nss), id)
      decreases d.Some?, |it.Rest(nss)|
    {
      if HasId(nss, d.value, id) {
        r := d;
      }
      ghost var rest := it.Rest(nss);
      assert ([d.value] + rest)[1..] == rest;
      d := it.Next(nss);
      assert d.Some? ==> [d.value] + it.Rest(nss) == rest;
    }
    WalkIsComplete(nss);
    FirstWithIdMeans(nss, AllDefs(nss), id);
  }
}
