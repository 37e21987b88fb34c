/** Supergroups: the line of a group's ancestors, the fields a group inherits, and the tests
    on both, src/blink_schema.c:161-254, 497-545, 2032-2116. */
module Inheritance {
  import opened Base
  import opened Schema
  import opened Definitions
  import opened References
  import Orbits

  // ------------------------------------------------------------------ the line of a group

  function SuperRef(nss: Namespaces, g: Ref): Option<Ref>
    requires IsGroup(nss, g)
  {
    nss[g.ns].defs[g.at].super
  }

  /** The supergroup itself, at the end of the reference that names it. */
  ghost function Parent(nss: Namespaces, g: Ref): (s: Option<Ref>)
    requires Linked(nss) && IsGroup(nss, g)
    requires SuperRef(nss, g).Some? ==> Ends(nss, SuperRef(nss, g).value)
    ensures s.Some? == SuperRef(nss, g).Some?
  {
    if SuperRef(nss, g).Some? then Some(TerminalOf(nss, SuperRef(nss, g).value).0) else None
  }

  /** Going from supergroup to supergroup, through groups only, ends after at most n steps. */
  ghost predicate RootedIn(nss: Namespaces, g: Ref, n: nat)
    requires Linked(nss)
    decreases n
  {
    && IsGroup(nss, g)
    && (SuperRef(nss, g).Some? ==>
          && Ends(nss, SuperRef(nss, g).value)
          && n > 0 && RootedIn(nss, Parent(nss, g).value, n - 1))
  }

  ghost predicate Rooted(nss: Namespaces, g: Ref)
    requires Linked(nss)
  {
    exists n: nat :: RootedIn(nss, g, n)
  }

  ghost function LineageIn(nss: Namespaces, g: Ref, n: nat): seq<Ref>
    requires Linked(nss) && RootedIn(nss, g, n)
    decreases n
  {
    (if SuperRef(nss, g).None? then [] else LineageIn(nss, Parent(nss, g).value, n - 1)) + [g]
  }

  /** The group and its ancestors, the root first. */
  ghost function Lineage(nss: Namespaces, g: Ref): seq<Ref>
    requires Linked(nss) && Rooted(nss, g)
  {
    var n: nat :| RootedIn(nss, g, n);
    LineageIn(nss, g, n)
  }

  lemma {:induction false} LineageStable(nss: Namespaces, g: Ref, m: nat, n: nat)
    requires Linked(nss) && RootedIn(nss, g, m) && RootedIn(nss, g, n)
    ensures LineageIn(nss, g, m) == LineageIn(nss, g, n)
    decreases m
  {
    hide Linked, Ends, Parent, IsGroup;
    if SuperRef(nss, g).Some? { LineageStable(nss, Parent(nss, g).value, m - 1, n - 1); }
  }

  /** The line of a group is that of its supergroup and then the group. */
  lemma Unfold(nss: Namespaces, g: Ref)
    requires Linked(nss) && Rooted(nss, g)
    ensures IsGroup(nss, g)
    ensures SuperRef(nss, g).None? ==> Lineage(nss, g) == [g]
    ensures SuperRef(nss, g).Some? ==>
              && Ends(nss, SuperRef(nss, g).value)
              && Rooted(nss, Parent(nss, g).value)
              && Lineage(nss, g) == Lineage(nss, Parent(nss, g).value) + [g]
  {
    hide Linked, Ends, Parent, IsGroup;
    var n: nat :| RootedIn(nss, g, n) && Lineage(nss, g) == LineageIn(nss, g, n);
    if SuperRef(nss, g).Some? {
      var s := Parent(nss, g).value;
      assert RootedIn(nss, s, n - 1);
      var m: nat :| RootedIn(nss, s, m) && Lineage(nss, s) == LineageIn(nss, s, m);
      LineageStable(nss, s, m, n - 1);
      assert LineageIn(nss, g, n) == LineageIn(nss, s, n - 1) + [g];
    }
  }

  /** Along the line each group is the supergroup of the next, and each line is the start of
      the lines of its descendants. */
  lemma {:induction false} LineOf(nss: Namespaces, g: Ref, k: nat)
    requires Linked(nss) && Rooted(nss, g) && k < |Lineage(nss, g)|
    ensures var line := Lineage(nss, g);
            Rooted(nss, line[k]) && Lineage(nss, line[k]) == line[..k + 1]
    decreases |Lineage(nss, g)|
  {
    hide Linked, Ends, Parent, IsGroup, Rooted, Lineage;
    Unfold(nss, g);
    if SuperRef(nss, g).Some? && k < |Lineage(nss, g)| - 1 {
      LineOf(nss, Parent(nss, g).value, k);
    }
  }

  lemma LastOfLine(nss: Namespaces, g: Ref)
    requires Linked(nss) && Rooted(nss, g)
    ensures var line := Lineage(nss, g); line != [] && line[|line| - 1] == g
  {
    hide Linked, Ends, Parent, Rooted, Lineage;
    Unfold(nss, g);
  }

  /** No group is its own ancestor. */
  lemma LineDistinct(nss: Namespaces, g: Ref)
    requires Linked(nss) && Rooted(nss, g)
    ensures Distinct(Lineage(nss, g))
  {
    hide Linked, Rooted, Lineage;
    var line := Lineage(nss, g);
    forall i, j | 0 <= i < j < |line| ensures line[i] != line[j] {
      LineOf(nss, g, i);
      LineOf(nss, g, j);
      assert |line[..i + 1]| != |line[..j + 1]|;
    }
  }

  // ----------------------------------------------------------- when the line comes to an end

  /** What the first pass of testConstraints guarantees of supergroup references: each leads to
      a definition, and its chain ends. */
  ghost predicate SupersSettled(nss: Namespaces)
    requires Linked(nss)
  {
    forall g :: IsGroup(nss, g) && SuperRef(nss, g).Some? ==>
      ValidRef(nss, SuperRef(nss, g).value) && Ends(nss, SuperRef(nss, g).value)
  }

  /** One turn of the walks that follow supergroups. */
  ghost function Up(nss: Namespaces): Ref -> Option<Ref>
    requires Linked(nss) && SupersSettled(nss)
  {
    g => if IsGroup(nss, g) then Parent(nss, g) else None
  }

  /** Where n turns lead from g. */
  ghost function Ancestor(nss: Namespaces, g: Ref, n: nat): Option<Ref>
    requires Linked(nss) && SupersSettled(nss)
  {
    Orbits.Iter(Up(nss), Some(g), n)
  }

  /** The walk from g comes to a definition that is not a group; the source reads it as one. */
  ghost predicate Strays(nss: Namespaces, g: Ref)
    requires Linked(nss) && SupersSettled(nss)
  {
    exists n: nat :: Ancestor(nss, g, n).Some? && !IsGroup(nss, Ancestor(nss, g, n).value)
  }

  /** The walk from g comes to some group twice. */
  ghost predicate Circles(nss: Namespaces, g: Ref)
    requires Linked(nss) && SupersSettled(nss)
  {
    Orbits.Recurs(Up(nss), g)
  }

  lemma AncestorFirst(nss: Namespaces, g: Ref, n: nat)
    requires Linked(nss) && SupersSettled(nss)
    ensures Ancestor(nss, g, 0) == Some(g)
    ensures Ancestor(nss, g, n + 1) == if Up(nss)(g).None? then None else Ancestor(nss, Up(nss)(g).value, n)
  {
    hide Linked, SupersSettled, Up;
    Orbits.IterOnce(Up(nss), g);
    Orbits.IterFirst(Up(nss), g, n);
    if Up(nss)(g).None? {
      assert Orbits.Iter(Up(nss), None, 0) == None;
      Orbits.NoneStays(Up(nss), None, 0, n);
    }
  }

  lemma StraysFirst(nss: Namespaces, g: Ref)
    requires Linked(nss) && SupersSettled(nss)
    ensures Strays(nss, g) <==> !IsGroup(nss, g) || (Parent(nss, g).Some? && Strays(nss, Parent(nss, g).value))
  {
    hide Linked, SupersSettled, Parent, IsGroup, Ancestor;
    AncestorFirst(nss, g, 0);
    if IsGroup(nss, g) {
      SuperSettled(nss, g);
      UpIs(nss, g);
      assert Up(nss)(g) == Parent(nss, g);
      if Strays(nss, g) {
        var n: nat :| Ancestor(nss, g, n).Some? && !IsGroup(nss, Ancestor(nss, g, n).value);
        assert n > 0;
        AncestorFirst(nss, g, n - 1);
      }
      if Parent(nss, g).Some? && Strays(nss, Parent(nss, g).value) {
        var n: nat :| Ancestor(nss, Parent(nss, g).value, n).Some?
                      && !IsGroup(nss, Ancestor(nss, Parent(nss, g).value, n).value);
        AncestorFirst(nss, g, n);
      }
    }
  }

  lemma {:induction false} RootedMeans(nss: Namespaces, g: Ref, n: nat)
    requires Linked(nss) && SupersSettled(nss)
    ensures RootedIn(nss, g, n) <==> Ancestor(nss, g, n + 1) == None && !Strays(nss, g)
    decreases n
  {
    hide Linked, Ends, Parent, IsGroup, Ancestor, Strays;
    StraysFirst(nss, g);
    AncestorFirst(nss, g, n);
    if IsGroup(nss, g) { UpIs(nss, g); }
    if IsGroup(nss, g) && SuperRef(nss, g).Some? {
      var s := Parent(nss, g).value;
      AncestorFirst(nss, s, 0);
      if n > 0 { RootedMeans(nss, s, n - 1); }
    }
  }

  lemma UpStays(nss: Namespaces)
    requires Linked(nss) && SupersSettled(nss)
    ensures Orbits.Closed(Up(nss), AllDefs(nss))
  {
    hide Linked, Ends, TerminalOf;
    WalkIsComplete(nss);
  }

  /** Following supergroups from g ends in a root, and then after no more turns than there are
      definitions, if and only if the walk meets no group twice and nothing but groups. */
  lemma LineEnds(nss: Namespaces, g: Ref)
    requires Linked(nss) && SupersSettled(nss) && ValidRef(nss, g)
    ensures Rooted(nss, g) <==> RootedIn(nss, g, |AllDefs(nss)|)
    ensures Rooted(nss, g) <==> !Circles(nss, g) && !Strays(nss, g)
  {
    hide Linked, SupersSettled, RootedIn, Strays, Up, Orbits.Iter, Orbits.Closed, Orbits.Recurs;
    WalkIsComplete(nss);
    UpStays(nss);
    var n := |AllDefs(nss)|;
    Orbits.EndsIffNoRecurrence(Up(nss), g, AllDefs(nss));
    RootedMeans(nss, g, n);
    if Rooted(nss, g) {
      var m: nat :| RootedIn(nss, g, m);
      RootedMeans(nss, g, m);
      assert exists k: nat :: Orbits.Iter(Up(nss), Some(g), k) == None by {
        var k: nat := m + 1;
        assert Orbits.Iter(Up(nss), Some(g), k) == None;
      }
      assert !Circles(nss, g);
    }
    if !Circles(nss, g) {
      Orbits.NoneStays(Up(nss), Some(g), n, n + 1);
      assert Ancestor(nss, g, n + 1) == None;
    }
  }

  /** A walk that goes round meets groups only. */
  lemma CirclesNotStrays(nss: Namespaces, g: Ref)
    requires Linked(nss) && SupersSettled(nss) && Circles(nss, g)
    ensures !Strays(nss, g) && forall n: nat :: Ancestor(nss, g, n).Some?
  {
    hide Linked, SupersSettled, Orbits.Iter, Parent;
    var i: nat, j: nat :| i < j && Orbits.Iter(Up(nss), Some(g), i).Some?
                            && Orbits.Iter(Up(nss), Some(g), i) == Orbits.Iter(Up(nss), Some(g), j);
    forall n: nat ensures Ancestor(nss, g, n).Some? && IsGroup(nss, Ancestor(nss, g, n).value) {
      Orbits.RoundForEver(Up(nss), Some(g), i, j, n);
      Orbits.RoundForEver(Up(nss), Some(g), i, j, n + 1);
      NextAncestor(nss, g, n);
    }
  }

  lemma NextAncestor(nss: Namespaces, g: Ref, n: nat)
    requires Linked(nss) && SupersSettled(nss)
    ensures Ancestor(nss, g, n + 1) == if Ancestor(nss, g, n).None? then None else Up(nss)(Ancestor(nss, g, n).value)
  {
    hide Linked, SupersSettled, Up;
  }

  /** How the walk from a group comes out. */
  datatype Line = Ending | Straying | Circling

  ghost function LineOut(nss: Namespaces, g: Ref): Line
    requires Linked(nss) && SupersSettled(nss)
  {
    if Strays(nss, g) then Straying else if Circles(nss, g) then Circling else Ending
  }

  /** The walk with a count of its turns, which the source does not keep: it decides in advance
      whether a walk of the source from g comes back. */
  method FollowLine(nss: Namespaces, g: Ref) returns (k: Line)
    requires Linked(nss) && SupersSettled(nss) && ValidRef(nss, g)
    ensures k == LineOut(nss, g)
  {
    hide Linked, SupersSettled, Ends, TerminalOf, Strays, Circles, Up, Parent, Ancestor, RootedIn;
    var n, ptr := 0, g;
    AncestorFirst(nss, g, 0);
    LineEnds(nss, g);
    while n <= |AllDefs(nss)|
      invariant Ancestor(nss, g, n) == Some(ptr)
    {
      if !IsGroup(nss, ptr) {
        StraysAt(nss, g, n);
        return Straying;
      }
      SuperSettled(nss, ptr);
      NextAncestor(nss, g, n);
      UpIs(nss, ptr);
      if SuperRef(nss, ptr).None? {
        EndsAt(nss, g, n);
        return Ending;
      }
      var s := GetSuper(nss, ptr);
      ptr := s.value;
      n := n + 1;
    }
    TooLong(nss, g, n);
    CirclesNotStrays(nss, g);
    k := Circling;
  }

  lemma SuperSettled(nss: Namespaces, g: Ref)
    requires Linked(nss) && SupersSettled(nss) && IsGroup(nss, g)
    ensures SuperRef(nss, g).Some? ==> Ends(nss, SuperRef(nss, g).value)
  {
    hide Ends, Linked;
  }

  lemma UpIs(nss: Namespaces, g: Ref)
    requires Linked(nss) && SupersSettled(nss) && IsGroup(nss, g)
    ensures Up(nss)(g) == Parent(nss, g)
  {
    hide Ends, Linked, Parent;
  }

  lemma StraysAt(nss: Namespaces, g: Ref, n: nat)
    requires Linked(nss) && SupersSettled(nss) && Ancestor(nss, g, n).Some? && !IsGroup(nss, Ancestor(nss, g, n).value)
    ensures Strays(nss, g)
  {
    hide Linked, SupersSettled, Ancestor;
  }

  /** A walk that has come to NULL from a group has met groups only. */
  lemma EndsAt(nss: Namespaces, g: Ref, n: nat)
    requires Linked(nss) && SupersSettled(nss) && Ancestor(nss, g, n).Some? && IsGroup(nss, Ancestor(nss, g, n).value)
    requires Ancestor(nss, g, n + 1) == None
    ensures !Strays(nss, g) && !Circles(nss, g)
  {
    hide Linked, SupersSettled, Parent, Orbits.Iter;
    if Circles(nss, g) { CirclesNotStrays(nss, g); }
    forall m: nat | Ancestor(nss, g, m).Some? ensures IsGroup(nss, Ancestor(nss, g, m).value) {
      if m > n { Orbits.NoneStays(Up(nss), Some(g), n + 1, m); }
      if m < n {
        NextAncestor(nss, g, m);
        if Ancestor(nss, g, m + 1) == None { Orbits.NoneStays(Up(nss), Some(g), m + 1, n); }
      }
    }
  }

  lemma TooLong(nss: Namespaces, g: Ref, n: nat)
    requires Linked(nss) && SupersSettled(nss) && ValidRef(nss, g) && n > |AllDefs(nss)| && Ancestor(nss, g, n).Some?
    ensures Circles(nss, g)
  {
    hide Linked, SupersSettled, Up, Orbits.Iter, Orbits.Closed, Orbits.Recurs;
    WalkIsComplete(nss);
    UpStays(nss);
    Orbits.EndsIffNoRecurrence(Up(nss), g, AllDefs(nss));
    if !Circles(nss, g) { Orbits.NoneStays(Up(nss), Some(g), |AllDefs(nss)|, n); }
  }

  // --------------------------------------------------------------------------- subtyping

  ghost predicate KindOf(nss: Namespaces, a: Ref, b: Ref)
    requires Linked(nss) && Rooted(nss, a)
  {
    b in Lineage(nss, a)
  }

  lemma KindOfReflexive(nss: Namespaces, a: Ref)
    requires Linked(nss) && Rooted(nss, a)
    ensures KindOf(nss, a, a)
  {
    hide Linked, Rooted, Lineage;
    LastOfLine(nss, a);
  }

  /** A kind of b has the line of b as the start of its own. */
  lemma KindOfIsPrefix(nss: Namespaces, a: Ref, b: Ref)
    requires Linked(nss) && Rooted(nss, a) && KindOf(nss, a, b)
    ensures Rooted(nss, b) && Lineage(nss, b) <= Lineage(nss, a)
  {
    hide Linked, Rooted, Lineage;
    var line := Lineage(nss, a);
    var k :| 0 <= k < |line| && line[k] == b;
    LineOf(nss, a, k);
  }

  lemma KindOfTransitive(nss: Namespaces, a: Ref, b: Ref, c: Ref)
    requires Linked(nss) && Rooted(nss, a) && KindOf(nss, a, b) && Rooted(nss, b) && KindOf(nss, b, c)
    ensures KindOf(nss, a, c)
  {
    hide Linked, Rooted, Lineage;
    KindOfIsPrefix(nss, a, b);
  }

  lemma KindOfAntisymmetric(nss: Namespaces, a: Ref, b: Ref)
    requires Linked(nss) && Rooted(nss, a) && KindOf(nss, a, b) && Rooted(nss, b) && KindOf(nss, b, a)
    ensures a == b
  {
    hide Linked, Rooted, Lineage;
    KindOfIsPrefix(nss, a, b);
    KindOfIsPrefix(nss, b, a);
    LastOfLine(nss, a);
    LastOfLine(nss, b);
  }

  /** BLINK_Group_isKindOf */
  method IsKindOf(nss: Namespaces, self: Ref, group: Ref) returns (r: bool)
    requires Linked(nss) && Rooted(nss, self)
    ensures r == KindOf(nss, self, group)
  {
    hide Linked, Rooted, Lineage, Ends, TerminalOf;
    LastOfLine(nss, self);
    Unfold(nss, self);
    if self == group {
      return true;
    }
    var ptr := GetSuper(nss, self);
    r := false;
    while !r && ptr.Some?
      invariant ptr.Some? ==> Rooted(nss, ptr.value)
      invariant KindOf(nss, self, group) == (r || (ptr.Some? && KindOf(nss, ptr.value, group)))
      decreases !r, if ptr.Some? then |Lineage(nss, ptr.value)| else 0
    {
      Unfold(nss, ptr.value);
      if ptr.value == group {
        r := true;
      } else {
        ptr := GetSuper(nss, ptr.value);
      }
    }
  }

  /** getTerminal(castGroup(ptr)->s), where a null pointer gives a null pointer. */
  method GetSuper(nss: Namespaces, g: Ref) returns (s: Option<Ref>)
    requires Linked(nss) && IsGroup(nss, g) && (SuperRef(nss, g).Some? ==> Ends(nss, SuperRef(nss, g).value))
    ensures s == Parent(nss, g)
  {
    hide Linked, Ends, TerminalOf;
    if SuperRef(nss, g).None? {
      return None;
    }
    var ptr, dynamic, sequence := GetTerminal(nss, SuperRef(nss, g).value);
    s := Some(ptr);
  }

  /** BLINK_Group_numberOfSuperGroup: one for each ancestor. */
  method NumberOfSuperGroup(nss: Namespaces, self: Ref) returns (count: nat)
    requires Linked(nss) && Rooted(nss, self)
    ensures count + 1 == |Lineage(nss, self)|
  {
    hide Linked, Rooted, Lineage, Ends, TerminalOf;
    count := 0;
    var ptr := self;
    Unfold(nss, ptr);
    while SuperRef(nss, ptr).Some?
      invariant Rooted(nss, ptr) && IsGroup(nss, ptr)
      invariant count + |Lineage(nss, ptr)| == |Lineage(nss, self)|
      decreases |Lineage(nss, ptr)|
    {
      Unfold(nss, ptr);
      count := count + 1;
      var s := GetSuper(nss, ptr);
      ptr := s.value;
      Unfold(nss, ptr);
    }
    Unfold(nss, ptr);
  }

  // ---------------------------------------------------------------------- inherited fields

  /** A pointer to a field: its group and its place there. */
  datatype Place = Place(group: Ref, at: nat)

  function FieldsOf(nss: Namespaces, g: Ref): seq<Field> {
    if IsGroup(nss, g) then nss[g.ns].defs[g.at].fields else []
  }

  function OwnFrom(nss: Namespaces, g: Ref, k: nat): (own: seq<Place>)
    requires k <= |FieldsOf(nss, g)|
    ensures |own| == |FieldsOf(nss, g)| - k && forall i :: 0 <= i < |own| ==> own[i] == Place(g, k + i)
  {
    seq(|FieldsOf(nss, g)| - k, i requires 0 <= i < |FieldsOf(nss, g)| - k => Place(g, k + i))
  }

  function Own(nss: Namespaces, g: Ref): seq<Place> {
    OwnFrom(nss, g, 0)
  }

  /** The fields of a list of groups, one group after the other. */
  function Places(nss: Namespaces, groups: seq<Ref>): seq<Place> {
    if groups == [] then [] else Own(nss, groups[0]) + Places(nss, groups[1..])
  }

  /** All fields of a group, inherited ones first. */
  ghost function Inherited(nss: Namespaces, g: Ref): seq<Place>
    requires Linked(nss) && Rooted(nss, g)
  {
    Places(nss, Lineage(nss, g))
  }

  lemma {:induction false} PlacesAppend(nss: Namespaces, a: seq<Ref>, b: seq<Ref>)
    ensures Places(nss, a + b) == Places(nss, a) + Places(nss, b)
  {
    hide Own;
    if a == [] {
      assert a + b == b;
    } else {
      PlacesAppend(nss, a[1..], b);
      assert (a + b)[1..] == a[1..] + b;
    }
  }

  /** A group without a supergroup is a kind of itself alone and has its own fields. A group with
      one is a kind of itself and of whatever that is a kind of, and has that one's fields and
      then its own. */
  lemma SuperMeans(nss: Namespaces, g: Ref, b: Ref)
    requires Linked(nss) && Rooted(nss, g)
    ensures IsGroup(nss, g)
    ensures var d := DefAt(nss, g);
            && (d.super.None? ==> (KindOf(nss, g, b) <==> b == g) && Inherited(nss, g) == Own(nss, g))
            && (d.super.Some? ==>
                  && Ends(nss, d.super.value)
                  && var s := TerminalOf(nss, d.super.value).0;
                  && Rooted(nss, s) && (KindOf(nss, g, b) <==> b == g || KindOf(nss, s, b))
                  && Inherited(nss, g) == Inherited(nss, s) + Own(nss, g))
  {
    hide Linked, Rooted, Lineage, Ends, TerminalOf, Own, Places;
    Unfold(nss, g);
    OneGroup(nss, g);
    if SuperRef(nss, g).Some? { PlacesAppend(nss, Lineage(nss, Parent(nss, g).value), [g]); }
  }

  lemma OneGroup(nss: Namespaces, g: Ref)
    ensures Places(nss, [g]) == Own(nss, g)
  {
    assert Places(nss, []) == [];
  }

  /** The fields of a kind of b begin with all the fields of b: its messages can be read as
      b's. */
  lemma FieldsOfKind(nss: Namespaces, a: Ref, b: Ref)
    requires Linked(nss) && Rooted(nss, a) && KindOf(nss, a, b)
    ensures Rooted(nss, b) && Inherited(nss, b) <= Inherited(nss, a)
  {
    hide Linked, Rooted, Lineage, Places;
    KindOfIsPrefix(nss, a, b);
    var short, long := Lineage(nss, b), Lineage(nss, a);
    PlacesAppend(nss, short, long[|short|..]);
    assert short + long[|short|..] == long;
  }

  /** What a pointer into a field list has left of it. */
  function Left(nss: Namespaces, p: Option<Place>): seq<Place> {
    if p.Some? && p.value.at <= |FieldsOf(nss, p.value.group)| then OwnFrom(nss, p.value.group, p.value.at) else []
  }

  function FirstField(nss: Namespaces, g: Ref): (p: Option<Place>)
    ensures Left(nss, p) == Own(nss, g)
    ensures p.Some? ==> p.value.at < |FieldsOf(nss, p.value.group)|
  {
    if FieldsOf(nss, g) == [] then None else Some(Place(g, 0))
  }

  /** The top of a stack first. */
  function StackLeft(nss: Namespaces, stack: seq<Option<Place>>): seq<Place> {
    if stack == [] then [] else Left(nss, stack[|stack| - 1]) + StackLeft(nss, stack[..|stack| - 1])
  }

  /** struct blink_field_iterator: a stack of field pointers, supplied by the caller, the
      field list of the topmost ancestor on top. */
  /** The i-th group of a line from its end, and the line of its supergroup. */
  lemma AlongLine(nss: Namespaces, line: seq<Ref>, ptr: Ref, i: nat)
    requires Linked(nss) && i < |line| && Rooted(nss, ptr) && Lineage(nss, ptr) == line[..|line| - i]
    ensures ptr == line[|line| - 1 - i] && IsGroup(nss, ptr)
    ensures SuperRef(nss, ptr).None? ==> i + 1 == |line|
    ensures SuperRef(nss, ptr).Some? ==>
              && Ends(nss, SuperRef(nss, ptr).value) && Rooted(nss, Parent(nss, ptr).value)
              && i + 1 < |line| && Lineage(nss, Parent(nss, ptr).value) == line[..|line| - i - 1]
  {
    hide Linked, Rooted, Lineage, Ends, Parent;
    LastOfLine(nss, ptr);
    Unfold(nss, ptr);
    if SuperRef(nss, ptr).Some? {
      var above := Lineage(nss, Parent(nss, ptr).value);
      assert above == Lineage(nss, ptr)[..|above|];
      LastOfLine(nss, Parent(nss, ptr).value);
    }
  }

  class FieldIterator {
    var field: array<Option<Place>>
    var index: nat

    ghost predicate On(nss: Namespaces)
      reads this, field
    {
      index < field.Length
      && forall k :: 0 <= k <= index && field[k].Some? ==>
           field[k].value.at < |FieldsOf(nss, field[k].value.group)|
    }

    ghost function Rest(nss: Namespaces): seq<Place>
      requires On(nss)
      reads this, field
    {
      StackLeft(nss, field[..index + 1])
    }

    /** BLINK_FieldIterator_init: the fields of the group and its nearest ancestors, as many as
        the stack has room for, oldest first. With room for the whole line, all of them. */
    constructor (nss: Namespaces, stack: array<Option<Place>>, group: Ref)
      requires Linked(nss) && Rooted(nss, group) && stack.Length > 0
      modifies stack
      ensures field == stack && On(nss)
      ensures var line := Lineage(nss, group);
              Rest(nss) == Places(nss, if stack.Length < |line| then line[|line| - stack.Length..] else line)
    {
      hide Linked, Rooted, Lineage, Ends, Parent, FirstField, Places, StackLeft, Left, FieldsOf, Own;
      field, index := stack, 0;
      new;
      var ptr := group;
      ghost var line := Lineage(nss, group);
      LastOfLine(nss, group);
      assert line[..|line|] == line;
      var i, done := 0, false;
      while i < stack.Length && !done
        invariant field == stack && i <= stack.Length && i <= |line| && (i > 0 ==> index == i - 1)
        invariant done ==> i == |line|
        invariant !done ==> i < |line| && Rooted(nss, ptr) && Lineage(nss, ptr) == line[..|line| - i]
        invariant forall k :: 0 <= k < i ==> stack[k] == FirstField(nss, line[|line| - 1 - k])
        decreases stack.Length - i, !done
      {
        Unfold(nss, ptr);
        AlongLine(nss, line, ptr, i);
        stack[i] := FirstField(nss, ptr);
        index := i;
        i := i + 1;
        if SuperRef(nss, ptr).None? {
          done := true;
        } else {
          var s := GetSuper(nss, ptr);
          ptr := s.value;
        }
      }
      StackOfLine(nss, stack[..i], line[|line| - i..]);
    }

    /** BLINK_FieldIterator_next */
    method Next(nss: Namespaces) returns (r: Option<Place>)
      requires On(nss)
      modifies this`index, field
      ensures On(nss)
      ensures var rest := old(Rest(nss));
              if rest == [] then r == None && Rest(nss) == [] else r == Some(rest[0]) && Rest(nss) == rest[1..]
    {
      hide FieldsOf, StackLeft, Left, NextField;
      ghost var rest := Rest(nss);
      while true
        invariant On(nss) && Rest(nss) == rest && field == old(field)
        decreases index
      {
        Pop(nss, field[..index], field[index], field[..index + 1]);
        if field[index].Some? {
          r := field[index];
          ghost var below := field[..index];
          field[index] := NextField(nss, r.value);
          Pop(nss, below, field[index], field[..index + 1]);
          LeftNext(nss, r.value);
          return;
        } else if index > 0 {
          index := index - 1;
        } else {
          return None;
        }
      }
    }
  }

  lemma Pop(nss: Namespaces, below: seq<Option<Place>>, p: Option<Place>, stack: seq<Option<Place>>)
    requires stack == below + [p]
    ensures StackLeft(nss, stack) == Left(nss, p) + StackLeft(nss, below)
    ensures p.None? ==> StackLeft(nss, stack) == StackLeft(nss, below)
    ensures StackLeft(nss, []) == []
  {
    assert stack[..|stack| - 1] == below;
  }

  lemma LeftNext(nss: Namespaces, p: Place)
    requires p.at < |FieldsOf(nss, p.group)|
    ensures var q := NextField(nss, p);
            Left(nss, Some(p)) == [p] + Left(nss, q) && (q.Some? ==> q.value.at < |FieldsOf(nss, q.value.group)|)
  {
    hide FieldsOf;
  }

  /** ptr->next */
  function NextField(nss: Namespaces, p: Place): (q: Option<Place>)
    requires p.at < |FieldsOf(nss, p.group)|
    ensures q.Some? ==> q.value.at < |FieldsOf(nss, q.value.group)|
  {
    if p.at + 1 < |FieldsOf(nss, p.group)| then Some(Place(p.group, p.at + 1)) else None
  }

  /** A stack filled from the group upwards unwinds from the root downwards. */
  lemma {:induction false} StackOfLine(nss: Namespaces, stack: seq<Option<Place>>, groups: seq<Ref>)
    requires |stack| == |groups|
             && forall k :: 0 <= k < |stack| ==> stack[k] == FirstField(nss, groups[|groups| - 1 - k])
    ensures StackLeft(nss, stack) == Places(nss, groups)
  {
    hide Left, FirstField, Own;
    if stack != [] {
      var top := |stack| - 1;
      forall k | 0 <= k < top ensures stack[..top][k] == FirstField(nss, groups[1..][top - 1 - k]) {
        assert groups[1..][top - 1 - k] == groups[top - k];
      }
      StackOfLine(nss, stack[..top], groups[1..]);
      assert stack[top] == FirstField(nss, groups[0]);
    }
  }
}
