/** The constraints a schema is tested for once its references are bound,
    src/blink_schema.c:161-195, 1883-1933, 2032-2116. */
module Constraints {
  import opened Base
  import opened Schema
  import opened Definitions
  import opened References
  import opened Inheritance
  import opened SchemaParser

  // ------------------------------------------------------------------- names of fields

  function NameAt(nss: Namespaces, p: Place): Option<Text> {
    if p.at < |FieldsOf(nss, p.group)| then FieldsOf(nss, p.group)[p.at].name else None
  }

  /** strncmp of two names over BLINK_TOKEN_MAX_SIZE bytes. */
  predicate Clash(a: Option<Text>, b: Option<Text>) {
    a.Some? && b.Some? && a.value[..Min(|a.value|, TOKEN_MAX_SIZE)] == b.value[..Min(|b.value|, TOKEN_MAX_SIZE)]
  }

  /** An own field is named like an inherited one. */
  ghost predicate Shadows(nss: Namespaces, g: Ref)
    requires Linked(nss) && Rooted(nss, g)
  {
    exists p, q :: p in Ancestral(nss, g) && q in Own(nss, g) && Clash(NameAt(nss, p), NameAt(nss, q))
  }

  /** The inherited fields without the group's own. */
  ghost function Ancestral(nss: Namespaces, g: Ref): seq<Place>
    requires Linked(nss) && Rooted(nss, g)
  {
    var line := Lineage(nss, g);
    Places(nss, line[..|line| - 1])
  }

  /** Two names of a size the lexer lets through clash exactly if they are the same. */
  lemma ClashMeans(a: Option<Text>, b: Option<Text>)
    requires a.Some? ==> |a.value| <= 100
    requires b.Some? ==> |b.value| <= 100
    ensures Clash(a, b) <==> a.Some? && a == b
  {
    assert a.Some? ==> a.value[..|a.value|] == a.value;
    assert b.Some? ==> b.value[..|b.value|] == b.value;
  }

  lemma {:induction false} PlacesAre(nss: Namespaces, groups: seq<Ref>, p: Place)
    ensures p in Places(nss, groups) <==> p.group in groups && p.at < |FieldsOf(nss, p.group)|
  {
    if groups != [] {
      PlacesAre(nss, groups[1..], p);
      if p.group == groups[0] && p.at < |FieldsOf(nss, p.group)| { assert Own(nss, groups[0])[p.at] == p; }
    }
  }

  /** The groups above g on its line. */
  ghost predicate IsAncestor(nss: Namespaces, g: Ref, h: Ref)
    requires Linked(nss) && Rooted(nss, g)
  {
    KindOf(nss, g, h) && h != g
  }

  lemma AncestorsAre(nss: Namespaces, g: Ref, h: Ref)
    requires Linked(nss) && Rooted(nss, g)
    ensures Lineage(nss, g) != []
    ensures var line := Lineage(nss, g); h in line[..|line| - 1] <==> IsAncestor(nss, g, h)
  {
    hide Linked, Rooted, Lineage;
    LastOfLine(nss, g);
    LineDistinct(nss, g);
    var line := Lineage(nss, g);
    if h in line[..|line| - 1] { assert h in line; }
  }

  /** A group shadows a field exactly if one of its own has the name of one of an ancestor. */
  lemma ShadowsAre(nss: Namespaces, g: Ref)
    requires Linked(nss) && Rooted(nss, g)
    requires forall h, i :: KindOf(nss, g, h) && 0 <= i < |FieldsOf(nss, h)| ==>
                              FieldsOf(nss, h)[i].name.Some? && |FieldsOf(nss, h)[i].name.value| <= 100
    ensures Shadows(nss, g) <==>
            exists h, i, j :: IsAncestor(nss, g, h) && 0 <= i < |FieldsOf(nss, h)| && 0 <= j < |FieldsOf(nss, g)|
                              && FieldsOf(nss, h)[i].name == FieldsOf(nss, g)[j].name
  {
    hide Linked, Rooted, Lineage, FieldsOf, Own, Clash;
    KindOfReflexive(nss, g);
    if p, q :| p in Ancestral(nss, g) && q in Own(nss, g) && Clash(NameAt(nss, p), NameAt(nss, q)) {
      InAncestral(nss, g, p);
      InOwn(nss, g, q);
      ClashMeans(NameAt(nss, p), NameAt(nss, q));
      assert IsAncestor(nss, g, p.group) && FieldsOf(nss, p.group)[p.at].name == FieldsOf(nss, g)[q.at].name;
    }
    if h, i, j :| IsAncestor(nss, g, h) && 0 <= i < |FieldsOf(nss, h)| && 0 <= j < |FieldsOf(nss, g)|
                  && FieldsOf(nss, h)[i].name == FieldsOf(nss, g)[j].name {
      var p, q := Place(h, i), Place(g, j);
      InAncestral(nss, g, p);
      InOwn(nss, g, q);
      ClashMeans(NameAt(nss, p), NameAt(nss, q));
    }
  }

  lemma InAncestral(nss: Namespaces, g: Ref, p: Place)
    requires Linked(nss) && Rooted(nss, g)
    ensures p in Ancestral(nss, g) <==> IsAncestor(nss, g, p.group) && p.at < |FieldsOf(nss, p.group)|
  {
    hide Linked, Rooted, Lineage, Places, IsAncestor;
    AncestorsAre(nss, g, p.group);
    var line := Lineage(nss, g);
    PlacesAre(nss, line[..|line| - 1], p);
  }

  lemma InOwn(nss: Namespaces, g: Ref, p: Place)
    ensures p in Own(nss, g) <==> p.group == g && p.at < |FieldsOf(nss, g)|
  {
    if p.group == g && p.at < |FieldsOf(nss, g)| { assert Own(nss, g)[p.at] == p; }
  }

  lemma InheritedSplits(nss: Namespaces, g: Ref)
    requires Linked(nss) && Rooted(nss, g)
    ensures Inherited(nss, g) == Ancestral(nss, g) + Own(nss, g)
  {
    hide Linked, Rooted, Lineage, Own;
    LastOfLine(nss, g);
    var line := Lineage(nss, g);
    PlacesAppend(nss, line[..|line| - 1], [g]);
    assert line == line[..|line| - 1] + [g];
    OneGroup(nss, g);
  }

  lemma {:induction false} PlacesGroups(nss: Namespaces, groups: seq<Ref>)
    ensures forall p :: p in Places(nss, groups) ==> p.group in groups
  {
    if groups != [] { PlacesGroups(nss, groups[1..]); }
  }

  /** No ancestor's field is one of the group's own. */
  lemma AncestralIsNotOwn(nss: Namespaces, g: Ref)
    requires Linked(nss) && Rooted(nss, g)
    ensures forall p :: p in Ancestral(nss, g) ==> p.group != g
    ensures forall q :: q in Own(nss, g) ==> q.group == g
  {
    hide Linked, Rooted, Lineage, Places;
    LastOfLine(nss, g);
    LineDistinct(nss, g);
    var line := Lineage(nss, g);
    PlacesGroups(nss, line[..|line| - 1]);
  }

  // --------------------------------------------------------------------- the shadow test

  datatype Met = Itself | Same | Neither

  /** None of these fields is aField or has its name. */
  ghost predicate Apart(nss: Namespaces, aField: Place, fields: seq<Place>) {
    forall q :: q in fields ==> q != aField && !Clash(NameAt(nss, aField), NameAt(nss, q))
  }

  ghost predicate ClashesIn(nss: Namespaces, aField: Place, fields: seq<Place>) {
    exists q :: q in fields && Clash(NameAt(nss, aField), NameAt(nss, q))
  }

  /** The inner loop: a field against the group's own fields. */
  method Compare(nss: Namespaces, group: Ref, aField: Place) returns (met: Met)
    requires Linked(nss) && Rooted(nss, group) && |Lineage(nss, group)| > 1
    ensures aField !in Own(nss, group) ==> met == if ClashesIn(nss, aField, Own(nss, group)) then Same else Neither
    ensures Own(nss, group) != [] && aField == Own(nss, group)[0] ==> met == Itself
  {
    hide Linked, Rooted, Lineage, Clash, NameAt, Own, StackLeft, FieldsOf, FieldIterator.On, FieldIterator.Rest, Apart,
         ClashesIn, Places;
    var gStack := new Option<Place>[1](_ => None);
    var g := new FieldIterator(nss, gStack, group);
    ghost var own := Own(nss, group);
    OwnOnly(nss, group);
    ghost var done: seq<Place> := [];
    var gField := g.Next(nss);
    ghost var todo := if gField.Some? then [gField.value] + g.Rest(nss) else [];
    assert todo == own && done + todo == todo;
    NothingMet(nss, aField);
    while gField.Some?
      invariant g.On(nss) && fresh(g) && fresh(g.field)
      invariant todo == if gField.Some? then [gField.value] + g.Rest(nss) else []
      invariant own == done + todo && Apart(nss, aField, done)
      decreases |todo|
    {
      OneMet(nss, aField, own, done, todo);
      if gField.value == aField {
        return Itself;
      } else if Clash(NameAt(nss, aField), NameAt(nss, gField.value)) {
        return Same;
      }
      assert todo[1..] == g.Rest(nss);
      done := done + [gField.value];
      todo := g.Rest(nss);
      gField := g.Next(nss);
    }
    assert done + todo == done;
    AllMet(nss, aField, own);
    met := Neither;
  }

  lemma NothingMet(nss: Namespaces, aField: Place)
    ensures Apart(nss, aField, [])
  {
  }

  lemma OneMet(nss: Namespaces, aField: Place, own: seq<Place>, done: seq<Place>, todo: seq<Place>)
    requires own == done + todo && todo != [] && Apart(nss, aField, done)
    ensures var q := todo[0];
            && q in own && own == (done + [q]) + todo[1..]
            && (q != aField && Clash(NameAt(nss, aField), NameAt(nss, q)) ==>
                  ClashesIn(nss, aField, own) && own[0] != aField)
            && (q != aField && !Clash(NameAt(nss, aField), NameAt(nss, q)) ==> Apart(nss, aField, done + [q]))
  {
    hide Clash, NameAt;
    var q := todo[0];
    assert own[|done|] == q && q in own;
    if done != [] {
      assert own[0] == done[0] && done[0] in done;
      assert own[0] != aField;
    }
    if Clash(NameAt(nss, aField), NameAt(nss, q)) {
      assert ClashesIn(nss, aField, own);
    }
  }

  lemma AllMet(nss: Namespaces, aField: Place, own: seq<Place>)
    requires Apart(nss, aField, own)
    ensures !ClashesIn(nss, aField, own) && (own != [] ==> own[0] != aField)
  {
    hide Clash, NameAt;
    if own != [] { assert own[0] in own; }
  }

  lemma OwnOnly(nss: Namespaces, g: Ref)
    requires Linked(nss) && Rooted(nss, g) && |Lineage(nss, g)| > 1
    ensures var line := Lineage(nss, g); Places(nss, line[|line| - 1..]) == Own(nss, g)
    ensures forall q :: q in Own(nss, g) ==> q.group == g
  {
    hide Linked, Rooted, Lineage;
    LastOfLine(nss, g);
    var line := Lineage(nss, g);
    assert line[|line| - 1..] == [g];
    OneGroup(nss, g);
  }

  /** None of these fields has the name of an own one. */
  ghost predicate NoneClashes(nss: Namespaces, fields: seq<Place>, own: seq<Place>) {
    forall p :: p in fields ==> !ClashesIn(nss, p, own)
  }

  /** testSuperGroupShadowConstraint: passes exactly when no own field has the name of an
      inherited one. */
  method TestShadow(nss: Namespaces, group: Ref) returns (ok: bool)
    requires Linked(nss) && Rooted(nss, group)
    ensures ok == !Shadows(nss, group)
  {
    hide Linked, Rooted, Lineage, ClashesIn, Own, Places, Ancestral, StackLeft, FieldsOf, Shadows, NoneClashes, Clash,
         NameAt, FieldIterator.On, FieldIterator.Rest;
    var depth := NumberOfSuperGroup(nss, group);
    InheritedSplits(nss, group);
    AncestralIsNotOwn(nss, group);
    ShadowsMeans(nss, group);
    if depth == 0 {
      NoAncestors(nss, group);
      return true;
    }
    var aStack := new Option<Place>[depth + 1](_ => None);
    var a := new FieldIterator(nss, aStack, group);
    ghost var anc, own := Ancestral(nss, group), Own(nss, group);
    ghost var done: seq<Place> := [];
    var aField := a.Next(nss);
    NoneYet(nss, own);
    while aField.Some?
      invariant a.On(nss) && fresh(a) && fresh(a.field)
      invariant anc + own == done + (if aField.Some? then [aField.value] else []) + a.Rest(nss)
      invariant aField.None? ==> a.Rest(nss) == []
      invariant |done| <= |anc| && NoneClashes(nss, done, own)
      decreases aField.Some?, |a.Rest(nss)|
    {
      var met := Compare(nss, group, aField.value);
      Judged(nss, done, aField.value, a.Rest(nss), anc, own, met);
      if met.Itself? {
        return true;
      } else if met.Same? {
        return false;
      }
      done := done + [aField.value];
      aField := a.Next(nss);
    }
    assert done == anc + own;
    TakeAll(done, [], anc, own);
    ok := true;
  }

  /** What the inner loop's answer says about the test as a whole. */
  lemma Judged(nss: Namespaces, done: seq<Place>, p: Place, rest: seq<Place>, anc: seq<Place>, own: seq<Place>,
               met: Met)
    requires anc + own == done + [p] + rest && |done| <= |anc| && NoneClashes(nss, done, own)
    requires forall a, q :: a in anc && q in own ==> a != q
    requires p !in own ==> met == if ClashesIn(nss, p, own) then Same else Neither
    requires own != [] && p == own[0] ==> met == Itself
    ensures match met
            case Itself => NoneClashes(nss, anc, own)
            case Same => !NoneClashes(nss, anc, own)
            case Neither => |done| < |anc| && NoneClashes(nss, done + [p], own)
  {
    hide ClashesIn, NoneClashes;
    assert (anc + own)[|done|] == p;
    if |done| == |anc| {
      assert p == own[0];
      TakeAll(done, [p] + rest, anc, own);
    } else {
      assert p == anc[|done|] && p in anc;
      if met.Same? { ClashFound(nss, p, anc, own); } else { OneMore(nss, done, p, own); }
    }
  }

  lemma TakeAll(done: seq<Place>, rest: seq<Place>, anc: seq<Place>, own: seq<Place>)
    requires done + rest == anc + own && |done| == |anc|
    ensures done == anc
  {
    assert (done + rest)[..|anc|] == (anc + own)[..|anc|];
  }

  lemma NoneYet(nss: Namespaces, own: seq<Place>)
    ensures NoneClashes(nss, [], own)
  {
  }

  lemma OneMore(nss: Namespaces, done: seq<Place>, p: Place, own: seq<Place>)
    requires NoneClashes(nss, done, own) && !ClashesIn(nss, p, own)
    ensures NoneClashes(nss, done + [p], own)
  {
  }

  lemma ClashFound(nss: Namespaces, p: Place, anc: seq<Place>, own: seq<Place>)
    requires p in anc && ClashesIn(nss, p, own)
    ensures !NoneClashes(nss, anc, own)
  {
  }

  lemma ShadowsMeans(nss: Namespaces, g: Ref)
    requires Linked(nss) && Rooted(nss, g)
    ensures Shadows(nss, g) == !NoneClashes(nss, Ancestral(nss, g), Own(nss, g))
  {
    hide Linked, Rooted, Ancestral, Own, Clash, NameAt;
    if Shadows(nss, g) {
      var p, q :| p in Ancestral(nss, g) && q in Own(nss, g) && Clash(NameAt(nss, p), NameAt(nss, q));
      assert ClashesIn(nss, p, Own(nss, g));
    }
  }

  lemma NoAncestors(nss: Namespaces, g: Ref)
    requires Linked(nss) && Rooted(nss, g) && |Lineage(nss, g)| == 1
    ensures Ancestral(nss, g) == [] && !Shadows(nss, g)
  {
    hide Linked, Rooted, Lineage;
  }

  // --------------------------------------------------------- what the shadow test achieves

  function Names(nss: Namespaces, places: seq<Place>): (names: seq<Option<Text>>)
    ensures |names| == |places| && forall i :: 0 <= i < |places| ==> names[i] == NameAt(nss, places[i])
  {
    seq(|places|, i requires 0 <= i < |places| => NameAt(nss, places[i]))
  }

  /** What parsing guarantees of a group's own fields. */
  ghost predicate OwnNamesOk(nss: Namespaces, g: Ref) {
    NoLaterPrefix(FieldNames(FieldsOf(nss, g))) && AllNamed(FieldNames(FieldsOf(nss, g)))
  }

  lemma OwnNamesDistinct(nss: Namespaces, g: Ref)
    requires OwnNamesOk(nss, g)
    ensures Distinct(Names(nss, Own(nss, g)))
    ensures forall q :: q in Own(nss, g) ==> NameAt(nss, q).Some?
  {
    hide NoLaterPrefix;
    var fields := FieldsOf(nss, g);
    NamesDistinct(FieldNames(fields));
    assert Names(nss, Own(nss, g)) == FieldNames(fields);
  }

  /** If every group on the line passes the shadow test and has names of its own that differ,
      all names the group inherits or has are different. */
  lemma {:induction false} AllNamesDistinct(nss: Namespaces, g: Ref)
    requires Linked(nss) && Rooted(nss, g)
    requires forall r :: r in Lineage(nss, g) ==> OwnNamesOk(nss, r) && Rooted(nss, r) && !Shadows(nss, r)
    ensures Distinct(Names(nss, Inherited(nss, g)))
    decreases |Lineage(nss, g)|
  {
    hide Linked, Rooted, Lineage, Ends, Parent, Shadows, OwnNamesOk, NameAt, Own, Places, Distinct;
    Unfold(nss, g);
    LastOfLine(nss, g);
    InheritedSplits(nss, g);
    OwnNamesDistinct(nss, g);
    var anc := Ancestral(nss, g);
    if SuperRef(nss, g).Some? {
      var s := Parent(nss, g).value;
      var line := Lineage(nss, g);
      assert line[..|line| - 1] == Lineage(nss, s);
      AllNamesDistinct(nss, s);
    } else {
      NoAncestors(nss, g);
      NoNames(nss);
    }
    NamesApart(nss, g);
    JoinDistinct(nss, anc, Own(nss, g));
  }

  lemma NoNames(nss: Namespaces)
    ensures Distinct(Names(nss, []))
  {
  }

  lemma NamesApart(nss: Namespaces, g: Ref)
    requires Linked(nss) && Rooted(nss, g) && !Shadows(nss, g)
    requires forall q :: q in Own(nss, g) ==> NameAt(nss, q).Some?
    ensures forall p, q :: p in Ancestral(nss, g) && q in Own(nss, g) ==> NameAt(nss, p) != NameAt(nss, q)
  {
    hide Linked, Rooted, Ancestral, Own, NameAt;
    forall p, q | p in Ancestral(nss, g) && q in Own(nss, g) ensures NameAt(nss, p) != NameAt(nss, q) {
      assert !Clash(NameAt(nss, p), NameAt(nss, q));
    }
  }

  lemma JoinDistinct(nss: Namespaces, a: seq<Place>, b: seq<Place>)
    requires Distinct(Names(nss, a)) && Distinct(Names(nss, b))
    requires forall p, q :: p in a && q in b ==> NameAt(nss, p) != NameAt(nss, q)
    ensures Distinct(Names(nss, a + b))
  {
    hide NameAt;
    var names := Names(nss, a + b);
    forall i, j | 0 <= i < j < |names| ensures names[i] != names[j] {
      if j < |a| {
        assert Names(nss, a)[i] != Names(nss, a)[j];
      } else if i >= |a| {
        assert Names(nss, b)[i - |a|] != Names(nss, b)[j - |a|];
      } else {
        assert a[i] in a && b[j - |a|] in b;
      }
    }
  }

  // ------------------------------------------------------------------- supergroup references

  /** testSuperGroupReferenceConstraint */
  ghost predicate SuperAccepted(nss: Namespaces, g: Ref)
    requires Linked(nss) && IsGroup(nss, g) && SuperRef(nss, g).Some? && Ends(nss, SuperRef(nss, g).value)
  {
    var (t, dynamic, sequence) := TerminalOf(nss, SuperRef(nss, g).value);
    IsGroup(nss, t) && t != g && !dynamic && !sequence
  }

  /** That is: a group other than g is at the end, and no reference on the way has a star or
      brackets. */
  lemma SuperAcceptedMeans(nss: Namespaces, g: Ref)
    requires Linked(nss) && IsGroup(nss, g) && SuperRef(nss, g).Some? && Ends(nss, SuperRef(nss, g).value)
    ensures var r := DefAt(nss, g).super.value;
            SuperAccepted(nss, g) <==>
              && IsGroup(nss, TerminalOf(nss, r).0) && TerminalOf(nss, r).0 != g
              && !HasStar(nss, r) && !HasBrackets(nss, r)
  {
    hide Linked, Ends, TerminalOf, HasStar, HasBrackets, Link;
    TerminalMeans(nss, SuperRef(nss, g).value);
  }

  method TestSuperReference(nss: Namespaces, g: Ref) returns (ok: bool)
    requires Linked(nss) && IsGroup(nss, g) && SuperRef(nss, g).Some? && Ends(nss, SuperRef(nss, g).value)
    ensures ok == SuperAccepted(nss, g)
  {
    hide Linked, Ends, TerminalOf;
    var errors := false;
    var ptr, dynamic, sequence := GetTerminal(nss, SuperRef(nss, g).value);
    if !IsGroup(nss, ptr) {
      errors := true;
    } else {
      if ptr == g {
        errors := true;
      }
      if sequence {
        errors := true;
      }
      if dynamic {
        errors := true;
      }
    }
    ok := !errors;
  }

  ghost predicate AllSupersAccepted(nss: Namespaces)
    requires Linked(nss) && SupersSettled(nss)
  {
    forall g :: IsGroup(nss, g) && SuperRef(nss, g).Some? ==> SuperAccepted(nss, g)
  }

  /** What the reference test leaves open: if every supergroup reference passes it, a walk
      meets groups only and never the same group twice in a row; so it ends exactly if it does
      not go round through two groups or more. */
  lemma OnlyLongerCycles(nss: Namespaces, g: Ref)
    requires Linked(nss) && SupersSettled(nss) && AllSupersAccepted(nss) && IsGroup(nss, g)
    ensures !Strays(nss, g) && (Rooted(nss, g) <==> !Circles(nss, g))
    ensures forall n: nat :: Ancestor(nss, g, n).Some? ==> Ancestor(nss, g, n + 1) != Ancestor(nss, g, n)
  {
    hide Linked, SupersSettled, AllSupersAccepted, Ancestor, Rooted, Circles;
    LineEnds(nss, g);
    forall n: nat
      ensures Ancestor(nss, g, n).Some? ==>
                IsGroup(nss, Ancestor(nss, g, n).value) && Ancestor(nss, g, n + 1) != Ancestor(nss, g, n) {
      GroupsOnly(nss, g, n);
      if Ancestor(nss, g, n).Some? { NotItself(nss, g, n); }
    }
  }

  lemma {:induction false} GroupsOnly(nss: Namespaces, g: Ref, n: nat)
    requires Linked(nss) && SupersSettled(nss) && AllSupersAccepted(nss) && IsGroup(nss, g)
    ensures Ancestor(nss, g, n).Some? ==> IsGroup(nss, Ancestor(nss, g, n).value)
  {
    hide Linked, Ancestor, Ends, TerminalOf;
    if n == 0 {
      AncestorFirst(nss, g, 0);
    } else {
      GroupsOnly(nss, g, n - 1);
      NextAncestor(nss, g, n - 1);
      if Ancestor(nss, g, n - 1).Some? { UpIs(nss, Ancestor(nss, g, n - 1).value); }
    }
  }

  lemma NotItself(nss: Namespaces, g: Ref, n: nat)
    requires Linked(nss) && SupersSettled(nss) && AllSupersAccepted(nss)
    requires Ancestor(nss, g, n).Some? && IsGroup(nss, Ancestor(nss, g, n).value)
    ensures Ancestor(nss, g, n + 1) != Ancestor(nss, g, n)
  {
    hide Linked, Ancestor, Ends, TerminalOf;
    NextAncestor(nss, g, n);
    UpIs(nss, Ancestor(nss, g, n).value);
  }

  /** The second pass of testConstraints on one definition. The shadow test counts supergroups
      first: it strays or does not come back where the walk does. */
  ghost function SuperOutcome(nss: Namespaces, g: Ref): Outcome
    requires Linked(nss) && SupersSettled(nss) && ValidRef(nss, g)
  {
    if !IsGroup(nss, g) || SuperRef(nss, g).None? then Accept
    else if !SuperAccepted(nss, g) then Reject
    else
      LineEnds(nss, g);
      match LineOut(nss, g)
      case Straying => Stray
      case Circling => Endless
      case Ending => if Shadows(nss, g) then Reject else Accept
  }

  // ------------------------------------------------------------ walking the fields, as written

  function Repeat(own: seq<Place>, n: nat): seq<Place> {
    if n == 0 then [] else own + Repeat(own, n - 1)
  }

  /** BLINK_Group_eachField with a handler that always goes on: the pointer never moves to the
      supergroup, so the group's own fields come once for each group of its line. */
  method EachField(nss: Namespaces, group: Ref) returns (visited: seq<Place>)
    requires Linked(nss) && Rooted(nss, group)
    ensures visited == Repeat(Own(nss, group), |Lineage(nss, group)|)
  {
    hide Linked, Rooted, Lineage, Own, Left, FirstField, FieldsOf;
    var count := NumberOfSuperGroup(nss, group);
    var depth := count + 1;
    var stack := seq(depth, _ => FirstField(nss, group));
    ghost var own := Own(nss, group);
    assert Left(nss, FirstField(nss, group)) == own by { FirstFieldLeft(nss, group); }
    visited := [];
    var i := depth;
    while i > 0
      invariant i <= depth == |stack|
      invariant forall k :: 0 <= k < i ==> stack[k] == FirstField(nss, group)
      invariant visited + Repeat(own, i) == Repeat(own, depth)
    {
      ghost var before := visited;
      while stack[i - 1].Some?
        invariant |stack| == depth && visited + Left(nss, stack[i - 1]) == before + own
        invariant forall k :: 0 <= k < i - 1 ==> stack[k] == FirstField(nss, group)
        invariant stack[i - 1].Some? ==> stack[i - 1].value.at < |FieldsOf(nss, stack[i - 1].value.group)|
        decreases |Left(nss, stack[i - 1])|
      {
        var p := stack[i - 1].value;
        LeftNext(nss, p);
        visited := visited + [p];
        stack := stack[i - 1 := NextField(nss, p)];
      }
      NothingLeft(nss);
      assert visited == before + own;
      assert before + Repeat(own, i) == (before + own) + Repeat(own, i - 1);
      i := i - 1;
    }
  }

  lemma FirstFieldLeft(nss: Namespaces, g: Ref)
    ensures Left(nss, FirstField(nss, g)) == Own(nss, g)
  {
  }

  lemma NothingLeft(nss: Namespaces)
    ensures Left(nss, None) == []
  {
  }

  lemma {:induction false} RepeatLength(own: seq<Place>, n: nat)
    ensures |Repeat(own, n)| == n * |own|
  {
    if n > 0 { RepeatLength(own, n - 1); assert n * |own| == |own| + (n - 1) * |own|; }
  }

  /** That is the group's field list only where there is no supergroup or no field at all. */
  lemma EachFieldMeets(nss: Namespaces, g: Ref)
    requires Linked(nss) && Rooted(nss, g)
    ensures Repeat(Own(nss, g), |Lineage(nss, g)|) == Inherited(nss, g) <==>
            |Lineage(nss, g)| == 1 || Inherited(nss, g) == []
  {
    hide Linked, Rooted, Lineage, Own, Places;
    var n, own, anc := |Lineage(nss, g)|, Own(nss, g), Ancestral(nss, g);
    LastOfLine(nss, g);
    InheritedSplits(nss, g);
    AncestralIsNotOwn(nss, g);
    RepeatLength(own, n);
    if n == 1 {
      NoAncestors(nss, g);
      assert Repeat(own, 1) == own + Repeat(own, 0) == own;
    } else if own == [] {
      assert n * 0 == 0;
    } else {
      RepeatDiffers(own, n, anc);
    }
  }

  lemma RepeatDiffers(own: seq<Place>, n: nat, anc: seq<Place>)
    requires own != [] && n > 1 && forall p, q :: p in anc && q in own ==> p.group != q.group
    ensures Repeat(own, n) != anc + own
  {
    RepeatLength(own, n);
    if anc == [] {
      assert n * |own| == |own| + (n - 1) * |own|;
      assert (n - 1) * |own| >= 1;
    } else {
      assert anc[0] in anc && own[0] in own;
      assert Repeat(own, n)[0] == own[0] && (anc + own)[0] == anc[0];
    }
  }
}
