/** BLINK_Schema_new: parse, bind references, test constraints; and what an accepted schema is
    then known to satisfy. src/blink_schema.c:86-118, 1883-1933. */
module SchemaBuilder {
  import opened Base
  import opened Schema
  import opened Definitions
  import opened Resolution
  import opened References
  import opened Inheritance
  import opened Constraints
  import opened StreamObjects
  import ParserNames
  import SchemaParser

  // ---------------------------------------------------------- binding keeps the lists

  lemma LinkedNames(nss: Namespaces, d: Def)
    ensures DefOk(d) ==> DefOk(LinkDef(nss, d))
  {
    if d.Group? {
      assert FieldNames(LinkFields(nss, d.fields)) == FieldNames(d.fields);
    }
  }

  lemma LinkKeepsOk(nss: Namespaces)
    requires SchemaOk(nss)
    ensures SchemaOk(LinkAll(nss))
  {
    hide LinkDef, DefOk, NoLaterPrefix;
    var linked := LinkAll(nss);
    assert NamespaceNames(linked) == NamespaceNames(nss);
    forall ns | ns in linked ensures NamespaceOk(ns) {
      var i :| 0 <= i < |linked| && linked[i] == ns;
      LinkKeepsNamespace(nss, i);
    }
  }

  lemma LinkKeepsNamespace(nss: Namespaces, i: nat)
    requires i < |nss| && NamespaceOk(nss[i])
    ensures NamespaceOk(LinkAll(nss)[i])
  {
    hide LinkDef, DefOk, NoLaterPrefix;
    var defs, linked := nss[i].defs, LinkDefs(nss, nss[i].defs);
    forall j | 0 <= j < |defs| ensures linked[j].name == defs[j].name && DefOk(linked[j]) {
      LinkedNames(nss, defs[j]);
      LinkDefName(nss, defs[j]);
      assert defs[j] in defs;
    }
    assert DefNames(linked) == DefNames(defs);
    forall d | d in linked ensures DefOk(d) {
      var j :| 0 <= j < |linked| && linked[j] == d;
    }
  }

  lemma LinkDefName(nss: Namespaces, d: Def)
    ensures LinkDef(nss, d).name == d.name
  {
  }

  /** Supergroup pointers lead to definitions. */
  ghost predicate SupersLinked(nss: Namespaces) {
    forall g :: IsGroup(nss, g) && SuperRef(nss, g).Some? ==> ValidRef(nss, SuperRef(nss, g).value)
  }

  lemma LinkAllSupers(nss: Namespaces)
    requires ParserNames.Unbound(nss) && Bound(LinkAll(nss))
    ensures SupersLinked(LinkAll(nss))
  {
    hide LinkDef, DefBound;
    var linked := LinkAll(nss);
    forall g | IsGroup(linked, g) && SuperRef(linked, g).Some? ensures ValidRef(linked, SuperRef(linked, g).value) {
      LinkedAt(nss, g);
      assert ParserNames.DefUnbound(nss[g.ns].defs[g.at]);
      LinkDefSuper(nss, linked, nss[g.ns].defs[g.at]);
    }
  }

  lemma LinkDefSuper(nss: Namespaces, linked: Namespaces, d: Def)
    requires ParserNames.DefUnbound(d) && DefBound(linked, LinkDef(nss, d))
    ensures var l := LinkDef(nss, d); l.Group? && l.super.Some? ==> ValidRef(linked, l.super.value)
  {
  }

  // -------------------------------------------------------------------- the constraints

  /** What the first pass leaves behind is what the walks of the second need. */
  lemma AcceptedSupersSettle(nss: Namespaces)
    requires Linked(nss) && SupersLinked(nss) && AllAccepted(nss)
    ensures SupersSettled(nss)
  {
    hide Linked, AllAccepted;
    forall g | IsGroup(nss, g) && SuperRef(nss, g).Some? ensures Ends(nss, SuperRef(nss, g).value) {
      AcceptedEnds(nss, SuperRef(nss, g).value);
    }
  }

  method TestReferences(nss: Namespaces) returns (r: Outcome)
    requires Linked(nss)
    ensures r == FirstFault(nss, AllDefs(nss)) && r.Accept? == AllAccepted(nss)
  {
    hide Linked, Expected, RefsFrom, FirstFault, AllDefs, DefIterator.On, DefIterator.Rest;
    var it := new DefIterator(nss);
    var d := it.Peek(nss);
    ghost var todo := if d.Some? then [d.value] + it.Rest(nss) else [];
    FaultTwice(nss, it.Rest(nss));
    r := Accept;
    while d.Some? && r.Accept?
      invariant it.On(nss) && (r.Accept? ==> todo == if d.Some? then [d.value] + it.Rest(nss) else [])
      invariant FirstFault(nss, AllDefs(nss)) == if r.Accept? then FirstFault(nss, todo) else r
      decreases r.Accept?, |todo|
    {
      FaultStep(nss, todo);
      r := TestReference(nss, d.value);
      if r.Accept? {
        assert todo[1..] == it.Rest(nss);
        todo := it.Rest(nss);
        d := it.Next(nss);
      }
    }
    FaultStep(nss, todo);
    WalkIsComplete(nss);
    NoFault(nss, AllDefs(nss));
  }

  lemma FaultStep(nss: Namespaces, refs: seq<Ref>)
    requires Linked(nss)
    ensures refs == [] ==> FirstFault(nss, refs) == Accept
    ensures refs != [] ==>
              FirstFault(nss, refs) ==
                if Expected(nss, refs[0]) != Accept then Expected(nss, refs[0]) else FirstFault(nss, refs[1..])
  {
    hide Linked, Expected;
  }

  /** The walk looks at the first definition twice. */
  lemma FaultTwice(nss: Namespaces, refs: seq<Ref>)
    requires Linked(nss)
    ensures FirstFault(nss, if refs == [] then [] else [refs[0]] + refs) == FirstFault(nss, refs)
  {
    hide Linked, Expected;
    if refs != [] { assert ([refs[0]] + refs)[1..] == refs; }
  }

  /** The first outcome of the second pass other than acceptance. */
  ghost function FirstBar(nss: Namespaces, refs: seq<Ref>): Outcome
    requires Linked(nss) && SupersSettled(nss) && forall g :: g in refs ==> ValidRef(nss, g)
  {
    if refs == [] then Accept
    else if SuperOutcome(nss, refs[0]) != Accept then SuperOutcome(nss, refs[0])
    else FirstBar(nss, refs[1..])
  }

  lemma {:induction false} NoBar(nss: Namespaces, refs: seq<Ref>)
    requires Linked(nss) && SupersSettled(nss) && forall g :: g in refs ==> ValidRef(nss, g)
    ensures FirstBar(nss, refs) == Accept <==> forall g :: g in refs ==> SuperOutcome(nss, g) == Accept
  {
    hide Linked, SupersSettled, SuperOutcome, ValidRef;
    if refs != [] { NoBar(nss, refs[1..]); }
  }

  /** The second pass on one definition. Before the source follows a line that does not end, the
      model says so instead. */
  method TestSuper(nss: Namespaces, g: Ref) returns (r: Outcome)
    requires Linked(nss) && SupersSettled(nss) && ValidRef(nss, g)
    ensures r == SuperOutcome(nss, g)
  {
    hide Linked, SupersSettled, Ends, SuperAccepted, Rooted, Shadows, LineOut;
    r := Accept;
    if IsGroup(nss, g) && SuperRef(nss, g).Some? {
      SuperSettled(nss, g);
      var ok := TestSuperReference(nss, g);
      if !ok {
        return Reject;
      }
      var line := FollowLine(nss, g);
      match line {
        case Straying =>
          return Stray;
        case Circling =>
          return Endless;
        case Ending =>
      }
      EndingIsRooted(nss, g);
      ok := TestShadow(nss, g);
      r := if ok then Accept else Reject;
    }
  }

  lemma EndingIsRooted(nss: Namespaces, g: Ref)
    requires Linked(nss) && SupersSettled(nss) && ValidRef(nss, g) && LineOut(nss, g) == Ending
    ensures Rooted(nss, g)
  {
    hide Linked, SupersSettled, Rooted, Strays, Circles;
    LineEnds(nss, g);
  }

  method TestSupers(nss: Namespaces) returns (r: Outcome)
    requires Linked(nss) && SupersSettled(nss)
    ensures (forall g :: g in AllDefs(nss) ==> ValidRef(nss, g)) && r == FirstBar(nss, AllDefs(nss))
  {
    hide Linked, SupersSettled, SuperOutcome, RefsFrom, ValidRef, FirstBar, AllDefs, DefIterator.On, DefIterator.Rest;
    WalkIsComplete(nss);
    var it := new DefIterator(nss);
    var d := it.Peek(nss);
    ghost var todo := if d.Some? then [d.value] + it.Rest(nss) else [];
    BarTwice(nss, it.Rest(nss));
    r := Accept;
    while d.Some? && r.Accept?
      invariant it.On(nss) && (r.Accept? ==> todo == if d.Some? then [d.value] + it.Rest(nss) else [])
      invariant forall q :: q in todo ==> ValidRef(nss, q)
      invariant FirstBar(nss, AllDefs(nss)) == if r.Accept? then FirstBar(nss, todo) else r
      decreases r.Accept?, |todo|
    {
      BarStep(nss, todo);
      assert d.value in todo;
      r := TestSuper(nss, d.value);
      if r.Accept? {
        assert todo[1..] == it.Rest(nss);
        todo := it.Rest(nss);
        d := it.Next(nss);
      }
    }
    BarStep(nss, todo);
  }

  lemma BarStep(nss: Namespaces, refs: seq<Ref>)
    requires Linked(nss) && SupersSettled(nss) && forall g :: g in refs ==> ValidRef(nss, g)
    ensures refs == [] ==> FirstBar(nss, refs) == Accept
    ensures refs != [] ==>
              && ValidRef(nss, refs[0]) && (forall g :: g in refs[1..] ==> ValidRef(nss, g))
              && FirstBar(nss, refs) ==
                   if SuperOutcome(nss, refs[0]) != Accept then SuperOutcome(nss, refs[0]) else FirstBar(nss, refs[1..])
  {
    hide Linked, SupersSettled, SuperOutcome, ValidRef;
  }

  lemma BarTwice(nss: Namespaces, refs: seq<Ref>)
    requires Linked(nss) && SupersSettled(nss) && forall g :: g in refs ==> ValidRef(nss, g)
    ensures var twice := if refs == [] then [] else [refs[0]] + refs;
            (forall g :: g in twice ==> ValidRef(nss, g)) && FirstBar(nss, twice) == FirstBar(nss, refs)
  {
    hide Linked, SupersSettled, SuperOutcome, ValidRef;
    if refs != [] { assert ([refs[0]] + refs)[1..] == refs; }
  }

  /** How testConstraints comes out, on every schema. */
  ghost function ConstraintOutcome(nss: Namespaces): Outcome
    requires Linked(nss) && SupersLinked(nss)
  {
    var first := FirstFault(nss, AllDefs(nss));
    if first != Accept then first
    else
      WalkIsComplete(nss);
      NoFault(nss, AllDefs(nss));
      AcceptedSupersSettle(nss);
      FirstBar(nss, AllDefs(nss))
  }

  /** testConstraints */
  method TestConstraints(nss: Namespaces) returns (r: Outcome)
    requires Linked(nss) && SupersLinked(nss)
    ensures r == ConstraintOutcome(nss)
  {
    hide Linked, SupersLinked, FirstBar, AllAccepted, FirstFault, RefsFrom;
    r := TestReferences(nss);
    if r.Accept? {
      AcceptedSupersSettle(nss);
      r := TestSupers(nss);
    }
  }

  ghost predicate ConstraintsMet(nss: Namespaces)
    requires Linked(nss) && SupersLinked(nss)
  {
    ConstraintOutcome(nss) == Accept
  }

  /** It accepts exactly if every reference passes, and every group with a supergroup has one
      that passes, a line that meets no group twice and nothing but groups, and no field named
      like an inherited one. */
  lemma ConstraintsMean(nss: Namespaces)
    requires Linked(nss) && SupersLinked(nss)
    ensures ConstraintsMet(nss) ==> SupersSettled(nss)
    ensures ConstraintsMet(nss) <==>
                  AllAccepted(nss) && SupersSettled(nss)
                  && forall g :: ValidRef(nss, g) ==> SuperOutcome(nss, g) == Accept
  {
    hide Linked, SupersLinked, SupersSettled, FirstBar, AllAccepted, FirstFault, RefsFrom, SuperOutcome;
    WalkIsComplete(nss);
    NoFault(nss, AllDefs(nss));
    AllAcceptedMeans(nss);
    if AllAccepted(nss) {
      AcceptedSupersSettle(nss);
      NoBar(nss, AllDefs(nss));
    }
  }

  lemma AllAcceptedMeans(nss: Namespaces)
    requires Linked(nss)
    ensures AllAccepted(nss) <==> forall r :: r in AllDefs(nss) ==> Expected(nss, r) == Accept
  {
    hide Linked, Expected;
    WalkIsComplete(nss);
  }

  /** What holds of every group of a schema that passes: its line of supergroups ends, and all
      the names it inherits or has are different. */
  lemma MetConstraints(nss: Namespaces, g: Ref)
    requires SchemaOk(nss) && Linked(nss) && SupersLinked(nss) && ConstraintsMet(nss) && IsGroup(nss, g)
    ensures Rooted(nss, g) && Distinct(Names(nss, Inherited(nss, g)))
  {
    hide SchemaOk, Linked, SupersLinked, ConstraintsMet, Shadows, Lineage, Ends;
    MetRooted(nss, g);
    forall r | r in Lineage(nss, g) ensures OwnNamesOk(nss, r) && Rooted(nss, r) && !Shadows(nss, r) {
      var k :| 0 <= k < |Lineage(nss, g)| && Lineage(nss, g)[k] == r;
      LineOf(nss, g, k);
      Unfold(nss, r);
      MetShadow(nss, r);
      GroupNamesOk(nss, r);
    }
    AllNamesDistinct(nss, g);
  }

  lemma MetRooted(nss: Namespaces, g: Ref)
    requires Linked(nss) && SupersLinked(nss) && ConstraintsMet(nss) && IsGroup(nss, g)
    ensures Rooted(nss, g)
  {
    hide Linked, SupersLinked, SupersSettled, ConstraintsMet, Shadows, SuperAccepted, Ends, LineOut;
    ConstraintsMean(nss);
    assert ValidRef(nss, g);
    assert SuperOutcome(nss, g) == Accept;
    if SuperRef(nss, g).None? { assert RootedIn(nss, g, 0); } else { EndingIsRooted(nss, g); }
  }

  lemma MetShadow(nss: Namespaces, g: Ref)
    requires Linked(nss) && SupersLinked(nss) && ConstraintsMet(nss) && IsGroup(nss, g) && Rooted(nss, g)
    ensures !Shadows(nss, g)
  {
    hide Linked, SupersLinked, SupersSettled, ConstraintsMet, Shadows, SuperAccepted, Ends, Rooted, Lineage, LineOut;
    ConstraintsMean(nss);
    assert ValidRef(nss, g);
    assert SuperOutcome(nss, g) == Accept;
    if SuperRef(nss, g).None? {
      Unfold(nss, g);
      NoAncestors(nss, g);
    }
  }

  lemma GroupNamesOk(nss: Namespaces, g: Ref)
    requires SchemaOk(nss) && IsGroup(nss, g)
    ensures OwnNamesOk(nss, g)
  {
    hide NoLaterPrefix;
    assert NamespaceOk(nss[g.ns]);
    assert DefOk(nss[g.ns].defs[g.at]);
  }

  // -------------------------------------------------------------------------- as it runs

  lemma BoundIsReady(nss: Namespaces)
    requires ParserNames.Unbound(nss) && AllResolvable(nss)
    ensures Bound(LinkAll(nss)) && Linked(LinkAll(nss)) && SupersLinked(LinkAll(nss))
  {
    hide Bound, AllResolvable;
    LinkBinds(nss);
    BoundIsLinked(LinkAll(nss));
    LinkAllSupers(nss);
  }

  /** How BLINK_Schema_new comes out on a text, for every text. */
  ghost function TextOutcome(text: seq<byte>): Outcome {
    match SchemaParser.Parse(text)
    case None => Reject
    case Some(nss) =>
      ParserNames.AcceptedIsTidy(text);
      if !AllResolvable(nss) then Reject
      else
        BoundIsReady(nss);
        ConstraintOutcome(LinkAll(nss))
  }

  /** BLINK_Schema_new: a schema comes out exactly when the text parses, every name is found and
      the constraints are met; it is then the parsed schema with every reference bound. Where
      the source would follow a stray pointer or not come back, `how` says so. */
  method New(inp: Stream) returns (schema: Option<SchemaBase>, how: Outcome)
    requires inp.Valid() && !inp.bounded && inp.pos == 0
    modifies inp.Repr
    ensures how == TextOutcome(old(inp.Text())) && (schema.Some? <==> how == Accept)
    ensures schema.Some? ==>
              && var p := SchemaParser.Parse(old(inp.Text()));
              && p.Some? && schema.value.nss == LinkAll(p.value)
              && SchemaOk(schema.value.nss) && Bound(schema.value.nss)
              && Linked(schema.value.nss) && SupersLinked(schema.value.nss)
              && ConstraintsMet(schema.value.nss)
  {
    hide SchemaParser.Parse, AllResolvable, Linked, SupersLinked, ConstraintOutcome, SchemaOk, Bound,
         ParserNames.Unbound;
    ghost var text := inp.Text();
    SchemaParser.AcceptedIsOk(text);
    ParserNames.AcceptedIsTidy(text);
    schema, how := None, Reject;
    var nss := SchemaParser.ParseSchema(inp);
    if nss.Some? {
      var self := new SchemaBase(nss.value);
      var ok := self.ResolveDefinitions();
      if ok {
        LinkKeepsOk(nss.value);
        BoundIsReady(nss.value);
        how := TestConstraints(self.nss);
        if how.Accept? {
          schema := Some(self);
        }
      }
    }
  }
}
