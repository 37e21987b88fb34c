/** Binding references to definitions, src/blink_schema.c:1787-1881. */
module Resolution {
  import opened Base
  import opened Schema
  import opened Lookup
  import opened Definitions
  import SchemaParser
  import ParserNames
  import L = Lexer

  // -------------------------------------------------------------- what is wanted

  /** A reference bound to the definition its name finds. */
  function LinkType(nss: Namespaces, t: TypeInfo): TypeInfo {
    if t.tag.IRef? then t.(resolved := FindDef(nss, t.name)) else t
  }

  function LinkField(nss: Namespaces, f: Field): Field {
    f.(ty := LinkType(nss, f.ty))
  }

  function LinkFields(nss: Namespaces, fields: seq<Field>): (linked: seq<Field>)
    ensures |linked| == |fields| && forall i :: 0 <= i < |fields| ==> linked[i] == LinkField(nss, fields[i])
  {
    seq(|fields|, i requires 0 <= i < |fields| => LinkField(nss, fields[i]))
  }

  function LinkDef(nss: Namespaces, d: Def): Def {
    match d
    case Group(name, notes, id, superName, super, fields) =>
      Group(name, notes, id, superName, if superName.Some? then FindDef(nss, superName.value) else super,
            LinkFields(nss, fields))
    case Enum(_, _, _) => d
    case TypeDef(name, notes, ty) => TypeDef(name, notes, LinkType(nss, ty))
  }

  function LinkDefs(nss: Namespaces, defs: seq<Def>): (linked: seq<Def>)
    ensures |linked| == |defs| && forall i :: 0 <= i < |defs| ==> linked[i] == LinkDef(nss, defs[i])
  {
    seq(|defs|, i requires 0 <= i < |defs| => LinkDef(nss, defs[i]))
  }

  function LinkAll(nss: Namespaces): (linked: Namespaces)
    ensures |linked| == |nss|
            && forall i :: 0 <= i < |nss| ==>
                 linked[i] == Namespace(nss[i].name, LinkDefs(nss, nss[i].defs))
  {
    seq(|nss|, i requires 0 <= i < |nss| => Namespace(nss[i].name, LinkDefs(nss, nss[i].defs)))
  }

  // ------------------------------------------------------- what binding leaves alone

  /** A schema without its bindings. */
  function ForgetField(f: Field): Field {
    f.(ty := f.ty.(resolved := None))
  }

  function ForgetFields(fields: seq<Field>): (r: seq<Field>)
    ensures |r| == |fields| && forall i :: 0 <= i < |fields| ==> r[i] == ForgetField(fields[i])
  {
    seq(|fields|, i requires 0 <= i < |fields| => ForgetField(fields[i]))
  }

  function ForgetDef(d: Def): Def {
    match d
    case Group(name, notes, id, superName, _, fields) => Group(name, notes, id, superName, None, ForgetFields(fields))
    case Enum(_, _, _) => d
    case TypeDef(name, notes, ty) => TypeDef(name, notes, ty.(resolved := None))
  }

  function ForgetDefs(defs: seq<Def>): (r: seq<Def>)
    ensures |r| == |defs| && forall i :: 0 <= i < |defs| ==> r[i] == ForgetDef(defs[i])
  {
    seq(|defs|, i requires 0 <= i < |defs| => ForgetDef(defs[i]))
  }

  function Forget(nss: Namespaces): (r: Namespaces)
    ensures |r| == |nss| && forall i :: 0 <= i < |nss| ==> r[i] == Namespace(nss[i].name, ForgetDefs(nss[i].defs))
  {
    seq(|nss|, i requires 0 <= i < |nss| => Namespace(nss[i].name, ForgetDefs(nss[i].defs)))
  }

  lemma LinkDefOnlyBinds(nss: Namespaces, d: Def)
    ensures ForgetDef(LinkDef(nss, d)) == ForgetDef(d)
  {
    hide FindDef;
    if d.Group? { assert ForgetFields(LinkFields(nss, d.fields)) == ForgetFields(d.fields); }
  }

  /** Binding sets bindings and changes nothing else: without them the schema is what it was. */
  lemma LinkOnlyBinds(nss: Namespaces)
    ensures Forget(LinkAll(nss)) == Forget(nss)
  {
    hide LinkDef, ForgetDef;
    forall i | 0 <= i < |nss| ensures ForgetDefs(LinkDefs(nss, nss[i].defs)) == ForgetDefs(nss[i].defs) {
      forall j | 0 <= j < |nss[i].defs| ensures ForgetDef(LinkDef(nss, nss[i].defs[j])) == ForgetDef(nss[i].defs[j]) {
        LinkDefOnlyBinds(nss, nss[i].defs[j]);
      }
    }
  }

  predicate TypeFound(nss: Namespaces, t: TypeInfo) {
    t.tag.IRef? ==> FindDef(nss, t.name).Some?
  }

  predicate Resolvable(nss: Namespaces, d: Def) {
    match d
    case Group(_, _, _, superName, _, fields) =>
      (superName.Some? ==> FindDef(nss, superName.value).Some?)
      && forall i :: 0 <= i < |fields| ==> TypeFound(nss, fields[i].ty)
    case Enum(_, _, _) => true
    case TypeDef(_, _, ty) => TypeFound(nss, ty)
  }

  ghost predicate AllResolvable(nss: Namespaces) {
    forall r :: ValidRef(nss, r) ==> Resolvable(nss, DefAt(nss, r))
  }

  // ------------------------------------------------------- finding looks at names only

  ghost predicate SameNames(nss: Namespaces, nss': Namespaces) {
    SameShape(nss, nss') && (forall i :: 0 <= i < |nss| ==> nss'[i].name == nss[i].name)
    && forall r :: ValidRef(nss, r) ==> DefAt(nss', r).name == DefAt(nss, r).name
  }

  lemma SameDefNames(nss: Namespaces, nss': Namespaces, i: nat)
    requires SameNames(nss, nss') && i < |nss|
    ensures DefNames(nss'[i].defs) == DefNames(nss[i].defs)
  {
    forall j | 0 <= j < |nss[i].defs| ensures DefNames(nss'[i].defs)[j] == DefNames(nss[i].defs)[j] {
      assert ValidRef(nss, Ref(i, j));
      assert DefAt(nss', Ref(i, j)).name == DefAt(nss, Ref(i, j)).name;
    }
  }

  lemma FindSame(nss: Namespaces, nss': Namespaces, name: Text)
    requires SameNames(nss, nss')
    ensures FindDef(nss', name) == FindDef(nss, name)
  {
    hide Search, SplitCName, SameNames;
    SameNamespaceNames(nss, nss');
    var i := Search(NamespaceNames(nss), SplitCName(name).0);
    if i.Some? { SameDefNames(nss, nss', i.value); }
  }

  lemma SameNamespaceNames(nss: Namespaces, nss': Namespaces)
    requires SameNames(nss, nss')
    ensures NamespaceNames(nss') == NamespaceNames(nss)
  {
  }

  lemma LinkTypeSame(nss: Namespaces, nss': Namespaces, t: TypeInfo)
    requires SameNames(nss, nss')
    ensures LinkType(nss', t) == LinkType(nss, t) && TypeFound(nss', t) == TypeFound(nss, t)
  {
    hide FindDef, SameNames;
    FindSame(nss, nss', t.name);
  }

  lemma LinkSame(nss: Namespaces, nss': Namespaces, d: Def)
    requires SameNames(nss, nss')
    ensures LinkDef(nss', d) == LinkDef(nss, d) && Resolvable(nss', d) == Resolvable(nss, d)
  {
    hide FindDef, SameNames, LinkType, TypeFound;
    match d
    case Group(_, _, _, superName, _, fields) =>
      if superName.Some? { FindSame(nss, nss', superName.value); }
      forall i | 0 <= i < |fields|
        ensures LinkField(nss', fields[i]) == LinkField(nss, fields[i])
                && TypeFound(nss', fields[i].ty) == TypeFound(nss, fields[i].ty) {
        LinkTypeSame(nss, nss', fields[i].ty);
      }
      assert LinkFields(nss', fields) == LinkFields(nss, fields);
    case Enum(_, _, _) =>
    case TypeDef(_, _, ty) => LinkTypeSame(nss, nss', ty);
  }

  /** Binding a second time changes nothing. The walk meets the first definition twice. */
  lemma LinkTwice(nss: Namespaces, d: Def)
    ensures LinkDef(nss, LinkDef(nss, d)) == LinkDef(nss, d) && Resolvable(nss, LinkDef(nss, d)) == Resolvable(nss, d)
  {
    hide FindDef, LinkFields, TypeFound;
    match d
    case Group(_, _, _, _, _, fields) =>
      FieldsTwice(nss, fields);
    case Enum(_, _, _) =>
    case TypeDef(_, _, ty) => TypeTwice(nss, ty);
  }

  lemma TypeTwice(nss: Namespaces, t: TypeInfo)
    ensures LinkType(nss, LinkType(nss, t)) == LinkType(nss, t) && TypeFound(nss, LinkType(nss, t)) == TypeFound(nss, t)
  {
    hide FindDef;
  }

  lemma FieldsTwice(nss: Namespaces, fields: seq<Field>)
    ensures LinkFields(nss, LinkFields(nss, fields)) == LinkFields(nss, fields)
    ensures (forall i :: 0 <= i < |fields| ==> TypeFound(nss, LinkFields(nss, fields)[i].ty)) <==>
            forall i :: 0 <= i < |fields| ==> TypeFound(nss, fields[i].ty)
  {
    hide LinkType, TypeFound;
    var once := LinkFields(nss, fields);
    forall i | 0 <= i < |fields|
      ensures LinkField(nss, once[i]) == once[i] && TypeFound(nss, once[i].ty) == TypeFound(nss, fields[i].ty)
    {
      TypeTwice(nss, fields[i].ty);
    }
  }

  lemma LinkKeepsNames(nss: Namespaces)
    ensures SameNames(nss, LinkAll(nss))
  {
    hide FindDef;
    var linked := LinkAll(nss);
    forall r | ValidRef(nss, r) ensures DefAt(linked, r).name == DefAt(nss, r).name {
      LinkedAt(nss, r);
    }
  }

  lemma LinkedAt(nss: Namespaces, r: Ref)
    requires ValidRef(nss, r)
    ensures ValidRef(LinkAll(nss), r) && DefAt(LinkAll(nss), r) == LinkDef(nss, DefAt(nss, r))
  {
    hide LinkDef;
    assert LinkAll(nss)[r.ns].defs == LinkDefs(nss, nss[r.ns].defs);
  }

  // --------------------------------------------------------------- what it amounts to

  ghost predicate TypeBound(nss: Namespaces, t: TypeInfo) {
    t.tag.IRef? ==> t.resolved.Some? && t.resolved == FindDef(nss, t.name)
  }

  /** Every reference of the definition is bound to what its name finds in this very schema. */
  ghost predicate DefBound(nss: Namespaces, d: Def) {
    match d
    case Group(_, _, _, superName, super, fields) =>
      && (superName.Some? ==> super.Some? && super == FindDef(nss, superName.value))
      && forall i :: 0 <= i < |fields| ==> TypeBound(nss, fields[i].ty)
    case Enum(_, _, _) => true
    case TypeDef(_, _, ty) => TypeBound(nss, ty)
  }

  ghost predicate Bound(nss: Namespaces) {
    forall r :: ValidRef(nss, r) ==> DefBound(nss, DefAt(nss, r))
  }

  lemma LinkDefBound(nss: Namespaces, nss': Namespaces, d: Def)
    requires SameNames(nss, nss')
    ensures DefBound(nss', LinkDef(nss, d)) == Resolvable(nss, d)
  {
    hide FindDef, SameNames;
    match d
    case Group(_, _, _, superName, _, fields) =>
      if superName.Some? { FindSame(nss, nss', superName.value); }
      var linked := LinkFields(nss, fields);
      forall i | 0 <= i < |fields| ensures TypeBound(nss', linked[i].ty) == TypeFound(nss, fields[i].ty) {
        FindSame(nss, nss', fields[i].ty.name);
      }
    case Enum(_, _, _) =>
    case TypeDef(_, _, ty) => FindSame(nss, nss', ty.name);
  }

  /** If every name is found, every reference of the result is bound, and to the definition
      its name finds there; and conversely. */
  lemma LinkBinds(nss: Namespaces)
    ensures Bound(LinkAll(nss)) <==> AllResolvable(nss)
  {
    hide LinkDef, DefBound, Resolvable, SameNames;
    var linked := LinkAll(nss);
    LinkKeepsNames(nss);
    assert forall r :: ValidRef(nss, r) <==> ValidRef(linked, r);
    forall r | ValidRef(nss, r) ensures DefBound(linked, DefAt(linked, r)) == Resolvable(nss, DefAt(nss, r)) {
      LinkedAt(nss, r);
      LinkDefBound(nss, linked, DefAt(nss, r));
    }
  }

  /** Resolving a schema a second time changes nothing. */
  lemma LinkAllTwice(nss: Namespaces)
    ensures LinkAll(LinkAll(nss)) == LinkAll(nss)
  {
    hide LinkDef, SameNames;
    var once, twice := LinkAll(nss), LinkAll(LinkAll(nss));
    LinkKeepsNames(nss);
    forall i | 0 <= i < |nss| ensures twice[i].defs == once[i].defs {
      forall j | 0 <= j < |nss[i].defs| ensures twice[i].defs[j] == once[i].defs[j] {
        var d := nss[i].defs[j];
        LinkTwice(nss, d);
        LinkSame(nss, once, LinkDef(nss, d));
      }
    }
  }

  /** BLINK_Schema_getGroupByName on the schema an accepted text is bound to: although both
      searches are by prefix, "NS:G" finds exactly the definition G of the namespace NS. */
  lemma FindAccepted(text: seq<byte>, r: Ref)
    requires SchemaParser.Parse(text).Some? && ValidRef(LinkAll(SchemaParser.Parse(text).value), r)
    ensures var nss := LinkAll(SchemaParser.Parse(text).value);
            FindDef(nss, nss[r.ns].name + [L.COLON] + DefAt(nss, r).name) == Some(r)
  {
    hide FindDef, SchemaOk, SchemaParser.Parse;
    var plain := SchemaParser.Parse(text).value;
    SchemaParser.AcceptedIsOk(text);
    ParserNames.AcceptedIsTidy(text);
    LinkKeepsNames(plain);
    FindExact(plain, r);
    FindSame(plain, LinkAll(plain), plain[r.ns].name + [L.COLON] + DefAt(plain, r).name);
  }

  /** A name without a namespace is looked for in the first namespace only, wherever it stands. */
  lemma UnqualifiedIsFirst(nss: Namespaces, name: Text)
    requires L.COLON !in name && FindDef(nss, name).Some?
    ensures FindDef(nss, name).value.ns == 0
  {
    hide Search;
    if nss != [] { FirstNamespace(nss); }
    SearchFirst(NamespaceNames(nss), []);
  }

  // ------------------------------------------------------------------ as it runs

  /** Fields bound one after the other, up to and including the first whose name is not found. */
  function LinkPart(nss: Namespaces, fields: seq<Field>): (part: seq<Field>)
    ensures |part| == |fields|
  {
    if fields == [] then []
    else [LinkField(nss, fields[0])] + if TypeFound(nss, fields[0].ty) then LinkPart(nss, fields[1..]) else fields[1..]
  }

  /** What is left of a definition that cannot be bound. */
  function PartDef(nss: Namespaces, d: Def): Def {
    match d
    case Group(name, notes, id, superName, super, fields) =>
      if superName.None? then Group(name, notes, id, superName, super, LinkPart(nss, fields))
      else
        var s := FindDef(nss, superName.value);
        Group(name, notes, id, superName, s, if s.Some? then LinkPart(nss, fields) else fields)
    case Enum(_, _, _) => d
    case TypeDef(name, notes, ty) => TypeDef(name, notes, LinkType(nss, ty))
  }

  lemma {:induction false} PartIsAll(nss: Namespaces, fields: seq<Field>)
    requires forall i :: 0 <= i < |fields| ==> TypeFound(nss, fields[i].ty)
    ensures LinkPart(nss, fields) == LinkFields(nss, fields)
  {
    hide LinkField, TypeFound;
    if fields != [] {
      assert forall i :: 0 <= i < |fields| - 1 ==> fields[1..][i] == fields[i + 1];
      PartIsAll(nss, fields[1..]);
    }
  }

  lemma {:induction false} PartSame(nss: Namespaces, nss': Namespaces, fields: seq<Field>)
    requires SameNames(nss, nss')
    ensures LinkPart(nss', fields) == LinkPart(nss, fields)
  {
    hide FindDef, SameNames;
    if fields != [] {
      FindSame(nss, nss', fields[0].ty.name);
      PartSame(nss, nss', fields[1..]);
    }
  }

  lemma PartDefSame(nss: Namespaces, nss': Namespaces, d: Def)
    requires SameNames(nss, nss')
    ensures PartDef(nss', d) == PartDef(nss, d)
  {
    hide FindDef, SameNames;
    match d
    case Group(_, _, _, superName, _, fields) =>
      if superName.Some? { FindSame(nss, nss', superName.value); }
      PartSame(nss, nss', fields);
    case Enum(_, _, _) =>
    case TypeDef(_, _, ty) => FindSame(nss, nss', ty.name);
  }

  /** The first k fields are bound and no name of them is missing; the others are untouched. */
  ghost predicate PartlyBound(nss: Namespaces, fields: seq<Field>, linked: seq<Field>, k: nat) {
    && k <= |fields| == |linked| && linked[k..] == fields[k..]
    && (forall i :: 0 <= i < k ==> TypeFound(nss, fields[i].ty))
    && LinkPart(nss, fields) == linked[..k] + LinkPart(nss, fields[k..])
  }

  method ResolveFields(nss: Namespaces, fields: seq<Field>) returns (ok: bool, linked: seq<Field>)
    ensures ok == forall i :: 0 <= i < |fields| ==> TypeFound(nss, fields[i].ty)
    ensures linked == LinkPart(nss, fields) && (ok ==> linked == LinkFields(nss, fields))
  {
    hide FindDef, LinkField, LinkPart, TypeFound, PartlyBound;
    linked := fields;
    ok := true;
    var k := 0;
    NoneBound(nss, fields);
    while k < |fields|
      invariant k <= |fields| == |linked| && PartlyBound(nss, fields, linked, k)
    {
      OneBound(nss, fields, linked, k);
      FieldCase(nss, linked[k]);
      if linked[k].ty.tag.IRef? {
        var r := Find(nss, linked[k].ty.name);
        linked := linked[k := linked[k].(ty := linked[k].ty.(resolved := r))];
        if r.None? {
          return false, linked;
        }
      }
      k := k + 1;
    }
    AllBound(nss, fields, linked);
  }

  lemma NoneBound(nss: Namespaces, fields: seq<Field>)
    ensures PartlyBound(nss, fields, fields, 0)
  {
    hide LinkPart;
    assert fields[0..] == fields;
  }

  lemma OneBound(nss: Namespaces, fields: seq<Field>, linked: seq<Field>, k: nat)
    requires k < |fields| && PartlyBound(nss, fields, linked, k)
    ensures linked[k] == fields[k] && (LinkField(nss, linked[k]) == linked[k] ==> linked[k := linked[k]] == linked)
    ensures var linked' := linked[k := LinkField(nss, linked[k])];
            if TypeFound(nss, linked[k].ty) then PartlyBound(nss, fields, linked', k + 1)
            else linked' == LinkPart(nss, fields)
  {
    hide LinkPart, LinkField, TypeFound;
    var f, linked' := linked[k], linked[k := LinkField(nss, linked[k])];
    assert f == linked[k..][0] == fields[k..][0];
    PartStep(nss, fields[k..]);
    assert fields[k..][1..] == fields[k + 1..];
    assert linked'[k + 1..] == linked[k..][1..];
    assert linked'[..k + 1] == linked[..k] + [LinkField(nss, f)];
    if TypeFound(nss, f.ty) {
      Regroup(linked[..k], [LinkField(nss, f)], LinkPart(nss, fields[k + 1..]));
    } else {
      Regroup(linked[..k], [LinkField(nss, f)], fields[k + 1..]);
      assert linked' == linked'[..k + 1] + linked'[k + 1..];
    }
  }

  lemma AllBound(nss: Namespaces, fields: seq<Field>, linked: seq<Field>)
    requires PartlyBound(nss, fields, linked, |fields|)
    ensures (forall i :: 0 <= i < |fields| ==> TypeFound(nss, fields[i].ty))
    ensures linked == LinkPart(nss, fields) == LinkFields(nss, fields)
  {
    hide LinkPart, LinkField, TypeFound;
    NoPart(nss, fields[|fields|..]);
    assert linked == linked[..|fields|];
    PartIsAll(nss, fields);
  }

  lemma PartStep(nss: Namespaces, fields: seq<Field>)
    requires fields != []
    ensures LinkPart(nss, fields) ==
              [LinkField(nss, fields[0])]
              + if TypeFound(nss, fields[0].ty) then LinkPart(nss, fields[1..]) else fields[1..]
  {
  }

  lemma NoPart(nss: Namespaces, fields: seq<Field>)
    ensures fields == [] ==> LinkPart(nss, fields) == []
  {
  }

  lemma FieldCase(nss: Namespaces, f: Field)
    ensures TypeFound(nss, f.ty) == (f.ty.tag.IRef? ==> FindDef(nss, f.ty.name).Some?)
    ensures LinkField(nss, f) == if f.ty.tag.IRef? then f.(ty := f.ty.(resolved := FindDef(nss, f.ty.name))) else f
  {
    hide FindDef;
  }

  method ResolveDefinition(nss: Namespaces, d: Def) returns (ok: bool, d': Def)
    ensures ok == Resolvable(nss, d) && d' == PartDef(nss, d) && d'.name == d.name
    ensures ok ==> d' == LinkDef(nss, d)
  {
    hide FindDef, LinkType, TypeFound, LinkPart, LinkFields;
    ok, d' := true, d;
    match d
    case Group(name, notes, id, superName, super, fields) =>
      var s := super;
      if superName.Some? {
        s := Find(nss, superName.value);
        ok := s.Some?;
      }
      var linked := fields;
      if ok {
        ok, linked := ResolveFields(nss, fields);
      }
      d' := Group(name, notes, id, superName, s, linked);
    case Enum(_, _, _) =>
    case TypeDef(name, notes, ty) =>
      TypeCase(nss, ty);
      if ty.tag.IRef? {
        var r := Find(nss, ty.name);
        ok, d' := r.Some?, TypeDef(name, notes, ty.(resolved := r));
      }
  }

  lemma TypeCase(nss: Namespaces, ty: TypeInfo)
    ensures TypeFound(nss, ty) == (ty.tag.IRef? ==> FindDef(nss, ty.name).Some?)
    ensures LinkType(nss, ty) == if ty.tag.IRef? then ty.(resolved := FindDef(nss, ty.name)) else ty
  {
    hide FindDef;
  }

  /** During the walk a definition is as it was or bound; once passed, it is bound. */
  ghost predicate Passed(base: Namespaces, nss: Namespaces, r: Ref)
    requires SameShape(base, nss) && ValidRef(base, r)
  {
    Resolvable(base, DefAt(base, r)) && DefAt(nss, r) == LinkDef(base, DefAt(base, r))
  }

  /** The walk is at its place m: what it has passed is bound, what comes after m untouched. */
  ghost predicate Stage(base: Namespaces, nss: Namespaces, m: nat) {
    && SameNames(base, nss)
    && forall a :: 0 <= a < |AllDefs(base)| && ValidRef(base, AllDefs(base)[a]) ==>
         var r := AllDefs(base)[a];
         && (a < m ==> Passed(base, nss, r))
         && (a == m ==> DefAt(nss, r) == DefAt(base, r) || Passed(base, nss, r))
         && (a > m ==> DefAt(nss, r) == DefAt(base, r))
  }

  /** The walk has stopped at the definition in place m: a name in it is not found. */
  ghost predicate StoppedAt(base: Namespaces, nss: Namespaces, m: nat) {
    && SameNames(base, nss) && m < |AllDefs(base)|
    && forall a :: 0 <= a < |AllDefs(base)| && ValidRef(base, AllDefs(base)[a]) ==>
         var r := AllDefs(base)[a];
         && (a < m ==> Passed(base, nss, r))
         && (a == m ==> !Resolvable(base, DefAt(base, r)) && DefAt(nss, r) == PartDef(base, DefAt(base, r)))
         && (a > m ==> DefAt(nss, r) == DefAt(base, r))
  }

  function Put(nss: Namespaces, r: Ref, d: Def): Namespaces
    requires ValidRef(nss, r)
  {
    nss[r.ns := nss[r.ns].(defs := nss[r.ns].defs[r.at := d])]
  }

  lemma PutAt(nss: Namespaces, r: Ref, d: Def)
    requires ValidRef(nss, r) && d.name == DefAt(nss, r).name
    ensures SameNames(nss, Put(nss, r, d))
    ensures forall q :: ValidRef(nss, q) ==> DefAt(Put(nss, r, d), q) == if q == r then d else DefAt(nss, q)
  {
  }

  /** What the walk finds in its place binds to the same as what was there at first. */
  lemma StageLinks(base: Namespaces, nss: Namespaces, m: nat)
    requires Stage(base, nss, m) && m < |AllDefs(base)| && ValidRef(base, AllDefs(base)[m])
    ensures var r := AllDefs(base)[m];
            && ValidRef(nss, r) && LinkDef(nss, DefAt(nss, r)) == LinkDef(base, DefAt(base, r))
            && Resolvable(nss, DefAt(nss, r)) == Resolvable(base, DefAt(base, r))
            && (!Resolvable(base, DefAt(base, r)) ==> PartDef(nss, DefAt(nss, r)) == PartDef(base, DefAt(base, r)))
  {
    hide LinkDef, PartDef, Resolvable, AllDefs;
    var r := AllDefs(base)[m];
    LinkSame(base, nss, DefAt(nss, r));
    LinkTwice(base, DefAt(base, r));
    PartDefSame(base, nss, DefAt(nss, r));
  }

  lemma StageOn(base: Namespaces, nss: Namespaces, m: nat, k: nat, d: Def)
    requires Stage(base, nss, m) && m < |AllDefs(base)| && m <= k <= m + 1
    requires ValidRef(base, AllDefs(base)[m]) && SameShape(base, nss)
    requires var r := AllDefs(base)[m];
                 Resolvable(base, DefAt(base, r)) && d == LinkDef(base, DefAt(base, r))
                 && d.name == DefAt(nss, r).name
    ensures Stage(base, Put(nss, AllDefs(base)[m], d), k)
  {
    hide LinkDef, Resolvable, AllDefs, SameNames;
    WalkIsComplete(base);
    PutAt(nss, AllDefs(base)[m], d);
    SameTrans(base, nss, Put(nss, AllDefs(base)[m], d));
  }

  lemma StageStops(base: Namespaces, nss: Namespaces, m: nat, d: Def)
    requires Stage(base, nss, m) && m < |AllDefs(base)| && ValidRef(base, AllDefs(base)[m]) && SameShape(base, nss)
    requires var r := AllDefs(base)[m];
                 !Resolvable(base, DefAt(base, r)) && d == PartDef(base, DefAt(base, r))
                 && d.name == DefAt(nss, r).name
    ensures StoppedAt(base, Put(nss, AllDefs(base)[m], d), m) && !AllResolvable(base)
  {
    hide LinkDef, PartDef, Resolvable, AllDefs, SameNames;
    WalkIsComplete(base);
    PutAt(nss, AllDefs(base)[m], d);
    SameTrans(base, nss, Put(nss, AllDefs(base)[m], d));
  }

  lemma StageDone(base: Namespaces, nss: Namespaces)
    requires Stage(base, nss, |AllDefs(base)|) && SameShape(base, nss)
    ensures AllResolvable(base) && nss == LinkAll(base)
  {
    hide LinkDef, Resolvable, AllDefs;
    WalkIsComplete(base);
    forall r | ValidRef(base, r) ensures Passed(base, nss, r) {
      var a :| 0 <= a < |AllDefs(base)| && AllDefs(base)[a] == r;
    }
    AllPassed(base, nss);
  }

  lemma StageStarts(nss: Namespaces)
    ensures Stage(nss, nss, 0)
  {
    SameToSame(nss);
  }

  lemma AllPassed(base: Namespaces, nss: Namespaces)
    requires SameNames(base, nss) && forall r :: ValidRef(base, r) ==> Passed(base, nss, r)
    ensures AllResolvable(base) && nss == LinkAll(base)
  {
    hide LinkDef, Resolvable;
    forall i | 0 <= i < |base| ensures nss[i] == LinkAll(base)[i] {
      forall j | 0 <= j < |base[i].defs| ensures nss[i].defs[j] == LinkDefs(base, base[i].defs)[j] {
        assert Passed(base, nss, Ref(i, j));
        assert DefAt(nss, Ref(i, j)) == nss[i].defs[j];
      }
      assert nss[i].defs == LinkDefs(base, base[i].defs);
    }
  }

  lemma SameRest(nss: Namespaces, nss': Namespaces, it: DefIterator)
    requires SameShape(nss, nss') && it.On(nss)
    ensures it.On(nss') && it.Rest(nss') == it.Rest(nss)
  {
    if it.def.Some? { RefsSameShape(nss, nss', it.ns, it.def.value); }
  }

  /** struct blink_schema_base. */
  class SchemaBase {
    var nss: Namespaces

    constructor (nss: Namespaces)
      ensures this.nss == nss
    {
      this.nss := nss;
    }

    /** resolveDefinitions: succeeds exactly when every name is found, and then every reference
        is bound to what its name finds. On failure everything in front of the first definition
        with a name that is not found is bound, that definition in part, and the rest is as it
        was. */
    method ResolveDefinitions() returns (ok: bool)
      modifies this
      ensures ok == AllResolvable(old(nss))
      ensures ok ==> nss == LinkAll(old(nss)) && Bound(nss)
      ensures !ok ==> exists m: nat :: StoppedAt(old(nss), nss, m)
      ensures SameNames(old(nss), nss)
    {
      hide LinkDef, PartDef, Resolvable, SameNames, RefsFrom, FindDef, DefBound, Put, Stage, StoppedAt;
      ghost var base := nss;
      ghost var all, m: nat, k: nat := AllDefs(base), 0, 0;
      StageStarts(base);
      WalkIsComplete(base);
      var it := new DefIterator(nss);
      var d := it.Peek(nss);
      assert all[0..] == all;
      while d.Some?
        invariant Stage(base, nss, m) && m <= k <= |all| && k <= m + 1
        invariant d == if m < |all| then Some(all[m]) else None
        invariant it.On(base) && fresh(it) && it.Rest(base) == all[k..]
        decreases |all| - m, |all| - k
      {
        StageShape(base, nss, m);
        assert ValidRef(base, all[m]);
        StageLinks(base, nss, m);
        var def';
        ok, def' := ResolveDefinition(nss, DefAt(nss, d.value));
        if !ok {
          StageStops(base, nss, m, def');
          nss := Put(nss, d.value, def');
          StageShape(base, nss, m);
          return;
        }
        StageOn(base, nss, m, k, def');
        nss := Put(nss, d.value, def');
        StageShape(base, nss, k);
        SameRest(base, nss, it);
        d := it.Next(nss);
        SameRest(nss, base, it);
        m, k := k, if k < |all| then k + 1 else k;
      }
      ok := true;
      StageShape(base, nss, m);
      StageDone(base, nss);
      LinkBinds(base);
    }
  }

  lemma StageShape(base: Namespaces, nss: Namespaces, m: nat)
    ensures Stage(base, nss, m) || StoppedAt(base, nss, m) ==> SameNames(base, nss) && SameShape(base, nss)
  {
  }

  lemma SameToSame(nss: Namespaces)
    ensures SameNames(nss, nss)
  {
  }

  lemma SameTrans(a: Namespaces, b: Namespaces, c: Namespaces)
    requires SameNames(a, b) && SameNames(b, c)
    ensures SameNames(a, c) && SameShape(a, c)
  {
  }
}
