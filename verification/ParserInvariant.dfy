/** What holds in every reachable state of the schema parser: the pointers the state uses are
    set and point at the newest node, and every list is searchable by name. */
module ParserInvariant {
  import opened Base
  import opened Schema
  import opened Parser
  import L = Lexer

  // ------------------------------------------------------------------- the lists

  /** A namespace whose newest definition may still be open. */
  ghost predicate NsSound(ns: Namespace, open: bool) {
    && NoLaterPrefix(DefNames(ns.defs))
    && (open ==> ns.defs != [])
    && forall i :: 0 <= i < (if open then |ns.defs| - 1 else |ns.defs|) ==> DefOk(ns.defs[i])
  }

  /** All lists are in order, except that the newest definition of namespace `open` is still
      being built. */
  ghost predicate Sound(nss: Namespaces, open: Option<nat>) {
    && NoLaterPrefix(NamespaceNames(nss))
    && forall k :: 0 <= k < |nss| ==> NsSound(nss[k], open == Some(k))
  }

  lemma SoundIsOk(nss: Namespaces)
    requires Sound(nss, None)
    ensures SchemaOk(nss)
  {
    forall ns | ns in nss ensures NamespaceOk(ns) {
      var k :| 0 <= k < |nss| && nss[k] == ns;
      assert NsSound(nss[k], false);
    }
  }

  lemma SameNames(nss: Namespaces, k: nat, defs: seq<Def>)
    requires k < |nss|
    ensures NamespaceNames(nss[k := nss[k].(defs := defs)]) == NamespaceNames(nss)
  {
  }

  /** Replacing the definitions of one namespace. */
  lemma SoundReplace(nss: Namespaces, open: Option<nat>, k: nat, defs: seq<Def>, open': bool)
    requires Sound(nss, open) && k < |nss| && (open.Some? ==> open.value == k)
    requires NsSound(nss[k].(defs := defs), open')
    ensures Sound(nss[k := nss[k].(defs := defs)], if open' then Some(k) else None)
  {
    hide NsSound;
    SameNames(nss, k, defs);
    var nss' := nss[k := nss[k].(defs := defs)];
    forall j | 0 <= j < |nss'| ensures NsSound(nss'[j], (if open' then Some(k) else None) == Some(j)) {
      assert NsSound(nss[j], open == Some(j));
    }
  }

  /** Appending a definition whose name the search does not find. */
  lemma SoundAdd(nss: Namespaces, k: nat, d: Def)
    requires Sound(nss, None) && k < |nss| && Search(DefNames(nss[k].defs), d.name) == None && DefOk(d)
    ensures Sound(nss[k := nss[k].(defs := nss[k].defs + [d])], None)
  {
    hide DefOk;
    var defs := nss[k].defs;
    assert NsSound(nss[k], false);
    AppendUnfound(DefNames(defs), d.name);
    assert DefNames(defs + [d]) == DefNames(defs) + [Some(d.name)];
    SoundReplace(nss, None, k, defs + [d], false);
  }

  /** Changing the newest definition of a namespace without renaming it. */
  lemma SoundPut(nss: Namespaces, open: Option<nat>, k: nat, d: Def, open': bool)
    requires Sound(nss, open) && k < |nss| && (open.Some? ==> open.value == k) && nss[k].defs != []
    requires d.name == nss[k].defs[|nss[k].defs| - 1].name && (!open' ==> DefOk(d))
    ensures Sound(nss[k := nss[k].(defs := nss[k].defs[|nss[k].defs| - 1 := d])], if open' then Some(k) else None)
  {
    hide DefOk;
    var defs := nss[k].defs;
    assert NsSound(nss[k], open == Some(k));
    var defs' := defs[|defs| - 1 := d];
    assert DefNames(defs') == DefNames(defs);
    SoundReplace(nss, open, k, defs', open');
  }

  lemma SoundAddNamespace(nss: Namespaces, name: Text)
    requires Sound(nss, None) && Search(NamespaceNames(nss), name) == None
    ensures Sound(nss + [Namespace(name, [])], None)
  {
    var nss' := nss + [Namespace(name, [])];
    AppendUnfound(NamespaceNames(nss), name);
    assert NamespaceNames(nss') == NamespaceNames(nss) + [Some(name)];
    forall j | 0 <= j < |nss'| ensures NsSound(nss'[j], false) {
      if j < |nss| { assert NsSound(nss[j], false); }
    }
  }

  // ------------------------------------------------------------------ the states

  /** The newest definition is a group whose newest field has no name yet. */
  ghost predicate Unnamed(d: Def) {
    && d.Group? && d.fields != [] && NoLaterPrefix(FieldNames(d.fields))
    && d.fields[|d.fields| - 1].name.None?
    && forall i :: 0 <= i < |d.fields| - 1 ==> d.fields[i].name.Some?
  }

  /** The newest definition is an enumeration whose newest symbol has no value yet. */
  ghost predicate Valueless(d: Def) {
    d.Enum? && d.symbols != [] && NoLaterPrefix(SymbolNames(d.symbols)) && Increasing(d.symbols[..|d.symbols| - 1])
  }

  ghost predicate Closed(p: Parser) {
    InNamespace(p) && Sound(p.nss, None)
  }

  /** A definition is about to be added under p.name, which no definition's name starts with. */
  ghost predicate Fresh(p: Parser) {
    Closed(p) && p.name.Some? && Search(DefNames(Defs(p)), p.name.value) == None
  }

  ghost predicate GroupOpen(p: Parser) {
    Closed(p) && InGroup(p)
  }

  ghost predicate FieldUnnamed(p: Parser) {
    InField(p) && Sound(p.nss, p.ns) && Unnamed(Last(p))
  }

  ghost predicate FieldNamed(p: Parser) {
    InField(p) && Sound(p.nss, None)
  }

  ghost predicate TypedefOpen(p: Parser) {
    Closed(p) && InTypedef(p)
  }

  ghost predicate EnumOpen(p: Parser) {
    Closed(p) && InEnum(p)
  }

  ghost predicate SymbolOpen(p: Parser) {
    InSymbol(p) && Sound(p.nss, p.ns) && Valueless(Last(p))
  }

  ghost predicate OwnerInv(p: Parser, of: Owner) {
    match of
    case OfDef => Closed(p)
    case OfTypedef => Fresh(p)
    case OfType => FieldUnnamed(p)
    case OfName => FieldUnnamed(p)
    case OfSymbol => EnumOpen(p)
  }

  /** In a type state, the type belongs to an unnamed field or to a type definition. */
  ghost predicate TypeInv(p: Parser, inField: bool) {
    if inField then FieldUnnamed(p) else TypedefOpen(p)
  }

  /** The invariant of every run, state by state. */
  ghost predicate Inv(p: Parser) {
    match p.state
    case PStart => p.nss == []
    case PNs => Sound(p.nss, None)
    case PAny => Closed(p)
    case PDefOrAnnote => Closed(p)
    case PAnnote(of) => OwnerInv(p, of)
    case PAnnoteValue(of) => OwnerInv(p, of) && InAnnote(p)
    case PDefType => Closed(p) && p.name.Some?
    case PEnumOrTypedef => Fresh(p)
    case PSymbolOrRef => Fresh(p) && p.laName.Some? && p.laType.IRef?
    case PTypedef => Fresh(p) && (p.laType.IRef? ==> p.laName.Some?)
    case PEnum => Fresh(p) && p.laName.Some?
    case PEnumSingleton => Fresh(p)
    case PGroupId => GroupOpen(p)
    case PGroupSuper => GroupOpen(p)
    case PGroupRArrow => GroupOpen(p)
    case PFieldOrAny => GroupOpen(p)
    case PSuperOrFieldOrAny => GroupOpen(p)
    case PField => GroupOpen(p)
    case PFieldType => FieldUnnamed(p)
    case PLParen(inField) => TypeInv(p, inField)
    case PLParenOptional(inField) => TypeInv(p, inField)
    case PSize(inField) => TypeInv(p, inField)
    case PRParen(inField) => TypeInv(p, inField)
    case PLBracket(inField) => TypeInv(p, inField)
    case PRBracket(inField) => TypeInv(p, inField)
    case PDynamic(inField) => TypeInv(p, inField)
    case PFieldNameAnnotes => FieldUnnamed(p)
    case PFieldName => FieldUnnamed(p)
    case PFieldNameSlash => FieldNamed(p)
    case PFieldNameId => FieldNamed(p)
    case PFieldOptional => FieldNamed(p)
    case PFieldNext => FieldNamed(p)
    case PSymbol => EnumOpen(p) && p.name.Some?
    case PSymbolAnnotes => EnumOpen(p)
    case PSymbolName => EnumOpen(p)
    case PSymbolSlash => SymbolOpen(p)
    case PSymbolValue => SymbolOpen(p)
    case PSymbolNext => Closed(p) && InSymbol(p)
  }

  /** How many steps a token can still be looked at again for. */
  function Rank(s: State): nat {
    match s
    case PStart => 2
    case PAny => 1
    case PDefType => 2
    case PSymbolOrRef => 7
    case PEnum => 6
    case PEnumSingleton => 6
    case PTypedef => 6
    case PDynamic(_) => 4
    case PLBracket(_) => 3
    case PLParenOptional(_) => 3
    case PField => 3
    case PFieldNameAnnotes => 2
    case PFieldNameSlash => 4
    case PFieldOptional => 3
    case PFieldNext => 2
    case PFieldOrAny => 2
    case PSuperOrFieldOrAny => 2
    case PSymbolAnnotes => 2
    case PSymbol => 4
    case PSymbolSlash => 3
    case PSymbolNext => 2
    case _ => 0
  }

  ghost predicate InType(s: State, inField: bool) {
    || s == PDynamic(inField) || s == PLBracket(inField) || s == PRBracket(inField)
    || s == PLParen(inField) || s == PLParenOptional(inField) || s == PSize(inField) || s == PRParen(inField)
  }

  /** The states that read a type, src/blink_schema.c:1459-1642. */
  function StepType(p: Parser, tok: L.Token, inField: bool): Next
    requires InType(p.state, inField) && TypeInv(p, inField)
  {
    match p.state
    case PLParen(_) => StepLParen(p, tok, inField)
    case PLParenOptional(_) => StepLParenOptional(p, tok, inField)
    case PSize(_) => StepSize(p, tok, inField)
    case PRParen(_) => StepRParen(p, tok, inField)
    case PLBracket(_) => StepLBracket(p, tok, inField)
    case PRBracket(_) => StepRBracket(p, tok, inField)
    case PDynamic(_) => StepDynamic(p, tok, inField)
  }

  /** One step of the machine, src/blink_schema.c:727-1741. Its precondition is the invariant:
      no step follows a pointer that is not set. */
  function Step(p: Parser, tok: L.Token): Next
    requires Inv(p)
  {
    match p.state
    case PStart => StepStart(p, tok)
    case PNs => StepNs(p, tok)
    case PAny => StepAny(p, tok)
    case PDefOrAnnote => StepDefOrAnnote(p, tok)
    case PAnnote(of) => StepAnnote(p, tok, of)
    case PAnnoteValue(of) => StepAnnoteValue(p, tok, of)
    case PDefType => StepDefType(p, tok)
    case PEnumOrTypedef => StepEnumOrTypedef(p, tok)
    case PSymbolOrRef => StepSymbolOrRef(p, tok)
    case PTypedef => StepTypedef(p)
    case PEnum => StepEnum(p)
    case PEnumSingleton => StepEnum(p)
    case PGroupId => StepGroupId(p, tok)
    case PGroupSuper => StepGroupSuper(p, tok)
    case PGroupRArrow => StepGroupRArrow(p, tok)
    case PFieldOrAny => StepFieldOrAny(p, tok, false)
    case PSuperOrFieldOrAny => StepFieldOrAny(p, tok, true)
    case PField => StepField(p, tok)
    case PFieldType => StepFieldType(p, tok)
    case PLParen(inField) => StepType(p, tok, inField)
    case PLParenOptional(inField) => StepType(p, tok, inField)
    case PSize(inField) => StepType(p, tok, inField)
    case PRParen(inField) => StepType(p, tok, inField)
    case PLBracket(inField) => StepType(p, tok, inField)
    case PRBracket(inField) => StepType(p, tok, inField)
    case PDynamic(inField) => StepType(p, tok, inField)
    case PFieldNameAnnotes => StepFieldNameAnnotes(p, tok)
    case PFieldName => StepFieldName(p, tok)
    case PFieldNameSlash => StepFieldNameSlash(p, tok)
    case PFieldNameId => StepFieldNameId(p, tok)
    case PFieldOptional => StepFieldOptional(p, tok)
    case PFieldNext => StepFieldNext(p, tok)
    case PSymbol => StepSymbol(p)
    case PSymbolAnnotes => StepSymbolAnnotes(p, tok)
    case PSymbolName => StepSymbolName(p, tok)
    case PSymbolSlash => StepSymbolSlash(p, tok)
    case PSymbolValue => StepSymbolValue(p, tok)
    case PSymbolNext => StepSymbolNext(p, tok)
  }

  // ---------------------------------------------------------------- preservation

  /** What every step owes: the invariant; a lower rank if the token is looked at again; and
      an end of file that is used up is used up between definitions. */
  ghost predicate Kept(p: Parser, tok: L.Token, n: Next) {
    n.Go? ==>
      && Inv(n.p)
      && (!n.shift ==> Rank(n.p.state) < Rank(p.state))
      && (n.shift && tok.Eof? ==> n.p.state == PAny)
  }

  lemma StartKept(p: Parser, tok: L.Token)
    requires p.state.PStart? && Inv(p)
    ensures Kept(p, tok, StepStart(p, tok))
  {
    assert Sound([], None);
    NamespaceKept(p, []);
  }

  lemma NamespaceKept(p: Parser, name: Text)
    requires Sound(p.nss, None)
    ensures Closed(GetNamespace(p, name))
  {
    if Search(NamespaceNames(p.nss), name).None? { SoundAddNamespace(p.nss, name); }
  }

  lemma NsKept(p: Parser, tok: L.Token)
    requires p.state.PNs? && Inv(p)
    ensures Kept(p, tok, StepNs(p, tok))
  {
    hide Sound, GetNamespace;
    if tok.Name? { NamespaceKept(p, tok.text); }
  }

  lemma AnyKept(p: Parser, tok: L.Token)
    requires p.state.PAny? && Inv(p)
    ensures Kept(p, tok, StepAny(p, tok))
  {
    hide Sound;
  }

  lemma DefOrAnnoteKept(p: Parser, tok: L.Token)
    requires p.state.PDefOrAnnote? && Inv(p)
    ensures Kept(p, tok, StepDefOrAnnote(p, tok))
  {
    hide Sound;
  }

  /** Annotations touch neither the lists nor the pointers into them. */
  lemma SameOwner(p: Parser, q: Parser, of: Owner)
    requires OwnerInv(p, of) && q.nss == p.nss && q.ns == p.ns && q.g == p.g && q.f == p.f && q.e == p.e
    requires q.ty == p.ty && q.name == p.name
    ensures OwnerInv(q, of)
  {
    hide Sound;
  }

  lemma AnnoteKept(p: Parser, tok: L.Token, of: Owner)
    requires p.state == PAnnote(of) && Inv(p)
    ensures Kept(p, tok, StepAnnote(p, tok, of))
  {
    hide OwnerInv;
    var n := StepAnnote(p, tok, of);
    if n.Go? { SameOwner(p, n.p, of); }
  }

  lemma AnnoteSet(p: Parser, of: Owner)
    requires p.state == PAnnoteValue(of) && Inv(p)
    ensures OwnerInv(p, of) && InAnnote(p)
  {
  }

  lemma AnnoteValueKept(p: Parser, tok: L.Token, of: Owner)
    requires p.state == PAnnoteValue(of) && Inv(p)
    ensures Kept(p, tok, StepAnnoteValue(p, tok, of))
  {
    hide OwnerInv;
    AnnoteSet(p, of);
    hide Inv;
    var n := StepAnnoteValue(p, tok, of);
    if n.Go? {
      SameOwner(p, n.p, of);
      OwnerGoes(n.p, of);
    }
  }

  lemma OwnerGoes(q: Parser, of: Owner)
    requires OwnerInv(q, of) && q.state == AfterAnnote(of)
    ensures Inv(q)
  {
    hide Sound, Unnamed, Search;
  }

  lemma AddKept(p: Parser, d: Def)
    requires Fresh(p) && d.name == p.name.value && DefOk(d)
    ensures Closed(AddDef(p, d)) && Defs(AddDef(p, d)) == Defs(p) + [d] && AddDef(p, d).ns == p.ns
  {
    hide Sound;
    SoundAdd(p.nss, p.ns.value, d);
  }

  /** What the invariant says of the states that read a symbol. */
  lemma InvOfSymbol(p: Parser)
    ensures p.state.PSymbol? ==> Inv(p) == (EnumOpen(p) && p.name.Some?)
    ensures p.state.PSymbolAnnotes? || p.state.PSymbolName? ==> Inv(p) == EnumOpen(p)
    ensures p.state.PSymbolSlash? || p.state.PSymbolValue? ==> Inv(p) == SymbolOpen(p)
    ensures p.state.PSymbolNext? ==> Inv(p) == (Closed(p) && InSymbol(p))
  {
    hide EnumOpen, SymbolOpen, Closed;
  }

  lemma DefTypeKept(p: Parser, tok: L.Token)
    requires p.state.PDefType? && Inv(p)
    ensures Kept(p, tok, StepDefType(p, tok))
  {
    hide Inv, Kept, StepDefType, EndsGroupName;
    if EndsGroupName(tok) { GroupBegins(p, tok); } else { OtherBegins(p, tok); }
  }

  lemma GroupBegins(p: Parser, tok: L.Token)
    requires p.state.PDefType? && Inv(p) && EndsGroupName(tok)
    ensures Kept(p, tok, StepDefType(p, tok))
  {
    hide Sound, Search;
    if Search(DefNames(Defs(p)), p.name.value).None? {
      AddKept(p, Group(p.name.value, p.annotes, None, None, None, []));
    }
  }

  lemma OtherBegins(p: Parser, tok: L.Token)
    requires p.state.PDefType? && Inv(p) && !EndsGroupName(tok)
    ensures Kept(p, tok, StepDefType(p, tok))
  {
    hide Sound, Search, EndsGroupName;
  }

  lemma EnumOrTypedefKept(p: Parser, tok: L.Token)
    requires p.state.PEnumOrTypedef? && Inv(p)
    ensures Kept(p, tok, StepEnumOrTypedef(p, tok))
  {
    hide Sound, Search;
  }

  lemma SymbolOrRefKept(p: Parser, tok: L.Token)
    requires p.state.PSymbolOrRef? && Inv(p)
    ensures Kept(p, tok, StepSymbolOrRef(p, tok))
  {
    hide Sound, Search;
  }

  lemma TypedefKept(p: Parser, tok: L.Token)
    requires p.state.PTypedef? && Inv(p)
    ensures Kept(p, tok, StepTypedef(p))
  {
    hide Sound, Search;
    var t := TypeInfo(if p.laType.IRef? then p.laName.value else [], p.laAnnotes, p.laType, None, 0, false, false);
    AddKept(p, TypeDef(p.name.value, p.annotes, t));
  }

  lemma EnumKept(p: Parser, tok: L.Token)
    requires (p.state.PEnum? || p.state.PEnumSingleton?) && Inv(p)
    ensures Kept(p, tok, StepEnum(p))
  {
    hide Inv, Kept, StepEnum;
    if p.state.PEnum? { EnumBegins(p, tok); } else { SingletonBegins(p, tok); }
  }

  lemma EnumBegins(p: Parser, tok: L.Token)
    requires p.state.PEnum? && Inv(p)
    ensures Kept(p, tok, StepEnum(p))
  {
    hide Sound, Search;
    AddKept(p, Enum(p.name.value, p.annotes, []));
  }

  lemma SingletonBegins(p: Parser, tok: L.Token)
    requires p.state.PEnumSingleton? && Inv(p)
    ensures Kept(p, tok, StepEnum(p))
  {
    hide Sound, Search;
    AddKept(p, Enum(p.name.value, p.annotes, []));
  }

  /** Rewriting the newest definition of the current namespace. */
  lemma PutKept(p: Parser, open: Option<nat>, d: Def, open': bool)
    requires InNamespace(p) && Defs(p) != [] && Sound(p.nss, open) && (open.Some? ==> open == p.ns)
    requires d.name == Last(p).name && (!open' ==> DefOk(d))
    ensures var q := PutDef(p, Ref(p.ns.value, |Defs(p)| - 1), d);
            && Sound(q.nss, if open' then p.ns else None) && InNamespace(q)
            && Defs(q) == Defs(p)[|Defs(p)| - 1 := d] && Last(q) == d
  {
    hide Sound, DefOk;
    SoundPut(p.nss, open, p.ns.value, d, open');
  }

  lemma LastOk(p: Parser)
    requires Closed(p) && Defs(p) != []
    ensures DefOk(Last(p))
  {
    assert NsSound(p.nss[p.ns.value], false);
  }

  lemma GroupIdKept(p: Parser, tok: L.Token)
    requires p.state.PGroupId? && Inv(p)
    ensures Kept(p, tok, StepGroupId(p, tok))
  {
    hide Sound;
    LastOk(p);
    if tok.Uint? { PutKept(p, None, Last(p).(id := Some(tok.number)), false); }
  }

  lemma GroupSuperKept(p: Parser, tok: L.Token)
    requires p.state.PGroupSuper? && Inv(p)
    ensures Kept(p, tok, StepGroupSuper(p, tok))
  {
    hide Sound;
    LastOk(p);
    if tok.Name? || tok.CName? { PutKept(p, None, Last(p).(superName := Some(tok.text)), false); }
  }

  lemma GroupRArrowKept(p: Parser, tok: L.Token)
    requires p.state.PGroupRArrow? && Inv(p)
    ensures Kept(p, tok, StepGroupRArrow(p, tok))
  {
    hide Sound;
  }

  lemma FieldOrAnyKept(p: Parser, tok: L.Token, super: bool)
    requires p.state == (if super then PSuperOrFieldOrAny else PFieldOrAny) && Inv(p)
    ensures Kept(p, tok, StepFieldOrAny(p, tok, super))
  {
    hide Sound;
  }

  lemma FieldStartKept(p: Parser, tok: L.Token)
    requires p.state.PField? && Inv(p)
    ensures Kept(p, tok, StepField(p, tok))
  {
    hide Sound, NoLaterPrefix;
    LastOk(p);
    var d := Last(p);
    var d' := d.(fields := d.fields + [Field(None, [], NO_TYPE, false)]);
    assert Unnamed(d') by { NamelessTail(d.fields, Field(None, [], NO_TYPE, false)); }
    PutKept(p, None, d', true);
  }

  lemma NamelessTail(fields: seq<Field>, f: Field)
    requires NoLaterPrefix(FieldNames(fields)) && f.name.None?
    ensures NoLaterPrefix(FieldNames(fields + [f]))
  {
    assert FieldNames(fields + [f]) == FieldNames(fields) + [None];
  }

  /** Changing the newest field without naming it. */
  lemma FieldPutKept(p: Parser, f: Field)
    requires FieldUnnamed(p) && f.name.None?
    ensures FieldUnnamed(PutField(p, f))
  {
    hide Sound, NoLaterPrefix;
    var d := Last(p);
    var d' := d.(fields := d.fields[|d.fields| - 1 := f]);
    assert FieldNames(d'.fields) == FieldNames(d.fields);
    PutKept(p, p.ns, d', true);
  }

  lemma TypePutKept(p: Parser, t: TypeInfo, inField: bool)
    requires TypeInv(p, inField)
    ensures p.ty.Some? && TypeInv(PutType(p, t), inField) && PutType(p, t).state == p.state
  {
    hide Sound, Unnamed;
    if inField {
      assert CurrentField(p).name.None? by { UnnamedLast(p); }
      FieldPutKept(p, CurrentField(p).(ty := t));
    } else {
      PutKept(p, None, RetypeDef(Last(p), t), false);
    }
  }

  lemma UnnamedLast(p: Parser)
    requires FieldUnnamed(p)
    ensures CurrentField(p).name.None?
  {
    hide Sound;
  }

  /** Neither annotations nor the state matter to a type under construction. */
  lemma SameType(p: Parser, q: Parser, inField: bool)
    requires TypeInv(p, inField) && q.nss == p.nss && q.ns == p.ns && q.g == p.g && q.f == p.f && q.ty == p.ty
    ensures TypeInv(q, inField)
  {
    hide Sound, Unnamed;
  }

  lemma TypePtrSet(p: Parser, inField: bool)
    requires TypeInv(p, inField)
    ensures p.ty.Some? && (InField(p) || InTypedef(p)) && (inField ==> InField(p))
  {
    hide Sound, Unnamed;
  }

  lemma TypeIntro(p: Parser, t: TypeInfo, inField: bool, state: State)
    requires TypeInv(p, inField)
    ensures p.ty.Some? && (InField(p) || InTypedef(p)) && TypeInv(PutType(p, t).(state := state), inField)
  {
    TypePtrSet(p, inField);
    hide TypeInv, PutType;
    TypePutKept(p, t, inField);
    SameType(PutType(p, t), PutType(p, t).(state := state), inField);
  }

  /** The type a field gets from its type token, and the state that follows. */
  lemma FieldTypeGoes(p: Parser, tok: L.Token) returns (t: TypeInfo)
    requires InField(p) && InField(p.(annotes := [])) && StepFieldType(p, tok).Go?
    ensures var n, q := StepFieldType(p, tok), p.(annotes := []);
            && n.p == PutType(q, t).(state := n.p.state) && n.shift && !tok.Eof?
            && (InType(n.p.state, true) || n.p.state == PFieldNameAnnotes)
  {
    hide PutType;
    t := CurrentType(p).(notes := p.annotes);
    t := if ITypeOf(tok).Some? then t.(tag := ITypeOf(tok).value) else t.(name := tok.text, tag := IRef);
  }

  lemma FieldTypeKept(p: Parser, tok: L.Token)
    requires p.state.PFieldType? && Inv(p)
    ensures Kept(p, tok, StepFieldType(p, tok))
  {
    var q := p.(annotes := []);
    assert TypeInv(p, true);
    SameType(p, q, true);
    TypePtrSet(q, true);
    TypePtrSet(p, true);
    hide PutType, FieldUnnamed, StepFieldType;
    var n := StepFieldType(p, tok);
    if n.Go? {
      var t := FieldTypeGoes(p, tok);
      TypeIntro(q, t, true, n.p.state);
      TypeGoes(n.p, true);
    }
  }

  /** Leaving a type, or moving on within it, keeps the invariant of the state entered. */
  lemma TypeGoes(q: Parser, inField: bool)
    requires TypeInv(q, inField) && (InType(q.state, inField) || q.state == AfterType(inField))
    ensures Inv(q)
  {
    hide Sound, Unnamed;
  }

  lemma TypeStateKept(p: Parser, tok: L.Token, inField: bool)
    requires InType(p.state, inField) && TypeInv(p, inField)
    ensures Kept(p, tok, StepType(p, tok, inField))
  {
    hide TypeInv, Inv, StepType;
    TypeMoves(p, tok, inField);
    var n := StepType(p, tok, inField);
    if n.Go? {
      TypeGoes(n.p, inField);
    }
  }

  /** A step within a type rewrites the type, or nothing, and moves on. */
  ghost predicate Moved(p: Parser, tok: L.Token, n: Next, inField: bool) {
    n.Go? ==>
      && TypeInv(n.p, inField)
      && (InType(n.p.state, inField) || (n.p.state == AfterType(inField) && !(n.shift && tok.Eof?)))
      && (n.shift ==> tok.Keyword? || tok.Uint?)
      && (!n.shift ==> Rank(n.p.state) < Rank(p.state))
  }

  lemma TypeMoves(p: Parser, tok: L.Token, inField: bool)
    requires InType(p.state, inField) && TypeInv(p, inField)
    ensures Moved(p, tok, StepType(p, tok, inField), inField)
  {
    TypePtrSet(p, inField);
    hide TypeInv, PutType, Moved, StepType;
    match p.state
    case PDynamic(_) => DynamicMoves(p, tok, inField);
    case PRBracket(_) => RBracketMoves(p, tok, inField);
    case PLParenOptional(_) => LParenOptionalMoves(p, tok, inField);
    case PSize(_) => SizeMoves(p, tok, inField);
    case PLBracket(_) => PlainMoves(p, tok, inField);
    case PLParen(_) => PlainMoves(p, tok, inField);
    case PRParen(_) => PlainMoves(p, tok, inField);
  }

  lemma DynamicMoves(p: Parser, tok: L.Token, inField: bool)
    requires p.state == PDynamic(inField) && TypeInv(p, inField) && p.ty.Some? && (InField(p) || InTypedef(p))
    ensures Moved(p, tok, StepType(p, tok, inField), inField)
  {
    hide TypeInv, PutType, CurrentType;
    if tok == L.Keyword(L.KStar) {
      TypeIntro(p, CurrentType(p).(isDynamic := true), inField, p.state);
    } else {
      SameType(p, p.(state := PLBracket(inField)), inField);
    }
  }

  lemma RBracketMoves(p: Parser, tok: L.Token, inField: bool)
    requires p.state == PRBracket(inField) && TypeInv(p, inField) && p.ty.Some? && (InField(p) || InTypedef(p))
    ensures Moved(p, tok, StepType(p, tok, inField), inField)
  {
    hide TypeInv, PutType;
    TypeIntro(p, CurrentType(p).(isSequence := true), inField, AfterType(inField));
  }

  lemma LParenOptionalMoves(p: Parser, tok: L.Token, inField: bool)
    requires p.state == PLParenOptional(inField) && TypeInv(p, inField) && p.ty.Some? && (InField(p) || InTypedef(p))
    ensures Moved(p, tok, StepType(p, tok, inField), inField)
  {
    hide TypeInv, PutType;
    SameType(p, p.(state := PSize(inField)), inField);
    TypeIntro(p, CurrentType(p).(size := UINT32_MAX), inField, AfterType(inField));
  }

  lemma SizeMoves(p: Parser, tok: L.Token, inField: bool)
    requires p.state == PSize(inField) && TypeInv(p, inField) && p.ty.Some? && (InField(p) || InTypedef(p))
    ensures Moved(p, tok, StepType(p, tok, inField), inField)
  {
    hide TypeInv, PutType;
    if tok.Uint? && tok.number <= UINT32_MAX {
      TypeIntro(p, CurrentType(p).(size := tok.number), inField, AfterType(inField));
    }
  }

  lemma PlainMoves(p: Parser, tok: L.Token, inField: bool)
    requires p.state == PLBracket(inField) || p.state == PLParen(inField) || p.state == PRParen(inField)
    requires TypeInv(p, inField)
    ensures Moved(p, tok, StepType(p, tok, inField), inField)
  {
    hide TypeInv;
    SameType(p, p.(state := PRBracket(inField)), inField);
    SameType(p, p.(state := PSize(inField)), inField);
    SameType(p, p.(state := AfterType(inField)), inField);
  }

  lemma FieldNameAnnotesKept(p: Parser, tok: L.Token)
    requires p.state.PFieldNameAnnotes? && Inv(p)
    ensures Kept(p, tok, StepFieldNameAnnotes(p, tok))
  {
    hide Sound, Unnamed;
  }

  lemma FieldNameKept(p: Parser, tok: L.Token)
    requires p.state.PFieldName? && Inv(p)
    ensures Kept(p, tok, StepFieldName(p, tok))
  {
    hide Sound, NoLaterPrefix, Search;
    var d := Last(p);
    if tok.Name? && Search(FieldNames(d.fields), tok.text).None? {
      var f := CurrentField(p).(name := Some(tok.text), notes := p.annotes);
      var d' := d.(fields := d.fields[|d.fields| - 1 := f]);
      NamedTail(d.fields, f);
      PutKept(p, p.ns, d', false);
    }
  }

  lemma NamedTail(fields: seq<Field>, f: Field)
    requires fields != [] && NoLaterPrefix(FieldNames(fields)) && f.name.Some?
    requires Search(FieldNames(fields), f.name.value) == None
    ensures NoLaterPrefix(FieldNames(fields[|fields| - 1 := f]))
  {
    SearchFirst(FieldNames(fields), f.name.value);
    var names, names' := FieldNames(fields), FieldNames(fields[|fields| - 1 := f]);
    assert forall i :: 0 <= i < |names| - 1 ==> names'[i] == names[i];
  }

  lemma FieldIdKept(p: Parser, tok: L.Token)
    requires (p.state.PFieldNameSlash? || p.state.PFieldNameId?) && Inv(p)
    ensures p.state.PFieldNameSlash? ==> Kept(p, tok, StepFieldNameSlash(p, tok))
    ensures p.state.PFieldNameId? ==> Kept(p, tok, StepFieldNameId(p, tok))
  {
    hide Sound;
  }

  lemma FieldNextKept(p: Parser, tok: L.Token)
    requires p.state.PFieldNext? && Inv(p)
    ensures Kept(p, tok, StepFieldNext(p, tok))
  {
    hide Sound;
  }

  lemma FieldOptionalKept(p: Parser, tok: L.Token)
    requires p.state.PFieldOptional? && Inv(p)
    ensures Kept(p, tok, StepFieldOptional(p, tok))
  {
    hide Inv, Kept, StepFieldOptional;
    if tok == L.Keyword(L.KQuestion) { OptionalKept(p, tok); } else { MandatoryKept(p, tok); }
  }

  lemma OptionalKept(p: Parser, tok: L.Token)
    requires p.state.PFieldOptional? && Inv(p) && tok == L.Keyword(L.KQuestion)
    ensures Kept(p, tok, StepFieldOptional(p, tok))
  {
    hide Sound, PutField, CurrentField;
    OptionalSet(p);
  }

  lemma OptionalSet(p: Parser)
    requires FieldNamed(p)
    ensures var q := PutField(p, CurrentField(p).(isOptional := true)).(state := PFieldNext); FieldNamed(q)
  {
    hide Sound, NoLaterPrefix;
    LastOk(p);
    var d := Last(p);
    var f := CurrentField(p).(isOptional := true);
    var d' := d.(fields := d.fields[|d.fields| - 1 := f]);
    assert FieldNames(d'.fields) == FieldNames(d.fields);
    PutKept(p, None, d', false);
  }

  lemma MandatoryKept(p: Parser, tok: L.Token)
    requires p.state.PFieldOptional? && Inv(p) && tok != L.Keyword(L.KQuestion)
    ensures Kept(p, tok, StepFieldOptional(p, tok))
  {
    hide Sound;
  }

  lemma SymbolStartKept(p: Parser, tok: L.Token)
    requires p.state.PSymbol? && Inv(p)
    ensures Kept(p, tok, StepSymbol(p))
  {
    hide Inv, Sound, Valueless, Search;
    InvOfSymbol(p);
    if StepSymbol(p).Go? {
      SymbolAdded(p);
      InvOfSymbol(StepSymbol(p).p);
    }
  }

  lemma SymbolAdded(p: Parser)
    requires EnumOpen(p) && p.name.Some? && StepSymbol(p).Go?
    ensures SymbolOpen(StepSymbol(p).p)
  {
    hide Sound, NoLaterPrefix, Search;
    LastOk(p);
    var d := Last(p);
    var s := Symbol(p.name.value, p.annotes, 0);
    AppendUnfound(SymbolNames(d.symbols), s.name);
    assert SymbolNames(d.symbols + [s]) == SymbolNames(d.symbols) + [Some(s.name)];
    assert (d.symbols + [s])[..|d.symbols|] == d.symbols;
    PutKept(p, None, Enum(d.name, d.notes, d.symbols + [s]), true);
  }

  /** Giving the newest symbol a value above its predecessor's. */
  lemma ValueKept(p: Parser, v: int32)
    requires SymbolOpen(p) && (p.s.value > 0 ==> Last(p).symbols[p.s.value - 1].value < v)
    ensures Closed(SetValue(p, v)) && InSymbol(SetValue(p, v))
  {
    hide Sound, NoLaterPrefix;
    var d := Last(p);
    var n := |d.symbols| - 1;
    var symbols := d.symbols[n := d.symbols[n].(value := v)];
    assert SymbolNames(symbols) == SymbolNames(d.symbols);
    forall i, j | 0 <= i < j < |symbols| ensures symbols[i].value < symbols[j].value {
      if j < n { assert d.symbols[..n][i].value < d.symbols[..n][j].value; }
      else if i < n - 1 { assert d.symbols[..n][i].value < d.symbols[..n][n - 1].value; }
    }
    PutKept(p, p.ns, Enum(d.name, d.notes, symbols), false);
  }

  lemma SymbolSlashKept(p: Parser, tok: L.Token)
    requires p.state.PSymbolSlash? && Inv(p)
    ensures Kept(p, tok, StepSymbolSlash(p, tok))
  {
    InvOfSymbol(p);
    hide Inv, Kept, StepSymbolSlash, Sound, Valueless;
    if tok == L.Keyword(L.KSlash) { ValueGiven(p, tok); } else { ValueCounted(p, tok); }
  }

  lemma ValueGiven(p: Parser, tok: L.Token)
    requires p.state.PSymbolSlash? && SymbolOpen(p) && tok == L.Keyword(L.KSlash)
    ensures Kept(p, tok, StepSymbolSlash(p, tok))
  {
    hide Inv, Sound, Valueless, SetValue;
    InvOfSymbol(p.(state := PSymbolValue));
  }

  lemma ValueCounted(p: Parser, tok: L.Token)
    requires p.state.PSymbolSlash? && SymbolOpen(p) && tok != L.Keyword(L.KSlash)
    ensures Kept(p, tok, StepSymbolSlash(p, tok))
  {
    hide Inv, Sound, NoLaterPrefix, SetValue, Valueless;
    if p.s.value == 0 {
      FirstSymbol(p);
      InvOfSymbol(p.(state := PSymbolNext));
    } else {
      var previous := Last(p).symbols[p.s.value - 1].value;
      if previous < INT32_MAX {
        ValueKept(p, previous + 1);
        InvOfSymbol(SetValue(p, previous + 1).(state := PSymbolNext));
      }
    }
  }

  /** A single symbol is in order with whatever value it has. */
  lemma FirstSymbol(p: Parser)
    requires SymbolOpen(p) && p.s.value == 0
    ensures Sound(p.nss, None)
  {
    hide Sound, NoLaterPrefix;
    var d := Last(p);
    PutKept(p, p.ns, d, false);
    assert Defs(p)[|Defs(p)| - 1 := d] == Defs(p);
    assert PutDef(p, Ref(p.ns.value, |Defs(p)| - 1), d).nss == p.nss;
  }

  lemma SymbolValueKept(p: Parser, tok: L.Token)
    requires p.state.PSymbolValue? && Inv(p)
    ensures Kept(p, tok, StepSymbolValue(p, tok))
  {
    InvOfSymbol(p);
    hide Inv, Sound, NoLaterPrefix, SetValue, Valueless;
    var n := StepSymbolValue(p, tok);
    if n.Go? {
      InvOfSymbol(n.p);
      var v: int := if tok.Uint? then tok.number else tok.signedNumber;
      ValueKept(p, v);
    }
  }

  lemma SymbolAnnotesKept(p: Parser, tok: L.Token)
    requires p.state.PSymbolAnnotes? && Inv(p)
    ensures Kept(p, tok, StepSymbolAnnotes(p, tok))
  {
    hide Sound;
  }

  lemma SymbolNameKept(p: Parser, tok: L.Token)
    requires p.state.PSymbolName? && Inv(p)
    ensures Kept(p, tok, StepSymbolName(p, tok))
  {
    hide Sound;
  }

  lemma SymbolNextKept(p: Parser, tok: L.Token)
    requires p.state.PSymbolNext? && Inv(p)
    ensures Kept(p, tok, StepSymbolNext(p, tok))
  {
    hide Sound;
  }

  lemma TypeInvOf(p: Parser, inField: bool)
    requires InType(p.state, inField) && Inv(p)
    ensures TypeInv(p, inField)
  {
    hide Sound, Unnamed;
  }

  lemma TypeStepKept(p: Parser, tok: L.Token, inField: bool)
    requires InType(p.state, inField) && Inv(p)
    ensures TypeInv(p, inField) && Kept(p, tok, StepType(p, tok, inField))
  {
    hide Inv, Kept, StepType;
    TypeInvOf(p, inField);
    TypeStateKept(p, tok, inField);
  }

  /** The states that read a type. */
  predicate OfType(s: State) {
    || s.PLParen?
    || s.PLParenOptional?
    || s.PSize?
    || s.PRParen?
    || s.PLBracket?
    || s.PRBracket?
    || s.PDynamic?
  }

  /** The other states from the type of a field or the first symbol on. */
  predicate InDetail(s: State) {
    || s.PFieldType?
    || s.PFieldNameAnnotes?
    || s.PFieldName?
    || s.PFieldNameSlash?
    || s.PFieldNameId?
    || s.PFieldOptional?
    || s.PFieldNext?
    || s.PSymbol?
    || s.PSymbolAnnotes?
    || s.PSymbolName?
    || s.PSymbolSlash?
    || s.PSymbolValue?
    || s.PSymbolNext?
  }

  lemma OutlineKept(p: Parser, tok: L.Token)
    requires Inv(p) && !InDetail(p.state) && !OfType(p.state)
    ensures Kept(p, tok, Step(p, tok))
  {
    hide Kept, Inv, StepType;
    hide StepStart, StepNs, StepAny, StepDefOrAnnote, StepAnnote, StepAnnoteValue, StepDefType, StepEnumOrTypedef;
    hide StepSymbolOrRef, StepTypedef, StepEnum, StepGroupId, StepGroupSuper, StepField, StepFieldType;
    hide StepFieldNameAnnotes, StepFieldName, StepFieldNameSlash, StepFieldNameId, StepFieldNext, StepGroupRArrow,
         StepFieldOrAny;
    hide StepSymbolAnnotes, StepSymbolName, StepSymbolNext, StepFieldOptional, StepSymbol, StepSymbolSlash,
         StepSymbolValue;
    match p.state
    case PStart => StartKept(p, tok);
    case PNs => NsKept(p, tok);
    case PAny => AnyKept(p, tok);
    case PDefOrAnnote => DefOrAnnoteKept(p, tok);
    case PAnnote(of) => AnnoteKept(p, tok, of);
    case PAnnoteValue(of) => AnnoteValueKept(p, tok, of);
    case PDefType => DefTypeKept(p, tok);
    case PEnumOrTypedef => EnumOrTypedefKept(p, tok);
    case PSymbolOrRef => SymbolOrRefKept(p, tok);
    case PTypedef => TypedefKept(p, tok);
    case PEnum => EnumKept(p, tok);
    case PEnumSingleton => EnumKept(p, tok);
    case PGroupId => GroupIdKept(p, tok);
    case PGroupSuper => GroupSuperKept(p, tok);
    case PGroupRArrow => GroupRArrowKept(p, tok);
    case PFieldOrAny => FieldOrAnyKept(p, tok, false);
    case PSuperOrFieldOrAny => FieldOrAnyKept(p, tok, true);
    case PField => FieldStartKept(p, tok);
  }

  lemma DetailKept(p: Parser, tok: L.Token)
    requires Inv(p) && InDetail(p.state)
    ensures Kept(p, tok, Step(p, tok))
  {
    hide Kept, Inv, StepType;
    hide StepStart, StepNs, StepAny, StepDefOrAnnote, StepAnnote, StepAnnoteValue, StepDefType, StepEnumOrTypedef;
    hide StepSymbolOrRef, StepTypedef, StepEnum, StepGroupId, StepGroupSuper, StepField, StepFieldType;
    hide StepFieldNameAnnotes, StepFieldName, StepFieldNameSlash, StepFieldNameId, StepFieldNext, StepGroupRArrow,
         StepFieldOrAny;
    hide StepSymbolAnnotes, StepSymbolName, StepSymbolNext, StepFieldOptional, StepSymbol, StepSymbolSlash,
         StepSymbolValue;
    match p.state
    case PFieldType => FieldTypeKept(p, tok);
    case PFieldNameAnnotes => FieldNameAnnotesKept(p, tok);
    case PFieldName => FieldNameKept(p, tok);
    case PFieldNameSlash => FieldIdKept(p, tok);
    case PFieldNameId => FieldIdKept(p, tok);
    case PFieldOptional => FieldOptionalKept(p, tok);
    case PFieldNext => FieldNextKept(p, tok);
    case PSymbol => SymbolStartKept(p, tok);
    case PSymbolAnnotes => SymbolAnnotesKept(p, tok);
    case PSymbolName => SymbolNameKept(p, tok);
    case PSymbolSlash => SymbolSlashKept(p, tok);
    case PSymbolValue => SymbolValueKept(p, tok);
    case PSymbolNext => SymbolNextKept(p, tok);
  }

  lemma TypeKept(p: Parser, tok: L.Token)
    requires Inv(p) && OfType(p.state)
    ensures Kept(p, tok, Step(p, tok))
  {
    hide Kept, Inv, Step, StepType, InType, OfType;
    TypeStates(p.state);
    TypeStepKept(p, tok, p.state.inField);
    StepIsType(p, tok);
  }

  lemma TypeStates(s: State)
    ensures OfType(s) ==> InType(s, s.inField)
  {
  }

  lemma StepIsType(p: Parser, tok: L.Token)
    requires Inv(p) && OfType(p.state) && InType(p.state, p.state.inField) && TypeInv(p, p.state.inField)
    ensures Step(p, tok) == StepType(p, tok, p.state.inField)
  {
    hide Inv, StepType, TypeInv, InType;
  }

  /** Every step of every run keeps the invariant and, when it does not use up its token,
      lowers the rank. */
  lemma StepKept(p: Parser, tok: L.Token)
    requires Inv(p)
    ensures Kept(p, tok, Step(p, tok))
  {
    hide Kept, Inv, Step, InDetail, OfType;
    if InDetail(p.state) { DetailKept(p, tok); }
    else if OfType(p.state) { TypeKept(p, tok); }
    else { OutlineKept(p, tok); }
  }
}
