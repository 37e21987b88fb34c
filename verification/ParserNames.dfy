/** Two things a run keeps besides its invariant: only name tokens become names of namespaces,
    and those hold no colon; and no supergroup is bound before references are resolved. */
module ParserNames {
  import opened Base
  import opened Schema
  import opened Parser
  import opened ParserInvariant
  import SchemaParser
  import L = Lexer

  ghost predicate ColonFree(nss: Namespaces) {
    forall i :: 0 <= i < |nss| ==> L.COLON !in nss[i].name
  }

  /** Same namespaces by name, in the same order. */
  ghost predicate SameNamespaces(nss: Namespaces, nss': Namespaces) {
    |nss'| == |nss| && forall i :: 0 <= i < |nss| ==> nss'[i].name == nss[i].name
  }

  lemma PutFieldNames(p: Parser, f: Field)
    requires InField(p)
    ensures SameNamespaces(p.nss, PutField(p, f).nss)
  {
  }

  lemma PutTypeNames(p: Parser, t: TypeInfo)
    requires p.ty.Some? && (InField(p) || InTypedef(p))
    ensures SameNamespaces(p.nss, PutType(p, t).nss)
  {
  }

  lemma TypeStepNames(p: Parser, tok: L.Token, inField: bool)
    requires InType(p.state, inField) && TypeInv(p, inField)
    ensures var n := StepType(p, tok, inField); n.Go? ==> SameNamespaces(p.nss, n.p.nss)
  {
    hide PutType, Sound, Unnamed, SameNamespaces, CurrentType;
    SameAsItself(p.nss);
    PutTypeNames(p, CurrentType(p).(isDynamic := true));
    PutTypeNames(p, CurrentType(p).(isSequence := true));
    PutTypeNames(p, CurrentType(p).(size := UINT32_MAX));
    if tok.Uint? && tok.number <= UINT32_MAX { PutTypeNames(p, CurrentType(p).(size := tok.number)); }
  }

  predicate AboutSymbols(s: State) {
    s.PSymbol? || s.PSymbolSlash? || s.PSymbolValue?
  }

  lemma SymbolStepNames(p: Parser, tok: L.Token)
    requires Inv(p) && AboutSymbols(p.state)
    ensures var n := Step(p, tok); n.Go? ==> SameNamespaces(p.nss, n.p.nss)
  {
    hide Inv, Step;
    match p.state
    case PSymbol => NewSymbolNames(p, tok);
    case PSymbolSlash => SlashNames(p, tok);
    case PSymbolValue => ValueNames(p, tok);
  }

  lemma NewSymbolNames(p: Parser, tok: L.Token)
    requires Inv(p) && p.state.PSymbol?
    ensures var n := Step(p, tok); n.Go? ==> SameNamespaces(p.nss, n.p.nss)
  {
    hide Sound, Search;
  }

  lemma SlashNames(p: Parser, tok: L.Token)
    requires Inv(p) && p.state.PSymbolSlash?
    ensures var n := Step(p, tok); n.Go? ==> SameNamespaces(p.nss, n.p.nss)
  {
    hide Sound, Valueless;
  }

  lemma ValueNames(p: Parser, tok: L.Token)
    requires Inv(p) && p.state.PSymbolValue?
    ensures var n := Step(p, tok); n.Go? ==> SameNamespaces(p.nss, n.p.nss)
  {
    hide Sound, Valueless;
  }

  predicate AboutFields(s: State) {
    s.PGroupId? || s.PGroupSuper? || s.PField? || s.PFieldType? || s.PFieldName? || s.PFieldOptional?
  }

  lemma GroupStepNames(p: Parser, tok: L.Token)
    requires Inv(p) && (p.state.PGroupId? || p.state.PGroupSuper? || p.state.PField?)
    ensures var n := Step(p, tok); n.Go? ==> SameNamespaces(p.nss, n.p.nss)
  {
    hide Sound, Unnamed;
  }

  lemma FieldStepNames(p: Parser, tok: L.Token)
    requires Inv(p) && (p.state.PFieldName? || p.state.PFieldOptional?)
    ensures var n := Step(p, tok); n.Go? ==> SameNamespaces(p.nss, n.p.nss)
  {
    hide Inv, Step;
    if p.state.PFieldName? { FieldNameNames(p, tok); } else { OptionalNames(p, tok); }
  }

  lemma FieldNameNames(p: Parser, tok: L.Token)
    requires Inv(p) && p.state.PFieldName?
    ensures var n := Step(p, tok); n.Go? ==> SameNamespaces(p.nss, n.p.nss)
  {
    hide Sound, Search, PutField, SameNamespaces, Unnamed;
    if tok.Name? { PutFieldNames(p, CurrentField(p).(name := Some(tok.text), notes := p.annotes)); }
  }

  lemma OptionalNames(p: Parser, tok: L.Token)
    requires Inv(p) && p.state.PFieldOptional?
    ensures var n := Step(p, tok); n.Go? ==> SameNamespaces(p.nss, n.p.nss)
  {
    hide Sound, PutField, SameNamespaces, CurrentField;
    if tok == L.Keyword(L.KQuestion) { PutFieldNames(p, CurrentField(p).(isOptional := true)); }
    else { SameAsItself(p.nss); }
  }

  lemma SameAsItself(nss: Namespaces)
    ensures SameNamespaces(nss, nss)
  {
  }

  lemma FieldTypeStepNames(p: Parser, tok: L.Token)
    requires Inv(p) && p.state.PFieldType?
    ensures var n := Step(p, tok); n.Go? ==> SameNamespaces(p.nss, n.p.nss)
  {
    hide Sound, SameNamespaces, PutType, Unnamed;
    var t := CurrentType(p).(notes := p.annotes);
    var q := p.(annotes := []);
    if ITypeOf(tok).Some? { PutTypeNames(q, t.(tag := ITypeOf(tok).value)); }
    if tok.Name? || tok.CName? { PutTypeNames(q, t.(name := tok.text, tag := IRef)); }
  }

  lemma DefStepNames(p: Parser, tok: L.Token)
    requires Inv(p) && (p.state.PDefType? || p.state.PTypedef? || p.state.PEnum? || p.state.PEnumSingleton?)
    ensures var n := Step(p, tok); n.Go? ==> SameNamespaces(p.nss, n.p.nss)
  {
    hide Inv, Step;
    match p.state
    case PDefType => DefTypeNames(p, tok);
    case PTypedef => TypedefNames(p, tok);
    case PEnum => EnumNames(p, tok);
    case PEnumSingleton => EnumNames(p, tok);
  }

  lemma DefTypeNames(p: Parser, tok: L.Token)
    requires Inv(p) && p.state.PDefType?
    ensures var n := Step(p, tok); n.Go? ==> SameNamespaces(p.nss, n.p.nss)
  {
    hide Sound, Search;
  }

  lemma TypedefNames(p: Parser, tok: L.Token)
    requires Inv(p) && p.state.PTypedef?
    ensures var n := Step(p, tok); n.Go? ==> SameNamespaces(p.nss, n.p.nss)
  {
    hide Sound, Search;
  }

  lemma EnumNames(p: Parser, tok: L.Token)
    requires Inv(p) && (p.state.PEnum? || p.state.PEnumSingleton?)
    ensures var n := Step(p, tok); n.Go? ==> SameNamespaces(p.nss, n.p.nss)
  {
    hide Sound, Search;
  }

  predicate NamesNamespace(s: State) {
    s.PStart? || s.PNs?
  }

  predicate Builds(s: State) {
    AboutSymbols(s) || AboutFields(s) || s.PDefType? || s.PTypedef? || s.PEnum? || s.PEnumSingleton?
  }

  /** The remaining states leave the schema alone. */
  lemma QuietStep(p: Parser, tok: L.Token)
    requires Inv(p) && !NamesNamespace(p.state) && !Builds(p.state) && !InType(p.state, true) && !InType(p.state, false)
    ensures var n := Step(p, tok); n.Go? ==> n.p.nss == p.nss
  {
    hide Inv, TypeInv, OwnerInv, Search;
  }

  /** No step gives a namespace a name with a colon in it. */
  lemma StepColonFree(p: Parser, tok: L.Token)
    requires Inv(p) && ColonFree(p.nss) && (tok.Name? ==> L.COLON !in tok.text)
    ensures Step(p, tok).Go? ==> ColonFree(Step(p, tok).p.nss)
  {
    hide Inv, Step, TypeInv, StepType;
    if AboutSymbols(p.state) { SymbolStepNames(p, tok); }
    else if p.state.PFieldName? || p.state.PFieldOptional? { FieldStepNames(p, tok); }
    else if p.state.PFieldType? { FieldTypeStepNames(p, tok); }
    else if AboutFields(p.state) { GroupStepNames(p, tok); }
    else if Builds(p.state) { DefStepNames(p, tok); }
    else if InType(p.state, true) { InTypeStepNames(p, tok, true); }
    else if InType(p.state, false) { InTypeStepNames(p, tok, false); }
    else if NamesNamespace(p.state) { NamespaceStep(p, tok); }
    else { QuietStep(p, tok); }
  }

  lemma InTypeStepNames(p: Parser, tok: L.Token, inField: bool)
    requires Inv(p) && InType(p.state, inField)
    ensures var n := Step(p, tok); n.Go? ==> SameNamespaces(p.nss, n.p.nss)
  {
    hide Inv, Step, StepType, TypeInv;
    TypeInvOf(p, inField);
    StepIsType(p, tok);
    TypeStepNames(p, tok, inField);
  }

  lemma NamespaceStep(p: Parser, tok: L.Token)
    requires Inv(p) && ColonFree(p.nss) && (tok.Name? ==> L.COLON !in tok.text) && NamesNamespace(p.state)
    ensures Step(p, tok).Go? ==> ColonFree(Step(p, tok).p.nss)
  {
    hide Sound, Search;
  }

  // ------------------------------------------------------------ nothing is bound yet

  ghost predicate Unbound(nss: Namespaces) {
    forall i, j :: 0 <= i < |nss| && 0 <= j < |nss[i].defs| ==> DefUnbound(nss[i].defs[j])
  }

  ghost predicate DefUnbound(d: Def) {
    d.Group? ==> d.super.None?
  }

  lemma PutDefUnbound(p: Parser, r: Ref, d: Def)
    requires ValidRef(p.nss, r) && Unbound(p.nss) && DefUnbound(d)
    ensures Unbound(PutDef(p, r, d).nss)
  {
    hide DefUnbound;
  }

  lemma PutFieldUnbound(p: Parser, f: Field)
    requires InField(p) && Unbound(p.nss)
    ensures Unbound(PutField(p, f).nss)
  {
    var d := DefAt(p.nss, p.g.value);
    assert DefUnbound(d);
    PutDefUnbound(p, p.g.value, d.(fields := d.fields[p.f.value := f]));
  }

  lemma PutTypeUnbound(p: Parser, t: TypeInfo)
    requires p.ty.Some? && (InField(p) || InTypedef(p)) && Unbound(p.nss)
    ensures Unbound(PutType(p, t).nss)
  {
    hide PutField;
    match p.ty.value
    case FieldType(g, i) => PutFieldUnbound(p, CurrentField(p).(ty := t));
    case DefType(r) => PutDefUnbound(p, r, RetypeDef(DefAt(p.nss, r), t));
  }

  lemma TypeStepUnbound(p: Parser, tok: L.Token, inField: bool)
    requires InType(p.state, inField) && TypeInv(p, inField) && Unbound(p.nss)
    ensures var n := StepType(p, tok, inField); n.Go? ==> Unbound(n.p.nss)
  {
    hide PutType, Sound, Unnamed, Unbound, CurrentType;
    PutTypeUnbound(p, CurrentType(p).(isDynamic := true));
    PutTypeUnbound(p, CurrentType(p).(isSequence := true));
    PutTypeUnbound(p, CurrentType(p).(size := UINT32_MAX));
    if tok.Uint? && tok.number <= UINT32_MAX { PutTypeUnbound(p, CurrentType(p).(size := tok.number)); }
  }

  lemma SymbolStepUnbound(p: Parser, tok: L.Token)
    requires Inv(p) && p.state.PSymbol? && Unbound(p.nss)
    ensures var n := Step(p, tok); n.Go? ==> Unbound(n.p.nss)
  {
    hide Sound, Search, Unbound, Valueless;
    var d := DefAt(p.nss, p.e.value);
    PutDefUnbound(p, p.e.value, Enum(d.name, d.notes, d.symbols + [Symbol(p.name.value, p.annotes, 0)]));
  }

  lemma ValueStepUnbound(p: Parser, tok: L.Token)
    requires Inv(p) && (p.state.PSymbolSlash? || p.state.PSymbolValue?) && Unbound(p.nss)
    ensures var n := Step(p, tok); n.Go? ==> Unbound(n.p.nss)
  {
    hide Sound, Search, Unbound, SetValue, Valueless;
    if p.state.PSymbolSlash? {
      var previous := if p.s.value == 0 then 0 else DefAt(p.nss, p.e.value).symbols[p.s.value - 1].value;
      if previous < INT32_MAX { SetValueUnbound(p, previous + 1); }
    } else {
      var v := if tok.Uint? then tok.number else if tok.Int? then tok.signedNumber else 0;
      if INT32_MIN <= v <= INT32_MAX { SetValueUnbound(p, v); }
    }
  }

  lemma SetValueUnbound(p: Parser, value: int32)
    requires InSymbol(p) && Unbound(p.nss)
    ensures Unbound(SetValue(p, value).nss)
  {
    hide Unbound;
    var d := DefAt(p.nss, p.e.value);
    PutDefUnbound(p, p.e.value, Enum(d.name, d.notes, d.symbols[p.s.value := d.symbols[p.s.value].(value := value)]));
  }

  lemma GroupStepUnbound(p: Parser, tok: L.Token)
    requires Inv(p) && (p.state.PGroupId? || p.state.PGroupSuper? || p.state.PField?) && Unbound(p.nss)
    ensures var n := Step(p, tok); n.Go? ==> Unbound(n.p.nss)
  {
    hide Sound;
    var d := DefAt(p.nss, p.g.value);
    assert DefUnbound(d);
    hide Unbound;
    PutDefUnbound(p, p.g.value, d.(fields := d.fields + [Schema.Field(None, [], NO_TYPE, false)]));
    if tok.Uint? { PutDefUnbound(p, p.g.value, d.(id := Some(tok.number))); }
    if tok.Name? || tok.CName? { PutDefUnbound(p, p.g.value, d.(superName := Some(tok.text))); }
  }

  lemma FieldStepUnbound(p: Parser, tok: L.Token)
    requires Inv(p) && (p.state.PFieldName? || p.state.PFieldOptional?) && Unbound(p.nss)
    ensures var n := Step(p, tok); n.Go? ==> Unbound(n.p.nss)
  {
    hide Inv, Step;
    if p.state.PFieldName? { FieldNameUnbound(p, tok); } else { OptionalUnbound(p, tok); }
  }

  lemma FieldNameUnbound(p: Parser, tok: L.Token)
    requires Inv(p) && p.state.PFieldName? && Unbound(p.nss)
    ensures var n := Step(p, tok); n.Go? ==> Unbound(n.p.nss)
  {
    hide Sound, Unbound, Search, PutField, Unnamed;
    if tok.Name? { PutFieldUnbound(p, CurrentField(p).(name := Some(tok.text), notes := p.annotes)); }
  }

  lemma OptionalUnbound(p: Parser, tok: L.Token)
    requires Inv(p) && p.state.PFieldOptional? && Unbound(p.nss)
    ensures var n := Step(p, tok); n.Go? ==> Unbound(n.p.nss)
  {
    hide Sound, Unbound, PutField, CurrentField;
    if tok == L.Keyword(L.KQuestion) { PutFieldUnbound(p, CurrentField(p).(isOptional := true)); }
  }

  lemma FieldTypeStepUnbound(p: Parser, tok: L.Token)
    requires Inv(p) && p.state.PFieldType? && Unbound(p.nss)
    ensures var n := Step(p, tok); n.Go? ==> Unbound(n.p.nss)
  {
    hide Sound, Unbound, PutType;
    var t := CurrentType(p).(notes := p.annotes);
    var q := p.(annotes := []);
    if ITypeOf(tok).Some? { PutTypeUnbound(q, t.(tag := ITypeOf(tok).value)); }
    if tok.Name? || tok.CName? { PutTypeUnbound(q, t.(name := tok.text, tag := IRef)); }
  }

  lemma DefStepUnbound(p: Parser, tok: L.Token)
    requires Inv(p) && (p.state.PDefType? || p.state.PTypedef? || p.state.PEnum? || p.state.PEnumSingleton?)
    requires Unbound(p.nss)
    ensures var n := Step(p, tok); n.Go? ==> Unbound(n.p.nss)
  {
    hide Inv, Step;
    match p.state
    case PDefType => DefTypeUnbound(p, tok);
    case PTypedef => TypedefUnbound(p, tok);
    case PEnum => EnumUnbound(p, tok);
    case PEnumSingleton => EnumUnbound(p, tok);
  }

  lemma DefTypeUnbound(p: Parser, tok: L.Token)
    requires Inv(p) && p.state.PDefType? && Unbound(p.nss)
    ensures var n := Step(p, tok); n.Go? ==> Unbound(n.p.nss)
  {
    hide Sound, Search;
  }

  lemma TypedefUnbound(p: Parser, tok: L.Token)
    requires Inv(p) && p.state.PTypedef? && Unbound(p.nss)
    ensures var n := Step(p, tok); n.Go? ==> Unbound(n.p.nss)
  {
    hide Sound, Search;
  }

  lemma EnumUnbound(p: Parser, tok: L.Token)
    requires Inv(p) && (p.state.PEnum? || p.state.PEnumSingleton?) && Unbound(p.nss)
    ensures var n := Step(p, tok); n.Go? ==> Unbound(n.p.nss)
  {
    hide Sound, Search;
  }

  lemma NamespaceStepUnbound(p: Parser, tok: L.Token)
    requires Inv(p) && Unbound(p.nss) && NamesNamespace(p.state)
    ensures Step(p, tok).Go? ==> Unbound(Step(p, tok).p.nss)
  {
    hide Sound, Search;
  }

  lemma InTypeStepUnbound(p: Parser, tok: L.Token, inField: bool)
    requires Inv(p) && InType(p.state, inField) && Unbound(p.nss)
    ensures var n := Step(p, tok); n.Go? ==> Unbound(n.p.nss)
  {
    hide Inv, Step, StepType, TypeInv, Unbound;
    TypeInvOf(p, inField);
    StepIsType(p, tok);
    TypeStepUnbound(p, tok, inField);
  }

  /** No step binds a supergroup. */
  lemma StepUnbound(p: Parser, tok: L.Token)
    requires Inv(p) && Unbound(p.nss)
    ensures Step(p, tok).Go? ==> Unbound(Step(p, tok).p.nss)
  {
    hide Inv, Step, TypeInv, StepType, Unbound;
    if p.state.PSymbol? { SymbolStepUnbound(p, tok); }
    else if AboutSymbols(p.state) { ValueStepUnbound(p, tok); }
    else if p.state.PFieldName? || p.state.PFieldOptional? { FieldStepUnbound(p, tok); }
    else if p.state.PFieldType? { FieldTypeStepUnbound(p, tok); }
    else if AboutFields(p.state) { GroupStepUnbound(p, tok); }
    else if Builds(p.state) { DefStepUnbound(p, tok); }
    else if InType(p.state, true) { InTypeStepUnbound(p, tok, true); }
    else if InType(p.state, false) { InTypeStepUnbound(p, tok, false); }
    else if NamesNamespace(p.state) { NamespaceStepUnbound(p, tok); }
    else { QuietStep(p, tok); }
  }

  // ----------------------------------------------------------------- over whole runs

  ghost predicate Tidy(nss: Namespaces) {
    ColonFree(nss) && Unbound(nss)
  }

  lemma StepTidy(p: Parser, tok: L.Token)
    requires Inv(p) && Tidy(p.nss) && (tok.Name? ==> L.COLON !in tok.text)
    ensures Step(p, tok).Go? ==> Tidy(Step(p, tok).p.nss)
  {
    hide Inv, Step, Unbound, ColonFree;
    StepColonFree(p, tok);
    StepUnbound(p, tok);
  }

  lemma NameAtHasNoColon(text: seq<byte>, pos: nat, max: nat)
    requires pos <= |text|
    ensures var v := L.NameAt(text, pos, max); v.Hit? ==> L.COLON !in v.value
  {
    var start := if pos < |text| && text[pos] == L.BACKSLASH then pos + 1 else pos;
    if start < |text| {
      var e := L.RunEnd(text, start);
      forall x | x in text[start..e] ensures x != L.COLON {
        var i :| 0 <= i < e - start && text[start..e][i] == x;
        assert L.IsNameChar(text[start + i]);
      }
    }
  }

  /** Tokens that become names hold no colon, so neither do the names of a parsed schema. */
  lemma NameTokensHaveNoColon(text: seq<byte>, pos: nat, max: nat)
    requires pos <= |text|
    ensures var tok := L.GetToken(text, pos, max).0; tok.Name? ==> L.COLON !in tok.text
  {
    hide L.CNameAt, L.NameAt, L.LiteralAt, L.KeyAt, L.TokenStart;
    var p := L.TokenStart(text, pos);
    NameAtHasNoColon(text, p, max);
  }

  lemma ConsumeTidy(p: Parser, tok: L.Token)
    requires Inv(p) && Tidy(p.nss) && (tok.Name? ==> L.COLON !in tok.text)
    ensures var q := SchemaParser.Consume(p, tok); q.Some? ==> Tidy(q.value.nss)
    decreases Rank(p.state)
  {
    hide Inv, Step, Tidy;
    SchemaParser.StepLowers(p, tok);
    StepTidy(p, tok);
    var n := Step(p, tok);
    if n.Go? && !n.shift { ConsumeTidy(n.p, tok); }
  }

  lemma ParseTidy(text: seq<byte>, pos: nat, p: Parser)
    requires pos <= |text| && Inv(p) && Tidy(p.nss)
    ensures var q := SchemaParser.ParseFrom(text, pos, p); q.Some? ==> Tidy(q.value.nss)
    decreases |text| - pos
  {
    hide Inv, Tidy, L.GetToken, SchemaParser.Consume;
    var (tok, next) := L.GetToken(text, pos, SchemaParser.TOKEN_MAX_SIZE);
    L.TokenProgress(text, pos, SchemaParser.TOKEN_MAX_SIZE);
    NameTokensHaveNoColon(text, pos, SchemaParser.TOKEN_MAX_SIZE);
    if !tok.NoMemory? {
      ConsumeTidy(p, tok);
      var q := SchemaParser.Consume(p, tok);
      if q.Some? && !tok.Eof? { ParseTidy(text, next, q.value); }
    }
  }

  lemma AcceptedIsTidy(text: seq<byte>)
    ensures SchemaParser.Parse(text).Some? ==> Tidy(SchemaParser.Parse(text).value)
  {
    hide Inv, SchemaParser.ParseFrom;
    SchemaParser.InitialInv();
    ParseTidy(text, 0, INITIAL);
  }
}
