/** Exactly which tokens the machine of parseSchema takes in each of its states, however often
    it looks at one again in another state. */
module ParserAccepts {
  import opened Base
  import opened Schema
  import opened Parser
  import opened ParserInvariant
  import opened SchemaParser
  import opened SchemaPrint
  import opened GroupReading
  import opened EnumReading
  import L = Lexer
  import R = LexerRoundTrip

  predicate IsKey(tok: L.Token, k: L.Key) { tok == Key(k) }

  predicate IsRef(tok: L.Token) { tok.Name? || tok.CName? }

  predicate StartsType(tok: L.Token) { ITypeOf(tok).Some? || tok.Name? }

  predicate EndsSymbolList(tok: L.Token) { IsKey(tok, L.KBar) || Ender(tok) }

  predicate EndsField(tok: L.Token) { IsKey(tok, L.KComma) || Ender(tok) }

  /** A name that is not found among those of the fields so far. */
  predicate NewField(p: Parser, tok: L.Token)
    requires FieldUnnamed(p)
  {
    tok.Name? && Search(FieldNames(Last(p).fields), tok.text) == None
  }

  /** Behind a type comes an annotation or a name in a field, and what ends a definition. */
  predicate FollowsType(p: Parser, tok: L.Token, inField: bool)
    requires TypeInv(p, inField)
  {
    if inField then IsKey(tok, L.KAt) || NewField(p, tok) else Ender(tok)
  }

  /** A symbol without a value has one if it is the first, or there is a next number. */
  predicate HasNext(p: Parser, symbol: nat)
    requires InEnum(p) && symbol <= |Last(p).symbols|
  {
    symbol == 0 || Last(p).symbols[symbol - 1].value < 0x7fff_ffff
  }

  /** A number of 32 bits that is greater than the previous symbol's. */
  predicate IsNextValue(p: Parser, tok: L.Token)
    requires InSymbol(p)
  {
    && (tok.Uint? || tok.Int?)
    && var v: int := if tok.Uint? then tok.number else tok.signedNumber;
    && -0x8000_0000 <= v <= 0x7fff_ffff && (p.s.value > 0 ==> Last(p).symbols[p.s.value - 1].value < v)
  }

  predicate IsFieldState(s: State) {
    || s.PField? || s.PFieldType? || s.PLParen? || s.PLParenOptional? || s.PSize? || s.PRParen? || s.PLBracket?
    || s.PRBracket? || s.PDynamic? || s.PFieldNameAnnotes? || s.PFieldName? || s.PFieldNameSlash? || s.PFieldNameId?
    || s.PFieldOptional? || s.PFieldNext?
  }

  predicate IsEnumState(s: State) {
    || s.PEnumOrTypedef? || s.PSymbolOrRef? || s.PTypedef? || s.PEnum? || s.PEnumSingleton? || s.PSymbol?
    || s.PSymbolAnnotes? || s.PSymbolName? || s.PSymbolSlash? || s.PSymbolValue? || s.PSymbolNext?
  }

  predicate MayComeInDefs(p: Parser, tok: L.Token)
    requires Inv(p) && !IsFieldState(p.state) && !IsEnumState(p.state)
  {
    match p.state
    case PStart => Ender(tok)
    case PNs => tok.Name?
    case PAny => Ender(tok)
    case PDefOrAnnote => IsKey(tok, L.KAt) || tok.Name?
    case PAnnote(_) => IsRef(tok)
    case PAnnoteValue(_) => tok.Literal?
    case PDefType =>
      && (|| Ender(tok) || IsKey(tok, L.KSlash) || IsKey(tok, L.KColon) || IsKey(tok, L.KRArrow)
          || IsKey(tok, L.KEqual))
      && Search(DefNames(Defs(p)), p.name.value) == None
    case PGroupId => tok.Uint?
    case PGroupSuper => IsRef(tok)
    case PGroupRArrow => IsKey(tok, L.KRArrow)
    case PFieldOrAny => IsKey(tok, L.KRArrow) || Ender(tok)
    case PSuperOrFieldOrAny => IsKey(tok, L.KColon) || IsKey(tok, L.KRArrow) || Ender(tok)
  }

  predicate MayComeInFields(p: Parser, tok: L.Token)
    requires Inv(p) && IsFieldState(p.state)
  {
    match p.state
    case PField => StartsType(tok) || tok.CName?
    case PFieldType => StartsType(tok) || tok.CName?
    case PLParen(_) => IsKey(tok, L.KLParen)
    case PLParenOptional(inField) => IsKey(tok, L.KLParen) || FollowsType(p, tok, inField)
    case PSize(_) => tok.Uint? && tok.number <= 0xffff_ffff
    case PRParen(_) => IsKey(tok, L.KRParen)
    case PLBracket(inField) => IsKey(tok, L.KLBracket) || FollowsType(p, tok, inField)
    case PRBracket(_) => IsKey(tok, L.KRBracket)
    case PDynamic(inField) => IsKey(tok, L.KStar) || IsKey(tok, L.KLBracket) || FollowsType(p, tok, inField)
    case PFieldNameAnnotes => IsKey(tok, L.KAt) || NewField(p, tok)
    case PFieldName => NewField(p, tok)
    case PFieldNameSlash => IsKey(tok, L.KSlash) || IsKey(tok, L.KQuestion) || EndsField(tok)
    case PFieldNameId => tok.Uint?
    case PFieldOptional => IsKey(tok, L.KQuestion) || EndsField(tok)
    case PFieldNext => EndsField(tok)
  }

  predicate MayComeInEnums(p: Parser, tok: L.Token)
    requires Inv(p) && IsEnumState(p.state)
  {
    match p.state
    case PEnumOrTypedef => IsKey(tok, L.KBar) || IsKey(tok, L.KAt) || StartsType(tok)
    case PSymbolOrRef =>
      IsKey(tok, L.KSlash) || EndsSymbolList(tok) || IsKey(tok, L.KStar) || IsKey(tok, L.KLBracket)
    case PTypedef => (p.laType.IRef? && IsKey(tok, L.KStar)) || IsKey(tok, L.KLBracket) || Ender(tok)
    case PEnum => IsKey(tok, L.KSlash) || EndsSymbolList(tok)
    case PEnumSingleton => IsKey(tok, L.KAt) || tok.Name?
    case PSymbol =>
      && Search(SymbolNames(Last(p).symbols), p.name.value) == None
      && (IsKey(tok, L.KSlash) || (EndsSymbolList(tok) && HasNext(p, |Last(p).symbols|)))
    case PSymbolAnnotes => IsKey(tok, L.KAt) || tok.Name?
    case PSymbolName => tok.Name?
    case PSymbolSlash => IsKey(tok, L.KSlash) || (EndsSymbolList(tok) && HasNext(p, p.s.value))
    case PSymbolValue => IsNextValue(p, tok)
    case PSymbolNext => EndsSymbolList(tok)
  }

  /** The tokens that may come. */
  predicate MayCome(p: Parser, tok: L.Token)
    requires Inv(p)
  {
    if IsFieldState(p.state) then MayComeInFields(p, tok)
    else if IsEnumState(p.state) then MayComeInEnums(p, tok)
    else MayComeInDefs(p, tok)
  }

  /** What one step says about the whole. */
  lemma ByStep(p: Parser, tok: L.Token)
    requires Inv(p)
    ensures var n := Step(p, tok);
            && (n.Fail? ==> Consume(p, tok) == None)
            && (n.Go? && n.shift ==> Consume(p, tok).Some?)
            && (n.Go? && !n.shift ==> Inv(n.p) && Consume(p, tok) == Consume(n.p, tok))
  {
    hide Inv, Step;
    StepKept(p, tok);
  }

  // --------------------------------------------------------------- between definitions

  lemma AtDefOrNote(p: Parser, tok: L.Token)
    requires Inv(p) && p.state == PDefOrAnnote
    ensures Consume(p, tok).Some? <==> IsKey(tok, L.KAt) || tok.Name?
  {
    hide Inv, Consume;
    ByStep(p, tok);
    assert Step(p, tok) == StepDefOrAnnote(p, tok);
  }

  lemma AtAny(p: Parser, tok: L.Token)
    requires Inv(p) && p.state == PAny
    ensures Consume(p, tok).Some? <==> Ender(tok)
  {
    hide Inv, Consume;
    ByStep(p, tok);
    assert Step(p, tok) == StepAny(p, tok);
    if Step(p, tok).Go? && !Step(p, tok).shift { AtDefOrNote(Step(p, tok).p, tok); }
  }

  lemma AtStart(p: Parser, tok: L.Token)
    requires Inv(p) && p.state == PStart
    ensures Consume(p, tok).Some? <==> Ender(tok)
  {
    hide Inv, Consume, Search;
    ByStep(p, tok);
    assert Step(p, tok) == StepStart(p, tok);
    if !IsKey(tok, L.KNamespace) { AtAny(Step(p, tok).p, tok); }
  }

  lemma AtNs(p: Parser, tok: L.Token)
    requires Inv(p) && p.state == PNs
    ensures Consume(p, tok).Some? <==> tok.Name?
  {
    hide Inv, Consume, Search;
    ByStep(p, tok);
    assert Step(p, tok) == StepNs(p, tok);
  }

  lemma AtNote(p: Parser, tok: L.Token)
    requires Inv(p) && (p.state.PAnnote? || p.state.PAnnoteValue?)
    ensures Consume(p, tok).Some? <==> if p.state.PAnnote? then IsRef(tok) else tok.Literal?
  {
    hide OwnerInv, Consume, Search;
    ByStep(p, tok);
  }

  // --------------------------------------------------------------------------- groups

  lemma AtName(p: Parser, tok: L.Token)
    requires Inv(p) && p.state == PDefType
    ensures InNamespace(p) && p.name.Some?
    ensures Consume(p, tok).Some? <==>
              && (|| Ender(tok) || IsKey(tok, L.KSlash) || IsKey(tok, L.KColon) || IsKey(tok, L.KRArrow)
                  || IsKey(tok, L.KEqual))
              && Search(DefNames(Defs(p)), p.name.value) == None
  {
    hide Inv, Consume, Search, Step, AddDef;
    NamePending(p);
    ByStep(p, tok);
    StepAtName(p, tok);
    if Step(p, tok).Go? && !Step(p, tok).shift { AtAny(Step(p, tok).p, tok); }
  }

  lemma NamePending(p: Parser)
    requires Inv(p) && p.state == PDefType
    ensures InNamespace(p) && p.name.Some?
  {
  }

  lemma AtGroupStart(p: Parser, tok: L.Token)
    requires Inv(p) && (p.state == PGroupRArrow || p.state == PGroupId || p.state == PGroupSuper)
    ensures Consume(p, tok).Some? <==>
              if p.state == PGroupRArrow then IsKey(tok, L.KRArrow)
              else if p.state == PGroupId then tok.Uint? else IsRef(tok)
  {
    hide Sound, Consume, PutDef;
    ByStep(p, tok);
  }

  lemma AtHead(p: Parser, tok: L.Token)
    requires Inv(p) && (p.state == PFieldOrAny || p.state == PSuperOrFieldOrAny)
    ensures Consume(p, tok).Some? <==>
              (p.state == PSuperOrFieldOrAny && IsKey(tok, L.KColon)) || IsKey(tok, L.KRArrow) || Ender(tok)
  {
    hide Inv, Consume, Step;
    ByStep(p, tok);
    StepAtHead(p, tok);
    if Step(p, tok).Go? && !Step(p, tok).shift { AtAny(Step(p, tok).p, tok); }
  }

  // ----------------------------------------------------------------- types and fields

  lemma NoNameYet(p: Parser)
    requires Inv(p) && (p.state == PFieldName || p.state == PFieldNameAnnotes)
    ensures FieldUnnamed(p)
  {
    hide FieldUnnamed;
  }

  lemma AtFieldName(p: Parser, tok: L.Token)
    requires Inv(p) && p.state == PFieldName
    ensures FieldUnnamed(p) && (Consume(p, tok).Some? <==> NewField(p, tok))
  {
    hide Inv, Consume, Search, PutField, Step, Sound, Unnamed;
    NoNameYet(p);
    ByStep(p, tok);
    StepAtFieldName(p, tok);
  }

  lemma AtFieldNotes(p: Parser, tok: L.Token)
    requires Inv(p) && p.state == PFieldNameAnnotes
    ensures FieldUnnamed(p) && (Consume(p, tok).Some? <==> IsKey(tok, L.KAt) || NewField(p, tok))
  {
    hide Inv, Consume, Search, Sound, Unnamed;
    NoNameYet(p);
    ByStep(p, tok);
    assert Step(p, tok) == StepFieldNameAnnotes(p, tok);
    if !IsKey(tok, L.KAt) { AtFieldName(Step(p, tok).p, tok); }
  }

  lemma BehindType(p: Parser, tok: L.Token, inField: bool)
    requires Inv(p) && p.state == AfterType(inField) && TypeInv(p, inField)
    ensures Consume(p, tok).Some? <==> FollowsType(p, tok, inField)
  {
    hide Inv, Consume, NewField, TypeInv;
    if inField { AtFieldNotes(p, tok); } else { AtAny(p, tok); }
  }

  lemma StepAtType(p: Parser, tok: L.Token, inField: bool)
    requires Inv(p) && InType(p.state, inField)
    ensures TypeInv(p, inField) && Step(p, tok) == StepType(p, tok, inField)
  {
    hide Inv, StepType;
    TypeInvOf(p, inField);
  }

  /** Ending a type changes no name. */
  lemma SameFields(p: Parser, q: Parser, tok: L.Token, inField: bool)
    requires TypeInv(p, inField) && TypeInv(q, inField)
    requires q.g == p.g && q.f == p.f && q.ns == p.ns && q.ty == p.ty
    requires q.nss == p.nss || (p.ty.Some? && q.nss == PutType(p, CurrentType(p).(size := UINT32_MAX)).nss)
    ensures FollowsType(q, tok, inField) == FollowsType(p, tok, inField)
  {
    hide Sound, Unnamed, Search;
    if inField { FieldNamesSame(p, q); }
  }

  lemma FieldNamesSame(p: Parser, q: Parser)
    requires InField(p) && InField(q)
    requires q.nss == p.nss || q.nss == PutType(p, CurrentType(p).(size := UINT32_MAX)).nss
    requires q.ns == p.ns && q.g == p.g && q.f == p.f && q.ty == p.ty
    ensures FieldNames(Last(q).fields) == FieldNames(Last(p).fields)
  {
  }

  lemma AtBracket(p: Parser, tok: L.Token, inField: bool)
    requires Inv(p) && p.state == PLBracket(inField)
    ensures TypeInv(p, inField) && (Consume(p, tok).Some? <==> IsKey(tok, L.KLBracket) || FollowsType(p, tok, inField))
  {
    hide Inv, Consume, FollowsType, TypeInv, Step;
    ByStep(p, tok);
    StepAtType(p, tok, inField);
    if IsKey(tok, L.KLBracket) {
    } else {
      var q := p.(state := AfterType(inField));
      SameType(p, q, inField);
      BehindType(q, tok, inField);
      SameFields(p, q, tok, inField);
    }
  }

  lemma SameType(p: Parser, q: Parser, inField: bool)
    requires TypeInv(p, inField) && q == p.(state := q.state)
    ensures TypeInv(q, inField)
  {
    hide Sound, Unnamed;
  }

  lemma AtStars(p: Parser, tok: L.Token, inField: bool)
    requires Inv(p) && p.state == PDynamic(inField)
    ensures TypeInv(p, inField)
    ensures Consume(p, tok).Some? <==>
              IsKey(tok, L.KStar) || IsKey(tok, L.KLBracket) || FollowsType(p, tok, inField)
  {
    hide Inv, Consume, FollowsType, TypeInv, Step, PutType;
    ByStep(p, tok);
    StepAtType(p, tok, inField);
    if IsKey(tok, L.KStar) {
    } else {
      var q := p.(state := PLBracket(inField));
      SameType(p, q, inField);
      AtBracket(q, tok, inField);
      SameFields(p, q, tok, inField);
    }
  }

  lemma SizedType(p: Parser, inField: bool)
    requires TypeInv(p, inField)
    ensures p.ty.Some? && (InField(p) || InTypedef(p))
    ensures var q := PutType(p, CurrentType(p).(size := UINT32_MAX));
            && q == p.(nss := q.nss)
            && TypeInv(q.(state := AfterType(inField)), inField) == TypeInv(q, inField)
  {
    hide Sound, Unnamed;
  }

  lemma AfterTypeInv(p: Parser, inField: bool)
    requires Inv(p) && p.state == AfterType(inField) && p.ty.Some?
    requires !inField ==> InTypedef(p)
    ensures TypeInv(p, inField)
  {
    hide Sound, Unnamed;
  }

  lemma AtSizeOrNot(p: Parser, tok: L.Token, inField: bool)
    requires Inv(p) && p.state == PLParenOptional(inField)
    ensures TypeInv(p, inField)
    ensures Consume(p, tok).Some? <==> IsKey(tok, L.KLParen) || FollowsType(p, tok, inField)
  {
    hide Inv, Consume, FollowsType, TypeInv, Step, PutType, Sound;
    ByStep(p, tok);
    StepAtType(p, tok, inField);
    SizedType(p, inField);
    if IsKey(tok, L.KLParen) {
    } else {
      var q := PutType(p, CurrentType(p).(size := UINT32_MAX)).(state := AfterType(inField));
      assert Step(p, tok) == Go(q, false);
      if !inField { TypedefThere(p, q); }
      AfterTypeInv(q, inField);
      BehindType(q, tok, inField);
      SameFields(p, q, tok, inField);
    }
  }

  lemma TypedefThere(p: Parser, q: Parser)
    requires TypeInv(p, false) && p.ty.Some? && (InField(p) || InTypedef(p))
    requires q == PutType(p, CurrentType(p).(size := UINT32_MAX)).(state := q.state)
    ensures InTypedef(q)
  {
    hide Sound;
  }

  lemma AtSizeOrEnd(p: Parser, tok: L.Token, inField: bool)
    requires Inv(p)
    requires p.state == PLParen(inField) || p.state == PSize(inField) || p.state == PRParen(inField)
             || p.state == PRBracket(inField)
    ensures Consume(p, tok).Some? <==>
              match p.state
              case PLParen(_) => IsKey(tok, L.KLParen)
              case PSize(_) => tok.Uint? && tok.number <= 0xffff_ffff
              case PRParen(_) => IsKey(tok, L.KRParen)
              case _ => IsKey(tok, L.KRBracket)
  {
    hide Inv, Consume, TypeInv, Step, PutType;
    ByStep(p, tok);
    StepAtType(p, tok, inField);
  }

  lemma NoTypeIsAt(tok: L.Token)
    ensures IsKey(tok, L.KAt) ==> ITypeOf(tok) == None
    ensures ITypeOf(tok).Some? ==> tok.Keyword?
  {
  }

  lemma AtFieldType(p: Parser, tok: L.Token)
    requires Inv(p) && p.state == PFieldType
    ensures Consume(p, tok).Some? <==> StartsType(tok) || tok.CName?
  {
    hide Inv, Consume, ITypeOf, PutType, Step;
    ByStep(p, tok);
    StepAtFieldType(p, tok);
  }

  lemma AtField(p: Parser, tok: L.Token)
    requires Inv(p) && p.state == PField
    ensures Consume(p, tok).Some? <==> StartsType(tok) || tok.CName?
  {
    hide Inv, Consume, ITypeOf, PutType, PutDef;
    ByStep(p, tok);
    NoTypeIsAt(tok);
    FieldInGroup(p);
    assert Step(p, tok) == StepField(p, tok);
    if IsKey(tok, L.KAt) { AtNote(Step(p, tok).p, tok); } else { AtFieldType(Step(p, tok).p, tok); }
  }

  lemma FieldInGroup(p: Parser)
    requires Inv(p) && p.state == PField
    ensures InGroup(p)
  {
    hide Sound;
  }

  lemma AtFieldNext(p: Parser, tok: L.Token)
    requires Inv(p) && p.state == PFieldNext
    ensures Consume(p, tok).Some? <==> EndsField(tok)
  {
    hide Inv, Consume, Step;
    ByStep(p, tok);
    StepAtNext(p, tok);
    if !IsKey(tok, L.KComma) { AtAny(Step(p, tok).p, tok); }
  }

  lemma AtFieldOptional(p: Parser, tok: L.Token)
    requires Inv(p) && p.state == PFieldOptional
    ensures Consume(p, tok).Some? <==> IsKey(tok, L.KQuestion) || EndsField(tok)
  {
    hide Inv, Consume, PutField;
    ByStep(p, tok);
    NamedField(p);
    assert Step(p, tok) == StepFieldOptional(p, tok);
    if !IsKey(tok, L.KQuestion) { AtFieldNext(Step(p, tok).p, tok); }
  }

  lemma NamedField(p: Parser)
    requires Inv(p) && p.state == PFieldOptional
    ensures InField(p)
  {
    hide Sound;
  }

  lemma AtFieldSlash(p: Parser, tok: L.Token)
    requires Inv(p) && (p.state == PFieldNameSlash || p.state == PFieldNameId)
    ensures Consume(p, tok).Some? <==>
              if p.state == PFieldNameId then tok.Uint?
              else IsKey(tok, L.KSlash) || IsKey(tok, L.KQuestion) || EndsField(tok)
  {
    hide Inv, Consume;
    ByStep(p, tok);
    if p.state == PFieldNameSlash {
      assert Step(p, tok) == StepFieldNameSlash(p, tok);
      if !IsKey(tok, L.KSlash) { AtFieldOptional(Step(p, tok).p, tok); }
    } else {
      assert Step(p, tok) == StepFieldNameId(p, tok);
    }
  }

  // ----------------------------------------------------------------- enumerations

  lemma AtSymbolNext(p: Parser, tok: L.Token)
    requires Inv(p) && p.state == PSymbolNext
    ensures Consume(p, tok).Some? <==> EndsSymbolList(tok)
  {
    hide Inv, Consume;
    ByStep(p, tok);
    assert Step(p, tok) == StepSymbolNext(p, tok);
    if !IsKey(tok, L.KBar) { AtAny(Step(p, tok).p, tok); }
  }

  lemma AtSymbolName(p: Parser, tok: L.Token)
    requires Inv(p) && p.state == PSymbolName
    ensures Consume(p, tok).Some? <==> tok.Name?
  {
    hide Inv, Consume;
    ByStep(p, tok);
    assert Step(p, tok) == StepSymbolName(p, tok);
  }

  lemma AtSymbolNotes(p: Parser, tok: L.Token)
    requires Inv(p) && p.state == PSymbolAnnotes
    ensures Consume(p, tok).Some? <==> IsKey(tok, L.KAt) || tok.Name?
  {
    hide Inv, Consume;
    ByStep(p, tok);
    assert Step(p, tok) == StepSymbolAnnotes(p, tok);
    if !IsKey(tok, L.KAt) { AtSymbolName(Step(p, tok).p, tok); }
  }

  lemma AtSingleton(p: Parser, tok: L.Token)
    requires Inv(p) && p.state == PEnumSingleton
    ensures Consume(p, tok).Some? <==> IsKey(tok, L.KAt) || tok.Name?
  {
    hide Inv, Consume, Step, AddDef;
    ByStep(p, tok);
    StepAtSingleton(p, tok);
    AtSymbolNotes(Step(p, tok).p, tok);
  }

  lemma AtValue(p: Parser, tok: L.Token)
    requires Inv(p) && p.state == PSymbolValue
    ensures InSymbol(p) && (Consume(p, tok).Some? <==> IsNextValue(p, tok))
  {
    hide Inv, Consume, Step, SetValue;
    ByStep(p, tok);
    StepAtValue(p, tok);
  }

  lemma AtSlash(p: Parser, tok: L.Token)
    requires Inv(p) && p.state == PSymbolSlash
    ensures InSymbol(p)
    ensures Consume(p, tok).Some? <==> IsKey(tok, L.KSlash) || (EndsSymbolList(tok) && HasNext(p, p.s.value))
  {
    hide Inv, Consume, Step, SetValue;
    ByStep(p, tok);
    StepAtSlash(p, tok);
    if Step(p, tok).Go? && !Step(p, tok).shift { AtSymbolNext(Step(p, tok).p, tok); }
  }

  lemma AtSymbol(p: Parser, tok: L.Token)
    requires Inv(p) && p.state == PSymbol
    ensures InEnum(p) && p.name.Some?
    ensures Consume(p, tok).Some? <==>
              && Search(SymbolNames(Last(p).symbols), p.name.value) == None
              && (IsKey(tok, L.KSlash) || (EndsSymbolList(tok) && HasNext(p, |Last(p).symbols|)))
  {
    hide Inv, Consume, Step, Search;
    ByStep(p, tok);
    StepAtSymbol(p, tok);
    if Step(p, tok).Go? {
      var q := Step(p, tok).p;
      AtSlash(q, tok);
      assert |Last(q).symbols| == |Last(p).symbols| + 1;
    }
  }

  /** The first symbol of an enumeration always has a value. */
  lemma AtEnum(p: Parser, tok: L.Token)
    requires Inv(p) && p.state == PEnum
    ensures Consume(p, tok).Some? <==> IsKey(tok, L.KSlash) || EndsSymbolList(tok)
  {
    hide Inv, Consume, Search;
    ByStep(p, tok);
    EnumPending(p);
    assert Step(p, tok) == StepEnum(p);
    var q := Step(p, tok).p;
    AtSymbol(q, tok);
    NothingFound(q.name.value);
    assert Last(q).symbols == [];
  }

  lemma NothingFound(name: Text)
    ensures Search(SymbolNames([]), name) == None
  {
    SearchFirst(SymbolNames([]), name);
  }

  lemma EnumPending(p: Parser)
    requires Inv(p) && p.state == PEnum
    ensures InNamespace(p) && p.name.Some? && p.laName.Some?
  {
    hide Sound, Search;
  }

  lemma AtTypedef(p: Parser, tok: L.Token)
    requires Inv(p) && p.state == PTypedef
    ensures Consume(p, tok).Some? <==>
              (p.laType.IRef? && IsKey(tok, L.KStar)) || IsKey(tok, L.KLBracket) || Ender(tok)
  {
    hide Inv, Consume, AddDef;
    ByStep(p, tok);
    TypedefPending(p);
    assert Step(p, tok) == StepTypedef(p);
    var q := Step(p, tok).p;
    if p.laType.IRef? { AtStars(q, tok, false); } else { AtBracket(q, tok, false); }
  }

  lemma TypedefPending(p: Parser)
    requires Inv(p) && p.state == PTypedef
    ensures InNamespace(p) && p.name.Some? && (p.laType.IRef? ==> p.laName.Some?)
  {
    hide Sound, Search;
  }

  lemma AtChoice(p: Parser, tok: L.Token)
    requires Inv(p) && p.state == PEnumOrTypedef
    ensures Consume(p, tok).Some? <==> IsKey(tok, L.KBar) || IsKey(tok, L.KAt) || StartsType(tok)
  {
    hide Inv, Consume, ITypeOf;
    ByStep(p, tok);
    NoTypeIsAt(tok);
    assert Step(p, tok) == StepEnumOrTypedef(p, tok);
  }

  lemma AtRefOrSymbol(p: Parser, tok: L.Token)
    requires Inv(p) && p.state == PSymbolOrRef
    ensures Consume(p, tok).Some? <==>
              IsKey(tok, L.KSlash) || EndsSymbolList(tok) || IsKey(tok, L.KStar) || IsKey(tok, L.KLBracket)
  {
    hide Inv, Consume;
    ByStep(p, tok);
    RefPending(p);
    assert Step(p, tok) == StepSymbolOrRef(p, tok);
    if IsKey(tok, L.KBar) || IsKey(tok, L.KSlash) {
      AtEnum(Step(p, tok).p, tok);
    } else {
      AtTypedef(Step(p, tok).p, tok);
    }
  }

  lemma RefPending(p: Parser)
    requires Inv(p) && p.state == PSymbolOrRef
    ensures p.laType.IRef?
  {
    hide Sound, Search;
  }

  lemma ExactlyInDefs(p: Parser, tok: L.Token)
    requires Inv(p) && !IsFieldState(p.state) && !IsEnumState(p.state)
    ensures Consume(p, tok).Some? <==> MayComeInDefs(p, tok)
  {
    hide Inv, Consume, Search;
    match p.state
    case PStart => AtStart(p, tok);
    case PNs => AtNs(p, tok);
    case PAny => AtAny(p, tok);
    case PDefOrAnnote => AtDefOrNote(p, tok);
    case PAnnote(_) => AtNote(p, tok);
    case PAnnoteValue(_) => AtNote(p, tok);
    case PDefType => AtName(p, tok);
    case PGroupId => AtGroupStart(p, tok);
    case PGroupSuper => AtGroupStart(p, tok);
    case PGroupRArrow => AtGroupStart(p, tok);
    case PFieldOrAny => AtHead(p, tok);
    case PSuperOrFieldOrAny => AtHead(p, tok);
  }

  lemma ExactlyInFields(p: Parser, tok: L.Token)
    requires Inv(p) && IsFieldState(p.state)
    ensures Consume(p, tok).Some? <==> MayComeInFields(p, tok)
  {
    hide Inv, Consume, FollowsType, NewField, TypeInv, FieldUnnamed;
    match p.state
    case PField => AtField(p, tok);
    case PFieldType => AtFieldType(p, tok);
    case PLParen(inField) => AtSizeOrEnd(p, tok, inField);
    case PLParenOptional(inField) => AtSizeOrNot(p, tok, inField);
    case PSize(inField) => AtSizeOrEnd(p, tok, inField);
    case PRParen(inField) => AtSizeOrEnd(p, tok, inField);
    case PLBracket(inField) => AtBracket(p, tok, inField);
    case PRBracket(inField) => AtSizeOrEnd(p, tok, inField);
    case PDynamic(inField) => AtStars(p, tok, inField);
    case PFieldNameAnnotes => AtFieldNotes(p, tok);
    case PFieldName => AtFieldName(p, tok);
    case PFieldNameSlash => AtFieldSlash(p, tok);
    case PFieldNameId => AtFieldSlash(p, tok);
    case PFieldOptional => AtFieldOptional(p, tok);
    case PFieldNext => AtFieldNext(p, tok);
  }

  lemma ExactlyInEnums(p: Parser, tok: L.Token)
    requires Inv(p) && IsEnumState(p.state)
    ensures Consume(p, tok).Some? <==> MayComeInEnums(p, tok)
  {
    hide Inv, Consume, Search, IsNextValue, HasNext;
    match p.state
    case PEnumOrTypedef => AtChoice(p, tok);
    case PSymbolOrRef => AtRefOrSymbol(p, tok);
    case PTypedef => AtTypedef(p, tok);
    case PEnum => AtEnum(p, tok);
    case PEnumSingleton => AtSingleton(p, tok);
    case PSymbol => AtSymbol(p, tok);
    case PSymbolAnnotes => AtSymbolNotes(p, tok);
    case PSymbolName => AtSymbolName(p, tok);
    case PSymbolSlash => AtSlash(p, tok);
    case PSymbolValue => AtValue(p, tok);
    case PSymbolNext => AtSymbolNext(p, tok);
  }

  /** A token is taken in a state of a run exactly if it may come there. */
  lemma ExactlyThese(p: Parser, tok: L.Token)
    requires Inv(p)
    ensures Consume(p, tok).Some? <==> MayCome(p, tok)
  {
    hide Inv, Consume, MayComeInFields, MayComeInEnums, MayComeInDefs, IsFieldState, IsEnumState;
    if IsFieldState(p.state) { ExactlyInFields(p, tok); }
    else if IsEnumState(p.state) { ExactlyInEnums(p, tok); }
    else { ExactlyInDefs(p, tok); }
  }

  // -------------------------------------------------------------------- stray bytes

  /** An unknown token may come nowhere. */
  lemma UnknownRefused(p: Parser)
    requires Inv(p)
    ensures Consume(p, L.Unknown) == None
  {
    hide Inv, Consume, MayCome;
    ExactlyThese(p, L.Unknown);
    NoUnknown(p);
  }

  lemma NoUnknown(p: Parser)
    requires Inv(p)
    ensures !MayCome(p, L.Unknown)
  {
    hide Inv, Search, TypeInv;
  }

  /** What no text may go on with: a byte that starts no token, or a name of more than 100
      bytes. */
  ghost predicate Unreadable(tail: seq<byte>) {
    tail != [] && (R.IsStray(tail[0]) || exists s :: R.LongWord(s, 100) && s <= tail)
  }

  lemma UnreadableBack(text: seq<byte>, pos: nat, g: seq<byte>, tail: seq<byte>)
    requires pos <= |text| && R.From(text, pos, g + tail) && R.IsGap(g) && Unreadable(tail)
    ensures L.GetToken(text, pos, TOKEN_MAX_SIZE).0 in {L.Unknown, L.NoMemory}
  {
    hide L.GetToken, R.IsGap, R.From, R.IsStray, R.LongWord;
    if R.IsStray(tail[0]) {
      R.StrayBack(text, pos, g, tail, TOKEN_MAX_SIZE);
    } else {
      var s :| R.LongWord(s, 100) && s <= tail;
      LongBack(text, pos, g, s, tail);
    }
  }

  lemma LongBack(text: seq<byte>, pos: nat, g: seq<byte>, s: seq<byte>, tail: seq<byte>)
    requires pos <= |text| && R.From(text, pos, g + tail) && R.IsGap(g) && R.LongWord(s, 100) && s <= tail
    ensures L.GetToken(text, pos, TOKEN_MAX_SIZE).0 == L.NoMemory
  {
    hide L.GetToken, R.IsGap, R.From, L.TokenStart, L.TokenAt, R.Here;
    LetterStarts(s, tail);
    R.GapSkipped(text, pos, g, tail);
    assert tail == s + tail[|s|..];
    var at := pos + |g|;
    R.FirstOf(text, at, s, tail[|s|..]);
    R.HereThen(text, at, s, tail[|s|..]);
    R.LongNameBack(text, at, s, TOKEN_MAX_SIZE);
    R.GetTokenAt(text, pos, at, TOKEN_MAX_SIZE);
  }

  lemma LetterStarts(s: seq<byte>, tail: seq<byte>)
    requires R.LongWord(s, 100) && s <= tail
    ensures s != [] && s[0] != 0 && tail != [] && R.StartsToken(tail[0])
  {
  }

  /** From any point on, a text is refused if something like that follows its tokens. */
  lemma {:induction false} RefusedFrom(
    text: seq<byte>, pos: nat, p: Parser, g: seq<byte>, ps: seq<R.Printed>, tail: seq<byte>)
    requires pos <= |text| && R.From(text, pos, g + R.Lay(ps, tail)) && R.IsGap(g) && Inv(p)
    requires R.Laid(ps, tail, TOKEN_MAX_SIZE) && Unreadable(tail)
    ensures ParseFrom(text, pos, p) == None
    decreases ps
  {
    hide Inv, Consume, ParseFrom, L.GetToken, R.Print, R.Printable, R.MayFollow, R.IsGap, R.From, Unreadable;
    ParseStep(text, pos, p);
    if ps == [] {
      UnreadableBack(text, pos, g, tail);
      UnknownRefused(p);
    } else {
      var x, rest := ps[0], ps[0].gap + R.Lay(ps[1..], tail);
      R.GetTokenBack(text, pos, g, x, rest, TOKEN_MAX_SIZE);
      R.PrintStart(x, TOKEN_MAX_SIZE);
      var q := Consume(p, x.token);
      if q.Some? { RefusedFrom(text, pos + |g| + |R.Print(x)|, q.value, x.gap, ps[1..], tail); }
    }
  }

  /** Whatever its tokens, a text that goes on so is refused. */
  lemma UnreadableRefused(front: seq<byte>, ps: seq<R.Printed>, tail: seq<byte>)
    requires R.IsGap(front) && R.Laid(ps, tail, TOKEN_MAX_SIZE) && Unreadable(tail)
    ensures Parse(front + R.Lay(ps, tail)) == None
  {
    hide Inv, ParseFrom, R.IsGap, R.Laid, R.Lay, Unreadable;
    InitialInv();
    var text := front + R.Lay(ps, tail);
    assert text[0..] == text;
    RefusedFrom(text, 0, INITIAL, front, ps, tail);
  }
}
