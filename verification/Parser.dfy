/** The state machine of parseSchema, src/blink_schema.c:604-1749.

    `Step` is the switch on the state: what one token does in one state, and whether the
    token is used up (`shift`) or looked at again in the next state. A step that reports an
    error, where the C code sets retval to false, is `Fail`. The pointers ns, g, f, type, e,
    s and annote are optional values; each step demands that those it follows are set. */
module Parser {
  import opened Base
  import opened Schema
  import L = Lexer

  /** What an annotation in progress belongs to. */
  datatype Owner = OfDef | OfTypedef | OfType | OfName | OfSymbol

  /** enum parse_state. States that exist for fields and for type definitions carry a flag. */
  datatype State =
    | PStart | PNs | PAny | PDefOrAnnote
    | PAnnote(of: Owner) | PAnnoteValue(of: Owner)
    | PDefType | PGroupId | PGroupSuper | PGroupRArrow | PFieldOrAny | PSuperOrFieldOrAny
    | PField | PFieldType
    | PLParen(inField: bool) | PLParenOptional(inField: bool) | PSize(inField: bool) | PRParen(inField: bool)
    | PLBracket(inField: bool) | PRBracket(inField: bool) | PDynamic(inField: bool)
    | PFieldNameAnnotes | PFieldName | PFieldNameSlash | PFieldNameId | PFieldOptional | PFieldNext
    | PTypedef | PEnum | PEnumSingleton | PEnumOrTypedef | PSymbolOrRef
    | PSymbol | PSymbolAnnotes | PSymbolName | PSymbolSlash | PSymbolValue | PSymbolNext

  /** A pointer to the type of a field or of a type definition. */
  datatype TypePtr = FieldType(group: Ref, field: nat) | DefType(def: Ref)

  /** A pointer to an annotation in `annotes` or in `laAnnotes`. */
  datatype AnnotePtr = AnnotePtr(lookahead: bool, at: nat)

  /** The local variables of parseSchema. */
  datatype Parser = Parser(
    state: State,
    nss: Namespaces,
    ns: Option<nat>,
    g: Option<Ref>,
    f: Option<nat>,
    e: Option<Ref>,
    s: Option<nat>,
    ty: Option<TypePtr>,
    annote: Option<AnnotePtr>,
    name: Option<Text>,
    annotes: seq<Annote>,
    laName: Option<Text>,
    laType: IType,
    laAnnotes: seq<Annote>)

  const INITIAL: Parser := Parser(PStart, [], None, None, None, None, None, None, None, None, [], None, IRef, [])

  datatype Next = Go(p: Parser, shift: bool) | Fail

  // ------------------------------------------------------- following the pointers

  ghost predicate InNamespace(p: Parser) {
    p.ns.Some? && p.ns.value < |p.nss|
  }

  function Defs(p: Parser): seq<Def>
    requires InNamespace(p)
  {
    p.nss[p.ns.value].defs
  }

  /** The group being built is the newest definition of the current namespace. */
  ghost predicate InGroup(p: Parser) {
    && InNamespace(p) && Defs(p) != []
    && p.g == Some(Ref(p.ns.value, |Defs(p)| - 1)) && Defs(p)[|Defs(p)| - 1].Group?
  }

  /** The field being built is the newest field of that group, and `type` points into it. */
  ghost predicate InField(p: Parser) {
    && InGroup(p) && Last(p).fields != [] && p.f == Some(|Last(p).fields| - 1)
    && p.ty == Some(FieldType(p.g.value, p.f.value))
  }

  ghost predicate InTypedef(p: Parser) {
    && InNamespace(p) && Defs(p) != []
    && p.ty == Some(DefType(Ref(p.ns.value, |Defs(p)| - 1))) && Last(p).TypeDef?
  }

  ghost predicate InEnum(p: Parser) {
    && InNamespace(p) && Defs(p) != []
    && p.e == Some(Ref(p.ns.value, |Defs(p)| - 1)) && Last(p).Enum?
  }

  ghost predicate InSymbol(p: Parser) {
    InEnum(p) && Last(p).symbols != [] && p.s == Some(|Last(p).symbols| - 1)
  }

  ghost predicate InAnnote(p: Parser) {
    p.annote.Some? && p.annote.value.at < |if p.annote.value.lookahead then p.laAnnotes else p.annotes|
  }

  function Last(p: Parser): Def
    requires InNamespace(p) && Defs(p) != []
  {
    Defs(p)[|Defs(p)| - 1]
  }

  /** newListElement on the definitions of the current namespace. */
  function AddDef(p: Parser, d: Def): Parser
    requires InNamespace(p)
  {
    p.(nss := p.nss[p.ns.value := p.nss[p.ns.value].(defs := Defs(p) + [d])])
  }

  /** Assignment through g, e or type: the definition pointed to becomes d. */
  function PutDef(p: Parser, r: Ref, d: Def): Parser
    requires ValidRef(p.nss, r)
  {
    p.(nss := p.nss[r.ns := p.nss[r.ns].(defs := p.nss[r.ns].defs[r.at := d])])
  }

  function CurrentField(p: Parser): Field
    requires InField(p)
  {
    DefAt(p.nss, p.g.value).fields[p.f.value]
  }

  function PutField(p: Parser, f: Field): Parser
    requires InField(p)
  {
    var d := DefAt(p.nss, p.g.value);
    PutDef(p, p.g.value, d.(fields := d.fields[p.f.value := f]))
  }

  function CurrentType(p: Parser): TypeInfo
    requires p.ty.Some? && (InField(p) || InTypedef(p))
  {
    match p.ty.value
    case FieldType(g, i) => DefAt(p.nss, g).fields[i].ty
    case DefType(r) => DefAt(p.nss, r).ty
  }

  function PutType(p: Parser, t: TypeInfo): Parser
    requires p.ty.Some? && (InField(p) || InTypedef(p))
  {
    match p.ty.value
    case FieldType(g, i) => PutField(p, CurrentField(p).(ty := t))
    case DefType(r) => PutDef(p, r, RetypeDef(DefAt(p.nss, r), t))
  }

  function RetypeDef(d: Def, t: TypeInfo): Def
    requires d.TypeDef?
  {
    TypeDef(d.name, d.notes, t)
  }

  function Shift(p: Parser, state: State): Next {
    Go(p.(state := state), true)
  }

  function Again(p: Parser, state: State): Next {
    Go(p.(state := state), false)
  }

  // ------------------------------------------------------------------ namespaces

  /** getNamespace, src/blink_schema.c:567-588. */
  function GetNamespace(p: Parser, name: Text): Parser {
    match Search(NamespaceNames(p.nss), name)
    case Some(i) => p.(ns := Some(i))
    case None => p.(ns := Some(|p.nss|), nss := p.nss + [Namespace(name, [])])
  }

  function StepStart(p: Parser, tok: L.Token): Next {
    if tok == L.Keyword(L.KNamespace) then Shift(p, PNs)
    else Again(GetNamespace(p, []), PAny)
  }

  function StepNs(p: Parser, tok: L.Token): Next {
    if tok.Name? then Shift(GetNamespace(p, tok.text), PAny) else Fail
  }

  function StepAny(p: Parser, tok: L.Token): Next {
    if tok == L.Keyword(L.KNamespace) then Shift(p, PNs)
    else if tok == L.Keyword(L.KAt) || tok.Name? || tok.CName? then Again(p, PDefOrAnnote)
    else if tok.Eof? then Shift(p, PAny)
    else Fail
  }

  function StepDefOrAnnote(p: Parser, tok: L.Token): Next {
    if tok == L.Keyword(L.KAt) then Shift(p, PAnnote(OfDef))
    else if tok.Name? then Shift(p.(name := Some(tok.text)), PDefType)
    else Fail
  }

  // ----------------------------------------------------------------- annotations

  /** The name of an annotation: an existing one is found in `annotes`, a new one goes to the
      list of its owner. */
  function StepAnnote(p: Parser, tok: L.Token, of: Owner): Next {
    if !tok.Name? && !tok.CName? then Fail
    else
      match Search(AnnoteNames(p.annotes), tok.text)
      case Some(i) => Shift(p.(annote := Some(AnnotePtr(false, i))), PAnnoteValue(of))
      case None =>
        var a := Annote(tok.text, None);
        if of.OfTypedef? then
          Shift(p.(annote := Some(AnnotePtr(true, |p.laAnnotes|)), laAnnotes := p.laAnnotes + [a]), PAnnoteValue(of))
        else
          Shift(p.(annote := Some(AnnotePtr(false, |p.annotes|)), annotes := p.annotes + [a]), PAnnoteValue(of))
  }

  function AfterAnnote(of: Owner): State {
    match of
    case OfDef => PDefOrAnnote
    case OfTypedef => PEnumOrTypedef
    case OfType => PFieldType
    case OfName => PFieldName
    case OfSymbol => PSymbolName
  }

  function StepAnnoteValue(p: Parser, tok: L.Token, of: Owner): Next
    requires InAnnote(p)
  {
    if !tok.Literal? then Fail
    else
      var i := p.annote.value.at;
      if p.annote.value.lookahead then
        Shift(p.(laAnnotes := p.laAnnotes[i := p.laAnnotes[i].(value := Some(tok.text))]), AfterAnnote(of))
      else
        Shift(p.(annotes := p.annotes[i := p.annotes[i].(value := Some(tok.text))]), AfterAnnote(of))
  }

  // ----------------------------------------------------------------- definitions

  predicate EndsGroupName(tok: L.Token) {
    || tok.Name? || tok.CName? || tok.Eof?
    || (tok.Keyword? && (tok.key.KSlash? || tok.key.KColon? || tok.key.KRArrow? || tok.key.KAt? || tok.key.KNamespace?))
  }

  function StepDefType(p: Parser, tok: L.Token): Next
    requires InNamespace(p) && p.name.Some?
  {
    if EndsGroupName(tok) then
      if Search(DefNames(Defs(p)), p.name.value).Some? then Fail
      else
        var q := AddDef(p, Group(p.name.value, p.annotes, None, None, None, []))
                 .(g := Some(Ref(p.ns.value, |Defs(p)|)), annotes := []);
        if tok == L.Keyword(L.KSlash) then Shift(q, PGroupId)
        else if tok == L.Keyword(L.KColon) then Shift(q, PGroupSuper)
        else if tok == L.Keyword(L.KRArrow) then Shift(q, PField)
        else Again(q, PAny)
    else if tok == L.Keyword(L.KEqual) then
      if Search(DefNames(Defs(p)), p.name.value).Some? then Fail else Shift(p, PEnumOrTypedef)
    else Fail
  }

  /** tokenToIType, src/blink_schema.c:1751-1785. The token enumeration lists milltime before
      nanotime and the translation table the other way round, so the two come out exchanged. */
  function ITypeOf(tok: L.Token): Option<IType> {
    if !tok.Keyword? then None
    else match tok.key
      case KString => Some(IString)
      case KBinary => Some(IBinary)
      case KFixed => Some(IFixed)
      case KBool => Some(IBool)
      case KU8 => Some(IU8)
      case KU16 => Some(IU16)
      case KU32 => Some(IU32)
      case KU64 => Some(IU64)
      case KI8 => Some(II8)
      case KI16 => Some(II16)
      case KI32 => Some(II32)
      case KI64 => Some(II64)
      case KF64 => Some(IF64)
      case KDate => Some(IDate)
      case KTimeOfDayMilli => Some(ITimeOfDayMilli)
      case KTimeOfDayNano => Some(ITimeOfDayNano)
      case KMilliTime => Some(INanoTime)
      case KNanoTime => Some(IMilliTime)
      case KDecimal => Some(IDecimal)
      case KObject => Some(IObject)
      case _ => None
  }

  function StepEnumOrTypedef(p: Parser, tok: L.Token): Next {
    if tok == L.Keyword(L.KBar) then Shift(p, PEnumSingleton)
    else if tok == L.Keyword(L.KAt) then Shift(p, PAnnote(OfTypedef))
    else if tok.Name? then Shift(p.(laName := Some(tok.text), laType := IRef), PSymbolOrRef)
    else match ITypeOf(tok)
      case Some(t) => Shift(p.(laType := t), PTypedef)
      case None => Fail
  }

  function StepSymbolOrRef(p: Parser, tok: L.Token): Next {
    if tok == L.Keyword(L.KBar) || tok == L.Keyword(L.KSlash) then Again(p, PEnum) else Again(p, PTypedef)
  }

  function StepTypedef(p: Parser): Next
    requires InNamespace(p) && p.name.Some? && (p.laType.IRef? ==> p.laName.Some?)
  {
    var t := TypeInfo(if p.laType.IRef? then p.laName.value else [], p.laAnnotes, p.laType, None, 0, false, false);
    var q := AddDef(p, TypeDef(p.name.value, p.annotes, t))
             .(ty := Some(DefType(Ref(p.ns.value, |Defs(p)|))), annotes := [], laAnnotes := []);
    Again(q, if p.laType.IRef? then PDynamic(false) else PLBracket(false))
  }

  function StepEnum(p: Parser): Next
    requires InNamespace(p) && p.name.Some? && (p.state.PEnum? ==> p.laName.Some?)
  {
    var q := AddDef(p, Enum(p.name.value, p.annotes, [])).(e := Some(Ref(p.ns.value, |Defs(p)|)), annotes := []);
    if p.state.PEnum? then Again(q.(name := p.laName, annotes := p.laAnnotes, laAnnotes := []), PSymbol)
    else Again(q, PSymbolAnnotes)
  }

  // --------------------------------------------------------------------- symbols

  function StepSymbolAnnotes(p: Parser, tok: L.Token): Next {
    if tok == L.Keyword(L.KAt) then Shift(p, PAnnote(OfSymbol)) else Again(p, PSymbolName)
  }

  function StepSymbolName(p: Parser, tok: L.Token): Next {
    if tok.Name? then Shift(p.(name := Some(tok.text)), PSymbol) else Fail
  }

  function StepSymbol(p: Parser): Next
    requires InEnum(p) && p.name.Some?
  {
    var d := DefAt(p.nss, p.e.value);
    if Search(SymbolNames(d.symbols), p.name.value).Some? then Fail
    else
      var d' := Enum(d.name, d.notes, d.symbols + [Symbol(p.name.value, p.annotes, 0)]);
      Again(PutDef(p, p.e.value, d').(s := Some(|d.symbols|), annotes := []), PSymbolSlash)
  }

  function SetValue(p: Parser, value: int32): Parser
    requires InSymbol(p)
  {
    var d := DefAt(p.nss, p.e.value);
    PutDef(p, p.e.value, Enum(d.name, d.notes, d.symbols[p.s.value := d.symbols[p.s.value].(value := value)]))
  }

  /** No explicit value: one more than the previous symbol's, or zero for the first. */
  function StepSymbolSlash(p: Parser, tok: L.Token): Next
    requires InSymbol(p)
  {
    var d := DefAt(p.nss, p.e.value);
    if tok == L.Keyword(L.KSlash) then Shift(p, PSymbolValue)
    else if p.s.value == 0 then Again(p, PSymbolNext)
    else
      var previous := d.symbols[p.s.value - 1].value;
      if previous == INT32_MAX then Fail else Again(SetValue(p, previous + 1), PSymbolNext)
  }

  function StepSymbolValue(p: Parser, tok: L.Token): Next
    requires InSymbol(p)
  {
    var d := DefAt(p.nss, p.e.value);
    if !tok.Uint? && !tok.Int? then Fail
    else
      var v: int := if tok.Uint? then tok.number else tok.signedNumber;
      if v > INT32_MAX || v < INT32_MIN then Fail
      else if p.s.value > 0 && v <= d.symbols[p.s.value - 1].value then Fail
      else Shift(SetValue(p, v), PSymbolNext)
  }

  function StepSymbolNext(p: Parser, tok: L.Token): Next {
    if tok == L.Keyword(L.KBar) then Shift(p, PSymbolAnnotes) else Again(p, PAny)
  }

  // ---------------------------------------------------------------------- groups

  predicate EndsGroup(tok: L.Token) {
    tok == L.Keyword(L.KAt) || tok == L.Keyword(L.KNamespace) || tok.Name? || tok.CName? || tok.Eof?
  }

  function StepFieldOrAny(p: Parser, tok: L.Token, super: bool): Next {
    if super && tok == L.Keyword(L.KColon) then Shift(p, PGroupSuper)
    else if tok == L.Keyword(L.KRArrow) then Shift(p, PField)
    else if EndsGroup(tok) then Again(p, PAny)
    else Fail
  }

  function StepGroupId(p: Parser, tok: L.Token): Next
    requires InGroup(p)
  {
    if tok.Uint? then
      var d := DefAt(p.nss, p.g.value);
      Shift(PutDef(p, p.g.value, d.(id := Some(tok.number))), PSuperOrFieldOrAny)
    else Fail
  }

  function StepGroupSuper(p: Parser, tok: L.Token): Next
    requires InGroup(p)
  {
    if tok.Name? || tok.CName? then
      var d := DefAt(p.nss, p.g.value);
      Shift(PutDef(p, p.g.value, d.(superName := Some(tok.text))), PFieldOrAny)
    else Fail
  }

  function StepGroupRArrow(p: Parser, tok: L.Token): Next {
    if tok == L.Keyword(L.KRArrow) then Shift(p, PField) else Fail
  }

  // ---------------------------------------------------------------------- fields

  function StepField(p: Parser, tok: L.Token): Next
    requires InGroup(p)
  {
    var d := DefAt(p.nss, p.g.value);
    var q := PutDef(p, p.g.value, d.(fields := d.fields + [Field(None, [], NO_TYPE, false)]))
             .(f := Some(|d.fields|), ty := Some(FieldType(p.g.value, |d.fields|)));
    Again(q, if tok == L.Keyword(L.KAt) then PAnnote(OfType) else PFieldType)
  }

  function StepFieldType(p: Parser, tok: L.Token): Next
    requires InField(p)
  {
    var t := CurrentType(p).(notes := p.annotes);
    var q := p.(annotes := []);
    match ITypeOf(tok)
    case Some(tag) =>
      Shift(PutType(q, t.(tag := tag)),
            if tag.IString? || tag.IBinary? then PLParenOptional(true)
            else if tag.IFixed? then PLParen(true)
            else PFieldNameAnnotes)
    case None =>
      if tok.Name? || tok.CName? then Shift(PutType(q, t.(name := tok.text, tag := IRef)), PDynamic(true)) else Fail
  }

  function StepDynamic(p: Parser, tok: L.Token, inField: bool): Next
    requires p.ty.Some? && (InField(p) || InTypedef(p))
  {
    if tok == L.Keyword(L.KStar) then Shift(PutType(p, CurrentType(p).(isDynamic := true)), p.state)
    else Again(p, PLBracket(inField))
  }

  /** Where a type ends. */
  function AfterType(inField: bool): State {
    if inField then PFieldNameAnnotes else PAny
  }

  function StepLBracket(p: Parser, tok: L.Token, inField: bool): Next {
    if tok == L.Keyword(L.KLBracket) then Shift(p, PRBracket(inField)) else Again(p, AfterType(inField))
  }

  function StepRBracket(p: Parser, tok: L.Token, inField: bool): Next
    requires p.ty.Some? && (InField(p) || InTypedef(p))
  {
    if tok == L.Keyword(L.KRBracket) then Shift(PutType(p, CurrentType(p).(isSequence := true)), AfterType(inField))
    else Fail
  }

  function StepLParen(p: Parser, tok: L.Token, inField: bool): Next {
    if tok == L.Keyword(L.KLParen) then Shift(p, PSize(inField)) else Fail
  }

  function StepLParenOptional(p: Parser, tok: L.Token, inField: bool): Next
    requires p.ty.Some? && (InField(p) || InTypedef(p))
  {
    if tok == L.Keyword(L.KLParen) then Shift(p, PSize(inField))
    else Again(PutType(p, CurrentType(p).(size := UINT32_MAX)), AfterType(inField))
  }

  /** The closing parenthesis is not waited for. */
  function StepSize(p: Parser, tok: L.Token, inField: bool): Next
    requires p.ty.Some? && (InField(p) || InTypedef(p))
  {
    if tok.Uint? && tok.number <= UINT32_MAX then
      Shift(PutType(p, CurrentType(p).(size := tok.number)), AfterType(inField))
    else Fail
  }

  function StepRParen(p: Parser, tok: L.Token, inField: bool): Next {
    if tok == L.Keyword(L.KRParen) then Shift(p, AfterType(inField)) else Fail
  }

  function StepFieldNameAnnotes(p: Parser, tok: L.Token): Next {
    if tok == L.Keyword(L.KAt) then Shift(p, PAnnote(OfName)) else Again(p, PFieldName)
  }

  function StepFieldName(p: Parser, tok: L.Token): Next
    requires InField(p)
  {
    if !tok.Name? then Fail
    else if Search(FieldNames(DefAt(p.nss, p.g.value).fields), tok.text).Some? then Fail
    else Shift(PutField(p, CurrentField(p).(name := Some(tok.text), notes := p.annotes))
               .(annotes := []), PFieldOptional)
  }

  function StepFieldNameSlash(p: Parser, tok: L.Token): Next {
    if tok == L.Keyword(L.KSlash) then Shift(p, PFieldNameId) else Again(p, PFieldOptional)
  }

  function StepFieldNameId(p: Parser, tok: L.Token): Next {
    if tok.Uint? then Shift(p, PFieldNameId) else Fail
  }

  function StepFieldOptional(p: Parser, tok: L.Token): Next
    requires InField(p)
  {
    if tok == L.Keyword(L.KQuestion) then Shift(PutField(p, CurrentField(p).(isOptional := true)), PFieldNext)
    else Again(p, PFieldNext)
  }

  function StepFieldNext(p: Parser, tok: L.Token): Next {
    if tok == L.Keyword(L.KComma) then Shift(p, PField) else Again(p, PAny)
  }
}
