/** Schema texts: how they are written as tokens, what they mean, and how the machine of
    parseSchema reads a token list. A text is a list of items. It says what its author is free
    to choose: whether a symbol has its value written, whether an enumeration begins with a
    bar, whether a string has a size, where annotations stand, and which namespace comes next. */
module SchemaPrint {
  import opened Base
  import opened Schema
  import opened Parser
  import opened ParserInvariant
  import opened SchemaParser
  import L = Lexer
  import R = LexerRoundTrip

  type Tokens = seq<L.Token>

  const END: L.Token := L.Eof

  function Key(k: L.Key): L.Token { L.Keyword(k) }

  // --------------------------------------------------------------------------- texts

  datatype NoteText = NoteText(name: Text, value: Text)

  /** A built-in type, with its size if that is written, or a reference. */
  datatype TypeText = TypeText(tag: IType, name: Text, size: Option<uint32>, stars: nat, brackets: bool)

  datatype FieldText = FieldText(ty: TypeText, notes: seq<NoteText>, name: Text, isOptional: bool)

  datatype SymbolText = SymbolText(notes: seq<NoteText>, name: Text, value: Option<int32>)

  /** Behind the equals sign annotations may come, before it is clear what is being defined. In
      an enumeration without a leading bar the first symbol stands where a type definition has
      its type. */
  datatype DefText =
    | GroupText(notes: seq<NoteText>, name: Text, id: Option<uint64>, superName: Option<Text>, fields: seq<FieldText>)
    | EnumText(notes: seq<NoteText>, name: Text, ahead: seq<NoteText>, bar: bool, first: SymbolText,
               more: seq<SymbolText>)
    | AliasText(notes: seq<NoteText>, name: Text, ahead: seq<NoteText>, ty: TypeText)

  datatype Item = Header(name: Text) | Define(def: DefText)

  // ------------------------------------------------------------------ what can be written

  /** A field of built-in type has no star and no brackets; a size is optional on strings and
      binaries, mandatory on fixed values, and absent elsewhere. */
  predicate FieldTypeOk(t: TypeText) {
    if t.tag.IRef? then t.size.None?
    else
      && t.name == [] && t.stars == 0 && !t.brackets
      && (t.tag.IFixed? ==> t.size.Some?) && (t.size.Some? ==> t.tag.IString? || t.tag.IBinary? || t.tag.IFixed?)
  }

  /** A type definition can be a sequence of anything, but has no size. */
  predicate AliasTypeOk(t: TypeText) {
    t.size.None? && (!t.tag.IRef? ==> t.name == [] && t.stars == 0)
  }

  /** There is room for one annotation before a field's name, none before its type. */
  predicate FieldOk(f: FieldText) {
    FieldTypeOk(f.ty) && |f.notes| <= 1
  }

  predicate SymbolsOk(ss: seq<SymbolText>) {
    forall i :: 0 <= i < |ss| ==> |ss[i].notes| <= 1
  }

  /** Without a leading bar, a bar or a slash must tell the enumeration from a reference. */
  predicate DefTextOk(d: DefText) {
    match d
    case GroupText(_, _, _, _, fields) => forall i :: 0 <= i < |fields| ==> FieldOk(fields[i])
    case EnumText(_, _, _, bar, first, more) =>
      && SymbolsOk(more) && |first.notes| <= 1
      && (!bar ==> first.notes == [] && (first.value.Some? || more != []))
    case AliasText(_, _, _, ty) => AliasTypeOk(ty)
  }

  predicate ItemsOk(items: seq<Item>) {
    forall i :: 0 <= i < |items| && items[i].Define? ==> DefTextOk(items[i].def)
  }

  // ---------------------------------------------------------------------- as tokens

  /** A reference: qualified names are written as one token. */
  function RefToken(name: Text): L.Token {
    if ':' as int in name then L.CName(name) else L.Name(name)
  }

  /** The keyword of a type; nanotime and millitime are exchanged on the way in. */
  function KeyOf(tag: IType): L.Key
    requires !tag.IRef?
  {
    match tag
    case IString => L.KString
    case IBinary => L.KBinary
    case IFixed => L.KFixed
    case IBool => L.KBool
    case IU8 => L.KU8
    case IU16 => L.KU16
    case IU32 => L.KU32
    case IU64 => L.KU64
    case II8 => L.KI8
    case II16 => L.KI16
    case II32 => L.KI32
    case II64 => L.KI64
    case IF64 => L.KF64
    case IDate => L.KDate
    case ITimeOfDayMilli => L.KTimeOfDayMilli
    case ITimeOfDayNano => L.KTimeOfDayNano
    case INanoTime => L.KMilliTime
    case IMilliTime => L.KNanoTime
    case IDecimal => L.KDecimal
    case IObject => L.KObject
  }

  lemma KeyOfBack(tag: IType)
    requires !tag.IRef?
    ensures ITypeOf(Key(KeyOf(tag))) == Some(tag)
  {
  }

  /** The word for each built-in type. */
  function TypeWord(tag: IType): string {
    match tag
    case IString => "string"
    case IBinary => "binary"
    case IFixed => "fixed"
    case IBool => "bool"
    case IU8 => "u8"
    case IU16 => "u16"
    case IU32 => "u32"
    case IU64 => "u64"
    case II8 => "i8"
    case II16 => "i16"
    case II32 => "i32"
    case II64 => "i64"
    case IF64 => "f64"
    case IDate => "date"
    case ITimeOfDayMilli => "timeOfDayMilli"
    case ITimeOfDayNano => "timeOfDayNano"
    case INanoTime => "millitime"
    case IMilliTime => "nanotime"
    case IDecimal => "decimal"
    case IObject => "object"
    case IRef => ""
  }

  /** A keyword means a type exactly if it is that type's word. */
  lemma TypeWords(k: L.Key, tag: IType)
    ensures ITypeOf(Key(k)) == Some(tag) <==> L.Spelling(k) == TypeWord(tag)
  {
    hide L.Spelling, ITypeOf, KeyOf, TypeWord, R.KeyNamed;
    R.KeysAreNamed(k);
    if tag.IRef? {
      NoKeyIsRef(k);
    } else {
      KeyOfBack(tag);
      KeyOfWord(tag);
      R.KeysAreNamed(KeyOf(tag));
      TypeOfKey(k);
    }
  }

  lemma NoKeyIsRef(k: L.Key)
    ensures ITypeOf(Key(k)) != Some(IRef) && L.Spelling(k) != TypeWord(IRef)
  {
    hide L.Spelling;
  }

  lemma KeyOfWord(tag: IType)
    requires !tag.IRef?
    ensures L.Spelling(KeyOf(tag)) == TypeWord(tag)
  {
  }

  lemma TypeOfKey(k: L.Key)
    ensures ITypeOf(Key(k)).Some? ==> !ITypeOf(Key(k)).value.IRef? && KeyOf(ITypeOf(Key(k)).value) == k
  {
  }

  function NoteTokens(n: NoteText): Tokens {
    [Key(L.KAt)] + [RefToken(n.name), L.Literal(n.value)]
  }

  function NotesTokens(ns: seq<NoteText>): Tokens {
    if ns == [] then [] else NoteTokens(ns[0]) + NotesTokens(ns[1..])
  }

  function Brackets(isSequence: bool): Tokens {
    if isSequence then [Key(L.KLBracket), Key(L.KRBracket)] else []
  }

  function Stars(n: nat): Tokens {
    if n == 0 then [] else [Key(L.KStar)] + Stars(n - 1)
  }

  /** A size is opened and never closed. */
  function SizeTokens(size: Option<uint32>): Tokens {
    if size.Some? then [Key(L.KLParen), L.Uint(size.value)] else []
  }

  function TypeToken(t: TypeText): L.Token {
    if t.tag.IRef? then RefToken(t.name) else Key(KeyOf(t.tag))
  }

  function FieldTypeTokens(t: TypeText): Tokens {
    [TypeToken(t)] + SizeTokens(t.size) + Stars(t.stars) + Brackets(t.brackets)
  }

  function OptionalTokens(isOptional: bool): Tokens {
    if isOptional then [Key(L.KQuestion)] else []
  }

  function FieldTokens(f: FieldText): Tokens {
    FieldTypeTokens(f.ty) + NotesTokens(f.notes) + [L.Name(f.name)] + OptionalTokens(f.isOptional)
  }

  function FieldListTokens(fs: seq<FieldText>): Tokens
    requires fs != []
  {
    if |fs| == 1 then FieldTokens(fs[0]) else FieldTokens(fs[0]) + [Key(L.KComma)] + FieldListTokens(fs[1..])
  }

  function ValueToken(v: int32): L.Token {
    if v >= 0 then L.Uint(v) else L.Int(v)
  }

  function ValueTokens(v: Option<int32>): Tokens {
    if v.Some? then [Key(L.KSlash), ValueToken(v.value)] else []
  }

  function SymbolTokens(s: SymbolText): Tokens {
    NotesTokens(s.notes) + [L.Name(s.name)] + ValueTokens(s.value)
  }

  function MoreSymbols(ss: seq<SymbolText>): Tokens {
    if ss == [] then [] else [Key(L.KBar)] + SymbolTokens(ss[0]) + MoreSymbols(ss[1..])
  }

  function IdTokens(id: Option<uint64>): Tokens {
    if id.Some? then [Key(L.KSlash), L.Uint(id.value)] else []
  }

  function SuperTokens(superName: Option<Text>): Tokens {
    if superName.Some? then [Key(L.KColon), RefToken(superName.value)] else []
  }

  function FieldsTokens(fs: seq<FieldText>): Tokens {
    if fs != [] then [Key(L.KRArrow)] + FieldListTokens(fs) else []
  }

  /** What stands behind the name of a definition. */
  function BodyTokens(d: DefText): Tokens {
    match d
    case GroupText(_, _, id, superName, fields) => IdTokens(id) + SuperTokens(superName) + FieldsTokens(fields)
    case EnumText(_, _, ahead, bar, first, more) =>
      [Key(L.KEqual)] + NotesTokens(ahead) + (if bar then [Key(L.KBar)] else []) + SymbolTokens(first)
      + MoreSymbols(more)
    case AliasText(_, _, ahead, ty) =>
      [Key(L.KEqual)] + NotesTokens(ahead)
      + [if ty.tag.IRef? then L.Name(ty.name) else Key(KeyOf(ty.tag))] + Stars(ty.stars) + Brackets(ty.brackets)
  }

  function DefTokens(d: DefText): Tokens {
    NotesTokens(d.notes) + [L.Name(d.name)] + BodyTokens(d)
  }

  function ItemTokens(item: Item): Tokens {
    match item
    case Header(name) => [Key(L.KNamespace), L.Name(name)]
    case Define(d) => DefTokens(d)
  }

  function ItemsTokens(items: seq<Item>): Tokens {
    if items == [] then [] else ItemTokens(items[0]) + ItemsTokens(items[1..])
  }

  // ------------------------------------------------------------------------- meaning

  /** Two lists of annotations: those of the definition, the field or the symbol, and those of
      a type that is still to come. */
  datatype Notes = Notes(own: seq<Annote>, ahead: seq<Annote>)

  /** One more annotation. A name that is there already gets the new value. */
  function PutNote(ns: Notes, n: NoteText, ahead: bool): Notes {
    match Search(AnnoteNames(ns.own), n.name)
    case Some(i) => ns.(own := ns.own[i := Annote(ns.own[i].name, Some(n.value))])
    case None =>
      var a := Annote(n.name, Some(n.value));
      if ahead then ns.(ahead := ns.ahead + [a]) else ns.(own := ns.own + [a])
  }

  function PutNotes(ns: Notes, texts: seq<NoteText>, ahead: bool): Notes
    decreases texts
  {
    if texts == [] then ns else PutNotes(PutNote(ns, texts[0], ahead), texts[1..], ahead)
  }

  function OwnNotes(texts: seq<NoteText>): seq<Annote> {
    PutNotes(Notes([], []), texts, false).own
  }

  /** A string or binary field without a size may have any. */
  function FieldTypeOf(t: TypeText): TypeInfo {
    var size := if t.size.Some? then t.size.value else if t.tag.IString? || t.tag.IBinary? then 0xffff_ffff else 0;
    TypeInfo(t.name, [], t.tag, None, size, t.stars > 0, t.brackets)
  }

  function AliasTypeOf(t: TypeText, notes: seq<Annote>): TypeInfo {
    TypeInfo(t.name, notes, t.tag, None, 0, t.stars > 0, t.brackets)
  }

  function FieldOf(f: FieldText): Field {
    Field(Some(f.name), OwnNotes(f.notes), FieldTypeOf(f.ty), f.isOptional)
  }

  /** The fields with more behind them; no name may be found among those in front of it. */
  function FieldsOf(before: seq<Field>, fs: seq<FieldText>): Option<seq<Field>>
    decreases fs
  {
    if fs == [] then Some(before)
    else if Search(FieldNames(before), fs[0].name).Some? then None
    else FieldsOf(before + [FieldOf(fs[0])], fs[1..])
  }

  /** A symbol's value: the one that is written if it is greater than the previous symbol's;
      otherwise zero for the first symbol and one more than the previous symbol's for the
      others, if there is one more. */
  function ValueOf(before: seq<Symbol>, written: Option<int32>): Option<int32> {
    if before == [] then Some(if written.Some? then written.value else 0)
    else
      var previous := before[|before| - 1].value;
      if written.Some? then if previous < written.value then written else None
      else if previous < 0x7fff_ffff then Some(previous + 1) else None
  }

  function SymbolOf(before: seq<Symbol>, s: SymbolText, notes: seq<Annote>): Option<Symbol> {
    if Search(SymbolNames(before), s.name).Some? || ValueOf(before, s.value).None? then None
    else Some(Symbol(s.name, notes, ValueOf(before, s.value).value))
  }

  function SymbolsOf(before: seq<Symbol>, ss: seq<SymbolText>): Option<seq<Symbol>>
    decreases ss
  {
    if ss == [] then Some(before)
    else match SymbolOf(before, ss[0], OwnNotes(ss[0].notes))
      case None => None
      case Some(sym) => SymbolsOf(before + [sym], ss[1..])
  }

  /** A definition, and the annotations that are left lying. */
  datatype Meant = Meant(def: Def, left: seq<Annote>)

  /** The definition that a text means. Annotations behind its equals sign belong to the type or
      to the first symbol if that stands there; if a bar does they are left lying, and are found by
      whatever comes next that asks for some. */
  function DefOf(d: DefText, left: seq<Annote>): Option<Meant> {
    var own := OwnNotes(d.notes);
    match d
    case GroupText(_, name, id, superName, fields) =>
      var fs := FieldsOf([], fields);
      if fs.None? then None else Some(Meant(Group(name, own, id, superName, None, fs.value), left))
    case EnumText(_, name, ahead, bar, first, more) =>
      var ns := PutNotes(Notes(own, left), ahead, true);
      var sym := SymbolOf([], first, if bar then OwnNotes(first.notes) else ns.ahead);
      if sym.None? || SymbolsOf([sym.value], more).None? then None
      else Some(Meant(Enum(name, ns.own, SymbolsOf([sym.value], more).value), if bar then ns.ahead else []))
    case AliasText(_, name, ahead, ty) =>
      var ns := PutNotes(Notes(own, left), ahead, true);
      Some(Meant(TypeDef(name, ns.own, AliasTypeOf(ty, ns.ahead)), []))
  }

  /** A schema in the making, which of its namespaces is being added to, and the annotations that
      are left lying. */
  datatype Place = Place(nss: Namespaces, at: nat, left: seq<Annote>)
  {
    ghost predicate Valid() { at < |nss| }

    function Names(): seq<Option<Text>>
      requires Valid()
    {
      DefNames(nss[at].defs)
    }

    function Leaving(notes: seq<Annote>): Place { this.(left := notes) }
  }

  /** The schema with one more definition in that namespace. */
  function With(base: Place, d: Def): Namespaces
    requires base.Valid()
  {
    var k := base.at;
    base.nss[k := base.nss[k].(defs := base.nss[k].defs + [d])]
  }

  function After(base: Place, d: Def): Place
    requires base.Valid()
  {
    base.(nss := With(base, d))
  }

  /** A header goes back to a namespace that is there, and otherwise adds one. */
  function Opened(nss: Namespaces, name: Text, left: seq<Annote>): (base: Place)
    ensures base.Valid()
  {
    match Search(NamespaceNames(nss), name)
    case Some(k) => Place(nss, k, left)
    case None => Place(nss + [Namespace(name, [])], |nss|, left)
  }

  /** The schema that a text adds up to, or none if a name is taken or a symbol has no value. */
  function Meaning(base: Place, items: seq<Item>): Option<Namespaces>
    requires base.Valid()
    decreases items
  {
    if items == [] then Some(base.nss)
    else match items[0]
      case Header(name) => Meaning(Opened(base.nss, name, base.left), items[1..])
      case Define(d) =>
        if Search(base.Names(), d.name).Some? then None
        else match DefOf(d, base.left)
          case None => None
          case Some(m) => Meaning(After(base, m.def).Leaving(m.left), items[1..])
  }

  /** A text that does not begin with a header begins in the unnamed namespace. */
  function TextMeaning(items: seq<Item>): Option<Namespaces> {
    if items != [] && items[0].Header? then Meaning(Opened([], items[0].name, []), items[1..])
    else Meaning(Place([Namespace([], [])], 0, []), items)
  }

  // ------------------------------------------------------------------ reading tokens

  /** The outer loop over a list of tokens. */
  function Run(p: Parser, toks: Tokens): (r: Option<Parser>)
    requires Inv(p)
    ensures r.Some? ==> Inv(r.value)
    decreases toks
  {
    if toks == [] then Some(p)
    else match Consume(p, toks[0])
      case None => None
      case Some(q) => Run(q, toks[1..])
  }

  lemma RunOne(p: Parser, tok: L.Token, rest: Tokens, q: Parser)
    requires Inv(p) && Consume(p, tok) == Some(q)
    ensures Inv(q) && Run(p, [tok] + rest) == Run(q, rest)
  {
    hide Inv, Consume;
    assert ([tok] + rest)[1..] == rest;
  }

  /** A step that uses the token up. */
  lemma StepAtFieldType(p: Parser, tok: L.Token)
    requires Inv(p) && p.state.PFieldType?
    ensures InField(p) && Step(p, tok) == StepFieldType(p, tok)
  {
    hide StepFieldType, Sound, Unnamed;
  }

  lemma StepAtFieldName(p: Parser, tok: L.Token)
    requires Inv(p) && p.state.PFieldName?
    ensures InField(p) && Step(p, tok) == StepFieldName(p, tok)
  {
    hide StepFieldName, Sound, Unnamed;
  }

  lemma StepAtSymbol(p: Parser, tok: L.Token)
    requires Inv(p) && p.state.PSymbol?
    ensures InEnum(p) && p.name.Some? && Step(p, tok) == StepSymbol(p)
  {
    hide StepSymbol, Sound;
  }

  lemma StepAtValue(p: Parser, tok: L.Token)
    requires Inv(p) && p.state.PSymbolValue?
    ensures InSymbol(p) && Step(p, tok) == StepSymbolValue(p, tok)
  {
    hide StepSymbolValue, Sound, Valueless;
  }

  lemma StepAtSingleton(p: Parser, tok: L.Token)
    requires Inv(p) && p.state.PEnumSingleton?
    ensures InNamespace(p) && p.name.Some? && Step(p, tok) == StepEnum(p)
  {
    hide StepEnum, Sound, Search;
  }

  lemma StepAtHead(p: Parser, tok: L.Token)
    requires Inv(p) && (p.state.PFieldOrAny? || p.state.PSuperOrFieldOrAny?)
    ensures Step(p, tok) == StepFieldOrAny(p, tok, p.state.PSuperOrFieldOrAny?)
  {
    hide StepFieldOrAny, Sound;
  }

  lemma StepAtNext(p: Parser, tok: L.Token)
    requires Inv(p) && p.state.PFieldNext?
    ensures Step(p, tok) == StepFieldNext(p, tok)
  {
    hide StepFieldNext, Sound;
  }

  lemma Shifts(p: Parser, tok: L.Token, q: Parser)
    requires Inv(p) && Step(p, tok) == Go(q, true)
    ensures Inv(q) && Consume(p, tok) == Some(q)
  {
    hide Inv, Step;
    StepKept(p, tok);
  }

  lemma Fails(p: Parser, tok: L.Token)
    requires Inv(p) && Step(p, tok) == Fail
    ensures Consume(p, tok) == None
  {
    hide Inv, Step;
  }

  /** A step that looks at it again. */
  lemma Repeats(p: Parser, tok: L.Token, q: Parser)
    requires Inv(p) && Step(p, tok) == Go(q, false)
    ensures Inv(q) && Consume(p, tok) == Consume(q, tok)
  {
    hide Inv, Step;
    StepKept(p, tok);
  }

  lemma RunSame(p: Parser, q: Parser, toks: Tokens)
    requires Inv(p) && Inv(q) && toks != [] && Consume(p, toks[0]) == Consume(q, toks[0])
    ensures Run(p, toks) == Run(q, toks)
  {
    hide Inv, Consume;
  }

  lemma {:induction false} RunAppend(p: Parser, a: Tokens, b: Tokens)
    requires Inv(p)
    ensures Run(p, a + b) == match Run(p, a) case None => None case Some(q) => Run(q, b)
    decreases a
  {
    hide Inv, Consume;
    if a == [] {
      assert a + b == b;
    } else {
      assert (a + b)[1..] == a[1..] + b;
      var q := Consume(p, a[0]);
      if q.Some? { RunAppend(q.value, a[1..], b); }
    }
  }

  lemma RunSingle(p: Parser, tok: L.Token)
    requires Inv(p)
    ensures Run(p, [tok]) == Consume(p, tok)
  {
    hide Inv, Consume;
    assert [tok][1..] == [];
  }

  /** Two tokens, each used up. */
  lemma RunPair(p: Parser, a: L.Token, q: Parser, b: L.Token, r: Parser)
    requires Inv(p) && Consume(p, a) == Some(q) && Inv(q) && Consume(q, b) == Some(r)
    ensures Run(p, [a, b]) == Some(r)
  {
    hide Inv, Consume;
    assert [a, b] == [a] + [b];
    RunOne(p, a, [b], q);
    RunSingle(q, b);
  }
}
