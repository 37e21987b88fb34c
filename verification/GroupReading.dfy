/** How the machine of parseSchema reads a printed group: each token, or the part of a token
    that ends what came before, undoes a piece of the printing. */
module GroupReading {
  import opened Base
  import opened Schema
  import opened Parser
  import opened ParserInvariant
  import opened SchemaParser
  import opened SchemaPrint
  import L = Lexer

  /** The place of that definition. */
  function Here(base: Place): Ref
    requires base.Valid()
  {
    Ref(base.at, |base.nss[base.at].defs|)
  }

  /** In this namespace, with these annotations read. */
  ghost predicate Within(p: Parser, base: Place, notes: seq<Annote>) {
    base.Valid() && p.nss == base.nss && p.ns == Some(base.at) && p.annotes == notes && p.laAnnotes == base.left
  }

  /** Between definitions. */
  ghost predicate AtRest(p: Parser, base: Place) {
    p.state == PAny && Within(p, base, [])
  }

  /** The definition d has been begun and is still the newest. */
  ghost predicate Newest(p: Parser, base: Place, d: Def) {
    base.Valid() && p.nss == With(base, d) && p.ns == Some(base.at) && p.laAnnotes == base.left
  }

  ghost predicate Building(p: Parser, base: Place, d: Def) {
    Newest(p, base, d) && p.annotes == []
  }

  /** What may follow a definition. */
  predicate Ender(tok: L.Token) {
    tok.Name? || tok == Key(L.KAt) || tok == Key(L.KNamespace) || tok.Eof?
  }

  /** The definitions so far can be searched for d's name in vain. */
  ghost predicate NewName(base: Place, name: Text) {
    base.Valid() && Search(base.Names(), name) == None
  }

  lemma PutWith(p: Parser, base: Place, d: Def, d': Def)
    requires Newest(p, base, d)
    ensures ValidRef(p.nss, Here(base)) && DefAt(p.nss, Here(base)) == d
    ensures PutDef(p, Here(base), d') == p.(nss := With(base, d'))
  {
    var defs := base.nss[base.at].defs;
    assert (defs + [d])[|defs| := d'] == defs + [d'];
    assert PutDef(p, Here(base), d').nss == With(base, d');
  }

  // -------------------------------------------------------------------------- annotations

  /** Before the at sign of an annotation. */
  ghost predicate TakesNote(p: Parser, of: Owner) {
    match of
    case OfDef => p.state == PAny || p.state == PDefOrAnnote
    case OfTypedef => p.state == PEnumOrTypedef
    case OfType => false
    case OfName => p.state == PFieldNameAnnotes
    case OfSymbol => p.state == PSymbolAnnotes
  }

  lemma AtSign(p: Parser, of: Owner) returns (q: Parser)
    requires Inv(p) && TakesNote(p, of)
    ensures Inv(q) && Consume(p, Key(L.KAt)) == Some(q) && q == p.(state := PAnnote(of))
  {
    hide Inv, Consume;
    var r := p;
    if p.state == PAny {
      r := p.(state := PDefOrAnnote);
      assert Step(p, Key(L.KAt)) == Go(r, false);
      Repeats(p, Key(L.KAt), r);
    }
    q := p.(state := PAnnote(of));
    assert Step(r, Key(L.KAt)) == Go(q, true);
    Shifts(r, Key(L.KAt), q);
  }

  /** The annotations that the machine holds. */
  function NotesIn(p: Parser): Notes { Notes(p.annotes, p.laAnnotes) }

  /** One annotation: at sign, name and value. */
  lemma NoteRead(p: Parser, of: Owner, n: NoteText) returns (q: Parser)
    requires Inv(p) && TakesNote(p, of)
    ensures Inv(q) && Run(p, NoteTokens(n)) == Some(q)
    ensures NotesIn(q) == PutNote(NotesIn(p), n, of.OfTypedef?)
    ensures q == p.(state := AfterAnnote(of), annote := q.annote, annotes := q.annotes, laAnnotes := q.laAnnotes)
  {
    hide Inv, Consume, RefToken, Step, Search, Run;
    var a := AtSign(p, of);
    var b := NoteNamed(a, of, n.name);
    q := NoteValued(b, of, n.value);
    var bare, put := Annote(n.name, None), Annote(n.name, Some(n.value));
    assert (p.annotes + [bare])[|p.annotes| := put] == p.annotes + [put];
    assert (p.laAnnotes + [bare])[|p.laAnnotes| := put] == p.laAnnotes + [put];
    RunPair(a, RefToken(n.name), b, L.Literal(n.value), q);
    RunOne(p, Key(L.KAt), [RefToken(n.name), L.Literal(n.value)], a);
  }

  /** Where the annotation of this name is, or will be. */
  function NotePtr(p: Parser, of: Owner, name: Text): AnnotePtr {
    match Search(AnnoteNames(p.annotes), name)
    case Some(i) => AnnotePtr(false, i)
    case None => if of.OfTypedef? then AnnotePtr(true, |p.laAnnotes|) else AnnotePtr(false, |p.annotes|)
  }

  lemma NoteNamed(p: Parser, of: Owner, name: Text) returns (q: Parser)
    requires Inv(p) && p.state == PAnnote(of)
    ensures Inv(q) && Consume(p, RefToken(name)) == Some(q) && q.state == PAnnoteValue(of)
    ensures var ptr := NotePtr(p, of, name);
            && q.annote == Some(ptr)
            && q.annotes == p.annotes + (if ptr == AnnotePtr(false, |p.annotes|) then [Annote(name, None)] else [])
            && q.laAnnotes == p.laAnnotes + (if ptr.lookahead then [Annote(name, None)] else [])
    ensures q == p.(state := q.state, annote := q.annote, annotes := q.annotes, laAnnotes := q.laAnnotes)
  {
    hide Inv, Consume, Search;
    var n := Step(p, RefToken(name));
    assert n == StepAnnote(p, RefToken(name), of);
    assert n.Go? && n.shift;
    q := n.p;
    Shifts(p, RefToken(name), q);
  }

  lemma NoteValued(p: Parser, of: Owner, value: Text) returns (q: Parser)
    requires Inv(p) && p.state == PAnnoteValue(of) && InAnnote(p)
    ensures Inv(q) && Consume(p, L.Literal(value)) == Some(q) && q.state == AfterAnnote(of)
    ensures var i := p.annote.value.at;
            && q.annotes ==
                 (if p.annote.value.lookahead then p.annotes
                  else p.annotes[i := Annote(p.annotes[i].name, Some(value))])
            && q.laAnnotes ==
                 (if p.annote.value.lookahead then p.laAnnotes[i := Annote(p.laAnnotes[i].name, Some(value))]
                  else p.laAnnotes)
    ensures q == p.(state := q.state, annotes := q.annotes, laAnnotes := q.laAnnotes)
  {
    hide Inv, Consume, Search;
    var n := Step(p, L.Literal(value));
    assert n == StepAnnoteValue(p, L.Literal(value), of);
    q := n.p;
    Shifts(p, L.Literal(value), q);
  }

  lemma {:induction false} NotesRead(p: Parser, of: Owner, ns: seq<NoteText>) returns (q: Parser)
    requires Inv(p) && TakesNote(p, of) && (of.OfDef? || of.OfTypedef?)
    ensures Inv(q) && Run(p, NotesTokens(ns)) == Some(q) && TakesNote(q, of)
    ensures NotesIn(q) == PutNotes(NotesIn(p), ns, of.OfTypedef?)
    ensures q == p.(state := q.state, annote := q.annote, annotes := q.annotes, laAnnotes := q.laAnnotes)
    decreases ns
  {
    hide Inv, Run, NoteTokens, PutNote;
    if ns == [] {
      q := p;
      RunNone(p);
    } else {
      var a := NoteRead(p, of, ns[0]);
      q := NotesRead(a, of, ns[1..]);
      RunAppend(p, NoteTokens(ns[0]), NotesTokens(ns[1..]));
    }
  }

  /** One annotation at most, where there is room for one. */
  lemma NoteAtMost(p: Parser, of: Owner, ns: seq<NoteText>) returns (q: Parser)
    requires Inv(p) && TakesNote(p, of) && (of.OfName? || of.OfSymbol?) && |ns| <= 1 && p.annotes == []
    ensures Inv(q) && Run(p, NotesTokens(ns)) == Some(q) && NotesIn(q) == Notes(OwnNotes(ns), p.laAnnotes)
    ensures q.state == if ns == [] then p.state else AfterAnnote(of)
    ensures q == p.(state := q.state, annote := q.annote, annotes := q.annotes)
  {
    hide Inv, Run, NoteTokens, PutNote;
    if ns == [] {
      q := p;
      RunNone(p);
    } else {
      q := NoteRead(p, of, ns[0]);
      assert NotesTokens(ns[1..]) == [];
      assert NoteTokens(ns[0]) + [] == NoteTokens(ns[0]);
      assert ns == [ns[0]];
      OneNote(ns[0], p.laAnnotes);
    }
  }

  /** The first annotation is put in front of nothing. */
  lemma OneNote(n: NoteText, ahead: seq<Annote>)
    ensures PutNote(Notes([], ahead), n, false) == Notes(OwnNotes([n]), ahead)
  {
    assert [n][1..] == [];
    assert PutNotes(Notes([], []), [n], false) == PutNotes(PutNote(Notes([], []), n, false), [], false);
    assert Search(AnnoteNames([]), n.name) == None by { SearchFirst(AnnoteNames([]), n.name); }
  }

  // ------------------------------------------------------------------ a definition begins

  /** The annotations of a definition are read, and its name is to come. */
  ghost predicate Starting(p: Parser, base: Place, notes: seq<Annote>) {
    Within(p, base, notes) && TakesNote(p, OfDef)
  }

  /** The name of a definition: pending until the next token says what it is. */
  lemma NameRead(p: Parser, base: Place, notes: seq<Annote>, name: Text) returns (q: Parser)
    requires Inv(p) && Starting(p, base, notes)
    ensures Inv(q) && Consume(p, L.Name(name)) == Some(q)
    ensures Within(q, base, notes) && q.state == PDefType && q.name == Some(name)
  {
    hide Inv, Consume;
    var tok, r := L.Name(name), p.(state := PDefOrAnnote);
    q := p.(state := PDefType, name := Some(name));
    if p.state == PAny {
      assert Step(p, tok) == Go(r, false);
      Repeats(p, tok, r);
    }
    assert Step(r, tok) == Go(q, true);
    Shifts(r, tok, q);
  }

  ghost predicate Named(p: Parser, base: Place, notes: seq<Annote>, name: Text) {
    Within(p, base, notes) && p.state == PDefType && p.name == Some(name) && NewName(base, name)
  }

  function Empty(name: Text, notes: seq<Annote>): Def {
    Group(name, notes, None, None, None, [])
  }

  lemma AddDefWith(p: Parser, base: Place, d: Def)
    requires base.Valid() && p.nss == base.nss && p.ns == Some(base.at)
    ensures InNamespace(p) && Defs(p) == base.nss[base.at].defs && AddDef(p, d) == p.(nss := With(base, d))
  {
  }

  lemma StepAtName(p: Parser, tok: L.Token)
    requires Inv(p) && p.state == PDefType && InNamespace(p) && p.name.Some?
    ensures Step(p, tok) == StepDefType(p, tok)
  {
    hide Inv, StepDefType;
  }

  /** The group is begun by the token behind its name. */
  lemma GroupBegun(p: Parser, base: Place, notes: seq<Annote>, name: Text, tok: L.Token) returns (q: Parser)
    requires Inv(p) && Named(p, base, notes, name)
    requires Ender(tok) || tok == Key(L.KSlash) || tok == Key(L.KColon) || tok == Key(L.KRArrow)
    ensures Building(q, base, Empty(name, notes)) && q.g == Some(Here(base))
    ensures q.state ==
                      if tok == Key(L.KSlash) then PGroupId
                      else if tok == Key(L.KColon) then PGroupSuper
                      else if tok == Key(L.KRArrow) then PField else PAny
    ensures Step(p, tok) == Go(q, !Ender(tok))
  {
    hide Inv, Search, AddDef, With, Step;
    AddDefWith(p, base, Empty(name, notes));
    StepAtName(p, tok);
    q := p.(nss := With(base, Empty(name, notes)), g := Some(Here(base)), annotes := []);
    q := q.(
            state := if tok == Key(L.KSlash) then PGroupId
                     else if tok == Key(L.KColon) then PGroupSuper
                     else if tok == Key(L.KRArrow) then PField else PAny);
  }

  // --------------------------------------------------------------------- group headers

  /** A group whose header has been read so far as d; the next token may end it. */
  ghost predicate Head(p: Parser, base: Place, d: Def) {
    && d.Group? && d.fields == []
    && (|| (Named(p, base, d.notes, d.name) && d == Empty(d.name, d.notes))
        || ((p.state == PSuperOrFieldOrAny || p.state == PFieldOrAny)
            && Building(p, base, d) && p.g == Some(Here(base))))
  }

  lemma IdRead(p: Parser, base: Place, notes: seq<Annote>, name: Text, id: uint64) returns (q: Parser)
    requires Inv(p) && Named(p, base, notes, name)
    ensures Inv(q) && Run(p, [Key(L.KSlash), L.Uint(id)]) == Some(q)
    ensures q.state == PSuperOrFieldOrAny && Head(q, base, Group(name, notes, Some(id), None, None, []))
  {
    hide Inv, Step, Consume;
    var r := GroupBegun(p, base, notes, name, Key(L.KSlash));
    Shifts(p, Key(L.KSlash), r);
    q := r.(nss := With(base, Group(name, notes, Some(id), None, None, [])), state := PSuperOrFieldOrAny);
    IdStep(r, base, notes, name, id, q);
    Shifts(r, L.Uint(id), q);
    RunPair(p, Key(L.KSlash), r, L.Uint(id), q);
  }

  lemma IdStep(p: Parser, base: Place, notes: seq<Annote>, name: Text, id: uint64, q: Parser)
    requires Inv(p) && p.state == PGroupId && Building(p, base, Empty(name, notes)) && p.g == Some(Here(base))
    requires q == p.(nss := With(base, Group(name, notes, Some(id), None, None, [])), state := PSuperOrFieldOrAny)
    ensures Step(p, L.Uint(id)) == Go(q, true)
  {
    hide Inv, With;
    PutWith(p, base, Empty(name, notes), Group(name, notes, Some(id), None, None, []));
  }

  lemma SuperRead(p: Parser, base: Place, d: Def, superName: Text) returns (q: Parser)
    requires Inv(p) && Head(p, base, d) && p.state != PFieldOrAny && d.superName.None? && d.super.None?
    ensures Inv(q) && Run(p, [Key(L.KColon), RefToken(superName)]) == Some(q)
    ensures q.state == PFieldOrAny && Head(q, base, Group(d.name, d.notes, d.id, Some(superName), None, []))
  {
    hide Inv, Step, Consume, RefToken;
    var d' := Group(d.name, d.notes, d.id, Some(superName), None, []);
    var r := ColonStep(p, base, d);
    Shifts(p, Key(L.KColon), r);
    q := r.(nss := With(base, d'), state := PFieldOrAny);
    SuperStep(r, base, d, superName, q);
    Shifts(r, RefToken(superName), q);
    RunPair(p, Key(L.KColon), r, RefToken(superName), q);
  }

  lemma ColonStep(p: Parser, base: Place, d: Def) returns (r: Parser)
    requires Inv(p) && Head(p, base, d) && p.state != PFieldOrAny
    ensures Step(p, Key(L.KColon)) == Go(r, true)
    ensures r.state == PGroupSuper && Building(r, base, d) && r.g == Some(Here(base))
  {
    hide Inv, With, NewName, Search, Step;
    if p.state == PDefType {
      r := GroupBegun(p, base, d.notes, d.name, Key(L.KColon));
    } else {
      StepAtHead(p, Key(L.KColon));
      r := p.(state := PGroupSuper);
    }
  }

  lemma SuperStep(p: Parser, base: Place, d: Def, superName: Text, q: Parser)
    requires Inv(p) && p.state == PGroupSuper && Building(p, base, d) && p.g == Some(Here(base)) && d.Group?
    requires q == p.(nss := With(base, d.(superName := Some(superName))), state := PFieldOrAny)
    ensures Step(p, RefToken(superName)) == Go(q, true)
  {
    hide Inv, With;
    PutWith(p, base, d, d.(superName := Some(superName)));
  }

  lemma ArrowRead(p: Parser, base: Place, d: Def) returns (q: Parser)
    requires Inv(p) && Head(p, base, d)
    ensures Inv(q) && Consume(p, Key(L.KRArrow)) == Some(q)
    ensures q.state == PField && Building(q, base, d) && q.g == Some(Here(base))
  {
    hide Inv, With, Consume, NewName, Search, Step;
    if p.state == PDefType {
      q := GroupBegun(p, base, d.notes, d.name, Key(L.KRArrow));
    } else {
      StepAtHead(p, Key(L.KRArrow));
      q := p.(state := PField);
    }
    Shifts(p, Key(L.KRArrow), q);
  }

  /** A header is ended by whatever begins the next definition. */
  lemma HeadEnds(p: Parser, base: Place, d: Def, tok: L.Token) returns (q: Parser)
    requires Inv(p) && Head(p, base, d) && Ender(tok)
    ensures Inv(q) && Consume(p, tok) == Consume(q, tok) && AtRest(q, After(base, d))
  {
    hide Inv, With, Consume, NewName, Search, Step;
    if p.state == PDefType {
      q := GroupBegun(p, base, d.notes, d.name, tok);
    } else {
      StepAtHead(p, tok);
      q := p.(state := PAny);
    }
    Repeats(p, tok, q);
    AfterValid(base, d);
  }

  lemma AfterValid(base: Place, d: Def)
    requires base.Valid()
    ensures After(base, d).Valid()
  {
  }

  // --------------------------------------------------------------------------- fields

  function AddField(d: Def, f: Field): Def
    requires d.Group?
  {
    Group(d.name, d.notes, d.id, d.superName, d.super, d.fields + [f])
  }

  /** The field f has been begun and is the newest of group d. */
  ghost predicate NewestField(p: Parser, base: Place, d: Def, f: Field) {
    && d.Group? && Newest(p, base, AddField(d, f)) && p.g == Some(Here(base))
    && p.f == Some(|d.fields|) && p.ty == Some(FieldType(Here(base), |d.fields|))
  }

  ghost predicate InFieldOf(p: Parser, base: Place, d: Def, f: Field) {
    NewestField(p, base, d, f) && p.annotes == []
  }

  lemma InFieldIs(p: Parser, base: Place, d: Def, f: Field)
    requires NewestField(p, base, d, f)
    ensures InField(p) && CurrentField(p) == f && CurrentType(p) == f.ty
  {
    PutWith(p, base, AddField(d, f), AddField(d, f));
  }

  lemma InGroupOf(p: Parser, base: Place, d: Def)
    requires Building(p, base, d) && p.g == Some(Here(base)) && d.Group?
    ensures InGroup(p)
  {
  }

  lemma PutFieldWith(p: Parser, base: Place, d: Def, f: Field, f': Field)
    requires NewestField(p, base, d, f) && InField(p)
    ensures PutField(p, f') == p.(nss := With(base, AddField(d, f')))
  {
    hide With;
    PutWith(p, base, AddField(d, f), AddField(d, f'));
    assert (d.fields + [f])[|d.fields| := f'] == d.fields + [f'];
  }

  lemma PutTypeWith(p: Parser, base: Place, d: Def, f: Field, t: TypeInfo)
    requires NewestField(p, base, d, f) && InField(p)
    ensures PutType(p, t) == p.(nss := With(base, AddField(d, f.(ty := t))))
  {
    hide With;
    InFieldIs(p, base, d, f);
    PutFieldWith(p, base, d, f, f.(ty := t));
  }

  const NEW_FIELD: Field := Field(None, [], NO_TYPE, false)

  lemma FieldBegun(p: Parser, base: Place, d: Def, tok: L.Token) returns (q: Parser)
    requires Inv(p) && p.state == PField && Building(p, base, d) && p.g == Some(Here(base)) && d.Group?
    requires tok != Key(L.KAt)
    ensures Inv(q) && Consume(p, tok) == Consume(q, tok)
    ensures q.state == PFieldType && InFieldOf(q, base, d, NEW_FIELD)
  {
    hide Inv, With, Consume;
    PutWith(p, base, d, AddField(d, NEW_FIELD));
    q := p.(nss := With(base, AddField(d, NEW_FIELD)), f := Some(|d.fields|),
            ty := Some(FieldType(Here(base), |d.fields|)), state := PFieldType);
    InGroupOf(p, base, d);
    assert Step(p, tok) == StepField(p, tok);
    Repeats(p, tok, q);
  }

  function Typed(f: Field, t: TypeInfo): Field { f.(ty := t) }

  function Plain(tag: IType): TypeInfo { TypeInfo([], [], tag, None, 0, false, false) }

  /** The keyword or name a field type begins with. */
  lemma TypeBegun(p: Parser, base: Place, d: Def, tok: L.Token, t: TypeInfo, next: State) returns (q: Parser)
    requires Inv(p) && p.state == PFieldType && InFieldOf(p, base, d, NEW_FIELD)
    requires if ITypeOf(tok).Some? then
               && t == Plain(ITypeOf(tok).value)
               && next ==
                          (if t.tag.IString? || t.tag.IBinary? then PLParenOptional(true)
                           else if t.tag.IFixed? then PLParen(true) else PFieldNameAnnotes)
             else (tok.Name? || tok.CName?) && t == Plain(IRef).(name := tok.text) && next == PDynamic(true)
    ensures Inv(q) && Consume(p, tok) == Some(q)
    ensures q.state == next && InFieldOf(q, base, d, Typed(NEW_FIELD, t))
  {
    hide Inv, With, Consume, ITypeOf, PutType, Step;
    InFieldIs(p, base, d, NEW_FIELD);
    PutTypeWith(p, base, d, NEW_FIELD, t);
    q := p.(nss := With(base, AddField(d, Typed(NEW_FIELD, t))), state := next);
    assert p.(annotes := []) == p;
    StepAtFieldType(p, tok);
    Shifts(p, tok, q);
  }

  /** One token of a type that has begun. */
  lemma OneTypeToken(p: Parser, base: Place, d: Def, f: Field, tok: L.Token, t: TypeInfo, next: State)
    returns (q: Parser)
    requires Inv(p) && InFieldOf(p, base, d, f) && InType(p.state, true)
    requires match p.state
             case PDynamic(_) => tok == Key(L.KStar) && t == f.ty.(isDynamic := true) && next == p.state
             case PRBracket(_) => tok == Key(L.KRBracket) && t == f.ty.(isSequence := true) && next == PFieldNameAnnotes
             case PSize(_) => tok.Uint? && tok.number <= UINT32_MAX
                   && t == f.ty.(size := tok.number) && next == PFieldNameAnnotes
             case PLBracket(_) => tok == Key(L.KLBracket) && t == f.ty && next == PRBracket(true)
             case PLParen(_) => tok == Key(L.KLParen) && t == f.ty && next == PSize(true)
             case PLParenOptional(_) => tok == Key(L.KLParen) && t == f.ty && next == PSize(true)
             case _ => false
    ensures Inv(q) && Consume(p, tok) == Some(q)
    ensures q.state == next && InFieldOf(q, base, d, Typed(f, t))
  {
    hide Inv, With, Consume, PutType;
    InFieldIs(p, base, d, f);
    PutTypeWith(p, base, d, f, t);
    assert Typed(f, f.ty) == f;
    q := p.(nss := With(base, AddField(d, Typed(f, t))), state := next);
    TypeInvOf(p, true);
    assert Step(p, tok) == StepType(p, tok, true);
    Shifts(p, tok, q);
  }

  /** Any token but a star ends the stars. */
  lemma StarsEnd(p: Parser, base: Place, d: Def, f: Field, tok: L.Token) returns (q: Parser)
    requires Inv(p) && InFieldOf(p, base, d, f) && p.state == PDynamic(true) && tok != Key(L.KStar)
    ensures Inv(q) && Consume(p, tok) == Consume(q, tok) && q == p.(state := PLBracket(true))
  {
    hide Inv, With, Consume;
    TypeInvOf(p, true);
    q := p.(state := PLBracket(true));
    assert Step(p, tok) == StepType(p, tok, true) == Go(q, false);
    Repeats(p, tok, q);
  }

  lemma BracketsEnd(p: Parser, base: Place, d: Def, f: Field, tok: L.Token) returns (q: Parser)
    requires Inv(p) && InFieldOf(p, base, d, f) && p.state == PLBracket(true) && tok != Key(L.KLBracket)
    ensures Inv(q) && Consume(p, tok) == Consume(q, tok) && q == p.(state := PFieldNameAnnotes)
  {
    hide Inv, With, Consume;
    TypeInvOf(p, true);
    q := p.(state := PFieldNameAnnotes);
    assert Step(p, tok) == StepType(p, tok, true) == Go(q, false);
    Repeats(p, tok, q);
  }

  /** The type could still have a size. */
  ghost predicate Unsized(p: Parser, base: Place, d: Def, f: Field) {
    && p.state == PLParenOptional(true) && InFieldOf(p, base, d, Typed(f, f.ty.(size := 0)))
    && f.ty.size == 0xffff_ffff
  }

  /** A type has been read; what comes next may end it. */
  ghost predicate TypeDone(p: Parser, base: Place, d: Def, f: Field) {
    || (InFieldOf(p, base, d, f) && (p.state == PFieldNameAnnotes || p.state == PDynamic(true)))
    || Unsized(p, base, d, f)
  }

  lemma {:induction false} StarsRead(p: Parser, base: Place, d: Def, f: Field, n: nat) returns (q: Parser)
    requires Inv(p) && InFieldOf(p, base, d, f) && p.state == PDynamic(true)
    ensures Inv(q) && Run(p, Stars(n)) == Some(q) && q.state == PDynamic(true)
    ensures InFieldOf(q, base, d, Typed(f, f.ty.(isDynamic := f.ty.isDynamic || n > 0)))
    decreases n
  {
    hide Inv, Consume, InFieldOf, Run;
    if n > 0 {
      var f' := Typed(f, f.ty.(isDynamic := true));
      var a := OneTypeToken(p, base, d, f, Key(L.KStar), f.ty.(isDynamic := true), PDynamic(true));
      q := StarsRead(a, base, d, f', n - 1);
      assert Typed(f', f'.ty.(isDynamic := true)) == f';
      RunOne(p, Key(L.KStar), Stars(n - 1), a);
    } else {
      q := p;
      RunNone(p);
      assert Typed(f, f.ty.(isDynamic := f.ty.isDynamic)) == f;
    }
  }

  lemma BracketsRead(p: Parser, base: Place, d: Def, f: Field, isSequence: bool) returns (q: Parser)
    requires Inv(p) && InFieldOf(p, base, d, f) && p.state == PDynamic(true) && !f.ty.isSequence
    ensures Inv(q) && Run(p, Brackets(isSequence)) == Some(q)
    ensures TypeDone(q, base, d, Typed(f, f.ty.(isSequence := isSequence)))
  {
    hide Inv, Consume, With;
    if isSequence {
      var r := StarsEnd(p, base, d, f, Key(L.KLBracket));
      var u := OneTypeToken(r, base, d, f, Key(L.KLBracket), f.ty, PRBracket(true));
      assert Typed(f, f.ty) == f;
      q := OneTypeToken(u, base, d, f, Key(L.KRBracket), f.ty.(isSequence := true), PFieldNameAnnotes);
      RunPair(p, Key(L.KLBracket), u, Key(L.KRBracket), q);
    } else {
      q := p;
      assert Typed(f, f.ty.(isSequence := false)) == f;
    }
  }

  lemma RefRead(p: Parser, base: Place, d: Def, t: TypeText) returns (q: Parser)
    requires Inv(p) && p.state == PFieldType && InFieldOf(p, base, d, NEW_FIELD) && FieldTypeOk(t) && t.tag.IRef?
    ensures Inv(q) && Run(p, FieldTypeTokens(t)) == Some(q)
    ensures TypeDone(q, base, d, Typed(NEW_FIELD, FieldTypeOf(t)))
  {
    hide Inv, Consume, InFieldOf, Run, TypeDone;
    var t1 := Plain(IRef).(name := t.name);
    var a := TypeBegun(p, base, d, RefToken(t.name), t1, PDynamic(true));
    var b := StarsRead(a, base, d, Typed(NEW_FIELD, t1), t.stars);
    var t2 := t1.(isDynamic := t.stars > 0);
    assert Typed(Typed(NEW_FIELD, t1), t2) == Typed(NEW_FIELD, t2);
    q := BracketsRead(b, base, d, Typed(NEW_FIELD, t2), t.brackets);
    assert Typed(Typed(NEW_FIELD, t2), t2.(isSequence := t.brackets)) == Typed(NEW_FIELD, FieldTypeOf(t));
    RunSingle(p, RefToken(t.name));
    RunAppend(p, [RefToken(t.name)], Stars(t.stars));
    RunAppend(p, [RefToken(t.name)] + Stars(t.stars), Brackets(t.brackets));
    assert [RefToken(t.name)] + [] == [RefToken(t.name)];
  }

  lemma SizeRead(p: Parser, base: Place, d: Def, f: Field, size: uint32) returns (q: Parser)
    requires Inv(p) && InFieldOf(p, base, d, f) && (p.state == PLParen(true) || p.state == PLParenOptional(true))
    ensures Inv(q) && Run(p, SizeTokens(Some(size))) == Some(q)
    ensures q.state == PFieldNameAnnotes && InFieldOf(q, base, d, Typed(f, f.ty.(size := size)))
  {
    hide Inv, Consume, InFieldOf, Run;
    var r := OneTypeToken(p, base, d, f, Key(L.KLParen), f.ty, PSize(true));
    assert Typed(f, f.ty) == f;
    q := OneTypeToken(r, base, d, f, L.Uint(size), f.ty.(size := size), PFieldNameAnnotes);
    RunPair(p, Key(L.KLParen), r, L.Uint(size), q);
  }

  lemma KeywordRead(p: Parser, base: Place, d: Def, t: TypeText) returns (q: Parser)
    requires Inv(p) && p.state == PFieldType && InFieldOf(p, base, d, NEW_FIELD) && FieldTypeOk(t) && !t.tag.IRef?
    ensures Inv(q) && Run(p, FieldTypeTokens(t)) == Some(q)
    ensures TypeDone(q, base, d, Typed(NEW_FIELD, FieldTypeOf(t)))
  {
    hide Inv, Consume, InFieldOf, Run, KeyOf, ITypeOf;
    var tok, t1 := Key(KeyOf(t.tag)), Plain(t.tag);
    KeyOfBack(t.tag);
    RunSingle(p, tok);
    var next :=
      if t.tag.IString? || t.tag.IBinary? then PLParenOptional(true)
      else if t.tag.IFixed? then PLParen(true) else PFieldNameAnnotes;
    q := TypeBegun(p, base, d, tok, t1, next);
    var f := Typed(NEW_FIELD, FieldTypeOf(t));
    if t.size.Some? {
      var a := q;
      q := SizeRead(a, base, d, Typed(NEW_FIELD, t1), t.size.value);
      assert Typed(Typed(NEW_FIELD, t1), t1.(size := t.size.value)) == f;
      RunAppend(p, [tok], SizeTokens(t.size));
    } else {
      assert Typed(f, f.ty.(size := 0)) == Typed(NEW_FIELD, t1);
    }
    assert [tok] + SizeTokens(t.size) + [] + [] == [tok] + SizeTokens(t.size);
    assert [tok] + [] == [tok];
  }

  lemma TypeRead(p: Parser, base: Place, d: Def, t: TypeText) returns (q: Parser)
    requires Inv(p) && p.state == PFieldType && InFieldOf(p, base, d, NEW_FIELD) && FieldTypeOk(t)
    ensures Inv(q) && Run(p, FieldTypeTokens(t)) == Some(q)
    ensures TypeDone(q, base, d, Typed(NEW_FIELD, FieldTypeOf(t)))
  {
    hide Inv, InFieldOf, FieldTypeOk, FieldTypeTokens, Run, TypeDone;
    if t.tag.IRef? { q := RefRead(p, base, d, t); } else { q := KeywordRead(p, base, d, t); }
  }

  // ------------------------------------------------------------------- names of fields

  /** Adding a field without a name makes no name found or missed. */
  lemma UnnamedLastSearch(fields: seq<Field>, f: Field, name: Text)
    requires f.name.None?
    ensures Search(FieldNames(fields + [f]), name).Some? == Search(FieldNames(fields), name).Some?
  {
    hide Search;
    var before, names := FieldNames(fields), FieldNames(fields + [f]);
    SearchFirst(before, name);
    SearchFirst(names, name);
    forall i | 0 <= i < |before| ensures names[i] == before[i] {}
    assert names[|before|] == None;
  }

  /** The token behind a type that has no size. */
  lemma SizeSkipped(p: Parser, base: Place, d: Def, f: Field, tok: L.Token) returns (q: Parser)
    requires Inv(p) && Unsized(p, base, d, f) && tok != Key(L.KLParen)
    ensures Inv(q) && Consume(p, tok) == Consume(q, tok)
    ensures q.state == PFieldNameAnnotes && InFieldOf(q, base, d, f)
  {
    hide Inv, With, Consume, PutType;
    var f0 := Typed(f, f.ty.(size := 0));
    InFieldIs(p, base, d, f0);
    PutTypeWith(p, base, d, f0, f.ty);
    assert f0.(ty := f.ty) == f;
    q := p.(nss := With(base, AddField(d, f)), state := PFieldNameAnnotes);
    TypeInvOf(p, true);
    assert f0.ty.(size := 0xffff_ffff) == f.ty;
    assert Step(p, tok) == StepType(p, tok, true);
    Repeats(p, tok, q);
  }

  /** An annotation or the name ends the type. */
  lemma TypeEnds(p: Parser, base: Place, d: Def, f: Field, tok: L.Token) returns (q: Parser)
    requires Inv(p) && TypeDone(p, base, d, f)
    requires tok != Key(L.KStar) && tok != Key(L.KLBracket) && tok != Key(L.KLParen)
    ensures Inv(q) && Consume(p, tok) == Consume(q, tok)
    ensures q.state == PFieldNameAnnotes && InFieldOf(q, base, d, f)
  {
    hide Inv, With, Consume;
    q := p;
    if p.state == PDynamic(true) {
      var b := StarsEnd(p, base, d, f, tok);
      q := BracketsEnd(b, base, d, f, tok);
    } else if p.state == PLParenOptional(true) {
      q := SizeSkipped(p, base, d, f, tok);
    }
  }

  /** The name is to come, with these annotations in front of it. */
  ghost predicate NameNext(p: Parser, base: Place, d: Def, f: Field, notes: seq<Annote>) {
    && NewestField(p, base, d, f) && p.annotes == notes
    && (p.state == PFieldName || (p.state == PFieldNameAnnotes && notes == []))
  }

  /** What stands between type and name. */
  lemma FieldNotesRead(p: Parser, base: Place, d: Def, f: Field, notes: seq<NoteText>, name: Text) returns (q: Parser)
    requires Inv(p) && TypeDone(p, base, d, f) && |notes| <= 1
    ensures Inv(q) && NameNext(q, base, d, f, OwnNotes(notes))
    ensures Run(p, NotesTokens(notes) + [L.Name(name)]) == Consume(q, L.Name(name))
  {
    hide Inv, With, Consume, Run, NoteTokens, TypeDone, PutNote;
    var toks := NotesTokens(notes) + [L.Name(name)];
    NotesFirst(notes, L.Name(name));
    var a := TypeEnds(p, base, d, f, toks[0]);
    RunSame(p, a, toks);
    q := NoteAtMost(a, OfName, notes);
    RunAppend(a, NotesTokens(notes), [L.Name(name)]);
    RunSingle(q, L.Name(name));
  }

  lemma NotesFirst(notes: seq<NoteText>, tok: L.Token)
    ensures var toks := NotesTokens(notes) + [tok]; toks[0] == if notes == [] then tok else Key(L.KAt)
  {
  }

  lemma AnnotesEnd(p: Parser, base: Place, d: Def, f: Field, tok: L.Token) returns (q: Parser)
    requires Inv(p) && InFieldOf(p, base, d, f) && p.state == PFieldNameAnnotes && tok != Key(L.KAt)
    ensures Inv(q) && Consume(p, tok) == Consume(q, tok) && q == p.(state := PFieldName)
  {
    hide Inv, With, Consume;
    q := p.(state := PFieldName);
    assert Step(p, tok) == Go(q, false);
    Repeats(p, tok, q);
  }

  /** The name is taken unless it is found among those of the group so far. */
  lemma FieldNameStep(p: Parser, base: Place, d: Def, f: Field, name: Text) returns (q: Parser)
    requires Inv(p) && NewestField(p, base, d, f) && p.state == PFieldName && f.name.None?
    ensures Search(FieldNames(d.fields), name).Some? ==> Consume(p, L.Name(name)) == None
    ensures Search(FieldNames(d.fields), name).None? ==>
              && Inv(q) && Consume(p, L.Name(name)) == Some(q)
              && q.state == PFieldOptional && InFieldOf(q, base, d, f.(name := Some(name), notes := p.annotes))
  {
    hide Inv, With, Consume, PutField, Search, Step;
    var tok, f' := L.Name(name), f.(name := Some(name), notes := p.annotes);
    InFieldIs(p, base, d, f);
    UnnamedLastSearch(d.fields, f, name);
    PutFieldWith(p, base, d, f, f');
    PutWith(p, base, AddField(d, f), AddField(d, f));
    q := p.(nss := With(base, AddField(d, f')), state := PFieldOptional, annotes := []);
    StepAtFieldName(p, tok);
    if Search(FieldNames(d.fields), name).Some? {
      Fails(p, tok);
    } else {
      Shifts(p, tok, q);
    }
  }

  lemma FieldNameRead(p: Parser, base: Place, d: Def, f: Field, notes: seq<Annote>, name: Text) returns (q: Parser)
    requires Inv(p) && NameNext(p, base, d, f, notes) && f.name.None?
    ensures Search(FieldNames(d.fields), name).Some? ==> Consume(p, L.Name(name)) == None
    ensures Search(FieldNames(d.fields), name).None? ==>
              && Inv(q) && Consume(p, L.Name(name)) == Some(q)
              && q.state == PFieldOptional && InFieldOf(q, base, d, f.(name := Some(name), notes := notes))
  {
    hide Inv, With, Consume, Search;
    var a := p;
    if p.state == PFieldNameAnnotes { a := AnnotesEnd(p, base, d, f, L.Name(name)); }
    q := FieldNameStep(a, base, d, f, name);
  }

  /** A field is complete; a comma or the next definition follows. */
  ghost predicate FieldDone(p: Parser, base: Place, d: Def, f: Field) {
    InFieldOf(p, base, d, f) && (p.state == PFieldNext || (p.state == PFieldOptional && !f.isOptional))
  }

  lemma OptionalRead(p: Parser, base: Place, d: Def, f: Field, isOptional: bool) returns (q: Parser)
    requires Inv(p) && InFieldOf(p, base, d, f) && p.state == PFieldOptional && !f.isOptional
    ensures Inv(q) && Run(p, OptionalTokens(isOptional)) == Some(q)
    ensures FieldDone(q, base, d, f.(isOptional := isOptional))
  {
    hide Inv, With, Consume, PutField;
    if isOptional {
      InFieldIs(p, base, d, f);
      PutFieldWith(p, base, d, f, f.(isOptional := true));
      q := p.(nss := With(base, AddField(d, f.(isOptional := true))), state := PFieldNext);
      assert Step(p, Key(L.KQuestion)) == StepFieldOptional(p, Key(L.KQuestion));
      Shifts(p, Key(L.KQuestion), q);
      RunSingle(p, Key(L.KQuestion));
    } else {
      q := p;
      assert f.(isOptional := false) == f;
    }
  }

  /** The tokens of a field leave that field at the end of the group, or are refused because
      its name is found among those in front of it. */
  lemma FieldRead(p: Parser, base: Place, d: Def, f: FieldText) returns (q: Parser)
    requires Inv(p) && p.state == PField && Building(p, base, d) && p.g == Some(Here(base)) && d.Group? && FieldOk(f)
    ensures Search(FieldNames(d.fields), f.name).Some? ==> Run(p, FieldTokens(f)) == None
    ensures Search(FieldNames(d.fields), f.name).None? ==>
              Inv(q) && Run(p, FieldTokens(f)) == Some(q) && FieldDone(q, base, d, FieldOf(f))
  {
    hide Inv, With, Consume, Building, InFieldOf, Run, FieldTypeTokens, FieldTypeOf, FieldTypeOk, TypeDone, NameNext,
         Search, NotesTokens, OwnNotes, FieldDone;
    var types, middle := FieldTypeTokens(f.ty), NotesTokens(f.notes) + [L.Name(f.name)];
    FirstOfType(f.ty);
    var a := FieldBegun(p, base, d, types[0]);
    RunSame(p, a, types);
    var b := TypeRead(a, base, d, f.ty);
    var f1 := Typed(NEW_FIELD, FieldTypeOf(f.ty));
    var c := FieldNotesRead(b, base, d, f1, f.notes, f.name);
    q := FieldNameRead(c, base, d, f1, OwnNotes(f.notes), f.name);
    RunAppend(p, types, middle);
    RunAppend(p, types + middle, OptionalTokens(f.isOptional));
    if Search(FieldNames(d.fields), f.name).None? {
      q := OptionalRead(q, base, d, f1.(name := Some(f.name), notes := OwnNotes(f.notes)), f.isOptional);
    }
    assert types + middle + OptionalTokens(f.isOptional) == FieldTokens(f);
  }

  lemma FirstOfType(t: TypeText)
    ensures FieldTypeTokens(t) != [] && FieldTypeTokens(t)[0] != Key(L.KAt)
  {
  }

  lemma CommaRead(p: Parser, base: Place, d: Def, f: Field) returns (q: Parser)
    requires Inv(p) && FieldDone(p, base, d, f)
    ensures Inv(q) && Consume(p, Key(L.KComma)) == Some(q)
    ensures q.state == PField && Building(q, base, AddField(d, f)) && q.g == Some(Here(base))
  {
    hide Inv, With, Consume;
    var a := OptionalEnds(p, base, d, f, Key(L.KComma));
    q := a.(state := PField);
    assert Step(a, Key(L.KComma)) == Go(q, true);
    Shifts(a, Key(L.KComma), q);
  }

  lemma OptionalEnds(p: Parser, base: Place, d: Def, f: Field, tok: L.Token) returns (q: Parser)
    requires Inv(p) && FieldDone(p, base, d, f) && tok != Key(L.KQuestion)
    ensures Inv(q) && Consume(p, tok) == Consume(q, tok) && q == p.(state := PFieldNext)
  {
    hide Inv, With, Consume;
    q := p.(state := PFieldNext);
    if p.state == PFieldOptional {
      InFieldIs(p, base, d, f);
      assert Step(p, tok) == StepFieldOptional(p, tok) == Go(q, false);
      Repeats(p, tok, q);
    }
  }

  lemma FieldsEnd(p: Parser, base: Place, d: Def, f: Field, tok: L.Token) returns (q: Parser)
    requires Inv(p) && FieldDone(p, base, d, f) && Ender(tok)
    ensures Inv(q) && Consume(p, tok) == Consume(q, tok) && AtRest(q, After(base, AddField(d, f)))
  {
    hide Inv, With, Consume, Step;
    var a := OptionalEnds(p, base, d, f, tok);
    q := a.(state := PAny);
    StepAtNext(a, tok);
    Repeats(a, tok, q);
    AfterValid(base, AddField(d, f));
  }

  function WithFields(d: Def, fs: seq<Field>): Def
    requires d.Group?
  {
    Group(d.name, d.notes, d.id, d.superName, d.super, fs)
  }

  /** The tokens of a list of fields add those fields to the group, or are refused because a
      name is found. */
  lemma {:induction false} FieldListRead(p: Parser, base: Place, d: Def, fs: seq<FieldText>) returns (q: Parser)
    requires Inv(p) && p.state == PField && Building(p, base, d) && p.g == Some(Here(base)) && d.Group?
    requires fs != [] && forall i :: 0 <= i < |fs| ==> FieldOk(fs[i])
    ensures var r := FieldsOf(d.fields, fs);
            && (r.None? ==> Run(p, FieldListTokens(fs)) == None)
            && (r.Some? ==>
                  && Inv(q) && Run(p, FieldListTokens(fs)) == Some(q) && r.value != []
                  && FieldDone(q, base, WithFields(d, r.value[..|r.value| - 1]), r.value[|r.value| - 1]))
    decreases fs
  {
    hide Inv, Consume, Building, FieldOk, Run, FieldTokens, FieldListTokens, FieldDone, AddField, With, Here,
         FieldNames, Search, FieldOf;
    ListTokens(fs);
    q := FieldRead(p, base, d, fs[0]);
    if Search(FieldNames(d.fields), fs[0].name).None? {
      var a, all := q, d.fields + [FieldOf(fs[0])];
      assert WithFields(d, all[..|all| - 1]) == d;
      if |fs| > 1 {
        var b := CommaRead(a, base, d, FieldOf(fs[0]));
        Added(d, FieldOf(fs[0]));
        q := FieldListRead(b, base, AddField(d, FieldOf(fs[0])), fs[1..]);
        RunSingle(a, Key(L.KComma));
      }
    }
    if |fs| > 1 {
      RunAppend(p, FieldTokens(fs[0]), [Key(L.KComma)]);
      RunAppend(p, FieldTokens(fs[0]) + [Key(L.KComma)], FieldListTokens(fs[1..]));
    }
  }

  lemma Added(d: Def, f: Field)
    requires d.Group?
    ensures AddField(d, f).Group? && AddField(d, f).fields == d.fields + [f]
    ensures forall fs :: WithFields(AddField(d, f), fs) == WithFields(d, fs)
  {
  }

  lemma ListTokens(fs: seq<FieldText>)
    requires fs != []
    ensures FieldListTokens(fs) ==
              if |fs| == 1 then FieldTokens(fs[0])
              else FieldTokens(fs[0]) + [Key(L.KComma)] + FieldListTokens(fs[1..])
  {
    hide FieldTokens;
  }

  // ----------------------------------------------------------------------- a whole group

  /** A group has been read; whatever begins the next definition ends it. */
  ghost predicate GroupDone(p: Parser, base: Place, d: Def) {
    d.Group? && if d.fields == [] then Head(p, base, d) else FieldDone(p, base, AllButLast(d), d.fields[|d.fields| - 1])
  }

  function AllButLast(d: Def): Def
    requires d.Group? && d.fields != []
  {
    WithFields(d, d.fields[..|d.fields| - 1])
  }

  lemma GroupEnds(p: Parser, base: Place, d: Def, tok: L.Token) returns (q: Parser)
    requires Inv(p) && GroupDone(p, base, d) && Ender(tok)
    ensures Inv(q) && Consume(p, tok) == Consume(q, tok) && AtRest(q, After(base, d))
  {
    hide Inv, Consume, Head, FieldDone, AtRest, With;
    if d.fields == [] {
      q := HeadEnds(p, base, d, tok);
    } else {
      q := FieldsEnd(p, base, AllButLast(d), d.fields[|d.fields| - 1], tok);
      assert AddField(AllButLast(d), d.fields[|d.fields| - 1]) == d;
    }
  }

  /** A group without its fields. */
  function GroupHead(notes: seq<Annote>, name: Text, id: Option<uint64>, superName: Option<Text>): Def {
    Group(name, notes, id, superName, None, [])
  }

  lemma HeaderRead(p: Parser, base: Place, notes: seq<Annote>, name: Text, id: Option<uint64>, superName: Option<Text>)
    returns (q: Parser)
    requires Inv(p) && Named(p, base, notes, name)
    ensures Inv(q) && Run(p, IdTokens(id) + SuperTokens(superName)) == Some(q)
    ensures Head(q, base, GroupHead(notes, name, id, superName))
  {
    hide Inv, Consume, Named, Run, RefToken;
    var d1 := GroupHead(notes, name, id, None);
    var a := p;
    NotYet(p, base, notes, name);
    RunNone(p);
    if id.Some? { a := IdRead(p, base, notes, name, id.value); }
    assert Head(a, base, d1) && a.state != PFieldOrAny;
    q := a;
    RunNone(a);
    if superName.Some? { q := SuperRead(a, base, d1, superName.value); }
    RunAppend(p, IdTokens(id), SuperTokens(superName));
  }

  lemma RunNone(p: Parser)
    requires Inv(p)
    ensures Run(p, []) == Some(p)
  {
    hide Inv;
  }

  lemma NotYet(p: Parser, base: Place, notes: seq<Annote>, name: Text)
    requires Named(p, base, notes, name)
    ensures Head(p, base, Empty(name, notes)) && p.state == PDefType
  {
  }

  lemma FieldsRead(p: Parser, base: Place, d: Def, fs: seq<FieldText>) returns (q: Parser)
    requires Inv(p) && Head(p, base, d) && forall i :: 0 <= i < |fs| ==> FieldOk(fs[i])
    ensures var r := FieldsOf([], fs);
            && (r.None? ==> Run(p, FieldsTokens(fs)) == None)
            && (r.Some? ==> Inv(q) && Run(p, FieldsTokens(fs)) == Some(q) && GroupDone(q, base, WithFields(d, r.value)))
  {
    hide Inv, Consume, Run, FieldDone, FieldOk, Building, FieldListTokens, With, Here, Named, Search, FieldOf;
    if fs == [] {
      q := p;
      RunNone(p);
      assert WithFields(d, []) == d;
    } else {
      var c := ArrowRead(p, base, d);
      q := FieldListRead(c, base, d, fs);
      RunSingle(p, Key(L.KRArrow));
      RunAppend(p, [Key(L.KRArrow)], FieldListTokens(fs));
    }
  }

  /** What stands behind the name of a group is read as its ID, its supergroup's name and its
      fields, or refused because a field's name is found among those in front of it. */
  lemma GroupRead(p: Parser, base: Place, notes: seq<Annote>, d: DefText) returns (q: Parser)
    requires Inv(p) && Named(p, base, notes, d.name) && d.GroupText? && DefTextOk(d)
    ensures var r := FieldsOf([], d.fields);
            && (r.None? ==> Run(p, BodyTokens(d)) == None)
            && (r.Some? ==>
                  && Inv(q) && Run(p, BodyTokens(d)) == Some(q)
                  && GroupDone(q, base, Group(d.name, notes, d.id, d.superName, None, r.value)))
  {
    hide Inv, Consume, Run, GroupDone, Head, Named, FieldOk, IdTokens, SuperTokens, FieldsTokens, FieldsOf;
    var a := HeaderRead(p, base, notes, d.name, d.id, d.superName);
    q := FieldsRead(a, base, GroupHead(notes, d.name, d.id, d.superName), d.fields);
    RunAppend(p, IdTokens(d.id) + SuperTokens(d.superName), FieldsTokens(d.fields));
  }
}
