/** How the machine of parseSchema reads a type definition. The definition is only added when
    the token behind its type is seen. */
module TypedefReading {
  import opened Base
  import opened Schema
  import opened Parser
  import opened ParserInvariant
  import opened SchemaParser
  import opened SchemaPrint
  import opened GroupReading
  import opened EnumReading
  import L = Lexer

  function Begun(name: Text, ns: Notes, tag: IType, refName: Text): Def {
    TypeDef(name, ns.own, TypeInfo(if tag.IRef? then refName else [], ns.ahead, tag, None, 0, false, false))
  }

  /** The type's first token has been read, and nothing added yet. */
  ghost predicate Held(p: Parser, base: Place, d: Def) {
    && d.TypeDef? && d == Begun(d.name, Notes(d.notes, d.ty.notes), d.ty.tag, d.ty.name)
    && Undecided(p, base, Notes(d.notes, d.ty.notes), d.name) && p.laType == d.ty.tag
    && p.state == (if d.ty.tag.IRef? then PSymbolOrRef else PTypedef)
    && (d.ty.tag.IRef? ==> p.laName == Some(d.ty.name))
  }

  function FirstToken(tag: IType, refName: Text): L.Token {
    if tag.IRef? then L.Name(refName) else Key(KeyOf(tag))
  }

  lemma FirstTypeRead(p: Parser, base: Place, ns: Notes, name: Text, tag: IType, refName: Text) returns (q: Parser)
    requires Inv(p) && p.state == PEnumOrTypedef && Undecided(p, base, ns, name) && (!tag.IRef? ==> refName == [])
    ensures Inv(q) && Consume(p, FirstToken(tag, refName)) == Some(q) && Held(q, base, Begun(name, ns, tag, refName))
  {
    hide Inv, Consume, NewName, ITypeOf, KeyOf;
    var tok := FirstToken(tag, refName);
    if tag.IRef? {
      q := p.(laName := Some(refName), laType := IRef, state := PSymbolOrRef);
    } else {
      KeyOfBack(tag);
      NotBarOrAt(tag);
      q := p.(laType := tag, state := PTypedef);
    }
    assert Step(p, tok) == StepEnumOrTypedef(p, tok) == Go(q, true);
    Shifts(p, tok, q);
  }

  lemma NotBarOrAt(tag: IType)
    requires !tag.IRef?
    ensures KeyOf(tag) != L.KBar && KeyOf(tag) != L.KAt
  {
  }

  /** The definition d is the newest. */
  ghost predicate InTypedefOf(p: Parser, base: Place, d: Def) {
    d.TypeDef? && Building(p, base, d) && p.ty == Some(DefType(Here(base)))
  }

  lemma InTypedefIs(p: Parser, base: Place, d: Def)
    requires InTypedefOf(p, base, d)
    ensures InTypedef(p) && CurrentType(p) == d.ty
  {
    PutWith(p, base, d, d);
  }

  lemma PutTypedefWith(p: Parser, base: Place, d: Def, t: TypeInfo)
    requires InTypedefOf(p, base, d) && InTypedef(p)
    ensures PutType(p, t) == p.(nss := With(base, RetypeDef(d, t)))
  {
    hide With;
    PutWith(p, base, d, RetypeDef(d, t));
  }

  lemma RefIsTypedef(p: Parser, tok: L.Token)
    requires Inv(p) && p.state == PSymbolOrRef && tok != Key(L.KBar) && tok != Key(L.KSlash)
    ensures var r := p.(state := PTypedef); Inv(r) && Consume(p, tok) == Consume(r, tok)
  {
    hide Inv, Consume;
    var r := p.(state := PTypedef);
    assert Step(p, tok) == Go(r, false);
    Repeats(p, tok, r);
  }

  lemma TypedefStep(p: Parser, base: Place, d: Def, tok: L.Token, q: Parser)
    requires Inv(p) && p.state == PTypedef && d.TypeDef? && Undecided(p, base, Notes(d.notes, d.ty.notes), d.name)
    requires p.laType == d.ty.tag && (d.ty.tag.IRef? ==> p.laName == Some(d.ty.name))
    requires d == Begun(d.name, Notes(d.notes, d.ty.notes), d.ty.tag, d.ty.name)
    requires q ==
               p.(nss := With(base.Leaving([]), d), ty := Some(DefType(Here(base))), annotes := [], laAnnotes := [],
                  state := if d.ty.tag.IRef? then PDynamic(false) else PLBracket(false))
    ensures Step(p, tok) == Go(q, false)
  {
    hide Inv, AddDef, With, NewName;
    AddDefWith(p, base.Leaving([]), d);
    assert Step(p, tok) == StepTypedef(p);
  }

  /** Any token but a bar or a slash adds the definition and is looked at again. */
  lemma TypedefAdded(p: Parser, base: Place, d: Def, tok: L.Token) returns (q: Parser)
    requires Inv(p) && Held(p, base, d) && tok != Key(L.KBar) && tok != Key(L.KSlash)
    ensures Inv(q) && Consume(p, tok) == Consume(q, tok)
    ensures q.state == (if d.ty.tag.IRef? then PDynamic(false) else PLBracket(false))
    ensures InTypedefOf(q, base.Leaving([]), d)
  {
    hide Inv, Consume, AddDef, With, NewName, Step;
    var r := p.(state := PTypedef);
    if p.state == PSymbolOrRef { RefIsTypedef(p, tok); }
    q := r.(nss := With(base.Leaving([]), d), ty := Some(DefType(Here(base))), annotes := [], laAnnotes := [],
            state := if d.ty.tag.IRef? then PDynamic(false) else PLBracket(false));
    TypedefStep(r, base, d, tok, q);
    Repeats(r, tok, q);
  }

  /** One token of a type that has been added. */
  lemma TypedefToken(p: Parser, base: Place, d: Def, tok: L.Token, t: TypeInfo, next: State) returns (q: Parser)
    requires Inv(p) && InTypedefOf(p, base, d) && InType(p.state, false)
    requires match p.state
             case PDynamic(_) => tok == Key(L.KStar) && t == d.ty.(isDynamic := true) && next == p.state
             case PRBracket(_) => tok == Key(L.KRBracket) && t == d.ty.(isSequence := true) && next == PAny
             case PLBracket(_) => tok == Key(L.KLBracket) && t == d.ty && next == PRBracket(false)
             case _ => false
    ensures Inv(q) && Consume(p, tok) == Some(q) && q.state == next && InTypedefOf(q, base, RetypeDef(d, t))
  {
    hide Inv, With, Consume, PutType;
    InTypedefIs(p, base, d);
    PutTypedefWith(p, base, d, t);
    TypeInvOf(p, false);
    q := p.(nss := With(base, RetypeDef(d, t)), state := next);
    assert RetypeDef(d, d.ty) == d;
    assert Step(p, tok) == StepType(p, tok, false);
    Shifts(p, tok, q);
  }

  /** A token that ends stars or brackets. */
  lemma TypedefSkip(p: Parser, base: Place, d: Def, tok: L.Token) returns (q: Parser)
    requires Inv(p) && InTypedefOf(p, base, d)
    requires (p.state == PDynamic(false) && tok != Key(L.KStar))
             || (p.state == PLBracket(false) && tok != Key(L.KLBracket))
    ensures Inv(q) && Consume(p, tok) == Consume(q, tok)
    ensures q == p.(state := if p.state == PDynamic(false) then PLBracket(false) else PAny)
  {
    hide Inv, With, Consume;
    TypeInvOf(p, false);
    q := p.(state := if p.state == PDynamic(false) then PLBracket(false) else PAny);
    assert Step(p, tok) == StepType(p, tok, false) == Go(q, false);
    Repeats(p, tok, q);
  }

  /** Before the brackets of a type definition. */
  ghost predicate Bracketless(p: Parser, base: Place, d: Def) {
    Held(p, base, d) || (InTypedefOf(p, base.Leaving([]), d) && p.state == PDynamic(false))
  }

  /** A type definition has been read; the next token may end it. */
  ghost predicate TypedefDone(p: Parser, base: Place, d: Def) {
    Bracketless(p, base, d) || (InTypedefOf(p, base.Leaving([]), d) && p.state == PAny)
  }

  /** Stars, once the definition has been added. */
  lemma {:induction false} MoreStars(p: Parser, base: Place, d: Def, n: nat) returns (q: Parser)
    requires Inv(p) && InTypedefOf(p, base, d) && p.state == PDynamic(false)
    ensures d.TypeDef? && Inv(q) && Run(p, Stars(n)) == Some(q) && q.state == PDynamic(false)
    ensures InTypedefOf(q, base, RetypeDef(d, d.ty.(isDynamic := d.ty.isDynamic || n > 0)))
    decreases n
  {
    hide Inv, Consume, Building, Run;
    if n > 0 {
      var t := d.ty.(isDynamic := true);
      var a := TypedefToken(p, base, d, Key(L.KStar), t, PDynamic(false));
      q := MoreStars(a, base, RetypeDef(d, t), n - 1);
      assert RetypeDef(RetypeDef(d, t), t) == RetypeDef(d, t);
      RunOne(p, Key(L.KStar), Stars(n - 1), a);
    } else {
      q := p;
      RunNone(p);
      assert RetypeDef(d, d.ty.(isDynamic := d.ty.isDynamic)) == d;
    }
  }

  lemma TypedefStars(p: Parser, base: Place, d: Def, n: nat) returns (q: Parser)
    requires Inv(p) && Held(p, base, d) && (n > 0 ==> d.ty.tag.IRef?)
    ensures d.TypeDef? && Inv(q) && Run(p, Stars(n)) == Some(q)
    ensures Bracketless(q, base, RetypeDef(d, d.ty.(isDynamic := n > 0)))
  {
    hide Inv, Consume, InTypedefOf, Undecided, Run;
    if n > 0 {
      var toks := Stars(n);
      var a := TypedefAdded(p, base, d, toks[0]);
      q := MoreStars(a, base.Leaving([]), d, n);
      RunSame(p, a, toks);
    } else {
      q := p;
      RunNone(p);
      assert RetypeDef(d, d.ty.(isDynamic := false)) == d;
    }
  }

  lemma ToBracket(p: Parser, base: Place, d: Def, tok: L.Token) returns (q: Parser)
    requires Inv(p) && Bracketless(p, base, d)
    requires tok != Key(L.KStar) && tok != Key(L.KBar) && tok != Key(L.KSlash)
    ensures Inv(q) && Consume(p, tok) == Consume(q, tok) && q.state == PLBracket(false)
    ensures InTypedefOf(q, base.Leaving([]), d)
  {
    hide Inv, Consume, Undecided, With;
    q := p;
    if Held(p, base, d) { q := TypedefAdded(p, base, d, tok); }
    if q.state == PDynamic(false) { q := TypedefSkip(q, base.Leaving([]), d, tok); }
  }

  lemma TypedefBrackets(p: Parser, base: Place, d: Def, isSequence: bool) returns (q: Parser)
    requires Inv(p) && Bracketless(p, base, d) && d.TypeDef? && !d.ty.isSequence
    ensures Inv(q) && Run(p, Brackets(isSequence)) == Some(q)
    ensures TypedefDone(q, base, RetypeDef(d, d.ty.(isSequence := isSequence)))
  {
    hide Inv, Consume, InTypedefOf, Held;
    if isSequence {
      var a := ToBracket(p, base, d, Key(L.KLBracket));
      var b := TypedefToken(a, base.Leaving([]), d, Key(L.KLBracket), d.ty, PRBracket(false));
      assert RetypeDef(d, d.ty) == d;
      q := TypedefToken(b, base.Leaving([]), d, Key(L.KRBracket), d.ty.(isSequence := true), PAny);
      RunPair(p, Key(L.KLBracket), b, Key(L.KRBracket), q);
    } else {
      q := p;
      assert RetypeDef(d, d.ty.(isSequence := false)) == d;
    }
  }

  lemma TypedefEnds(p: Parser, base: Place, d: Def, tok: L.Token) returns (q: Parser)
    requires Inv(p) && TypedefDone(p, base, d) && Ender(tok)
    ensures Inv(q) && Consume(p, tok) == Consume(q, tok) && AtRest(q, After(base.Leaving([]), d))
  {
    hide Inv, Consume, With, Undecided;
    q := p;
    if Bracketless(p, base, d) {
      var a := ToBracket(p, base, d, tok);
      q := TypedefSkip(a, base.Leaving([]), d, tok);
    }
    TypedefAtRest(q, base.Leaving([]), d);
  }

  lemma TypedefAtRest(p: Parser, base: Place, d: Def)
    requires InTypedefOf(p, base, d) && p.state == PAny
    ensures AtRest(p, After(base, d))
  {
  }

  /** What stands behind the name of a type definition is read as its type, with the
      annotations in front of it. */
  lemma TypedefRead(p: Parser, base: Place, notes: seq<Annote>, d: DefText) returns (q: Parser)
    requires Inv(p) && Named(p, base, notes, d.name) && d.AliasText? && DefTextOk(d)
    ensures var ns := PutNotes(Notes(notes, base.left), d.ahead, true);
            && Inv(q) && Run(p, BodyTokens(d)) == Some(q)
            && TypedefDone(q, base, TypeDef(d.name, ns.own, AliasTypeOf(d.ty, ns.ahead)))
  {
    hide Inv, Consume, Run, Named, Held, InTypedefOf, KeyOf, PutNotes, Undecided, NotesTokens, Bracketless, TypedefDone;
    var ns, t := PutNotes(Notes(notes, base.left), d.ahead, true), d.ty;
    var first := FirstToken(t.tag, t.name);
    var a := EqualRead(p, base, notes, d.name);
    var b := AheadRead(a, base, Notes(notes, base.left), d.name, d.ahead);
    var c := FirstTypeRead(b, base, ns, d.name, t.tag, t.name);
    var d0 := Begun(d.name, ns, t.tag, t.name);
    var e := TypedefStars(c, base, d0, t.stars);
    var d1 := RetypeDef(d0, d0.ty.(isDynamic := t.stars > 0));
    q := TypedefBrackets(e, base, d1, t.brackets);
    assert RetypeDef(d1, d1.ty.(isSequence := t.brackets)) == TypeDef(d.name, ns.own, AliasTypeOf(t, ns.ahead));
    RunOne(p, Key(L.KEqual), NotesTokens(d.ahead), a);
    RunAppend(p, [Key(L.KEqual)] + NotesTokens(d.ahead), [first]);
    RunSingle(b, first);
    RunAppend(p, [Key(L.KEqual)] + NotesTokens(d.ahead) + [first], Stars(t.stars));
    RunAppend(p, [Key(L.KEqual)] + NotesTokens(d.ahead) + [first] + Stars(t.stars), Brackets(t.brackets));
  }
}
