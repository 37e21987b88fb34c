/** How the machine of parseSchema reads an enumeration: with or without a bar in front of it,
    with or without values, up to whatever ends it. */
module EnumReading {
  import opened Base
  import opened Schema
  import opened Parser
  import opened ParserInvariant
  import opened SchemaParser
  import opened SchemaPrint
  import opened GroupReading
  import L = Lexer

  /** Behind the equals sign, before it is clear what is being defined. */
  ghost predicate Undecided(p: Parser, base: Place, ns: Notes, name: Text) {
    && base.Valid() && p.nss == base.nss && p.ns == Some(base.at) && NotesIn(p) == ns
    && p.name == Some(name) && NewName(base, name)
  }

  lemma EqualRead(p: Parser, base: Place, notes: seq<Annote>, name: Text) returns (q: Parser)
    requires Inv(p) && Named(p, base, notes, name)
    ensures Inv(q) && Consume(p, Key(L.KEqual)) == Some(q)
    ensures q.state == PEnumOrTypedef && Undecided(q, base, Notes(notes, base.left), name)
  {
    hide Inv, Consume, Search, Step, StepDefType;
    q := p.(state := PEnumOrTypedef);
    EqualStep(p, base, notes, name);
    Shifts(p, Key(L.KEqual), q);
  }

  lemma EqualStep(p: Parser, base: Place, notes: seq<Annote>, name: Text)
    requires Inv(p) && Named(p, base, notes, name)
    ensures Step(p, Key(L.KEqual)) == Go(p.(state := PEnumOrTypedef), true)
  {
    hide Inv, Search, Step;
    AddDefWith(p, base, Empty(name, notes));
    StepAtName(p, Key(L.KEqual));
  }

  /** Annotations in front of a type or of a first symbol. */
  lemma AheadRead(p: Parser, base: Place, ns: Notes, name: Text, texts: seq<NoteText>) returns (q: Parser)
    requires Inv(p) && p.state == PEnumOrTypedef && Undecided(p, base, ns, name)
    ensures Inv(q) && Run(p, NotesTokens(texts)) == Some(q)
    ensures q.state == PEnumOrTypedef && Undecided(q, base, PutNotes(ns, texts, true), name)
  {
    hide Inv, Run, NotesTokens, PutNotes, NewName;
    q := NotesRead(p, OfTypedef, texts);
  }

  // ------------------------------------------------------------------ a symbol's name

  /** The enumeration e has been begun and is the newest definition. */
  ghost predicate NewestEnum(p: Parser, base: Place, e: Def) {
    e.Enum? && Newest(p, base, e) && p.e == Some(Here(base))
  }

  ghost predicate InEnumOf(p: Parser, base: Place, e: Def) {
    NewestEnum(p, base, e) && p.annotes == []
  }

  /** A symbol's name has been read, and these annotations in front of it. */
  ghost predicate SymbolNamed(p: Parser, base: Place, e: Def, sym: Text, notes: seq<Annote>) {
    p.state == PSymbol && p.name == Some(sym) && p.annotes == notes && NewestEnum(p, base, e)
  }

  lemma BarRead(p: Parser, base: Place, ns: Notes, name: Text) returns (q: Parser)
    requires Inv(p) && p.state == PEnumOrTypedef && Undecided(p, base, ns, name)
    ensures Inv(q) && Consume(p, Key(L.KBar)) == Some(q)
    ensures q.state == PEnumSingleton && Undecided(q, base, ns, name)
  {
    hide Inv, Consume, NewName;
    q := p.(state := PEnumSingleton);
    assert Step(p, Key(L.KBar)) == Go(q, true);
    Shifts(p, Key(L.KBar), q);
  }

  /** With a bar in front, whatever comes next begins the enumeration, and the annotations in
      front of the bar are left lying. */
  lemma EnumBegun(p: Parser, base: Place, ns: Notes, name: Text, tok: L.Token) returns (q: Parser)
    requires Inv(p) && p.state == PEnumSingleton && Undecided(p, base, ns, name)
    ensures Inv(q) && Consume(p, tok) == Consume(q, tok)
    ensures q.state == PSymbolAnnotes && InEnumOf(q, base.Leaving(ns.ahead), Enum(name, ns.own, []))
  {
    hide Inv, Consume, AddDef, With, Step, NewName;
    var b, d := base.Leaving(ns.ahead), Enum(name, ns.own, []);
    AddDefWith(p, b, d);
    q := p.(nss := With(b, d), e := Some(Here(b)), annotes := [], state := PSymbolAnnotes);
    StepAtSingleton(p, tok);
    Repeats(p, tok, q);
  }

  /** A symbol up to its name, where annotations may come. */
  lemma SymbolNameRead(p: Parser, base: Place, e: Def, s: SymbolText) returns (q: Parser)
    requires Inv(p) && p.state == PSymbolAnnotes && InEnumOf(p, base, e) && |s.notes| <= 1
    ensures Inv(q) && Run(p, NotesTokens(s.notes) + [L.Name(s.name)]) == Some(q)
    ensures SymbolNamed(q, base, e, s.name, OwnNotes(s.notes))
  {
    hide Inv, Consume, With, Run, PutNotes, PutNote, NoteTokens;
    var tok := L.Name(s.name);
    var a := NoteAtMost(p, OfSymbol, s.notes);
    var r := a.(state := PSymbolName);
    if s.notes == [] {
      assert Step(a, tok) == Go(r, false);
      Repeats(a, tok, r);
    }
    q := r.(state := PSymbol, name := Some(s.name));
    assert Step(r, tok) == Go(q, true);
    Shifts(r, tok, q);
    RunAppend(p, NotesTokens(s.notes), [tok]);
    RunSingle(a, tok);
  }

  /** Without a bar, the first name might still be that of a type. */
  ghost predicate RefOrSymbol(p: Parser, base: Place, ns: Notes, name: Text, first: Text) {
    p.state == PSymbolOrRef && Undecided(p, base, ns, name) && p.laName == Some(first) && p.laType.IRef?
  }

  lemma FirstNameRead(p: Parser, base: Place, ns: Notes, name: Text, first: Text) returns (q: Parser)
    requires Inv(p) && p.state == PEnumOrTypedef && Undecided(p, base, ns, name)
    ensures Inv(q) && Consume(p, L.Name(first)) == Some(q) && RefOrSymbol(q, base, ns, name, first)
  {
    hide Inv, Consume, NewName;
    q := p.(laName := Some(first), laType := IRef, state := PSymbolOrRef);
    assert Step(p, L.Name(first)) == StepEnumOrTypedef(p, L.Name(first)) == Go(q, true);
    Shifts(p, L.Name(first), q);
  }

  /** A bar or a slash says that it is a symbol's. */
  lemma RefIsSymbol(p: Parser, base: Place, ns: Notes, name: Text, first: Text, tok: L.Token) returns (q: Parser)
    requires Inv(p) && RefOrSymbol(p, base, ns, name, first) && (tok == Key(L.KBar) || tok == Key(L.KSlash))
    ensures Inv(q) && Consume(p, tok) == Consume(q, tok)
    ensures SymbolNamed(q, base.Leaving([]), Enum(name, ns.own, []), first, ns.ahead)
  {
    hide Inv, Consume, Undecided;
    var r := p.(state := PEnum);
    assert Step(p, tok) == Go(r, false);
    Repeats(p, tok, r);
    q := FirstAdded(p, r, base, ns, name, first, tok);
  }

  lemma FirstAdded(p: Parser, r: Parser, base: Place, ns: Notes, name: Text, first: Text, tok: L.Token)
    returns (q: Parser)
    requires RefOrSymbol(p, base, ns, name, first) && r == p.(state := PEnum) && Inv(r)
    ensures Inv(q) && Consume(r, tok) == Consume(q, tok)
    ensures SymbolNamed(q, base.Leaving([]), Enum(name, ns.own, []), first, ns.ahead)
  {
    hide Inv, Consume, AddDef, With, NewName;
    var b, d := base.Leaving([]), Enum(name, ns.own, []);
    AddDefWith(r, b, d);
    q := r.(nss := With(b, d), e := Some(Here(b)), name := Some(first), annotes := ns.ahead, laAnnotes := [],
            state := PSymbol);
    FirstBegun(r, tok, q);
    Repeats(r, tok, q);
  }

  lemma FirstBegun(p: Parser, tok: L.Token, q: Parser)
    requires Inv(p) && p.state == PEnum && p.laName.Some? && InNamespace(p) && p.name.Some?
    requires q ==
               AddDef(p, Enum(p.name.value, p.annotes, []))
               .(e := Some(Ref(p.ns.value, |Defs(p)|)), name := p.laName, annotes := p.laAnnotes, laAnnotes := [],
                 state := PSymbol)
    ensures Step(p, tok) == Go(q, false)
  {
    hide Inv, AddDef;
  }

  // ----------------------------------------------------------------- a symbol's value

  /** The enumeration with one more symbol. */
  function AddSymbol(e: Def, s: Symbol): Def
    requires e.Enum?
  {
    Enum(e.name, e.notes, e.symbols + [s])
  }

  /** A symbol has been added whose value is still to come. */
  ghost predicate Valuing(p: Parser, base: Place, e: Def, sym: Text, notes: seq<Annote>) {
    e.Enum? && InEnumOf(p, base, AddSymbol(e, Symbol(sym, notes, 0))) && p.s == Some(|e.symbols|)
  }

  lemma NewestEnumIs(p: Parser, base: Place, e: Def)
    requires NewestEnum(p, base, e)
    ensures InEnum(p) && DefAt(p.nss, p.e.value) == e
    ensures e.symbols != [] && p.s == Some(|e.symbols| - 1) ==> InSymbol(p)
  {
    PutWith(p, base, e, e);
  }

  /** The token behind a symbol's name adds the symbol, unless its name is found among those in
      front of it. */
  lemma SymbolAdded(p: Parser, base: Place, e: Def, sym: Text, notes: seq<Annote>, tok: L.Token) returns (q: Parser)
    requires Inv(p) && SymbolNamed(p, base, e, sym, notes)
    ensures Search(SymbolNames(e.symbols), sym).Some? ==> Consume(p, tok) == None
    ensures Search(SymbolNames(e.symbols), sym).None? ==>
              Inv(q) && Consume(p, tok) == Consume(q, tok) && q.state == PSymbolSlash && Valuing(q, base, e, sym, notes)
  {
    hide Inv, With, Search, PutDef, Step, Consume;
    var e' := AddSymbol(e, Symbol(sym, notes, 0));
    PutWith(p, base, e, e');
    NewestEnumIs(p, base, e);
    q := p.(nss := With(base, e'), s := Some(|e.symbols|), annotes := [], state := PSymbolSlash);
    StepAtSymbol(p, tok);
    if Search(SymbolNames(e.symbols), sym).Some? { Fails(p, tok); } else { Repeats(p, tok, q); }
  }

  /** The newest symbol gets its value. */
  lemma Valued(p: Parser, base: Place, e: Def, sym: Text, notes: seq<Annote>, v: int32) returns (q: Parser)
    requires Valuing(p, base, e, sym, notes)
    ensures InSymbol(p) && SetValue(p, v) == q && q == p.(nss := q.nss)
    ensures InEnumOf(q, base, AddSymbol(e, Symbol(sym, notes, v)))
  {
    hide With, PutDef;
    var before, after := AddSymbol(e, Symbol(sym, notes, 0)), AddSymbol(e, Symbol(sym, notes, v));
    NewestEnumIs(p, base, before);
    PutWith(p, base, before, after);
    var k := |e.symbols|;
    assert before.symbols[k := before.symbols[k].(value := v)] == after.symbols;
    q := p.(nss := With(base, after));
  }

  lemma StepAtSlash(p: Parser, tok: L.Token)
    requires Inv(p) && p.state == PSymbolSlash
    ensures InSymbol(p) && Step(p, tok) == StepSymbolSlash(p, tok)
  {
    hide StepSymbolSlash, Sound, Valueless;
  }

  /** The symbol in front of the newest one. */
  lemma Previous(p: Parser, base: Place, e: Def, sym: Text, notes: seq<Annote>)
    requires Valuing(p, base, e, sym, notes) && e.symbols != []
    ensures InSymbol(p) && DefAt(p.nss, p.e.value).symbols[p.s.value - 1] == e.symbols[|e.symbols| - 1]
  {
    NewestEnumIs(p, base, AddSymbol(e, Symbol(sym, notes, 0)));
  }

  /** Without a slash the symbol gets the value that follows, if there is one. */
  lemma ImpliedValue(p: Parser, base: Place, e: Def, sym: Text, notes: seq<Annote>, tok: L.Token) returns (q: Parser)
    requires Inv(p) && p.state == PSymbolSlash && Valuing(p, base, e, sym, notes) && tok != Key(L.KSlash)
    ensures var v := ValueOf(e.symbols, None);
            && (v.None? ==> Consume(p, tok) == None)
            && (v.Some? ==>
                  && Inv(q) && Consume(p, tok) == Consume(q, tok) && q.state == PSymbolNext
                  && InEnumOf(q, base, AddSymbol(e, Symbol(sym, notes, v.value))))
  {
    hide Inv, Consume, With, Step, SetValue;
    var v := ValueOf(e.symbols, None);
    StepAtSlash(p, tok);
    var r := Valued(p, base, e, sym, notes, if v.Some? then v.value else 0);
    q := r.(state := PSymbolNext);
    if e.symbols == [] {
      assert q.nss == p.nss;
      Repeats(p, tok, q);
    } else {
      Previous(p, base, e, sym, notes);
      if v.None? { Fails(p, tok); } else { Repeats(p, tok, q); }
    }
  }

  lemma SlashRead(p: Parser, base: Place, e: Def, sym: Text, notes: seq<Annote>) returns (q: Parser)
    requires Inv(p) && p.state == PSymbolSlash && Valuing(p, base, e, sym, notes)
    ensures Inv(q) && Consume(p, Key(L.KSlash)) == Some(q) && q.state == PSymbolValue && Valuing(q, base, e, sym, notes)
  {
    hide Inv, Consume, With, Step, SetValue;
    q := p.(state := PSymbolValue);
    StepAtSlash(p, Key(L.KSlash));
    Shifts(p, Key(L.KSlash), q);
  }

  /** A written value is taken if it is greater than the previous symbol's. */
  lemma ValueRead(p: Parser, base: Place, e: Def, sym: Text, notes: seq<Annote>, v: int32) returns (q: Parser)
    requires Inv(p) && p.state == PSymbolValue && Valuing(p, base, e, sym, notes)
    ensures ValueOf(e.symbols, Some(v)).None? ==> Consume(p, ValueToken(v)) == None
    ensures ValueOf(e.symbols, Some(v)).Some? ==>
              && Inv(q) && Consume(p, ValueToken(v)) == Some(q) && q.state == PSymbolNext
              && InEnumOf(q, base, AddSymbol(e, Symbol(sym, notes, v)))
  {
    hide Inv, Consume, With, Step, SetValue;
    StepAtValue(p, ValueToken(v));
    var r := Valued(p, base, e, sym, notes, v);
    q := r.(state := PSymbolNext);
    if e.symbols != [] { Previous(p, base, e, sym, notes); }
    if ValueOf(e.symbols, Some(v)).None? { Fails(p, ValueToken(v)); } else { Shifts(p, ValueToken(v), q); }
  }

  /** What may stand behind a symbol. */
  ghost predicate EndsSymbol(rest: Tokens) {
    rest != [] && (rest[0] == Key(L.KBar) || Ender(rest[0]))
  }

  lemma ImpliedRead(p: Parser, base: Place, e: Def, sym: Text, notes: seq<Annote>, rest: Tokens) returns (q: Parser)
    requires Inv(p) && p.state == PSymbolSlash && Valuing(p, base, e, sym, notes) && EndsSymbol(rest)
    ensures var v := ValueOf(e.symbols, None);
            && (v.None? ==> Run(p, rest) == None)
            && (v.Some? ==>
                  && Inv(q) && Run(p, rest) == Run(q, rest) && q.state == PSymbolNext
                  && InEnumOf(q, base, AddSymbol(e, Symbol(sym, notes, v.value))))
  {
    hide Inv, Consume, Run, InEnumOf, Valuing, ValueOf;
    ValuingIs(p, base, e, sym, notes);
    q := ImpliedValue(p, base, e, sym, notes, rest[0]);
    RunHead(p, rest);
    if ValueOf(e.symbols, None).Some? { RunSame(p, q, rest); }
  }

  lemma WrittenRead(p: Parser, base: Place, e: Def, sym: Text, notes: seq<Annote>, written: int32, rest: Tokens)
    returns (q: Parser)
    requires Inv(p) && p.state == PSymbolSlash && Valuing(p, base, e, sym, notes)
    ensures var v, toks := ValueOf(e.symbols, Some(written)), ValueTokens(Some(written)) + rest;
            && (v.None? ==> Run(p, toks) == None)
            && (v.Some? ==>
                  && Inv(q) && Run(p, toks) == Run(q, rest) && q.state == PSymbolNext
                  && InEnumOf(q, base, AddSymbol(e, Symbol(sym, notes, v.value))))
  {
    hide Inv, Consume, Run, InEnumOf, Valuing, ValueOf, ValueToken;
    ValuingIs(p, base, e, sym, notes);
    var tail := [ValueToken(written)] + rest;
    var b := SlashRead(p, base, e, sym, notes);
    q := ValueRead(b, base, e, sym, notes, written);
    assert ValueTokens(Some(written)) + rest == [Key(L.KSlash)] + tail;
    RunOne(p, Key(L.KSlash), tail, b);
    RunHead(b, tail);
    if ValueOf(e.symbols, Some(written)).Some? {
      RunOne(b, ValueToken(written), rest, q);
      WrittenValue(e.symbols, Some(written));
    }
  }

  lemma ValuingIs(p: Parser, base: Place, e: Def, sym: Text, notes: seq<Annote>)
    requires Valuing(p, base, e, sym, notes)
    ensures e.Enum?
  {
  }

  /** From a symbol's name on, the run is at the end of the symbol, or refused. */
  lemma SymbolRead(p: Parser, base: Place, e: Def, s: SymbolText, notes: seq<Annote>, rest: Tokens) returns (q: Parser)
    requires Inv(p) && SymbolNamed(p, base, e, s.name, notes) && EndsSymbol(rest)
    ensures var sym, toks := SymbolOf(e.symbols, s, notes), ValueTokens(s.value) + rest;
            && (sym.None? ==> Run(p, toks) == None)
            && (sym.Some? ==>
                  && Inv(q) && Run(p, toks) == Run(q, rest) && q.state == PSymbolNext
                  && InEnumOf(q, base, AddSymbol(e, sym.value)))
  {
    hide Inv, Consume, Run, Search, InEnumOf, Valuing, ValueOf, SymbolNamed, ValueToken, EndsSymbol;
    var toks := ValueTokens(s.value) + rest;
    SymbolNamedIs(p, base, e, s.name, notes);
    SomethingEnds(rest);
    q := SymbolAdded(p, base, e, s.name, notes, toks[0]);
    RunHead(p, toks);
    if Search(SymbolNames(e.symbols), s.name).None? {
      RunSame(p, q, toks);
      if s.value.None? {
        assert toks == rest;
        q := ImpliedRead(q, base, e, s.name, notes, rest);
      } else {
        q := WrittenRead(q, base, e, s.name, notes, s.value.value, rest);
      }
    }
  }

  lemma SomethingEnds(rest: Tokens)
    requires EndsSymbol(rest)
    ensures rest != []
  {
  }

  lemma SymbolNamedIs(p: Parser, base: Place, e: Def, sym: Text, notes: seq<Annote>)
    requires SymbolNamed(p, base, e, sym, notes)
    ensures e.Enum?
  {
  }

  lemma WrittenValue(before: seq<Symbol>, v: Option<int32>)
    requires v.Some? && ValueOf(before, v).Some?
    ensures ValueOf(before, v) == v
  {
  }

  /** The first token decides a run that it stops. */
  lemma RunHead(p: Parser, toks: Tokens)
    requires Inv(p) && toks != []
    ensures Consume(p, toks[0]) == None ==> Run(p, toks) == None
  {
    hide Inv, Consume;
  }

  // -------------------------------------------------------------------- a whole enumeration

  lemma SymbolBar(p: Parser, base: Place, e: Def) returns (q: Parser)
    requires Inv(p) && p.state == PSymbolNext && InEnumOf(p, base, e)
    ensures Inv(q) && Consume(p, Key(L.KBar)) == Some(q) && q.state == PSymbolAnnotes && InEnumOf(q, base, e)
  {
    hide Inv, Consume, With;
    q := p.(state := PSymbolAnnotes);
    assert Step(p, Key(L.KBar)) == Go(q, true);
    Shifts(p, Key(L.KBar), q);
  }

  lemma MoreEnd(ss: seq<SymbolText>, rest: Tokens)
    requires rest != [] && Ender(rest[0])
    ensures EndsSymbol(MoreSymbols(ss) + rest)
  {
    hide SymbolTokens;
  }

  function WithSymbols(e: Def, ss: seq<Symbol>): Def
    requires e.Enum?
  {
    Enum(e.name, e.notes, ss)
  }

  /** One more symbol, behind a bar. */
  lemma NextSymbolRead(p: Parser, base: Place, e: Def, s: SymbolText, rest: Tokens) returns (q: Parser)
    requires Inv(p) && p.state == PSymbolNext && InEnumOf(p, base, e) && |s.notes| <= 1 && EndsSymbol(rest)
    ensures e.Enum?
    ensures var sym, toks := SymbolOf(e.symbols, s, OwnNotes(s.notes)), [Key(L.KBar)] + (SymbolTokens(s) + rest);
            && (sym.None? ==> Run(p, toks) == None)
            && (sym.Some? ==>
                  && Inv(q) && Run(p, toks) == Run(q, rest) && q.state == PSymbolNext
                  && InEnumOf(q, base, AddSymbol(e, sym.value)))
  {
    hide Inv, Consume, Run, SymbolNamed, ValueTokens, SymbolOf, NotesTokens, PutNotes, EndsSymbol, InEnumOf;
    var head, values := NotesTokens(s.notes) + [L.Name(s.name)], ValueTokens(s.value);
    InEnumIs(p, base, e);
    var a := SymbolBar(p, base, e);
    var b := SymbolNameRead(a, base, e, s);
    q := SymbolRead(b, base, e, s, OwnNotes(s.notes), rest);
    RunOne(p, Key(L.KBar), SymbolTokens(s) + rest, a);
    RunAppend(a, head, values + rest);
    assert SymbolTokens(s) + rest == head + (values + rest);
  }

  lemma InEnumIs(p: Parser, base: Place, e: Def)
    requires InEnumOf(p, base, e)
    ensures e.Enum? && WithSymbols(e, e.symbols) == e
  {
  }

  lemma MoreTokens(ss: seq<SymbolText>, rest: Tokens)
    requires ss != []
    ensures MoreSymbols(ss) + rest == [Key(L.KBar)] + (SymbolTokens(ss[0]) + (MoreSymbols(ss[1..]) + rest))
  {
    hide SymbolTokens;
  }

  /** The tokens of further symbols append exactly the symbols they mean, or are refused. */
  lemma {:induction false} SymbolListRead(p: Parser, base: Place, e: Def, ss: seq<SymbolText>, rest: Tokens)
    returns (q: Parser)
    requires Inv(p) && p.state == PSymbolNext && InEnumOf(p, base, e) && SymbolsOk(ss) && rest != [] && Ender(rest[0])
    ensures e.Enum?
    ensures var all, toks := SymbolsOf(e.symbols, ss), MoreSymbols(ss) + rest;
            && (all.None? ==> Run(p, toks) == None)
            && (all.Some? ==>
                  && Inv(q) && Run(p, toks) == Run(q, rest) && q.state == PSymbolNext
                  && InEnumOf(q, base, WithSymbols(e, all.value)))
    decreases ss
  {
    hide Inv, Consume, Run, SymbolOf, PutNotes, EndsSymbol, InEnumOf, MoreSymbols, SymbolTokens;
    InEnumIs(p, base, e);
    if ss == [] {
      q := p;
      NoMoreSymbols(rest);
    } else {
      MoreEnd(ss[1..], rest);
      MoreTokens(ss, rest);
      q := NextSymbolRead(p, base, e, ss[0], MoreSymbols(ss[1..]) + rest);
      var sym := SymbolOf(e.symbols, ss[0], OwnNotes(ss[0].notes));
      if sym.Some? { q := SymbolListRead(q, base, AddSymbol(e, sym.value), ss[1..], rest); }
    }
  }

  lemma NoMoreSymbols(rest: Tokens)
    ensures MoreSymbols([]) + rest == rest
  {
  }

  lemma EnumEnds(p: Parser, base: Place, e: Def, tok: L.Token) returns (q: Parser)
    requires Inv(p) && p.state == PSymbolNext && InEnumOf(p, base, e) && Ender(tok)
    ensures Inv(q) && Consume(p, tok) == Consume(q, tok) && AtRest(q, After(base, e))
  {
    hide Inv, Consume, With;
    q := p.(state := PAny);
    assert Step(p, tok) == Go(q, false);
    Repeats(p, tok, q);
    AfterValid(base, e);
  }

  /** What is being read, up to the name of its first symbol. */
  function FirstTokens(ahead: seq<NoteText>, bar: bool, first: SymbolText): Tokens {
    [Key(L.KEqual)] + NotesTokens(ahead) + (if bar then [Key(L.KBar)] else []) + NotesTokens(first.notes)
    + [L.Name(first.name)]
  }

  lemma BarredRead(p: Parser, base: Place, notes: seq<Annote>, name: Text, ahead: seq<NoteText>, first: SymbolText)
    returns (q: Parser)
    requires Inv(p) && Named(p, base, notes, name) && |first.notes| <= 1
    ensures Inv(q) && Run(p, FirstTokens(ahead, true, first)) == Some(q)
    ensures var ns := PutNotes(Notes(notes, base.left), ahead, true);
            SymbolNamed(q, base.Leaving(ns.ahead), Enum(name, ns.own, []), first.name, OwnNotes(first.notes))
  {
    hide Inv, Consume, Run, NotesTokens, Undecided, InEnumOf, PutNotes, Named, SymbolNamed;
    var ns, toks := PutNotes(Notes(notes, base.left), ahead, true), NotesTokens(first.notes) + [L.Name(first.name)];
    var a := EqualRead(p, base, notes, name);
    var b := AheadRead(a, base, Notes(notes, base.left), name, ahead);
    var c := BarRead(b, base, ns, name);
    var e := EnumBegun(c, base, ns, name, toks[0]);
    q := SymbolNameRead(e, base.Leaving(ns.ahead), Enum(name, ns.own, []), first);
    RunSame(c, e, toks);
    RunOne(b, Key(L.KBar), toks, c);
    RunAppend(a, NotesTokens(ahead), [Key(L.KBar)] + toks);
    RunOne(p, Key(L.KEqual), NotesTokens(ahead) + ([Key(L.KBar)] + toks), a);
    assert FirstTokens(ahead, true, first) == [Key(L.KEqual)] + (NotesTokens(ahead) + ([Key(L.KBar)] + toks));
  }

  lemma UnbarredRead(p: Parser, base: Place, notes: seq<Annote>, name: Text, ahead: seq<NoteText>, first: SymbolText)
    returns (q: Parser)
    requires Inv(p) && Named(p, base, notes, name) && first.notes == []
    ensures Inv(q) && Run(p, FirstTokens(ahead, false, first)) == Some(q)
    ensures RefOrSymbol(q, base, PutNotes(Notes(notes, base.left), ahead, true), name, first.name)
  {
    hide Inv, Consume, Run, Undecided, PutNotes, Named;
    var a := EqualRead(p, base, notes, name);
    var b := AheadRead(a, base, Notes(notes, base.left), name, ahead);
    q := FirstNameRead(b, base, PutNotes(Notes(notes, base.left), ahead, true), name, first.name);
    RunOne(p, Key(L.KEqual), NotesTokens(ahead) + [L.Name(first.name)], a);
    RunAppend(a, NotesTokens(ahead), [L.Name(first.name)]);
    RunSingle(b, L.Name(first.name));
    assert FirstTokens(ahead, false, first) == [Key(L.KEqual)] + (NotesTokens(ahead) + [L.Name(first.name)]);
  }

  /** The annotations in front of the first symbol, and those that are left lying. */
  function FirstNotes(ahead: seq<Annote>, bar: bool, first: SymbolText): Notes {
    if bar then Notes(OwnNotes(first.notes), ahead) else Notes(ahead, [])
  }

  /** Up to the name of the first symbol, and with what follows told from a type definition. */
  lemma FirstRead(p: Parser, base: Place, notes: seq<Annote>, d: DefText, rest: Tokens) returns (q: Parser)
    requires Inv(p) && Named(p, base, notes, d.name) && d.EnumText? && DefTextOk(d) && rest != [] && Ender(rest[0])
    ensures var ns := PutNotes(Notes(notes, base.left), d.ahead, true);
            var firsts := FirstNotes(ns.ahead, d.bar, d.first);
            var tail := ValueTokens(d.first.value) + (MoreSymbols(d.more) + rest);
            && Inv(q) && Run(p, FirstTokens(d.ahead, d.bar, d.first) + tail) == Run(q, tail)
            && SymbolNamed(q, base.Leaving(firsts.ahead), Enum(d.name, ns.own, []), d.first.name, firsts.own)
  {
    hide Inv, Consume, Run, FirstTokens, SymbolNamed, RefOrSymbol, PutNotes, Named, SymbolTokens;
    var tail := ValueTokens(d.first.value) + (MoreSymbols(d.more) + rest);
    if d.bar {
      q := BarredRead(p, base, notes, d.name, d.ahead, d.first);
    } else {
      var ns := PutNotes(Notes(notes, base.left), d.ahead, true);
      var a := UnbarredRead(p, base, notes, d.name, d.ahead, d.first);
      q := RefIsSymbol(a, base, ns, d.name, d.first.name, tail[0]);
      RunSame(a, q, tail);
    }
    RunAppend(p, FirstTokens(d.ahead, d.bar, d.first), tail);
  }

  /** What stands behind the name of an enumeration is read as the symbols it means, or refused
      because a symbol's name is found or it has no value. */
  lemma EnumRead(p: Parser, base: Place, notes: seq<Annote>, d: DefText, rest: Tokens) returns (q: Parser)
    requires Inv(p) && Named(p, base, notes, d.name) && d.EnumText? && DefTextOk(d) && rest != [] && Ender(rest[0])
    ensures var ns := PutNotes(Notes(notes, base.left), d.ahead, true);
            var firsts := FirstNotes(ns.ahead, d.bar, d.first);
            var sym := SymbolOf([], d.first, firsts.own);
            var all := if sym.Some? then SymbolsOf([sym.value], d.more) else None;
            && (all.None? ==> Run(p, BodyTokens(d) + rest) == None)
            && (all.Some? ==>
                  && Inv(q) && Run(p, BodyTokens(d) + rest) == Run(q, rest) && q.state == PSymbolNext
                  && InEnumOf(q, base.Leaving(firsts.ahead), Enum(d.name, ns.own, all.value)))
  {
    hide Inv, Consume, Run, FirstTokens, FirstNotes, SymbolNamed, Named, MoreSymbols, ValueTokens, SymbolOf, SymbolsOf,
         InEnumOf, EndsSymbol, PutNotes;
    var ns, more := PutNotes(Notes(notes, base.left), d.ahead, true), MoreSymbols(d.more) + rest;
    var firsts := FirstNotes(ns.ahead, d.bar, d.first);
    var b := base.Leaving(firsts.ahead);
    var a := FirstRead(p, base, notes, d, rest);
    MoreEnd(d.more, rest);
    q := SymbolRead(a, b, Enum(d.name, ns.own, []), d.first, firsts.own, more);
    EnumTokens(d, rest);
    var sym := SymbolOf([], d.first, firsts.own);
    if sym.Some? {
      assert [] + [sym.value] == [sym.value];
      q := SymbolListRead(q, b, Enum(d.name, ns.own, [sym.value]), d.more, rest);
    }
  }

  lemma EnumTokens(d: DefText, rest: Tokens)
    requires d.EnumText?
    ensures BodyTokens(d) + rest ==
              FirstTokens(d.ahead, d.bar, d.first) + (ValueTokens(d.first.value) + (MoreSymbols(d.more) + rest))
  {
    hide NotesTokens, ValueTokens, MoreSymbols;
    var names, values := NotesTokens(d.first.notes) + [L.Name(d.first.name)], ValueTokens(d.first.value);
    assert SymbolTokens(d.first) == names + values;
    var opening := [Key(L.KEqual)] + NotesTokens(d.ahead) + if d.bar then [Key(L.KBar)] else [];
    assert FirstTokens(d.ahead, d.bar, d.first) == opening + names;
    assert BodyTokens(d) == opening + (names + values) + MoreSymbols(d.more);
  }
}
