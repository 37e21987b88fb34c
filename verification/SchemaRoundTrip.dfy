/** What a schema text means is what the machine of parseSchema builds from it, for every text
    of the grammar, and with the lexer's law for every way of laying out its tokens. Every
    schema without bindings has a text that means it, so parsing undoes printing. */
module SchemaRoundTrip {
  import opened Base
  import opened Schema
  import opened Parser
  import opened ParserInvariant
  import opened SchemaParser
  import opened SchemaPrint
  import opened GroupReading
  import opened EnumReading
  import opened TypedefReading
  import L = Lexer
  import R = LexerRoundTrip

  // ---------------------------------------------------------------------- definitions

  /** Annotations in front of a name do not depend on those that are left lying. */
  lemma {:induction false} NoneAhead(own: seq<Annote>, left: seq<Annote>, texts: seq<NoteText>)
    ensures PutNotes(Notes(own, left), texts, false) == Notes(PutNotes(Notes(own, []), texts, false).own, left)
    decreases texts
  {
    hide Search;
    if texts != [] { NoneAhead(PutNote(Notes(own, left), texts[0], false).own, left, texts[1..]); }
  }

  lemma OwnAlone(texts: seq<NoteText>, left: seq<Annote>)
    ensures PutNotes(Notes([], left), texts, false) == Notes(OwnNotes(texts), left)
  {
    hide PutNotes;
    NoneAhead([], left, texts);
  }

  /** What comes behind a name says what it is the name of. */
  predicate FollowsName(tok: L.Token) {
    Ender(tok) || tok == Key(L.KSlash) || tok == Key(L.KColon) || tok == Key(L.KRArrow) || tok == Key(L.KEqual)
  }

  lemma BodyStarts(d: DefText, rest: Tokens)
    requires rest != [] && Ender(rest[0])
    ensures BodyTokens(d) + rest != [] && FollowsName((BodyTokens(d) + rest)[0])
  {
    hide FieldListTokens, NotesTokens, MoreSymbols, SymbolTokens;
  }

  /** A name that is found among those of the namespace is refused. */
  lemma NameTaken(p: Parser, base: Place, notes: seq<Annote>, name: Text, toks: Tokens)
    requires Inv(p) && Within(p, base, notes) && p.state == PDefType && p.name == Some(name) && !NewName(base, name)
    requires toks != [] && FollowsName(toks[0])
    ensures Run(p, toks) == None
  {
    hide Inv, Search, Step, Run, Consume;
    AddDefWith(p, base, Empty(name, notes));
    StepAtName(p, toks[0]);
    Fails(p, toks[0]);
    RunHead(p, toks);
  }

  lemma AfterLeaving(base: Place, d: Def, left: seq<Annote>)
    requires base.Valid()
    ensures After(base, d).Leaving(left) == After(base.Leaving(left), d) && After(base, d).Leaving(left).Valid()
    ensures base.Leaving(base.left) == base
  {
  }

  /** What stands behind the name of a definition, up to what ends the definition. */
  lemma BodyRead(p: Parser, base: Place, d: DefText, rest: Tokens) returns (q: Parser)
    requires Inv(p) && Named(p, base, OwnNotes(d.notes), d.name) && DefTextOk(d) && rest != [] && Ender(rest[0])
    ensures base.Valid()
    ensures var m := DefOf(d, base.left);
            && (m.None? ==> Run(p, BodyTokens(d) + rest) == None)
            && (m.Some? ==>
                  && Inv(q) && AtRest(q, After(base, m.value.def).Leaving(m.value.left))
                  && Run(p, BodyTokens(d) + rest) == Run(q, rest))
  {
    hide Inv, AtRest, Named, Run, Consume, BodyTokens, GroupDone, InEnumOf, TypedefDone, After, FieldsOf, SymbolsOf,
         SymbolOf, PutNotes, OwnNotes, DefTextOk;
    var notes, m := OwnNotes(d.notes), DefOf(d, base.left);
    NamedValid(p, base, notes, d.name);
    if m.Some? { AfterLeaving(base, m.value.def, m.value.left); }
    var a := p;
    q := p;
    match d {
      case GroupText(_, _, _, _, _) =>
        a := GroupRead(p, base, notes, d);
        RunAppend(p, BodyTokens(d), rest);
        if m.Some? { q := GroupEnds(a, base, m.value.def, rest[0]); }
      case EnumText(_, _, _, _, _, _) =>
        a := EnumRead(p, base, notes, d, rest);
        if m.Some? { q := EnumEnds(a, base.Leaving(m.value.left), m.value.def, rest[0]); }
      case AliasText(_, _, _, _) =>
        a := TypedefRead(p, base, notes, d);
        RunAppend(p, BodyTokens(d), rest);
        q := TypedefEnds(a, base, m.value.def, rest[0]);
    }
    if m.Some? { RunSame(a, q, rest); }
  }

  lemma NamedValid(p: Parser, base: Place, notes: seq<Annote>, name: Text)
    requires Named(p, base, notes, name)
    ensures base.Valid()
  {
  }

  /** One definition, in front of anything that may follow one: exactly its meaning is added,
      or it is refused because it has none or its name is taken. */
  lemma DefRead(p: Parser, base: Place, d: DefText, rest: Tokens) returns (q: Parser)
    requires Inv(p) && AtRest(p, base) && base.Valid() && DefTextOk(d) && rest != [] && Ender(rest[0])
    ensures var m := DefOf(d, base.left);
            && (!NewName(base, d.name) || m.None? ==> Run(p, DefTokens(d) + rest) == None)
            && (NewName(base, d.name) && m.Some? ==>
                  && Inv(q) && AtRest(q, After(base, m.value.def).Leaving(m.value.left))
                  && Run(p, DefTokens(d) + rest) == Run(q, rest))
  {
    hide Inv, Run, Consume, BodyTokens, NewName, After, PutNotes, OwnNotes, DefTextOk, DefOf, NotesTokens;
    var toks := BodyTokens(d) + rest;
    var a := NotesRead(p, OfDef, d.notes);
    OwnAlone(d.notes, base.left);
    var b := NameRead(a, base, OwnNotes(d.notes), d.name);
    BodyStarts(d, rest);
    RunAppend(p, NotesTokens(d.notes), [L.Name(d.name)] + toks);
    RunOne(a, L.Name(d.name), toks, b);
    assert DefTokens(d) + rest == NotesTokens(d.notes) + ([L.Name(d.name)] + toks);
    if NewName(base, d.name) {
      q := BodyRead(b, base, d, rest);
    } else {
      q := b;
      NameTaken(b, base, OwnNotes(d.notes), d.name, toks);
    }
  }

  // ----------------------------------------------------------------------- whole texts

  /** A header, between definitions or at the very start. */
  lemma HeaderItem(p: Parser, name: Text) returns (q: Parser)
    requires Inv(p) && (p == INITIAL || exists base :: AtRest(p, base))
    ensures Inv(q) && Run(p, [Key(L.KNamespace), L.Name(name)]) == Some(q)
    ensures AtRest(q, Opened(p.nss, name, p.laAnnotes))
  {
    hide Inv, Consume, Search, Run, Step;
    var a := p.(state := PNs);
    HeaderBegins(p);
    Shifts(p, Key(L.KNamespace), a);
    q := GetNamespace(a, name).(state := PAny);
    NamespaceNamed(a, name);
    Shifts(a, L.Name(name), q);
    RunPair(p, Key(L.KNamespace), a, L.Name(name), q);
  }

  lemma HeaderBegins(p: Parser)
    requires Inv(p) && (p.state == PStart || p.state == PAny)
    ensures Step(p, Key(L.KNamespace)) == Go(p.(state := PNs), true)
  {
    hide Inv;
  }

  lemma NamespaceNamed(p: Parser, name: Text)
    requires Inv(p) && p.state == PNs
    ensures Step(p, L.Name(name)) == Go(GetNamespace(p, name).(state := PAny), true)
  {
    hide Inv, Search;
  }

  lemma {:induction false} ItemsStart(items: seq<Item>)
    ensures var toks := ItemsTokens(items) + [END];
            toks != [] && Ender(toks[0]) && (items == [] || items[0].Define? ==> toks[0] != Key(L.KNamespace))
  {
    hide BodyTokens;
  }

  /** The run over the tokens of further items builds exactly what they mean. */
  lemma {:induction false} ItemsRead(p: Parser, base: Place, items: seq<Item>)
    requires Inv(p) && AtRest(p, base) && base.Valid() && ItemsOk(items)
    ensures var r, nss := Run(p, ItemsTokens(items) + [END]), Meaning(base, items);
            if nss.None? then r == None else r.Some? && r.value.nss == nss.value
    decreases items, 0
  {
    hide Inv, Run, AtRest, After, DefTokens, DefTextOk, DefOf, Search, ItemTokens;
    if items == [] {
      EndRead(p, base);
      assert [] + [END] == [END];
    } else {
      var rest := ItemsTokens(items[1..]) + [END];
      ItemsStart(items[1..]);
      assert ItemsTokens(items) + [END] == ItemTokens(items[0]) + rest;
      match items[0] {
        case Header(name) => HeaderRest(p, base, name, items[1..]);
        case Define(d) => DefineRest(p, base, d, items[1..]);
      }
    }
  }

  lemma HeaderRest(p: Parser, base: Place, name: Text, items: seq<Item>)
    requires Inv(p) && AtRest(p, base) && base.Valid() && ItemsOk(items)
    ensures var toks := ItemTokens(Header(name)) + (ItemsTokens(items) + [END]);
            var r, nss := Run(p, toks), Meaning(Opened(base.nss, name, base.left), items);
            if nss.None? then r == None else r.Some? && r.value.nss == nss.value
    decreases items, 1
  {
    hide Inv, Run, ItemsTokens, Meaning, Opened, ItemsOk;
    var q := HeaderItem(p, name);
    RunAppend(p, ItemTokens(Header(name)), ItemsTokens(items) + [END]);
    ItemsRead(q, Opened(base.nss, name, base.left), items);
  }

  lemma DefineRest(p: Parser, base: Place, d: DefText, items: seq<Item>)
    requires Inv(p) && AtRest(p, base) && base.Valid() && ItemsOk(items) && DefTextOk(d)
    ensures var toks := ItemTokens(Define(d)) + (ItemsTokens(items) + [END]);
            var m := if Search(base.Names(), d.name).Some? then None else DefOf(d, base.left);
            var nss := if m.None? then None else Meaning(After(base, m.value.def).Leaving(m.value.left), items);
            var r := Run(p, toks);
            if nss.None? then r == None else r.Some? && r.value.nss == nss.value
    decreases items, 1
  {
    hide Inv, Run, ItemsTokens, Meaning, ItemsOk, DefTokens, DefTextOk, DefOf, Search, AtRest, With;
    var rest := ItemsTokens(items) + [END];
    ItemsStart(items);
    var q := DefRead(p, base, d, rest);
    var m := DefOf(d, base.left);
    if NewName(base, d.name) && m.Some? {
      AfterLeaving(base, m.value.def, m.value.left);
      ItemsRead(q, After(base, m.value.def).Leaving(m.value.left), items);
    }
  }

  lemma EndRead(p: Parser, base: Place)
    requires Inv(p) && AtRest(p, base)
    ensures Run(p, [END]) == Some(p) && p.nss == base.nss
  {
    hide Inv, Consume, Run;
    assert Step(p, END) == Go(p, true);
    Shifts(p, END, p);
    RunSingle(p, END);
  }

  /** The first token of a definition, or the end, opens the unnamed namespace. */
  lemma DefaultRead(p: Parser, tok: L.Token) returns (q: Parser)
    requires Inv(p) && p == INITIAL && tok != Key(L.KNamespace)
    ensures Inv(q) && Consume(p, tok) == Consume(q, tok) && AtRest(q, Place([Namespace([], [])], 0, []))
  {
    hide Inv, Consume, Search;
    q := p.(ns := Some(0), nss := [Namespace([], [])], state := PAny);
    assert Search(NamespaceNames([]), []) == None by { SearchFirst(NamespaceNames([]), []); }
    assert Step(p, tok) == Go(q, false);
    Repeats(p, tok, q);
  }

  /** The run over the tokens of a text accepts exactly the texts that mean something, and
      builds what they mean. */
  lemma TextRead(items: seq<Item>)
    requires ItemsOk(items)
    ensures Inv(INITIAL)
    ensures var r, nss := Run(INITIAL, ItemsTokens(items) + [END]), TextMeaning(items);
            if nss.None? then r == None else r.Some? && r.value.nss == nss.value
  {
    hide Inv, Run, Meaning, Opened, Consume;
    InitialInv();
    var toks := ItemsTokens(items) + [END];
    if items != [] && items[0].Header? {
      var head, rest := ItemTokens(items[0]), ItemsTokens(items[1..]) + [END];
      var q := HeaderItem(INITIAL, items[0].name);
      RunAppend(INITIAL, head, rest);
      assert toks == head + rest;
      ItemsRead(q, Opened([], items[0].name, []), items[1..]);
    } else {
      ItemsStart(items);
      var q := DefaultRead(INITIAL, toks[0]);
      RunSame(INITIAL, q, toks);
      ItemsRead(q, Place([Namespace([], [])], 0, []), items);
    }
  }

  // ------------------------------------------------------------------------- as text

  /** Parsing a text is running over its tokens. */
  lemma {:induction false} ParseIsRun(text: seq<byte>, pos: nat, p: Parser, toks: Tokens)
    requires pos <= |text| && Inv(p) && R.LexAll(text, pos, TOKEN_MAX_SIZE) == toks + [END]
    requires forall i :: 0 <= i < |toks| ==> !toks[i].Eof? && !toks[i].NoMemory?
    ensures ParseFrom(text, pos, p) == Run(p, toks + [END])
    decreases toks
  {
    hide Inv, Consume, L.GetToken;
    var (tok, next) := L.GetToken(text, pos, TOKEN_MAX_SIZE);
    ParseStep(text, pos, p);
    assert (toks + [END])[0] == tok;
    if toks == [] {
      RunSingle(p, END);
      assert [] + [END] == [END];
    } else {
      assert (toks + [END])[1..] == toks[1..] + [END];
      assert R.LexAll(text, next, TOKEN_MAX_SIZE) == toks[1..] + [END];
      var q := Consume(p, tok);
      if q.Some? { ParseIsRun(text, next, q.value, toks[1..]); }
    }
  }

  /** Whatever separates its tokens, and however they are printed, a text is parsed into what
      it means, and is refused if it means nothing. */
  lemma ParseText(items: seq<Item>, front: seq<byte>, ps: seq<R.Printed>, tail: seq<byte>)
    requires ItemsOk(items) && R.Tokens(ps) == ItemsTokens(items)
    requires R.IsGap(front) && R.Laid(ps, tail, TOKEN_MAX_SIZE) && R.IsEnd(tail)
    ensures Parse(front + R.Lay(ps, tail)) == TextMeaning(items)
  {
    hide Inv, Run, ParseFrom, ItemsTokens, R.Laid, R.Lay, R.IsGap, TextMeaning, R.Tokens;
    var text := front + R.Lay(ps, tail);
    R.PrintLex(front, ps, tail, TOKEN_MAX_SIZE);
    NoEndInside(ps, tail);
    TextRead(items);
    ParseIsRun(text, 0, INITIAL, ItemsTokens(items));
  }

  lemma PrintableIsNoEnd(p: R.Printed, max: nat)
    requires R.Printable(p, max)
    ensures !p.token.Eof? && !p.token.NoMemory?
  {
  }

  lemma {:induction false} NoEndInside(ps: seq<R.Printed>, tail: seq<byte>)
    requires R.Laid(ps, tail, TOKEN_MAX_SIZE)
    ensures var toks := R.Tokens(ps); forall i :: 0 <= i < |toks| ==> !toks[i].Eof? && !toks[i].NoMemory?
  {
    hide R.IsGap, R.MayFollow, R.Printable, R.Lay, R.Tokens;
    if ps != [] {
      NoEndInside(ps[1..], tail);
      PrintableIsNoEnd(ps[0], TOKEN_MAX_SIZE);
      forall i | 1 <= i < |ps| ensures R.Tokens(ps)[i] == R.Tokens(ps[1..])[i - 1] {}
    }
  }
}
