/** Every schema without bindings that the grammar has room for is what some text means, so
    that parsing is a left inverse of writing, from characters to definitions. */
module SchemaWriting {
  import opened Base
  import opened Schema
  import opened SchemaParser
  import opened SchemaPrint
  import opened SchemaRoundTrip
  import L = Lexer
  import R = LexerRoundTrip

  // --------------------------------------------------------------- what can be written

  /** Annotations that all have values, and whose names are found where they are. */
  ghost predicate PlainNotes(notes: seq<Annote>) {
    (forall i :: 0 <= i < |notes| ==> notes[i].value.Some?) && NoLaterPrefix(AnnoteNames(notes))
  }

  /** A field type carries no annotation: a size on strings, binaries and fixed values, a star
      and brackets on references. */
  ghost predicate PlainFieldType(t: TypeInfo) {
    && t.notes == [] && t.resolved.None?
    && (if t.tag.IRef? then t.size == 0 else t.name == [] && !t.isDynamic && !t.isSequence)
    && (t.tag.IString? || t.tag.IBinary? || t.tag.IFixed? || t.size == 0)
  }

  ghost predicate PlainField(f: Field) {
    f.name.Some? && |f.notes| <= 1 && PlainNotes(f.notes) && PlainFieldType(f.ty)
  }

  ghost predicate PlainSymbol(s: Symbol) {
    |s.notes| <= 1 && PlainNotes(s.notes)
  }

  /** Those of a type definition's type have names that are not among the definition's own. */
  ghost predicate PlainAlias(notes: seq<Annote>, t: TypeInfo) {
    && t.resolved.None? && t.size == 0 && (!t.tag.IRef? ==> t.name == [] && !t.isDynamic)
    && forall i :: 0 <= i < |t.notes| ==>
                     t.notes[i].value.Some? && Search(AnnoteNames(notes), t.notes[i].name) == None
  }

  ghost predicate PlainDef(d: Def) {
    PlainNotes(d.notes) &&
    match d
    case Group(_, _, _, _, super, fields) =>
      super.None? && forall i :: 0 <= i < |fields| ==> PlainField(fields[i])
    case Enum(_, _, symbols) => symbols != [] && forall i :: 0 <= i < |symbols| ==> PlainSymbol(symbols[i])
    case TypeDef(_, notes, ty) => PlainAlias(notes, ty)
  }

  ghost predicate PlainDefs(defs: seq<Def>) {
    forall i :: 0 <= i < |defs| ==> PlainDef(defs[i]) && DefOk(defs[i])
  }

  ghost predicate PlainSchema(nss: Namespaces) {
    nss != [] && SchemaOk(nss) && forall i :: 0 <= i < |nss| ==> PlainDefs(nss[i].defs)
  }

  // ------------------------------------------------------------------------- its text

  function NoteTexts(notes: seq<Annote>): (texts: seq<NoteText>)
    ensures |texts| == |notes|
  {
    seq(|notes|, i requires 0 <= i < |notes| =>
      NoteText(notes[i].name, if notes[i].value.Some? then notes[i].value.value else []))
  }

  function FieldTypeText(t: TypeInfo): TypeText {
    TypeText(t.tag, t.name, if t.tag.IString? || t.tag.IBinary? || t.tag.IFixed? then Some(t.size) else None,
             if t.isDynamic then 1 else 0, t.isSequence)
  }

  function FieldTexts(fs: seq<Field>): (texts: seq<FieldText>)
    requires forall i :: 0 <= i < |fs| ==> fs[i].name.Some?
    ensures |texts| == |fs|
  {
    seq(|fs|, i requires 0 <= i < |fs| =>
      FieldText(FieldTypeText(fs[i].ty), NoteTexts(fs[i].notes), fs[i].name.value, fs[i].isOptional))
  }

  function SymbolTextOf(s: Symbol): SymbolText {
    SymbolText(NoteTexts(s.notes), s.name, Some(s.value))
  }

  function SymbolTexts(ss: seq<Symbol>): (texts: seq<SymbolText>)
    ensures |texts| == |ss|
  {
    seq(|ss|, i requires 0 <= i < |ss| => SymbolTextOf(ss[i]))
  }

  function DefTextOf(d: Def): DefText
    requires PlainDef(d)
  {
    match d
    case Group(name, notes, id, superName, _, fields) =>
      GroupText(NoteTexts(notes), name, id, superName, FieldTexts(fields))
    case Enum(name, notes, symbols) =>
      EnumText(NoteTexts(notes), name, [], true, SymbolTextOf(symbols[0]), SymbolTexts(symbols[1..]))
    case TypeDef(name, notes, ty) =>
      AliasText(NoteTexts(notes), name, NoteTexts(ty.notes),
                TypeText(ty.tag, ty.name, None, if ty.isDynamic then 1 else 0, ty.isSequence))
  }

  function DefItems(defs: seq<Def>): seq<Item>
    requires PlainDefs(defs)
  {
    if defs == [] then [] else [Define(DefTextOf(defs[0]))] + DefItems(defs[1..])
  }

  function NamespaceItems(nss: Namespaces): seq<Item>
    requires forall i :: 0 <= i < |nss| ==> PlainDefs(nss[i].defs)
  {
    if nss == [] then [] else [Header(nss[0].name)] + DefItems(nss[0].defs) + NamespaceItems(nss[1..])
  }

  /** The unnamed namespace has no header, unless its being empty would leave no trace of it. */
  function TextOf(nss: Namespaces): seq<Item>
    requires PlainSchema(nss)
  {
    if nss[0].name == [] && (nss[0].defs != [] || |nss| == 1) then DefItems(nss[0].defs) + NamespaceItems(nss[1..])
    else NamespaceItems(nss)
  }

  // -------------------------------------------------------------- it means the schema

  /** A name behind others of which it is no prefix is not found among them. */
  lemma NotAmong(names: seq<Option<Text>>, key: Text)
    requires NoLaterPrefix(names + [Some(key)])
    ensures Search(names, key) == None
  {
    hide Search;
    SearchFirst(names, key);
    var all := names + [Some(key)];
    assert all[|names|] == Some(key);
    forall i | 0 <= i < |names| ensures names[i].Some? ==> !Starts(names[i].value, key) {
      assert all[i] == names[i];
    }
  }

  lemma FewerNames(names: seq<Option<Text>>, n: nat)
    requires NoLaterPrefix(names) && n <= |names|
    ensures NoLaterPrefix(names[..n])
  {
  }

  /** The same for the next name of a list. */
  lemma NextUnfound(before: seq<Option<Text>>, all: seq<Option<Text>>, key: Text)
    requires NoLaterPrefix(all) && |before| < |all| && before == all[..|before|] && all[|before|] == Some(key)
    ensures Search(before, key) == None
  {
    FewerNames(all, |before| + 1);
    assert all[..|before| + 1] == before + [Some(key)];
    NotAmong(before, key);
  }

  lemma {:induction false} NotesBack(ns: Notes, notes: seq<Annote>)
    requires PlainNotes(ns.own + notes)
    ensures PutNotes(ns, NoteTexts(notes), false) == ns.(own := ns.own + notes)
    decreases notes
  {
    hide Search, NoLaterPrefix;
    if notes == [] {
      assert ns.own + [] == ns.own;
    } else {
      var a, all := notes[0], ns.own + notes;
      assert all[|ns.own|] == a;
      NextUnfound(AnnoteNames(ns.own), AnnoteNames(all), a.name);
      var ns' := ns.(own := ns.own + [a]);
      assert Annote(a.name, Some(a.value.value)) == a;
      assert PutNote(ns, NoteTexts(notes)[0], false) == ns';
      assert NoteTexts(notes)[1..] == NoteTexts(notes[1..]);
      assert ns'.own + notes[1..] == all;
      NotesBack(ns', notes[1..]);
    }
  }

  lemma OwnBack(notes: seq<Annote>)
    requires PlainNotes(notes)
    ensures PutNotes(Notes([], []), NoteTexts(notes), false) == Notes(notes, []) && OwnNotes(NoteTexts(notes)) == notes
  {
    hide PutNotes, NoteTexts, PlainNotes;
    assert [] + notes == notes;
    NotesBack(Notes([], []), notes);
  }

  lemma {:induction false} AheadBack(ns: Notes, notes: seq<Annote>)
    requires forall i :: 0 <= i < |notes| ==>
                           notes[i].value.Some? && Search(AnnoteNames(ns.own), notes[i].name) == None
    ensures PutNotes(ns, NoteTexts(notes), true) == ns.(ahead := ns.ahead + notes)
    decreases notes
  {
    hide Search;
    if notes == [] {
      assert ns.ahead + [] == ns.ahead;
    } else {
      var a := notes[0];
      var ns' := ns.(ahead := ns.ahead + [a]);
      assert Annote(a.name, Some(a.value.value)) == a;
      assert PutNote(ns, NoteTexts(notes)[0], true) == ns';
      assert NoteTexts(notes)[1..] == NoteTexts(notes[1..]);
      AheadBack(ns', notes[1..]);
      assert ns'.ahead + notes[1..] == ns.ahead + notes;
    }
  }

  lemma FieldBack(f: Field)
    requires PlainField(f)
    ensures var text := FieldText(FieldTypeText(f.ty), NoteTexts(f.notes), f.name.value, f.isOptional);
            FieldOk(text) && FieldOf(text) == f
  {
    hide PlainNotes, OwnNotes;
    OwnBack(f.notes);
  }

  lemma {:induction false} FieldsBack(before: seq<Field>, fs: seq<Field>)
    requires (forall i :: 0 <= i < |fs| ==> PlainField(fs[i]) && fs[i].name.Some?)
    requires NoLaterPrefix(FieldNames(before + fs))
    ensures FieldsOf(before, FieldTexts(fs)) == Some(before + fs)
    ensures var texts := FieldTexts(fs); forall i :: 0 <= i < |texts| ==> FieldOk(texts[i])
    decreases fs
  {
    hide Search, NoLaterPrefix, PlainField, FieldOf, FieldOk;
    if fs == [] {
      assert before + [] == before;
    } else {
      var f, all, texts := fs[0], before + fs, FieldTexts(fs);
      assert all[|before|] == f;
      NextUnfound(FieldNames(before), FieldNames(all), f.name.value);
      FieldBack(f);
      assert texts[1..] == FieldTexts(fs[1..]);
      assert before + [f] + fs[1..] == all;
      FieldsBack(before + [f], fs[1..]);
      assert forall i :: 1 <= i < |texts| ==> texts[i] == texts[1..][i - 1];
    }
  }

  lemma SymbolBack(before: seq<Symbol>, s: Symbol, after: seq<Symbol>)
    requires PlainSymbol(s) && NoLaterPrefix(SymbolNames(before + [s] + after)) && Increasing(before + [s] + after)
    ensures SymbolOf(before, SymbolTextOf(s), OwnNotes(NoteTexts(s.notes))) == Some(s)
  {
    hide Search, NoLaterPrefix, PlainNotes, OwnNotes;
    var all := before + [s] + after;
    assert all[|before|] == s;
    NextUnfound(SymbolNames(before), SymbolNames(all), s.name);
    OwnBack(s.notes);
    if before != [] { assert all[|before| - 1] == before[|before| - 1]; }
  }

  lemma {:induction false} SymbolsBack(before: seq<Symbol>, ss: seq<Symbol>)
    requires forall i :: 0 <= i < |ss| ==> PlainSymbol(ss[i])
    requires NoLaterPrefix(SymbolNames(before + ss)) && Increasing(before + ss)
    ensures SymbolsOf(before, SymbolTexts(ss)) == Some(before + ss) && SymbolsOk(SymbolTexts(ss))
    decreases ss
  {
    hide NoLaterPrefix, Increasing, SymbolOf, PlainNotes, OwnNotes;
    if ss == [] {
      assert before + [] == before;
    } else {
      var texts := SymbolTexts(ss);
      assert before + [ss[0]] + ss[1..] == before + ss;
      SymbolBack(before, ss[0], ss[1..]);
      assert texts[1..] == SymbolTexts(ss[1..]);
      SymbolsBack(before + [ss[0]], ss[1..]);
      assert forall i :: 1 <= i < |texts| ==> texts[i] == texts[1..][i - 1];
    }
  }

  /** Every definition of such a schema is what its text means. */
  lemma DefBack(d: Def)
    requires PlainDef(d) && DefOk(d)
    ensures DefTextOk(DefTextOf(d)) && DefTextOf(d).name == d.name && DefOf(DefTextOf(d), []) == Some(Meant(d, []))
  {
    hide PlainNotes, NoLaterPrefix, Increasing, FieldsOf, SymbolsOf, SymbolOf, PutNotes, OwnNotes, Search, PlainField;
    OwnBack(d.notes);
    match d
    case Group(_, _, _, _, _, fields) =>
      forall i | 0 <= i < |fields| ensures fields[i].name.Some? { NamedField(fields[i]); }
      assert [] + fields == fields;
      FieldsBack([], fields);
    case Enum(_, _, symbols) => EnumBack(d);
    case TypeDef(_, notes, ty) =>
      AheadBack(Notes(notes, []), ty.notes);
      assert [] + ty.notes == ty.notes;
  }

  lemma NamedField(f: Field)
    requires PlainField(f)
    ensures f.name.Some?
  {
  }

  lemma NothingAhead(ns: Notes)
    ensures PutNotes(ns, [], true) == ns
  {
  }

  lemma EnumBack(d: Def)
    requires PlainDef(d) && DefOk(d) && d.Enum?
    ensures DefTextOk(DefTextOf(d)) && DefOf(DefTextOf(d), []) == Some(Meant(d, []))
  {
    hide PlainNotes, NoLaterPrefix, Increasing, SymbolsOf, SymbolOf, PutNotes, OwnNotes;
    var first, more := d.symbols[0], d.symbols[1..];
    OwnBack(d.notes);
    NothingAhead(Notes(d.notes, []));
    assert [] + [first] + more == d.symbols == [first] + more;
    SymbolBack([], first, more);
    SymbolsBack([first], more);
  }

  /** A namespace in the making, with more definitions. */
  function Extend(base: Place, defs: seq<Def>): Place
    requires base.Valid()
  {
    var k := base.at;
    base.(nss := base.nss[k := base.nss[k].(defs := base.nss[k].defs + defs)])
  }

  /** One definition whose name is new. */
  lemma OneDefMeans(base: Place, d: Def, rest: seq<Item>)
    requires base.Valid() && base.left == [] && PlainDef(d) && DefOk(d) && Search(base.Names(), d.name) == None
    requires ItemsOk(rest)
    ensures var items := [Define(DefTextOf(d))] + rest;
            ItemsOk(items) && Meaning(base, items) == Meaning(After(base, d), rest)
  {
    hide PlainDef, DefOk, DefOf, DefTextOk, DefTextOf, Search;
    DefBack(d);
    var items := [Define(DefTextOf(d))] + rest;
    assert items[1..] == rest;
    assert After(base, d).Leaving([]) == After(base, d);
  }

  lemma {:induction false} DefsMean(base: Place, defs: seq<Def>, more: seq<Item>)
    requires base.Valid() && base.left == [] && PlainDefs(defs) && ItemsOk(more)
    requires NoLaterPrefix(DefNames(base.nss[base.at].defs + defs))
    ensures Extend(base, defs).Valid()
    ensures Meaning(base, DefItems(defs) + more) == Meaning(Extend(base, defs), more) && ItemsOk(DefItems(defs) + more)
    decreases defs
  {
    hide NoLaterPrefix, PlainDef, DefOk, DefTextOf, Search, Meaning, ItemsOk;
    if defs == [] {
      assert base.nss[base.at].defs + [] == base.nss[base.at].defs;
      assert [] + more == more;
      assert Extend(base, []) == base;
    } else {
      var d, before := defs[0], base.nss[base.at].defs;
      assert (before + defs)[|before|] == d;
      NextUnfound(base.Names(), DefNames(before + defs), d.name);
      assert before + [d] + defs[1..] == before + defs;
      DefsMean(After(base, d), defs[1..], more);
      assert Extend(After(base, d), defs[1..]) == Extend(base, defs);
      var rest := DefItems(defs[1..]) + more;
      OneDefMeans(base, d, rest);
      assert DefItems(defs) + more == [Define(DefTextOf(d))] + rest;
    }
  }

  lemma NamespaceOpens(base: Place, name: Text)
    requires base.Valid() && NoLaterPrefix(NamespaceNames(base.nss) + [Some(name)])
    ensures Opened(base.nss, name, base.left) == Place(base.nss + [Namespace(name, [])], |base.nss|, base.left)
  {
    NotAmong(NamespaceNames(base.nss), name);
  }

  /** A namespace behind others. */
  lemma FilledUp(nss: Namespaces, ns: Namespace)
    ensures var base := Place(nss + [Namespace(ns.name, [])], |nss|, []);
            && base.Valid() && base.nss[base.at].defs + ns.defs == ns.defs
            && Extend(base, ns.defs) == Place(nss + [ns], |nss|, [])
  {
    assert [] + ns.defs == ns.defs;
  }

  /** The header and the definitions of one more namespace. */
  lemma OneNamespaceMeans(base: Place, ns: Namespace, rest: seq<Item>)
    requires base.Valid() && base.left == [] && PlainDefs(ns.defs) && NamespaceOk(ns) && ItemsOk(rest)
    requires NoLaterPrefix(NamespaceNames(base.nss) + [Some(ns.name)])
    ensures var items := [Header(ns.name)] + DefItems(ns.defs) + rest;
            ItemsOk(items) && Meaning(base, items) == Meaning(Place(base.nss + [ns], |base.nss|, []), rest)
  {
    hide NoLaterPrefix, PlainDefs, Search, Opened, Extend, DefItems, ItemsOk;
    var tail := DefItems(ns.defs) + rest;
    NamespaceOpens(base, ns.name);
    FilledUp(base.nss, ns);
    DefsMean(Place(base.nss + [Namespace(ns.name, [])], |base.nss|, []), ns.defs, rest);
    var items := [Header(ns.name)] + DefItems(ns.defs) + rest;
    assert items == [Header(ns.name)] + tail && items[1..] == tail;
    HeaderItemsOk(ns.name, tail);
  }

  lemma HeaderItemsOk(name: Text, tail: seq<Item>)
    requires ItemsOk(tail)
    ensures ItemsOk([Header(name)] + tail)
  {
    hide DefTextOk;
  }

  lemma {:induction false} NamespacesMean(base: Place, nss: Namespaces)
    requires base.Valid() && base.left == []
    requires forall i :: 0 <= i < |nss| ==> PlainDefs(nss[i].defs) && NamespaceOk(nss[i])
    requires NoLaterPrefix(NamespaceNames(base.nss + nss))
    ensures Meaning(base, NamespaceItems(nss)) == Some(base.nss + nss) && ItemsOk(NamespaceItems(nss))
    decreases nss
  {
    hide NoLaterPrefix, PlainDefs, NamespaceNames, DefItems, ItemsOk, Meaning, NamespaceOk;
    if nss == [] {
      NothingMeans(base);
      assert base.nss + [] == base.nss;
    } else {
      FirstOfNames(base.nss, nss);
      assert base.nss + [nss[0]] + nss[1..] == base.nss + nss;
      NamespacesMean(Place(base.nss + [nss[0]], |base.nss|, []), nss[1..]);
      OneNamespaceMeans(base, nss[0], NamespaceItems(nss[1..]));
    }
  }

  lemma NothingMeans(base: Place)
    requires base.Valid()
    ensures Meaning(base, []) == Some(base.nss) && ItemsOk([])
  {
  }

  lemma FirstOfNames(before: Namespaces, nss: Namespaces)
    requires nss != [] && NoLaterPrefix(NamespaceNames(before + nss))
    ensures NoLaterPrefix(NamespaceNames(before) + [Some(nss[0].name)])
  {
    hide NoLaterPrefix;
    var all := NamespaceNames(before + nss);
    FewerNames(all, |before| + 1);
    assert all[..|before| + 1] == NamespaceNames(before) + [Some(nss[0].name)];
  }

  /** Every such schema is what its text means. */
  lemma TextOfMeans(nss: Namespaces)
    requires PlainSchema(nss)
    ensures ItemsOk(TextOf(nss)) && TextMeaning(TextOf(nss)) == Some(nss)
  {
    hide NoLaterPrefix, PlainDefs, Search, Extend, DefItems, NamespaceItems, Meaning, ItemsOk;
    forall i | 0 <= i < |nss| ensures NamespaceOk(nss[i]) { assert nss[i] in nss; }
    var ns, more := nss[0], nss[1..];
    if ns.name == [] && (ns.defs != [] || |nss| == 1) {
      UnnamedFirst(nss);
      var base := Place([Namespace([], [])], 0, []);
      FilledUp([], ns);
      assert [] + [Namespace([], [])] == base.nss && [] + [ns] == [ns];
      assert [ns] + more == nss;
      NamespacesMean(Place([ns], 0, []), more);
      DefsMean(base, ns.defs, NamespaceItems(more));
    } else {
      HeaderFirst(nss);
    }
  }

  lemma UnnamedFirst(nss: Namespaces)
    requires PlainSchema(nss) && nss[0].name == [] && (nss[0].defs != [] || |nss| == 1)
    ensures var items := TextOf(nss);
            items == DefItems(nss[0].defs) + NamespaceItems(nss[1..]) && (items == [] || items[0].Define?)
  {
    hide PlainDef, DefTextOf;
  }

  lemma HeaderFirst(nss: Namespaces)
    requires PlainSchema(nss) && !(nss[0].name == [] && (nss[0].defs != [] || |nss| == 1))
    ensures ItemsOk(TextOf(nss)) && TextMeaning(TextOf(nss)) == Some(nss)
  {
    hide NoLaterPrefix, PlainDefs, Search, Extend, DefItems, NamespaceNames, Meaning;
    forall i | 0 <= i < |nss| ensures NamespaceOk(nss[i]) { assert nss[i] in nss; }
    var ns, more := nss[0], nss[1..];
    var rest := NamespaceItems(more);
    SearchEmpty(ns.name);
    FilledUp([], ns);
    assert [] + [Namespace(ns.name, [])] == [Namespace(ns.name, [])] && [] + [ns] == [ns];
    assert [ns] + more == nss;
    NamespacesMean(Place([ns], 0, []), more);
    DefsMean(Place([Namespace(ns.name, [])], 0, []), ns.defs, rest);
    assert NamespaceItems(nss) == [Header(ns.name)] + (DefItems(ns.defs) + rest);
    assert ([Header(ns.name)] + (DefItems(ns.defs) + rest))[1..] == DefItems(ns.defs) + rest;
  }

  lemma SearchEmpty(name: Text)
    ensures Opened([], name, []) == Place([Namespace(name, [])], 0, [])
  {
    SearchFirst(NamespaceNames([]), name);
  }

  /** Parsing undoes writing: for every such schema, and however the tokens of its text are
      printed and separated, parseSchema gives the schema back. */
  lemma ParseWrite(nss: Namespaces, front: seq<byte>, ps: seq<R.Printed>, tail: seq<byte>)
    requires PlainSchema(nss) && R.Tokens(ps) == ItemsTokens(TextOf(nss))
    requires R.IsGap(front) && R.Laid(ps, tail, TOKEN_MAX_SIZE) && R.IsEnd(tail)
    ensures Parse(front + R.Lay(ps, tail)) == Some(nss)
  {
    hide PlainSchema, ItemsTokens, R.Laid, R.Lay, R.IsGap, TextMeaning, Parse;
    TextOfMeans(nss);
    ParseText(TextOf(nss), front, ps, tail);
  }

  // --------------------------------------------------------------------- one layout

  /** Printable tokens with a gap behind each are a layout, whatever the gaps. */
  lemma {:induction false} GapsApart(ps: seq<R.Printed>, tail: seq<byte>)
    requires forall i :: 0 <= i < |ps| ==>
                           R.Printable(ps[i], TOKEN_MAX_SIZE) && ps[i].gap != [] && R.IsGap(ps[i].gap)
    ensures R.Laid(ps, tail, TOKEN_MAX_SIZE)
    decreases ps
  {
    hide R.Printable, R.MayFollow, R.IsGap;
    if ps != [] {
      GapsApart(ps[1..], tail);
      GapMayFollow(ps[0], R.Lay(ps[1..], tail));
    }
  }

  lemma GapMayFollow(p: R.Printed, rest: seq<byte>)
    requires p.gap != [] && R.IsGap(p.gap)
    ensures R.MayFollow(p, p.gap + rest, TOKEN_MAX_SIZE)
  {
    hide L.Spelling, R.Codes;
    assert (p.gap + rest)[0] == p.gap[0];
  }

  /** The plainest way to print a token: names with a backslash, literals in double quotes, and
      a space behind. */
  function Spaced(tok: L.Token): R.Printed {
    R.Printed(tok, if tok.Name? then '\\' as int else '"' as int, [' ' as int])
  }

  function SpacedAll(toks: Tokens): (ps: seq<R.Printed>)
    ensures |ps| == |toks| && forall i :: 0 <= i < |toks| ==> ps[i] == Spaced(toks[i])
    ensures R.Tokens(ps) == toks
  {
    if toks == [] then [] else [Spaced(toks[0])] + SpacedAll(toks[1..])
  }

  function Write(nss: Namespaces): seq<byte>
    requires PlainSchema(nss)
  {
    R.Lay(SpacedAll(ItemsTokens(TextOf(nss))), [])
  }

  /** Names are made of the right characters, and all tokens fit the lexer's buffer. */
  ghost predicate Writable(nss: Namespaces)
    requires PlainSchema(nss)
  {
    var toks := ItemsTokens(TextOf(nss));
    forall i :: 0 <= i < |toks| ==> R.Printable(Spaced(toks[i]), TOKEN_MAX_SIZE)
  }

  /** So there is a text for every such schema. */
  lemma WriteRead(nss: Namespaces)
    requires PlainSchema(nss) && Writable(nss)
    ensures Parse(Write(nss)) == Some(nss)
  {
    hide PlainSchema, ItemsTokens, R.Laid, R.Lay, Parse, R.Tokens, R.Printable, TextOf;
    var ps := SpacedAll(ItemsTokens(TextOf(nss)));
    assert R.IsGap([' ' as int]) by { assert [' ' as int][1..] == []; }
    GapsApart(ps, []);
    assert [] + R.Lay(ps, []) == R.Lay(ps, []);
    ParseWrite(nss, [], ps, []);
  }
}
