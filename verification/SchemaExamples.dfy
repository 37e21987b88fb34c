/** Two schema texts on which BLINK_Schema_new does not do what its constraint tests are for:
    one it cannot finish, and one it refuses. */
module SchemaExamples {
  import opened Base
  import opened Schema
  import opened Lookup
  import opened Definitions
  import opened Resolution
  import opened References
  import opened Inheritance
  import opened Constraints
  import opened SchemaBuilder
  import opened SchemaPrint
  import opened SchemaWriting
  import L = Lexer
  import R = LexerRoundTrip
  import SchemaParser
  import ParserNames

  /** An unnamed namespace whose definitions have different one-letter names. */
  ghost predicate Lettered(ns: Namespace) {
    && ns.name == []
    && (forall i :: 0 <= i < |ns.defs| ==> |ns.defs[i].name| == 1 && R.IsNameText(ns.defs[i].name))
    && forall i, j :: 0 <= i < j < |ns.defs| ==> ns.defs[i].name != ns.defs[j].name
  }

  lemma LetteredOk(ns: Namespace)
    requires Lettered(ns) && forall i :: 0 <= i < |ns.defs| ==> DefOk(ns.defs[i])
    ensures SchemaOk([ns])
  {
    var names := DefNames(ns.defs);
    forall i, j | 0 <= i < j < |names| ensures !Starts(names[i].value, names[j].value) {
      assert ns.defs[i].name != ns.defs[j].name;
    }
    assert NamespaceOk(ns);
  }

  lemma LetterFinds(ns: Namespace, i: nat)
    requires Lettered(ns) && SchemaOk([ns]) && i < |ns.defs|
    ensures FindDef([ns], ns.defs[i].name) == Some(Ref(0, i))
  {
    hide NoLaterPrefix, DefOk;
    assert ns.defs[i].name[0] in ns.defs[i].name;
    FindExact([ns], Ref(0, i));
  }

  // ----------------------------------------------------------------- texts of words

  /** A capital letter is no keyword. */
  lemma CapitalBare(c: byte)
    requires 'A' as int <= c <= 'Z' as int
    ensures R.IsNameText([c]) && R.Bare([c])
  {
    hide L.Spelling;
    forall k: L.Key ensures !(R.Codes(L.Spelling(k)) <= [c]) {
      if R.Part(k) > 0 { R.LettersFirst(k); } else { R.MarkLetters(k); }
    }
  }

  /** A token with a space behind it, or with the end of a line. */
  function Word(tok: L.Token, behind: char): R.Printed { R.Printed(tok, 0, [R.Code(behind)]) }

  predicate IsWord(p: R.Printed) {
    && p.form == 0 && (p.gap == [' ' as int] || p.gap == ['\n' as int])
    && if p.token.Name? then |p.token.text| == 1 && 'A' as int <= p.token.text[0] <= 'Z' as int else p.token.Keyword?
  }

  lemma WordsLaid(ps: seq<R.Printed>)
    requires forall i :: 0 <= i < |ps| ==> IsWord(ps[i])
    ensures R.Laid(ps, [], SchemaParser.TOKEN_MAX_SIZE)
  {
    hide L.Spelling, R.Bare, R.IsNameText;
    forall i | 0 <= i < |ps|
      ensures R.Printable(ps[i], SchemaParser.TOKEN_MAX_SIZE) && ps[i].gap != [] && R.IsGap(ps[i].gap) {
      if ps[i].token.Name? {
        CapitalBare(ps[i].token.text[0]);
        assert [ps[i].token.text[0]] == ps[i].token.text;
      }
      assert ps[i].gap[1..] == [];
    }
    GapsApart(ps, []);
  }

  /** A line of three words, or of one. */
  function Line(x: Text, k: L.Key, y: Text): seq<R.Printed> {
    [Word(L.Name(x), ' '), Word(L.Keyword(k), ' '), Word(L.Name(y), '\n')]
  }

  function OneWord(x: Text): seq<R.Printed> {
    [Word(L.Name(x), '\n')]
  }

  lemma LineLaid(x: Text, k: L.Key, y: Text, tail: seq<byte>)
    ensures R.Lay(Line(x, k, y), tail) ==
              x + [' ' as int] + R.Codes(L.Spelling(k)) + [' ' as int] + y + ['\n' as int] + tail
  {
    hide L.Spelling, R.Codes;
    var last := [Word(L.Name(y), '\n')];
    assert last[1..] == [];
    assert R.Lay(last, tail) == y + ([10] + R.Lay([], tail));
    var two := [Word(L.Keyword(k), ' ')] + last;
    assert two[1..] == last;
    assert R.Lay(two, tail) == R.Codes(L.Spelling(k)) + ([32] + R.Lay(last, tail));
    assert Line(x, k, y)[1..] == two;
    assert R.Lay(Line(x, k, y), tail) == x + ([32] + R.Lay(two, tail));
  }

  lemma OneWordLaid(x: Text, tail: seq<byte>)
    ensures R.Lay(OneWord(x), tail) == x + ['\n' as int] + tail
  {
    assert OneWord(x)[1..] == [];
  }

  lemma {:induction false} LaidBoth(a: seq<R.Printed>, b: seq<R.Printed>, tail: seq<byte>)
    ensures R.Lay(a + b, tail) == R.Lay(a, R.Lay(b, tail)) && R.Tokens(a + b) == R.Tokens(a) + R.Tokens(b)
  {
    if a == [] {
      assert [] + b == b;
    } else {
      assert (a + b)[1..] == a[1..] + b;
      LaidBoth(a[1..], b, tail);
    }
  }

  lemma {:induction false} CodesBoth(a: string, b: string)
    ensures R.Codes(a + b) == R.Codes(a) + R.Codes(b)
  {
    if a == "" {
      assert "" + b == b;
    } else {
      assert (a + b)[1..] == a[1..] + b;
      CodesBoth(a[1..], b);
    }
  }

  lemma LineCodes(line: string, x: Text, k: L.Key, y: Text)
    requires |line| == 6 && line[1] == ' ' == line[3] && line[5] == '\n' && x == [R.Code(line[0])]
    requires L.Spelling(k) == [line[2]] && y == [R.Code(line[4])]
    ensures R.Codes(line) == x + [' ' as int] + R.Codes(L.Spelling(k)) + [' ' as int] + y + ['\n' as int]
  {
    hide L.Spelling;
  }

  lemma NoLine()
    ensures R.Lay([], []) == R.Codes("")
  {
  }

  /** One more line in front of a text. */
  lemma NextLine(line: string, x: Text, k: L.Key, y: Text, ps: seq<R.Printed>, text: string)
    requires |line| == 6 && line[1] == ' ' == line[3] && line[5] == '\n' && x == [R.Code(line[0])]
    requires L.Spelling(k) == [line[2]] && y == [R.Code(line[4])] && R.Lay(ps, []) == R.Codes(text)
    ensures R.Lay(Line(x, k, y) + ps, []) == R.Codes(line + text)
  {
    hide R.Codes, R.Lay, Line, L.Spelling;
    LineCodes(line, x, k, y);
    CodesBoth(line, text);
    LaidBoth(Line(x, k, y), ps, []);
    LineLaid(x, k, y, R.Lay(ps, []));
  }

  /** A text of one unnamed namespace and its definitions. */
  lemma DefsText(ns: Namespace)
    requires PlainSchema([ns]) && ns.name == []
    ensures PlainDefs(ns.defs) && TextOf([ns]) == DefItems(ns.defs)
  {
    hide PlainDefs;
    assert PlainDefs([ns][0].defs);
    assert NamespaceItems([]) == [];
  }

  lemma NextDef(defs: seq<Def>)
    requires PlainDefs(defs) && defs != []
    ensures PlainDef(defs[0]) && PlainDefs(defs[1..])
    ensures ItemsTokens(DefItems(defs)) == DefTokens(DefTextOf(defs[0])) + ItemsTokens(DefItems(defs[1..]))
  {
    hide PlainDef, DefTokens, DefTextOf;
    var items := DefItems(defs);
    assert items[1..] == DefItems(defs[1..]);
  }

  /** Reading such a text. */
  lemma WordsRead(nss: Namespaces, ps: seq<R.Printed>, text: string)
    requires PlainSchema(nss) && (forall i :: 0 <= i < |ps| ==> IsWord(ps[i]))
    requires R.Tokens(ps) == ItemsTokens(TextOf(nss)) && R.Lay(ps, []) == R.Codes(text)
    ensures SchemaParser.Parse(R.Codes(text)) == Some(nss)
  {
    hide PlainSchema, SchemaParser.Parse, ItemsTokens, TextOf, R.Tokens, R.Lay, R.Codes;
    WordsLaid(ps);
    assert [] + R.Lay(ps, []) == R.Lay(ps, []);
    ParseWrite(nss, [], ps, []);
  }

  // ---------------------------------------------------- each other's supergroup

  const A: Text := [65]
  const B: Text := [66]

  function GroupOf(name: Text, superName: Option<Text>, super: Option<Ref>): Def {
    Group(name, [], None, superName, super, [])
  }

  const MUTUAL: Namespace := Namespace([], [GroupOf(A, Some(B), None), GroupOf(B, Some(A), None)])

  lemma MutualIsText()
    ensures PlainSchema([MUTUAL]) && Lettered(MUTUAL)
  {
    MutualIsLettered();
    LetteredOk(MUTUAL);
  }

  const MUTUAL_TEXT: string := "A : B\n" + "B : A\n"

  lemma MutualTokens()
    requires PlainSchema([MUTUAL])
    ensures ItemsTokens(TextOf([MUTUAL])) == R.Tokens(Line(A, L.KColon, B) + Line(B, L.KColon, A))
  {
    hide PlainSchema, ItemsTokens, DefItems, PlainDefs, TextOf, R.Lay, DefTokens, DefTextOf, PlainDef, R.Tokens, Line;
    DefsText(MUTUAL);
    var first, second := MUTUAL.defs[0], MUTUAL.defs[1];
    assert MUTUAL.defs == [first, second];
    NextDef([first, second]);
    assert [first, second][1..] == [second];
    NextDef([second]);
    assert [second][1..] == [];
    GroupTokens(first);
    GroupTokens(second);
    NoItems();
    LaidBoth(Line(A, L.KColon, B), Line(B, L.KColon, A), []);
  }

  lemma NoItems()
    ensures PlainDefs([]) && ItemsTokens(DefItems([])) == []
  {
  }

  lemma GroupTokens(d: Def)
    requires d.Group? && d == GroupOf(d.name, d.superName, None)
    requires d.superName.Some? ==> ':' as int !in d.superName.value
    ensures PlainDef(d)
    ensures DefTokens(DefTextOf(d)) ==
              R.Tokens(if d.superName.Some? then Line(d.name, L.KColon, d.superName.value) else OneWord(d.name))
  {
  }

  lemma MutualText()
    ensures R.Lay(Line(A, L.KColon, B) + Line(B, L.KColon, A), []) == R.Codes(MUTUAL_TEXT)
  {
    hide R.Codes, R.Lay, Line;
    var last := Line(B, L.KColon, A);
    assert last + [] == last && "B : A\n" + "" == "B : A\n";
    NoLine();
    NextLine("B : A\n", B, L.KColon, A, [], "");
    NextLine("A : B\n", A, L.KColon, B, last, "B : A\n");
  }

  lemma MutualParses()
    ensures SchemaParser.Parse(R.Codes(MUTUAL_TEXT)) == Some([MUTUAL])
  {
    hide PlainSchema, SchemaParser.Parse, ItemsTokens, TextOf, R.Lay, R.Codes, R.Tokens;
    MutualIsText();
    MutualTokens();
    MutualText();
    WordsRead([MUTUAL], Line(A, L.KColon, B) + Line(B, L.KColon, A), MUTUAL_TEXT);
  }

  lemma MutualIsLettered()
    ensures Lettered(MUTUAL)
  {
  }

  /** The two groups once their names are bound. */
  const MUTUAL_BOUND: Namespace :=
    Namespace([], [GroupOf(A, Some(B), Some(Ref(0, 1))), GroupOf(B, Some(A), Some(Ref(0, 0)))])

  lemma MutualLinks()
    ensures AllResolvable([MUTUAL]) && LinkAll([MUTUAL]) == [MUTUAL_BOUND]
  {
    hide FindDef;
    MutualIsText();
    LetterFinds(MUTUAL, 0);
    LetterFinds(MUTUAL, 1);
    var linked := LinkAll([MUTUAL]);
    assert LinkDefs([MUTUAL], MUTUAL.defs) == MUTUAL_BOUND.defs;
    assert linked[0] == MUTUAL_BOUND;
  }

  /** Definitions of a single namespace, in order. */
  lemma {:induction false} OneNamespaceWalk(ns: Namespace, j: nat)
    requires j <= |ns.defs|
    ensures RefsFrom([ns], 0, j) == seq(|ns.defs| - j, k requires 0 <= k < |ns.defs| - j => Ref(0, j + k))
    decreases |ns.defs| - j
  {
    if j < |ns.defs| { OneNamespaceWalk(ns, j + 1); }
  }

  lemma MutualWalk()
    ensures AllDefs([MUTUAL_BOUND]) == [Ref(0, 0), Ref(0, 1)]
  {
    OneNamespaceWalk(MUTUAL_BOUND, 0);
  }

  lemma MutualTerminals(nss: Namespaces)
    requires nss == [MUTUAL_BOUND]
    ensures Linked(nss) && SupersLinked(nss) && Ends(nss, Ref(0, 0)) && Ends(nss, Ref(0, 1)) && SupersSettled(nss)
    ensures TerminalOf(nss, Ref(0, 0)) == (Ref(0, 0), false, false)
    ensures TerminalOf(nss, Ref(0, 1)) == (Ref(0, 1), false, false)
  {
    assert EndsIn(nss, Ref(0, 0), 0) && EndsIn(nss, Ref(0, 1), 0);
    TerminalOfIs(nss, Ref(0, 0), 0);
    TerminalOfIs(nss, Ref(0, 1), 0);
  }

  /** Each group is its own grandparent. */
  lemma MutualCircles(nss: Namespaces)
    requires nss == [MUTUAL_BOUND] && Linked(nss) && SupersSettled(nss)
    ensures Circles(nss, Ref(0, 0)) && LineOut(nss, Ref(0, 0)) == Circling
  {
    hide Linked, SupersSettled, Ends, TerminalOf;
    MutualTerminals(nss);
    var a, b := Ref(0, 0), Ref(0, 1);
    UpIs(nss, a);
    UpIs(nss, b);
    AncestorFirst(nss, a, 1);
    AncestorFirst(nss, b, 0);
    assert Ancestor(nss, a, 2) == Some(a) == Ancestor(nss, a, 0);
    CirclesNotStrays(nss, a);
  }

  /** Two groups that are each other's supergroup: a text that parses, whose names are all
      found and whose references all pass, and on which the tests do not come back. */
  lemma MutualSupers()
    ensures var text := R.Codes(MUTUAL_TEXT);
            SchemaParser.Parse(text) == Some([MUTUAL]) && TextOutcome(text) == Endless
  {
    hide SchemaParser.Parse, R.Codes, PlainSchema, AllResolvable, LinkAll, SupersLinked, AllDefs, Linked,
         SupersSettled, SuperOutcome, Expected;
    MutualIsText();
    MutualParses();
    MutualLinks();
    MutualTerminals([MUTUAL_BOUND]);
    MutualWalk();
    MutualFirstPass([MUTUAL_BOUND]);
    MutualOutcome([MUTUAL_BOUND]);
  }

  lemma MutualFirstPass(nss: Namespaces)
    requires nss == [MUTUAL_BOUND] && Linked(nss)
    ensures Expected(nss, Ref(0, 0)) == Accept && Expected(nss, Ref(0, 1)) == Accept
    ensures FirstFault(nss, [Ref(0, 0), Ref(0, 1)]) == Accept
  {
    NoFault(nss, [Ref(0, 0), Ref(0, 1)]);
  }

  lemma MutualOutcome(nss: Namespaces)
    requires nss == [MUTUAL_BOUND] && Linked(nss) && SupersSettled(nss)
    ensures ValidRef(nss, Ref(0, 0)) && SuperOutcome(nss, Ref(0, 0)) == Endless
  {
    hide Linked, SupersSettled, Ends, TerminalOf;
    MutualTerminals(nss);
    MutualCircles(nss);
  }

  // ------------------------------------------------- three type definitions in a row

  const G: Text := [71]
  const X: Text := [88]
  const Y: Text := [89]
  const Z: Text := [90]

  function Alias(name: Text, of: Text, resolved: Option<Ref>): Def {
    TypeDef(name, [], TypeInfo(of, [], IRef, resolved, 0, false, false))
  }

  /** X = Y, Y = Z, Z = G, and the group G. */
  const CHAIN: Namespace :=
    Namespace([], [Alias(X, Y, None), Alias(Y, Z, None), Alias(Z, G, None), GroupOf(G, None, None)])

  const CHAIN_BOUND: Namespace :=
    Namespace([], [Alias(X, Y, Some(Ref(0, 1))), Alias(Y, Z, Some(Ref(0, 2))),
                   Alias(Z, G, Some(Ref(0, 3))), GroupOf(G, None, None)])

  lemma ChainIsText()
    ensures SchemaOk([CHAIN]) && PlainSchema([CHAIN]) && Lettered(CHAIN)
  {
    ChainIsLettered();
    LetteredOk(CHAIN);
  }

  const CHAIN_TEXT: string := "X = Y\n" + ("Y = Z\n" + ("Z = G\n" + "G\n"))

  function ChainWords(): seq<R.Printed> {
    Line(X, L.KEqual, Y) + (Line(Y, L.KEqual, Z) + (Line(Z, L.KEqual, G) + OneWord(G)))
  }

  lemma AliasTokens(d: Def)
    requires d.TypeDef? && d == Alias(d.name, d.ty.name, None)
    ensures PlainDef(d) && DefTokens(DefTextOf(d)) == R.Tokens(Line(d.name, L.KEqual, d.ty.name))
  {
  }

  lemma ChainTokens()
    requires PlainSchema([CHAIN])
    ensures ItemsTokens(TextOf([CHAIN])) == R.Tokens(ChainWords())
  {
    hide PlainSchema, ItemsTokens, DefItems, PlainDefs, TextOf, R.Lay, DefTokens, DefTextOf, PlainDef, R.Tokens, Line;
    DefsText(CHAIN);
    var a, b, c, d := CHAIN.defs[0], CHAIN.defs[1], CHAIN.defs[2], CHAIN.defs[3];
    assert CHAIN.defs == [a, b, c, d];
    NextDef([a, b, c, d]);
    assert [a, b, c, d][1..] == [b, c, d];
    NextDef([b, c, d]);
    assert [b, c, d][1..] == [c, d];
    NextDef([c, d]);
    assert [c, d][1..] == [d];
    NextDef([d]);
    assert [d][1..] == [];
    NoItems();
    AliasTokens(a);
    AliasTokens(b);
    AliasTokens(c);
    GroupTokens(d);
    LaidBoth(Line(Z, L.KEqual, G), OneWord(G), []);
    LaidBoth(Line(Y, L.KEqual, Z), Line(Z, L.KEqual, G) + OneWord(G), []);
    LaidBoth(Line(X, L.KEqual, Y), Line(Y, L.KEqual, Z) + (Line(Z, L.KEqual, G) + OneWord(G)), []);
  }

  lemma ChainText()
    ensures R.Lay(ChainWords(), []) == R.Codes(CHAIN_TEXT)
  {
    hide R.Codes, R.Lay, Line, OneWord;
    var last, third, second := OneWord(G), Line(Z, L.KEqual, G), Line(Y, L.KEqual, Z);
    GLine();
    NextLine("Z = G\n", Z, L.KEqual, G, last, "G\n");
    NextLine("Y = Z\n", Y, L.KEqual, Z, third + last, "Z = G\n" + "G\n");
    NextLine("X = Y\n", X, L.KEqual, Y, second + (third + last), "Y = Z\n" + ("Z = G\n" + "G\n"));
  }

  lemma GLine()
    ensures R.Lay(OneWord(G), []) == R.Codes("G\n")
  {
    OneWordLaid(G, []);
    assert "G\n"[1..] == "\n" && "\n"[1..] == "";
  }

  lemma ChainParses()
    ensures SchemaParser.Parse(R.Codes(CHAIN_TEXT)) == Some([CHAIN])
  {
    hide PlainSchema, SchemaParser.Parse, ItemsTokens, TextOf, R.Lay, R.Codes, R.Tokens;
    ChainIsText();
    ChainTokens();
    ChainText();
    WordsRead([CHAIN], ChainWords(), CHAIN_TEXT);
  }

  lemma ChainIsLettered()
    ensures Lettered(CHAIN)
  {
  }

  lemma ChainLinks()
    ensures AllResolvable([CHAIN]) && LinkAll([CHAIN]) == [CHAIN_BOUND]
  {
    hide FindDef;
    ChainIsText();
    LetterFinds(CHAIN, 1);
    LetterFinds(CHAIN, 2);
    LetterFinds(CHAIN, 3);
    assert LinkDefs([CHAIN], CHAIN.defs) == CHAIN_BOUND.defs;
    assert LinkAll([CHAIN])[0] == CHAIN_BOUND;
  }

  lemma ChainEnds(nss: Namespaces)
    requires nss == [CHAIN_BOUND]
    ensures Linked(nss) && IsTypeDef(nss, Ref(0, 0)) && EndsIn(nss, Ref(0, 0), 3)
    ensures IsGroup(nss, Terminal(nss, Ref(0, 0), 3).0)
    ensures Expected(nss, Ref(0, 0)) == Reject && FirstFault(nss, [Ref(0, 0)] + AllDefs(nss)[1..]) == Reject
  {
    assert EndsIn(nss, Ref(0, 3), 0);
    assert EndsIn(nss, Ref(0, 2), 1) && Terminal(nss, Ref(0, 2), 1).0 == Ref(0, 3);
    assert EndsIn(nss, Ref(0, 1), 2) && Terminal(nss, Ref(0, 1), 2).0 == Ref(0, 3);
    ThreeInARow(nss, Ref(0, 0));
  }

  /** A text that parses, whose names are all found, in which the chain of the first definition
      ends in a group after n references, and which is refused. */
  ghost predicate RefusedThoughItEnds(text: seq<byte>, n: nat) {
    && SchemaParser.Parse(text).Some? && TextOutcome(text) == Reject
    && var nss := LinkAll(SchemaParser.Parse(text).value);
    && SchemaOk(nss) && Bound(nss) && Linked(nss)
    && EndsIn(nss, Ref(0, 0), n) && IsGroup(nss, Terminal(nss, Ref(0, 0), n).0)
  }

  /** Three type definitions in a row that end in a group. */
  lemma AcyclicYetRejected()
    ensures RefusedThoughItEnds(R.Codes(CHAIN_TEXT), 3)
  {
    hide PlainSchema, R.Codes, SchemaParser.Parse, Linked, AllDefs, FirstFault, EndsIn, Terminal;
    ChainIsText();
    ChainLinks();
    ChainEnds([CHAIN_BOUND]);
    ChainWalk();
    ChainParses();
    Refused(R.Codes(CHAIN_TEXT), [CHAIN], [CHAIN_BOUND], 3);
  }

  lemma Refused(text: seq<byte>, plain: Namespaces, nss: Namespaces, n: nat)
    requires SchemaParser.Parse(text) == Some(plain) && SchemaOk(plain) && AllResolvable(plain) && nss == LinkAll(plain)
    requires Linked(nss) && FirstFault(nss, AllDefs(nss)) == Reject
    requires EndsIn(nss, Ref(0, 0), n) && IsGroup(nss, Terminal(nss, Ref(0, 0), n).0)
    ensures RefusedThoughItEnds(text, n)
  {
    hide SchemaParser.Parse, AllResolvable, LinkAll, SupersLinked, AllDefs, Linked, FirstFault,
         EndsIn, Terminal, Bound, ParserNames.Unbound, SchemaOk;
    ParserNames.AcceptedIsTidy(text);
    BoundIsReady(plain);
    LinkKeepsOk(plain);
  }

  lemma ChainWalk()
    ensures var all := AllDefs([CHAIN_BOUND]); all != [] && all == [Ref(0, 0)] + all[1..]
  {
    OneNamespaceWalk(CHAIN_BOUND, 0);
  }
}
