/** Finding definitions and symbols, src/blink_schema.c:120-135, 456-483, 1864-1881, 2172-2225. */
module Lookup {
  import opened Base
  import opened Schema
  import L = Lexer

  // ------------------------------------------------------------------- by name

  /** searchListByName as a walk along the list. */
  method SearchList(names: seq<Option<Text>>, key: Text) returns (r: Option<nat>)
    ensures r == Search(names, key)
  {
    var i := 0;
    assert names[0..] == names;
    while i < |names|
      invariant i <= |names|
      invariant Search(names, key) == match Search(names[i..], key) case None => None case Some(k) => Some(k + i)
    {
      assert names[i..][0] == names[i] && names[i..][1..] == names[i + 1..];
      if names[i].Some? && Starts(names[i].value, key) {
        return Some(i);
      }
      i := i + 1;
    }
    r := None;
  }

  /** A qualified name cut at its first colon; without one the namespace part is empty. */
  function SplitCName(cname: Text): (r: (Text, Text)) {
    match ColonAt(cname)
    case None => ([], cname)
    case Some(i) => (cname[..i], cname[i + 1..])
  }

  function ColonAt(s: Text): (r: Option<nat>)
    ensures r.Some? ==> r.value < |s| && s[r.value] == L.COLON && L.COLON !in s[..r.value]
    ensures r.None? ==> L.COLON !in s
  {
    if s == [] then None
    else if s[0] == L.COLON then Some(0)
    else match ColonAt(s[1..])
      case None => None
      case Some(i) =>
        assert s[..i + 1] == [s[0]] + s[1..][..i];
        Some(i + 1)
  }

  method SplitName(cname: Text) returns (ns: Text, name: Text)
    ensures (ns, name) == SplitCName(cname)
  {
    ns, name := [], cname;
    var i := 0;
    while i < |cname|
      invariant i <= |cname| && L.COLON !in cname[..i] && ns == [] && name == cname
    {
      if cname[i] == L.COLON {
        FirstColon(cname, i);
        return cname[..i], cname[i + 1..];
      }
      assert cname[..i + 1] == cname[..i] + [cname[i]];
      i := i + 1;
    }
    assert cname[..i] == cname;
  }

  lemma FirstColon(s: Text, i: nat)
    requires i < |s| && s[i] == L.COLON && L.COLON !in s[..i]
    ensures ColonAt(s) == Some(i)
  {
    assert L.COLON in s;
    var k := ColonAt(s).value;
    forall x | 0 <= x < i ensures s[x] != L.COLON { assert s[..i][x] == s[x]; }
    forall x | 0 <= x < k ensures s[x] != L.COLON { assert s[..k][x] == s[x]; }
  }

  /** resolve, and the search half of BLINK_Schema_getGroupByName: the namespace, then the
      definition in it. An empty namespace name is found first in any list. */
  function FindDef(nss: Namespaces, cname: Text): (r: Option<Ref>)
    ensures r.Some? ==> ValidRef(nss, r.value)
  {
    var (nsName, name) := SplitCName(cname);
    match Search(NamespaceNames(nss), nsName)
    case None => None
    case Some(i) =>
      match Search(DefNames(nss[i].defs), name)
      case None => None
      case Some(j) => Some(Ref(i, j))
  }

  method Find(nss: Namespaces, cname: Text) returns (r: Option<Ref>)
    ensures r == FindDef(nss, cname)
  {
    hide Search, SplitCName;
    var nsName, name := SplitName(cname);
    var i := SearchList(NamespaceNames(nss), nsName);
    r := None;
    if i.Some? {
      var j := SearchList(DefNames(nss[i.value].defs), name);
      if j.Some? { r := Some(Ref(i.value, j.value)); }
    }
  }

  /** In an accepted schema the qualified name of any definition finds that definition, and in
      the first namespace the plain name does. */
  lemma FindExact(nss: Namespaces, r: Ref)
    requires SchemaOk(nss) && ValidRef(nss, r)
    requires L.COLON !in nss[r.ns].name
    ensures FindDef(nss, nss[r.ns].name + [L.COLON] + DefAt(nss, r).name) == Some(r)
    ensures r.ns == 0 && L.COLON !in DefAt(nss, r).name ==> FindDef(nss, DefAt(nss, r).name) == Some(r)
  {
    hide NoLaterPrefix, Search, ColonAt;
    var ns, d := nss[r.ns], DefAt(nss, r);
    assert NamespaceOk(ns);
    SearchExact(NamespaceNames(nss), r.ns);
    SearchExact(DefNames(ns.defs), r.at);
    var cname := ns.name + [L.COLON] + d.name;
    assert cname[..|ns.name|] == ns.name && cname[|ns.name| + 1..] == d.name;
    FirstColon(cname, |ns.name|);
    if r.ns == 0 && L.COLON !in d.name {
      FirstNamespace(nss);
    }
  }

  lemma FirstNamespace(nss: Namespaces)
    requires nss != []
    ensures Search(NamespaceNames(nss), []) == Some(0)
  {
    var names := NamespaceNames(nss);
    assert Starts(names[0].value, []);
  }

  // ------------------------------------------------------------------ enumerations

  /** BLINK_Enum_getSymbolByValue: the first symbol with the value. */
  function SymbolByValue(symbols: seq<Symbol>, value: int32): (r: Option<nat>)
    ensures r.Some? ==> r.value < |symbols| && symbols[r.value].value == value
  {
    if symbols == [] then None
    else if symbols[0].value == value then Some(0)
    else match SymbolByValue(symbols[1..], value)
      case None => None
      case Some(i) => Some(i + 1)
  }

  method FindSymbol(symbols: seq<Symbol>, value: int32) returns (r: Option<nat>)
    ensures r == SymbolByValue(symbols, value)
  {
    var i := 0;
    assert symbols[0..] == symbols;
    while i < |symbols|
      invariant i <= |symbols|
      invariant SymbolByValue(symbols, value) ==
        match SymbolByValue(symbols[i..], value)
        case None => None
        case Some(k) => Some(k + i)
    {
      assert symbols[i..][0] == symbols[i] && symbols[i..][1..] == symbols[i + 1..];
      if symbols[i].value == value {
        return Some(i);
      }
      i := i + 1;
    }
    r := None;
  }

  lemma {:induction false} SymbolByValueFinds(symbols: seq<Symbol>, i: nat)
    requires Increasing(symbols) && i < |symbols|
    ensures SymbolByValue(symbols, symbols[i].value) == Some(i)
  {
    if i > 0 {
      assert symbols[0].value < symbols[i].value;
      SymbolByValueFinds(symbols[1..], i - 1);
    }
  }

  /** For every enumeration of an accepted schema, looking up the name or the value of a symbol
      gives that very symbol: names and values correspond one to one, in list order. */
  lemma EnumBijection(nss: Namespaces, r: Ref, i: nat)
    requires SchemaOk(nss) && ValidRef(nss, r) && DefAt(nss, r).Enum? && i < |DefAt(nss, r).symbols|
    ensures var symbols := DefAt(nss, r).symbols;
            && SymbolByValue(symbols, symbols[i].value) == Some(i)
            && Search(SymbolNames(symbols), symbols[i].name) == Some(i)
            && forall j :: 0 <= j < |symbols| && j != i ==>
                 symbols[j].value != symbols[i].value && symbols[j].name != symbols[i].name
  {
    var d := DefAt(nss, r);
    assert NamespaceOk(nss[r.ns]);
    assert DefOk(d);
    SymbolByValueFinds(d.symbols, i);
    SearchExact(SymbolNames(d.symbols), i);
    NamesDistinct(SymbolNames(d.symbols));
  }
}
