/** Schema nodes of include/blink_schema_internal.h as values. A list of nodes is a sequence;
    a pointer to a definition is its place: namespace and index within it. */
module Schema {
  import opened Base

  type Text = seq<byte>

  type int32 = x: int | -0x8000_0000 <= x < 0x8000_0000

  /** enum blink_itype_tag. */
  datatype IType =
    | IString | IBinary | IFixed | IBool
    | IU8 | IU16 | IU32 | IU64 | II8 | II16 | II32 | II64 | IF64
    | IDate | ITimeOfDayMilli | ITimeOfDayNano | INanoTime | IMilliTime
    | IDecimal | IObject | IRef

  datatype Ref = Ref(ns: nat, at: nat)

  datatype Annote = Annote(name: Text, value: Option<Text>)

  /** struct blink_schema_type; `resolved` is null until definitions are resolved. */
  datatype TypeInfo = TypeInfo(
    name: Text, notes: seq<Annote>, tag: IType, resolved: Option<Ref>, size: uint32, isDynamic: bool, isSequence: bool)

  /** A field has no name until the parser has read it. */
  datatype Field = Field(name: Option<Text>, notes: seq<Annote>, ty: TypeInfo, isOptional: bool)

  datatype Symbol = Symbol(name: Text, notes: seq<Annote>, value: int32)

  datatype Def =
    | Group(name: Text, notes: seq<Annote>, id: Option<uint64>, superName: Option<Text>,
                super: Option<Ref>, fields: seq<Field>)
    | Enum(name: Text, notes: seq<Annote>, symbols: seq<Symbol>)
    | TypeDef(name: Text, notes: seq<Annote>, ty: TypeInfo)

  datatype Namespace = Namespace(name: Text, defs: seq<Def>)

  type Namespaces = seq<Namespace>

  const NO_TYPE: TypeInfo := TypeInfo([], [], IString, None, 0, false, false)

  // ---------------------------------------------------------------- name lists

  function DefNames(defs: seq<Def>): (names: seq<Option<Text>>)
    ensures |names| == |defs| && forall i :: 0 <= i < |defs| ==> names[i] == Some(defs[i].name)
  {
    seq(|defs|, i requires 0 <= i < |defs| => Some(defs[i].name))
  }

  function FieldNames(fields: seq<Field>): (names: seq<Option<Text>>)
    ensures |names| == |fields| && forall i :: 0 <= i < |fields| ==> names[i] == fields[i].name
  {
    seq(|fields|, i requires 0 <= i < |fields| => fields[i].name)
  }

  function SymbolNames(symbols: seq<Symbol>): (names: seq<Option<Text>>)
    ensures |names| == |symbols| && forall i :: 0 <= i < |symbols| ==> names[i] == Some(symbols[i].name)
  {
    seq(|symbols|, i requires 0 <= i < |symbols| => Some(symbols[i].name))
  }

  function NamespaceNames(nss: Namespaces): (names: seq<Option<Text>>)
    ensures |names| == |nss| && forall i :: 0 <= i < |nss| ==> names[i] == Some(nss[i].name)
  {
    seq(|nss|, i requires 0 <= i < |nss| => Some(nss[i].name))
  }

  function AnnoteNames(notes: seq<Annote>): (names: seq<Option<Text>>)
    ensures |names| == |notes| && forall i :: 0 <= i < |notes| ==> names[i] == Some(notes[i].name)
  {
    seq(|notes|, i requires 0 <= i < |notes| => Some(notes[i].name))
  }

  /** strncmp over the length of the key: does the name start with it? */
  predicate Starts(name: Text, key: Text) {
    key <= name
  }

  /** searchListByName, src/blink_schema.c:2172-2192: strncmp over the length of the key finds
      the first named node whose name starts with the key. */
  function Search(names: seq<Option<Text>>, key: Text): (r: Option<nat>)
    ensures r.Some? ==> r.value < |names|
    decreases names
  {
    if names == [] then None
    else if names[0].Some? && Starts(names[0].value, key) then Some(0)
    else match Search(names[1..], key)
      case None => None
      case Some(i) => Some(i + 1)
  }

  /** No later name is a prefix of an earlier one. */
  ghost predicate NoLaterPrefix(names: seq<Option<Text>>) {
    forall i, j :: 0 <= i < j < |names| && names[i].Some? && names[j].Some? ==> !Starts(names[i].value, names[j].value)
  }

  ghost predicate AllNamed(names: seq<Option<Text>>) {
    forall i :: 0 <= i < |names| ==> names[i].Some?
  }

  lemma {:induction false} SearchFirst(names: seq<Option<Text>>, key: Text)
    ensures var r := Search(names, key);
            && (r.Some? ==> names[r.value].Some? && Starts(names[r.value].value, key))
            && (forall i :: 0 <= i < (if r.Some? then r.value else |names|) ==>
                    !(names[i].Some? && Starts(names[i].value, key)))
    decreases names
  {
    if names != [] && !(names[0].Some? && Starts(names[0].value, key)) {
      SearchFirst(names[1..], key);
      var r := Search(names[1..], key);
      forall i | 0 <= i < (if r.Some? then r.value + 1 else |names|)
        ensures !(names[i].Some? && Starts(names[i].value, key)) {
        if i > 0 { assert names[i] == names[1..][i - 1]; }
      }
    }
  }

  lemma StartsItself(name: Text)
    ensures Starts(name, name)
  {
  }

  /** Searching by prefix is exact on such a list: every stored name finds its own node. */
  lemma SearchExact(names: seq<Option<Text>>, j: nat)
    requires NoLaterPrefix(names) && j < |names| && names[j].Some?
    ensures Search(names, names[j].value) == Some(j)
  {
    hide Search, Starts;
    SearchFirst(names, names[j].value);
    StartsItself(names[j].value);
  }

  /** Appending a name the search does not find keeps the list that way. */
  lemma AppendUnfound(names: seq<Option<Text>>, key: Text)
    requires NoLaterPrefix(names) && Search(names, key) == None
    ensures NoLaterPrefix(names + [Some(key)])
  {
    SearchFirst(names, key);
  }

  lemma NamesDistinct(names: seq<Option<Text>>)
    requires NoLaterPrefix(names)
    ensures forall i, j :: 0 <= i < j < |names| && names[i].Some? ==> names[i] != names[j]
  {
  }

  // ------------------------------------------------------------- finished schemas

  ghost predicate Increasing(symbols: seq<Symbol>) {
    forall i, j :: 0 <= i < j < |symbols| ==> symbols[i].value < symbols[j].value
  }

  ghost predicate DefOk(d: Def) {
    match d
    case Group(_, _, _, _, _, fields) => NoLaterPrefix(FieldNames(fields)) && AllNamed(FieldNames(fields))
    case Enum(_, _, symbols) => NoLaterPrefix(SymbolNames(symbols)) && Increasing(symbols)
    case TypeDef(_, _, _) => true
  }

  ghost predicate NamespaceOk(ns: Namespace) {
    NoLaterPrefix(DefNames(ns.defs)) && forall d :: d in ns.defs ==> DefOk(d)
  }

  /** What an accepted parse guarantees about every list of the schema. */
  ghost predicate SchemaOk(nss: Namespaces) {
    NoLaterPrefix(NamespaceNames(nss)) && forall ns :: ns in nss ==> NamespaceOk(ns)
  }

  ghost predicate ValidRef(nss: Namespaces, r: Ref) {
    r.ns < |nss| && r.at < |nss[r.ns].defs|
  }

  function DefAt(nss: Namespaces, r: Ref): Def
    requires ValidRef(nss, r)
  {
    nss[r.ns].defs[r.at]
  }
}
