/** The two passes of the encoder in src/blink_object.c, as functions of the object: what
    cacheSize counts and which chunks encodeBody writes.

    encodeBody never sets its result to true, so a parent abandons its own body right after
    the first nested group it has written. `repaired` selects between that behaviour
    (false) and the one the size pass is written for, where the child reports success
    (true). Everything else is common to both. */
module ObjectEncode {
  import opened Base
  import opened Objects
  import Vlc

  // ------------------------------------------------------------------- size pass

  function Wrap(n: nat, wraps: bool): nat {
    if wraps then n % TWO_32 else n
  }

  /** cacheSize, src/blink_object.c:1514-1630: None when a mandatory field is uninitialised.
      With `wraps` false the same count in unbounded arithmetic. */
  function SizeOf(o: Obj, wraps: bool): (n: Option<nat>)
    ensures wraps && n.Some? ==> n.value < TWO_32
    decreases o, 1
  {
    match FieldsSize(o.fields, wraps)
    case None => None
    case Some(n) => Some(Wrap(n, wraps))
  }

  function FieldsSize(fs: seq<Field>, wraps: bool): Option<nat>
    decreases fs, 0
  {
    if fs == [] then Some(0)
    else match (FieldSize(fs[0], wraps), FieldsSize(fs[1..], wraps))
      case (Some(a), Some(b)) => Some(a + b)
      case _ => None
  }

  function FieldSize(f: Field, wraps: bool): Option<nat>
    decreases f, 1
  {
    if f.initialised then
      match f.data
      case Single(v) => ValueSize(f.def, v, wraps)
      case Sequence(count, elems) =>
        match ValuesSize(f.def, elems, wraps)
        case None => None
        case Some(n) => Some(Vlc.SizeofUnsigned(count) + n)
    else if f.def.isOptional then Some(1)
    else None
  }

  function ValuesSize(def: FieldDef, vs: seq<Value>, wraps: bool): Option<nat>
    decreases vs, 0
  {
    if vs == [] then Some(0)
    else match (ValueSize(def, vs[0], wraps), ValuesSize(def, vs[1..], wraps))
      case (Some(a), Some(b)) => Some(a + b)
      case _ => None
  }

  function ValueSize(def: FieldDef, v: Value, wraps: bool): Option<nat>
    decreases v, 2
  {
    match v
    case Bytes(data) => Some(if def.ty.TFixed? then |data| else Vlc.SizeofUnsigned(|data| % TWO_32) + |data|)
    case Boolean(_) => Some(1)
    case Unsigned(u) => Some(Vlc.SizeofUnsigned(u))
    case Double(bits) => Some(Vlc.SizeofUnsigned(bits))
    case Signed(i) => Some(Vlc.SizeofSigned(i))
    case Decimal(mantissa, exponent) => Some(Vlc.SizeofSigned(exponent) + Vlc.SizeofSigned(mantissa))
    case Nested(g) =>
      (match SizeOf(g, wraps)
       case None => None
       case Some(s) => Some(if def.ty.TDynamicGroup? then s + DynamicHead(g, s, wraps) else s))
    case _ => Some(0)
  }

  /** The ID and the size prefix of a dynamic group; the prefix is sized as if the ID
      belonged to it. */
  function DynamicHead(g: Obj, size: nat, wraps: bool): nat {
    var idSize := if g.def.id.Some? then Vlc.SizeofUnsigned(g.def.id.value) else 1;
    idSize + Vlc.SizeofUnsigned((idSize + size) % (if wraps then TWO_32 else TWO_64))
  }

  // ------------------------------------------------------------------- write pass

  /** The chunks a pass writes, and whether it was abandoned. */
  datatype Output = Output(chunks: seq<seq<byte>>, stopped: bool) {
    /** This output, then the other if this one was not abandoned. */
    function Then(next: Output): Output {
      if stopped then this else Output(chunks + next.chunks, next.stopped)
    }
  }

  /** encodeBody, src/blink_object.c:1632-1814. */
  function Body(o: Obj, repaired: bool): Output
    decreases o, 1
  {
    FieldsOut(o.fields, repaired)
  }

  function FieldsOut(fs: seq<Field>, repaired: bool): Output
    decreases fs, 0
  {
    if fs == [] then Output([], false)
    else FieldOut(fs[0], repaired).Then(FieldsOut(fs[1..], repaired))
  }

  function FieldOut(f: Field, repaired: bool): Output
    decreases f, 1
  {
    if !f.initialised then Output([[Vlc.NULL_BYTE]], false)
    else match f.data
      case Single(v) => ValueOut(f.def, v, repaired)
      case Sequence(count, elems) =>
        Output([Vlc.Encode(count, false)], false).Then(ValuesOut(f.def, elems, repaired))
  }

  function ValuesOut(def: FieldDef, vs: seq<Value>, repaired: bool): Output
    decreases vs, 0
  {
    if vs == [] then Output([], false)
    else ValueOut(def, vs[0], repaired).Then(ValuesOut(def, vs[1..], repaired))
  }

  function ValueOut(def: FieldDef, v: Value, repaired: bool): Output
    decreases v, 2
  {
    match v
    case Nested(g) =>
      var body := Body(g, repaired);
      Output(GroupHead(def, g) + body.chunks, !repaired || body.stopped)
    case _ => Output(Leaf(def, v), false)
  }

  function Presence(def: FieldDef): seq<seq<byte>> {
    if def.isOptional then [[Vlc.PRESENT_BYTE]] else []
  }

  /** The chunks of one value that is not a group. */
  function Leaf(def: FieldDef, v: Value): seq<seq<byte>>
    requires !v.Nested?
  {
    match v
    case Bytes(data) =>
      (if def.ty.TFixed? then Presence(def) else [Vlc.Encode(|data| % TWO_32, false)]) + [data]
    case Boolean(b) => [Vlc.Encode(if b then 1 else 0, false)]
    case Unsigned(u) => [Vlc.Encode(u, false)]
    case Double(bits) => [Vlc.Encode(bits, false)]
    case Signed(i) => [Vlc.Encode(Vlc.AsWord(i), true)]
    case Decimal(mantissa, exponent) => [Vlc.Encode(Vlc.AsWord(exponent), true), Vlc.Encode(Vlc.AsWord(mantissa), true)]
    case _ => []
  }

  /** What precedes the body of a nested group: a presence byte, or the cached size (without
      the ID) and the ID. */
  function GroupHead(def: FieldDef, g: Obj): seq<seq<byte>> {
    if def.ty.TDynamicGroup? then
      [Vlc.Encode(CachedSize(g), false), Vlc.Encode(if g.def.id.Some? then g.def.id.value else 0, false)]
    else Presence(def)
  }

  /** The size field of a group object after cacheSize has succeeded on it. */
  function CachedSize(o: Obj): uint32 {
    match SizeOf(o, true)
    case None => 0
    case Some(n) => n
  }

  /** What BLINK_Object_encodeCompact writes, src/blink_object.c:462-487: nothing if the group
      has no ID or a mandatory field is missing. */
  function Chunks(o: Obj, repaired: bool): seq<seq<byte>> {
    if o.def.id.None? || SizeOf(o, true).None? then []
    else
      [Vlc.Encode((CachedSize(o) + Vlc.SizeofUnsigned(o.def.id.value)) % TWO_32, false),
       Vlc.Encode(o.def.id.value, false)]
      + Body(o, repaired).chunks
  }

  // ------------------------------------------------------------- size accounting

  function Length(out: Output): nat {
    |Flatten(out.chunks)|
  }

  /** What the size pass forgets about one object: a presence byte for every FIXED value and
      every static group in an optional field; and what it overstates: the size prefix of
      each dynamic group, sized with the ID but written without it. */
  function Slack(o: Obj): int
    decreases o, 1
  {
    FieldsSlack(o.fields)
  }

  function FieldsSlack(fs: seq<Field>): int
    decreases fs, 0
  {
    if fs == [] then 0 else FieldSlack(fs[0]) + FieldsSlack(fs[1..])
  }

  function FieldSlack(f: Field): int
    decreases f, 1
  {
    if !f.initialised then 0
    else match f.data
      case Single(v) => ValueSlack(f.def, v)
      case Sequence(_, elems) => ValuesSlack(f.def, elems)
  }

  function ValuesSlack(def: FieldDef, vs: seq<Value>): int
    decreases vs, 0
  {
    if vs == [] then 0 else ValueSlack(def, vs[0]) + ValuesSlack(def, vs[1..])
  }

  function ValueSlack(def: FieldDef, v: Value): int
    decreases v, 2
  {
    match v
    case Bytes(_) => if def.ty.TFixed? && def.isOptional then 1 else 0
    case Nested(g) =>
      Slack(g) +
      (if def.ty.TDynamicGroup? then
         var size := if SizeOf(g, false).Some? then SizeOf(g, false).value else 0;
         var idSize := if g.def.id.Some? then Vlc.SizeofUnsigned(g.def.id.value) else 1;
         Vlc.SizeofUnsigned(size % TWO_64) - Vlc.SizeofUnsigned((idSize + size) % TWO_64)
       else if def.isOptional then 1 else 0)
    case _ => 0
  }

  lemma ThenLength(a: Output, b: Output)
    requires !a.stopped
    ensures Length(a.Then(b)) == Length(a) + Length(b)
  {
    FlattenAppend(a.chunks, b.chunks);
  }

  /** Where the exact total fits in 32 bits, no partial sum wraps. */
  lemma {:induction false} NoWrap(o: Obj)
    requires SizeOf(o, false).Some? && SizeOf(o, false).value < TWO_32
    ensures SizeOf(o, true) == SizeOf(o, false)
    decreases o, 1
  {
    NoWrapFields(o.fields);
  }

  lemma {:induction false} NoWrapFields(fs: seq<Field>)
    requires FieldsSize(fs, false).Some? && FieldsSize(fs, false).value < TWO_32
    ensures FieldsSize(fs, true) == FieldsSize(fs, false)
    decreases fs, 0
  {
    if fs != [] {
      NoWrapField(fs[0]);
      NoWrapFields(fs[1..]);
    }
  }

  lemma {:induction false} NoWrapField(f: Field)
    requires FieldSize(f, false).Some? && FieldSize(f, false).value < TWO_32
    ensures FieldSize(f, true) == FieldSize(f, false)
    decreases f, 1
  {
    if f.initialised {
      match f.data
      case Single(v) => NoWrapValue(f.def, v);
      case Sequence(_, elems) => NoWrapValues(f.def, elems);
    }
  }

  lemma {:induction false} NoWrapValues(def: FieldDef, vs: seq<Value>)
    requires ValuesSize(def, vs, false).Some? && ValuesSize(def, vs, false).value < TWO_32
    ensures ValuesSize(def, vs, true) == ValuesSize(def, vs, false)
    decreases vs, 0
  {
    if vs != [] {
      NoWrapValue(def, vs[0]);
      NoWrapValues(def, vs[1..]);
    }
  }

  lemma {:induction false} NoWrapValue(def: FieldDef, v: Value)
    requires ValueSize(def, v, false).Some? && ValueSize(def, v, false).value < TWO_32
    ensures ValueSize(def, v, true) == ValueSize(def, v, false)
    decreases v, 2
  {
    hide Vlc.SizeofUnsigned, Vlc.SizeofSigned, SizeOf;
    if v.Nested? { NoWrap(v.g); }
  }

  /** The repaired pass never stops early. */
  lemma {:induction false} RepairedRunsOn(o: Obj)
    ensures !Body(o, true).stopped
    decreases o, 1
  {
    RepairedFields(o.fields);
  }

  lemma {:induction false} RepairedFields(fs: seq<Field>)
    ensures !FieldsOut(fs, true).stopped
    decreases fs, 0
  {
    if fs != [] {
      RepairedField(fs[0]);
      RepairedFields(fs[1..]);
    }
  }

  lemma {:induction false} RepairedField(f: Field)
    ensures !FieldOut(f, true).stopped
    decreases f, 1
  {
    if f.initialised {
      match f.data
      case Single(v) => RepairedValue(f.def, v);
      case Sequence(_, elems) => RepairedValues(f.def, elems);
    }
  }

  lemma {:induction false} RepairedValues(def: FieldDef, vs: seq<Value>)
    ensures !ValuesOut(def, vs, true).stopped
    decreases vs, 0
  {
    if vs != [] {
      RepairedValue(def, vs[0]);
      RepairedValues(def, vs[1..]);
    }
  }

  lemma {:induction false} RepairedValue(def: FieldDef, v: Value)
    ensures !ValueOut(def, v, true).stopped
    decreases v, 2
  {
    if v.Nested? { RepairedRunsOn(v.g); }
  }

  /** Exact accounting for a tree of any depth: with the child results repaired, the body is
      as long as the size pass says, plus the slack. */
  lemma {:induction false} TreeAccounting(o: Obj)
    requires Shaped(o) && SizeOf(o, false).Some? && SizeOf(o, false).value < TWO_32
    ensures SizeOf(o, true) == SizeOf(o, false)
    ensures Length(Body(o, true)) == SizeOf(o, false).value + Slack(o)
    decreases o, 1
  {
    NoWrap(o);
    FieldsAccounting(o.fields);
  }

  lemma {:induction false} FieldsAccounting(fs: seq<Field>)
    requires (forall f :: f in fs ==> ShapedField(f)) && FieldsSize(fs, false).Some?
    requires FieldsSize(fs, false).value < TWO_32
    ensures Length(FieldsOut(fs, true)) == FieldsSize(fs, false).value + FieldsSlack(fs)
    decreases fs, 0
  {
    if fs != [] {
      FieldAccounting(fs[0]);
      FieldsAccounting(fs[1..]);
      RepairedField(fs[0]);
      ThenLength(FieldOut(fs[0], true), FieldsOut(fs[1..], true));
    }
  }

  lemma {:induction false} FieldAccounting(f: Field)
    requires ShapedField(f) && FieldSize(f, false).Some? && FieldSize(f, false).value < TWO_32
    ensures Length(FieldOut(f, true)) == FieldSize(f, false).value + FieldSlack(f)
    decreases f, 1
  {
    if !f.initialised {
      FlattenOne([Vlc.NULL_BYTE]);
    } else {
      match f.data
      case Single(v) =>
        assert v in Values(f);
        ValueAccounting(f.def, v);
      case Sequence(count, elems) =>
        assert forall v :: v in elems ==> v in Values(f);
        ValuesAccounting(f.def, elems);
        FlattenOne(Vlc.Encode(count, false));
        ThenLength(Output([Vlc.Encode(count, false)], false), ValuesOut(f.def, elems, true));
    }
  }

  lemma {:induction false} ValuesAccounting(def: FieldDef, vs: seq<Value>)
    requires forall v :: v in vs ==> Kind(def.ty, v) && (v.Nested? ==> Shaped(v.g))
    requires ValuesSize(def, vs, false).Some? && ValuesSize(def, vs, false).value < TWO_32
    ensures Length(ValuesOut(def, vs, true)) == ValuesSize(def, vs, false).value + ValuesSlack(def, vs)
    decreases vs, 0
  {
    if vs != [] {
      ValueAccounting(def, vs[0]);
      ValuesAccounting(def, vs[1..]);
      RepairedValue(def, vs[0]);
      ThenLength(ValueOut(def, vs[0], true), ValuesOut(def, vs[1..], true));
    }
  }

  lemma {:induction false} ValueAccounting(def: FieldDef, v: Value)
    requires Kind(def.ty, v) && (v.Nested? ==> Shaped(v.g))
    requires ValueSize(def, v, false).Some? && ValueSize(def, v, false).value < TWO_32
    ensures Length(ValueOut(def, v, true)) == ValueSize(def, v, false).value + ValueSlack(def, v)
    decreases v, 2
  {
    if v.Nested? {
      TreeAccounting(v.g);
      NestedLength(def, v.g);
    } else {
      LeafLength(def, v);
    }
  }

  lemma NestedLength(def: FieldDef, g: Obj)
    requires Kind(def.ty, Nested(g)) && SizeOf(g, false).Some? && SizeOf(g, false).value < TWO_32
    requires SizeOf(g, true) == SizeOf(g, false)
    requires Length(Body(g, true)) == SizeOf(g, false).value + Slack(g)
    ensures Length(ValueOut(def, Nested(g), true)) ==
              ValueSize(def, Nested(g), false).value + ValueSlack(def, Nested(g))
  {
    hide GroupHead, Body, SizeOf, Slack, Vlc.SizeofUnsigned;
    var head, body := GroupHead(def, g), Body(g, true);
    assert ValueOut(def, Nested(g), true).chunks == head + body.chunks;
    FlattenAppend(head, body.chunks);
    assert Length(ValueOut(def, Nested(g), true)) == |Flatten(head)| + Length(body);
    HeadLength(def, g);
  }

  lemma HeadLength(def: FieldDef, g: Obj)
    ensures |Flatten(GroupHead(def, g))| ==
              if def.ty.TDynamicGroup? then
                Vlc.SizeofUnsigned(CachedSize(g)) + Vlc.SizeofUnsigned(if g.def.id.Some? then g.def.id.value else 0)
              else if def.isOptional then 1 else 0
  {
    if def.ty.TDynamicGroup? {
      var a, b := Vlc.Encode(CachedSize(g), false), Vlc.Encode(if g.def.id.Some? then g.def.id.value else 0, false);
      FlattenTwo(a, b);
    } else if def.isOptional {
      FlattenOne([Vlc.PRESENT_BYTE]);
    }
  }

  lemma FlattenTwo<T>(a: seq<T>, b: seq<T>)
    ensures Flatten([a, b]) == a + b
  {
    assert [a, b] == [a] + [b];
    FlattenCons(a, [b]);
    FlattenOne(b);
  }

  lemma LeafLength(def: FieldDef, v: Value)
    requires Kind(def.ty, v) && !v.Nested?
    ensures |Flatten(Leaf(def, v))| == ValueSize(def, v, false).value + ValueSlack(def, v)
  {
    hide Vlc.Encode, Vlc.SizeofSigned;
    match v
    case Bytes(data) => BytesLength(def, data);
    case Boolean(b) => FlattenOne(Vlc.Encode(if b then 1 else 0, false));
    case Unsigned(u) => FlattenOne(Vlc.Encode(u, false));
    case Double(bits) => FlattenOne(Vlc.Encode(bits, false));
    case Signed(i) => FlattenOne(Vlc.Encode(Vlc.AsWord(i), true));
    case Decimal(mantissa, exponent) =>
      FlattenTwo(Vlc.Encode(Vlc.AsWord(exponent), true), Vlc.Encode(Vlc.AsWord(mantissa), true));
  }

  lemma BytesLength(def: FieldDef, data: seq<byte>)
    requires |data| <= UINT32_MAX
    ensures |Flatten(Leaf(def, Bytes(data)))| ==
              |data| + (if !def.ty.TFixed? then Vlc.SizeofUnsigned(|data|) else if def.isOptional then 1 else 0)
  {
    hide Vlc.Encode, Vlc.SizeofUnsigned;
    if !def.ty.TFixed? {
      FlattenTwo(Vlc.Encode(|data|, false), data);
      assert Leaf(def, Bytes(data)) == [Vlc.Encode(|data|, false), data];
    } else if def.isOptional {
      FlattenTwo([Vlc.PRESENT_BYTE], data);
      assert Leaf(def, Bytes(data)) == [[Vlc.PRESENT_BYTE], data];
    } else {
      FlattenOne(data);
      assert Leaf(def, Bytes(data)) == [data];
    }
  }

  // ---------------------------------------------------------------- flat groups

  /** No nested group is present. */
  ghost predicate Flat(o: Obj) {
    forall f, v :: f in o.fields && v in Values(f) ==> !v.Nested?
  }

  /** The number of FIXED values written for optional fields. */
  function OptionalFixed(fs: seq<Field>): nat {
    if fs == [] then 0
    else (if fs[0].def.ty.TFixed? && fs[0].def.isOptional then |Values(fs[0])| else 0) + OptionalFixed(fs[1..])
  }

  lemma {:induction false} FlatValues(def: FieldDef, vs: seq<Value>)
    requires forall v :: v in vs ==> !v.Nested? && Kind(def.ty, v)
    ensures ValuesOut(def, vs, false) == ValuesOut(def, vs, true)
    ensures ValuesSlack(def, vs) == if def.ty.TFixed? && def.isOptional then |vs| else 0
  {
    if vs != [] { FlatValues(def, vs[1..]); }
  }

  lemma {:induction false} FlatFields(fs: seq<Field>)
    requires forall f :: f in fs ==> ShapedField(f) && forall v :: v in Values(f) ==> !v.Nested?
    ensures FieldsOut(fs, false) == FieldsOut(fs, true)
    ensures FieldsSlack(fs) == OptionalFixed(fs)
  {
    if fs != [] {
      FlatFields(fs[1..]);
      FlatField(fs[0]);
    }
  }

  lemma FlatField(f: Field)
    requires ShapedField(f) && forall v :: v in Values(f) ==> !v.Nested?
    ensures FieldOut(f, false) == FieldOut(f, true)
    ensures FieldSlack(f) == if f.def.ty.TFixed? && f.def.isOptional then |Values(f)| else 0
  {
    if f.initialised {
      match f.data
      case Single(v) =>
        assert v in Values(f);
        assert Kind(f.def.ty, v);
      case Sequence(_, elems) =>
        assert Values(f) == elems;
        FlatValues(f.def, elems);
    }
  }

  /** For a flat group the code as written puts out its whole body: the cached size, plus one
      byte for each FIXED value in an optional field, so the size prefix is right exactly when
      there is no such value. */
  lemma FlatAccounting(o: Obj)
    requires Shaped(o) && Flat(o) && SizeOf(o, false).Some? && SizeOf(o, false).value < TWO_32
    ensures SizeOf(o, true) == SizeOf(o, false) && !Body(o, false).stopped
    ensures Length(Body(o, false)) == SizeOf(o, true).value + OptionalFixed(o.fields)
  {
    TreeAccounting(o);
    FlatFields(o.fields);
    RepairedRunsOn(o);
  }

  // ---------------------------------------------------- abandoned bodies

  /** Output a is what b writes, cut short if a was abandoned. */
  ghost predicate CutOf(a: Output, b: Output) {
    a.chunks <= b.chunks && !b.stopped && (!a.stopped ==> a == b)
  }

  lemma ThenCut(a: Output, b: Output, a': Output, b': Output)
    requires CutOf(a, a') && CutOf(b, b')
    ensures CutOf(a.Then(b), a'.Then(b'))
  {
    if a.stopped { assert a.chunks <= a'.chunks <= a'.chunks + b'.chunks; }
  }

  /** Whatever the tree, the code as written puts out a prefix of the repaired body. */
  lemma {:induction false} AbandonedIsPrefix(o: Obj)
    ensures CutOf(Body(o, false), Body(o, true))
    decreases o, 1
  {
    CutFields(o.fields);
  }

  lemma {:induction false} CutFields(fs: seq<Field>)
    ensures CutOf(FieldsOut(fs, false), FieldsOut(fs, true))
    decreases fs, 0
  {
    if fs != [] {
      CutField(fs[0]);
      CutFields(fs[1..]);
      ThenCut(FieldOut(fs[0], false), FieldsOut(fs[1..], false), FieldOut(fs[0], true), FieldsOut(fs[1..], true));
    }
  }

  lemma {:induction false} CutField(f: Field)
    ensures CutOf(FieldOut(f, false), FieldOut(f, true))
    decreases f, 1
  {
    if f.initialised {
      match f.data
      case Single(v) => CutValue(f.def, v);
      case Sequence(count, elems) =>
        CutValues(f.def, elems);
        var head := Output([Vlc.Encode(count, false)], false);
        ThenCut(head, ValuesOut(f.def, elems, false), head, ValuesOut(f.def, elems, true));
    }
  }

  lemma {:induction false} CutValues(def: FieldDef, vs: seq<Value>)
    ensures CutOf(ValuesOut(def, vs, false), ValuesOut(def, vs, true))
    decreases vs, 0
  {
    if vs != [] {
      CutValue(def, vs[0]);
      CutValues(def, vs[1..]);
      ThenCut(ValueOut(def, vs[0], false), ValuesOut(def, vs[1..], false),
              ValueOut(def, vs[0], true), ValuesOut(def, vs[1..], true));
    }
  }

  lemma {:induction false} CutValue(def: FieldDef, v: Value)
    ensures CutOf(ValueOut(def, v, false), ValueOut(def, v, true))
    decreases v, 2
  {
    if v.Nested? {
      AbandonedIsPrefix(v.g);
      RepairedRunsOn(v.g);
      assert GroupHead(def, v.g) + Body(v.g, false).chunks <= GroupHead(def, v.g) + Body(v.g, true).chunks;
    }
  }
}
