/** Where the code as written stops: the repaired pass as a list of writes in which the end of
    each nested group is marked, and the pass as written as that list up to the first mark. */
module EncodeTrace {
  import opened Base
  import opened Objects
  import opened ObjectEncode
  import Vlc

  /** A write, or the return from a nested group. */
  datatype Event = Puts(chunk: seq<byte>) | Closes

  function Written(chunks: seq<seq<byte>>): (es: seq<Event>)
    ensures |es| == |chunks|
  {
    if chunks == [] then [] else [Puts(chunks[0])] + Written(chunks[1..])
  }

  /** The writes of a list of events. */
  function Of(es: seq<Event>): seq<seq<byte>> {
    if es == [] then [] else (if es[0].Puts? then [es[0].chunk] else []) + Of(es[1..])
  }

  /** The events in front of the first return. */
  function Upto(es: seq<Event>): seq<Event> {
    if es == [] || es[0].Closes? then [] else [es[0]] + Upto(es[1..])
  }

  /** A group depth first: its fields in order, each nested group as its head, its own events and
      a return. */
  function Trace(o: Obj): seq<Event>
    decreases o, 1
  {
    TraceFields(o.fields)
  }

  function TraceFields(fs: seq<Field>): seq<Event>
    decreases fs, 0
  {
    if fs == [] then [] else TraceField(fs[0]) + TraceFields(fs[1..])
  }

  function TraceField(f: Field): seq<Event>
    decreases f, 1
  {
    if !f.initialised then [Puts([0xc0])]
    else match f.data
      case Single(v) => TraceValue(f.def, v)
      case Sequence(count, elems) => [Puts(Vlc.Encode(count, false))] + TraceValues(f.def, elems)
  }

  function TraceValues(def: FieldDef, vs: seq<Value>): seq<Event>
    decreases vs, 0
  {
    if vs == [] then [] else TraceValue(def, vs[0]) + TraceValues(def, vs[1..])
  }

  function TraceValue(def: FieldDef, v: Value): seq<Event>
    decreases v, 2
  {
    match v
    case Nested(g) => Written(GroupHead(def, g)) + Trace(g) + [Closes]
    case _ => Written(Leaf(def, v))
  }

  // --------------------------------------------------------------- lists of events

  lemma {:induction false} OfWritten(chunks: seq<seq<byte>>)
    ensures Of(Written(chunks)) == chunks && Upto(Written(chunks)) == Written(chunks)
  {
    if chunks != [] {
      OfWritten(chunks[1..]);
      assert Written(chunks)[1..] == Written(chunks[1..]);
    }
  }

  lemma {:induction false} OfAppend(a: seq<Event>, b: seq<Event>)
    ensures Of(a + b) == Of(a) + Of(b)
  {
    if a == [] {
      assert a + b == b;
    } else {
      OfAppend(a[1..], b);
      assert (a + b)[1..] == a[1..] + b;
      Regroup(if a[0].Puts? then [a[0].chunk] else [], Of(a[1..]), Of(b));
    }
  }

  lemma {:induction false} UptoAppend(a: seq<Event>, b: seq<Event>)
    ensures Upto(a + b) == if Closes in a then Upto(a) else a + Upto(b)
    ensures Closes !in a ==> Upto(a) == a
  {
    if a == [] {
      assert a + b == b;
    } else {
      UptoAppend(a[1..], b);
      assert (a + b)[1..] == a[1..] + b && a == [a[0]] + a[1..];
      if a[0] != Closes { assert Closes in a <==> Closes in a[1..]; }
    }
  }

  /** A pass comes to these events: all of them if it is repaired, else those in front of the
      first return, and it is abandoned if there is one. */
  ghost predicate Follows(out: Output, es: seq<Event>, repaired: bool) {
    && out.chunks == Of(if repaired then es else Upto(es))
    && (out.stopped <==> !repaired && Closes in es)
  }

  lemma ThenFollows(a: Output, x: seq<Event>, b: Output, y: seq<Event>, repaired: bool)
    requires Follows(a, x, repaired) && Follows(b, y, repaired)
    ensures Follows(a.Then(b), x + y, repaired)
  {
    UptoAppend(x, y);
    OfAppend(x, y);
    if Closes !in x { OfAppend(x, Upto(y)); }
  }

  lemma WrittenFollows(chunks: seq<seq<byte>>, repaired: bool)
    ensures Follows(Output(chunks, false), Written(chunks), repaired) && Closes !in Written(chunks)
  {
    OfWritten(chunks);
    NoReturn(chunks);
  }

  lemma {:induction false} NoReturn(chunks: seq<seq<byte>>)
    ensures Closes !in Written(chunks)
  {
    if chunks != [] { NoReturn(chunks[1..]); }
  }

  // ------------------------------------------------------------------- the passes

  /** The repaired pass writes all of the trace; the code as written writes it up to the end of
      the first nested group that ends, whatever the tree, and stops there. */
  lemma {:induction false} BodyFollows(o: Obj, repaired: bool)
    ensures Follows(Body(o, repaired), Trace(o), repaired)
    decreases o, 1
  {
    FieldsFollow(o.fields, repaired);
  }

  lemma {:induction false} FieldsFollow(fs: seq<Field>, repaired: bool)
    ensures Follows(FieldsOut(fs, repaired), TraceFields(fs), repaired)
    decreases fs, 0
  {
    hide Follows, FieldOut, TraceField;
    if fs == [] {
      NothingFollows(repaired);
    } else {
      FieldFollows(fs[0], repaired);
      FieldsFollow(fs[1..], repaired);
      ThenFollows(FieldOut(fs[0], repaired), TraceField(fs[0]), FieldsOut(fs[1..], repaired), TraceFields(fs[1..]),
                  repaired);
    }
  }

  lemma NothingFollows(repaired: bool)
    ensures Follows(Output([], false), [], repaired)
  {
  }

  lemma {:induction false} FieldFollows(f: Field, repaired: bool)
    ensures Follows(FieldOut(f, repaired), TraceField(f), repaired)
    decreases f, 1
  {
    hide Follows, ValueOut, TraceValue, Vlc.Encode;
    if !f.initialised {
      WrittenFollows([[0xc0]], repaired);
      assert Written([[0xc0]]) == [Puts([0xc0])];
    } else {
      match f.data
      case Single(v) => ValueFollows(f.def, v, repaired);
      case Sequence(count, elems) =>
        var head := Vlc.Encode(count, false);
        WrittenFollows([head], repaired);
        assert Written([head]) == [Puts(head)];
        ValuesFollow(f.def, elems, repaired);
        ThenFollows(Output([head], false), [Puts(head)], ValuesOut(f.def, elems, repaired), TraceValues(f.def, elems),
                    repaired);
    }
  }

  lemma {:induction false} ValuesFollow(def: FieldDef, vs: seq<Value>, repaired: bool)
    ensures Follows(ValuesOut(def, vs, repaired), TraceValues(def, vs), repaired)
    decreases vs, 0
  {
    hide Follows, ValueOut, TraceValue;
    if vs == [] {
      NothingFollows(repaired);
    } else {
      ValueFollows(def, vs[0], repaired);
      ValuesFollow(def, vs[1..], repaired);
      ThenFollows(ValueOut(def, vs[0], repaired), TraceValue(def, vs[0]), ValuesOut(def, vs[1..], repaired),
                  TraceValues(def, vs[1..]), repaired);
    }
  }

  lemma {:induction false} ValueFollows(def: FieldDef, v: Value, repaired: bool)
    ensures Follows(ValueOut(def, v, repaired), TraceValue(def, v), repaired)
    decreases v, 2
  {
    hide Follows, GroupHead, Leaf, Body, Trace;
    if v.Nested? {
      BodyFollows(v.g, repaired);
      GroupFollows(GroupHead(def, v.g), Body(v.g, repaired), Trace(v.g), repaired);
    } else {
      WrittenFollows(Leaf(def, v), repaired);
    }
  }

  lemma GroupFollows(head: seq<seq<byte>>, body: Output, es: seq<Event>, repaired: bool)
    requires Follows(body, es, repaired)
    ensures Follows(Output(head + body.chunks, !repaired || body.stopped), Written(head) + es + [Closes], repaired)
  {
    ReturnFollows(body, es, repaired);
    WrittenFollows(head, repaired);
    var closed := Output(body.chunks, !repaired || body.stopped);
    ThenFollows(Output(head, false), Written(head), closed, es + [Closes], repaired);
    assert Written(head) + (es + [Closes]) == Written(head) + es + [Closes];
  }

  lemma ReturnFollows(body: Output, es: seq<Event>, repaired: bool)
    requires Follows(body, es, repaired)
    ensures Follows(Output(body.chunks, !repaired || body.stopped), es + [Closes], repaired)
  {
    OfAppend(es, [Closes]);
    UptoAppend(es, [Closes]);
    assert [Closes][1..] == [] && Of([Closes]) == [] && Upto([Closes]) == [];
    assert es + [] == es;
    assert Of(es) + [] == Of(es);
  }

  // ---------------------------------------------------------- when nothing is missing

  /** No group is present in these fields. */
  ghost predicate NoGroups(fs: seq<Field>) {
    forall f, v :: f in fs && v in Values(f) ==> !v.Nested?
  }

  lemma {:induction false} NoGroupsNoReturn(fs: seq<Field>)
    requires NoGroups(fs)
    ensures Closes !in TraceFields(fs)
    decreases fs
  {
    hide TraceField;
    if fs != [] {
      PlainFieldNoReturn(fs[0]);
      NoGroupsNoReturn(fs[1..]);
    }
  }

  lemma PlainFieldNoReturn(f: Field)
    requires forall v :: v in Values(f) ==> !v.Nested?
    ensures Closes !in TraceField(f)
  {
    hide TraceValues, TraceValue, Leaf;
    if f.initialised {
      match f.data
      case Single(v) =>
        assert v in Values(f);
        PlainNoReturn(f.def, v);
      case Sequence(_, elems) => PlainValuesNoReturn(f.def, elems);
    }
  }

  lemma {:induction false} PlainValuesNoReturn(def: FieldDef, vs: seq<Value>)
    requires forall v :: v in vs ==> !v.Nested?
    ensures Closes !in TraceValues(def, vs)
  {
    hide TraceValue;
    if vs != [] {
      PlainNoReturn(def, vs[0]);
      PlainValuesNoReturn(def, vs[1..]);
    }
  }

  lemma PlainNoReturn(def: FieldDef, v: Value)
    requires !v.Nested?
    ensures Closes !in TraceValue(def, v)
  {
    NoReturn(Leaf(def, v));
  }

  lemma {:induction false} TraceAppend(a: seq<Field>, b: seq<Field>)
    ensures TraceFields(a + b) == TraceFields(a) + TraceFields(b)
    decreases a
  {
    hide TraceField;
    if a == [] {
      assert a + b == b;
    } else {
      TraceAppend(a[1..], b);
      assert (a + b)[1..] == a[1..] + b;
      Regroup(TraceField(a[0]), TraceFields(a[1..]), TraceFields(b));
    }
  }

  /** A group that is flat and stands in the last field, all other fields being without groups,
      is written whole, and so is its parent: nothing of the repaired body is missing. */
  lemma LastGroupWhole(o: Obj, front: seq<Field>, last: Field, g: Obj)
    requires o.fields == front + [last] && NoGroups(front) && NoGroups(g.fields)
    requires last.initialised && last.data == Single(Nested(g))
    ensures Body(o, false).chunks == Body(o, true).chunks
  {
    hide Body, TraceField, TraceFields, TraceValue, GroupHead, Of, Upto;
    BodyFollows(o, false);
    BodyFollows(o, true);
    TraceAppend(front, [last]);
    NoGroupsNoReturn(front);
    NoGroupsNoReturn(g.fields);
    NoReturn(GroupHead(last.def, g));
    LastField(last, g);
    var a, b := TraceFields(front), Written(GroupHead(last.def, g)) + Trace(g);
    Regroup(a, b, [Closes]);
    ReturnAtEnd(a + b);
  }

  lemma ReturnAtEnd(es: seq<Event>)
    requires Closes !in es
    ensures Of(Upto(es + [Closes])) == Of(es + [Closes])
  {
    UptoAppend(es, [Closes]);
    OfAppend(es, [Closes]);
    assert [Closes][1..] == [] && Of([Closes]) == [] && Upto([Closes]) == [];
    assert es + [] == es && Of(es) + [] == Of(es);
  }

  lemma LastField(last: Field, g: Obj)
    requires last.initialised && last.data == Single(Nested(g))
    ensures TraceFields([last]) == Written(GroupHead(last.def, g)) + Trace(g) + [Closes]
  {
    hide GroupHead, Trace;
    assert [last][1..] == [];
    assert TraceField(last) + [] == TraceField(last);
  }

  // ------------------------------------------------------------- what is written at all

  /** No mandatory field is uninitialised, all the way down. */
  ghost predicate Whole(o: Obj)
    decreases o
  {
    forall f :: f in o.fields ==> WholeField(f)
  }

  ghost predicate WholeField(f: Field)
    decreases f
  {
    (f.initialised || f.def.isOptional) && forall v :: v in Values(f) && v.Nested? ==> Whole(v.g)
  }

  /** The size pass succeeds exactly on such objects. */
  lemma {:induction false} SizeOfWhole(o: Obj, wraps: bool)
    ensures SizeOf(o, wraps).Some? <==> Whole(o)
    decreases o, 1
  {
    hide FieldsSize, WholeField;
    FieldsSizeWhole(o.fields, wraps);
  }

  lemma {:induction false} FieldsSizeWhole(fs: seq<Field>, wraps: bool)
    ensures FieldsSize(fs, wraps).Some? <==> forall f :: f in fs ==> WholeField(f)
    decreases fs, 0
  {
    hide FieldSize, WholeField;
    if fs != [] {
      FieldSizeWhole(fs[0], wraps);
      FieldsSizeWhole(fs[1..], wraps);
      assert forall f :: f in fs <==> f == fs[0] || f in fs[1..];
    }
  }

  lemma {:induction false} FieldSizeWhole(f: Field, wraps: bool)
    ensures FieldSize(f, wraps).Some? <==> WholeField(f)
    decreases f, 1
  {
    hide ValueSize, ValuesSize, Whole;
    if f.initialised {
      match f.data
      case Single(v) => ValueSizeWhole(f.def, v, wraps);
      case Sequence(_, elems) => ValuesSizeWhole(f.def, elems, wraps);
    }
  }

  lemma {:induction false} ValuesSizeWhole(def: FieldDef, vs: seq<Value>, wraps: bool)
    ensures ValuesSize(def, vs, wraps).Some? <==> forall v :: v in vs && v.Nested? ==> Whole(v.g)
    decreases vs, 0
  {
    hide ValueSize, Whole;
    if vs != [] {
      ValueSizeWhole(def, vs[0], wraps);
      ValuesSizeWhole(def, vs[1..], wraps);
      assert forall v :: v in vs <==> v == vs[0] || v in vs[1..];
    }
  }

  lemma {:induction false} ValueSizeWhole(def: FieldDef, v: Value, wraps: bool)
    ensures ValueSize(def, v, wraps).Some? <==> (v.Nested? ==> Whole(v.g))
    decreases v, 2
  {
    hide SizeOf, Whole;
    if v.Nested? { SizeOfWhole(v.g, wraps); }
  }

  /** Not a byte is put out exactly if the group has no ID or a mandatory field is missing
      somewhere below. */
  lemma SilentMeans(o: Obj, repaired: bool)
    ensures Chunks(o, repaired) == [] <==> o.def.id.None? || !Whole(o)
  {
    hide SizeOf, Body, Whole;
    SizeOfWhole(o, true);
  }
}
