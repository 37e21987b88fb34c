/** The write pass of the encoder and the two passes together, src/blink_object.c:462-487,
    1632-1814. Neither reports success: what they do is what they leave in the stream. */
module ObjectEncoder {
  import opened Base
  import opened Objects
  import opened ObjectEncode
  import opened GroupObjects
  import opened StreamObjects
  import Compact
  import S = Streams
  import Vlc

  /** No group object is part of the stream. */
  ghost predicate Apart(done: set<GroupObject>, out: Stream) {
    forall m :: m in done ==> m !in out.Repr
  }

  /** These chunks were written, up to the first that failed; `go` if all were. */
  ghost predicate Wrote(before: S.State, after: S.State, chunks: seq<seq<byte>>, go: bool)
    requires before.Wf()
  {
    (go, after) == S.WriteAll(before, chunks)
  }

  lemma WroteNone(s: S.State)
    requires s.Wf()
    ensures Wrote(s, s, [], true)
  {
  }

  lemma WroteOne(s: S.State, a: seq<byte>)
    requires s.Wf()
    ensures S.WriteAll(s, [a]) == S.Write(s, a)
  {
    var s' := S.Write(s, a).1;
    assert [a][1..] == [];
    assert S.WriteAll(s', []) == (true, s');
  }

  /** Writing on after some chunks. */
  lemma WroteMore(s: S.State, a: seq<seq<byte>>, b: seq<seq<byte>>, s': S.State)
    requires s.Wf() && s'.Wf() && Wrote(s, s', a, true)
    ensures S.WriteAll(s, a + b) == S.WriteAll(s', b)
  {
    S.WriteAllAppend(s, a, b);
  }

  lemma WroteCut(s: S.State, a: seq<seq<byte>>, b: seq<seq<byte>>, s': S.State)
    requires s.Wf() && Wrote(s, s', a, false)
    ensures Wrote(s, s', a + b, false)
  {
    S.WriteAllAppend(s, a, b);
  }

  method Put(word: uint64, isSigned: bool, out: Stream) returns (go: bool)
    requires out.Valid()
    modifies out.Repr
    ensures out.Valid() && Wrote(old(out.Value()), out.Value(), [Vlc.Encode(word, isSigned)], go)
  {
    WroteOne(out.Value(), Vlc.Encode(word, isSigned));
    go := Compact.EncodeVlc(word, isSigned, out);
  }

  method PutBytes(data: seq<byte>, out: Stream) returns (go: bool)
    requires out.Valid()
    modifies out.Repr
    ensures out.Valid() && Wrote(old(out.Value()), out.Value(), [data], go)
  {
    WroteOne(out.Value(), data);
    go := out.Write(data);
  }

  /** Two chunks, the second only if the first was written. */
  lemma WroteTwo(s: S.State, a: seq<byte>, s': S.State, b: seq<byte>, s'': S.State, go: bool)
    requires s.Wf() && s'.Wf() && Wrote(s, s', [a], true) && Wrote(s', s'', [b], go)
    ensures Wrote(s, s'', [a, b], go)
  {
    WroteMore(s, [a], [b], s');
    assert [a] + [b] == [a, b];
  }

  lemma WroteHalf(s: S.State, a: seq<byte>, s': S.State, b: seq<byte>)
    requires s.Wf() && Wrote(s, s', [a], false)
    ensures Wrote(s, s', [a, b], false)
  {
    WroteCut(s, [a], [b], s');
    assert [a] + [b] == [a, b];
  }

  /** BLINK_Compact_encodeDecimal: exponent, then mantissa. */
  method PutDecimal(mantissa: int64, exponent: int8, out: Stream) returns (go: bool)
    requires out.Valid()
    modifies out.Repr
    ensures out.Valid()
    ensures Wrote(old(out.Value()), out.Value(),
                  [Vlc.Encode(Vlc.AsWord(exponent), true), Vlc.Encode(Vlc.AsWord(mantissa), true)], go)
  {
    hide Wrote, Vlc.Encode;
    ghost var before := out.Value();
    ghost var a, b := Vlc.Encode(Vlc.AsWord(exponent), true), Vlc.Encode(Vlc.AsWord(mantissa), true);
    go := Put(Vlc.AsWord(exponent), true, out);
    ghost var between := out.Value();
    if go {
      go := Put(Vlc.AsWord(mantissa), true, out);
      WroteTwo(before, a, between, b, out.Value(), go);
    } else {
      WroteHalf(before, a, between, b);
    }
  }

  /** Strings, binaries and fixed values, src/blink_object.c:1680-1706. */
  method PutString(def: FieldDef, data: seq<byte>, out: Stream) returns (go: bool)
    requires out.Valid()
    modifies out.Repr
    ensures out.Valid() && Wrote(old(out.Value()), out.Value(), Leaf(def, Bytes(data)), go)
  {
    hide Wrote, Vlc.Encode;
    ghost var before := out.Value();
    if def.ty.TFixed? && !def.isOptional {
      assert Leaf(def, Bytes(data)) == [data];
      go := PutBytes(data, out);
    } else {
      ghost var head := if def.ty.TFixed? then [Vlc.PRESENT_BYTE] else Vlc.Encode(|data| % TWO_32, false);
      assert Leaf(def, Bytes(data)) == [head, data];
      if def.ty.TFixed? {
        go := PutBytes([Vlc.PRESENT_BYTE], out);
      } else {
        go := Put(|data| % TWO_32, false, out);
      }
      ghost var between := out.Value();
      if go {
        go := PutBytes(data, out);
        WroteTwo(before, head, between, data, out.Value(), go);
      } else {
        WroteHalf(before, head, between, data);
      }
    }
  }

  /** The switch of encodeBody on a value that is not a group. */
  method EncodeLeaf(def: FieldDef, v: Value, out: Stream) returns (go: bool)
    requires out.Valid() && !v.Nested?
    modifies out.Repr
    ensures out.Valid() && Wrote(old(out.Value()), out.Value(), Leaf(def, v), go)
  {
    hide Wrote, Vlc.Encode;
    go := true;
    match v
    case Bytes(data) => go := PutString(def, data, out);
    case Boolean(b) => go := Put(if b then 1 else 0, false, out);
    case Unsigned(u) => go := Put(u, false, out);
    case Double(bits) => go := Put(bits, false, out);
    case Signed(i) => go := Put(Vlc.AsWord(i), true, out);
    case Decimal(mantissa, exponent) => go := PutDecimal(mantissa, exponent, out);
    case Blank => WroteNone(out.Value());
    case Rounded(_) => WroteNone(out.Value());
  }

  /** What precedes the body of a nested group. */
  method EncodeHead(def: FieldDef, g: GroupObject, out: Stream) returns (go: bool)
    requires out.Valid() && g.def == g.content.def && g.size == CachedSize(g.content)
    modifies out.Repr
    ensures out.Valid() && Wrote(old(out.Value()), out.Value(), GroupHead(def, g.content), go)
  {
    hide Wrote, Vlc.Encode, CachedSize;
    ghost var before := out.Value();
    var id := if g.def.id.Some? then g.def.id.value else 0;
    if def.ty.TDynamicGroup? {
      ghost var a, b := Vlc.Encode(CachedSize(g.content), false), Vlc.Encode(id, false);
      go := Put(g.size, false, out);
      ghost var between := out.Value();
      if go {
        go := Put(id, false, out);
        WroteTwo(before, a, between, b, out.Value(), go);
      } else {
        WroteHalf(before, a, between, b);
      }
    } else if def.isOptional {
      go := PutBytes([Vlc.PRESENT_BYTE], out);
    } else {
      go := true;
      WroteNone(before);
    }
  }

  /** An output was produced: its chunks were written up to the first failure, and the caller
      goes on only if all were and the output was not abandoned. */
  ghost predicate Produced(before: S.State, after: S.State, c: Output, go: bool)
    requires before.Wf()
  {
    after == S.WriteAll(before, c.chunks).1 && go == (S.WriteAll(before, c.chunks).0 && !c.stopped)
  }

  lemma ProducedThen(s: S.State, a: Output, s': S.State, b: Output)
    requires s.Wf() && s'.Wf() && Produced(s, s', a, true)
    ensures S.WriteAll(s, a.Then(b).chunks) == S.WriteAll(s', b.chunks) && a.Then(b).stopped == b.stopped
  {
    S.WriteAllAppend(s, a.chunks, b.chunks);
  }

  lemma ProducedCut(s: S.State, a: Output, s': S.State, b: Output)
    requires s.Wf() && Produced(s, s', a, false)
    ensures Produced(s, s', a.Then(b), false)
  {
    if !a.stopped { S.WriteAllAppend(s, a.chunks, b.chunks); }
  }

  /** The switch of encodeBody on one value. */
  method EncodeValue(def: FieldDef, n: ValueNode, ghost v: Value, ghost owner: GroupObject, out: Stream,
                     ghost done: set<GroupObject>)
    returns (go: bool)
    requires owner.ValidValue(n, v) && Kids([n]) <= done && Cached(done) && out.Valid() && Apart(done, out)
    modifies out.Repr
    ensures out.Valid() && Produced(old(out.Value()), out.Value(), ValueOut(def, v, false), go)
    decreases v, 0
  {
    hide Leaf, GroupHead, Body, S.WriteAll;
    ghost var before := out.Value();
    match n
    case Plain(w) =>
      go := EncodeLeaf(def, w, out);
    case Pointer(g) =>
      assert g in Kids([n]) by { assert n in [n]; }
      go := EncodeHead(def, g, out);
      ghost var between := out.Value();
      ghost var head, body := GroupHead(def, g.content), Body(g.content, false).chunks;
      if go {
        go := EncodeBody(g, out, done);
        WroteMore(before, head, body, between);
      } else {
        WroteCut(before, head, body, between);
      }
  }

  /** The do-while loop of encodeBody over the values of a field. */
  method EncodeValues(def: FieldDef, ns: seq<ValueNode>, ghost vs: seq<Value>, ghost owner: GroupObject, out: Stream,
                      ghost done: set<GroupObject>)
    returns (go: bool)
    requires |ns| == |vs| && forall k :: 0 <= k < |ns| ==> owner.ValidValue(ns[k], vs[k]) && vs[k] < owner.content
    requires Kids(ns) <= done && Cached(done) && out.Valid() && Apart(done, out)
    modifies out.Repr
    ensures out.Valid() && Produced(old(out.Value()), out.Value(), ValuesOut(def, vs, false), go)
    decreases owner.content, 1
  {
    hide Produced, ValueOut, GroupObject.ValidValue, Cached;
    ghost var before := out.Value();
    go := true;
    var k := 0;
    NothingProduced(before, vs);
    while k < |ns|
      invariant k <= |ns| && out.Valid() && Cached(done)
      invariant Goes(before, ValuesOut(def, vs, false), out.Value(), ValuesOut(def, vs[k..], false))
    {
      assert vs[k..][1..] == vs[k + 1..];
      KidsOne(ns, k);
      ghost var here := out.Value();
      go := EncodeValue(def, ns[k], vs[k], owner, out, done);
      if !go {
        GoesCut(before, ValuesOut(def, vs, false), here, ValueOut(def, vs[k], false),
                ValuesOut(def, vs[k + 1..], false), out.Value());
        return;
      }
      GoesOn(before, ValuesOut(def, vs, false), here, ValueOut(def, vs[k], false),
             ValuesOut(def, vs[k + 1..], false), out.Value());
      k := k + 1;
    }
    GoesToEnd(before, ValuesOut(def, vs, false), out.Value());
  }

  lemma KidsOne(ns: seq<ValueNode>, k: nat)
    requires k < |ns|
    ensures Kids([ns[k]]) <= Kids(ns)
  {
    assert ns[k] in ns;
  }

  /** Producing the whole from the first state comes to producing the rest from this one. */
  ghost predicate Goes(before: S.State, whole: Output, here: S.State, rest: Output)
    requires before.Wf() && here.Wf()
  {
    S.WriteAll(before, whole.chunks) == S.WriteAll(here, rest.chunks) && whole.stopped == rest.stopped
  }

  lemma NothingProduced(before: S.State, vs: seq<Value>)
    requires before.Wf()
    ensures vs[0..] == vs
  {
  }

  lemma GoesCut(before: S.State, whole: Output, here: S.State, a: Output, b: Output, after: S.State)
    requires before.Wf() && here.Wf() && Goes(before, whole, here, a.Then(b)) && Produced(here, after, a, false)
    ensures Produced(before, after, whole, false)
  {
    ProducedCut(here, a, after, b);
  }

  lemma GoesOn(before: S.State, whole: Output, here: S.State, a: Output, b: Output, after: S.State)
    requires before.Wf() && here.Wf() && after.Wf() && Goes(before, whole, here, a.Then(b))
    requires Produced(here, after, a, true)
    ensures Goes(before, whole, after, b)
  {
    ProducedThen(here, a, after, b);
  }

  lemma GoesToEnd(before: S.State, whole: Output, here: S.State)
    requires before.Wf() && here.Wf() && Goes(before, whole, here, Output([], false))
    ensures Produced(before, here, whole, true)
  {
  }

  lemma ProducedOutput(before: S.State, after: S.State, chunks: seq<seq<byte>>, go: bool)
    requires before.Wf() && Wrote(before, after, chunks, go)
    ensures Produced(before, after, Output(chunks, false), go)
  {
  }

  /** One turn of the field loop. */
  method EncodeField(g: GroupObject, i: nat, out: Stream, ghost done: set<GroupObject>) returns (go: bool)
    requires g.Valid() && i < |g.fields| && g in done && Cached(done) && out.Valid() && Apart(done, out)
    modifies out.Repr
    ensures out.Valid() && Produced(old(out.Value()), out.Value(), FieldOut(g.content.fields[i], false), go)
    decreases g.content, 2
  {
    hide Produced, Wrote, ValuesOut, ValueOut, GroupObject.ValidValue, GroupObject.ValidField, S.WriteAll, Vlc.Encode;
    ghost var before, f := out.Value(), g.content.fields[i];
    assert g.ValidField(i);
    FieldAgrees(g, i);
    if g.fields[i].initialised {
      ghost var head, rest := Output([], false), ValuesOut(f.def, Values(f), false);
      go := true;
      if g.fields[i].data.Many? {
        head := Output([Vlc.Encode(g.fields[i].data.count, false)], false);
        go := Put(g.fields[i].data.count, false, out);
      } else {
        WroteNone(before);
      }
      ProducedOutput(before, out.Value(), head.chunks, go);
      FieldIs(f, head);
      ghost var here := out.Value();
      if !go {
        ProducedCut(before, head, here, rest);
        return;
      }
      go := EncodeValues(g.fields[i].def, Nodes(g.fields[i]), Values(f), g, out, done);
      ProducedJoin(before, head, here, rest, out.Value(), go);
    } else {
      go := PutBytes([Vlc.NULL_BYTE], out);
      ProducedOutput(before, out.Value(), [[Vlc.NULL_BYTE]], go);
    }
  }

  lemma FieldAgrees(g: GroupObject, i: nat)
    requires g.Valid() && i < |g.fields| && g.ValidField(i)
    ensures var n, f := g.fields[i], g.content.fields[i];
            && n.def == f.def && n.initialised == f.initialised && n.data.Many? == f.data.Sequence?
            && (n.data.Many? ==> n.data.count == f.data.count)
            && |Nodes(n)| == |Values(f)|
            && forall k :: 0 <= k < |Nodes(n)| ==> g.ValidValue(Nodes(n)[k], Values(f)[k]) && Values(f)[k] < g.content
  {
    hide GroupObject.ValidValue;
    assert forall k :: 0 <= k < |Values(g.content.fields[i])| ==>
           Values(g.content.fields[i])[k] in Values(g.content.fields[i]);
  }

  /** A field with a value puts out a size, if it is a sequence, and its values. */
  lemma FieldIs(f: Field, head: Output)
    requires f.initialised && head == Output(if f.data.Sequence? then [Vlc.Encode(f.data.count, false)] else [], false)
    ensures FieldOut(f, false) == head.Then(ValuesOut(f.def, Values(f), false))
  {
    hide ValueOut, Vlc.Encode;
    if f.data.Single? {
      assert ValuesOut(f.def, [f.data.v][1..], false) == Output([], false);
      assert ValueOut(f.def, f.data.v, false).chunks + [] == ValueOut(f.def, f.data.v, false).chunks;
      assert [] + ValuesOut(f.def, [f.data.v], false).chunks == ValuesOut(f.def, [f.data.v], false).chunks;
    }
  }

  lemma ProducedJoin(s: S.State, a: Output, s': S.State, b: Output, s'': S.State, go: bool)
    requires s.Wf() && s'.Wf() && Produced(s, s', a, true) && Produced(s', s'', b, go)
    ensures Produced(s, s'', a.Then(b), go)
  {
    ProducedThen(s, a, s', b);
  }

  /** encodeBody always returns false; what it does is write the chunks of the body, up to the
      first nested group or the first write that fails. */
  method EncodeBody(g: GroupObject, out: Stream, ghost done: set<GroupObject>) returns (ok: bool)
    requires g.Valid() && g in done && Cached(done) && out.Valid() && Apart(done, out)
    modifies out.Repr
    ensures out.Valid() && !ok && out.Value() == S.WriteAll(old(out.Value()), Body(g.content, false).chunks).1
    decreases g.content, 3
  {
    hide FieldOut, GroupObject.ValidField, Cached;
    ok := false;
    ghost var before, fs := out.Value(), g.content.fields;
    var i := 0;
    assert fs[0..] == fs;
    while i < |g.fields|
      invariant i <= |g.fields| && out.Valid() && Cached(done)
      invariant Goes(before, FieldsOut(fs, false), out.Value(), FieldsOut(fs[i..], false))
    {
      assert fs[i..][1..] == fs[i + 1..];
      ghost var here := out.Value();
      var go := EncodeField(g, i, out, done);
      if !go {
        GoesCut(before, FieldsOut(fs, false), here, FieldOut(fs[i], false), FieldsOut(fs[i + 1..], false), out.Value());
        return;
      }
      GoesOn(before, FieldsOut(fs, false), here, FieldOut(fs[i], false), FieldsOut(fs[i + 1..], false), out.Value());
      i := i + 1;
    }
    GoesToEnd(before, FieldsOut(fs, false), out.Value());
  }

  /** BLINK_Object_encodeCompact. The size prefix counts the ID. */
  method EncodeCompact(g: GroupObject, out: Stream) returns (ok: bool)
    requires g.Valid() && out.Valid() && Apart(g.Repr, out)
    modifies g.Repr, out.Repr
    ensures out.Valid() && !ok && out.Value() == S.WriteAll(old(out.Value()), Chunks(g.content, false)).1
  {
    hide Body, SizeOf, Cached, S.WriteAll, Vlc.Encode, Vlc.SizeofUnsigned;
    ok := false;
    ghost var before := out.Value();
    WroteNothing(before);
    if g.def.id.Some? {
      var id := g.def.id.value;
      var cached;
      ghost var done;
      cached, done := g.CacheSize();
      if cached {
        assert out.Value() == before;
        ghost var a, b := Vlc.Encode((g.size + Vlc.SizeofUnsigned(id)) % TWO_32, false), Vlc.Encode(id, false);
        ghost var body := Body(g.content, false).chunks;
        assert Chunks(g.content, false) == [a, b] + body;
        var go := Put((g.size + Vlc.SizeofUnsigned(id)) % TWO_32, false, out);
        ghost var between := out.Value();
        if go {
          go := Put(id, false, out);
          WroteTwo(before, a, between, b, out.Value(), go);
        } else {
          WroteHalf(before, a, between, b);
        }
        ghost var here := out.Value();
        if go {
          WroteMore(before, [a, b], body, here);
          ok := EncodeBody(g, out, done);
        } else {
          WroteCut(before, [a, b], body, here);
        }
      }
    }
  }

  lemma WroteNothing(s: S.State)
    requires s.Wf()
    ensures S.WriteAll(s, []).1 == s
  {
  }
}
