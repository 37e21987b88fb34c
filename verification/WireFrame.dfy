/** What the bytes of a sequence and of a whole message are, said without the decoder's loops;
    the decoder comes out with exactly what they say. */
module WireFrame {
  import opened Base
  import opened Schema
  import opened References
  import opened SchemaObjects
  import opened WireForm
  import O = Objects
  import D = ObjectDecode
  import Vlc

  // ----------------------------------------------------------------------- sequences

  /** bs is one value v, whole. */
  ghost predicate OneValue(def: O.FieldDef, reg: O.Registry, bs: seq<byte>, budget: nat, v: O.Value) {
    exists marks :: D.DecodeValue(def, reg, bs, budget) == Some(D.Got(v, marks, |bs|))
  }

  /** bs is these values, one behind the other. */
  ghost predicate Elements(def: O.FieldDef, reg: O.Registry, bs: seq<byte>, budget: nat, vs: seq<O.Value>)
    requires |bs| <= budget
    decreases vs
  {
    if vs == [] then bs == []
    else exists n :: 0 <= n <= |bs| && OneValue(def, reg, bs[..n], budget, vs[0])
                     && Elements(def, reg, bs[n..], budget - n, vs[1..])
  }

  lemma AgreeFirst(bs: seq<byte>, n: nat)
    requires n <= |bs|
    ensures D.Agree(bs, bs[..n], n) && D.Agree(bs[..n], bs, n)
  {
  }

  /** A value and the bytes behind it. */
  lemma ValueWhole(def: O.FieldDef, reg: O.Registry, bs: seq<byte>, budget: nat, v: O.Value, n: nat)
    requires n <= |bs|
    ensures OneValue(def, reg, bs[..n], budget, v) <==>
            exists marks :: D.DecodeValue(def, reg, bs, budget) == Some(D.Got(v, marks, n))
  {
    hide D.DecodeValue, D.Agree;
    AgreeFirst(bs, n);
    if marks :| D.DecodeValue(def, reg, bs, budget) == Some(D.Got(v, marks, n)) {
      D.ValueLocal(def, reg, bs, budget, bs[..n], budget);
      assert D.DecodeValue(def, reg, bs[..n], budget) == Some(D.Got(v, marks, |bs[..n]|));
    }
    if marks :| D.DecodeValue(def, reg, bs[..n], budget) == Some(D.Got(v, marks, |bs[..n]|)) {
      D.ValueLocal(def, reg, bs[..n], budget, bs, budget);
      assert D.DecodeValue(def, reg, bs, budget) == Some(D.Got(v, marks, n));
    }
  }

  lemma ElementsStep(def: O.FieldDef, reg: O.Registry, bs: seq<byte>, budget: nat, vs: seq<O.Value>, n: nat, m: nat)
    requires |bs| <= budget && vs != [] && n <= m <= |bs|
    requires OneValue(def, reg, bs[..n], budget, vs[0]) && Elements(def, reg, bs[n..][..m - n], budget - n, vs[1..])
    ensures Elements(def, reg, bs[..m], budget, vs)
  {
    hide OneValue;
    assert bs[..m][..n] == bs[..n] && bs[..m][n..] == bs[n..][..m - n];
  }

  /** The element loop reads exactly as many elements as stand there. */
  lemma {:induction false} ElementsRead(
    def: O.FieldDef, reg: O.Registry, bs: seq<byte>, budget: nat, vs: seq<O.Value>, m: nat)
    requires |bs| <= budget
    ensures D.DecodeElems(def, reg, bs, budget, |vs|) == Some((vs, m)) <==>
            m <= |bs| && Elements(def, reg, bs[..m], budget, vs)
    decreases vs
  {
    hide D.DecodeValue, OneValue, D.DecodeElems, Elements;
    if vs == [] {
      NoElements(def, reg, bs, budget, m);
    } else {
      if D.DecodeElems(def, reg, bs, budget, |vs|) == Some((vs, m)) {
        var got := FirstElement(def, reg, bs, budget, vs, m);
        ElementsRead(def, reg, bs[got.used..], budget - got.used, vs[1..], m - got.used);
        ElementsStep(def, reg, bs, budget, vs, got.used, m);
      }
      if m <= |bs| && Elements(def, reg, bs[..m], budget, vs) {
        var got := FirstThere(def, reg, bs, budget, vs, m);
        ElementsRead(def, reg, bs[got.used..], budget - got.used, vs[1..], m - got.used);
        D.ElemsStep(def, reg, bs, budget, |vs|, got);
        assert [vs[0]] + vs[1..] == vs;
      }
    }
  }

  lemma NoElements(def: O.FieldDef, reg: O.Registry, bs: seq<byte>, budget: nat, m: nat)
    requires |bs| <= budget
    ensures D.DecodeElems(def, reg, bs, budget, 0) == Some(([], m)) <==>
            m <= |bs| && Elements(def, reg, bs[..m], budget, [])
  {
    hide D.DecodeElems;
    D.NoMore(def, reg, bs, budget);
  }

  /** The first of the elements that the loop has read. */
  lemma FirstElement(def: O.FieldDef, reg: O.Registry, bs: seq<byte>, budget: nat, vs: seq<O.Value>, m: nat)
    returns (got: D.Got)
    requires |bs| <= budget && vs != [] && D.DecodeElems(def, reg, bs, budget, |vs|) == Some((vs, m))
    ensures got.used <= m <= |bs| && OneValue(def, reg, bs[..got.used], budget, vs[0])
    ensures D.DecodeElems(def, reg, bs[got.used..], budget - got.used, |vs[1..]|) == Some((vs[1..], m - got.used))
  {
    hide D.DecodeValue, OneValue, D.DecodeElems;
    D.NoFewer(def, reg, bs, budget, |vs|);
    got := D.DecodeValue(def, reg, bs, budget).value;
    D.ElemsStep(def, reg, bs, budget, |vs|, got);
    assert got == D.Got(vs[0], got.marks, got.used);
    ValueWhole(def, reg, bs, budget, vs[0], got.used);
  }

  /** The first of the elements that stand there. */
  lemma FirstThere(def: O.FieldDef, reg: O.Registry, bs: seq<byte>, budget: nat, vs: seq<O.Value>, m: nat)
    returns (got: D.Got)
    requires |bs| <= budget && vs != [] && m <= |bs| && Elements(def, reg, bs[..m], budget, vs)
    ensures got.used <= m && got.v == vs[0] && D.DecodeValue(def, reg, bs, budget) == Some(got)
    ensures Elements(def, reg, bs[got.used..][..m - got.used], budget - got.used, vs[1..])
  {
    hide D.DecodeValue, OneValue;
    var n :| 0 <= n <= m && OneValue(def, reg, bs[..m][..n], budget, vs[0])
             && Elements(def, reg, bs[..m][n..], budget - n, vs[1..]);
    assert bs[..m][..n] == bs[..n] && bs[..m][n..] == bs[n..][..m - n];
    ValueWhole(def, reg, bs, budget, vs[0], n);
    var marks :| D.DecodeValue(def, reg, bs, budget) == Some(D.Got(vs[0], marks, n));
    got := D.Got(vs[0], marks, n);
  }

  /** bs is a sequence: a null where that is allowed, or the number of its elements and the
      elements. It leaves the field unmarked. */
  ghost predicate SequenceForm(def: O.FieldDef, reg: O.Registry, bs: seq<byte>, budget: nat, elems: seq<O.Value>)
    requires |bs| <= budget
  {
    || (def.isOptional && bs == NULL && elems == [])
    || exists k :: 0 <= k <= |bs| && Number(bs[..k], |elems|) && Elements(def, reg, bs[k..], budget - k, elems)
  }

  lemma {:induction false} SequenceGrows(def: O.FieldDef, reg: O.Registry, bs: seq<byte>, budget: nat, count: uint32,
                                         elems: seq<O.Value>)
    requires |bs| <= budget && D.DecodeSequence(def, reg, bs, budget, count, elems).Some?
    ensures var d := D.DecodeSequence(def, reg, bs, budget, count, elems).value.0.data;
            d.Sequence? && |d.elems| >= |elems|
    decreases |bs|, 0
  {
    hide D.DecodeContent, Vlc.Decode;
    var (v, n) := Vlc.ReadUnsigned(bs, UINT32_MAX).value;
    if v.Word? { ContentGrows(def, reg, bs[n..], budget - n, v.u, v.u, elems); }
  }

  lemma {:induction false} ContentGrows(def: O.FieldDef, reg: O.Registry, bs: seq<byte>, budget: nat, count: uint32,
                                        todo: nat, elems: seq<O.Value>)
    requires |bs| <= budget && D.DecodeContent(def, reg, bs, budget, count, todo, elems).Some?
    ensures var d := D.DecodeContent(def, reg, bs, budget, count, todo, elems).value.0.data;
            d.Sequence? && |d.elems| >= |elems| + todo
    decreases |bs|, 1
  {
    hide D.DecodeSequence, D.DecodeElems;
    var (vs, k) := D.DecodeElems(def, reg, bs, budget, todo).value;
    if count == UINT32_MAX { SequenceGrows(def, reg, bs[k..], budget - k, count, elems + vs); }
  }

  /** The field that a sequence comes out as. */
  function SequenceField(def: O.FieldDef, elems: seq<O.Value>): O.Field
    requires |elems| < 0xffff_ffff
  {
    O.Field(def, false, O.Sequence(|elems|, elems))
  }

  lemma NullSequence(def: O.FieldDef, reg: O.Registry, bs: seq<byte>, budget: nat)
    requires |bs| <= budget && Vlc.Decode(bs, false) == Some((Vlc.Null, 1)) && 1 <= |bs|
    ensures D.DecodeSequence(def, reg, bs, budget, 0, []) ==
              if def.isOptional then Some((SequenceField(def, []), 1)) else None
  {
    hide Vlc.Decode, D.DecodeContent;
  }

  lemma CountedSequence(def: O.FieldDef, reg: O.Registry, bs: seq<byte>, budget: nat, k: nat, count: uint64,
                        elems: seq<O.Value>, used: nat)
    requires |bs| <= budget && Vlc.Decode(bs, false) == Some((Vlc.Word(count), k)) && k <= |bs|
    requires |elems| < 0xffff_ffff
    ensures D.DecodeSequence(def, reg, bs, budget, 0, []) == Some((SequenceField(def, elems), used)) <==>
            && count == |elems| && k <= used
            && D.DecodeElems(def, reg, bs[k..], budget - k, |elems|) == Some((elems, used - k))
  {
    hide Vlc.Decode, D.DecodeElems, D.DecodeSequence;
    var r := D.DecodeSequence(def, reg, bs, budget, 0, []);
    SequenceIs(def, reg, bs, budget, k, count);
    if count <= 0xffff_ffff {
      var e := D.DecodeElems(def, reg, bs[k..], budget - k, count);
      if e.Some? { assert [] + e.value.0 == e.value.0; }
      if count == 0xffff_ffff && r.Some? { SequenceTooLong(def, reg, bs, budget, k); }
    }
  }

  lemma SequenceIs(def: O.FieldDef, reg: O.Registry, bs: seq<byte>, budget: nat, k: nat, count: uint64)
    requires |bs| <= budget && Vlc.Decode(bs, false) == Some((Vlc.Word(count), k)) && k <= |bs|
    ensures D.DecodeSequence(def, reg, bs, budget, 0, []) ==
              if count > 0xffff_ffff then None
              else D.Further(k, D.DecodeContent(def, reg, bs[k..], budget - k, count, count, []))
  {
    hide Vlc.Decode, D.DecodeContent;
  }

  lemma SequenceTooLong(def: O.FieldDef, reg: O.Registry, bs: seq<byte>, budget: nat, k: nat)
    requires |bs| <= budget && Vlc.Decode(bs, false) == Some((Vlc.Word(0xffff_ffff), k)) && k <= |bs|
    requires D.DecodeSequence(def, reg, bs, budget, 0, []).Some?
    ensures var d := D.DecodeSequence(def, reg, bs, budget, 0, []).value.0.data;
            d.Sequence? && |d.elems| >= 0xffff_ffff
  {
    hide Vlc.Decode, D.DecodeContent, D.DecodeSequence;
    SequenceIs(def, reg, bs, budget, k, 0xffff_ffff);
    ContentGrows(def, reg, bs[k..], budget - k, 0xffff_ffff, 0xffff_ffff, []);
  }

  /** Decoding a sequence field comes out with exactly the sequences that stand there, as long as
      they have less than 2^32 - 1 elements. */
  lemma SequenceReads(def: O.FieldDef, reg: O.Registry, bs: seq<byte>, budget: nat, elems: seq<O.Value>, used: nat)
    requires |bs| <= budget && def.isSequence && |elems| < 0xffff_ffff
    ensures D.DecodeField(def, reg, bs, budget) == Some((SequenceField(def, elems), used)) <==>
            used <= |bs| && SequenceForm(def, reg, bs[..used], budget, elems)
  {
    hide Vlc.Decode, Number, Elements, D.DecodeElems, D.DecodeSequence;
    var r := Vlc.Decode(bs, false);
    DecodesNumber(bs, |elems|, 1);
    NullFirst(bs, used);
    if r.Some? && r.value.0.Null? {
      NullIsFirst(bs);
      NullSequence(def, reg, bs, budget);
    } else if r.Some? {
      WordIsWithin(bs);
      CountedSequence(def, reg, bs, budget, r.value.1, r.value.0.u, elems, used);
    } else {
      assert D.DecodeSequence(def, reg, bs, budget, 0, []) == None by { NothingToRead(def, reg, bs, budget); }
    }
    SequenceCounted(def, reg, bs, budget, elems, used);
  }

  lemma NothingToRead(def: O.FieldDef, reg: O.Registry, bs: seq<byte>, budget: nat)
    requires |bs| <= budget && Vlc.Decode(bs, false) == None
    ensures D.DecodeSequence(def, reg, bs, budget, 0, []) == None
  {
    hide Vlc.Decode, D.DecodeContent;
  }

  lemma NullIsFirst(bs: seq<byte>)
    requires Vlc.Decode(bs, false).Some? && Vlc.Decode(bs, false).value.0.Null?
    ensures Vlc.Decode(bs, false).value.1 == 1 <= |bs| && bs[0] == 0xc0
  {
    hide Vlc.Decode;
    DecodesNumber(bs, 0, Vlc.Decode(bs, false).value.1);
  }

  lemma WordIsWithin(bs: seq<byte>)
    requires Vlc.Decode(bs, false).Some? && Vlc.Decode(bs, false).value.0.Word?
    ensures Vlc.Decode(bs, false).value.1 <= |bs| && bs != [] && bs[0] != 0xc0
  {
    hide Vlc.Decode, Number;
    DecodesNumber(bs, Vlc.Decode(bs, false).value.0.u, Vlc.Decode(bs, false).value.1);
    DecodesNumber(bs, 0, 1);
  }

  /** A counted sequence, by its count. */
  lemma SequenceCounted(def: O.FieldDef, reg: O.Registry, bs: seq<byte>, budget: nat, elems: seq<O.Value>, used: nat)
    requires |bs| <= budget && |elems| < 0xffff_ffff
    ensures (exists k :: 0 <= k <= used <= |bs| && Number(bs[..used][..k], |elems|)
                         && Elements(def, reg, bs[..used][k..], budget - k, elems))
            <==> exists k :: 0 <= k <= used && k <= |bs| && Vlc.Decode(bs, false) == Some((Vlc.Word(|elems|), k))
                             && D.DecodeElems(def, reg, bs[k..], budget - k, |elems|) == Some((elems, used - k))
  {
    hide Vlc.Decode, Number, Elements, D.DecodeElems;
    if k :| 0 <= k <= used <= |bs| && Number(bs[..used][..k], |elems|)
            && Elements(def, reg, bs[..used][k..], budget - k, elems) {
      Within(bs, k, used);
      assert bs[k..used] == bs[k..][..used - k];
      DecodesNumber(bs, |elems|, k);
      ElementsRead(def, reg, bs[k..], budget - k, elems, used - k);
    }
    if k :| 0 <= k <= used && k <= |bs| && Vlc.Decode(bs, false) == Some((Vlc.Word(|elems|), k))
            && D.DecodeElems(def, reg, bs[k..], budget - k, |elems|) == Some((elems, used - k)) {
      DecodesNumber(bs, |elems|, k);
      ElementsRead(def, reg, bs[k..], budget - k, elems, used - k);
      Within(bs, k, used);
      assert bs[k..used] == bs[k..][..used - k];
    }
  }

  /** The brackets of a field, and no others on its chain of references, make it a sequence. */
  lemma BracketsRead(nss: Namespaces, f: Field, overlap: Misread, reg: O.Registry, bs: seq<byte>, budget: nat,
                     elems: seq<O.Value>, used: nat)
    requires Linked(nss) && Settled(nss, f.ty) && f.ty.isSequence && |bs| <= budget && |elems| < 0xffff_ffff
    ensures var def := FieldDefOf(nss, f, overlap);
            D.DecodeField(def, reg, bs, budget) == Some((SequenceField(def, elems), used)) <==>
              used <= |bs| && SequenceForm(def, reg, bs[..used], budget, elems)
  {
    hide Linked, Settled, TypeOf, SequenceForm, D.DecodeField;
    SequenceReads(FieldDefOf(nss, f, overlap), reg, bs, budget, elems, used);
  }

  lemma SingleReads(nss: Namespaces, f: Field, overlap: Misread, reg: O.Registry, bs: seq<byte>, budget: nat,
                    v: O.Value, marks: bool, used: nat)
    requires Linked(nss) && Settled(nss, f.ty) && !f.ty.isSequence && |bs| <= budget
    ensures var def := FieldDefOf(nss, f, overlap);
            D.DecodeField(def, reg, bs, budget) == Some((O.Field(def, marks, O.Single(v)), used)) <==>
              D.DecodeValue(def, reg, bs, budget) == Some(D.Got(v, marks, used))
  {
    hide Linked, Settled, TypeOf, D.DecodeValue;
  }

  // ------------------------------------------------------------------------ messages

  /** bs is these fields, one behind the other. */
  ghost predicate FieldsForm(defs: seq<O.FieldDef>, reg: O.Registry, bs: seq<byte>, fs: seq<O.Field>)
    decreases defs
  {
    if defs == [] then bs == [] && fs == []
    else fs != [] && exists n :: 0 <= n <= |bs| && D.DecodeField(defs[0], reg, bs[..n], |bs|) == Some((fs[0], n))
                                 && FieldsForm(defs[1..], reg, bs[n..], fs[1..])
  }

  lemma {:induction false} FieldsWhole(defs: seq<O.FieldDef>, reg: O.Registry, bs: seq<byte>, fs: seq<O.Field>)
    ensures D.DecodeFields(defs, reg, bs, |bs|) == Some((fs, |bs|)) <==> FieldsForm(defs, reg, bs, fs)
    decreases defs
  {
    hide D.DecodeField, D.DecodeFields, D.Agree;
    if defs == [] {
      NoFieldsLeft(reg, bs);
    } else {
      if D.DecodeFields(defs, reg, bs, |bs|) == Some((fs, |bs|)) {
        SomeField(defs, reg, bs);
        var (f, n) := D.DecodeField(defs[0], reg, bs, |bs|).value;
        D.FieldsStep(defs, reg, bs, |bs|, f, n);
        FieldThere(defs[0], reg, bs, f, n);
        FieldsWhole(defs[1..], reg, bs[n..], fs[1..]);
      }
      if FieldsForm(defs, reg, bs, fs) {
        var n :| 0 <= n <= |bs| && D.DecodeField(defs[0], reg, bs[..n], |bs|) == Some((fs[0], n))
                 && FieldsForm(defs[1..], reg, bs[n..], fs[1..]);
        FieldThere(defs[0], reg, bs, fs[0], n);
        FieldsWhole(defs[1..], reg, bs[n..], fs[1..]);
        D.FieldsStep(defs, reg, bs, |bs|, fs[0], n);
        assert [fs[0]] + fs[1..] == fs;
      }
    }
  }

  lemma NoFieldsLeft(reg: O.Registry, bs: seq<byte>)
    ensures D.DecodeFields([], reg, bs, |bs|) == Some(([], 0))
  {
  }

  lemma SomeField(defs: seq<O.FieldDef>, reg: O.Registry, bs: seq<byte>)
    requires defs != [] && D.DecodeFields(defs, reg, bs, |bs|).Some?
    ensures D.DecodeField(defs[0], reg, bs, |bs|).Some?
  {
    hide D.DecodeField;
  }

  /** A field with something behind it or nothing. */
  lemma FieldThere(def: O.FieldDef, reg: O.Registry, bs: seq<byte>, f: O.Field, n: nat)
    requires n <= |bs|
    ensures D.DecodeField(def, reg, bs[..n], |bs|) == Some((f, n)) <==>
            D.DecodeField(def, reg, bs, |bs|) == Some((f, n))
  {
    hide D.DecodeField, D.Agree;
    AgreeFirst(bs, n);
    if D.DecodeField(def, reg, bs[..n], |bs|) == Some((f, n)) { D.FieldLocal(def, reg, bs[..n], |bs|, bs, |bs|); }
    if D.DecodeField(def, reg, bs, |bs|) == Some((f, n)) { D.FieldLocal(def, reg, bs, |bs|, bs[..n], |bs|); }
  }

  /** The first k bytes are a size, not zero and of 32 bits, that the rest has exactly, and the
      next up to m an ID. */
  ghost predicate Head(bs: seq<byte>, k: nat, m: nat, size: nat, id: uint64) {
    && k <= m <= |bs| == k + size && 0 < size <= 0xffff_ffff && Number(bs[..k], size) && Number(bs[k..m], id)
  }

  /** bs is one message: its size, the ID of a group, and fields of that group that fill the size
      exactly. */
  ghost predicate Message(reg: O.Registry, bs: seq<byte>, o: O.Obj) {
    exists k: nat, m: nat, size: nat, id: uint64 :: Head(bs, k, m, size, id) && Holds(reg, bs, m, id, o)
  }

  ghost predicate Holds(reg: O.Registry, bs: seq<byte>, m: nat, id: uint64, o: O.Obj) {
    m <= |bs| && O.GroupById(reg, id) == Some(o.def) && FieldsForm(o.def.fields, reg, bs[m..], o.fields)
  }

  /** The same in the decoder's words. */
  ghost predicate HeadDecodes(bs: seq<byte>, used: nat, k: nat, m: nat, size: nat, id: uint64) {
    && k <= m <= used == k + size <= |bs| && 0 < size <= 0xffff_ffff
    && Vlc.Decode(bs, false) == Some((Vlc.Word(size), k))
    && Vlc.Decode(bs[k..used], false) == Some((Vlc.Word(id), m - k))
  }

  lemma HeadIs(bs: seq<byte>, used: nat, k: nat, m: nat, size: nat, id: uint64)
    requires used <= |bs|
    ensures Head(bs[..used], k, m, size, id) <==> HeadDecodes(bs, used, k, m, size, id)
  {
    hide Vlc.Decode, Number;
    if k <= m <= used && size <= 0xffff_ffff {
      Within(bs, k, used);
      DecodesNumber(bs, size, k);
      DecodesNumber(bs[k..used], id, m - k);
      assert bs[k..used][..m - k] == bs[..used][k..m];
    }
  }

  lemma BehindHead(reg: O.Registry, bs: seq<byte>, used: nat, k: nat, m: nat, size: nat, id: uint64, o: O.Obj)
    requires HeadDecodes(bs, used, k, m, size, id)
    ensures D.Decode(reg, bs) == Some((o, used)) <==>
            && O.GroupById(reg, id) == Some(o.def)
            && D.DecodeFields(o.def.fields, reg, bs[m..used], used - m) == Some((o.fields, used - m))
  {
    hide Vlc.Decode, D.DecodeFields, O.GroupById;
    assert D.Window(bs[k..], size) == bs[k..used];
    assert bs[k..used][m - k..] == bs[m..used];
    D.GroupByIdIn(reg, id);
  }

  /** A message that is not complete is none. */
  lemma Complete(reg: O.Registry, bs: seq<byte>) returns (k: nat, m: nat, size: nat, id: uint64)
    requires D.Decode(reg, bs).Some?
    ensures HeadDecodes(bs, D.Decode(reg, bs).value.1, k, m, size, id)
  {
    hide Vlc.Decode, D.DecodeFields, O.GroupById;
    var n := Vlc.ReadUnsigned(bs, UINT32_MAX).value;
    size, k := n.0.u, n.1;
    var window := D.Window(bs[k..], size);
    var i := Vlc.Decode(window, false).value;
    id, m := i.0.u, k + i.1;
    WordIsWithin(window);
    D.GroupByIdIn(reg, id);
    assert window == bs[k..k + size];
  }

  /** Decoding comes out with exactly the message that stands there: it has no other result,
      and no other bytes have this one. */
  lemma MessageReads(reg: O.Registry, bs: seq<byte>, o: O.Obj, used: nat)
    ensures D.Decode(reg, bs) == Some((o, used)) <==> used <= |bs| && Message(reg, bs[..used], o)
  {
    hide *;
    if D.Decode(reg, bs) == Some((o, used)) {
      var k, m, size, id := Complete(reg, bs);
      SameHead(reg, bs, used, k, m, size, id, o);
      MessageOf(reg, bs[..used], k, m, size, id, o);
    }
    if used <= |bs| && Message(reg, bs[..used], o) {
      var k, m, size, id := MessageHas(reg, bs[..used], o);
      HeadIs(bs, used, k, m, size, id);
      SameHead(reg, bs, used, k, m, size, id, o);
    }
  }

  lemma MessageOf(reg: O.Registry, bs: seq<byte>, k: nat, m: nat, size: nat, id: uint64, o: O.Obj)
    requires Head(bs, k, m, size, id) && Holds(reg, bs, m, id, o)
    ensures Message(reg, bs, o)
  {
    hide Head, Holds;
  }

  lemma MessageHas(reg: O.Registry, bs: seq<byte>, o: O.Obj) returns (k: nat, m: nat, size: nat, id: uint64)
    requires Message(reg, bs, o)
    ensures Head(bs, k, m, size, id) && Holds(reg, bs, m, id, o)
  {
    hide Head, Holds;
    k, m, size, id :| Head(bs, k, m, size, id) && Holds(reg, bs, m, id, o);
  }

  lemma SameHead(reg: O.Registry, bs: seq<byte>, used: nat, k: nat, m: nat, size: nat, id: uint64, o: O.Obj)
    requires HeadDecodes(bs, used, k, m, size, id)
    ensures used <= |bs| && Head(bs[..used], k, m, size, id)
    ensures D.Decode(reg, bs) == Some((o, used)) <==> Holds(reg, bs[..used], m, id, o)
  {
    hide Vlc.Decode, Number, D.Decode, D.DecodeFields, O.GroupById, FieldsForm;
    HeadIs(bs, used, k, m, size, id);
    BehindHead(reg, bs, used, k, m, size, id, o);
    FieldsWhole(o.def.fields, reg, bs[m..used], o.fields);
    assert bs[..used][m..] == bs[m..used];
  }
}
