/** What decoding makes of the bytes the encoder writes for a flat group, and exactly when it
    is the group that was encoded. */
module ObjectRoundTrip {
  import opened Base
  import opened Objects
  import E = ObjectEncode
  import D = ObjectDecode
  import S = Streams
  import Vlc

  // -------------------------------------------------------------- typed objects

  /** The value is one a field of this definition can hold. Doubles are excluded: they are
      written as a bit pattern and read back as a number. */
  ghost predicate Fits(def: FieldDef, v: Value) {
    && Kind(def.ty, v) && !v.Double?
    && (def.ty.TFixed? ==> |v.data| == def.size)
    && (v.Unsigned? ==> v.u <= D.UnsignedLimit(def.ty))
    && (v.Signed? ==> -D.SignedLimit(def.ty) - 1 <= v.i <= D.SignedLimit(def.ty))
    && (def.ty.TEnum? ==> v.i in def.symbols)
  }

  function Absence(def: FieldDef): Data {
    if def.isSequence then Sequence(0, []) else Single(Blank)
  }

  ghost predicate TypedField(f: Field) {
    && (if !f.initialised then f.def.isOptional && f.data == Absence(f.def)
        else
          && f.def.isSequence == f.data.Sequence?
          && (f.data.Sequence? ==> f.data.count == |f.data.elems|)
          && forall v :: v in Values(f) ==> Fits(f.def, v))
  }

  ghost predicate TypedFields(fs: seq<Field>) {
    forall f :: f in fs ==> TypedField(f)
  }

  function Defs(fs: seq<Field>): (ds: seq<FieldDef>)
    ensures |ds| == |fs|
    ensures forall i :: 0 <= i < |fs| ==> ds[i] == fs[i].def
  {
    if fs == [] then [] else [fs[0].def] + Defs(fs[1..])
  }

  /** A complete and well-typed object of a group that its ID identifies in the schema. */
  ghost predicate Typed(o: Obj, reg: Registry) {
    && o.def.fields == Defs(o.fields) && TypedFields(o.fields)
    && o.def.id.Some? && GroupById(reg, o.def.id.value) == Some(o.def)
    && E.SizeOf(o, false).Some? && E.SizeOf(o, false).value + 9 < TWO_32
  }

  /** No group is nested in the field, and its counter of elements does not run over. */
  ghost predicate Straight(f: Field) {
    && (forall v :: v in Values(f) ==> !v.Nested?)
    && (f.initialised && f.data.Sequence? ==> f.data.count < UINT32_MAX)
  }

  ghost predicate StraightFields(fs: seq<Field>) {
    forall f :: f in fs ==> Straight(f)
  }

  // ------------------------------------------------------------- what comes back

  /** Does the handler mark a single field holding v as initialised? */
  predicate Marks(def: FieldDef, v: Value) {
    !def.ty.TU16? && !(IsString(def.ty) && v == Bytes([]))
  }

  /** The field the decoder builds from the bytes of f. */
  function Returned(f: Field): Field {
    if !f.initialised then f
    else match f.data
      case Single(v) => f.(initialised := Marks(f.def, v))
      case Sequence(_, _) => f.(initialised := false)
  }

  /** The same object as far as a decoded object can show it: sequences are compared by size
      and elements, since decoding never marks them initialised. */
  function Shown(f: Field): Field {
    if f.data.Sequence? then f.(initialised := false) else f
  }

  function MapReturned(fs: seq<Field>): (r: seq<Field>)
    ensures |r| == |fs| && forall i :: 0 <= i < |fs| ==> r[i] == Returned(fs[i])
  {
    if fs == [] then [] else [Returned(fs[0])] + MapReturned(fs[1..])
  }

  function MapShown(fs: seq<Field>): (r: seq<Field>)
    ensures |r| == |fs| && forall i :: 0 <= i < |fs| ==> r[i] == Shown(fs[i])
  {
    if fs == [] then [] else [Shown(fs[0])] + MapShown(fs[1..])
  }

  function FieldBytes(f: Field): seq<byte> {
    Flatten(E.FieldOut(f, false).chunks)
  }

  function BodyBytes(fs: seq<Field>): seq<byte> {
    Flatten(E.FieldsOut(fs, false).chunks)
  }

  function ValueBytes(def: FieldDef, v: Value): seq<byte> {
    Flatten(E.ValueOut(def, v, false).chunks)
  }

  function ElemBytes(def: FieldDef, vs: seq<Value>): seq<byte> {
    Flatten(E.ValuesOut(def, vs, false).chunks)
  }

  // ------------------------------------------------------------------- values

  lemma ReadUnsignedBack(u: uint64, limit: uint64, rest: seq<byte>)
    requires u <= limit
    ensures Vlc.ReadUnsigned(Vlc.Encode(u, false) + rest, limit) == Some((Vlc.Word(u), Vlc.SizeofUnsigned(u)))
  {
    hide Vlc.Decode, Vlc.Encode;
    Vlc.RoundTrip(u, false, rest);
  }

  lemma ReadSignedBack(i: int64, lo: int64, hi: int64, rest: seq<byte>)
    requires lo <= i <= hi
    ensures Vlc.ReadSigned(Vlc.Encode(Vlc.AsWord(i), true) + rest, lo, hi) ==
                  Some((Vlc.Word(Vlc.AsWord(i)), Vlc.SizeofSigned(i)))
  {
    hide Vlc.Decode, Vlc.Encode;
    Vlc.RoundTrip(Vlc.AsWord(i), true, rest);
  }

  lemma ValueBack(def: FieldDef, v: Value, reg: Registry, rest: seq<byte>, budget: nat)
    requires Fits(def, v) && !v.Nested?
    ensures var bs := ValueBytes(def, v);
            D.DecodeValue(def, reg, bs + rest, budget) == Some(D.Got(v, Marks(def, v), |bs|))
  {
    hide D.DecodeString, D.DecodeFixed, D.DecodeDecimal, D.DecodeUnsigned, D.DecodeSigned, D.DecodeEnum, Vlc.Encode,
         Vlc.Decode;
    match v
    case Bytes(data) => if def.ty.TFixed? { FixedBack(def, data, rest); } else { StringBack(def, data, rest); }
    case Decimal(m, e) => DecimalBack(def, m, e, rest);
    case Signed(i) => if def.ty.TEnum? { EnumBack(def, i, rest); } else { SignedBack(def, i, rest); }
    case Unsigned(u) => UnsignedBack(def, v, u, rest);
    case Boolean(b) => UnsignedBack(def, v, if b then 1 else 0, rest);
  }

  lemma StringBack(def: FieldDef, data: seq<byte>, rest: seq<byte>)
    requires IsString(def.ty) && |data| <= UINT32_MAX
    ensures var bs := ValueBytes(def, Bytes(data));
            D.DecodeString(def, bs + rest) == Some(D.Got(Bytes(data), data != [], |bs|))
  {
    hide Vlc.Encode, Vlc.ReadUnsigned;
    var head := Vlc.Encode(|data|, false);
    assert E.ValueOut(def, Bytes(data), false).chunks == [head, data];
    E.FlattenTwo(head, data);
    assert ValueBytes(def, Bytes(data)) == head + data;
    MiddleSlice(head, data, rest);
    ReadUnsignedBack(|data|, UINT32_MAX, data + rest);
  }

  lemma Front(a: seq<byte>, b: seq<byte>, c: seq<byte>)
    ensures a + b + c == a + (b + c) && (a + b + c)[|a|..] == b + c
  {
  }

  lemma MiddleSlice(a: seq<byte>, b: seq<byte>, c: seq<byte>)
    ensures a + b + c == a + (b + c)
    ensures (a + b + c)[|a|..|a| + |b|] == b
  {
  }

  lemma FixedBack(def: FieldDef, data: seq<byte>, rest: seq<byte>)
    requires def.ty.TFixed? && |data| == def.size
    ensures var bs := ValueBytes(def, Bytes(data));
            D.DecodeFixed(def, bs + rest) == Some(D.Got(Bytes(data), true, |bs|))
  {
    var head: seq<byte> := if def.isOptional then [Vlc.PRESENT_BYTE] else [];
    if def.isOptional {
      assert E.ValueOut(def, Bytes(data), false).chunks == [head, data];
      E.FlattenTwo(head, data);
    } else {
      assert E.ValueOut(def, Bytes(data), false).chunks == [data];
      FlattenOne(data);
    }
    var bs := head + data;
    assert ValueBytes(def, Bytes(data)) == bs;
    MiddleSlice(head, data, rest);
  }

  lemma UnsignedBack(def: FieldDef, v: Value, u: uint64, rest: seq<byte>)
    requires !IsSigned(def.ty) && Fits(def, v) && u <= D.UnsignedLimit(def.ty)
    requires v == if def.ty.TBool? then Boolean(u != 0) else Unsigned(u)
    ensures var bs := ValueBytes(def, v);
            D.DecodeUnsigned(def, bs + rest) == Some(D.Got(v, !def.ty.TU16?, |bs|))
  {
    hide Vlc.Encode, Vlc.ReadUnsigned;
    assert E.ValueOut(def, v, false).chunks == [Vlc.Encode(u, false)];
    FlattenOne(Vlc.Encode(u, false));
    ReadUnsignedBack(u, D.UnsignedLimit(def.ty), rest);
  }

  lemma SignedBack(def: FieldDef, i: int64, rest: seq<byte>)
    requires -D.SignedLimit(def.ty) - 1 <= i <= D.SignedLimit(def.ty)
    ensures var bs := ValueBytes(def, Signed(i));
            D.DecodeSigned(def, bs + rest) == Some(D.Got(Signed(i), true, |bs|))
  {
    hide Vlc.Encode, Vlc.ReadSigned;
    assert E.ValueOut(def, Signed(i), false).chunks == [Vlc.Encode(Vlc.AsWord(i), true)];
    FlattenOne(Vlc.Encode(Vlc.AsWord(i), true));
    ReadSignedBack(i, -D.SignedLimit(def.ty) - 1, D.SignedLimit(def.ty), rest);
  }

  lemma EnumBack(def: FieldDef, i: int64, rest: seq<byte>)
    requires def.ty.TEnum? && -0x8000_0000 <= i <= 0x7fff_ffff && i in def.symbols
    ensures var bs := ValueBytes(def, Signed(i));
            D.DecodeEnum(def, bs + rest) == Some(D.Got(Signed(i), true, |bs|))
  {
    hide Vlc.Encode, Vlc.ReadSigned;
    assert E.ValueOut(def, Signed(i), false).chunks == [Vlc.Encode(Vlc.AsWord(i), true)];
    FlattenOne(Vlc.Encode(Vlc.AsWord(i), true));
    ReadSignedBack(i, -0x8000_0000, 0x7fff_ffff, rest);
  }

  lemma DecimalBack(def: FieldDef, m: int64, e: int8, rest: seq<byte>)
    ensures var bs := ValueBytes(def, Decimal(m, e));
            D.DecodeDecimal(def, bs + rest) == Some(D.Got(Decimal(m, e), true, |bs|))
  {
    hide Vlc.Encode, Vlc.ReadSigned, Vlc.Decode;
    var a, b := Vlc.Encode(Vlc.AsWord(e), true), Vlc.Encode(Vlc.AsWord(m), true);
    assert E.ValueOut(def, Decimal(m, e), false).chunks == [a, b];
    E.FlattenTwo(a, b);
    var bs := a + b + rest;
    assert bs == a + (b + rest);
    ReadSignedBack(e, -128, 127, b + rest);
    assert bs[|a|..] == b + rest;
    Vlc.RoundTrip(Vlc.AsWord(m), true, rest);
  }

  // ------------------------------------------------------------------- fields

  lemma ElemsNone(def: FieldDef)
    ensures ElemBytes(def, []) == []
  {
  }

  lemma ElemsOut(def: FieldDef, vs: seq<Value>)
    requires vs != [] && !vs[0].Nested?
    ensures ElemBytes(def, vs) == ValueBytes(def, vs[0]) + ElemBytes(def, vs[1..])
  {
    FlattenAppend(E.ValueOut(def, vs[0], false).chunks, E.ValuesOut(def, vs[1..], false).chunks);
  }

  lemma {:induction false} ElemsBack(def: FieldDef, vs: seq<Value>, reg: Registry, rest: seq<byte>, budget: nat)
    requires forall v :: v in vs ==> Fits(def, v) && !v.Nested?
    requires |ElemBytes(def, vs) + rest| <= budget
    ensures D.DecodeElems(def, reg, ElemBytes(def, vs) + rest, budget, |vs|) == Some((vs, |ElemBytes(def, vs)|))
    decreases |vs|
  {
    hide D.DecodeElems, D.DecodeValue, ValueBytes, ElemBytes, Marks, Fits;
    if vs == [] {
      NoElems(def, reg, rest, budget);
    } else {
      var a, b := ValueBytes(def, vs[0]), ElemBytes(def, vs[1..]);
      assert vs[0] in vs;
      ElemsOut(def, vs);
      Front(a, b, rest);
      ValueBack(def, vs[0], reg, b + rest, budget);
      ElemsBack(def, vs[1..], reg, rest, budget - |a|);
      D.ElemsStep(def, reg, ElemBytes(def, vs) + rest, budget, |vs|, D.Got(vs[0], Marks(def, vs[0]), |a|));
      assert [vs[0]] + vs[1..] == vs;
    }
  }

  lemma NoElems(def: FieldDef, reg: Registry, rest: seq<byte>, budget: nat)
    requires |rest| <= budget
    ensures ElemBytes(def, []) == [] && D.DecodeElems(def, reg, ElemBytes(def, []) + rest, budget, 0) == Some(([], 0))
  {
    ElemsNone(def);
  }

  lemma NullBack(rest: seq<byte>)
    ensures Vlc.Decode([Vlc.NULL_BYTE] + rest, false) == Some((Vlc.Null, 1))
    ensures Vlc.Decode([Vlc.NULL_BYTE] + rest, true) == Some((Vlc.Null, 1))
  {
  }

  lemma AbsentBack(def: FieldDef, reg: Registry, rest: seq<byte>, budget: nat)
    requires def.isOptional && 1 + |rest| <= budget
    ensures D.DecodeField(def, reg, [Vlc.NULL_BYTE] + rest, budget) == Some((Field(def, false, Absence(def)), 1))
  {
    hide Vlc.Decode;
    NullBack(rest);
    if !def.isSequence {
      assert D.DecodeValue(def, reg, [Vlc.NULL_BYTE] + rest, budget) == Some(D.Got(Blank, false, 1)) by {
        AbsentValueBack(def, reg, rest, budget);
      }
    }
  }

  lemma AbsentValueBack(def: FieldDef, reg: Registry, rest: seq<byte>, budget: nat)
    requires def.isOptional
    ensures D.DecodeValue(def, reg, [Vlc.NULL_BYTE] + rest, budget) == Some(D.Got(Blank, false, 1))
  {
    hide Vlc.Decode;
    NullBack(rest);
  }

  lemma SequenceBack(def: FieldDef, count: uint32, elems: seq<Value>, reg: Registry, rest: seq<byte>, budget: nat)
    requires (forall v :: v in elems ==> Fits(def, v) && !v.Nested?) && count == |elems| < UINT32_MAX
    requires |Vlc.Encode(count, false) + ElemBytes(def, elems) + rest| <= budget
    ensures var bs := Vlc.Encode(count, false) + ElemBytes(def, elems);
            D.DecodeSequence(def, reg, bs + rest, budget, 0, []) ==
              Some((Field(def, false, Sequence(count, elems)), |bs|))
  {
    hide D.DecodeElems, Vlc.ReadUnsigned, Vlc.Encode, ElemBytes, Fits;
    var head, body := Vlc.Encode(count, false), ElemBytes(def, elems);
    assert head + body + rest == head + (body + rest);
    assert (head + (body + rest))[|head|..] == body + rest;
    ReadUnsignedBack(count, UINT32_MAX, body + rest);
    ElemsBack(def, elems, reg, rest, budget - |head|);
    assert [] + elems == elems;
  }

  lemma FieldBack(f: Field, reg: Registry, rest: seq<byte>, budget: nat)
    requires TypedField(f) && Straight(f) && |FieldBytes(f) + rest| <= budget
    ensures D.DecodeField(f.def, reg, FieldBytes(f) + rest, budget) == Some((Returned(f), |FieldBytes(f)|))
  {
    hide D.DecodeValue, D.DecodeSequence, Vlc.Encode, Marks, Fits;
    if !f.initialised {
      FlattenOne([Vlc.NULL_BYTE]);
      AbsentBack(f.def, reg, rest, budget);
    } else {
      match f.data
      case Single(v) =>
        assert v in Values(f);
        ValueBack(f.def, v, reg, rest, budget);
      case Sequence(count, elems) =>
        FlattenCons(Vlc.Encode(count, false), E.ValuesOut(f.def, elems, false).chunks);
        SequenceBack(f.def, count, elems, reg, rest, budget);
    }
  }

  lemma {:induction false} FlatOut(fs: seq<Field>)
    requires TypedFields(fs) && StraightFields(fs)
    ensures !E.FieldsOut(fs, false).stopped
    ensures fs != [] ==> BodyBytes(fs) == FieldBytes(fs[0]) + BodyBytes(fs[1..])
  {
    if fs != [] {
      FlatOut(fs[1..]);
      TypedShaped(fs[0]);
      E.FlatField(fs[0]);
      E.RepairedField(fs[0]);
      FlattenAppend(E.FieldOut(fs[0], false).chunks, E.FieldsOut(fs[1..], false).chunks);
    }
  }

  lemma TypedShaped(f: Field)
    requires TypedField(f) && Straight(f)
    ensures ShapedField(f) && forall v :: v in Values(f) ==> !v.Nested?
  {
  }

  /** The body of a typed straight group decodes into the returned fields and is used exactly. */
  lemma {:induction false} BodyBack(fs: seq<Field>, reg: Registry, rest: seq<byte>, budget: nat)
    requires TypedFields(fs) && StraightFields(fs) && |BodyBytes(fs) + rest| <= budget
    ensures D.DecodeFields(Defs(fs), reg, BodyBytes(fs) + rest, budget) == Some((MapReturned(fs), |BodyBytes(fs)|))
    decreases fs
  {
    hide D.DecodeFields, FieldBytes, BodyBytes, Returned, TypedField, Straight;
    if fs == [] {
      NoBody(reg, rest, budget);
    } else {
      FlatOut(fs);
      var a, b := FieldBytes(fs[0]), BodyBytes(fs[1..]);
      Front(a, b, rest);
      FieldBack(fs[0], reg, b + rest, budget);
      BodyBack(fs[1..], reg, rest, budget - |a|);
      assert Defs(fs)[1..] == Defs(fs[1..]);
      D.FieldsStep(Defs(fs), reg, BodyBytes(fs) + rest, budget, Returned(fs[0]), |a|);
    }
  }

  lemma NoBody(reg: Registry, rest: seq<byte>, budget: nat)
    requires |rest| <= budget
    ensures BodyBytes([]) == [] && D.DecodeFields(Defs([]), reg, BodyBytes([]) + rest, budget) == Some(([], 0))
  {
    assert [] + rest == rest;
  }

  // ------------------------------------------------------------------- the law

  /** The bytes encodeCompact writes for the group. */
  function Wire(o: Obj): seq<byte> {
    Flatten(E.Chunks(o, false))
  }

  lemma WireParts(o: Obj, reg: Registry)
    requires Typed(o, reg) && StraightFields(o.fields)
    ensures var id := Vlc.Encode(o.def.id.value, false);
            var body := BodyBytes(o.fields);
            var max := |id| + |body| - E.OptionalFixed(o.fields);
            && |id| <= max < TWO_32 && max > 0
            && Wire(o) == Vlc.Encode(max, false) + (id + body)
  {
    hide Vlc.Encode, BodyBytes, E.Body, E.OptionalFixed, E.SizeOf, TypedField, Straight;
    var id, body := Vlc.Encode(o.def.id.value, false), BodyBytes(o.fields);
    BodyIs(o);
    assert Shaped(o) && E.Flat(o) by {
      forall f | f in o.fields ensures ShapedField(f) && forall v :: v in Values(f) ==> !v.Nested? { TypedShaped(f); }
    }
    E.FlatAccounting(o);
    var max := E.CachedSize(o) + |id|;
    var head := Vlc.Encode(max, false);
    assert E.Chunks(o, false) == [head, id] + E.Body(o, false).chunks;
    FlattenAppend([head, id], E.Body(o, false).chunks);
    E.FlattenTwo(head, id);
    assert (head + id) + body == head + (id + body);
  }

  lemma BodyIs(o: Obj)
    ensures Flatten(E.Body(o, false).chunks) == BodyBytes(o.fields)
  {
  }

  /** Reading a typed group's own frame: the field list comes back as `MapReturned`, unless
      the declared size is short, and then nothing does. */
  lemma WireBack(o: Obj, reg: Registry, rest: seq<byte>)
    requires Typed(o, reg) && StraightFields(o.fields)
    ensures D.Decode(reg, Wire(o) + rest) ==
              if E.OptionalFixed(o.fields) == 0 then Some((Obj(o.def, MapReturned(o.fields)), |Wire(o)|)) else None
  {
    hide Vlc.Encode, Vlc.ReadUnsigned, D.DecodeFrame, E.OptionalFixed, E.SizeOf, BodyBytes, Wire, MapReturned,
         TypedField, Straight;
    WireParts(o, reg);
    var id, body, short := Vlc.Encode(o.def.id.value, false), BodyBytes(o.fields), E.OptionalFixed(o.fields);
    var max := |id| + |body| - short;
    var head := Vlc.Encode(max, false);
    Front(head, id + body, rest);
    ReadUnsignedBack(max, UINT32_MAX, id + body + rest);
    WindowIs(id, body, rest, max);
    if short == 0 { FrameBack(o, reg); } else { ShortFrame(o, reg, |body| - short); }
  }

  lemma WindowIs(id: seq<byte>, body: seq<byte>, rest: seq<byte>, max: nat)
    requires |id| <= max <= |id| + |body|
    ensures D.Window(id + body + rest, max) == id + body[..max - |id|]
  {
  }

  lemma FrameBack(o: Obj, reg: Registry)
    requires Typed(o, reg) && StraightFields(o.fields)
    ensures var id, body := Vlc.Encode(o.def.id.value, false), BodyBytes(o.fields);
            D.DecodeFrame(reg, id + body[..|body|], |id| + |body|) == Some(Obj(o.def, MapReturned(o.fields)))
  {
    hide Vlc.Encode, Vlc.Decode, D.DecodeFields;
    var id, body := Vlc.Encode(o.def.id.value, false), BodyBytes(o.fields);
    assert body[..|body|] == body;
    Vlc.RoundTrip(o.def.id.value, false, body);
    assert (id + body)[|id|..] == body;
    assert body + [] == body;
    BodyBack(o.fields, reg, [], |body|);
  }

  lemma ShortFrame(o: Obj, reg: Registry, n: nat)
    requires Typed(o, reg) && StraightFields(o.fields) && n < |BodyBytes(o.fields)|
    ensures var id, body := Vlc.Encode(o.def.id.value, false), BodyBytes(o.fields);
            D.DecodeFrame(reg, id + body[..n], |id| + n) == None
  {
    hide Vlc.Encode, Vlc.Decode, D.DecodeFields;
    var id, body := Vlc.Encode(o.def.id.value, false), BodyBytes(o.fields);
    Vlc.RoundTrip(o.def.id.value, false, body[..n]);
    assert (id + body[..n])[|id|..] == body[..n];
    var r := D.DecodeFields(o.def.fields, reg, body[..n], n);
    if r.Some? && r.value.1 == n {
      assert body + [] == body;
      BodyBack(o.fields, reg, [], |body|);
      assert D.Agree(body[..n], body, n);
      D.FieldsLocal(o.def.fields, reg, body[..n], n, body, |body|);
      assert false;
    }
  }

  /** The fields of o that come back changed. */
  ghost predicate Unmarked(f: Field) {
    f.initialised && f.data.Single? && !Marks(f.def, f.data.v)
  }

  /** What a caller can check before encoding: no nested group, no sequence of 2^32 - 1 elements,
      no u16 and no empty string or binary in a single field, and no FIXED value in an optional
      field. */
  ghost predicate Faithful(o: Obj) {
    && StraightFields(o.fields)
    && (forall f :: f in o.fields ==> !Unmarked(f))
    && E.OptionalFixed(o.fields) == 0
  }

  /** Decoding what was encoded yields the object that was encoded if and only if it holds
      none of the values the code handles inconsistently. */
  lemma RoundTrip(o: Obj, reg: Registry, rest: seq<byte>)
    requires Typed(o, reg)
    ensures D.Decode(reg, Wire(o) + rest) == Some((Obj(o.def, MapShown(o.fields)), |Wire(o)|)) <==> Faithful(o)
    ensures var r := D.Decode(reg, Wire(o) + rest);
            r.Some? && r.value.0 == Obj(o.def, MapShown(o.fields)) ==> Faithful(o)
  {
    hide E.OptionalFixed, D.Decode, Straight, Unmarked, MapReturned, MapShown, Wire, Typed;
    if StraightFields(o.fields) {
      WireBack(o, reg, rest);
      ReturnedIsShown(o.fields);
    } else {
      var f :| f in o.fields && !Straight(f);
      NeverDecoded(o, f, reg, Wire(o) + rest);
    }
  }

  lemma ReturnedIsShown(fs: seq<Field>)
    ensures MapReturned(fs) == MapShown(fs) <==> forall f :: f in fs ==> !Unmarked(f)
  {
    var back, shown := MapReturned(fs), MapShown(fs);
    if forall f :: f in fs ==> !Unmarked(f) {
      forall i | 0 <= i < |back| ensures back[i] == shown[i] { assert fs[i] in fs; }
      assert back == shown;
    } else {
      var f :| f in fs && Unmarked(f);
      var i :| 0 <= i < |fs| && fs[i] == f;
      assert back[i] != shown[i];
    }
  }

  // ------------------------------------------------------------- what never comes back

  /** The data of a field, whether it is marked or not, is none a decoder can have made. */
  ghost predicate Undecodable(f: Field) {
    match f.data
    case Single(v) => v.Nested?
    case Sequence(count, elems) => count == UINT32_MAX || exists v :: v in elems && v.Nested?
  }

  /** No handler makes a group, and where a null is allowed each uses a byte. */
  ghost predicate Made(def: FieldDef, r: Option<D.Got>) {
    r.Some? ==> !r.value.v.Nested? && (def.isOptional ==> r.value.used >= 1)
  }

  lemma BytesMade(def: FieldDef, bs: seq<byte>)
    ensures Made(def, D.DecodeString(def, bs)) && Made(def, D.DecodeFixed(def, bs))
  {
    hide Vlc.Decode;
  }

  lemma NumbersMade(def: FieldDef, bs: seq<byte>)
    ensures Made(def, D.DecodeUnsigned(def, bs)) && Made(def, D.DecodeSigned(def, bs))
    ensures Made(def, D.DecodeEnum(def, bs))
  {
    hide Vlc.Decode;
  }

  lemma DecimalMade(def: FieldDef, bs: seq<byte>)
    ensures Made(def, D.DecodeDecimal(def, bs))
  {
    hide Vlc.Decode;
  }

  lemma GroupsMade(def: FieldDef, reg: Registry, bs: seq<byte>, budget: nat)
    ensures Made(def, D.DecodeStatic(def, bs)) && Made(def, D.DecodeDynamic(def, reg, bs, budget))
  {
    hide Vlc.Decode, D.OfKind;
  }

  lemma ValueMade(def: FieldDef, reg: Registry, bs: seq<byte>, budget: nat)
    ensures Made(def, D.DecodeValue(def, reg, bs, budget))
  {
    hide D.DecodeString, D.DecodeFixed, D.DecodeDynamic, D.DecodeDecimal, D.DecodeStatic, D.DecodeSigned,
         D.DecodeUnsigned, D.DecodeEnum;
    BytesMade(def, bs);
    NumbersMade(def, bs);
    DecimalMade(def, bs);
    GroupsMade(def, reg, bs, budget);
  }

  lemma {:induction false} ElemsMade(def: FieldDef, reg: Registry, bs: seq<byte>, budget: nat, count: nat)
    requires |bs| <= budget && D.DecodeElems(def, reg, bs, budget, count).Some?
    ensures var (vs, n) := D.DecodeElems(def, reg, bs, budget, count).value;
            (forall v :: v in vs ==> !v.Nested?) && (def.isOptional ==> n >= count)
    decreases count
  {
    hide D.DecodeValue;
    if count > 0 {
      ValueMade(def, reg, bs, budget);
      var used := D.DecodeValue(def, reg, bs, budget).value.used;
      ElemsMade(def, reg, bs[used..], budget - used, count - 1);
    }
  }

  /** No field of 2^32 - 1 elements can come out: after so many the next header is read, and to
      end with a null there takes an optional field, whose elements take a byte each. */
  lemma {:induction false} SequenceMade(def: FieldDef, reg: Registry, bs: seq<byte>, budget: nat, count: uint32,
                                        elems: seq<Value>)
    requires |bs| <= budget && D.DecodeSequence(def, reg, bs, budget, count, elems).Some?
    requires forall v :: v in elems ==> !v.Nested?
    ensures var (f, n) := D.DecodeSequence(def, reg, bs, budget, count, elems).value;
            && f.data.Sequence? && (forall v :: v in f.data.elems ==> !v.Nested?)
            && (f.data.count == UINT32_MAX ==> def.isOptional && (count == UINT32_MAX || n > UINT32_MAX))
    decreases |bs|, 0
  {
    hide D.DecodeContent, Vlc.Decode;
    var (v, n) := Vlc.ReadUnsigned(bs, UINT32_MAX).value;
    if v.Word? { ContentMade(def, reg, bs[n..], budget - n, v.u, v.u, elems); }
  }

  lemma {:induction false} ContentMade(def: FieldDef, reg: Registry, bs: seq<byte>, budget: nat, count: uint32,
                                       todo: nat, elems: seq<Value>)
    requires |bs| <= budget && D.DecodeContent(def, reg, bs, budget, count, todo, elems).Some?
    requires forall v :: v in elems ==> !v.Nested?
    ensures var (f, n) := D.DecodeContent(def, reg, bs, budget, count, todo, elems).value;
            && f.data.Sequence? && (forall v :: v in f.data.elems ==> !v.Nested?)
            && (f.data.count == UINT32_MAX ==> def.isOptional && n >= todo && count == UINT32_MAX)
    decreases |bs|, 1
  {
    hide D.DecodeSequence, D.DecodeElems;
    ElemsMade(def, reg, bs, budget, todo);
    var (vs, k) := D.DecodeElems(def, reg, bs, budget, todo).value;
    if count == UINT32_MAX { SequenceMade(def, reg, bs[k..], budget - k, count, elems + vs); }
  }

  lemma FieldMade(def: FieldDef, reg: Registry, bs: seq<byte>, budget: nat)
    requires |bs| <= budget && |bs| <= UINT32_MAX && D.DecodeField(def, reg, bs, budget).Some?
    ensures !Undecodable(D.DecodeField(def, reg, bs, budget).value.0)
  {
    hide D.DecodeValue, D.DecodeSequence;
    if def.isSequence { SequenceMade(def, reg, bs, budget, 0, []); } else { ValueMade(def, reg, bs, budget); }
  }

  lemma {:induction false} FieldsMade(defs: seq<FieldDef>, reg: Registry, bs: seq<byte>, budget: nat)
    requires |bs| <= budget && |bs| <= UINT32_MAX && D.DecodeFields(defs, reg, bs, budget).Some?
    ensures forall f :: f in D.DecodeFields(defs, reg, bs, budget).value.0 ==> !Undecodable(f)
    decreases defs
  {
    hide D.DecodeField, Undecodable;
    if defs != [] {
      FieldMade(defs[0], reg, bs, budget);
      var n := D.DecodeField(defs[0], reg, bs, budget).value.1;
      FieldsMade(defs[1..], reg, bs[n..], budget - n);
    }
  }

  /** Whatever is decoded, from whatever bytes, has no group nested in it and no sequence said
      to have 2^32 - 1 elements. */
  lemma DecodedIsStraight(reg: Registry, bs: seq<byte>)
    requires D.Decode(reg, bs).Some?
    ensures forall f :: f in D.Decode(reg, bs).value.0.fields ==> !Undecodable(f)
  {
    hide D.DecodeFields, Vlc.Decode, Undecodable, GroupById;
    var (size, k) := Vlc.ReadUnsigned(bs, UINT32_MAX).value;
    var window := D.Window(bs[k..], size.u);
    var (id, j) := Vlc.Decode(window, false).value;
    FieldsMade(GroupById(reg, id.u).value.fields, reg, window[j..], size.u - j);
  }

  lemma NeverDecoded(o: Obj, f: Field, reg: Registry, bs: seq<byte>)
    requires f in o.fields && !Straight(f)
    ensures D.Decode(reg, bs).Some? ==> D.Decode(reg, bs).value.0 != Obj(o.def, MapShown(o.fields))
  {
    hide D.Decode;
    if D.Decode(reg, bs).Some? {
      DecodedIsStraight(reg, bs);
      var i :| 0 <= i < |o.fields| && o.fields[i] == f;
      assert MapShown(o.fields)[i] == Shown(f) && Shown(f) in MapShown(o.fields);
      assert Undecodable(Shown(f));
    }
  }

  // -------------------------------------------------------------- through a stream

  /** Encoded into a buffer with room for it, then sought back to and decoded from there: the
      bytes are in the buffer in front of what was there, and the object comes back, through
      streams, if and only if it is one the code is consistent about. */
  lemma ThroughStream(o: Obj, reg: Registry, s: S.State)
    requires Typed(o, reg)
    requires s.Wf() && s.bounds == [] && s.readable && s.writable && s.pos < INT32_MAX && |Wire(o)| <= |s.mem| - s.pos
    ensures var (wrote, s1) := S.WriteAll(s, E.Chunks(o, false));
            var (sought, s2) := S.SeekSet(s1, s.pos);
            var r := D.Decode(reg, s2.Avail());
            && wrote && sought && s1 == S.Stamp(s, Wire(o)) && |Wire(o)| <= s2.Room() && s2.Advance(|Wire(o)|) == s1
            && (r.Some? && r.value.0 == Obj(o.def, MapShown(o.fields)) <==> Faithful(o))
            && (r.Some? && StraightFields(o.fields) ==> r.value.1 == |Wire(o)|)
  {
    hide D.Decode, E.Chunks, Typed, Faithful, Straight, S.WriteAll, S.Stamp, MapShown, MapReturned;
    S.WriteAllWindow(s, E.Chunks(o, false));
    S.StampBack(s, Wire(o));
    if StraightFields(o.fields) { WireBack(o, reg, s.mem[s.pos + |Wire(o)|..]); }
    RoundTrip(o, reg, s.mem[s.pos + |Wire(o)|..]);
  }

  /** Objects written one after another are read back one after another. */
  lemma ManyRoundTrip(os: seq<Obj>, reg: Registry, rest: seq<byte>)
    requires forall i :: 0 <= i < |os| ==> Typed(os[i], reg) && Faithful(os[i])
    ensures var wires := seq(|os|, i requires 0 <= i < |os| => Wire(os[i]));
            var shown := seq(|os|, i requires 0 <= i < |os| => Obj(os[i].def, MapShown(os[i].fields)));
            D.DecodeStream(reg, Flatten(wires) + rest, |os|) == Some((shown, rest))
  {
    hide D.Decode, Wire, Typed, Faithful, D.DecodeStream;
    var wires := seq(|os|, i requires 0 <= i < |os| => Wire(os[i]));
    var shown := seq(|os|, i requires 0 <= i < |os| => Obj(os[i].def, MapShown(os[i].fields)));
    forall i | 0 <= i < |os| ensures D.Decode(reg, wires[i]) == Some((shown[i], |wires[i]|)) {
      RoundTrip(os[i], reg, []);
      assert wires[i] + [] == wires[i];
    }
    D.StreamOfFrames(reg, wires, shown, rest);
  }

  // ------------------------------------------------------------- heads of nested groups

  /** The head written for a dynamic group is read as such: exactly if the cached size is not
      zero and fits into what is left of the parent, and the ID names a group of the right
      kind; and then exactly the head is used. */
  lemma DynamicHeadBack(def: FieldDef, g: Obj, reg: Registry, rest: seq<byte>, budget: nat)
    requires def.ty.TDynamicGroup? && g.def.id.Some?
    ensures var head := Flatten(E.GroupHead(def, g));
            var size, found := E.CachedSize(g), GroupById(reg, g.def.id.value);
            D.DecodeDynamic(def, reg, head + rest, budget) ==
              if size > 0 && budget - Vlc.SizeofUnsigned(size) >= size && found.Some? && def.group in found.value.kinds
              then Some(D.Got(Blank, false, |head|)) else None
  {
    hide Vlc.Encode, Vlc.Decode, Vlc.SizeofUnsigned, E.SizeOf, Vlc.ReadUnsigned;
    var size, id := E.CachedSize(g), g.def.id.value;
    var a, b := Vlc.Encode(size, false), Vlc.Encode(id, false);
    E.FlattenTwo(a, b);
    assert (a + b) + rest == a + (b + rest);
    assert (a + (b + rest))[|a|..] == b + rest;
    ReadUnsignedBack(size, UINT32_MAX, b + rest);
    Vlc.RoundTrip(size, false, b + rest);
    Vlc.RoundTrip(id, false, rest);
  }

  /** The presence byte of a static group is read as presence, and nothing more is used. */
  lemma StaticHeadBack(def: FieldDef, g: Obj, rest: seq<byte>)
    requires def.ty.TStaticGroup?
    ensures var head := Flatten(E.GroupHead(def, g));
            D.DecodeStatic(def, head + rest) == Some(D.Got(Blank, false, |head|))
  {
    if def.isOptional { FlattenOne([Vlc.PRESENT_BYTE]); }
  }
}
