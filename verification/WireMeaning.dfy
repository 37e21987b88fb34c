/** What a declared type means on the wire, and where a null is refused, over every byte string
    the decoder may be given. */
module WireMeaning {
  import opened Base
  import opened Schema
  import opened References
  import opened SchemaObjects
  import opened WireForm
  import opened Resolution
  import P = SchemaPrint
  import Parser
  import L = Lexer
  import O = Objects
  import D = ObjectDecode
  import Vlc

  // ------------------------------------------------------------------ declared types

  /** The field's declared type is the built-in type `tag`, directly or at the end of a chain of
      type definitions. */
  ghost predicate Declares(nss: Namespaces, f: Field, tag: IType)
    requires Linked(nss) && Settled(nss, f.ty)
  {
    if !f.ty.tag.IRef? then f.ty.tag == tag
    else var end := DefAt(nss, TerminalOf(nss, f.ty.resolved.value).0); end.TypeDef? && end.ty.tag == tag
  }

  /** The codec's type for a field is that of its end. A string, binary or fixed field has a size:
      its own, or if it is a reference what stands in its place. */
  lemma DefOfTag(nss: Namespaces, f: Field, overlap: Misread, tag: IType)
    requires Linked(nss) && Settled(nss, f.ty) && Declares(nss, f, tag) && tag != IRef
    ensures var def := FieldDefOf(nss, f, overlap);
            && def.ty == Translate(tag) && def.isOptional == f.isOptional
            && def.size ==
                 if tag != IString && tag != IBinary && tag != IFixed then 0
                 else if f.ty.tag.IRef? then overlap.size else f.ty.size
  {
    hide Linked, Settled, TypeOf, Translate, Node, Declares;
    TypeOfTag(nss, f, tag);
    SizedTypes(tag);
  }

  lemma TypeOfTag(nss: Namespaces, f: Field, tag: IType)
    requires Linked(nss) && Settled(nss, f.ty) && Declares(nss, f, tag) && tag != IRef
    ensures TypeOf(nss, f.ty) == Translate(tag)
  {
    hide Linked, Ends, TerminalOf, Translate;
  }

  lemma SizedTypes(tag: IType)
    requires tag != IRef
    ensures Translate(tag).TString? <==> tag == IString
    ensures Translate(tag).TBinary? <==> tag == IBinary
    ensures Translate(tag).TFixed? <==> tag == IFixed
  {
  }

  /** The codec's types by the names of their constants. */
  function NameOf(ty: O.Type): string {
    match ty
    case TString => "string"
    case TBinary => "binary"
    case TFixed => "fixed"
    case TBool => "bool"
    case TU8 => "u8"
    case TU16 => "u16"
    case TU32 => "u32"
    case TU64 => "u64"
    case TI8 => "i8"
    case TI16 => "i16"
    case TI32 => "i32"
    case TI64 => "i64"
    case TF64 => "f64"
    case TDate => "date"
    case TTimeOfDayMilli => "timeOfDayMilli"
    case TTimeOfDayNano => "timeOfDayNano"
    case TNanoTime => "nanotime"
    case TMilliTime => "millitime"
    case TDecimal => "decimal"
    case TObject => "object"
    case TEnum => "enum"
    case TStaticGroup => "static group"
    case TDynamicGroup => "dynamic group"
  }

  lemma NameOfTag(tag: IType)
    requires tag != IRef
    ensures NameOf(Translate(tag)) ==
              if tag == INanoTime then "nanotime" else if tag == IMilliTime then "millitime" else P.TypeWord(tag)
  {
  }

  /** A field whose type is declared with a keyword has the type of that name; but nanotime and
      millitime each have the other's. */
  lemma KeywordMeans(nss: Namespaces, f: Field, k: L.Key, tag: IType)
    requires Linked(nss) && Settled(nss, f.ty) && Declares(nss, f, tag) && Parser.ITypeOf(L.Keyword(k)) == Some(tag)
    ensures var word := L.Spelling(k);
            NameOf(TypeOf(nss, f.ty)) ==
              if word == "nanotime" then "millitime" else if word == "millitime" then "nanotime" else word
  {
    hide Linked, Settled, Declares, TypeOf, Translate, NameOf, L.Spelling, Parser.ITypeOf, P.TypeWord;
    P.TypeWords(k, tag);
    NoKeyIsRef(k);
    TypeOfTag(nss, f, tag);
    NameOfTag(tag);
    OtherWords(tag);
  }

  lemma NoKeyIsRef(k: L.Key)
    ensures Parser.ITypeOf(L.Keyword(k)) != Some(IRef)
  {
  }

  lemma OtherWords(tag: IType)
    ensures P.TypeWord(tag) == "nanotime" <==> tag == IMilliTime
    ensures P.TypeWord(tag) == "millitime" <==> tag == INanoTime
  {
  }

  lemma UnsignedTagReads(def: O.FieldDef, tag: IType, reg: O.Registry, bs: seq<byte>, budget: nat, got: D.Got)
    requires tag in {IBool, IU8, IU16, IU32, IU64, IF64, ITimeOfDayMilli, ITimeOfDayNano}
    requires def.ty == Translate(tag)
    ensures D.DecodeValue(def, reg, bs, budget) == Some(got) <==> Reads(tag, def.size, def.isOptional, bs, got)
  {
    hide D.DecodeUnsigned, Number;
    NullFirst(bs, got.used);
    UnsignedReads(def, bs, got);
  }

  lemma SignedTagReads(def: O.FieldDef, tag: IType, reg: O.Registry, bs: seq<byte>, budget: nat, got: D.Got)
    requires tag in {II8, II16, II32, II64, IDate, INanoTime, IMilliTime}
    requires def.ty == Translate(tag)
    ensures D.DecodeValue(def, reg, bs, budget) == Some(got) <==> Reads(tag, def.size, def.isOptional, bs, got)
  {
    hide D.DecodeSigned, SignedNumber;
    NullFirst(bs, got.used);
    SignedReads(def, bs, got);
  }

  lemma TextTagReads(def: O.FieldDef, tag: IType, reg: O.Registry, bs: seq<byte>, budget: nat, got: D.Got)
    requires tag == IString || tag == IBinary || tag == IFixed || tag == IDecimal
    requires def.ty == Translate(tag)
    ensures D.DecodeValue(def, reg, bs, budget) == Some(got) <==> Reads(tag, def.size, def.isOptional, bs, got)
  {
    hide D.DecodeString, D.DecodeFixed, D.DecodeDecimal, SignedNumber, Behind;
    NullFirst(bs, got.used);
    match tag
    case IFixed => FixedReads(def, bs, got);
    case IDecimal => DecimalReads(def, bs, got);
    case IString => StringReads(def, bs, got);
    case IBinary => StringReads(def, bs, got);
  }

  lemma TagReads(def: O.FieldDef, tag: IType, reg: O.Registry, bs: seq<byte>, budget: nat, got: D.Got)
    requires tag != IRef && tag != IObject && def.ty == Translate(tag)
    ensures D.DecodeValue(def, reg, bs, budget) == Some(got) <==> Reads(tag, def.size, def.isOptional, bs, got)
  {
    hide D.DecodeValue, Reads, Translate;
    if tag in {IString, IBinary, IFixed, IDecimal} {
      TextTagReads(def, tag, reg, bs, budget, got);
    } else if tag in {II8, II16, II32, II64, IDate, INanoTime, IMilliTime} {
      SignedTagReads(def, tag, reg, bs, budget, got);
    } else {
      UnsignedTagReads(def, tag, reg, bs, budget, got);
    }
  }

  /** Of the size only a FIXED value depends. */
  lemma SizeOfFixed(tag: IType, m: nat, n: nat, isOptional: bool, bs: seq<byte>, got: D.Got)
    requires tag == IFixed ==> m == n
    ensures Reads(tag, m, isOptional, bs, got) <==> Reads(tag, n, isOptional, bs, got)
  {
  }

  /** Decoding a field of a built-in type comes out with exactly what its type reads. */
  lemma FieldReads(nss: Namespaces, f: Field, overlap: Misread, tag: IType, reg: O.Registry, bs: seq<byte>, budget: nat,
                   got: D.Got)
    requires Linked(nss) && Settled(nss, f.ty) && Declares(nss, f, tag) && tag != IRef && tag != IObject
    ensures D.DecodeValue(FieldDefOf(nss, f, overlap), reg, bs, budget) == Some(got) <==>
              Reads(tag, if f.ty.tag.IRef? then overlap.size else f.ty.size, f.isOptional, bs, got)
  {
    hide Linked, Settled, Declares, FieldDefOf, Translate, D.DecodeValue, Reads;
    DefOfTag(nss, f, overlap, tag);
    var def := FieldDefOf(nss, f, overlap);
    TagReads(def, tag, reg, bs, budget, got);
    SizeOfFixed(tag, def.size, if f.ty.tag.IRef? then overlap.size else f.ty.size, f.isOptional, bs, got);
  }

  // ------------------------------------------------------------------ groups and enumerations

  /** Two numbers: a size that fits into what the bounded stream still allows, and the ID of a
      group. */
  ghost predicate Announced(reg: O.Registry, bs: seq<byte>, budget: nat, g: O.GroupDef) {
    exists k: nat, size: nat, id: uint64 ::
      && k <= |bs| && Number(bs[..k], size) && 0 < size <= 0xffff_ffff && k + size <= budget
      && Number(bs[k..], id) && O.GroupById(reg, id) == Some(g)
  }

  lemma HeadNumbers(bs: seq<byte>, used: nat, k: nat, size: uint64, id: uint64)
    requires k <= used <= |bs|
    ensures Number(bs[..used][..k], size) && Number(bs[..used][k..], id) <==>
            && Vlc.Decode(bs, false) == Some((Vlc.Word(size), k))
            && Vlc.Decode(bs[k..], false) == Some((Vlc.Word(id), used - k))
  {
    hide Vlc.Decode, Number;
    Within(bs, k, used);
    DecodesNumber(bs, size, k);
    assert bs[k..][..used - k] == bs[k..used];
    DecodesNumber(bs[k..], id, used - k);
  }

  lemma DynamicReads(def: O.FieldDef, reg: O.Registry, bs: seq<byte>, budget: nat, got: D.Got)
    ensures D.DecodeDynamic(def, reg, bs, budget) == Some(got) <==>
              || NullRead(def, bs, got)
              || (&& got.used <= |bs| && got.v == O.Blank && !got.marks
                  && exists g :: Announced(reg, bs[..got.used], budget, g) && (def.ty.TObject? || def.group in g.kinds))
  {
    hide Vlc.Decode, Number;
    DecodesNumber(bs, 0, 1);
    var r := Vlc.Decode(bs, false);
    if r.Some? { DecodesNumber(bs, 0, r.value.1); }
    if D.DecodeDynamic(def, reg, bs, budget) == Some(got) && r.value.0.Word? {
      var (size, k) := (r.value.0.u, r.value.1);
      var id := Vlc.Decode(bs[k..], false).value.0.u;
      HeadNumbers(bs, got.used, k, size, id);
      var g := O.GroupById(reg, id).value;
      assert Announced(reg, bs[..got.used], budget, g);
    }
    if got.used <= |bs| && got.v == O.Blank && !got.marks {
      if g :| Announced(reg, bs[..got.used], budget, g) && (def.ty.TObject? || def.group in g.kinds) {
        var w := bs[..got.used];
        var k: nat, size: nat, id: uint64 :|
          && k <= |w| && Number(w[..k], size) && 0 < size <= 0xffff_ffff && k + size <= budget
          && Number(w[k..], id) && O.GroupById(reg, id) == Some(g);
        HeadNumbers(bs, got.used, k, size, id);
      }
    }
  }

  /** The presence byte of an optional static group; a mandatory one has no bytes of its own. */
  lemma StaticReads(def: O.FieldDef, bs: seq<byte>, got: D.Got)
    ensures D.DecodeStatic(def, bs) == Some(got) <==>
              && got.used <= |bs| && got.v == O.Blank && !got.marks
              && if def.isOptional then bs[..got.used] == NULL || Number(bs[..got.used], 1) else got.used == 0
  {
    hide Vlc.Decode, Number;
    NullFirst(bs, got.used);
    DecodesNumber(bs, 1, got.used);
    var r := Vlc.Decode(bs, false);
    if r.Some? { DecodesNumber(bs, if r.value.0.Word? then r.value.0.u else 0, r.value.1); }
  }

  /** A field that leads to an enumeration reads 32-bit numbers that the lookup finds; to a group,
      its presence or, behind a star, the head of a group of that kind; and a field declared
      `object` the head of any group. */
  lemma ReferenceReads(nss: Namespaces, f: Field, overlap: Misread, end: Ref, reg: O.Registry, bs: seq<byte>,
                       budget: nat, got: D.Got)
    requires Linked(nss) && Settled(nss, f.ty) && f.ty.tag.IRef? && TerminalOf(nss, f.ty.resolved.value).0 == end
    ensures ValidRef(nss, end)
    ensures var def, dynamic := FieldDefOf(nss, f, overlap), TerminalOf(nss, f.ty.resolved.value).1;
            var r := D.DecodeValue(def, reg, bs, budget);
            && (DefAt(nss, end).Enum? ==>
                  (r == Some(got) <==>
                     || NullRead(def, bs, got)
                     || (got.used <= |bs| && SignedWithin(0x8000_0000, got.v, bs[..got.used])
                         && got.v.i in overlap.symbols && got.marks)))
            && (DefAt(nss, end).Group? && !dynamic ==>
                  (r == Some(got) <==>
                     && got.used <= |bs| && got.v == O.Blank && !got.marks
                     && if f.isOptional then bs[..got.used] == NULL || Number(bs[..got.used], 1) else got.used == 0))
            && (DefAt(nss, end).Group? && dynamic ==>
                  (r == Some(got) <==>
                     || NullRead(def, bs, got)
                     || (&& got.used <= |bs| && got.v == O.Blank && !got.marks
                         && exists g :: Announced(reg, bs[..got.used], budget, g) && Node(nss, end) in g.kinds)))
  {
    hide Linked, Ends, TerminalOf, Node, Announced, Number, D.DecodeEnum, D.DecodeStatic, D.DecodeDynamic;
    TerminalValid(nss, f.ty.resolved.value);
    var def := FieldDefOf(nss, f, overlap);
    EnumReads(def, bs, got);
    StaticReads(def, bs, got);
    DynamicReads(def, reg, bs, budget, got);
  }

  lemma TerminalValid(nss: Namespaces, r: Ref)
    requires Linked(nss) && ValidRef(nss, r) && Ends(nss, r)
    ensures ValidRef(nss, TerminalOf(nss, r).0)
  {
  }

  lemma ObjectReads(nss: Namespaces, f: Field, overlap: Misread, reg: O.Registry, bs: seq<byte>, budget: nat,
                    got: D.Got)
    requires Linked(nss) && Settled(nss, f.ty) && Declares(nss, f, IObject)
    ensures var def := FieldDefOf(nss, f, overlap);
            D.DecodeValue(def, reg, bs, budget) == Some(got) <==>
              || NullRead(def, bs, got)
              || (&& got.used <= |bs| && got.v == O.Blank && !got.marks
                  && exists g :: Announced(reg, bs[..got.used], budget, g))
  {
    hide Linked, Ends, TerminalOf, Announced, D.DecodeDynamic;
    DynamicReads(FieldDefOf(nss, f, overlap), reg, bs, budget, got);
  }

  // ------------------------------------------------------------------ nulls are refused

  /** Types of values, as opposed to groups. */
  predicate HoldsValue(ty: O.Type) {
    !ty.TStaticGroup? && !ty.TDynamicGroup? && !ty.TObject?
  }

  /** A mandatory field of such a type is never left without a value. */
  ghost predicate Filled(f: O.Field) {
    !f.def.isOptional && HoldsValue(f.def.ty) ==>
      match f.data
      case Single(v) => v != O.Blank
      case Sequence(_, elems) => O.Blank !in elems
  }

  lemma ValueFilled(def: O.FieldDef, reg: O.Registry, bs: seq<byte>, budget: nat)
    requires !def.isOptional && HoldsValue(def.ty)
    ensures D.DecodeValue(def, reg, bs, budget).Some? ==> D.DecodeValue(def, reg, bs, budget).value.v != O.Blank
  {
    hide Vlc.Decode, Number, SignedNumber, D.DecodeString, D.DecodeFixed, D.DecodeDecimal, D.DecodeUnsigned,
         D.DecodeSigned, D.DecodeEnum;
    var r := D.DecodeValue(def, reg, bs, budget);
    if r.Some? {
      StringReads(def, bs, r.value);
      FixedReads(def, bs, r.value);
      DecimalReads(def, bs, r.value);
      UnsignedReads(def, bs, r.value);
      SignedReads(def, bs, r.value);
      EnumReads(def, bs, r.value);
    }
  }

  lemma {:induction false} ElemsFilled(def: O.FieldDef, reg: O.Registry, bs: seq<byte>, budget: nat, count: nat)
    requires !def.isOptional && HoldsValue(def.ty) && |bs| <= budget && D.DecodeElems(def, reg, bs, budget, count).Some?
    ensures O.Blank !in D.DecodeElems(def, reg, bs, budget, count).value.0
    decreases count
  {
    hide D.DecodeValue;
    if count > 0 {
      ValueFilled(def, reg, bs, budget);
      var used := D.DecodeValue(def, reg, bs, budget).value.used;
      ElemsFilled(def, reg, bs[used..], budget - used, count - 1);
    }
  }

  lemma {:induction false} SequenceFilled(def: O.FieldDef, reg: O.Registry, bs: seq<byte>, budget: nat, count: uint32,
                                          elems: seq<O.Value>)
    requires !def.isOptional && HoldsValue(def.ty) && |bs| <= budget && O.Blank !in elems
    requires D.DecodeSequence(def, reg, bs, budget, count, elems).Some?
    ensures Filled(D.DecodeSequence(def, reg, bs, budget, count, elems).value.0)
    decreases |bs|, 0
  {
    hide D.DecodeContent, Vlc.Decode;
    var (v, n) := Vlc.ReadUnsigned(bs, UINT32_MAX).value;
    if v.Word? { ContentFilled(def, reg, bs[n..], budget - n, v.u, v.u, elems); }
  }

  lemma {:induction false} ContentFilled(def: O.FieldDef, reg: O.Registry, bs: seq<byte>, budget: nat, count: uint32,
                                         todo: nat, elems: seq<O.Value>)
    requires !def.isOptional && HoldsValue(def.ty) && |bs| <= budget && O.Blank !in elems
    requires D.DecodeContent(def, reg, bs, budget, count, todo, elems).Some?
    ensures Filled(D.DecodeContent(def, reg, bs, budget, count, todo, elems).value.0)
    decreases |bs|, 1
  {
    hide D.DecodeSequence, D.DecodeElems;
    ElemsFilled(def, reg, bs, budget, todo);
    var (vs, k) := D.DecodeElems(def, reg, bs, budget, todo).value;
    if count == UINT32_MAX { SequenceFilled(def, reg, bs[k..], budget - k, count, elems + vs); }
  }

  lemma {:induction false} SequenceDef(def: O.FieldDef, reg: O.Registry, bs: seq<byte>, budget: nat, count: uint32,
                                       elems: seq<O.Value>)
    requires |bs| <= budget
    ensures var r := D.DecodeSequence(def, reg, bs, budget, count, elems); r.Some? ==> r.value.0.def == def
    decreases |bs|, 0
  {
    hide D.DecodeContent, Vlc.Decode;
    var r := Vlc.ReadUnsigned(bs, UINT32_MAX);
    if r.Some? && r.value.0.Word? {
      ContentDef(def, reg, bs[r.value.1..], budget - r.value.1, r.value.0.u, r.value.0.u, elems);
    }
  }

  lemma {:induction false} ContentDef(def: O.FieldDef, reg: O.Registry, bs: seq<byte>, budget: nat, count: uint32,
                                      todo: nat, elems: seq<O.Value>)
    requires |bs| <= budget
    ensures var r := D.DecodeContent(def, reg, bs, budget, count, todo, elems); r.Some? ==> r.value.0.def == def
    decreases |bs|, 1
  {
    hide D.DecodeSequence, D.DecodeElems;
    var e := D.DecodeElems(def, reg, bs, budget, todo);
    if e.Some? && count == UINT32_MAX {
      var (vs, k) := e.value;
      SequenceDef(def, reg, bs[k..], budget - k, count, elems + vs);
    }
  }

  lemma FieldFilled(def: O.FieldDef, reg: O.Registry, bs: seq<byte>, budget: nat)
    requires |bs| <= budget && D.DecodeField(def, reg, bs, budget).Some?
    ensures var f := D.DecodeField(def, reg, bs, budget).value.0; Filled(f) && f.def == def
  {
    hide D.DecodeValue, D.DecodeSequence;
    SequenceDef(def, reg, bs, budget, 0, []);
    if !def.isOptional && HoldsValue(def.ty) {
      if def.isSequence { SequenceFilled(def, reg, bs, budget, 0, []); } else { ValueFilled(def, reg, bs, budget); }
    }
  }

  lemma {:induction false} FieldsFilled(defs: seq<O.FieldDef>, reg: O.Registry, bs: seq<byte>, budget: nat)
    requires |bs| <= budget && D.DecodeFields(defs, reg, bs, budget).Some?
    ensures var fs := D.DecodeFields(defs, reg, bs, budget).value.0;
            |fs| == |defs| && forall i :: 0 <= i < |fs| ==> Filled(fs[i]) && fs[i].def == defs[i]
    decreases defs
  {
    hide D.DecodeField, Filled;
    if defs != [] {
      FieldFilled(defs[0], reg, bs, budget);
      var n := D.DecodeField(defs[0], reg, bs, budget).value.1;
      FieldsFilled(defs[1..], reg, bs[n..], budget - n);
    }
  }

  /** Whatever is decoded, from whatever bytes, has a value in each mandatory field that can hold
      one, and in each element of a mandatory sequence. */
  lemma DecodedIsFilled(reg: O.Registry, bs: seq<byte>)
    requires D.Decode(reg, bs).Some?
    ensures var o := D.Decode(reg, bs).value.0;
            && |o.fields| == |o.def.fields|
            && forall i :: 0 <= i < |o.fields| ==> Filled(o.fields[i]) && o.fields[i].def == o.def.fields[i]
  {
    hide D.DecodeFields, Vlc.Decode, Filled, O.GroupById;
    var (size, k) := Vlc.ReadUnsigned(bs, UINT32_MAX).value;
    var window := D.Window(bs[k..], size.u);
    var (id, j) := Vlc.Decode(window, false).value;
    FieldsFilled(O.GroupById(reg, id.u).value.fields, reg, window[j..], size.u - j);
  }

  /** Fields that a null cannot stand for: mandatory ones, with the exception of what begins with
      no number, a FIXED value and a static group. */
  predicate Refuses(def: O.FieldDef) {
    !def.isOptional && (def.isSequence || (!def.ty.TFixed? && !def.ty.TStaticGroup?))
  }

  lemma NullField(def: O.FieldDef, reg: O.Registry, bs: seq<byte>, budget: nat)
    requires |bs| <= budget && Refuses(def) && bs != [] && bs[0] == 0xc0
    ensures D.DecodeField(def, reg, bs, budget) == None
  {
    hide Vlc.Decode;
    DecodesNumber(bs, 0, 1);
    DecodesSigned(bs, 0, 1);
  }

  /** Decoding the fields in front is part of decoding them all. */
  lemma {:induction false} FirstFields(defs: seq<O.FieldDef>, i: nat, reg: O.Registry, bs: seq<byte>, budget: nat)
    requires i < |defs| && |bs| <= budget && D.DecodeFields(defs, reg, bs, budget).Some?
    ensures var r := D.DecodeFields(defs[..i], reg, bs, budget);
            r.Some? && D.DecodeField(defs[i], reg, bs[r.value.1..], budget - r.value.1).Some?
    decreases defs
  {
    hide D.DecodeField, D.DecodeFields;
    NoFields(defs, reg, bs, budget);
    var (f, n) := D.DecodeField(defs[0], reg, bs, budget).value;
    D.FieldsStep(defs, reg, bs, budget, f, n);
    if i == 0 {
      assert defs[..0] == [] && bs[0..] == bs;
    } else {
      FirstFields(defs[1..], i - 1, reg, bs[n..], budget - n);
      assert defs[..i][0] == defs[0] && defs[..i][1..] == defs[1..][..i - 1];
      D.FieldsStep(defs[..i], reg, bs, budget, f, n);
      var r := D.DecodeFields(defs[1..][..i - 1], reg, bs[n..], budget - n).value.1;
      assert bs[n..][r..] == bs[n + r..];
    }
  }

  lemma NoFields(defs: seq<O.FieldDef>, reg: O.Registry, bs: seq<byte>, budget: nat)
    requires |bs| <= budget
    ensures D.DecodeFields([], reg, bs, budget) == Some(([], 0))
    ensures defs != [] && D.DecodeFields(defs, reg, bs, budget).Some? ==> D.DecodeField(defs[0], reg, bs, budget).Some?
  {
    hide D.DecodeField;
  }

  /** No message decodes in which one of those fields begins with a null: behind the fields in
      front of it comes the end, or another byte than 0xc0. */
  lemma NullRefused(reg: O.Registry, bs: seq<byte>, i: nat)
    requires D.Decode(reg, bs).Some? && i < |D.Decode(reg, bs).value.0.def.fields|
    requires Refuses(D.Decode(reg, bs).value.0.def.fields[i])
    ensures var defs, (body, budget) := D.Decode(reg, bs).value.0.def.fields, Body(bs);
            var r := D.DecodeFields(defs[..i], reg, body, budget);
            r.Some? && (r.value.1 == |body| || body[r.value.1] != 0xc0)
  {
    hide D.DecodeFields, Vlc.Decode, O.GroupById;
    var (body, budget) := Body(bs);
    var defs := D.Decode(reg, bs).value.0.def.fields;
    FirstFields(defs, i, reg, body, budget);
    var n := D.DecodeFields(defs[..i], reg, body, budget).value.1;
    if n < |body| && body[n] == 0xc0 { NullField(defs[i], reg, body[n..], budget - n); }
  }

  /** The bytes of the fields: behind the size and the ID, up to that size. */
  ghost function Body(bs: seq<byte>): (b: (seq<byte>, nat))
    ensures |b.0| <= b.1
  {
    match Vlc.ReadUnsigned(bs, UINT32_MAX)
    case Some((Word(max), k)) =>
      var window := D.Window(bs[k..], max);
      (match Vlc.Decode(window, false)
       case Some((Word(_), j)) => (window[j..], max - j)
       case _ => ([], 0))
    case _ => ([], 0)
  }
}
