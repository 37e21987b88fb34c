/** What the bytes of a value are, said without the decoder: numbers, and values of each
    declared type. The decoder and the encoder are held against this. */
module WireForm {
  import opened Base
  import opened Schema
  import O = Objects
  import D = ObjectDecode
  import E = ObjectEncode
  import Vlc

  // ------------------------------------------------------------------------- numbers

  /** bs is a whole number on the wire, read as unsigned: seven bits, six bits and a byte, or a
      byte that says how many follow, least significant first. */
  ghost predicate Number(bs: seq<byte>, u: int) {
    || (|bs| == 1 && bs[0] < 0x80 && u == bs[0])
    || (|bs| == 2 && 0x80 <= bs[0] < 0xc0 && u == (bs[0] - 0x80) + 64 * (bs[1] as int))
    || (2 <= |bs| <= 9 && bs[0] as int == 0xbf + |bs| && u == Vlc.LittleEndian(bs[1..]))
  }

  /** The same as two's complement. One header, 0xc1, is read wrongly before a byte with its top
      bit set: the sign reaches 56 bits only. */
  ghost predicate SignedNumber(bs: seq<byte>, i: int) {
    || (|bs| == 1 && bs[0] < 0x80 && i == Complement(bs[0], 0x40))
    || (|bs| == 2 && 0x80 <= bs[0] < 0xc0 && i == Complement((bs[0] - 0x80) + 64 * (bs[1] as int), 0x2000))
    || (2 <= |bs| <= 9 && bs[0] as int == 0xbf + |bs|
        && i == if |bs| == 2 && bs[1] >= 0x80 then 0xff_ffff_ffff_ff00 + bs[1] as int
                else Complement(Vlc.LittleEndian(bs[1..]), 128 * Vlc.Pow256(|bs| - 2)))
  }

  /** v below half of the range, or what it is short of the whole range. */
  function Complement(v: int, half: int): int {
    if v < half then v else v - 2 * half
  }

  const NULL: seq<byte> := [0xc0]

  /** Reading a number finds a null exactly at 0xc0, and a value exactly if a number is there. */
  lemma DecodesNumber(bs: seq<byte>, u: uint64, n: nat)
    ensures Vlc.Decode(bs, false) == Some((Vlc.Null, n)) <==> n == 1 <= |bs| && bs[0] == 0xc0
    ensures Vlc.Decode(bs, false) == Some((Vlc.Word(u), n)) <==> n <= |bs| && Number(bs[..n], u)
  {
    if n <= |bs| && 2 <= n <= 9 { assert bs[..n][1..] == bs[1..n]; }
  }

  lemma DecodesSigned(bs: seq<byte>, u: uint64, n: nat)
    ensures Vlc.Decode(bs, true) == Some((Vlc.Null, n)) <==> n == 1 <= |bs| && bs[0] == 0xc0
    ensures Vlc.Decode(bs, true) == Some((Vlc.Word(u), n)) <==> n <= |bs| && SignedNumber(bs[..n], Vlc.AsSigned(u))
  {
    if bs != [] && bs[0] > 0xc0 { DecodesLong(bs, u, n); }
  }

  lemma DecodesLong(bs: seq<byte>, u: uint64, n: nat)
    requires bs != [] && bs[0] > 0xc0
    ensures Vlc.Decode(bs, true) == Some((Vlc.Word(u), n)) <==> n <= |bs| && SignedNumber(bs[..n], Vlc.AsSigned(u))
  {
    if n <= |bs| && 2 <= n <= 9 {
      assert bs[..n][1..] == bs[1..n];
      Vlc.LittleEndianBound(bs[1..n]);
      Vlc.Powers();
    }
  }

  // -------------------------------------------------------------------------- values

  /** bs is an encoding of the value v, which is present, in a field whose declared type is the
      built-in type `tag`. */
  ghost predicate Form(tag: IType, size: nat, isOptional: bool, v: O.Value, bs: seq<byte>) {
    match tag
    case IString => Text(v, bs)
    case IBinary => Text(v, bs)
    case IFixed => v.Bytes? && |v.data| == size && if isOptional then Behind(1, v.data, bs) else v.data == bs
    case IBool => v.Boolean? && Number(bs, if v.b then 1 else 0)
    case IU8 => UnsignedUpTo(0xff, v, bs)
    case IU16 => UnsignedUpTo(0xffff, v, bs)
    case IU32 => UnsignedUpTo(0xffff_ffff, v, bs)
    case IU64 => UnsignedUpTo(0xffff_ffff_ffff_ffff, v, bs)
    case ITimeOfDayMilli => UnsignedUpTo(0xffff_ffff, v, bs)
    case ITimeOfDayNano => UnsignedUpTo(0xffff_ffff_ffff_ffff, v, bs)
    case II8 => SignedWithin(0x80, v, bs)
    case II16 => SignedWithin(0x8000, v, bs)
    case II32 => SignedWithin(0x8000_0000, v, bs)
    case II64 => SignedWithin(0x8000_0000_0000_0000, v, bs)
    case IDate => SignedWithin(0x8000_0000, v, bs)
    case INanoTime => SignedWithin(0x8000_0000_0000_0000, v, bs)
    case IMilliTime => SignedWithin(0x8000_0000_0000_0000, v, bs)
    case IF64 => v.Rounded? && Number(bs, v.u)
    case IDecimal =>
      v.Decimal? && exists k :: 0 <= k <= |bs| && SignedNumber(bs[..k], v.exponent) && SignedNumber(bs[k..], v.mantissa)
    case IObject => false
    case IRef => false
  }

  /** A number, and then these bytes. */
  ghost predicate Behind(n: nat, data: seq<byte>, bs: seq<byte>) {
    exists k :: 0 <= k <= |bs| && Number(bs[..k], n) && bs[k..] == data
  }

  ghost predicate Text(v: O.Value, bs: seq<byte>) {
    v.Bytes? && |v.data| <= 0xffff_ffff && Behind(|v.data|, v.data, bs)
  }

  ghost predicate UnsignedUpTo(max: nat, v: O.Value, bs: seq<byte>) {
    v.Unsigned? && v.u <= max && Number(bs, v.u)
  }

  ghost predicate SignedWithin(half: int, v: O.Value, bs: seq<byte>) {
    v.Signed? && -half <= v.i < half && SignedNumber(bs, v.i)
  }

  /** A field that comes out as read says so, unless it is a u16 or an empty text. */
  ghost predicate Marked(tag: IType, v: O.Value) {
    tag != IU16 && !((tag == IString || tag == IBinary) && v == O.Bytes([]))
  }

  /** What a reader may come out with: a null where that is allowed, or a value of the type. */
  ghost predicate Reads(tag: IType, size: nat, isOptional: bool, bs: seq<byte>, got: D.Got) {
    && got.used <= |bs|
    && (|| (isOptional && got.v == O.Blank && !got.marks && bs[..got.used] == NULL)
        || (Form(tag, size, isOptional, got.v, bs[..got.used]) && (got.marks <==> Marked(tag, got.v))))
  }

  // ---------------------------------------------------------------- held against it

  /** The first bytes of the first bytes. */
  lemma Within(bs: seq<byte>, k: nat, n: nat)
    requires k <= n <= |bs|
    ensures bs[..n][..k] == bs[..k] && bs[..n][k..] == bs[k..n]
  {
  }

  lemma NullFirst(bs: seq<byte>, n: nat)
    ensures n <= |bs| && bs[..n] == NULL <==> n == 1 <= |bs| && bs[0] == 0xc0
  {
  }

  /** A null where it is allowed. */
  ghost predicate NullRead(def: O.FieldDef, bs: seq<byte>, got: D.Got) {
    def.isOptional && got == D.Got(O.Blank, false, 1) && bs != [] && bs[0] == 0xc0
  }

  ghost predicate UnsignedForm(def: O.FieldDef, v: O.Value, bs: seq<byte>) {
    if def.ty.TBool? then v.Boolean? && Number(bs, if v.b then 1 else 0)
    else if def.ty.TF64? then v.Rounded? && Number(bs, v.u)
    else UnsignedUpTo(D.UnsignedLimit(def.ty), v, bs)
  }

  lemma UnsignedReads(def: O.FieldDef, bs: seq<byte>, got: D.Got)
    ensures D.DecodeUnsigned(def, bs) == Some(got) <==>
              || NullRead(def, bs, got)
              || (got.used <= |bs| && UnsignedForm(def, got.v, bs[..got.used]) && got.marks == !def.ty.TU16?)
  {
    hide Vlc.Decode, Number;
    var r := Vlc.Decode(bs, false);
    var u: uint64 := if r.Some? && r.value.0.Word? then r.value.0.u else 0;
    DecodesNumber(bs, u, got.used);
    var w: uint64 := if got.v.Boolean? && got.v.b then 1 else if got.v.Rounded? || got.v.Unsigned? then got.v.u else 0;
    DecodesNumber(bs, w, got.used);
  }

  lemma SignedReads(def: O.FieldDef, bs: seq<byte>, got: D.Got)
    ensures D.DecodeSigned(def, bs) == Some(got) <==>
              || NullRead(def, bs, got)
              || (got.used <= |bs| && SignedWithin(D.SignedLimit(def.ty) + 1, got.v, bs[..got.used]) && got.marks)
  {
    hide Vlc.Decode, SignedNumber;
    var r := Vlc.Decode(bs, true);
    var u: uint64 := if r.Some? && r.value.0.Word? then r.value.0.u else 0;
    DecodesSigned(bs, u, got.used);
    var w: uint64 := if got.v.Signed? then Vlc.AsWord(got.v.i) else 0;
    DecodesSigned(bs, w, got.used);
  }

  lemma EnumReads(def: O.FieldDef, bs: seq<byte>, got: D.Got)
    ensures D.DecodeEnum(def, bs) == Some(got) <==>
              || NullRead(def, bs, got)
              || (&& got.used <= |bs| && SignedWithin(0x8000_0000, got.v, bs[..got.used])
                  && got.v.i in def.symbols && got.marks)
  {
    hide Vlc.Decode, SignedNumber;
    var r := Vlc.Decode(bs, true);
    var u: uint64 := if r.Some? && r.value.0.Word? then r.value.0.u else 0;
    DecodesSigned(bs, u, got.used);
    var w: uint64 := if got.v.Signed? then Vlc.AsWord(got.v.i) else 0;
    DecodesSigned(bs, w, got.used);
  }

  /** A number at the front is the one the decoder reads. */
  lemma FrontNumber(bs: seq<byte>, k: nat, n: nat, u: uint64)
    requires k <= n <= |bs| && Number(bs[..n][..k], u)
    ensures Vlc.Decode(bs, false) == Some((Vlc.Word(u), k))
  {
    hide Vlc.Decode, Number;
    Within(bs, k, n);
    DecodesNumber(bs, u, k);
  }

  lemma StringReads(def: O.FieldDef, bs: seq<byte>, got: D.Got)
    ensures D.DecodeString(def, bs) == Some(got) <==>
              || NullRead(def, bs, got)
              || (got.used <= |bs| && Text(got.v, bs[..got.used]) && got.marks == (got.v != O.Bytes([])))
  {
    hide Vlc.Decode, Number;
    var r := Vlc.Decode(bs, false);
    if r.Some? { DecodesNumber(bs, 0, r.value.1); }
    DecodesNumber(bs, 0, 1);
    if D.DecodeString(def, bs) == Some(got) && r.value.0.Word? {
      var u, k := r.value.0.u, r.value.1;
      DecodesNumber(bs, u, k);
      Within(bs, k, got.used);
      assert |bs[k..got.used]| == u;
      assert Behind(u, got.v.data, bs[..got.used]);
    }
    if got.used <= |bs| && Text(got.v, bs[..got.used]) {
      var k :| 0 <= k <= got.used && Number(bs[..got.used][..k], |got.v.data|) && bs[..got.used][k..] == got.v.data;
      FrontNumber(bs, k, got.used, |got.v.data|);
      Within(bs, k, got.used);
      assert k + |got.v.data| == got.used && bs[k..k + |got.v.data|] == got.v.data;
    }
  }

  /** A fixed value in a mandatory field is its bytes. */
  lemma BareFixedReads(def: O.FieldDef, bs: seq<byte>, got: D.Got)
    requires !def.isOptional
    ensures D.DecodeFixed(def, bs) == Some(got) <==>
              got.used <= |bs| && got.v.Bytes? && |got.v.data| == def.size && got.marks && got.v.data == bs[..got.used]
  {
  }

  /** In an optional field they come behind a presence byte. */
  lemma PresentFixed(def: O.FieldDef, bs: seq<byte>, got: D.Got, k: nat)
    requires def.isOptional && Vlc.Decode(bs, false) == Some((Vlc.Word(1), k)) && k <= |bs|
    ensures D.DecodeFixed(def, bs) == Some(got) <==>
              && got.used == k + def.size <= |bs| && got.v.Bytes? && got.v.data == bs[k..got.used] && got.marks
  {
    hide Vlc.Decode;
  }

  lemma NoFixed(def: O.FieldDef, bs: seq<byte>, got: D.Got)
    requires def.isOptional && (forall k :: Vlc.Decode(bs, false) != Some((Vlc.Word(1), k)))
    ensures D.DecodeFixed(def, bs) == Some(got) <==> NullRead(def, bs, got)
  {
    hide Vlc.Decode;
    var r := Vlc.Decode(bs, false);
    if r.Some? { DecodesNumber(bs, 0, r.value.1); }
    DecodesNumber(bs, 0, 1);
  }

  lemma OneInFront(bs: seq<byte>, k: nat)
    requires Vlc.Decode(bs, false) == Some((Vlc.Word(1), k))
    ensures k <= |bs| && bs != [] && bs[0] != 0xc0
  {
    hide Vlc.Decode, Number;
    DecodesNumber(bs, 1, k);
    DecodesNumber(bs, 0, 1);
  }

  lemma OptionalFixedReads(def: O.FieldDef, bs: seq<byte>, got: D.Got)
    requires def.isOptional
    ensures D.DecodeFixed(def, bs) == Some(got) <==>
              || NullRead(def, bs, got)
              || (&& got.used <= |bs| && got.v.Bytes? && |got.v.data| == def.size && got.marks
                  && Behind(1, got.v.data, bs[..got.used]))
  {
    hide Vlc.Decode, Number, D.DecodeFixed;
    if k :| Vlc.Decode(bs, false) == Some((Vlc.Word(1), k)) {
      OneInFront(bs, k);
      PresentFixed(def, bs, got, k);
      if got.used <= |bs| && got.v.Bytes? { BehindOne(def, bs, got, k); }
    } else {
      NoFixed(def, bs, got);
      if got.used <= |bs| && got.v.Bytes? && Behind(1, got.v.data, bs[..got.used]) {
        var k :| 0 <= k <= got.used && Number(bs[..got.used][..k], 1) && bs[..got.used][k..] == got.v.data;
        FrontNumber(bs, k, got.used, 1);
      }
    }
  }

  lemma BehindOne(def: O.FieldDef, bs: seq<byte>, got: D.Got, k: nat)
    requires Vlc.Decode(bs, false) == Some((Vlc.Word(1), k)) && k <= |bs| && got.used <= |bs| && got.v.Bytes?
    ensures |got.v.data| == def.size && Behind(1, got.v.data, bs[..got.used]) <==>
            got.used == k + def.size && got.v.data == bs[k..got.used]
  {
    hide Vlc.Decode, Number;
    if Behind(1, got.v.data, bs[..got.used]) {
      var j :| 0 <= j <= got.used && Number(bs[..got.used][..j], 1) && bs[..got.used][j..] == got.v.data;
      FrontNumber(bs, j, got.used, 1);
      Within(bs, j, got.used);
    }
    if got.used == k + def.size && got.v.data == bs[k..got.used] {
      DecodesNumber(bs, 1, k);
      Within(bs, k, got.used);
      assert Number(bs[..got.used][..k], 1) && bs[..got.used][k..] == got.v.data;
    }
  }

  lemma FixedReads(def: O.FieldDef, bs: seq<byte>, got: D.Got)
    ensures D.DecodeFixed(def, bs) == Some(got) <==>
              || NullRead(def, bs, got)
              || (got.used <= |bs| && got.v.Bytes? && |got.v.data| == def.size && got.marks
                  && if def.isOptional then Behind(1, got.v.data, bs[..got.used]) else got.v.data == bs[..got.used])
  {
    hide D.DecodeFixed, Behind;
    if def.isOptional { OptionalFixedReads(def, bs, got); } else { BareFixedReads(def, bs, got); }
  }

  /** Two signed numbers, cut at k. */
  ghost predicate DecimalAt(v: O.Value, bs: seq<byte>, k: nat) {
    v.Decimal? && k <= |bs| && SignedNumber(bs[..k], v.exponent) && SignedNumber(bs[k..], v.mantissa)
  }

  lemma DecimalCut(bs: seq<byte>, used: nat, k: nat, v: O.Value)
    requires k <= used <= |bs| && v.Decimal?
    ensures DecimalAt(v, bs[..used], k) <==>
            && Vlc.Decode(bs, true) == Some((Vlc.Word(Vlc.AsWord(v.exponent)), k))
            && Vlc.Decode(bs[k..], true) == Some((Vlc.Word(Vlc.AsWord(v.mantissa)), used - k))
  {
    hide Vlc.Decode, SignedNumber;
    Within(bs, k, used);
    DecodesSigned(bs, Vlc.AsWord(v.exponent), k);
    assert bs[k..][..used - k] == bs[k..used];
    DecodesSigned(bs[k..], Vlc.AsWord(v.mantissa), used - k);
  }

  /** A decimal that has been decoded is a null or is there. */
  lemma DecimalThere(def: O.FieldDef, bs: seq<byte>, got: D.Got) returns (k: nat)
    requires D.DecodeDecimal(def, bs) == Some(got)
    ensures NullRead(def, bs, got)
            || (k <= got.used <= |bs| && DecimalAt(got.v, bs[..got.used], k) && got.marks)
  {
    hide Vlc.Decode, DecimalAt;
    k := Vlc.Decode(bs, true).value.1;
    DecodesSigned(bs, 0, k);
    if Vlc.Decode(bs, true).value.0.Word? { DecimalCut(bs, got.used, k, got.v); }
  }

  lemma DecimalBack(def: O.FieldDef, bs: seq<byte>, got: D.Got, k: nat)
    requires k <= got.used <= |bs| && DecimalAt(got.v, bs[..got.used], k) && got.marks
    ensures D.DecodeDecimal(def, bs) == Some(got)
  {
    hide Vlc.Decode, DecimalAt;
    DecimalValue(got.v, bs[..got.used], k);
    DecimalCut(bs, got.used, k, got.v);
  }

  lemma DecimalValue(v: O.Value, bs: seq<byte>, k: nat)
    requires DecimalAt(v, bs, k)
    ensures v.Decimal?
  {
  }

  lemma DecimalNull(def: O.FieldDef, bs: seq<byte>, got: D.Got)
    requires NullRead(def, bs, got)
    ensures D.DecodeDecimal(def, bs) == Some(got)
  {
    hide Vlc.Decode;
    DecodesSigned(bs, 0, 1);
  }

  lemma DecimalReads(def: O.FieldDef, bs: seq<byte>, got: D.Got)
    ensures D.DecodeDecimal(def, bs) == Some(got) <==>
              || NullRead(def, bs, got)
              || (got.used <= |bs| && Form(IDecimal, 0, def.isOptional, got.v, bs[..got.used]) && got.marks)
  {
    hide D.DecodeDecimal, SignedNumber, NullRead;
    if D.DecodeDecimal(def, bs) == Some(got) {
      var k := DecimalThere(def, bs, got);
    } else if NullRead(def, bs, got) {
      DecimalNull(def, bs, got);
    } else if got.used <= |bs| && Form(IDecimal, 0, def.isOptional, got.v, bs[..got.used]) && got.marks {
      var w := bs[..got.used];
      var k :| 0 <= k <= |w| && SignedNumber(w[..k], got.v.exponent) && SignedNumber(w[k..], got.v.mantissa);
      DecimalBack(def, bs, got, k);
    }
  }

  // ------------------------------------------------------------- what the encoder writes

  /** What encodeVLC writes is the number, and in two's complement the signed one. */
  lemma WritesNumber(u: uint64, i: int64)
    ensures Number(Vlc.Encode(u, false), u) && SignedNumber(Vlc.Encode(Vlc.AsWord(i), true), i)
  {
    hide Vlc.Encode, Vlc.Decode;
    var a, b := Vlc.Encode(u, false), Vlc.Encode(Vlc.AsWord(i), true);
    assert a + [] == a && b + [] == b && a[..|a|] == a && b[..|b|] == b;
    Vlc.RoundTrip(u, false, []);
    DecodesNumber(a, u, |a|);
    Vlc.RoundTrip(Vlc.AsWord(i), true, []);
    DecodesSigned(b, Vlc.AsWord(i), |b|);
  }

  /** A double goes out as the number its 64 bits spell, while a reader takes the number it finds
      for the value. */
  lemma WritesDouble(def: O.FieldDef, bits: uint64)
    ensures Number(Flatten(E.Leaf(def, O.Double(bits))), bits)
  {
    hide Vlc.Encode;
    WritesNumber(bits, 0);
    FlattenOne(Vlc.Encode(bits, false));
  }
}
