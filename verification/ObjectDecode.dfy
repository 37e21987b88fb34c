/** BLINK_Object_decodeCompact of src/blink_object.c as a function on the bytes it can read.

    `budget` is what the bounded stream still allows, counted in bytes; it is at least the
    number of bytes there are, and only the dynamic group handler looks at it. */
module ObjectDecode {
  import opened Base
  import opened Objects
  import Vlc

  /** A decoded value, whether the handler marked the field initialised, and the bytes used. */
  datatype Got = Got(v: Value, marks: bool, used: nat)

  /** A null where the definition allows one. */
  function Absent(def: FieldDef, used: nat): Option<Got> {
    if def.isOptional then Some(Got(Blank, false, used)) else None
  }

  /** Strings and binaries, src/blink_object.c:789-839. An empty one leaves the field unmarked. */
  function DecodeString(def: FieldDef, bs: seq<byte>): Option<Got> {
    match Vlc.ReadUnsigned(bs, UINT32_MAX)
    case None => None
    case Some((Null, n)) => Absent(def, n)
    case Some((Word(size), n)) =>
      if size == 0 then Some(Got(Bytes([]), false, n))
      else if n + size <= |bs| then Some(Got(Bytes(bs[n..n + size]), true, n + size))
      else None
  }

  /** src/blink_object.c:744-787. */
  function DecodeFixed(def: FieldDef, bs: seq<byte>): Option<Got> {
    match if def.isOptional then Vlc.ReadPresent(bs) else Some((true, 0))
    case None => None
    case Some((present, n)) =>
      if !present then Some(Got(Blank, false, n))
      else if n + def.size <= |bs| then Some(Got(Bytes(bs[n..n + def.size]), true, n + def.size))
      else None
  }

  /** The largest value each unsigned handler accepts. */
  function UnsignedLimit(ty: Type): uint64 {
    match ty
    case TBool => 1
    case TU8 => 0xff
    case TU16 => 0xffff
    case TU32 => 0xffff_ffff
    case TTimeOfDayMilli => 0xffff_ffff
    case _ => 0xffff_ffff_ffff_ffff
  }

  /** The largest value each signed handler accepts; the smallest is its complement. */
  function SignedLimit(ty: Type): int64 {
    match ty
    case TI8 => 0x7f
    case TI16 => 0x7fff
    case TI32 => 0x7fff_ffff
    case TDate => 0x7fff_ffff
    case TEnum => 0x7fff_ffff
    case _ => 0x7fff_ffff_ffff_ffff
  }

  /** Booleans, unsigned numbers and doubles, src/blink_object.c:841-983, 1138-1166. The u16
      handler stores the value without marking the field. */
  function DecodeUnsigned(def: FieldDef, bs: seq<byte>): Option<Got> {
    match Vlc.ReadUnsigned(bs, UnsignedLimit(def.ty))
    case None => None
    case Some((Null, n)) => Absent(def, n)
    case Some((Word(u), n)) =>
      Some(Got(if def.ty.TBool? then Boolean(u != 0) else if def.ty.TF64? then Rounded(u) else Unsigned(u),
               !def.ty.TU16?, n))
  }

  /** src/blink_object.c:984-1099. */
  function DecodeSigned(def: FieldDef, bs: seq<byte>): Option<Got> {
    match Vlc.ReadSigned(bs, -SignedLimit(def.ty) - 1, SignedLimit(def.ty))
    case None => None
    case Some((Null, n)) => Absent(def, n)
    case Some((Word(u), n)) => Some(Got(Signed(Vlc.AsSigned(u)), true, n))
  }

  /** src/blink_object.c:1168-1198. */
  function DecodeDecimal(def: FieldDef, bs: seq<byte>): Option<Got> {
    match Vlc.ReadDecimal(bs)
    case None => None
    case Some((None, n)) => Absent(def, n)
    case Some((Some((m, e)), n)) => if -128 <= e < 128 then Some(Got(Decimal(m, e), true, n)) else None
  }

  /** src/blink_object.c:1200-1241. A new frame is prepared but never entered, so a present
      group leaves its body unread and the value untouched. */
  function DecodeStatic(def: FieldDef, bs: seq<byte>): Option<Got> {
    if !def.isOptional then Some(Got(Blank, false, 0))
    else match Vlc.ReadPresent(bs)
      case None => None
      case Some((_, n)) => Some(Got(Blank, false, n))
  }

  /** src/blink_object.c:1243-1321: prefix and ID are checked, the body is left unread. */
  function DecodeDynamic(def: FieldDef, reg: Registry, bs: seq<byte>, budget: nat): Option<Got> {
    match Vlc.ReadUnsigned(bs, UINT32_MAX)
    case None => None
    case Some((Null, n)) => Absent(def, n)
    case Some((Word(size), n)) =>
      if size == 0 || budget - n < size then None
      else match Vlc.Decode(bs[n..], false)
        case Some((Word(id), k)) => if OfKind(def, reg, id) then Some(Got(Blank, false, n + k)) else None
        case _ => None
  }

  /** The ID names a group that may stand in the field. */
  predicate OfKind(def: FieldDef, reg: Registry, id: uint64) {
    match GroupById(reg, id)
    case None => false
    case Some(g) => def.ty.TObject? || def.group in g.kinds
  }

  /** src/blink_object.c:1101-1136: a number that the lookup in the field's symbols finds. */
  function DecodeEnum(def: FieldDef, bs: seq<byte>): Option<Got> {
    match Vlc.ReadSigned(bs, INT32_MIN, INT32_MAX)
    case None => None
    case Some((Null, n)) => Absent(def, n)
    case Some((Word(u), n)) =>
      if Vlc.AsSigned(u) in def.symbols then Some(Got(Signed(Vlc.AsSigned(u)), true, n)) else None
  }

  /** The handler table, src/blink_object.c:274-298. */
  function DecodeValue(def: FieldDef, reg: Registry, bs: seq<byte>, budget: nat): (r: Option<Got>)
    ensures r.Some? ==> r.value.used <= |bs|
  {
    match def.ty
    case TString => DecodeString(def, bs)
    case TBinary => DecodeString(def, bs)
    case TFixed => DecodeFixed(def, bs)
    case TDecimal => DecodeDecimal(def, bs)
    case TStaticGroup => DecodeStatic(def, bs)
    case TDynamicGroup => DecodeDynamic(def, reg, bs, budget)
    case TObject => DecodeDynamic(def, reg, bs, budget)
    case TEnum => DecodeEnum(def, bs)
    case _ => if IsSigned(def.ty) then DecodeSigned(def, bs) else DecodeUnsigned(def, bs)
  }

  /** The element loop, src/blink_object.c:348-385. */
  function DecodeElems(def: FieldDef, reg: Registry, bs: seq<byte>, budget: nat,
                       count: nat): (r: Option<(seq<Value>, nat)>)
    requires |bs| <= budget
    ensures r.Some? ==> |r.value.0| == count && r.value.1 <= |bs|
    decreases count
  {
    if count == 0 then Some(([], 0))
    else match DecodeValue(def, reg, bs, budget)
      case None => None
      case Some(got) =>
        match DecodeElems(def, reg, bs[got.used..], budget - got.used, count - 1)
        case None => None
        case Some((vs, n)) => Some(([got.v] + vs, got.used + n))
  }

  /** A sequence from its header on, src/blink_object.c:321-385. `count` and `elems` are the
      size and the list the field has so far. */
  function DecodeSequence(def: FieldDef, reg: Registry, bs: seq<byte>, budget: nat, count: uint32, elems: seq<Value>)
    : (r: Option<(Field, nat)>)
    requires |bs| <= budget
    ensures r.Some? ==> r.value.1 <= |bs|
    decreases |bs|, 0
  {
    match Vlc.ReadUnsigned(bs, UINT32_MAX)
    case None => None
    case Some((Null, n)) => if def.isOptional then Some((Field(def, false, Sequence(count, elems)), n)) else None
    case Some((Word(size), n)) => Further(n, DecodeContent(def, reg, bs[n..], budget - n, size, size, elems))
  }

  /** With `todo` elements still to come. The counter of the elements has 32 bits and is one
      ahead, so the last of 2^32 - 1 elements returns it to zero: the loop then takes what
      follows for the header of the same field once more, and appends to the list it has. */
  function DecodeContent(def: FieldDef, reg: Registry, bs: seq<byte>, budget: nat, count: uint32, todo: nat,
                         elems: seq<Value>)
    : (r: Option<(Field, nat)>)
    requires |bs| <= budget
    ensures r.Some? ==> r.value.1 <= |bs|
    decreases |bs|, 1
  {
    match DecodeElems(def, reg, bs, budget, todo)
    case None => None
    case Some((vs, k)) =>
      if count < UINT32_MAX then Some((Field(def, false, Sequence(count, elems + vs)), k))
      else Further(k, DecodeSequence(def, reg, bs[k..], budget - k, count, elems + vs))
  }

  /** A result for the bytes behind the first n. */
  function Further<T>(n: nat, r: Option<(T, nat)>): Option<(T, nat)> {
    match r
    case None => None
    case Some((x, k)) => Some((x, n + k))
  }

  /** One turn of the field loop; a sequence never marks its field initialised. */
  function DecodeField(def: FieldDef, reg: Registry, bs: seq<byte>, budget: nat): (r: Option<(Field, nat)>)
    requires |bs| <= budget
    ensures r.Some? ==> r.value.1 <= |bs|
  {
    if !def.isSequence then
      match DecodeValue(def, reg, bs, budget)
      case None => None
      case Some(got) => Some((Field(def, got.marks, Single(got.v)), got.used))
    else DecodeSequence(def, reg, bs, budget, 0, [])
  }

  function DecodeFields(defs: seq<FieldDef>, reg: Registry, bs: seq<byte>, budget: nat): (r: Option<(seq<Field>, nat)>)
    requires |bs| <= budget
    ensures r.Some? ==> |r.value.0| == |defs| && r.value.1 <= |bs|
    decreases defs
  {
    if defs == [] then Some(([], 0))
    else match DecodeField(defs[0], reg, bs, budget)
      case None => None
      case Some((f, n)) =>
        match DecodeFields(defs[1..], reg, bs[n..], budget - n)
        case None => None
        case Some((fs, k)) => Some(([f] + fs, n + k))
  }

  /** The field loop, one field on. */
  lemma FieldsStep(defs: seq<FieldDef>, reg: Registry, bs: seq<byte>, budget: nat, f: Field, n: nat)
    requires defs != [] && |bs| <= budget && DecodeField(defs[0], reg, bs, budget) == Some((f, n))
    ensures n <= |bs|
    ensures var r := DecodeFields(defs[1..], reg, bs[n..], budget - n);
            DecodeFields(defs, reg, bs, budget) == if r.None? then None else Some(([f] + r.value.0, n + r.value.1))
  {
    hide DecodeField;
  }

  lemma {:induction false} GroupByIdIn(reg: Registry, id: uint64)
    ensures GroupById(reg, id).Some? ==> GroupById(reg, id).value in reg && GroupById(reg, id).value.id == Some(id)
  {
    if reg != [] { GroupByIdIn(reg[1..], id); }
  }

  /** The bytes a bound of `max` lets through. */
  function Window(bs: seq<byte>, max: nat): (w: seq<byte>)
    ensures |w| <= max
  {
    bs[..Min(|bs|, max)]
  }

  /** The frame behind its size prefix: ID, fields, and not a byte left over. */
  function DecodeFrame(reg: Registry, window: seq<byte>, max: nat): Option<Obj>
    requires |window| <= max
  {
    match Vlc.Decode(window, false)
    case Some((Word(id), j)) =>
      GroupByIdIn(reg, id);
      (match GroupById(reg, id)
       case None => None
       case Some(g) =>
         match DecodeFields(g.fields, reg, window[j..], max - j)
         case None => None
         case Some((fs, k)) => if j + k == max then Some(Obj(g, fs)) else None)
    case _ => None
  }

  /** BLINK_Object_decodeCompact, src/blink_object.c:272-460, 697-742. */
  function Decode(reg: Registry, bs: seq<byte>): (r: Option<(Obj, nat)>)
  {
    match Vlc.ReadUnsigned(bs, UINT32_MAX)
    case Some((Word(max), k)) =>
      if max == 0 then None
      else (match DecodeFrame(reg, Window(bs[k..], max), max)
            case None => None
            case Some(o) => Some((o, k + max)))
    case _ => None
  }

  // -------------------------------------------------------------------- framing

  /** bs and cs agree on the first n bytes. */
  ghost predicate Agree(bs: seq<byte>, cs: seq<byte>, n: nat) {
    n <= |bs| && n <= |cs| && bs[..n] == cs[..n]
  }

  lemma AgreeTail(bs: seq<byte>, cs: seq<byte>, m: nat, n: nat)
    requires Agree(bs, cs, n) && m <= n
    ensures m <= |bs| && m <= |cs| && Agree(bs, cs, m) && Agree(bs[m..], cs[m..], n - m)
  {
    assert bs[..m] == bs[..n][..m] == cs[..m];
    assert bs[m..][..n - m] == bs[..n][m..] == cs[m..][..n - m];
  }

  lemma AgreeVlc(bs: seq<byte>, cs: seq<byte>, isSigned: bool)
    requires Vlc.Decode(bs, isSigned).Some? && Agree(bs, cs, Vlc.Decode(bs, isSigned).value.1)
    ensures Vlc.Decode(cs, isSigned) == Vlc.Decode(bs, isSigned)
  {
    var n := Vlc.Decode(bs, isSigned).value.1;
    Vlc.DecodePrefix(bs, isSigned, cs[n..]);
    assert cs == cs[..n] + cs[n..];
  }

  /** A handler that succeeds has looked only at the bytes it used, and more budget changes
      nothing. */
  lemma ValueLocal(def: FieldDef, reg: Registry, bs: seq<byte>, budget: nat, cs: seq<byte>, more: nat)
    requires budget <= more
    requires DecodeValue(def, reg, bs, budget).Some?
    requires Agree(bs, cs, DecodeValue(def, reg, bs, budget).value.used)
    ensures DecodeValue(def, reg, cs, more) == DecodeValue(def, reg, bs, budget)
  {
    hide DecodeString, DecodeFixed, DecodeDynamic, DecodeDecimal, DecodeStatic, DecodeSigned, DecodeUnsigned,
         DecodeEnum;
    match def.ty
    case TString => StringLocal(def, bs, cs);
    case TBinary => StringLocal(def, bs, cs);
    case TFixed => FixedLocal(def, bs, cs);
    case TDecimal => DecimalLocal(def, bs, cs);
    case TStaticGroup => StaticLocal(def, bs, cs);
    case TDynamicGroup => DynamicLocal(def, reg, bs, budget, cs, more);
    case TObject => DynamicLocal(def, reg, bs, budget, cs, more);
    case TEnum => EnumLocal(def, bs, cs);
    case _ => if IsSigned(def.ty) { SignedLocal(def, bs, cs); } else { UnsignedLocal(def, bs, cs); }
  }

  lemma UnsignedLocal(def: FieldDef, bs: seq<byte>, cs: seq<byte>)
    requires DecodeUnsigned(def, bs).Some? && Agree(bs, cs, DecodeUnsigned(def, bs).value.used)
    ensures DecodeUnsigned(def, cs) == DecodeUnsigned(def, bs)
  {
    hide Vlc.Decode;
    AgreeVlc(bs, cs, false);
  }

  lemma SignedLocal(def: FieldDef, bs: seq<byte>, cs: seq<byte>)
    requires DecodeSigned(def, bs).Some? && Agree(bs, cs, DecodeSigned(def, bs).value.used)
    ensures DecodeSigned(def, cs) == DecodeSigned(def, bs)
  {
    hide Vlc.Decode;
    AgreeVlc(bs, cs, true);
  }

  lemma EnumLocal(def: FieldDef, bs: seq<byte>, cs: seq<byte>)
    requires DecodeEnum(def, bs).Some? && Agree(bs, cs, DecodeEnum(def, bs).value.used)
    ensures DecodeEnum(def, cs) == DecodeEnum(def, bs)
  {
    hide Vlc.Decode;
    AgreeVlc(bs, cs, true);
  }

  lemma StaticLocal(def: FieldDef, bs: seq<byte>, cs: seq<byte>)
    requires DecodeStatic(def, bs).Some? && Agree(bs, cs, DecodeStatic(def, bs).value.used)
    ensures DecodeStatic(def, cs) == DecodeStatic(def, bs)
  {
    hide Vlc.Decode;
    if def.isOptional { AgreeVlc(bs, cs, false); }
  }

  lemma DecimalLocal(def: FieldDef, bs: seq<byte>, cs: seq<byte>)
    requires DecodeDecimal(def, bs).Some? && Agree(bs, cs, DecodeDecimal(def, bs).value.used)
    ensures DecodeDecimal(def, cs) == DecodeDecimal(def, bs)
  {
    hide Vlc.ReadDecimal;
    var n := Vlc.ReadDecimal(bs).value.1;
    Vlc.ReadDecimalPrefix(bs, cs[n..]);
    assert cs == cs[..n] + cs[n..];
  }

  lemma AgreeSlice(bs: seq<byte>, cs: seq<byte>, lo: nat, hi: nat)
    requires lo <= hi && Agree(bs, cs, hi)
    ensures hi <= |bs| && hi <= |cs| && bs[lo..hi] == cs[lo..hi]
  {
    SliceSlice(bs, 0, hi, lo, hi);
    SliceSlice(cs, 0, hi, lo, hi);
  }

  lemma StringLocal(def: FieldDef, bs: seq<byte>, cs: seq<byte>)
    requires DecodeString(def, bs).Some? && Agree(bs, cs, DecodeString(def, bs).value.used)
    ensures DecodeString(def, cs) == DecodeString(def, bs)
  {
    hide Vlc.Decode, Agree;
    var n, used := Vlc.Decode(bs, false).value.1, DecodeString(def, bs).value.used;
    AgreeTail(bs, cs, n, used);
    AgreeVlc(bs, cs, false);
    AgreeSlice(bs, cs, n, used);
  }

  lemma FixedLocal(def: FieldDef, bs: seq<byte>, cs: seq<byte>)
    requires DecodeFixed(def, bs).Some? && Agree(bs, cs, DecodeFixed(def, bs).value.used)
    ensures DecodeFixed(def, cs) == DecodeFixed(def, bs)
  {
    hide Vlc.ReadPresent, Agree;
    var used := DecodeFixed(def, bs).value.used;
    if def.isOptional {
      var n := Vlc.ReadPresent(bs).value.1;
      PresentLocal(bs, cs, used);
      AgreeSlice(bs, cs, n, used);
    } else {
      AgreeSlice(bs, cs, 0, used);
    }
  }

  lemma PresentLocal(bs: seq<byte>, cs: seq<byte>, used: nat)
    requires Vlc.ReadPresent(bs).Some? && Vlc.ReadPresent(bs).value.1 <= used && Agree(bs, cs, used)
    ensures Vlc.ReadPresent(cs) == Vlc.ReadPresent(bs)
  {
    hide Vlc.Decode, Agree;
    AgreeTail(bs, cs, Vlc.Decode(bs, false).value.1, used);
    AgreeVlc(bs, cs, false);
  }

  lemma DynamicLocal(def: FieldDef, reg: Registry, bs: seq<byte>, budget: nat, cs: seq<byte>, more: nat)
    requires budget <= more && DecodeDynamic(def, reg, bs, budget).Some?
    requires DecodeDynamic(def, reg, bs, budget).value.used <= |bs|
    requires Agree(bs, cs, DecodeDynamic(def, reg, bs, budget).value.used)
    ensures DecodeDynamic(def, reg, cs, more) == DecodeDynamic(def, reg, bs, budget)
  {
    hide Vlc.Decode;
    var n, used := Vlc.Decode(bs, false).value.1, DecodeDynamic(def, reg, bs, budget).value.used;
    AgreeTail(bs, cs, n, used);
    AgreeVlc(bs, cs, false);
    if Vlc.Decode(bs, false).value.0.Word? { AgreeVlc(bs[n..], cs[n..], false); }
  }

  lemma {:induction false} ElemsLocal(def: FieldDef, reg: Registry, bs: seq<byte>, budget: nat, count: nat,
                                      cs: seq<byte>, more: nat)
    requires |bs| <= budget && |cs| <= more && budget <= more
    requires DecodeElems(def, reg, bs, budget, count).Some?
    requires Agree(bs, cs, DecodeElems(def, reg, bs, budget, count).value.1)
    ensures DecodeElems(def, reg, cs, more, count) == DecodeElems(def, reg, bs, budget, count)
    decreases count
  {
    hide DecodeElems, DecodeValue, Agree;
    if count > 0 {
      NoFewer(def, reg, bs, budget, count);
      var got := DecodeValue(def, reg, bs, budget).value;
      ElemsStep(def, reg, bs, budget, count, got);
      AgreeTail(bs, cs, got.used, DecodeElems(def, reg, bs, budget, count).value.1);
      ValueLocal(def, reg, bs, budget, cs, more);
      ElemsLocal(def, reg, bs[got.used..], budget - got.used, count - 1, cs[got.used..], more - got.used);
      ElemsStep(def, reg, cs, more, count, got);
    } else {
      NoMore(def, reg, bs, budget);
      NoMore(def, reg, cs, more);
    }
  }

  lemma NoFewer(def: FieldDef, reg: Registry, bs: seq<byte>, budget: nat, count: nat)
    requires |bs| <= budget && count > 0
    ensures DecodeElems(def, reg, bs, budget, count).Some? ==> DecodeValue(def, reg, bs, budget).Some?
  {
  }

  lemma NoMore(def: FieldDef, reg: Registry, bs: seq<byte>, budget: nat)
    requires |bs| <= budget
    ensures DecodeElems(def, reg, bs, budget, 0) == Some(([], 0))
  {
  }

  /** The element loop, one element on. */
  lemma ElemsStep(def: FieldDef, reg: Registry, bs: seq<byte>, budget: nat, count: nat, got: Got)
    requires count > 0 && |bs| <= budget && DecodeValue(def, reg, bs, budget) == Some(got)
    ensures got.used <= |bs|
    ensures var r := DecodeElems(def, reg, bs[got.used..], budget - got.used, count - 1);
            DecodeElems(def, reg, bs, budget, count) ==
              if r.None? then None else Some(([got.v] + r.value.0, got.used + r.value.1))
  {
    hide DecodeValue;
  }

  lemma {:induction false} SequenceLocal(def: FieldDef, reg: Registry, bs: seq<byte>, budget: nat, count: uint32,
                                         elems: seq<Value>, cs: seq<byte>, more: nat)
    requires |bs| <= budget && |cs| <= more && budget <= more
    requires DecodeSequence(def, reg, bs, budget, count, elems).Some?
    requires Agree(bs, cs, DecodeSequence(def, reg, bs, budget, count, elems).value.1)
    ensures DecodeSequence(def, reg, cs, more, count, elems) == DecodeSequence(def, reg, bs, budget, count, elems)
    decreases |bs|, 0
  {
    hide DecodeContent, Vlc.Decode, Agree;
    var (v, n) := Vlc.Decode(bs, false).value;
    AgreeTail(bs, cs, n, DecodeSequence(def, reg, bs, budget, count, elems).value.1);
    AgreeVlc(bs, cs, false);
    if v.Word? { ContentLocal(def, reg, bs[n..], budget - n, v.u, v.u, elems, cs[n..], more - n); }
  }

  lemma {:induction false} ContentLocal(def: FieldDef, reg: Registry, bs: seq<byte>, budget: nat, count: uint32,
                                        todo: nat, elems: seq<Value>, cs: seq<byte>, more: nat)
    requires |bs| <= budget && |cs| <= more && budget <= more
    requires DecodeContent(def, reg, bs, budget, count, todo, elems).Some?
    requires Agree(bs, cs, DecodeContent(def, reg, bs, budget, count, todo, elems).value.1)
    ensures DecodeContent(def, reg, cs, more, count, todo, elems) ==
              DecodeContent(def, reg, bs, budget, count, todo, elems)
    decreases |bs|, 1
  {
    hide DecodeSequence, DecodeElems, Agree;
    var (vs, k) := DecodeElems(def, reg, bs, budget, todo).value;
    AgreeTail(bs, cs, k, DecodeContent(def, reg, bs, budget, count, todo, elems).value.1);
    ElemsLocal(def, reg, bs, budget, todo, cs, more);
    if count == UINT32_MAX { SequenceLocal(def, reg, bs[k..], budget - k, count, elems + vs, cs[k..], more - k); }
  }

  lemma FieldLocal(def: FieldDef, reg: Registry, bs: seq<byte>, budget: nat, cs: seq<byte>, more: nat)
    requires |bs| <= budget && |cs| <= more && budget <= more
    requires DecodeField(def, reg, bs, budget).Some?
    requires Agree(bs, cs, DecodeField(def, reg, bs, budget).value.1)
    ensures DecodeField(def, reg, cs, more) == DecodeField(def, reg, bs, budget)
  {
    hide DecodeValue, DecodeSequence, Agree;
    if !def.isSequence {
      ValueLocal(def, reg, bs, budget, cs, more);
    } else {
      SequenceLocal(def, reg, bs, budget, 0, [], cs, more);
    }
  }

  lemma {:induction false} FieldsLocal(defs: seq<FieldDef>, reg: Registry, bs: seq<byte>, budget: nat, cs: seq<byte>,
                                       more: nat)
    requires |bs| <= budget && |cs| <= more && budget <= more
    requires DecodeFields(defs, reg, bs, budget).Some?
    requires Agree(bs, cs, DecodeFields(defs, reg, bs, budget).value.1)
    ensures DecodeFields(defs, reg, cs, more) == DecodeFields(defs, reg, bs, budget)
    decreases defs
  {
    hide DecodeField, Agree;
    if defs != [] {
      var n := DecodeField(defs[0], reg, bs, budget).value.1;
      AgreeTail(bs, cs, n, DecodeFields(defs, reg, bs, budget).value.1);
      FieldLocal(defs[0], reg, bs, budget, cs, more);
      FieldsLocal(defs[1..], reg, bs[n..], budget - n, cs[n..], more - n);
    }
  }

  /** A frame that decodes is complete: its whole window was there and was used. */
  lemma FrameIsWhole(reg: Registry, window: seq<byte>, max: nat)
    requires |window| <= max && DecodeFrame(reg, window, max).Some?
    ensures |window| == max
  {
  }

  /** Framing, for every input: success uses exactly the size prefix and the declared number
      of bytes, and what follows the frame has no influence. */
  lemma Framing(reg: Registry, bs: seq<byte>, rest: seq<byte>)
    requires Decode(reg, bs).Some?
    ensures var (o, n) := Decode(reg, bs).value;
            && n <= |bs|
            && Vlc.Decode(bs, false).Some? && Vlc.Decode(bs, false).value.0.Word?
            && n == Vlc.Decode(bs, false).value.1 + Vlc.Decode(bs, false).value.0.u
            && Decode(reg, bs[..n] + rest) == Decode(reg, bs)
  {
    hide Vlc.Decode, DecodeFrame;
    var (v, k) := Vlc.Decode(bs, false).value;
    var max := v.u;
    FrameIsWhole(reg, Window(bs[k..], max), max);
    var n := k + max;
    var cs := bs[..n] + rest;
    assert cs[..n] == bs[..n];
    AgreeTail(bs, cs, k, n);
    AgreeVlc(bs, cs, false);
    assert Window(cs[k..], max) == Window(bs[k..], max);
  }

  /** Frames read one after another. */
  function DecodeStream(reg: Registry, bs: seq<byte>, count: nat): Option<(seq<Obj>, seq<byte>)>
    decreases count
  {
    if count == 0 then Some(([], bs))
    else match Decode(reg, bs)
      case None => None
      case Some((o, n)) =>
        if n > |bs| then None
        else match DecodeStream(reg, bs[n..], count - 1)
          case None => None
          case Some((os, left)) => Some(([o] + os, left))
  }

  /** Frames that decode on their own decode one after another when put end to end. */
  lemma {:induction false} StreamOfFrames(reg: Registry, frames: seq<seq<byte>>, objects: seq<Obj>, rest: seq<byte>)
    requires |frames| == |objects|
    requires forall i :: 0 <= i < |frames| ==> Decode(reg, frames[i]) == Some((objects[i], |frames[i]|))
    ensures DecodeStream(reg, Flatten(frames) + rest, |frames|) == Some((objects, rest))
    decreases frames
  {
    hide Decode;
    if frames == [] {
      assert [] + rest == rest;
    } else {
      var f, tail := frames[0], Flatten(frames[1..]) + rest;
      assert Flatten(frames) + rest == f + tail;
      Framing(reg, f, tail);
      assert f[..|f|] == f;
      assert (f + tail)[|f|..] == tail;
      StreamOfFrames(reg, frames[1..], objects[1..], rest);
      assert [objects[0]] + objects[1..] == objects;
    }
  }
}
