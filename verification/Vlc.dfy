/** The variable-length integer code of src/blink_compact.c, as a code on byte strings.

    Values are the 64-bit words the C code passes; `AsSigned` is the int64_t reading of
    a word. Or-ing bytes into disjoint bit positions is written as addition, and shifts
    as multiplication and division with the 64-bit wrap spelled out. */
module Vlc {
  import opened Base

  // ------------------------------------------------------------ words and bytes

  function Pow256(k: nat): (p: nat)
    ensures p >= 1
  {
    if k == 0 then 1 else 256 * Pow256(k - 1)
  }

  lemma Powers()
    ensures Pow256(0) == 1 && Pow256(1) == 256 && Pow256(2) == 0x1_0000
    ensures Pow256(3) == 0x100_0000 && Pow256(4) == 0x1_0000_0000
    ensures Pow256(5) == 0x100_0000_0000 && Pow256(6) == 0x1_0000_0000_0000
    ensures Pow256(7) == 0x100_0000_0000_0000 && Pow256(8) == 0x1_0000_0000_0000_0000
  {
    assert Pow256(4) == 0x1_0000_0000;
    assert Pow256(6) == 0x1_0000_0000_0000;
  }

  /** The int64_t with the same bits, and back. */
  function AsSigned(u: uint64): int64 {
    if u < TWO_63 then u else u - TWO_64
  }

  function AsWord(i: int64): uint64 {
    if i >= 0 then i else i + TWO_64
  }

  /** The low k bytes of u, least significant first. */
  function LowBytes(u: nat, k: nat): (bs: seq<byte>)
    ensures |bs| == k
    decreases k
  {
    if k == 0 then [] else [u % 256] + LowBytes(u / 256, k - 1)
  }

  /** The number whose base-256 digits, least significant first, are bs. */
  function LittleEndian(bs: seq<byte>): nat {
    if bs == [] then 0 else bs[0] + 256 * LittleEndian(bs[1..])
  }

  lemma {:induction false} LittleEndianBound(bs: seq<byte>)
    ensures LittleEndian(bs) < Pow256(|bs|)
  {
    if bs != [] { LittleEndianBound(bs[1..]); }
  }

  /** Splitting off the last digit; the last digit is the quotient by its weight. */
  lemma {:induction false} LittleEndianLast(bs: seq<byte>)
    requires bs != []
    ensures LittleEndian(bs) == LittleEndian(bs[..|bs| - 1]) + bs[|bs| - 1] * Pow256(|bs| - 1)
  {
    var n := |bs| - 1;
    if n == 0 {
      assert bs[1..] == [];
    } else {
      LittleEndianLast(bs[1..]);
      assert bs[..n][1..] == bs[1..][..n - 1];
      assert bs[1..][n - 1] == bs[n];
      var w, d := Pow256(n - 1), bs[n];
      assert 256 * (d * w) == d * (256 * w);
    }
  }

  lemma {:induction false} LowBytesValue(u: nat, k: nat)
    ensures LittleEndian(LowBytes(u, k)) == u % Pow256(k)
    decreases k
  {
    if k > 0 {
      LowBytesValue(u / 256, k - 1);
      assert LowBytes(u, k)[1..] == LowBytes(u / 256, k - 1);
      ModSplit(u, Pow256(k - 1));
    }
  }

  lemma ModSplit(u: nat, w: nat)
    requires w >= 1
    ensures u % (256 * w) == u % 256 + 256 * ((u / 256) % w)
  {
    var q := u / 256;
    var hi, r := q / w, u % 256 + 256 * (q % w);
    assert q == w * hi + q % w;
    assert u == (256 * w) * hi + r;
    assert 0 <= r < 256 * w;
    ModUnique(u, 256 * w, hi, r);
  }

  lemma ModUnique(u: int, m: int, q: int, r: int)
    requires m > 0 && u == m * q + r && 0 <= r < m
    ensures u % m == r && u / m == q
  {
    var d := u / m - q;
    assert m * d == r - u % m;
    MulBounds(m, d);
  }

  lemma MulBounds(m: int, d: int)
    requires m > 0
    ensures d >= 1 ==> m * d >= m
    ensures d <= -1 ==> m * d <= -m
  {
  }

  /** Byte i of a word, as the C code extracts it: shift right, truncate. */
  lemma {:induction false} LowBytesAt(u: nat, k: nat, i: nat)
    requires i < k
    ensures LowBytes(u, k)[i] == (u / Pow256(i)) % 256
    decreases k
  {
    if i > 0 {
      LowBytesAt(u / 256, k - 1, i - 1);
      DivTwice(u, Pow256(i - 1));
    }
  }

  lemma DivTwice(u: nat, w: nat)
    requires w >= 1
    ensures (u / 256) / w == u / (256 * w)
  {
    var q := u / 256;
    var hi, r := q / w, u % 256 + 256 * (q % w);
    assert q == w * hi + q % w;
    assert u == (256 * w) * hi + r;
    ModUnique(u, 256 * w, hi, r);
  }

  // ------------------------------------------------------------------- encoding

  /** BLINK_Compact_sizeofUnsigned. */
  function SizeofUnsigned(value: uint64): (n: nat)
    ensures 1 <= n <= 9
  {
    if value <= 0x7f then 1
    else if value <= 0x3fff then 2
    else if value <= 0xffff then 3
    else if value <= 0xff_ffff then 4
    else if value <= 0xffff_ffff then 5
    else if value <= 0xff_ffff_ffff then 6
    else if value <= 0xffff_ffff_ffff then 7
    else if value <= 0xff_ffff_ffff_ffff then 8
    else 9
  }

  /** BLINK_Compact_sizeofSigned. */
  function SizeofSigned(value: int64): (n: nat)
    ensures 1 <= n <= 9
  {
    if value < 0 then
      if value >= -64 then 1
      else if value >= -8192 then 2
      else if value >= -32768 then 3
      else if value >= -8388608 then 4
      else if value >= -2147483648 then 5
      else if value >= -549755813888 then 6
      else if value >= -140737488355328 then 7
      else if value >= -36028797018963968 then 8
      else 9
    else
      if value <= 0x3f then 1
      else if value <= 0x1fff then 2
      else if value <= 0x7fff then 3
      else if value <= 0x7f_ffff then 4
      else if value <= 0x7fff_ffff then 5
      else if value <= 0x7f_ffff_ffff then 6
      else if value <= 0x7fff_ffff_ffff then 7
      else if value <= 0x7f_ffff_ffff_ffff then 8
      else 9
  }

  function Size(u: uint64, isSigned: bool): (n: nat)
    ensures 1 <= n <= 9
  {
    if isSigned then SizeofSigned(AsSigned(u)) else SizeofUnsigned(u)
  }

  /** What encodeVLC writes. */
  function Encode(u: uint64, isSigned: bool): (bs: seq<byte>)
    ensures |bs| == Size(u, isSigned)
  {
    var n := Size(u, isSigned);
    if n == 1 then [u % 0x80]
    else if n == 2 then [0x80 + u % 0x40, (u / 0x40) % 0x100]
    else [0xc0 + (n - 1)] + LowBytes(u, n - 1)
  }

  const NULL_BYTE: byte := 0xc0
  const PRESENT_BYTE: byte := 0x01

  // ------------------------------------------------------------------- decoding

  datatype Result = Null | Word(u: uint64)

  /** The word whose low `bits` bits are v and whose other bits copy the top one of those. */
  function SignExtend(v: nat, half: nat): (u: uint64)
    requires v < 2 * half <= TWO_64
  {
    if v < half then v else v + (TWO_64 - 2 * half)
  }

  /** Header byte 0xc1 followed by a byte with its top bit set: the one input for which the
      sign mask of src/blink_compact.c:617 is a byte too short. */
  predicate ShortMask(bs: seq<byte>) {
    |bs| >= 2 && bs[0] == 0xc1 && bs[1] >= 0x80
  }

  /** The word built from one to eight payload bytes. */
  function PayloadWord(payload: seq<byte>, isSigned: bool): uint64
    requires 1 <= |payload| <= 8
  {
    var v := LittleEndian(payload);
    LittleEndianBound(payload);
    PowHalf(|payload|);
    if !isSigned then v
    else if |payload| == 1 && payload[0] >= 0x80 then
      assert v == payload[0] as int by { assert payload[1..] == []; }
      v + 0xff_ffff_ffff_ff00
    else SignExtend(v, Pow256(|payload|) / 2)
  }

  /** What decodeVLC makes of the bytes it can read: the value and the number of bytes used. */
  function Decode(bs: seq<byte>, isSigned: bool): (r: Option<(Result, nat)>)
    ensures r.Some? ==> 1 <= r.value.1 <= |bs| && r.value.1 <= 9
  {
    if |bs| < 1 then None
    else if bs[0] < 0x80 then Some((Word(if isSigned then SignExtend(bs[0], 0x40) else bs[0]), 1))
    else if bs[0] < 0xc0 then
      if |bs| < 2 then None
      else
        var v := bs[0] as int % 0x40 + 0x40 * (bs[1] as int);
        Some((Word(if isSigned then SignExtend(v, 0x2000) else v), 2))
    else if bs[0] == 0xc0 then Some((Null, 1))
    else
      var n := bs[0] - 0xc0;
      if n > 8 || |bs| < n + 1 then None
      else Some((Word(PayloadWord(bs[1..n + 1], isSigned)), n + 1))
  }

  lemma PowHalf(n: nat)
    requires 1 <= n <= 8
    ensures Pow256(n) == 2 * (Pow256(n) / 2) <= TWO_64
  {
    Powers();
  }

  // ------------------------------------------------------------------ the laws

  /** Encoding followed by anything decodes to the word and stops exactly at its end. */
  lemma RoundTrip(u: uint64, isSigned: bool, rest: seq<byte>)
    ensures Decode(Encode(u, isSigned) + rest, isSigned) == Some((Word(u), Size(u, isSigned)))
  {
    var n := Size(u, isSigned);
    if n == 1 { RoundTripOne(u, isSigned, rest); }
    else if n == 2 { RoundTripTwo(u, isSigned, rest); }
    else { RoundTripLong(u, isSigned, rest); }
  }

  lemma RoundTripOne(u: uint64, isSigned: bool, rest: seq<byte>)
    requires Size(u, isSigned) == 1
    ensures Decode(Encode(u, isSigned) + rest, isSigned) == Some((Word(u), 1))
  {
    var bs := Encode(u, isSigned) + rest;
    assert bs[0] == u % 0x80;
  }

  lemma RoundTripTwo(u: uint64, isSigned: bool, rest: seq<byte>)
    requires Size(u, isSigned) == 2
    ensures Decode(Encode(u, isSigned) + rest, isSigned) == Some((Word(u), 2))
  {
    var bs := Encode(u, isSigned) + rest;
    assert bs[0] == 0x80 + u % 0x40 && bs[1] == (u / 0x40) % 0x100;
    TwoByteValue(u, isSigned);
  }

  lemma RoundTripLong(u: uint64, isSigned: bool, rest: seq<byte>)
    requires Size(u, isSigned) > 2
    ensures Decode(Encode(u, isSigned) + rest, isSigned) == Some((Word(u), Size(u, isSigned)))
  {
    var n := Size(u, isSigned);
    var bs := Encode(u, isSigned) + rest;
    assert Encode(u, isSigned) == [0xc0 + (n - 1)] + LowBytes(u, n - 1);
    assert bs[0] == 0xc0 + (n - 1);
    assert bs[1..n] == LowBytes(u, n - 1);
    PayloadRoundTrip(u, isSigned);
  }

  lemma PayloadRoundTrip(u: uint64, isSigned: bool)
    requires Size(u, isSigned) > 2
    ensures PayloadWord(LowBytes(u, Size(u, isSigned) - 1), isSigned) == u
  {
    var k := Size(u, isSigned) - 1;
    LowBytesValue(u, k);
    Powers();
    if isSigned { SignedFits(u); } else { ModUnique(u, Pow256(k), 0, u); }
  }

  lemma TwoByteValue(u: uint64, isSigned: bool)
    requires Size(u, isSigned) == 2
    ensures var v := u % 0x40 + 0x40 * ((u / 0x40) % 0x100);
            v < 0x4000 && u == if isSigned then SignExtend(v, 0x2000) else v
  {
  }

  /** A word long enough to need n - 1 >= 2 payload bytes is restored by sign extension. */
  lemma SignedFits(u: uint64)
    requires SizeofSigned(AsSigned(u)) > 2
    ensures var k := SizeofSigned(AsSigned(u)) - 1;
            var half := Pow256(k) / 2;
            2 <= k <= 8 && 2 * half == Pow256(k) <= TWO_64 && SignExtend(u % Pow256(k), half) == u
  {
    Powers();
    var k := SizeofSigned(AsSigned(u)) - 1;
    var p := Pow256(k);
    if u < TWO_63 { ModUnique(u, p, 0, u); }
    else {
      var q := TWO_64 / p - 1;
      assert TWO_64 == p * (q + 1);
      assert u == p * q + (u - TWO_64 + p);
      ModUnique(u, p, q, u - TWO_64 + p);
    }
  }

  lemma NullRoundTrip(isSigned: bool, rest: seq<byte>)
    ensures Decode([NULL_BYTE] + rest, isSigned) == Some((Null, 1))
  {
  }

  /** The unsigned value of any input is the little-endian number its payload spells: seven
      bits, six bits and a byte, or up to eight bytes. */
  ghost predicate Spells(bs: seq<byte>, v: nat, bits: nat, used: nat) {
    || (used == 1 <= |bs| && bs[0] < 0x80 && v == bs[0] && bits == 7)
    || (used == 2 <= |bs| && 0x80 <= bs[0] < 0xc0 && v == (bs[0] as int - 0x80) + 0x40 * (bs[1] as int) && bits == 14)
    || (3 <= used + 1 <= |bs| + 1 && used <= 9 && bs[0] == 0xc0 + (used - 1)
        && v == LittleEndian(bs[1..used]) && bits == 8 * (used - 1))
  }

  function Pow2(k: nat): (p: nat)
    ensures p >= 1
  {
    if k == 0 then 1 else 2 * Pow2(k - 1)
  }

  lemma {:induction false} Pow2IsPow256(n: nat)
    ensures Pow2(8 * n) == Pow256(n)
  {
    if n > 0 {
      Pow2IsPow256(n - 1);
      var m := 8 * (n - 1);
      assert Pow2(m + 2) == 4 * Pow2(m) && Pow2(m + 4) == 4 * Pow2(m + 2);
      assert Pow2(m + 6) == 4 * Pow2(m + 4) && Pow2(m + 8) == 4 * Pow2(m + 6);
    }
  }

  /** The meaning of decoding, for every input: unsigned it is the payload, signed it is the
      two's-complement reading of the payload, and only ShortMask inputs break the latter. */
  lemma DecodeMeaning(bs: seq<byte>, isSigned: bool)
    ensures var r := Decode(bs, isSigned);
            r.Some? && r.value.0.Word? ==>
              exists v: nat, bits: nat :: 1 <= bits && v < Pow2(bits) && Spells(bs, v, bits, r.value.1)
                && (!isSigned ==> r.value.0.u == v)
                && (isSigned ==> (AsSigned(r.value.0.u) == TwosComplement(v, bits) <==> !ShortMask(bs)))
  {
    hide Pow2;
    var r := Decode(bs, isSigned);
    if r.Some? && r.value.0.Word? {
      if bs[0] < 0x80 {
        ShortPowers();
        assert Spells(bs, bs[0], 7, 1);
      } else if bs[0] < 0xc0 {
        ShortPowers();
        assert Spells(bs, (bs[0] as int - 0x80) + 0x40 * (bs[1] as int), 14, 2);
      } else {
        var n := r.value.1 - 1;
        PayloadMeaning(bs[1..n + 1], isSigned);
        assert Spells(bs, LittleEndian(bs[1..n + 1]), 8 * n, n + 1);
      }
    }
  }

  lemma ShortPowers()
    ensures Pow2(6) == 0x40 && Pow2(7) == 0x80 && Pow2(13) == 0x2000 && Pow2(14) == 0x4000
  {
    assert Pow2(3) == 8 && Pow2(5) == 32 && Pow2(9) == 512;
  }

  /** The integer a `bits`-bit two's-complement field with contents v stands for. */
  function TwosComplement(v: nat, bits: nat): int
    requires bits >= 1
  {
    if v < Pow2(bits - 1) then v else v - Pow2(bits)
  }

  lemma PayloadMeaning(payload: seq<byte>, isSigned: bool)
    requires 1 <= |payload| <= 8
    ensures var v, bits, u := LittleEndian(payload), 8 * |payload|, PayloadWord(payload, isSigned);
            && v < Pow2(bits)
            && (!isSigned ==> u == v)
            && (isSigned ==> (AsSigned(u) == TwosComplement(v, bits) <==> !(|payload| == 1 && payload[0] >= 0x80)))
  {
    LittleEndianBound(payload);
    Pow2IsPow256(|payload|);
    PowHalf(|payload|);
    assert Pow2(8 * |payload|) == 2 * Pow2(8 * |payload| - 1);
    if |payload| == 1 { assert payload[1..] == []; }
  }

  /** No input shorter than the encoding of its value exists; the only exceptions are signed
      ShortMask inputs, and those always are. */
  lemma Minimal(bs: seq<byte>, isSigned: bool)
    ensures var r := Decode(bs, isSigned);
            r.Some? && r.value.0.Word? ==>
              (Size(r.value.0.u, isSigned) <= r.value.1 <==> !(isSigned && ShortMask(bs)))
  {
    var r := Decode(bs, isSigned);
    if r.Some? && r.value.0.Word? && bs[0] > 0xc0 {
      var n := r.value.1 - 1;
      LittleEndianBound(bs[1..n + 1]);
      Powers();
    }
  }

  /** Longer for larger magnitudes, on each sign. */
  lemma SizeMonotone(a: int64, b: int64)
    ensures 0 <= a <= b ==> SizeofUnsigned(a) <= SizeofUnsigned(b) && SizeofSigned(a) <= SizeofSigned(b)
    ensures b <= a < 0 ==> SizeofSigned(a) <= SizeofSigned(b)
  {
  }

  // ------------------------------------------------------------------ bounded reads

  /** Decoding looks only at the bytes it uses. */
  lemma DecodePrefix(bs: seq<byte>, isSigned: bool, rest: seq<byte>)
    requires Decode(bs, isSigned).Some?
    ensures var n := Decode(bs, isSigned).value.1;
            Decode(bs[..n] + rest, isSigned) == Decode(bs, isSigned)
  {
    var n := Decode(bs, isSigned).value.1;
    var cs := bs[..n] + rest;
    assert bs[..n] == cs[..n];
    if bs[0] > 0xc0 { assert cs[1..n] == bs[1..n]; }
  }

  // ---------------------------------------------------------------- typed readers

  /** The unsigned readers of src/blink_compact.c:50-180, which differ in the limit only; a
      boolean is a number up to 1. */
  function ReadUnsigned(bs: seq<byte>, limit: uint64): (r: Option<(Result, nat)>)
    ensures r.Some? ==> Decode(bs, false) == r
  {
    match Decode(bs, false)
    case Some((Word(u), n)) => if u <= limit then Some((Word(u), n)) else None
    case r => r
  }

  /** The signed readers of src/blink_compact.c:182-277. */
  function ReadSigned(bs: seq<byte>, lo: int64, hi: int64): (r: Option<(Result, nat)>)
    ensures r.Some? ==> Decode(bs, true) == r
  {
    match Decode(bs, true)
    case Some((Word(u), n)) => if lo <= AsSigned(u) <= hi then Some((Word(u), n)) else None
    case r => r
  }

  /** src/blink_compact.c:331-353: absent is the null byte, present is 1. */
  function ReadPresent(bs: seq<byte>): (r: Option<(bool, nat)>)
    ensures r.Some? ==> Decode(bs, false).Some? && Decode(bs, false).value.1 == r.value.1 <= |bs|
  {
    match Decode(bs, false)
    case Some((Null, n)) => Some((false, n))
    case Some((Word(u), n)) => if u == 1 then Some((true, n)) else None
    case None => None
  }

  /** src/blink_compact.c:279-309: exponent, then mantissa; only the exponent may be null. */
  function ReadDecimal(bs: seq<byte>): (r: Option<(Option<(int64, int64)>, nat)>)
    ensures r.Some? ==> r.value.1 <= |bs|
  {
    match ReadSigned(bs, -128, 127)
    case None => None
    case Some((Null, n)) => Some((None, n))
    case Some((Word(e), n)) =>
      match Decode(bs[n..], true)
      case Some((Word(m), k)) => Some((Some((AsSigned(m), AsSigned(e))), n + k))
      case _ => None
  }

  lemma ReadDecimalPrefix(bs: seq<byte>, rest: seq<byte>)
    requires ReadDecimal(bs).Some?
    ensures ReadDecimal(bs[..ReadDecimal(bs).value.1] + rest) == ReadDecimal(bs)
  {
    hide Decode;
    var n := Decode(bs, true).value.1;
    var used := ReadDecimal(bs).value.1;
    var cs := bs[..used] + rest;
    assert cs == bs[..n] + (bs[n..used] + rest);
    DecodePrefix(bs, true, bs[n..used] + rest);
    if Decode(bs, true).value.0.Word? {
      DecodePrefix(bs[n..], true, rest);
      assert cs[n..] == bs[n..][..used - n] + rest;
    }
  }

  // ------------------------------------------------------------------ lists

  datatype Item = NullItem | UnsignedItem(u: uint64) | SignedItem(i: int64)

  function ItemBytes(item: Item): (bs: seq<byte>)
    ensures bs != []
  {
    match item
    case NullItem => [NULL_BYTE]
    case UnsignedItem(u) => Encode(u, false)
    case SignedItem(i) => Encode(AsWord(i), true)
  }

  function ItemsBytes(items: seq<Item>): seq<byte> {
    if items == [] then [] else ItemBytes(items[0]) + ItemsBytes(items[1..])
  }

  function ToItem(v: Result, isSigned: bool): Item {
    match v
    case Null => NullItem
    case Word(u) => if isSigned then SignedItem(AsSigned(u)) else UnsignedItem(u)
  }

  /** Decode one item per element of the signedness list; the answer holds what is left over. */
  function DecodeItems(bs: seq<byte>, signs: seq<bool>): (r: Option<(seq<Item>, seq<byte>)>)
    decreases signs
  {
    if signs == [] then Some(([], bs))
    else match Decode(bs, signs[0])
      case None => None
      case Some((v, n)) =>
        match DecodeItems(bs[n..], signs[1..])
        case None => None
        case Some((items, left)) => Some(([ToItem(v, signs[0])] + items, left))
  }

  ghost predicate Fits(item: Item, isSigned: bool) {
    (item.UnsignedItem? ==> !isSigned) && (item.SignedItem? ==> isSigned)
  }

  lemma ItemRoundTrip(item: Item, isSigned: bool, rest: seq<byte>)
    requires Fits(item, isSigned)
    ensures var r := Decode(ItemBytes(item) + rest, isSigned);
            r.Some? && ToItem(r.value.0, isSigned) == item && r.value.1 == |ItemBytes(item)|
  {
    match item
    case NullItem => NullRoundTrip(isSigned, rest);
    case UnsignedItem(u) => RoundTrip(u, false, rest);
    case SignedItem(i) => RoundTrip(AsWord(i), true, rest);
  }

  /** A whole stream of values and nulls comes back unchanged and is used up exactly. */
  lemma {:induction false} StreamRoundTrip(items: seq<Item>, signs: seq<bool>, rest: seq<byte>)
    requires |items| == |signs| && forall k :: 0 <= k < |items| ==> Fits(items[k], signs[k])
    ensures DecodeItems(ItemsBytes(items) + rest, signs) == Some((items, rest))
    decreases items
  {
    if items == [] {
      assert [] + rest == rest;
    } else {
      var head, tail := ItemBytes(items[0]), ItemsBytes(items[1..]);
      var bs := ItemsBytes(items) + rest;
      assert bs == head + (tail + rest);
      ItemRoundTrip(items[0], signs[0], tail + rest);
      assert bs[|head|..] == tail + rest;
      StreamRoundTrip(items[1..], signs[1..], rest);
      assert [items[0]] + items[1..] == items;
    }
  }

  /** No code word, the null byte included, is a prefix of another one of the same signedness. */
  lemma PrefixFree(a: Item, b: Item, isSigned: bool)
    requires Fits(a, isSigned) && Fits(b, isSigned) && ItemBytes(a) <= ItemBytes(b)
    ensures a == b
  {
    hide Decode, ItemBytes;
    var rest := ItemBytes(b)[|ItemBytes(a)|..];
    assert ItemBytes(a) + rest == ItemBytes(b) + [];
    ItemRoundTrip(a, isSigned, rest);
    ItemRoundTrip(b, isSigned, []);
  }
}
