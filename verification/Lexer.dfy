/** The recognisers of src/blink_lexer.c as functions of the text and a position in it. */
module Lexer {
  import opened Base
  import Vlc

  /** The tokens that have a fixed spelling. */
  datatype Key =
    | KStar | KEqual | KPeriod | KComma | KLParen | KRParen | KLBracket | KRBracket | KColon | KSlash
    | KQuestion | KAt | KBar | KRArrow | KLArrow
    | KI8 | KI16 | KI32 | KI64 | KU8 | KU16 | KU32 | KU64 | KF64
    | KDecimal | KDate | KTimeOfDayMilli | KTimeOfDayNano | KNanoTime | KMilliTime
    | KBool | KString | KBinary | KObject | KNamespace | KType | KSchema | KFixed

  datatype Token =
    | Keyword(key: Key)
    | Name(text: seq<byte>)
    | CName(text: seq<byte>)
    | Uint(number: uint64)
    | Int(signedNumber: int64)
    | Literal(text: seq<byte>)
    | Unknown
    | Eof
    | NoMemory

  /** The spelling of a key: the table of src/blink_lexer.c:41-80. */
  function Spelling(key: Key): (s: string)
    ensures 1 <= |s| <= 14
  {
    match key
    case KStar => "*"
    case KEqual => "="
    case KPeriod => "."
    case KComma => ","
    case KLParen => "("
    case KRParen => ")"
    case KLBracket => "["
    case KRBracket => "]"
    case KColon => ":"
    case KSlash => "/"
    case KQuestion => "?"
    case KAt => "@"
    case KBar => "|"
    case KRArrow => "->"
    case KLArrow => "<-"
    case KI8 => "i8"
    case KI16 => "i16"
    case KI32 => "i32"
    case KI64 => "i64"
    case KU8 => "u8"
    case KU16 => "u16"
    case KU32 => "u32"
    case KU64 => "u64"
    case KF64 => "f64"
    case KDecimal => "decimal"
    case KDate => "date"
    case KTimeOfDayMilli => "timeOfDayMilli"
    case KTimeOfDayNano => "timeOfDayNano"
    case KNanoTime => "nanotime"
    case KMilliTime => "millitime"
    case KBool => "bool"
    case KString => "string"
    case KBinary => "binary"
    case KObject => "object"
    case KNamespace => "namespace"
    case KType => "type"
    case KSchema => "schema"
    case KFixed => "fixed"
  }

  /** The order in which the table is searched. */
  const TABLE: seq<Key> := MARKS + NUMBERS + WORDS

  const MARKS: seq<Key> := [
    KStar, KEqual, KPeriod, KComma, KLParen, KRParen, KLBracket, KRBracket, KColon, KSlash,
    KQuestion, KAt, KBar, KRArrow, KLArrow]

  const NUMBERS: seq<Key> := [KI8, KI16, KI32, KI64, KU8, KU16, KU32, KU64, KF64]

  const WORDS: seq<Key> := [
    KDecimal, KDate, KTimeOfDayMilli, KTimeOfDayNano, KNanoTime, KMilliTime,
    KBool, KString, KBinary, KObject, KNamespace, KType, KSchema, KFixed]

  // ------------------------------------------------------------------ characters

  const NEWLINE: byte := 10
  const SPACE: byte := 32
  const DOUBLE_QUOTE: byte := 34
  const HASH: byte := 35
  const SINGLE_QUOTE: byte := 39
  const MINUS: byte := 45
  const ZERO: byte := 48
  const COLON: byte := 58
  const BACKSLASH: byte := 92
  const LOWER_X: byte := 120

  predicate IsSeparator(c: byte) {
    c == SPACE || c == NEWLINE || c == 9 || c == 13
  }

  predicate IsDigit(c: byte) {
    ZERO <= c <= 57
  }

  predicate IsFirstNameChar(c: byte) {
    c == 95 || 97 <= c <= 122 || 65 <= c <= 90
  }

  predicate IsNameChar(c: byte) {
    IsFirstNameChar(c) || IsDigit(c)
  }

  /** The value of a hexadecimal digit. */
  function HexDigit(c: byte): Option<nat> {
    if IsDigit(c) then Some(c - ZERO)
    else if 97 <= c <= 102 then Some(c - 97 + 10)
    else if 65 <= c <= 70 then Some(c - 65 + 10)
    else None
  }

  // ----------------------------------------------------------------- recognisers

  /** A recogniser's verdict: the text or number found and the position behind it, no match,
      or a match that does not fit the caller's buffer and the position behind the first byte too
      many. */
  datatype Verdict<+T> = Hit(value: T, next: nat) | Miss | TooLong(next: nat)

  /** The end of the run of name characters starting at pos. */
  function RunEnd(text: seq<byte>, pos: nat): (e: nat)
    requires pos <= |text|
    ensures pos <= e <= |text|
    ensures forall i :: pos <= i < e ==> IsNameChar(text[i])
    ensures e < |text| ==> !IsNameChar(text[e])
    decreases |text| - pos
  {
    if pos < |text| && IsNameChar(text[pos]) then RunEnd(text, pos + 1) else pos
  }

  /** isCName, src/blink_lexer.c:467-552. */
  function CNameAt(text: seq<byte>, pos: nat, max: nat): (v: Verdict<seq<byte>>)
    requires pos <= |text|
    ensures !v.Miss? ==> pos < v.next <= |text|
  {
    if pos == |text| || !IsFirstNameChar(text[pos]) then Miss
    else
      var e := RunEnd(text, pos);
      if e - pos > max then TooLong(pos + max + 1)
      else if e == |text| || text[e] != COLON then Miss
      else if e - pos == max then TooLong(e + 1)
      else if e + 1 == |text| || !IsNameChar(text[e + 1]) then Miss
      else
        var e2 := RunEnd(text, e + 1);
        if e2 - pos > max then TooLong(pos + max + 1) else Hit(text[pos..e2], e2)
  }

  /** isName, src/blink_lexer.c:384-465. The length is only reported when a character follows
      the name, so a name that ends the text has length zero. */
  function NameAt(text: seq<byte>, pos: nat, max: nat): (v: Verdict<seq<byte>>)
    requires pos <= |text|
    ensures !v.Miss? ==> pos < v.next <= |text|
  {
    var start := if pos < |text| && text[pos] == BACKSLASH then pos + 1 else pos;
    if start >= |text| || !IsFirstNameChar(text[start]) then Miss
    else
      var e := RunEnd(text, start);
      if e - start > max then TooLong(start + max + 1)
      else Hit(if e < |text| then text[start..e] else [], e)
  }

  /** Does the key's spelling stand at pos? */
  predicate Stands(text: seq<byte>, pos: nat, key: Key) {
    var s := Spelling(key);
    pos + |s| <= |text| && forall i :: 0 <= i < |s| ==> text[pos + i] == s[i] as int
  }

  /** stringToToken, src/blink_lexer.c:303-331: the first entry that stands at pos. */
  function KeyAt(keys: seq<Key>, text: seq<byte>, pos: nat): Option<Key> {
    if keys == [] then None
    else if Stands(text, pos, keys[0]) then Some(keys[0])
    else KeyAt(keys[1..], text, pos)
  }

  /** The body of isLiteral, src/blink_lexer.c:718-740, from position j on. */
  function LiteralFrom(text: seq<byte>, start: nat, j: nat, mark: byte, max: nat): (v: Verdict<seq<byte>>)
    requires start <= j <= |text|
    ensures !v.Miss? ==> j < v.next <= |text|
    decreases |text| - j
  {
    if j == |text| then Miss
    else if text[j] == mark then Hit(text[start..j], j + 1)
    else if text[j] == NEWLINE then Miss
    else if j - start == max then TooLong(j + 1)
    else LiteralFrom(text, start, j + 1, mark, max)
  }

  /** isLiteral, src/blink_lexer.c:700-744. */
  function LiteralAt(text: seq<byte>, pos: nat, max: nat): (v: Verdict<seq<byte>>)
    requires pos <= |text|
    ensures !v.Miss? ==> pos < v.next <= |text|
  {
    if pos == |text| || (text[pos] != DOUBLE_QUOTE && text[pos] != SINGLE_QUOTE) then Miss
    else LiteralFrom(text, pos + 1, pos + 1, text[pos], max)
  }

  /** The digit loop shared by the decimal recognisers; 64-bit arithmetic wraps. */
  function DecimalFrom(text: seq<byte>, j: nat, acc: uint64): (r: (uint64, nat))
    requires j <= |text|
    ensures j <= r.1 <= |text|
    decreases |text| - j
  {
    if j < |text| && IsDigit(text[j]) then DecimalFrom(text, j + 1, (acc * 10 + (text[j] as int - 48)) % TWO_64)
    else (acc, j)
  }

  /** isUnsignedNumber, src/blink_lexer.c:554-588. */
  function UnsignedAt(text: seq<byte>, pos: nat): (v: Verdict<uint64>)
    requires pos <= |text|
    ensures v.Hit? ==> pos < v.next <= |text|
  {
    if pos < |text| && IsDigit(text[pos]) then
      var (n, e) := DecimalFrom(text, pos + 1, text[pos] as int - 48);
      Hit(n, e)
    else Miss
  }

  /** The negative of an unsigned number, as a signed one. */
  function Negated(n: uint64): int64 {
    Vlc.AsSigned((TWO_64 - n) % TWO_64)
  }

  /** isSignedNumber, src/blink_lexer.c:590-646. The result is negated whether or not there
      was a minus sign; C leaves an overflow undefined, here it wraps. */
  function SignedAt(text: seq<byte>, pos: nat): (v: Verdict<int64>)
    requires pos <= |text|
    ensures v.Hit? ==> pos < v.next <= |text|
  {
    var start := if pos < |text| && text[pos] == MINUS then pos + 1 else pos;
    if start < |text| && IsDigit(text[start]) then
      var (n, e) := DecimalFrom(text, start + 1, text[start] as int - 48);
      Hit(Negated(n), e)
    else Miss
  }

  /** The digit loop of isHexNumber: a seventeenth digit is still accepted. */
  function HexFrom(text: seq<byte>, j: nat, acc: uint64, digits: nat): (v: Verdict<uint64>)
    requires j <= |text|
    ensures v.Hit? ==> j <= v.next <= |text|
    decreases |text| - j
  {
    if j < |text| && HexDigit(text[j]).Some? then
      if digits <= 16 then HexFrom(text, j + 1, (acc * 16) % TWO_64 + HexDigit(text[j]).value, digits + 1)
      else Miss
    else Hit(acc, j)
  }

  /** isHexNumber, src/blink_lexer.c:648-698. */
  function HexAt(text: seq<byte>, pos: nat): (v: Verdict<uint64>)
    requires pos <= |text|
    ensures v.Hit? ==> pos < v.next <= |text|
  {
    if pos + 2 < |text| && text[pos] == ZERO && text[pos + 1] == LOWER_X && HexDigit(text[pos + 2]).Some? then
      HexFrom(text, pos + 3, HexDigit(text[pos + 2]).value, 1)
    else Miss
  }

  // ---------------------------------------------------------------------- tokens

  function SkipSeparators(text: seq<byte>, pos: nat): (p: nat)
    requires pos <= |text|
    ensures pos <= p <= |text|
    ensures p < |text| ==> !IsSeparator(text[p])
    decreases |text| - pos
  {
    if pos < |text| && IsSeparator(text[pos]) then SkipSeparators(text, pos + 1) else pos
  }

  /** Up to and including the next newline. */
  function SkipLine(text: seq<byte>, pos: nat): (p: nat)
    requires pos <= |text|
    ensures pos <= p <= |text|
    decreases |text| - pos
  {
    if pos == |text| then pos
    else if text[pos] == NEWLINE then pos + 1
    else SkipLine(text, pos + 1)
  }

  /** Where the token starts: behind separators and at most one comment. */
  function TokenStart(text: seq<byte>, pos: nat): (p: nat)
    requires pos <= |text|
    ensures pos <= p <= |text|
  {
    var p := SkipSeparators(text, pos);
    if p < |text| && text[p] == HASH then SkipLine(text, p) else p
  }

  /** The recognisers in the order getToken tries them, each from the same position. */
  function TokenAt(text: seq<byte>, p: nat, max: nat): (r: (Token, nat))
    requires p < |text|
    ensures p < r.1 <= |text|
  {
    match CNameAt(text, p, max)
    case Hit(s, e) => (CName(s), e)
    case TooLong(e) => (NoMemory, e)
    case Miss =>
      match KeyAt(TABLE, text, p)
      case Some(k) => KeyFits(TABLE, text, p); (Keyword(k), p + |Spelling(k)|)
      case None =>
        match LiteralAt(text, p, max)
        case Hit(s, e) => (Literal(s), e)
        case TooLong(e) => (NoMemory, e)
        case Miss =>
          match NameAt(text, p, max)
          case Hit(s, e) => (Name(s), e)
          case TooLong(e) => (NoMemory, e)
          case Miss => NumberAt(text, p)
  }

  function NumberAt(text: seq<byte>, p: nat): (r: (Token, nat))
    requires p < |text|
    ensures p < r.1 <= |text|
  {
    var hex, unsigned, signed := HexAt(text, p), UnsignedAt(text, p), SignedAt(text, p);
    if hex.Hit? then (Uint(hex.value), hex.next)
    else if unsigned.Hit? then (Uint(unsigned.value), unsigned.next)
    else if signed.Hit? then (Int(signed.value), signed.next)
    else (Unknown, p + 1)
  }

  lemma {:induction false} KeyFits(keys: seq<Key>, text: seq<byte>, pos: nat)
    ensures var k := KeyAt(keys, text, pos); k.Some? ==> Stands(text, pos, k.value)
  {
    if keys != [] { KeyFits(keys[1..], text, pos); }
  }

  /** BLINK_Lexer_getToken, src/blink_lexer.c:148-280: the token and the position after it.
      A zero byte ends the text like its end does. */
  function GetToken(text: seq<byte>, pos: nat, max: nat): (r: (Token, nat))
    requires pos <= |text|
    ensures pos <= r.1 <= |text|
  {
    var p := TokenStart(text, pos);
    if p == |text| then (Eof, p)
    else if text[p] == 0 then (Eof, p + 1)
    else TokenAt(text, p, max)
  }

  /** Every token but the end of file consumes at least one byte. */
  lemma TokenProgress(text: seq<byte>, pos: nat, max: nat)
    requires pos <= |text|
    ensures !GetToken(text, pos, max).0.Eof? ==> GetToken(text, pos, max).1 > pos
    ensures GetToken(text, pos, max).0.Keyword? || GetToken(text, pos, max).0.Name? ==> pos < |text|
  {
  }
}
