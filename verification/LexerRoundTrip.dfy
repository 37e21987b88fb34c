/** Printing tokens and reading them back. */
module LexerRoundTrip {
  import opened Base
  import opened Lexer
  import Vlc

  // ------------------------------------------------------------------- spellings

  function Code(c: char): byte {
    if c as int < 256 then c as int else 0
  }

  function Codes(s: string): (bs: seq<byte>)
    ensures |bs| == |s| && forall i :: 0 <= i < |s| ==> bs[i] == Code(s[i])
  {
    if s == "" then [] else [Code(s[0])] + Codes(s[1..])
  }

  /** Spellings are plain ASCII without separators, and start a token. */
  predicate Visible(c: char) {
    32 < c as int < 127 && c as int != HASH && (97 <= c as int ==> c as int <= 122 || c as int == 124)
  }

  lemma Ascii(key: Key, i: nat)
    requires i < |Spelling(key)|
    ensures Visible(Spelling(key)[i])
  {
    hide Spelling;
    if Part(key) == 0 { AsciiMark(key, i); } else { Letters(key, i); }
  }

  lemma AsciiMark(key: Key, i: nat)
    requires Part(key) == 0 && i < |Spelling(key)|
    ensures Visible(Spelling(key)[i])
  {
  }

  /** A decision tree over a text: which key, if any, can its spelling be. It looks at no
      character beyond the key it answers. */
  function Classify(text: seq<byte>, pos: nat): Option<Key> {
    if pos >= |text| then None
    else match text[pos]
      case 42 => Some(KStar)
      case 61 => Some(KEqual)
      case 46 => Some(KPeriod)
      case 44 => Some(KComma)
      case 40 => Some(KLParen)
      case 41 => Some(KRParen)
      case 91 => Some(KLBracket)
      case 93 => Some(KRBracket)
      case 58 => Some(KColon)
      case 47 => Some(KSlash)
      case 63 => Some(KQuestion)
      case 64 => Some(KAt)
      case 124 => Some(KBar)
      case 45 => Some(KRArrow)
      case 60 => Some(KLArrow)
      case 109 => Some(KMilliTime)
      case 111 => Some(KObject)
      case _ => if pos + 1 < |text| then ClassifySecond(text, pos) else None
  }

  function ClassifySecond(text: seq<byte>, pos: nat): Option<Key>
    requires pos + 1 < |text|
  {
    var b := text[pos + 1];
    match text[pos]
    case 105 => Some(if b == 56 then KI8 else if b == 49 then KI16 else if b == 51 then KI32 else KI64)
    case 117 => Some(if b == 56 then KU8 else if b == 49 then KU16 else if b == 51 then KU32 else KU64)
    case 102 => Some(if b == 54 then KF64 else KFixed)
    case 100 => Some(if b == 101 then KDecimal else KDate)
    case 98 => Some(if b == 111 then KBool else KBinary)
    case 115 => Some(if b == 116 then KString else KSchema)
    case 110 => if pos + 2 < |text| then Some(if text[pos + 2] == 110 then KNanoTime else KNamespace) else None
    case 116 =>
      if b == 121 then Some(KType)
      else if pos + 9 < |text| then Some(if text[pos + 9] == 77 then KTimeOfDayMilli else KTimeOfDayNano)
      else None
    case _ => None
  }

  /** At most one key stands at any position: the table is prefix-free. */
  lemma OneKeyStands(text: seq<byte>, pos: nat, key: Key)
    requires Stands(text, pos, key)
    ensures Classify(text, pos) == Some(key)
  {
    hide Spelling, Classify;
    StandsAt(text, pos, key);
    match Part(key)
    case 0 => MarkStands(text, pos, key);
    case 1 => NumberStands(text, pos, key);
    case 2 => TimeStands(text, pos, key);
    case _ => WordStands(text, pos, key);
  }

  /** The characters that the decision tree looks at. */
  ghost predicate Tells(text: seq<byte>, pos: nat, key: Key) {
    var s := Spelling(key);
    && pos + |s| <= |text| && text[pos] == s[0] as int
    && (|s| > 1 ==> text[pos + 1] == s[1] as int)
    && (|s| > 2 ==> text[pos + 2] == s[2] as int)
    && (|s| > 9 ==> text[pos + 9] == s[9] as int)
  }

  lemma StandsAt(text: seq<byte>, pos: nat, key: Key)
    requires Stands(text, pos, key)
    ensures Tells(text, pos, key)
  {
    hide Spelling;
    assert text[pos + 0] == Spelling(key)[0] as int;
  }

  lemma MarkStands(text: seq<byte>, pos: nat, key: Key)
    requires Part(key) == 0 && Tells(text, pos, key)
    ensures Classify(text, pos) == Some(key)
  {
  }

  lemma NumberStands(text: seq<byte>, pos: nat, key: Key)
    requires Part(key) == 1 && Tells(text, pos, key)
    ensures Classify(text, pos) == Some(key)
  {
  }

  lemma TimeStands(text: seq<byte>, pos: nat, key: Key)
    requires Part(key) == 2 && Tells(text, pos, key)
    ensures Classify(text, pos) == Some(key)
  {
  }

  lemma WordStands(text: seq<byte>, pos: nat, key: Key)
    requires Part(key) == 3 && Tells(text, pos, key)
    ensures Classify(text, pos) == Some(key)
  {
  }

  lemma TableIsComplete(key: Key)
    ensures key in TABLE
  {
    hide Spelling;
    if key in MARKS || key in NUMBERS || key in WORDS {
    } else {
      InSomePart(key);
    }
  }

  lemma InSomePart(key: Key)
    ensures key in MARKS || key in NUMBERS || key in WORDS
  {
    hide Spelling;
    match Part(key)
    case 0 => InMarks(key);
    case 1 => InNumbers(key);
    case _ => InWords(key);
  }

  lemma InMarks(key: Key)
    requires Part(key) == 0
    ensures key in MARKS
  {
    assert MARKS[Rank(key)] == key;
  }

  lemma InNumbers(key: Key)
    requires Part(key) == 1
    ensures key in NUMBERS
  {
    assert NUMBERS[Rank(key)] == key;
  }

  lemma InWords(key: Key)
    requires Part(key) >= 2
    ensures key in WORDS
  {
    assert WORDS[Rank(key)] == key;
  }

  /** The keys in groups: marks, numbers, times and other words. */
  function Part(key: Key): (n: nat)
    ensures n <= 3
  {
    if key.KI8? || key.KI16? || key.KI32? || key.KI64?
       || key.KU8? || key.KU16? || key.KU32? || key.KU64? || key.KF64? then 1
    else if key.KDecimal? || key.KDate? || key.KTimeOfDayMilli? || key.KTimeOfDayNano?
            || key.KNanoTime? || key.KMilliTime? then 2
    else if key.KBool? || key.KString? || key.KBinary? || key.KObject?
            || key.KNamespace? || key.KType? || key.KSchema? || key.KFixed? then 3
    else 0
  }

  /** The index of a key within its part of the table. */
  function Rank(key: Key): nat {
    match key
    case KStar => 0 case KEqual => 1 case KPeriod => 2 case KComma => 3 case KLParen => 4
    case KRParen => 5 case KLBracket => 6 case KRBracket => 7 case KColon => 8 case KSlash => 9
    case KQuestion => 10 case KAt => 11 case KBar => 12 case KRArrow => 13 case KLArrow => 14
    case KI8 => 0 case KI16 => 1 case KI32 => 2 case KI64 => 3 case KU8 => 4
    case KU16 => 5 case KU32 => 6 case KU64 => 7 case KF64 => 8
    case KDecimal => 0 case KDate => 1 case KTimeOfDayMilli => 2 case KTimeOfDayNano => 3 case KNanoTime => 4
    case KMilliTime => 5 case KBool => 6 case KString => 7 case KBinary => 8 case KObject => 9
    case KNamespace => 10 case KType => 11 case KSchema => 12 case KFixed => 13
  }

  lemma {:induction false} KeyFound(keys: seq<Key>, text: seq<byte>, pos: nat, key: Key)
    requires key in keys && Stands(text, pos, key)
    ensures KeyAt(keys, text, pos) == Some(key)
  {
    if Stands(text, pos, keys[0]) {
      OneKeyStands(text, pos, key);
      OneKeyStands(text, pos, keys[0]);
    } else {
      assert key in keys[1..];
      KeyFound(keys[1..], text, pos, key);
    }
  }

  lemma {:induction false} NoKey(keys: seq<Key>, text: seq<byte>, pos: nat)
    requires Classify(text, pos).None? || (Classify(text, pos).Some? && !Stands(text, pos, Classify(text, pos).value))
    ensures KeyAt(keys, text, pos) == None
  {
    if keys != [] {
      if Stands(text, pos, keys[0]) { OneKeyStands(text, pos, keys[0]); }
      NoKey(keys[1..], text, pos);
    }
  }

  /** The mark that is written so. */
  function MarkNamed(s: string): Option<Key> {
    if s == "*" then Some(KStar)
    else if s == "=" then Some(KEqual)
    else if s == "." then Some(KPeriod)
    else if s == "," then Some(KComma)
    else if s == "(" then Some(KLParen)
    else if s == ")" then Some(KRParen)
    else if s == "[" then Some(KLBracket)
    else if s == "]" then Some(KRBracket)
    else if s == ":" then Some(KColon)
    else if s == "/" then Some(KSlash)
    else if s == "?" then Some(KQuestion)
    else if s == "@" then Some(KAt)
    else if s == "|" then Some(KBar)
    else if s == "->" then Some(KRArrow)
    else if s == "<-" then Some(KLArrow)
    else None
  }

  /** The keyword that is written so. */
  function WordNamed(s: string): Option<Key> {
    match |s|
    case 2 =>
      if s == "i8" then Some(KI8)
      else if s == "u8" then Some(KU8)
      else None
    case 3 =>
      if s == "i16" then Some(KI16)
      else if s == "i32" then Some(KI32)
      else if s == "i64" then Some(KI64)
      else if s == "u16" then Some(KU16)
      else if s == "u32" then Some(KU32)
      else if s == "u64" then Some(KU64)
      else if s == "f64" then Some(KF64)
      else None
    case 4 =>
      if s == "date" then Some(KDate)
      else if s == "bool" then Some(KBool)
      else if s == "type" then Some(KType)
      else None
    case 5 =>
      if s == "fixed" then Some(KFixed)
      else None
    case 6 =>
      if s == "string" then Some(KString)
      else if s == "binary" then Some(KBinary)
      else if s == "object" then Some(KObject)
      else if s == "schema" then Some(KSchema)
      else None
    case 7 =>
      if s == "decimal" then Some(KDecimal)
      else None
    case 8 =>
      if s == "nanotime" then Some(KNanoTime)
      else None
    case 9 =>
      if s == "millitime" then Some(KMilliTime)
      else if s == "namespace" then Some(KNamespace)
      else None
    case 13 =>
      if s == "timeOfDayNano" then Some(KTimeOfDayNano)
      else None
    case 14 =>
      if s == "timeOfDayMilli" then Some(KTimeOfDayMilli)
      else None
    case _ => None
  }

  function KeyNamed(s: string): Option<Key> {
    if MarkNamed(s).Some? then MarkNamed(s) else WordNamed(s)
  }

  /** Every key is written as a scanner of schemas expects it. */
  lemma KeysAreNamed(key: Key)
    ensures KeyNamed(Spelling(key)) == Some(key)
  {
    hide Spelling, MarkNamed, WordNamed;
    if Part(key) == 0 {
      MarksNamed(key);
    } else {
      NoMark(key);
      match Part(key)
      case 1 => NumbersNamed(key);
      case 2 => TimesNamed(key);
      case _ => WordsNamed(key);
    }
  }

  lemma MarksNamed(key: Key)
    requires Part(key) == 0
    ensures MarkNamed(Spelling(key)) == Some(key)
  {
  }

  /** No word begins like a mark. */
  lemma NoMark(key: Key)
    requires Part(key) > 0
    ensures MarkNamed(Spelling(key)) == None
  {
    hide Spelling;
    LettersFirst(key);
  }

  lemma LettersFirst(key: Key)
    requires Part(key) > 0
    ensures 97 <= Spelling(key)[0] as int <= 122
  {
  }

  lemma NumbersNamed(key: Key)
    requires Part(key) == 1
    ensures WordNamed(Spelling(key)) == Some(key)
  {
  }

  lemma TimesNamed(key: Key)
    requires Part(key) == 2
    ensures WordNamed(Spelling(key)) == Some(key)
  {
  }

  lemma WordsNamed(key: Key)
    requires Part(key) == 3
    ensures WordNamed(Spelling(key)) == Some(key)
  {
  }

  // --------------------------------------------------------------------- printing

  /** What a name may begin with, and what it may contain. */
  predicate IsLetter(c: byte) {
    'A' as int <= c <= 'Z' as int || c == '_' as int || 'a' as int <= c <= 'z' as int
  }

  predicate InWord(c: byte) {
    IsLetter(c) || '0' as int <= c <= '9' as int
  }

  /** A decimal numeral without leading zeros. */
  function Numeral(n: nat): (ds: seq<byte>)
    ensures ds != [] && forall d :: d in ds ==> '0' as int <= d <= '9' as int
  {
    if n < 10 then [48 + n] else Numeral(n / 10) + [48 + n % 10]
  }

  /** A hexadecimal numeral whose letters begin with the given one, without leading zeros. */
  function HexNumeral(n: nat, a: byte): (ds: seq<byte>)
    requires a == 'a' as int || a == 'A' as int
    ensures ds != []
  {
    if n < 16 then [HexChar(n, a)] else HexNumeral(n / 16, a) + [HexChar(n % 16, a)]
  }

  function HexChar(d: nat, a: byte): (c: byte)
    requires d < 16 && (a == 'a' as int || a == 'A' as int)
    ensures HexDigit(c) == Some(d)
  {
    if d < 10 then 48 + d else a + (d - 10)
  }

  /** A token, how to print it, and what to print behind it. The form is the quotation mark of a
      literal, a backslash for a name that is to have one, and for an unsigned number the letter
      x or X if it is to be hexadecimal in small or in capital letters. */
  datatype Printed = Printed(token: Token, form: byte, gap: seq<byte>)

  function Print(p: Printed): seq<byte> {
    match p.token
    case Keyword(k) => Codes(Spelling(k))
    case Name(s) => if p.form == '\\' as int then ['\\' as int] + s else s
    case CName(s) => s
    case Uint(n) =>
      if p.form == 'x' as int then ['0' as int, 'x' as int] + HexNumeral(n, 'a' as int)
      else if p.form == 'X' as int then ['0' as int, 'x' as int] + HexNumeral(n, 'A' as int)
      else Numeral(n)
    case Int(i) => ['-' as int] + Numeral(Magnitude(i))
    case Literal(s) => [p.form] + s + [p.form]
    case _ => []
  }

  function Magnitude(i: int64): nat {
    if i < 0 then -(i as int) else i
  }

  ghost predicate IsNameText(s: seq<byte>) {
    s != [] && IsLetter(s[0]) && forall c :: c in s ==> InWord(c)
  }

  /** s is a name, a colon, and one or more characters of a name. */
  ghost predicate IsCNameText(s: seq<byte>, colon: nat) {
    && 0 < colon < |s| - 1 && s[colon] == ':' as int && IsLetter(s[0])
    && forall i :: 0 <= i < |s| && i != colon ==> InWord(s[i])
  }

  /** A name that can do without a backslash: no keyword is a prefix of it. */
  ghost predicate Bare(s: seq<byte>) {
    forall k: Key :: !(Codes(Spelling(k)) <= s)
  }

  /** The tokens that can be printed so that a lexer with a buffer of `max` bytes reads them. */
  ghost predicate Printable(p: Printed, max: nat) {
    match p.token
    case Keyword(k) => |Spelling(k)| <= max
    case Name(s) => IsNameText(s) && |s| <= max && (p.form == '\\' as int || Bare(s))
    case CName(s) => (exists colon :: IsCNameText(s, colon)) && |s| <= max
    case Uint(_) => true
    case Int(i) => -TWO_63 < i <= 0
    case Literal(s) =>
      (p.form == '"' as int || p.form == '\'' as int) && p.form !in s && '\n' as int !in s && |s| <= max
    case _ => false
  }

  /** What may be printed behind a token, up to the end of the text. A literal or a mark may
      be followed by anything. A number or a qualified name ends where no character of a name
      follows. A word must be followed by something, and not by what would make it the first
      half of a qualified name. */
  predicate MayFollow(p: Printed, rest: seq<byte>, max: nat) {
    match p.token
    case Keyword(k) => IsLetter(Code(Spelling(k)[0])) ==> EndsWord(rest, |Spelling(k)|, max)
    case Name(s) => EndsWord(rest, |s|, max)
    case Literal(_) => true
    case _ => rest == [] || !InWord(rest[0])
  }

  predicate EndsWord(rest: seq<byte>, length: nat, max: nat) {
    && rest != [] && !InWord(rest[0])
    && (rest[0] == ':' as int ==> length < max && (|rest| == 1 || !InWord(rest[1])))
  }

  /** What may separate tokens: any run of spaces, tabs, newlines and carriage returns, and
      then a comment at most. */
  predicate IsGap(g: seq<byte>) {
    g == [] || (IsBlank(g[0]) && IsGap(g[1..])) || IsComment(g)
  }

  predicate IsBlank(c: byte) {
    c == ' ' as int || c == '\t' as int || c == '\n' as int || c == '\r' as int
  }

  /** From a hash sign to the end of the line. */
  predicate IsComment(g: seq<byte>) {
    && |g| >= 2 && g[0] == '#' as int && g[|g| - 1] == '\n' as int
    && forall i :: 0 <= i < |g| - 1 ==> g[i] != '\n' as int
  }

  /** t stands at pos in the text. */
  ghost predicate Here(text: seq<byte>, pos: nat, t: seq<byte>) {
    pos + |t| <= |text| && forall i :: 0 <= i < |t| ==> text[pos + i] == t[i]
  }

  /** No character of a name stands at e. */
  ghost predicate WordOver(text: seq<byte>, e: nat) {
    e < |text| ==> !InWord(text[e])
  }

  // ----------------------------------------------------------- one token at a time

  lemma {:induction false} RunEndIs(text: seq<byte>, pos: nat, e: nat)
    requires pos <= e <= |text| && WordOver(text, e) && forall i :: pos <= i < e ==> InWord(text[i])
    ensures RunEnd(text, pos) == e
    decreases e - pos
  {
    if pos < e { RunEndIs(text, pos + 1, e); }
  }

  lemma {:induction false} LiteralIs(text: seq<byte>, start: nat, j: nat, e: nat, mark: byte, max: nat)
    requires start <= j <= e < |text| && e - start <= max && text[e] == mark
    requires forall i :: j <= i < e ==> text[i] != mark && text[i] != '\n' as int
    ensures LiteralFrom(text, start, j, mark, max) == Hit(text[start..e], e + 1)
    decreases e - j
  {
    if j < e { LiteralIs(text, start, j + 1, e, mark, max); }
  }

  lemma {:induction false} NumeralIs(text: seq<byte>, pos: nat, n: nat)
    requires n < TWO_64 && pos + |Numeral(n)| <= |text|
    requires forall i :: 0 <= i < |Numeral(n)| ==> text[pos + i] == Numeral(n)[i]
    ensures DecimalFrom(text, pos, 0) == DecimalFrom(text, pos + |Numeral(n)|, n)
    decreases n
  {
    hide DecimalFrom;
    if n < 10 {
      assert text[pos + 0] == Numeral(n)[0];
      FirstDigit(text, pos);
    } else {
      var q, ds := n / 10, Numeral(n / 10);
      forall i | 0 <= i < |ds| ensures text[pos + i] == ds[i] { assert Numeral(n)[i] == ds[i]; }
      NumeralIs(text, pos, q);
      assert text[pos + |ds|] == Numeral(n)[|ds|] == 48 + n % 10;
      OneMoreDigit(text, pos + |ds|, n);
    }
  }

  lemma OneMoreDigit(text: seq<byte>, j: nat, n: nat)
    requires 10 <= n < TWO_64 && j < |text| && text[j] == 48 + n % 10
    ensures DecimalFrom(text, j, n / 10) == DecimalFrom(text, j + 1, n)
  {
    assert (n / 10) * 10 + n % 10 == n;
  }

  lemma DecimalIs(text: seq<byte>, pos: nat, n: nat)
    requires n < TWO_64 && Here(text, pos, Numeral(n)) && WordOver(text, pos + |Numeral(n)|)
    ensures UnsignedAt(text, pos) == Hit(n, pos + |Numeral(n)|)
  {
    hide Numeral, DecimalFrom;
    assert Numeral(n)[0] in Numeral(n);
    assert text[pos + 0] == Numeral(n)[0];
    NumeralIs(text, pos, n);
    FirstDigit(text, pos);
    NumeralEnds(text, pos + |Numeral(n)|, n);
  }

  lemma FirstDigit(text: seq<byte>, pos: nat)
    requires pos < |text| && IsDigit(text[pos])
    ensures DecimalFrom(text, pos, 0) == DecimalFrom(text, pos + 1, text[pos] as int - 48)
  {
  }

  lemma NumeralEnds(text: seq<byte>, j: nat, n: uint64)
    requires j <= |text| && WordOver(text, j)
    ensures DecimalFrom(text, j, n) == (n, j)
  {
  }

  /** What follows a word: enough to know that the word is over and begins no qualified name. */
  ghost predicate WordEndsAt(text: seq<byte>, pos: nat, e: nat, max: nat) {
    pos <= e <= |text| && EndsWord(text[e..], e - pos, max)
  }

  /** A word is not taken for the first half of a qualified name. */
  lemma NotCName(text: seq<byte>, pos: nat, e: nat, max: nat)
    requires pos < e && e - pos <= max && WordEndsAt(text, pos, e, max)
    requires forall i :: pos <= i < e ==> InWord(text[i])
    ensures CNameAt(text, pos, max) == Miss
  {
    hide RunEnd;
    assert text[e..][0] == text[e];
    RunEndIs(text, pos, e);
    if text[e] == COLON && e + 1 < |text| { assert text[e..][1] == text[e + 1]; }
  }

  lemma KeywordBack(text: seq<byte>, pos: nat, k: Key, max: nat)
    requires Here(text, pos, Codes(Spelling(k))) && |Spelling(k)| <= max
    requires IsLetter(Code(Spelling(k)[0])) ==> WordEndsAt(text, pos, pos + |Spelling(k)|, max)
    ensures TokenAt(text, pos, max) == (Keyword(k), pos + |Spelling(k)|)
  {
    hide Spelling, CNameAt, TABLE, EndsWord;
    var s := Codes(Spelling(k));
    assert Stands(text, pos, k) by {
      forall i | 0 <= i < |Spelling(k)| ensures text[pos + i] == Spelling(k)[i] as int {
        Ascii(k, i);
        assert text[pos + i] == s[i];
      }
    }
    TableIsComplete(k);
    KeyFound(TABLE, text, pos, k);
    KeyIsNoCName(text, pos, k, max);
  }

  lemma KeyIsNoCName(text: seq<byte>, pos: nat, k: Key, max: nat)
    requires Stands(text, pos, k) && |Spelling(k)| <= max
    requires IsLetter(Code(Spelling(k)[0])) ==> WordEndsAt(text, pos, pos + |Spelling(k)|, max)
    ensures CNameAt(text, pos, max) == Miss
  {
    hide Spelling, EndsWord;
    var e := pos + |Spelling(k)|;
    Ascii(k, 0);
    assert text[pos + 0] == Spelling(k)[0] as int;
    if IsLetter(text[pos]) {
      forall i | pos <= i < e ensures InWord(text[i]) {
        assert text[pos + (i - pos)] == Spelling(k)[i - pos] as int;
        Letters(k, i - pos);
      }
      NotCName(text, pos, e, max);
    }
  }

  /** A word is spelled with characters of a name. */
  lemma Letters(k: Key, i: nat)
    requires i < |Spelling(k)| && (Part(k) > 0 || IsLetter(Code(Spelling(k)[0])))
    ensures InWord(Code(Spelling(k)[i])) && Code(Spelling(k)[i]) == Spelling(k)[i] as int
  {
    hide Spelling, IsLetter, InWord;
    match Part(k)
    case 0 => MarkLetters(k);
    case 1 => NumberLetters(k, i);
    case 2 => TimeLetters(k, i);
    case _ => WordLetters(k, i);
  }

  lemma MarkLetters(k: Key)
    requires Part(k) == 0
    ensures !IsLetter(Code(Spelling(k)[0]))
  {
  }

  lemma NumberLetters(k: Key, i: nat)
    requires Part(k) == 1 && i < |Spelling(k)|
    ensures InWord(Code(Spelling(k)[i])) && Code(Spelling(k)[i]) == Spelling(k)[i] as int
  {
  }

  lemma TimeLetters(k: Key, i: nat)
    requires Part(k) == 2 && i < |Spelling(k)|
    ensures InWord(Code(Spelling(k)[i])) && Code(Spelling(k)[i]) == Spelling(k)[i] as int
  {
  }

  lemma WordLetters(k: Key, i: nat)
    requires Part(k) == 3 && i < |Spelling(k)|
    ensures InWord(Code(Spelling(k)[i])) && Code(Spelling(k)[i]) == Spelling(k)[i] as int
  {
  }

  /** A stretch of the text that equals s position by position is s. */
  lemma SliceIs(text: seq<byte>, at: nat, s: seq<byte>)
    requires at + |s| <= |text| && forall i :: 0 <= i < |s| ==> text[at + i] == s[i]
    ensures text[at..at + |s|] == s
  {
  }

  lemma NameIs(text: seq<byte>, pos: nat, s: seq<byte>)
    requires IsNameText(s) && Here(text, pos, s)
    ensures IsLetter(text[pos]) && text[pos..pos + |s|] == s
    ensures forall i :: pos <= i < pos + |s| ==> InWord(text[i])
  {
    hide IsLetter, InWord;
    assert text[pos + 0] == s[0];
    forall i | pos <= i < pos + |s| ensures InWord(text[i]) {
      assert text[pos + (i - pos)] == s[i - pos];
      assert s[i - pos] in s;
    }
    SliceIs(text, pos, s);
  }

  /** A name that stands in the text is a run of characters of a name. */
  lemma NameStands(text: seq<byte>, pos: nat, s: seq<byte>, max: nat)
    requires IsNameText(s) && Here(text, pos, s) && WordEndsAt(text, pos, pos + |s|, max)
    ensures pos + |s| < |text| && RunEnd(text, pos) == pos + |s|
  {
    hide RunEnd, IsLetter, InWord;
    var e := pos + |s|;
    NameIs(text, pos, s);
    assert text[e..][0] == text[e];
    RunEndIs(text, pos, e);
  }

  /** Which recogniser decides, if the ones in front of it miss. */
  lemma TokenIsLiteral(text: seq<byte>, pos: nat, max: nat)
    requires pos < |text| && CNameAt(text, pos, max) == Miss && KeyAt(TABLE, text, pos) == None
    requires LiteralAt(text, pos, max).Hit?
    ensures TokenAt(text, pos, max) == (Literal(LiteralAt(text, pos, max).value), LiteralAt(text, pos, max).next)
  {
    hide TABLE, KeyAt, CNameAt, LiteralAt, NameAt, NumberAt;
  }

  lemma TokenIsName(text: seq<byte>, pos: nat, max: nat)
    requires pos < |text| && CNameAt(text, pos, max) == Miss && KeyAt(TABLE, text, pos) == None
    requires LiteralAt(text, pos, max) == Miss && NameAt(text, pos, max).Hit?
    ensures TokenAt(text, pos, max) == (Name(NameAt(text, pos, max).value), NameAt(text, pos, max).next)
  {
    hide TABLE, KeyAt, CNameAt, LiteralAt, NameAt, NumberAt;
  }

  /** A backslash or a quotation mark starts neither a qualified name nor a keyword, and a
      backslash no literal. */
  lemma MarkAt(text: seq<byte>, pos: nat, max: nat)
    requires pos < |text| && (text[pos] == '\\' as int || text[pos] == '\'' as int || text[pos] == '"' as int)
    ensures CNameAt(text, pos, max) == Miss && KeyAt(TABLE, text, pos) == None
    ensures text[pos] == '\\' as int ==> LiteralAt(text, pos, max) == Miss
  {
    hide TABLE, RunEnd, LiteralFrom;
    NoKey(TABLE, text, pos);
  }

  lemma EscapedBack(text: seq<byte>, pos: nat, s: seq<byte>, max: nat)
    requires IsNameText(s) && |s| <= max && Here(text, pos, ['\\' as int] + s)
    requires WordEndsAt(text, pos + 1, pos + 1 + |s|, max)
    ensures TokenAt(text, pos, max) == (Name(s), pos + 1 + |s|)
  {
    hide TABLE, TokenAt, CNameAt, LiteralAt, KeyAt, RunEnd, IsLetter, IsNameText, EndsWord;
    MarkThen(text, pos, '\\' as int, s);
    NameStands(text, pos + 1, s, max);
    NameIs(text, pos + 1, s);
    MarkAt(text, pos, max);
    NameHit(text, pos, pos + 1, s, max);
    TokenIsName(text, pos, max);
  }

  lemma NameHit(text: seq<byte>, pos: nat, start: nat, s: seq<byte>, max: nat)
    requires pos < |text| && start == (if text[pos] == '\\' as int then pos + 1 else pos) && start < |text|
    requires IsLetter(text[start]) && start + |s| < |text| && RunEnd(text, start) == start + |s|
    requires text[start..start + |s|] == s && |s| <= max
    ensures NameAt(text, pos, max) == Hit(s, start + |s|)
  {
    hide RunEnd;
  }

  /** A keyword that stands where a letter does continues with characters of a name. */
  lemma KeyGoesOn(text: seq<byte>, pos: nat, k: Key, i: nat)
    requires Stands(text, pos, k) && IsLetter(text[pos]) && i < |Spelling(k)|
    ensures pos + i < |text| && InWord(text[pos + i])
  {
    hide Spelling, IsLetter, InWord;
    assert text[pos + 0] == Spelling(k)[0] as int;
    assert text[pos + i] == Spelling(k)[i] as int;
    Ascii(k, 0);
    Letters(k, i);
  }

  lemma KeyIsPrefix(text: seq<byte>, pos: nat, k: Key, s: seq<byte>)
    requires Stands(text, pos, k) && Here(text, pos, s) && |Spelling(k)| <= |s|
    ensures Codes(Spelling(k)) <= s
  {
    hide Spelling;
    var t := Spelling(k);
    forall i | 0 <= i < |t| ensures Codes(t)[i] == s[i] {
      Ascii(k, i);
      assert text[pos + i] == t[i] as int;
    }
  }

  /** No keyword stands where a bare name does. */
  lemma NoKeyword(text: seq<byte>, pos: nat, s: seq<byte>, k: Key)
    requires IsNameText(s) && Bare(s) && Here(text, pos, s) && WordOver(text, pos + |s|)
    ensures !Stands(text, pos, k)
  {
    hide Spelling, IsLetter, InWord, Stands, Here;
    NameIs(text, pos, s);
    if Stands(text, pos, k) {
      if |s| < |Spelling(k)| { KeyGoesOn(text, pos, k, |s|); } else { KeyIsPrefix(text, pos, k, s); }
    }
  }

  lemma {:induction false} NoKeywords(keys: seq<Key>, text: seq<byte>, pos: nat, s: seq<byte>)
    requires IsNameText(s) && Bare(s) && Here(text, pos, s) && WordOver(text, pos + |s|)
    ensures KeyAt(keys, text, pos) == None
  {
    hide Stands, Bare, IsNameText, Here, WordOver;
    if keys != [] {
      NoKeyword(text, pos, s, keys[0]);
      NoKeywords(keys[1..], text, pos, s);
    }
  }

  lemma BareBack(text: seq<byte>, pos: nat, s: seq<byte>, max: nat)
    requires IsNameText(s) && Bare(s) && |s| <= max && Here(text, pos, s)
    requires WordEndsAt(text, pos, pos + |s|, max)
    ensures TokenAt(text, pos, max) == (Name(s), pos + |s|)
  {
    hide TABLE, TokenAt, CNameAt, LiteralAt, KeyAt, RunEnd, Bare, InWord, EndsWord;
    NameStands(text, pos, s, max);
    NameIs(text, pos, s);
    NotCName(text, pos, pos + |s|, max);
    OverAt(text, pos, pos + |s|, max);
    NoKeywords(TABLE, text, pos, s);
    LetterIsNoMark(text, pos, max);
    NameHit(text, pos, pos, s, max);
    TokenIsName(text, pos, max);
  }

  lemma OverAt(text: seq<byte>, pos: nat, e: nat, max: nat)
    requires WordEndsAt(text, pos, e, max)
    ensures WordOver(text, e)
  {
    if e < |text| { assert text[e..][0] == text[e]; }
  }

  lemma LetterIsNoMark(text: seq<byte>, pos: nat, max: nat)
    requires pos < |text| && IsLetter(text[pos])
    ensures LiteralAt(text, pos, max) == Miss && text[pos] != '\\' as int
  {
  }

  lemma CNameBack(text: seq<byte>, pos: nat, s: seq<byte>, colon: nat, max: nat)
    requires IsCNameText(s, colon) && |s| <= max && Here(text, pos, s) && WordOver(text, pos + |s|)
    ensures TokenAt(text, pos, max) == (CName(s), pos + |s|)
  {
    hide TABLE, KeyAt, RunEnd;
    var e, e2 := pos + colon, pos + |s|;
    assert text[pos] == s[0];
    assert text[e] == s[colon];
    forall i | pos <= i < e ensures InWord(text[i]) { assert text[i] == s[i - pos]; }
    RunEndIs(text, pos, e);
    forall i | e + 1 <= i < e2 ensures InWord(text[i]) { assert text[i] == s[i - pos]; }
    RunEndIs(text, e + 1, e2);
    SliceIs(text, pos, s);
  }

  lemma LiteralBack(text: seq<byte>, pos: nat, s: seq<byte>, mark: byte, max: nat)
    requires mark == '"' as int || mark == '\'' as int
    requires mark !in s && '\n' as int !in s && |s| <= max && Here(text, pos, [mark] + s + [mark])
    ensures TokenAt(text, pos, max) == (Literal(s), pos + |s| + 2)
  {
    hide TABLE, TokenAt, CNameAt, KeyAt, LiteralAt;
    assert text[pos + 0] == ([mark] + s + [mark])[0];
    QuotedAt(text, pos, s, mark, max);
    MarkAt(text, pos, max);
    TokenIsLiteral(text, pos, max);
  }

  lemma QuotedAt(text: seq<byte>, pos: nat, s: seq<byte>, mark: byte, max: nat)
    requires mark == '"' as int || mark == '\'' as int
    requires mark !in s && '\n' as int !in s && |s| <= max && Here(text, pos, [mark] + s + [mark])
    ensures LiteralAt(text, pos, max) == Hit(s, pos + |s| + 2)
  {
    hide LiteralFrom;
    var t := [mark] + s + [mark];
    var e := pos + 1 + |s|;
    assert text[pos] == text[pos + 0] == t[0] == mark;
    assert text[e] == text[pos + (1 + |s|)] == t[1 + |s|] == mark;
    forall i | 0 <= i < |s| ensures text[pos + 1 + i] == s[i] { assert text[pos + (1 + i)] == t[1 + i]; }
    forall i | pos + 1 <= i < e ensures text[i] != mark && text[i] != '\n' as int {
      assert text[pos + 1 + (i - pos - 1)] == s[i - pos - 1];
    }
    LiteralIs(text, pos + 1, pos + 1, e, mark, max);
    SliceIs(text, pos + 1, s);
  }

  lemma UintBack(text: seq<byte>, pos: nat, n: uint64, max: nat)
    requires Here(text, pos, Numeral(n)) && WordOver(text, pos + |Numeral(n)|)
    ensures TokenAt(text, pos, max) == (Uint(n), pos + |Numeral(n)|)
  {
    hide TABLE, KeyAt, DecimalFrom, Numeral, Classify, CNameAt, LiteralAt, NameAt, SignedAt, UnsignedAt;
    var ds := Numeral(n);
    assert ds[0] in ds && text[pos + 0] == ds[0];
    assert pos + 1 < |text| ==> text[pos + 1] != 'x' as int by {
      if |ds| > 1 { assert text[pos + 1] == ds[1]; assert ds[1] in ds; }
    }
    NotText(text, pos, max);
    DecimalIs(text, pos, n);
  }

  lemma {:induction false} HexLength(n: nat, k: nat, a: byte)
    requires n < Vlc.Pow256(k) && k > 0 && (a == 'a' as int || a == 'A' as int)
    ensures |HexNumeral(n, a)| <= 2 * k
    decreases k
  {
    if n >= 16 && n / 16 >= 16 {
      assert Vlc.Pow256(k) == 256 * Vlc.Pow256(k - 1);
      assert n / 16 / 16 == n / 256;
      HexLength(n / 256, k - 1, a);
    }
  }

  lemma HexEnds(text: seq<byte>, j: nat, n: uint64, digits: nat)
    requires j <= |text| && WordOver(text, j)
    ensures HexFrom(text, j, n, digits) == Hit(n, j)
  {
  }

  /** A digit, or a minus sign before a digit, starts neither a word nor a literal. */
  lemma NotText(text: seq<byte>, pos: nat, max: nat)
    requires pos < |text|
    requires IsDigit(text[pos]) || (text[pos] == '-' as int && pos + 1 < |text| && IsDigit(text[pos + 1]))
    ensures CNameAt(text, pos, max) == Miss && KeyAt(TABLE, text, pos) == None
    ensures LiteralAt(text, pos, max) == Miss && NameAt(text, pos, max) == Miss
  {
    hide TABLE;
    if text[pos] == '-' as int { NotArrow(text, pos); } else { NoKey(TABLE, text, pos); }
  }

  lemma IntBack(text: seq<byte>, pos: nat, i: int64, max: nat)
    requires -TWO_63 < i <= 0 && Here(text, pos, ['-' as int] + Numeral(Magnitude(i)))
    requires WordOver(text, pos + 1 + |Numeral(Magnitude(i))|)
    ensures TokenAt(text, pos, max) == (Int(i), pos + 1 + |Numeral(Magnitude(i))|)
  {
    hide TABLE, KeyAt, DecimalFrom, Numeral, CNameAt, LiteralAt, NameAt, UnsignedAt, Magnitude;
    var ds := Numeral(Magnitude(i));
    MarkThen(text, pos, '-' as int, ds);
    assert text[pos + 1 + 0] == ds[0];
    assert ds[0] in ds;
    NotText(text, pos, max);
    NegativeAt(text, pos, i);
    NotUnsigned(text, pos);
  }

  lemma MarkThen(text: seq<byte>, pos: nat, mark: byte, s: seq<byte>)
    requires Here(text, pos, [mark] + s)
    ensures text[pos] == mark && Here(text, pos + 1, s)
  {
    var t := [mark] + s;
    assert text[pos] == text[pos + 0] == t[0];
    forall k | 0 <= k < |s| ensures text[pos + 1 + k] == s[k] { assert text[pos + (1 + k)] == t[1 + k]; }
  }

  lemma NotUnsigned(text: seq<byte>, pos: nat)
    requires pos < |text| && text[pos] == '-' as int
    ensures UnsignedAt(text, pos) == Miss && HexAt(text, pos) == Miss
  {
  }

  lemma NegativeAt(text: seq<byte>, pos: nat, i: int64)
    requires -TWO_63 < i <= 0 && pos < |text| && text[pos] == '-' as int && Here(text, pos + 1, Numeral(Magnitude(i)))
    requires WordOver(text, pos + 1 + |Numeral(Magnitude(i))|)
    ensures SignedAt(text, pos) == Hit(i, pos + 1 + |Numeral(Magnitude(i))|)
  {
    hide Numeral;
    var n := Magnitude(i);
    DecimalIs(text, pos + 1, n);
    assert n > 0 ==> (TWO_64 - n) % TWO_64 == TWO_64 - n;
  }

  lemma NotArrow(text: seq<byte>, pos: nat)
    requires pos + 1 < |text| && text[pos] == '-' as int && IsDigit(text[pos + 1])
    ensures KeyAt(TABLE, text, pos) == None
  {
    hide TABLE;
    var arrow := Spelling(KRArrow);
    assert arrow[1] as int == 62;
    assert text[pos + 1] != arrow[1] as int;
    assert !Stands(text, pos, KRArrow);
    NoKey(TABLE, text, pos);
  }

  /** What stands behind the token in the text. */
  ghost predicate Behind(text: seq<byte>, pos: nat, p: Printed, max: nat) {
    pos + |Print(p)| <= |text| && MayFollow(p, text[pos + |Print(p)|..], max)
  }

  lemma NumberOver(text: seq<byte>, e: nat)
    requires e <= |text| && (text[e..] == [] || !InWord(text[e..][0]))
    ensures WordOver(text, e)
  {
  }

  /** A printed token with something behind it that may follow it is recognised as itself. */
  lemma TokenBack(text: seq<byte>, pos: nat, p: Printed, max: nat)
    requires Printable(p, max) && Here(text, pos, Print(p)) && Behind(text, pos, p, max)
    ensures TokenAt(text, pos, max) == (p.token, pos + |Print(p)|)
  {
    hide TokenAt, Here, Numeral, HexNumeral, Spelling, EndsWord, InWord, IsLetter, Bare, IsNameText;
    var e := pos + |Print(p)|;
    if p.token.Uint? || p.token.Int? || p.token.CName? { NumberOver(text, e); }
    match p.token
    case Keyword(k) => KeywordBack(text, pos, k, max);
    case Name(s) =>
      if p.form == '\\' as int { EscapedBack(text, pos, s, max); } else { BareBack(text, pos, s, max); }
    case CName(s) => var colon :| IsCNameText(s, colon); CNameBack(text, pos, s, colon, max);
    case Uint(n) =>
      if p.form == 'x' as int { HexBack(text, pos, n, 'a' as int, max); }
      else if p.form == 'X' as int { HexBack(text, pos, n, 'A' as int, max); }
      else { UintBack(text, pos, n, max); }
    case Int(i) => IntBack(text, pos, i, max);
    case Literal(s) => LiteralBack(text, pos, s, p.form, max);
  }

  // ----------------------------------------------- what is too long, wraps or ends the text

  /** A run of characters of a name that the buffer does not hold. */
  ghost predicate LongWord(s: seq<byte>, max: nat) {
    |s| > max && IsLetter(s[0]) && forall c :: c in s ==> InWord(c)
  }

  lemma {:induction false} RunEndBehind(text: seq<byte>, pos: nat, e: nat)
    requires pos <= e <= |text| && forall i :: pos <= i < e ==> InWord(text[i])
    ensures RunEnd(text, pos) >= e
    decreases e - pos
  {
    if pos < e { RunEndBehind(text, pos + 1, e); }
  }

  lemma LongRun(text: seq<byte>, pos: nat, s: seq<byte>, max: nat)
    requires LongWord(s, max) && Here(text, pos, s)
    ensures IsLetter(text[pos]) && RunEnd(text, pos) > pos + max
  {
    hide RunEnd, IsLetter, InWord;
    assert text[pos + 0] == s[0];
    forall i | pos <= i < pos + |s| ensures InWord(text[i]) {
      assert text[pos + (i - pos)] == s[i - pos];
      assert s[i - pos] in s;
    }
    RunEndBehind(text, pos, pos + |s|);
  }

  /** A name, or a first half of a qualified name, that does not fit is reported, whatever it
      begins with. */
  lemma LongNameBack(text: seq<byte>, pos: nat, s: seq<byte>, max: nat)
    requires LongWord(s, max) && Here(text, pos, s)
    ensures TokenAt(text, pos, max).0 == NoMemory
  {
    hide RunEnd, KeyAt, LiteralAt, NameAt, NumberAt, LongWord;
    LongRun(text, pos, s, max);
  }

  lemma LongEscapedBack(text: seq<byte>, pos: nat, s: seq<byte>, max: nat)
    requires LongWord(s, max) && Here(text, pos, ['\\' as int] + s)
    ensures TokenAt(text, pos, max).0 == NoMemory
  {
    hide RunEnd, KeyAt, CNameAt, LiteralAt, NumberAt, LongWord, TABLE;
    MarkThen(text, pos, '\\' as int, s);
    LongRun(text, pos + 1, s, max);
    MarkAt(text, pos, max);
  }

  lemma LongLiteralBack(text: seq<byte>, pos: nat, s: seq<byte>, mark: byte, max: nat)
    requires mark == '"' as int || mark == '\'' as int
    requires |s| > max && mark !in s && '\n' as int !in s && Here(text, pos, [mark] + s)
    ensures TokenAt(text, pos, max).0 == NoMemory
  {
    hide CNameAt, KeyAt, NameAt, NumberAt, TABLE, LiteralFrom;
    MarkThen(text, pos, mark, s);
    MarkAt(text, pos, max);
    forall i | pos + 1 <= i <= pos + 1 + max ensures text[i] != mark && text[i] != '\n' as int {
      assert text[pos + 1 + (i - pos - 1)] == s[i - pos - 1];
    }
    LiteralTooLong(text, pos + 1, pos + 1, mark, max);
  }

  lemma {:induction false} LiteralTooLong(text: seq<byte>, start: nat, j: nat, mark: byte, max: nat)
    requires start <= j <= start + max < |text|
    requires forall i :: j <= i <= start + max ==> text[i] != mark && text[i] != '\n' as int
    ensures LiteralFrom(text, start, j, mark, max).TooLong?
    decreases start + max - j
  {
    if j < start + max { LiteralTooLong(text, start, j + 1, mark, max); }
  }

  /** A qualified name whose halves together do not fit. */
  lemma LongCNameBack(text: seq<byte>, pos: nat, s: seq<byte>, colon: nat, max: nat)
    requires IsCNameText(s, colon) && |s| > max && Here(text, pos, s)
    ensures TokenAt(text, pos, max).0 == NoMemory
  {
    hide RunEnd, KeyAt, LiteralAt, NameAt, NumberAt;
    var e, e2 := pos + colon, pos + |s|;
    assert text[pos] == s[0] && text[e] == s[colon] && text[e + 1] == s[colon + 1];
    forall i | pos <= i < e ensures InWord(text[i]) { assert text[i] == s[i - pos]; }
    RunEndIs(text, pos, e);
    forall i | e + 1 <= i < e2 ensures InWord(text[i]) { assert text[i] == s[i - pos]; }
    RunEndBehind(text, e + 1, e2);
  }

  /** A name without a backslash that ends the text is read as an empty one. */
  lemma LastNameBack(text: seq<byte>, pos: nat, s: seq<byte>, max: nat)
    requires IsNameText(s) && Bare(s) && |s| <= max && Here(text, pos, s) && pos + |s| == |text|
    ensures TokenAt(text, pos, max) == (Name([]), |text|)
  {
    hide TABLE, KeyAt, RunEnd, Bare, NumberAt;
    NameIs(text, pos, s);
    RunEndIs(text, pos, pos + |s|);
    NoKeywords(TABLE, text, pos, s);
    LetterIsNoMark(text, pos, max);
  }

  /** Any decimal numeral is read modulo 2^64. */
  lemma {:induction false} NumeralWraps(text: seq<byte>, pos: nat, n: nat)
    requires Here(text, pos, Numeral(n))
    ensures DecimalFrom(text, pos, 0) == DecimalFrom(text, pos + |Numeral(n)|, n % TWO_64)
    decreases n
  {
    hide DecimalFrom;
    if n < 10 {
      assert text[pos + 0] == Numeral(n)[0];
      FirstDigit(text, pos);
    } else {
      var ds := Numeral(n / 10);
      forall i | 0 <= i < |ds| ensures text[pos + i] == ds[i] { assert Numeral(n)[i] == ds[i]; }
      NumeralWraps(text, pos, n / 10);
      assert text[pos + |ds|] == Numeral(n)[|ds|] == 48 + n % 10;
      NextDigitWraps(text, pos + |ds|, n);
    }
  }

  lemma NextDigitWraps(text: seq<byte>, j: nat, n: nat)
    requires j < |text| && text[j] == 48 + n % 10
    ensures DecimalFrom(text, j, (n / 10) % TWO_64) == DecimalFrom(text, j + 1, n % TWO_64)
  {
    var m := n / 10;
    var q, r := m / TWO_64, m % TWO_64;
    var q2, r2 := (r * 10 + n % 10) / TWO_64, (r * 10 + n % 10) % TWO_64;
    assert n == TWO_64 * (10 * q + q2) + r2;
    Vlc.ModUnique(n, TWO_64, 10 * q + q2, r2);
  }

  lemma WideUintBack(text: seq<byte>, pos: nat, n: nat, max: nat)
    requires Here(text, pos, Numeral(n)) && WordOver(text, pos + |Numeral(n)|)
    ensures TokenAt(text, pos, max) == (Uint(n % TWO_64), pos + |Numeral(n)|)
  {
    hide TABLE, KeyAt, DecimalFrom, Numeral, Classify, CNameAt, LiteralAt, NameAt, SignedAt;
    var ds := Numeral(n);
    assert ds[0] in ds && text[pos + 0] == ds[0];
    assert pos + 1 < |text| ==> text[pos + 1] != 'x' as int by {
      if |ds| > 1 { assert text[pos + 1] == ds[1]; assert ds[1] in ds; }
    }
    NotText(text, pos, max);
    NumeralWraps(text, pos, n);
    FirstDigit(text, pos);
    NumeralEnds(text, pos + |ds|, n % TWO_64);
  }

  /** The number that hexadecimal digits, of either case, spell. */
  function HexValue(ds: seq<byte>): nat
    requires forall d :: d in ds ==> IsHex(d)
  {
    if ds == [] then 0 else 16 * HexValue(ds[..|ds| - 1]) + HexOf(ds[|ds| - 1])
  }

  function HexOf(d: byte): nat
    requires IsHex(d)
  {
    if d <= '9' as int then d - '0' as int else if d <= 'F' as int then d - 'A' as int + 10 else d - 'a' as int + 10
  }

  predicate IsHex(d: byte) {
    || '0' as int <= d <= '9' as int || 'A' as int <= d <= 'F' as int || 'a' as int <= d <= 'f' as int
  }

  lemma HexDigits(d: byte)
    ensures HexDigit(d).Some? <==> IsHex(d)
    ensures IsHex(d) ==> HexDigit(d) == Some(HexOf(d)) && HexOf(d) < 16
  {
  }

  /** The digit loop of isHexNumber: up to seventeen digits, modulo 2^64. */
  lemma {:induction false} HexRun(text: seq<byte>, pos: nat, ds: seq<byte>)
    requires 0 < |ds| <= 17 && (forall d :: d in ds ==> IsHex(d)) && Here(text, pos, ds)
    ensures HexDigit(text[pos]).Some?
    ensures HexFrom(text, pos + 1, HexDigit(text[pos]).value, 1) ==
              HexFrom(text, pos + |ds|, HexValue(ds) % TWO_64, |ds|)
    decreases ds
  {
    hide HexDigit, HexFrom, HexValue;
    assert text[pos + 0] == ds[0];
    HexDigits(ds[0]);
    if |ds| == 1 {
      assert ds == [ds[0]];
      OneHexDigit(ds[0]);
    } else {
      var more, d := ds[..|ds| - 1], ds[|ds| - 1];
      assert d in ds && forall c :: c in more ==> c in ds;
      assert text[pos + |more|] == ds[|more|];
      HexRun(text, pos, more);
      NextHexDigit(text, pos + |more|, ds);
    }
  }

  lemma OneHexDigit(d: byte)
    requires IsHex(d)
    ensures HexValue([d]) == HexOf(d)
  {
    assert [d][..0] == [];
  }

  lemma NextHexDigit(text: seq<byte>, j: nat, ds: seq<byte>)
    requires 1 < |ds| <= 17 && (forall d :: d in ds ==> IsHex(d)) && j < |text| && text[j] == ds[|ds| - 1]
    ensures HexFrom(text, j, HexValue(ds[..|ds| - 1]) % TWO_64, |ds| - 1) ==
              HexFrom(text, j + 1, HexValue(ds) % TWO_64, |ds|)
  {
    var d, v := ds[|ds| - 1], HexValue(ds[..|ds| - 1]);
    HexDigits(d);
    var w := HexDigit(d).value;
    assert w < 16 && HexValue(ds) == 16 * v + w;
    HexWraps(v, w);
  }

  lemma HexWraps(v: nat, w: nat)
    requires w < 16
    ensures (v % TWO_64 * 16) % TWO_64 + w == (16 * v + w) % TWO_64
  {
    var q, r := v / TWO_64, v % TWO_64;
    var q2, r2 := (r * 16) / TWO_64, (r * 16) % TWO_64;
    assert TWO_64 == 16 * 0x1000_0000_0000_0000;
    assert r2 == 16 * (r - 0x1000_0000_0000_0000 * q2);
    assert 16 * v + w == TWO_64 * (16 * q + q2) + (r2 + w);
    Vlc.ModUnique(16 * v + w, TWO_64, 16 * q + q2, r2 + w);
  }

  /** A hexadecimal number of up to seventeen digits, of either case and with any leading zeros,
      is read modulo 2^64. */
  lemma WideHexBack(text: seq<byte>, pos: nat, ds: seq<byte>, max: nat)
    requires 0 < |ds| <= 17 && (forall d :: d in ds ==> IsHex(d))
    requires Here(text, pos, ['0' as int, 'x' as int] + ds) && WordOver(text, pos + 2 + |ds|)
    ensures TokenAt(text, pos, max) == (Uint(HexValue(ds) % TWO_64), pos + 2 + |ds|)
  {
    hide TABLE, KeyAt, HexFrom, CNameAt, LiteralAt, NameAt, SignedAt, UnsignedAt, HexDigit, HexValue, InWord, IsHex;
    HexStands(text, pos, ds);
    HexRun(text, pos + 2, ds);
    HexEnds(text, pos + 2 + |ds|, HexValue(ds) % TWO_64, |ds|);
    NotText(text, pos, max);
  }

  lemma HexStands(text: seq<byte>, pos: nat, ds: seq<byte>)
    requires Here(text, pos, ['0' as int, 'x' as int] + ds)
    ensures text[pos] == '0' as int && text[pos + 1] == 'x' as int && Here(text, pos + 2, ds)
  {
    var t := ['0' as int, 'x' as int] + ds;
    assert text[pos] == text[pos + 0] == t[0] && text[pos + 1] == t[1];
    forall i | 0 <= i < |ds| ensures text[pos + 2 + i] == ds[i] { assert text[pos + (2 + i)] == t[2 + i]; }
  }

  /** The numeral of a number spells it. */
  lemma {:induction false} HexNumeralIs(n: nat, a: byte)
    requires a == 'a' as int || a == 'A' as int
    ensures (forall d :: d in HexNumeral(n, a) ==> IsHex(d)) && HexValue(HexNumeral(n, a)) == n
    decreases n
  {
    hide IsHex, HexOf;
    HexCharIs(n % 16, a);
    if n < 16 {
      OneHexDigit(HexChar(n, a));
    } else {
      HexNumeralIs(n / 16, a);
      var ds, more := HexNumeral(n, a), HexNumeral(n / 16, a);
      assert ds[..|ds| - 1] == more;
    }
  }

  lemma HexCharIs(w: nat, a: byte)
    requires w < 16 && (a == 'a' as int || a == 'A' as int)
    ensures IsHex(HexChar(w, a)) && HexOf(HexChar(w, a)) == w
  {
  }

  lemma HexBack(text: seq<byte>, pos: nat, n: uint64, a: byte, max: nat)
    requires a == 'a' as int || a == 'A' as int
    requires Here(text, pos, ['0' as int, 'x' as int] + HexNumeral(n, a))
    requires WordOver(text, pos + 2 + |HexNumeral(n, a)|)
    ensures TokenAt(text, pos, max) == (Uint(n), pos + 2 + |HexNumeral(n, a)|)
  {
    hide TokenAt, HexNumeral, HexValue, IsHex, Here, WordOver;
    Vlc.Powers();
    HexLength(n, 8, a);
    HexNumeralIs(n, a);
    WideHexBack(text, pos, HexNumeral(n, a), max);
  }

  /** With more digits it is no hexadecimal number, but a zero. */
  lemma {:induction false} HexTooLong(text: seq<byte>, j: nat, acc: uint64, digits: nat, e: nat)
    requires j <= e < |text| && digits <= 17 && digits + (e - j) == 17
    requires forall i :: j <= i <= e ==> IsHex(text[i])
    ensures HexFrom(text, j, acc, digits) == Miss
    decreases e - j
  {
    HexDigits(text[j]);
    if j < e { HexTooLong(text, j + 1, (acc * 16) % TWO_64 + HexDigit(text[j]).value, digits + 1, e); }
  }

  lemma LongHexBack(text: seq<byte>, pos: nat, ds: seq<byte>, max: nat)
    requires |ds| > 17 && (forall d :: d in ds ==> IsHex(d)) && Here(text, pos, ['0' as int, 'x' as int] + ds)
    ensures TokenAt(text, pos, max) == (Uint(0), pos + 1)
  {
    hide TABLE, KeyAt, HexFrom, CNameAt, LiteralAt, NameAt, SignedAt, HexDigit, IsHex;
    HexStands(text, pos, ds);
    forall i | pos + 2 <= i <= pos + 19 ensures IsHex(text[i]) {
      assert text[pos + 2 + (i - pos - 2)] == ds[i - pos - 2];
      assert ds[i - pos - 2] in ds;
    }
    HexDigits(text[pos + 2]);
    HexTooLong(text, pos + 3, HexDigit(text[pos + 2]).value, 1, pos + 19);
    NotText(text, pos, max);
    ZeroThenX(text, pos);
  }

  lemma ZeroThenX(text: seq<byte>, pos: nat)
    requires pos + 1 < |text| && text[pos] == '0' as int && text[pos + 1] == 'x' as int
    ensures UnsignedAt(text, pos) == Hit(0, pos + 1)
  {
  }

  // ----------------------------------------------------------------- token streams

  /** The printed tokens, each with its gap behind it, in front of `tail`. */
  function Lay(ps: seq<Printed>, tail: seq<byte>): seq<byte> {
    if ps == [] then tail else Print(ps[0]) + (ps[0].gap + Lay(ps[1..], tail))
  }

  /** All tokens can be printed, all gaps are gaps, and no token runs into what follows it. */
  ghost predicate Laid(ps: seq<Printed>, tail: seq<byte>, max: nat) {
    ps == [] ||
    (&& Printable(ps[0], max) && IsGap(ps[0].gap) && MayFollow(ps[0], ps[0].gap + Lay(ps[1..], tail), max)
     && Laid(ps[1..], tail, max))
  }

  function Tokens(ps: seq<Printed>): (toks: seq<Token>)
    ensures |toks| == |ps| && forall i :: 0 <= i < |ps| ==> toks[i] == ps[i].token
  {
    if ps == [] then [] else [ps[0].token] + Tokens(ps[1..])
  }

  /** Call getToken until it reports the end, or an error. */
  function LexAll(text: seq<byte>, pos: nat, max: nat): seq<Token>
    requires pos <= |text|
    decreases |text| - pos
  {
    var (tok, next) := GetToken(text, pos, max);
    if tok.Eof? || next == pos then [tok] else [tok] + LexAll(text, next, max)
  }

  /** A byte that is no part of a gap. */
  predicate StartsToken(c: byte) {
    !IsBlank(c) && c != '#' as int
  }

  /** The first byte of a printed token is neither a separator, a comment nor the end. */
  lemma PrintStart(p: Printed, max: nat)
    requires Printable(p, max)
    ensures !p.token.Eof? && Print(p) != [] && StartsToken(Print(p)[0]) && Print(p)[0] != 0
  {
    match p.token
    case Keyword(k) => Ascii(k, 0);
    case Uint(n) => if p.form != 'x' as int && p.form != 'X' as int { assert Numeral(n)[0] in Numeral(n); }
    case CName(s) => var colon :| IsCNameText(s, colon);
    case _ =>
  }

  lemma {:induction false} LineSkipped(text: seq<byte>, pos: nat, e: nat)
    requires pos <= e < |text| && text[e] == '\n' as int && forall i :: pos <= i < e ==> text[i] != '\n' as int
    ensures SkipLine(text, pos) == e + 1
    decreases e - pos
  {
    if pos < e { LineSkipped(text, pos + 1, e); }
  }

  /** What the text is from pos on. */
  ghost predicate From(text: seq<byte>, pos: nat, s: seq<byte>) {
    pos <= |text| && text[pos..] == s
  }

  lemma CommentSkipped(text: seq<byte>, pos: nat, g: seq<byte>, tail: seq<byte>)
    requires pos <= |text| && From(text, pos, g + tail) && IsComment(g)
    ensures TokenStart(text, pos) == pos + |g|
  {
    hide SkipLine;
    var rest, e := text[pos..], pos + |g| - 1;
    assert text[pos] == rest[0] == g[0];
    assert text[e] == rest[|g| - 1] == g[|g| - 1];
    forall i | pos <= i < e ensures text[i] != '\n' as int { assert text[i] == rest[i - pos] == g[i - pos]; }
    LineSkipped(text, pos, e);
  }

  lemma BlankSkipped(text: seq<byte>, pos: nat)
    requires pos < |text| && IsBlank(text[pos])
    ensures TokenStart(text, pos) == TokenStart(text, pos + 1)
  {
  }

  lemma NothingSkipped(text: seq<byte>, pos: nat)
    requires pos <= |text| && (pos < |text| ==> StartsToken(text[pos]))
    ensures TokenStart(text, pos) == pos
  {
  }

  /** A gap is skipped: separators, and one comment. */
  lemma {:induction false} GapSkipped(text: seq<byte>, pos: nat, g: seq<byte>, tail: seq<byte>)
    requires pos <= |text| && From(text, pos, g + tail) && IsGap(g) && (tail != [] ==> StartsToken(tail[0]))
    ensures TokenStart(text, pos) == pos + |g| && From(text, pos + |g|, tail)
    decreases g
  {
    hide TokenStart, IsBlank, StartsToken, IsComment;
    var rest := text[pos..];
    assert text[pos + |g|..] == rest[|g|..] == tail;
    if IsComment(g) {
      CommentSkipped(text, pos, g, tail);
    } else if g != [] {
      assert text[pos] == rest[0] == g[0];
      BlankSkipped(text, pos);
      assert text[pos + 1..] == rest[1..] == g[1..] + tail;
      GapSkipped(text, pos + 1, g[1..], tail);
    } else {
      if pos < |text| { assert text[pos] == rest[0] == tail[0]; }
      NothingSkipped(text, pos);
    }
  }

  /** Where the token begins that is read from pos on. */
  lemma GetTokenAt(text: seq<byte>, pos: nat, at: nat, max: nat)
    requires pos <= |text| && TokenStart(text, pos) == at < |text| && text[at] != 0
    ensures GetToken(text, pos, max) == TokenAt(text, at, max)
  {
    hide TokenAt, TokenStart;
  }

  lemma TokenThere(text: seq<byte>, at: nat, p: Printed, rest: seq<byte>, max: nat)
    requires at <= |text| && From(text, at, Print(p) + rest) && Printable(p, max) && MayFollow(p, rest, max)
    ensures at < |text| && text[at] != 0 && TokenAt(text, at, max) == (p.token, at + |Print(p)|)
    ensures at + |Print(p)| <= |text| && From(text, at + |Print(p)|, rest)
  {
    hide TokenAt, Print, Printable, MayFollow, Here, StartsToken;
    PrintStart(p, max);
    FirstOf(text, at, Print(p), rest);
    HereThen(text, at, Print(p), rest);
    TokenBack(text, at, p, max);
  }

  lemma TailStarts(p: Printed, rest: seq<byte>, max: nat)
    requires Printable(p, max)
    ensures Print(p) + rest != [] && StartsToken((Print(p) + rest)[0])
  {
    hide Print, Printable, StartsToken;
    PrintStart(p, max);
  }

  /** A gap, then one printed token. */
  lemma GetTokenBack(text: seq<byte>, pos: nat, g: seq<byte>, p: Printed, rest: seq<byte>, max: nat)
    requires pos <= |text| && From(text, pos, g + (Print(p) + rest)) && IsGap(g)
    requires Printable(p, max) && MayFollow(p, rest, max)
    ensures GetToken(text, pos, max) == (p.token, pos + |g| + |Print(p)|)
    ensures pos + |g| + |Print(p)| <= |text| && From(text, pos + |g| + |Print(p)|, rest)
  {
    hide *;
    TailStarts(p, rest, max);
    GapSkipped(text, pos, g, Print(p) + rest);
    TokenThere(text, pos + |g|, p, rest, max);
    GetTokenAt(text, pos, pos + |g|, max);
  }

  lemma FirstOf(text: seq<byte>, at: nat, t: seq<byte>, rest: seq<byte>)
    requires at <= |text| && From(text, at, t + rest) && t != []
    ensures at < |text| && text[at] == t[0]
  {
    assert text[at..][0] == text[at];
  }

  lemma HereThen(text: seq<byte>, at: nat, t: seq<byte>, tail: seq<byte>)
    requires at <= |text| && From(text, at, t + tail)
    ensures Here(text, at, t) && From(text, at + |t|, tail)
  {
    var rest := text[at..];
    forall i | 0 <= i < |t| ensures text[at + i] == t[i] { assert rest[i] == t[i]; }
    assert text[at + |t|..] == rest[|t|..];
  }

  /** The end of a text, or a zero byte. */
  predicate IsEnd(tail: seq<byte>) {
    tail == [] || tail[0] == 0
  }

  /** From any point of such a text, the tokens still to come are read, and then the end. */
  lemma {:induction false} LexBack(text: seq<byte>, pos: nat, g: seq<byte>, ps: seq<Printed>, tail: seq<byte>, max: nat)
    requires pos <= |text| && From(text, pos, g + Lay(ps, tail)) && IsGap(g) && Laid(ps, tail, max) && IsEnd(tail)
    ensures LexAll(text, pos, max) == Tokens(ps) + [Eof]
    decreases ps
  {
    hide GetToken, Print, Printable, MayFollow, IsGap;
    if ps == [] {
      EndBack(text, pos, g, tail, max);
    } else {
      var p, rest := ps[0], ps[0].gap + Lay(ps[1..], tail);
      GetTokenBack(text, pos, g, p, rest, max);
      PrintStart(p, max);
      LexBack(text, pos + |g| + |Print(p)|, p.gap, ps[1..], tail, max);
      assert [p.token] + (Tokens(ps[1..]) + [Eof]) == Tokens(ps) + [Eof];
    }
  }

  lemma EndBack(text: seq<byte>, pos: nat, g: seq<byte>, tail: seq<byte>, max: nat)
    requires pos <= |text| && From(text, pos, g + tail) && IsGap(g) && IsEnd(tail)
    ensures GetToken(text, pos, max).0 == Eof
  {
    hide TokenAt, TokenStart, IsGap;
    GapSkipped(text, pos, g, tail);
    if tail != [] { assert text[pos + |g|..][0] == text[pos + |g|]; }
  }

  /** Printing any list of printable tokens, with any gaps before and behind each, and lexing
      the text up to its end or a zero byte gives the tokens back, and then the end of file. */
  lemma PrintLex(front: seq<byte>, ps: seq<Printed>, tail: seq<byte>, max: nat)
    requires IsGap(front) && Laid(ps, tail, max) && IsEnd(tail)
    ensures LexAll(front + Lay(ps, tail), 0, max) == Tokens(ps) + [Eof]
  {
    hide LexAll, IsGap, Laid, Lay, Tokens;
    var text := front + Lay(ps, tail);
    assert text[0..] == text;
    LexBack(text, 0, front, ps, tail, max);
  }

  /** The bytes that can start no token. */
  predicate IsStray(c: byte) {
    || 1 <= c <= 8 || 11 <= c <= 12 || 14 <= c <= 31 || c == 33 || 36 <= c <= 38 || c == 43 || c == 59 || c == 62
    || c == 94 || c == 96 || c == 123 || c >= 125
  }

  /** Such a byte is read as an unknown token. */
  lemma StrayBack(text: seq<byte>, pos: nat, g: seq<byte>, tail: seq<byte>, max: nat)
    requires pos <= |text| && From(text, pos, g + tail) && IsGap(g) && tail != [] && IsStray(tail[0])
    ensures GetToken(text, pos, max).0 == Unknown
  {
    hide IsGap, TokenAt, TokenStart;
    GapSkipped(text, pos, g, tail);
    assert text[pos + |g|..][0] == text[pos + |g|];
    StrayAt(text, pos + |g|, max);
  }

  lemma StrayAt(text: seq<byte>, pos: nat, max: nat)
    requires pos < |text| && IsStray(text[pos])
    ensures TokenAt(text, pos, max).0 == Unknown
  {
    hide TABLE, RunEnd, LiteralFrom, DecimalFrom, HexFrom, IsStray, KeyAt;
    StrayIsNone(text[pos]);
    StrayNoKey(text, pos);
  }

  lemma StrayIsNone(c: byte)
    requires IsStray(c)
    ensures !IsFirstNameChar(c) && !IsDigit(c) && c != SINGLE_QUOTE && c != DOUBLE_QUOTE && c != BACKSLASH && c != MINUS
  {
  }

  lemma StrayNoKey(text: seq<byte>, pos: nat)
    requires pos < |text| && IsStray(text[pos])
    ensures KeyAt(TABLE, text, pos) == None
  {
    hide TABLE, KeyAt;
    NoKey(TABLE, text, pos);
  }
}
