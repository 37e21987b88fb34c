/** The recognisers of src/blink_lexer.c as they run: reading a stream, filling the caller's
    buffer. Each is proved against its function in Lexer. */
module Scanner {
  import opened Base
  import L = Lexer
  import opened StreamObjects
  import Vlc

  /** A buffer stream whose memory is not the buffer tokens are stored in. */
  ghost predicate Usable(inp: Stream, out: array<byte>)
    reads inp, inp.Repr
  {
    inp.Valid() && !inp.bounded && inp in inp.Repr && out !in inp.Repr
  }

  /** What a recogniser leaves behind: the verdict, and unless nothing was recognised the position. */
  ghost predicate Left<T>(v: L.Verdict<T>, expected: L.Verdict<T>, pos: nat) {
    v == expected && (!v.Miss? ==> pos == v.next)
  }

  lemma RunStep(text: seq<byte>, pos: nat)
    requires pos < |text|
    ensures L.RunEnd(text, pos) == if L.IsNameChar(text[pos]) then L.RunEnd(text, pos + 1) else pos
  {
  }

  lemma SliceGrow<T>(text: seq<T>, lo: nat, hi: nat)
    requires lo <= hi < |text|
    ensures text[lo..hi + 1] == text[lo..hi] + [text[hi]]
  {
  }

  /** Step over c and store it as byte n, if there is room. */
  method CopyOne(inp: Stream, out: array<byte>, ghost start: nat, n: nat, c: byte) returns (fits: bool)
    requires Usable(inp, out) && inp.pos < |inp.Text()| && inp.Text()[inp.pos] == c
    requires start <= inp.pos && n == inp.pos - start <= out.Length && out[..n] == inp.Text()[start..inp.pos]
    modifies inp.Repr, out
    ensures Usable(inp, out) && inp.Text() == old(inp.Text()) && inp.pos == old(inp.pos) + 1
    ensures fits == (n < out.Length) && (fits ==> out[..n + 1] == inp.Text()[start..inp.pos])
  {
    hide Stream.Valid, Stream.Text;
    SliceGrow(inp.Text(), start, inp.pos);
    inp.Skip();
    fits := n < out.Length;
    if fits {
      out[n] := c;
    }
  }

  /** The loop all name recognisers share: copy name characters as long as they fit. */
  method CopyRun(inp: Stream, out: array<byte>, ghost start: nat, length: nat) returns (n: nat, fits: bool)
    requires Usable(inp, out) && start <= inp.pos && length == inp.pos - start <= out.Length
    requires out[..length] == inp.Text()[start..inp.pos]
    modifies inp.Repr, out
    ensures Usable(inp, out) && inp.Text() == old(inp.Text())
    ensures var e := L.RunEnd(inp.Text(), old(inp.pos));
            && fits == (e - start <= out.Length)
            && (!fits ==> inp.pos == start + out.Length + 1)
            && (fits ==> inp.pos == e && n == e - start && n <= out.Length && out[..n] == inp.Text()[start..e])
  {
    hide L.RunEnd, L.IsNameChar, Stream.Valid, Stream.Text;
    n, fits := length, true;
    ghost var text := inp.Text();
    var c := inp.Look();
    while c.Some? && L.IsNameChar(c.value) && fits
      invariant Usable(inp, out) && inp.Text() == text && old(inp.pos) <= inp.pos
      invariant L.RunEnd(text, old(inp.pos)) == L.RunEnd(text, inp.pos)
      invariant fits ==> n == inp.pos - start <= out.Length && out[..n] == text[start..inp.pos]
      invariant fits ==> c == if inp.pos < |text| then Some(text[inp.pos]) else None
      invariant !fits ==> inp.pos == start + out.Length + 1
      decreases |text| - inp.pos, fits
    {
      RunStep(text, inp.pos);
      fits := CopyOne(inp, out, start, n, c.value);
      if fits {
        n := n + 1;
        c := inp.Look();
      }
    }
    if fits && inp.pos < |text| { RunStep(text, inp.pos); }
  }

  /** isName, src/blink_lexer.c:384-465. */
  method IsName(inp: Stream, out: array<byte>) returns (v: L.Verdict<seq<byte>>)
    requires Usable(inp, out)
    modifies inp.Repr, out
    ensures Usable(inp, out) && inp.Text() == old(inp.Text())
    ensures Left(v, L.NameAt(inp.Text(), old(inp.pos), out.Length), inp.pos)
  {
    hide Stream.Valid, Stream.Text;
    v := L.Miss;
    var c := inp.Next();
    if c.Some? && (L.IsFirstNameChar(c.value) || c.value == L.BACKSLASH) {
      if c.value == L.BACKSLASH {
        c := inp.Next();
        if c.None? || !L.IsFirstNameChar(c.value) {
          return;
        }
      }
      v := NameTail(inp, out, c.value);
    }
  }

  /** The rest of isName once its first character has been read. */
  method NameTail(inp: Stream, out: array<byte>, first: byte) returns (v: L.Verdict<seq<byte>>)
    requires Usable(inp, out) && 0 < inp.pos && inp.Text()[inp.pos - 1] == first && L.IsFirstNameChar(first)
    modifies inp.Repr, out
    ensures Usable(inp, out) && inp.Text() == old(inp.Text())
    ensures var text, start := inp.Text(), old(inp.pos) - 1;
            var e := L.RunEnd(text, start);
            Left(v,
                 if e - start > out.Length then L.TooLong(start + out.Length + 1)
                 else L.Hit(if e < |text| then text[start..e] else [], e),
                 inp.pos)
  {
    hide Stream.Valid, Stream.Text;
    ghost var start := inp.pos - 1;
    RunStep(inp.Text(), start);
    v := L.TooLong(inp.pos);
    if out.Length > 0 {
      out[0] := first;
      var n, fits := CopyRun(inp, out, start, 1);
      if fits {
        var c := inp.Look();
        var len := if c.Some? then n else 0;
        v := L.Hit(out[..len], inp.pos);
      } else {
        v := L.TooLong(inp.pos);
      }
    }
  }

  /** isCName, src/blink_lexer.c:467-552. */
  method IsCName(inp: Stream, out: array<byte>) returns (v: L.Verdict<seq<byte>>)
    requires Usable(inp, out)
    modifies inp.Repr, out
    ensures Usable(inp, out) && inp.Text() == old(inp.Text())
    ensures Left(v, L.CNameAt(inp.Text(), old(inp.pos), out.Length), inp.pos)
  {
    hide Stream.Valid, Stream.Text;
    v := L.Miss;
    ghost var text, start := inp.Text(), inp.pos;
    var c := inp.Look();
    if c.Some? && L.IsFirstNameChar(c.value) {
      var n, fits := CopyRun(inp, out, start, 0);
      if !fits { return L.TooLong(inp.pos); }
      c := inp.Next();
      if c == Some(L.COLON) {
        v := CNameTail(inp, out, start, n);
      }
    }
  }

  /** The rest of isCName once the colon has been read. */
  method CNameTail(inp: Stream, out: array<byte>, ghost start: nat, n: nat) returns (v: L.Verdict<seq<byte>>)
    requires Usable(inp, out) && start + n + 1 == inp.pos && n <= out.Length
    requires out[..n] == inp.Text()[start..inp.pos - 1] && inp.Text()[inp.pos - 1] == L.COLON
    modifies inp.Repr, out
    ensures Usable(inp, out) && inp.Text() == old(inp.Text())
    ensures var text, e := inp.Text(), old(inp.pos) - 1;
            Left(v,
                 if n == out.Length then L.TooLong(e + 1)
                 else if e + 1 == |text| || !L.IsNameChar(text[e + 1]) then L.Miss
                 else
                   var e2 := L.RunEnd(text, e + 1);
                   if e2 - start > out.Length then L.TooLong(start + out.Length + 1) else L.Hit(text[start..e2], e2),
                 inp.pos)
  {
    if n == out.Length { return L.TooLong(inp.pos); }
    v := L.Miss;
    SliceGrow(inp.Text(), start, inp.pos - 1);
    out[n] := L.COLON;
    var c := inp.Look();
    if c.Some? && L.IsNameChar(c.value) {
      var m, fits := CopyRun(inp, out, start, n + 1);
      v := if fits then L.Hit(out[..m], inp.pos) else L.TooLong(inp.pos);
    }
  }

  /** isLiteral, src/blink_lexer.c:700-744. */
  method IsLiteral(inp: Stream, out: array<byte>) returns (v: L.Verdict<seq<byte>>)
    requires Usable(inp, out)
    modifies inp.Repr, out
    ensures Usable(inp, out) && inp.Text() == old(inp.Text())
    ensures Left(v, L.LiteralAt(inp.Text(), old(inp.pos), out.Length), inp.pos)
  {
    v := L.Miss;
    var c := inp.Next();
    if c == Some(L.DOUBLE_QUOTE) || c == Some(L.SINGLE_QUOTE) {
      v := LiteralTail(inp, out, c.value);
    }
  }

  method LiteralTail(inp: Stream, out: array<byte>, mark: byte) returns (v: L.Verdict<seq<byte>>)
    requires Usable(inp, out)
    modifies inp.Repr, out
    ensures Usable(inp, out) && inp.Text() == old(inp.Text())
    ensures Left(v, L.LiteralFrom(inp.Text(), old(inp.pos), old(inp.pos), mark, out.Length), inp.pos)
  {
    hide Stream.Valid, Stream.Text;
    ghost var text, start := inp.Text(), inp.pos;
    var n := 0;
    var c := inp.Next();
    while c.Some?
      invariant Usable(inp, out) && inp.Text() == text && n <= out.Length
      invariant c.Some? ==> start + n < |text| && inp.pos == start + n + 1 && c.value == text[start + n]
      invariant c.None? ==> start + n == |text|
      invariant start + n <= |text| && out[..n] == text[start..start + n]
      invariant L.LiteralFrom(text, start, start, mark, out.Length) ==
                  L.LiteralFrom(text, start, start + n, mark, out.Length)
      decreases |text| - (start + n)
    {
      if c.value == mark {
        return L.Hit(out[..n], inp.pos);
      } else if c.value == L.NEWLINE {
        return L.Miss;
      } else if n == out.Length {
        return L.TooLong(inp.pos);
      }
      SliceGrow(text, start, start + n);
      out[n] := c.value;
      n := n + 1;
      c := inp.Next();
    }
    v := L.Miss;
  }

  /** stringToToken, src/blink_lexer.c:303-331. */
  method StringToToken(inp: Stream) returns (key: Option<L.Key>)
    requires inp.Valid() && !inp.bounded && inp.pos < |inp.Text()|
    modifies inp.Repr
    ensures inp.Valid() && inp.Text() == old(inp.Text())
    ensures key == L.KeyAt(L.TABLE, inp.Text(), old(inp.pos))
    ensures key.Some? ==> inp.pos == old(inp.pos) + |L.Spelling(key.value)|
  {
    hide L.Spelling, L.TABLE;
    ghost var text := inp.Text();
    var start := inp.pos;
    var i := 0;
    assert L.TABLE[0..] == L.TABLE;
    while i < |L.TABLE|
      invariant inp.Valid() && inp.Text() == text && i <= |L.TABLE|
      invariant L.KeyAt(L.TABLE, text, start) == L.KeyAt(L.TABLE[i..], text, start)
    {
      inp.Rewind(start);
      var stands := TryKey(inp, L.TABLE[i]);
      assert L.TABLE[i..][0] == L.TABLE[i] && L.TABLE[i..][1..] == L.TABLE[i + 1..];
      if stands {
        return Some(L.TABLE[i]);
      }
      i := i + 1;
    }
    key := None;
  }

  /** One entry: read as many bytes as it has and compare. */
  method TryKey(inp: Stream, key: L.Key) returns (stands: bool)
    requires inp.Valid() && !inp.bounded
    modifies inp.Repr
    ensures inp.Valid() && inp.Text() == old(inp.Text())
    ensures stands == L.Stands(inp.Text(), old(inp.pos), key)
    ensures stands ==> inp.pos == old(inp.pos) + |L.Spelling(key)|
  {
    hide L.Spelling;
    ghost var text, start := inp.Text(), inp.pos;
    var s := L.Spelling(key);
    var read, buf := inp.Chunk(|s|);
    stands := false;
    if read {
      stands := forall i :: 0 <= i < |s| ==> buf[i] == s[i] as int;
    }
  }

  /** The digit loop of the decimal recognisers. */
  method Digits(inp: Stream, first: uint64) returns (n: uint64)
    requires inp.Valid() && !inp.bounded
    modifies inp.Repr
    ensures inp.Valid() && inp.Text() == old(inp.Text())
    ensures (n, inp.pos) == L.DecimalFrom(inp.Text(), old(inp.pos), first)
  {
    n := first;
    ghost var text := inp.Text();
    var c := inp.Look();
    while c.Some? && L.IsDigit(c.value)
      invariant inp.Valid() && inp.Text() == text
      invariant c == if inp.pos < |text| then Some(text[inp.pos]) else None
      invariant L.DecimalFrom(text, old(inp.pos), first) == L.DecimalFrom(text, inp.pos, n)
      decreases |text| - inp.pos
    {
      WrapDigit(n, c.value as int - 48);
      n := (n * 10) % TWO_64;
      n := (n + (c.value as int - 48)) % TWO_64;
      inp.Skip();
      c := inp.Look();
    }
  }

  /** Wrapping after the multiplication and again after the addition is wrapping once. */
  lemma WrapDigit(n: nat, d: nat)
    ensures ((n * 10) % TWO_64 + d) % TWO_64 == (n * 10 + d) % TWO_64
  {
    var q := (n * 10) / TWO_64;
    var r := (n * 10) % TWO_64 + d;
    Vlc.ModUnique(n * 10 + d, TWO_64, q + r / TWO_64, r % TWO_64);
  }

  /** isUnsignedNumber, src/blink_lexer.c:554-588. */
  method IsUnsignedNumber(inp: Stream) returns (v: L.Verdict<uint64>)
    requires inp.Valid() && !inp.bounded
    modifies inp.Repr
    ensures inp.Valid() && inp.Text() == old(inp.Text())
    ensures Left(v, L.UnsignedAt(inp.Text(), old(inp.pos)), inp.pos)
  {
    v := L.Miss;
    var c := inp.Next();
    if c.Some? && L.IsDigit(c.value) {
      var n := Digits(inp, c.value as int - 48);
      v := L.Hit(n, inp.pos);
    }
  }

  /** isSignedNumber, src/blink_lexer.c:590-646. */
  method IsSignedNumber(inp: Stream) returns (v: L.Verdict<int64>)
    requires inp.Valid() && !inp.bounded
    modifies inp.Repr
    ensures inp.Valid() && inp.Text() == old(inp.Text())
    ensures Left(v, L.SignedAt(inp.Text(), old(inp.pos)), inp.pos)
    ensures v.Miss? && old(inp.pos) < |inp.Text()| ==> inp.pos == old(inp.pos) + 1
  {
    hide L.Negated, L.DecimalFrom;
    v := L.Miss;
    var c := inp.Next();
    if c.Some? && (L.IsDigit(c.value) || c.value == L.MINUS) {
      if c.value == L.MINUS {
        c := inp.Look();
        if c.None? || !L.IsDigit(c.value) {
          return;
        }
        inp.Skip();
      }
      var n := Digits(inp, c.value as int - 48);
      v := L.Hit(L.Negated(n), inp.pos);
    }
  }

  /** isHexNumber, src/blink_lexer.c:648-698. */
  method IsHexNumber(inp: Stream) returns (v: L.Verdict<uint64>)
    requires inp.Valid() && !inp.bounded
    modifies inp.Repr
    ensures inp.Valid() && inp.Text() == old(inp.Text())
    ensures Left(v, L.HexAt(inp.Text(), old(inp.pos)), inp.pos)
  {
    v := L.Miss;
    var c := inp.Next();
    if c == Some(L.ZERO) {
      c := inp.Next();
      if c == Some(L.LOWER_X) {
        c := inp.Next();
        if c.Some? && L.HexDigit(c.value).Some? {
          v := HexTail(inp, L.HexDigit(c.value).value);
        }
      }
    }
  }

  method HexTail(inp: Stream, first: uint64) returns (v: L.Verdict<uint64>)
    requires inp.Valid() && !inp.bounded
    modifies inp.Repr
    ensures inp.Valid() && inp.Text() == old(inp.Text())
    ensures Left(v, L.HexFrom(inp.Text(), old(inp.pos), first, 1), inp.pos)
  {
    var n: uint64, digits := first, 1;
    ghost var text := inp.Text();
    var c := inp.Look();
    while c.Some? && L.HexDigit(c.value).Some?
      invariant inp.Valid() && inp.Text() == text
      invariant c == if inp.pos < |text| then Some(text[inp.pos]) else None
      invariant L.HexFrom(text, old(inp.pos), first, 1) == L.HexFrom(text, inp.pos, n, digits)
      decreases |text| - inp.pos
    {
      inp.Skip();
      if digits > 16 {
        return L.Miss;
      }
      HexRoom(n, c.value);
      n := (n * 16) % TWO_64;
      n := n + L.HexDigit(c.value).value;
      digits := digits + 1;
      c := inp.Look();
    }
    v := L.Hit(n, inp.pos);
  }

  /** After shifting by four bits the low digit is free. */
  lemma HexRoom(n: nat, c: byte)
    requires L.HexDigit(c).Some?
    ensures (n * 16) % TWO_64 + L.HexDigit(c).value < TWO_64
  {
    var q := (n * 16) / TWO_64;
    assert (n * 16) % TWO_64 == 16 * (n - q * 0x1000_0000_0000_0000);
  }

  /** Skip separators and at most one comment, src/blink_lexer.c:160-200. */
  method FindStart(inp: Stream)
    requires inp.Valid() && !inp.bounded
    modifies inp.Repr
    ensures inp.Valid() && inp.Text() == old(inp.Text())
    ensures inp.pos == L.TokenStart(inp.Text(), old(inp.pos))
  {
    hide L.SkipSeparators, L.SkipLine;
    SkipSpace(inp);
    var c := inp.Look();
    if c == Some(L.HASH) {
      SkipComment(inp);
    }
  }

  method SkipSpace(inp: Stream)
    requires inp.Valid() && !inp.bounded
    modifies inp.Repr
    ensures inp.Valid() && inp.Text() == old(inp.Text())
    ensures inp.pos == L.SkipSeparators(inp.Text(), old(inp.pos))
  {
    hide L.IsSeparator;
    ghost var text := inp.Text();
    var c := inp.Look();
    while c.Some? && L.IsSeparator(c.value)
      invariant inp.Valid() && inp.Text() == text
      invariant c == if inp.pos < |text| then Some(text[inp.pos]) else None
      invariant L.SkipSeparators(text, old(inp.pos)) == L.SkipSeparators(text, inp.pos)
      decreases |text| - inp.pos
    {
      inp.Skip();
      c := inp.Look();
    }
  }

  method SkipComment(inp: Stream)
    requires inp.Valid() && !inp.bounded
    modifies inp.Repr
    ensures inp.Valid() && inp.Text() == old(inp.Text())
    ensures inp.pos == L.SkipLine(inp.Text(), old(inp.pos))
  {
    ghost var text := inp.Text();
    var done := false;
    var c := inp.Look();
    while c.Some? && !done
      invariant inp.Valid() && inp.Text() == text
      invariant !done ==> c == if inp.pos < |text| then Some(text[inp.pos]) else None
      invariant L.SkipLine(text, old(inp.pos)) == if done then inp.pos else L.SkipLine(text, inp.pos)
      decreases |text| - inp.pos, !done
    {
      inp.Skip();
      if c.value == L.NEWLINE {
        done := true;
      } else {
        c := inp.Look();
      }
    }
  }

  /** BLINK_Lexer_getToken, src/blink_lexer.c:148-280. A token that does not fit the buffer
      leaves the stream behind its first byte too many. */
  method GetToken(inp: Stream, buffer: array<byte>) returns (tok: L.Token)
    requires Usable(inp, buffer)
    modifies inp.Repr, buffer
    ensures Usable(inp, buffer) && inp.Text() == old(inp.Text())
    ensures (tok, inp.pos) == L.GetToken(inp.Text(), old(inp.pos), buffer.Length)
  {
    hide L.TokenAt;
    FindStart(inp);
    var pos := inp.pos;
    var c := inp.Next();
    if c.None? || c.value == 0 {
      return L.Eof;
    }
    inp.Rewind(pos);
    tok := TryAll(inp, buffer);
  }

  /** The recognisers in turn, each started from the same place. */
  method TryAll(inp: Stream, buffer: array<byte>) returns (tok: L.Token)
    requires Usable(inp, buffer) && inp.pos < |inp.Text()|
    modifies inp.Repr, buffer
    ensures Usable(inp, buffer) && inp.Text() == old(inp.Text())
    ensures (tok, inp.pos) == L.TokenAt(inp.Text(), old(inp.pos), buffer.Length)
  {
    hide L.CNameAt, L.KeyAt, L.LiteralAt, L.NameAt, L.NumberAt, L.TABLE, L.Spelling;
    var pos := inp.pos;
    var v := IsCName(inp, buffer);
    if v.Hit? { return L.CName(v.value); }
    if v.TooLong? { return L.NoMemory; }
    inp.Rewind(pos);
    var key := StringToToken(inp);
    if key.Some? { return L.Keyword(key.value); }
    inp.Rewind(pos);
    v := IsLiteral(inp, buffer);
    if v.Hit? { return L.Literal(v.value); }
    if v.TooLong? { return L.NoMemory; }
    inp.Rewind(pos);
    v := IsName(inp, buffer);
    if v.Hit? { return L.Name(v.value); }
    if v.TooLong? { return L.NoMemory; }
    inp.Rewind(pos);
    tok := TryNumbers(inp);
  }

  method TryNumbers(inp: Stream) returns (tok: L.Token)
    requires inp.Valid() && !inp.bounded && inp.pos < |inp.Text()|
    modifies inp.Repr
    ensures inp.Valid() && inp.Text() == old(inp.Text())
    ensures (tok, inp.pos) == L.NumberAt(inp.Text(), old(inp.pos))
  {
    hide L.HexAt, L.UnsignedAt, L.SignedAt;
    var pos := inp.pos;
    var u := IsHexNumber(inp);
    if u.Hit? { return L.Uint(u.value); }
    inp.Rewind(pos);
    u := IsUnsignedNumber(inp);
    if u.Hit? { return L.Uint(u.value); }
    inp.Rewind(pos);
    var i := IsSignedNumber(inp);
    if i.Hit? { return L.Int(i.value); }
    tok := L.Unknown;
    assert !i.TooLong? by { NeverTooLong(inp.Text(), pos); }
  }

  lemma NeverTooLong(text: seq<byte>, pos: nat)
    requires pos <= |text|
    ensures !L.SignedAt(text, pos).TooLong?
  {
  }
}
