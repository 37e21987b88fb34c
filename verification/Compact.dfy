/** encodeVLC, decodeVLC and the typed readers of src/blink_compact.c, working on streams.
    Each is proved against the code on byte strings in Vlc. */
module Compact {
  import opened Base
  import opened Vlc
  import S = Streams
  import opened StreamObjects

  /** src/blink_compact.c:527-552. */
  method EncodeVlc(word: uint64, isSigned: bool, out: Stream) returns (ok: bool)
    requires out.Valid()
    modifies out.Repr
    ensures out.Valid()
    ensures (ok, out.Value()) == S.Write(old(out.Value()), Encode(word, isSigned))
  {
    var data := FillBuffer(word, isSigned);
    ok := out.Write(data);
  }

  /** The buffer encodeVLC fills. */
  method FillBuffer(word: uint64, isSigned: bool) returns (data: seq<byte>)
    ensures data == Encode(word, isSigned)
  {
    hide LowBytes, SizeofUnsigned, SizeofSigned, Pow256;
    var buffer := new byte[9](_ => 0);
    var bytes := if isSigned then SizeofSigned(AsSigned(word)) else SizeofUnsigned(word);
    if bytes == 1 {
      buffer[0] := word % 0x80;
    } else if bytes == 2 {
      buffer[0] := 0x80 + word % 0x40;
      buffer[1] := (word / 0x40) % 0x100;
    } else {
      buffer[0] := 0xc0 + (bytes - 1);
      var i := 1;
      while i < bytes
        invariant 1 <= i <= bytes
        invariant buffer[0] == 0xc0 + (bytes - 1)
        invariant buffer[1..i] == LowBytes(word, bytes - 1)[..i - 1]
      {
        LowBytesAt(word, bytes - 1, i - 1);
        ghost var done := buffer[1..i];
        buffer[i] := (word / Pow256(i - 1)) % 0x100;
        assert buffer[1..i + 1] == done + [buffer[i]];
        i := i + 1;
      }
      assert buffer[..bytes] == [buffer[0]] + buffer[1..bytes];
    }
    data := buffer[..bytes];
  }

  /** What the shift loop of decodeVLC holds after folding bytes i.. of the payload. */
  ghost function Folded(payload: seq<byte>, start: uint64, i: nat): int
    requires 1 <= i <= |payload|
  {
    LittleEndian(payload[i - 1..]) + (start - payload[|payload| - 1]) * Pow256(|payload| - i)
  }

  /** One turn of the loop is one more digit. */
  lemma FoldStep(payload: seq<byte>, start: uint64, i: nat)
    requires 1 < i <= |payload|
    ensures Folded(payload, start, i - 1) == Folded(payload, start, i) * 256 + payload[i - 2]
  {
    assert payload[i - 2..][1..] == payload[i - 1..];
    var h, p := start - payload[|payload| - 1], Pow256(|payload| - i);
    assert h * (256 * p) == 256 * (h * p);
  }

  /** The word before the loop: the last payload byte under the source's 56-bit sign mask. */
  function StartWord(top: byte, isSigned: bool): uint64 {
    if isSigned && top >= 0x80 then 0xff_ffff_ffff_ff00 + top as int else top
  }

  /** Starting from the sign mask the loop ends in the sign-extended payload. */
  lemma FoldedWord(payload: seq<byte>, isSigned: bool)
    requires 1 <= |payload| <= 8
    ensures Folded(payload, StartWord(payload[|payload| - 1], isSigned), 1) % TWO_64 == PayloadWord(payload, isSigned)
  {
    hide Folded, PayloadWord;
    var top := payload[|payload| - 1];
    if !isSigned || top < 0x80 {
      FoldedPlain(payload, isSigned);
    } else if |payload| == 1 {
      FoldedShort(payload);
    } else {
      FoldedMask(payload);
    }
  }

  /** Without a sign the mask plays no part. */
  lemma FoldedPlain(payload: seq<byte>, isSigned: bool)
    requires 1 <= |payload| <= 8 && (isSigned ==> payload[|payload| - 1] < 0x80)
    ensures Folded(payload, payload[|payload| - 1], 1) % TWO_64 == PayloadWord(payload, isSigned)
  {
    hide LittleEndian, Pow256;
    var v := LittleEndian(payload);
    assert payload[0..] == payload;
    LittleEndianBound(payload);
    PowHalf(|payload|);
    ModUnique(v, TWO_64, 0, v);
    if isSigned { TopDigit(payload); }
  }

  lemma FoldedMask(payload: seq<byte>)
    requires 2 <= |payload| <= 8 && payload[|payload| - 1] >= 0x80
    ensures Folded(payload, StartWord(payload[|payload| - 1], true), 1) % TWO_64 == PayloadWord(payload, true)
  {
    hide LittleEndian, Pow256;
    assert payload[0..] == payload;
    LittleEndianBound(payload);
    PowHalf(|payload|);
    TopDigit(payload);
    MaskWraps(LittleEndian(payload), |payload|);
  }

  /** A single payload byte is never shifted, so the mask stays 56 bits wide. */
  lemma FoldedShort(payload: seq<byte>)
    requires |payload| == 1 && payload[0] >= 0x80
    ensures Folded(payload, StartWord(payload[0], true), 1) % TWO_64 == PayloadWord(payload, true)
  {
    assert payload[0..] == payload && payload[1..] == [];
    assert Pow256(0) == 1;
    var w := payload[0] as int + 0xff_ffff_ffff_ff00;
    ModUnique(w, TWO_64, 0, w);
  }

  /** The top digit decides which half of the range a payload lies in. */
  lemma TopDigit(payload: seq<byte>)
    requires 1 <= |payload| <= 8
    ensures payload[|payload| - 1] >= 0x80 <==> LittleEndian(payload) >= Pow256(|payload|) / 2
  {
    var n := |payload|;
    LittleEndianLast(payload);
    LittleEndianBound(payload[..n - 1]);
    DigitHalf(LittleEndian(payload[..n - 1]), payload[n - 1], Pow256(n - 1));
  }

  lemma DigitHalf(low: nat, digit: byte, weight: nat)
    requires low < weight
    ensures digit >= 0x80 <==> low + digit * weight >= 0x80 * weight
    ensures (256 * weight) / 2 == 0x80 * weight
  {
    if digit >= 0x80 { assert (digit - 0x80) * weight >= 0; }
    else { assert (0x7f - digit) * weight >= 0; }
  }

  lemma MaskWraps(v: nat, n: nat)
    requires 2 <= n <= 8 && v < Pow256(n) && v >= Pow256(n) / 2
    ensures (v + 0xff_ffff_ffff_ff00 * Pow256(n - 1)) % TWO_64 == SignExtend(v, PowHalfOf(n))
  {
    Powers();
    var w := Pow256(n - 1);
    var q := w / 256 - 1;
    var r := v + (TWO_64 - 256 * w);
    assert v + 0xff_ffff_ffff_ff00 * w == TWO_64 * q + r;
    ModUnique(v + 0xff_ffff_ffff_ff00 * w, TWO_64, q, r);
  }

  function PowHalfOf(n: nat): (h: nat)
    requires 1 <= n <= 8
    ensures 2 * h == Pow256(n) <= TWO_64
  {
    PowHalf(n);
    Pow256(n) / 2
  }

  lemma WrapStep(a: int, b: nat)
    ensures (((a % TWO_64) * 256) % TWO_64 + b) % TWO_64 == (a * 256 + b) % TWO_64
  {
    var q, r := a / TWO_64, a % TWO_64;
    assert a * 256 == TWO_64 * (q * 256) + r * 256;
    var q2, r2 := (r * 256) / TWO_64, (r * 256) % TWO_64;
    var q3, r3 := (r2 + b) / TWO_64, (r2 + b) % TWO_64;
    assert a * 256 + b == TWO_64 * (q * 256 + q2 + q3) + r3;
    ModUnique(a * 256 + b, TWO_64, q * 256 + q2 + q3, r3);
  }

  lemma DecodeOne(bs: seq<byte>, isSigned: bool)
    requires bs != [] && bs[0] < 0x80
    ensures var word := if isSigned && bs[0] >= 0x40 then 0xffff_ffff_ffff_ffc0 + (bs[0] as int - 0x40) else bs[0];
            Decode(bs, isSigned) == Some((Word(word), 1))
  {
  }

  function TwoByteStart(b: byte, isSigned: bool): uint64 {
    if isSigned && b >= 0x80 then 0xffff_ffff_ffff_ff00 + b as int else b
  }

  lemma DecodeTwo(bs: seq<byte>, isSigned: bool)
    requires |bs| >= 2 && 0x80 <= bs[0] < 0xc0
    ensures var word := (TwoByteStart(bs[1], isSigned) * 0x40) % TWO_64 + bs[0] as int % 0x40;
            Decode(bs, isSigned) == Some((Word(word), 2))
  {
  }

  lemma DecodeMany(bs: seq<byte>, isSigned: bool)
    requires bs != [] && bs[0] > 0xc0
    ensures var n := bs[0] - 0xc0;
            Decode(bs, isSigned) ==
              if n <= 8 && n + 1 <= |bs| then Some((Word(PayloadWord(bs[1..n + 1], isSigned)), n + 1)) else None
  {
  }

  /** A reader that looked for a value at the front of `before` has found it and stands
      behind it, or has found none and merely moved forward. */
  ghost predicate Landed(before: S.State, after: S.State, ok: bool, found: Option<(Result, nat)>, v: Result)
    requires before.Wf()
  {
    && S.Progress(before, after)
    && ok == found.Some?
    && (ok ==> found.value.1 <= before.Room() && after == before.Advance(found.value.1) && v == found.value.0)
  }

  /** src/blink_compact.c:554-642. */
  method DecodeVlc(inp: Stream, isSigned: bool) returns (ok: bool, v: Result)
    requires inp.Valid()
    modifies inp.Repr
    ensures inp.Valid()
    ensures Landed(old(inp.Value()), inp.Value(), ok, Decode(old(inp.Value()).Avail(), isSigned), v)
  {
    hide Stream.Valid, Stream.Value, S.State.Avail, S.State.Advance;
    ghost var before := inp.Value();
    v := Null;
    var head;
    before.AdvanceNone();
    ok, head := inp.Take(1, before, 0);
    if ok {
      assert head[0] == before.Avail()[0];
      if head[0] < 0xc0 {
        if head[0] < 0x80 {
          DecodeOne(before.Avail(), isSigned);
          v := Word(if isSigned && head[0] >= 0x40 then 0xffff_ffff_ffff_ffc0 + (head[0] as int - 0x40) else head[0]);
        } else {
          ok, v := DecodeSecond(inp, isSigned, head[0], before);
        }
      } else if head[0] != 0xc0 {
        ok, v := DecodePayload(inp, isSigned, head[0], before);
      }
    }
  }

  /** The two-byte form, src/blink_compact.c:585-599. */
  method DecodeSecond(inp: Stream, isSigned: bool, head: byte, ghost before: S.State) returns (ok: bool, v: Result)
    requires inp.Valid() && before.Wf() && before.Room() >= 1 && inp.Value() == before.Advance(1)
    requires before.Avail()[0] == head && 0x80 <= head < 0xc0
    modifies inp.Repr
    ensures inp.Valid()
    ensures Landed(before, inp.Value(), ok, Decode(before.Avail(), isSigned), v)
  {
    hide Stream.Valid, Stream.Value, S.State.Avail, S.State.Advance;
    v := Null;
    var tail;
    ok, tail := inp.Take(1, before, 1);
    if ok {
      DecodeTwo(before.Avail(), isSigned);
      var word := TwoByteStart(tail[0], isSigned);
      word := (word * 0x40) % TWO_64;
      v := Word(word + head as int % 0x40);
    }
  }

  /** The long form, src/blink_compact.c:609-637. */
  method DecodePayload(inp: Stream, isSigned: bool, head: byte, ghost before: S.State) returns (ok: bool, v: Result)
    requires inp.Valid() && before.Wf() && before.Room() >= 1 && inp.Value() == before.Advance(1)
    requires before.Avail()[0] == head && head > 0xc0
    modifies inp.Repr
    ensures inp.Valid()
    ensures Landed(before, inp.Value(), ok, Decode(before.Avail(), isSigned), v)
  {
    hide Stream.Valid, Stream.Value, S.State.Avail, S.State.Advance;
    ok, v := false, Null;
    DecodeMany(before.Avail(), isSigned);
    S.ProgressSame(inp.Value());
    S.ProgressOn(before, 1, inp.Value());
    var bytes := head - 0xc0;
    if bytes <= 8 {
      var payload;
      ok, payload := inp.Take(bytes, before, 1);
      if ok {
        var word := Fold(payload, isSigned);
        v := Word(word);
      }
    }
  }

  /** The shift loop, src/blink_compact.c:615-628; the 56-bit mask is the source's. */
  method Fold(payload: seq<byte>, isSigned: bool) returns (word: uint64)
    requires 1 <= |payload| <= 8
    ensures word == PayloadWord(payload, isSigned)
  {
    word := StartWord(payload[|payload| - 1], isSigned);
    ghost var start := word;
    var i := |payload| - 1;
    FoldStart(payload, start);
    while i != 0
      invariant 0 <= i < |payload|
      invariant word == Folded(payload, start, i + 1) % TWO_64
    {
      FoldStepWord(payload, start, i + 1, word);
      word := (word * 256) % TWO_64;
      word := word + payload[i - 1];
      i := i - 1;
    }
    FoldedWord(payload, isSigned);
  }

  lemma FoldStart(payload: seq<byte>, start: uint64)
    requires payload != []
    ensures Folded(payload, start, |payload|) % TWO_64 == start
  {
    var last := payload[|payload| - 1..];
    assert last[1..] == [];
    assert LittleEndian(last) == payload[|payload| - 1];
    assert Pow256(0) == 1;
    ModUnique(start, TWO_64, 0, start);
  }

  lemma FoldStepWord(payload: seq<byte>, start: uint64, i: nat, word: uint64)
    requires 1 < i <= |payload| && word == Folded(payload, start, i) % TWO_64
    ensures (word * 256) % TWO_64 + payload[i - 2] == Folded(payload, start, i - 1) % TWO_64 < TWO_64
  {
    FoldStep(payload, start, i);
    WrapStep(Folded(payload, start, i), payload[i - 2]);
    ShiftLeavesRoom(word, payload[i - 2]);
  }

  /** After shifting by eight bits the low byte is free, so or-ing a byte in cannot carry. */
  lemma ShiftLeavesRoom(w: nat, b: byte)
    ensures (w * 256) % TWO_64 + b < TWO_64
    ensures ((w * 256) % TWO_64 + b) % TWO_64 == (w * 256) % TWO_64 + b
  {
    var r := (w * 256) % TWO_64;
    var q := (w * 256) / TWO_64;
    assert r == 256 * (w - q * 0x100_0000_0000_0000);
    assert r <= TWO_64 - 256;
  }
}
