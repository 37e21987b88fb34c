/** The stream object the C code passes around, proved against the functions of Streams. */
module StreamObjects {
  import opened Base
  import S = Streams

  /** struct blink_stream: a tagged union of a memory buffer and a bound over another stream. */
  class Stream {
    const bounded: bool
    const input: array?<byte>
    const output: array?<byte>
    const inner: Stream?
    var max: nat
    var pos: nat
    var eof: bool
    ghost const Repr: set<object>

    ghost predicate Valid()
      reads this, Repr
      decreases Repr
    {
      && this in Repr
      && pos <= max
      && (if bounded then
            && inner != null && inner in Repr && inner.Repr < Repr && this !in inner.Repr
            && inner.Valid() && max <= UINT32_MAX
          else ValidBuffer())
    }

    ghost predicate ValidBuffer()
      reads this
    {
      && this in Repr
      && !bounded && pos <= max <= INT32_MAX
      && (input != null ==> input in Repr && max <= input.Length)
      && (output != null ==> output == input)
      && (input == null ==> max == 0)
    }

    ghost function Value(): (s: S.State)
      requires Valid()
      reads this, Repr
      ensures s.Wf() && (s.bounds == [] <==> !bounded)
      decreases Repr
    {
      if bounded then inner.Value().Under(S.Limit(max, pos, eof)) else BufferValue()
    }

    /** A bounded stream and the one underneath. */
    lemma Beneath()
      requires Valid() && bounded
      ensures inner != null && inner.Valid() && Value() == inner.Value().Under(S.Limit(max, pos, eof))
      ensures Value().Inner() == inner.Value()
    {
      var s := inner.Value();
      assert s.Under(S.Limit(max, pos, eof)).bounds[1..] == s.bounds;
    }

    ghost function BufferValue(): (s: S.State)
      requires ValidBuffer()
      reads this, input
      ensures s.Wf()
    {
      S.State(if input == null then [] else input[..max], pos, eof, input != null, output != null, [])
    }

    /** BLINK_Stream_initBufferReadOnly and BLINK_Stream_initBuffer, for a limit they accept. */
    constructor OfBuffer(buf: array?<byte>, limit: nat, canWrite: bool)
      requires buf == null ==> limit == 0
      requires buf != null ==> limit <= buf.Length
      requires limit <= INT32_MAX
      ensures Valid() && !bounded && (forall o :: o in Repr ==> o == this || o == buf)
      ensures Value() ==
                S.State(if buf == null then [] else buf[..limit], 0, false, buf != null, buf != null && canWrite, [])
    {
      bounded := false;
      input := buf;
      output := if canWrite then buf else null;
      inner := null;
      max := limit;
      pos := 0;
      eof := false;
      if buf == null { Repr := {this}; } else { ghost var b: array<byte> := buf; Repr := {this, b}; }
    }

    /** BLINK_Stream_initBounded. */
    constructor OfStream(stream: Stream, limit: uint32)
      requires stream.Valid()
      ensures Valid() && bounded && inner == stream && Repr == {this} + stream.Repr
      ensures Value() == stream.Value().Under(S.Limit(limit, 0, false))
    {
      bounded := true;
      input := null;
      output := null;
      inner := stream;
      max := limit;
      pos := 0;
      eof := false;
      Repr := {this} + stream.Repr;
    }

    method Read(n: nat) returns (ok: bool, data: seq<byte>)
      requires Valid()
      modifies Repr
      ensures Valid()
      ensures Value() == S.Read(old(Value()), n).1
      ensures (if ok then Some(data) else None) == S.Read(old(Value()), n).0
      decreases Repr, 1
    {
      hide S.ReadBuffer, Value;
      ok, data := false, [];
      if n <= INT32_MAX {
        if !bounded {
          ok, data := ReadMemory(n);
        } else {
          ok, data := ReadThrough(n);
        }
      }
    }

    /** The case of a bound. */
    method ReadThrough(n: nat) returns (ok: bool, data: seq<byte>)
      requires Valid() && bounded && n <= INT32_MAX
      modifies Repr
      ensures Valid()
      ensures Value() == S.Read(old(Value()), n).1
      ensures (if ok then Some(data) else None) == S.Read(old(Value()), n).0
      decreases Repr, 0
    {
      hide S.Read, Value;
      ok, data := false, [];
      ghost var below, b := inner.Value(), S.Limit(max, pos, eof);
      Beneath();
      S.ReadUnder(below, b, n);
      if max - pos >= n {
        pos := pos + n;
        ok, data := inner.Read(n);
      } else {
        eof := true;
      }
      Beneath();
    }

    /** The case of a buffer. */
    method ReadMemory(n: nat) returns (ok: bool, data: seq<byte>)
      requires Valid() && !bounded
      modifies Repr
      ensures Valid()
      ensures Value() == S.ReadBuffer(old(Value()), n).1
      ensures (if ok then Some(data) else None) == S.ReadBuffer(old(Value()), n).0
    {
      ok, data := false, [];
      if input != null {
        if max - pos >= n {
          data := input[pos..pos + n];
          SliceSlice(input[..], 0, max, pos, pos + n);
          assert input[..][0..max] == input[..max];
          pos := pos + n;
          ok := true;
        } else {
          eof := true;
        }
      }
    }

    method Write(data: seq<byte>) returns (ok: bool)
      requires Valid()
      modifies Repr
      ensures Valid()
      ensures (ok, Value()) == S.Write(old(Value()), data)
      decreases Repr
    {
      hide S.WriteBuffer;
      ok := false;
      if |data| <= INT32_MAX {
        if !bounded {
          ok := WriteMemory(data);
        } else {
          if max - pos >= |data| {
            ok := inner.Write(data);
          }
        }
      }
    }

    /** The case of a buffer. */
    method WriteMemory(data: seq<byte>) returns (ok: bool)
      requires Valid() && !bounded
      modifies Repr
      ensures Valid()
      ensures (ok, Value()) == S.WriteBuffer(old(Value()), data)
    {
      ok := false;
      if output != null {
        if max - pos >= |data| {
          ghost var before := output[..max];
          var at := pos;
          forall i | 0 <= i < |data| {
            output[at + i] := data[i];
          }
          assert output[..max] == before[..at] + data + before[at + |data|..];
          pos := pos + |data|;
          ok := true;
        }
      }
    }

    method Peek() returns (c: Option<byte>)
      requires Valid()
      ensures c == S.Peek(Value())
    {
      c := None;
      if !bounded && input != null {
        if max - pos >= 1 {
          c := Some(input[pos]);
        }
      }
    }

    method SeekSet(offset: nat) returns (ok: bool)
      requires Valid()
      modifies this
      ensures Valid() && (ok, Value()) == S.SeekSet(old(Value()), offset)
    {
      ok := false;
      if offset < INT32_MAX {
        if !bounded {
          if max >= offset {
            pos := offset;
            ok := true;
          }
        }
      }
    }

    method SeekCur(offset: int) returns (ok: bool)
      requires Valid()
      modifies this
      ensures Valid() && (ok, Value()) == S.SeekCur(old(Value()), offset)
    {
      ok := false;
      if !bounded {
        if offset > 0 {
          if pos + offset <= max {
            pos := pos + offset;
            ok := true;
          }
        } else {
          ok := true;
        }
      }
    }

    method SetMax(offset: uint32) returns (ok: bool)
      requires Valid()
      modifies this
      ensures Valid() && (ok, Value()) == S.SetMax(old(Value()), offset)
    {
      ok := false;
      if bounded {
        if offset >= pos {
          max := offset;
          ok := true;
        }
      }
    }

    /** The text of a buffer stream. */
    ghost function Text(): (t: seq<byte>)
      requires Valid() && !bounded
      reads this, Repr
      ensures pos <= |t| <= INT32_MAX
    {
      if input == null then [] else input[..max]
    }

    /** Read a single byte of a buffer. */
    method Next() returns (c: Option<byte>)
      requires Valid() && !bounded
      modifies Repr
      ensures Valid() && Text() == old(Text())
      ensures old(pos) < |Text()| ==> c == Some(Text()[old(pos)]) && pos == old(pos) + 1
      ensures old(pos) == |Text()| ==> c == None && pos == old(pos)
    {
      var ok, data := Read(1);
      c := if ok then Some(data[0]) else None;
      assert ok ==> data[0] == old(Text())[old(pos)];
    }

    /** Read n bytes of a buffer. */
    method Chunk(n: nat) returns (ok: bool, data: seq<byte>)
      requires Valid() && !bounded && 0 < n <= INT32_MAX
      modifies Repr
      ensures Valid() && Text() == old(Text())
      ensures ok == (old(pos) + n <= |Text()|)
      ensures ok ==> pos == old(pos) + n && |data| == n && forall i :: 0 <= i < n ==> data[i] == Text()[old(pos) + i]
    {
      ok, data := Read(n);
    }

    /** Peek at a buffer. */
    method Look() returns (c: Option<byte>)
      requires Valid() && !bounded
      ensures c == if pos < |Text()| then Some(Text()[pos]) else None
    {
      c := Peek();
    }

    /** Step over a byte that has been looked at. */
    method Skip()
      requires Valid() && !bounded && pos < |Text()|
      modifies this
      ensures Valid() && Text() == old(Text()) && pos == old(pos) + 1
    {
      var ok := SeekCur(1);
    }

    /** Go back to a position that is not at the very end. */
    method Rewind(to: nat)
      requires Valid() && !bounded && to < |Text()|
      modifies this
      ensures Valid() && Text() == old(Text()) && pos == to
    {
      var ok := SeekSet(to);
    }

    /** Read, stated by what was available in an earlier state of which `done` bytes are gone. */
    method Take(n: nat, ghost before: S.State, ghost done: nat) returns (ok: bool, data: seq<byte>)
      requires Valid() && n <= INT32_MAX && (n > 0 || Value().readable)
      requires before.Wf() && done <= before.Room() && Value() == before.Advance(done)
      modifies Repr
      ensures Valid() && S.Progress(before, Value())
      ensures ok == (done + n <= before.Room())
      ensures ok ==> data == before.Avail()[done..done + n] && Value() == before.Advance(done + n)
    {
      hide S.Read;
      S.ReadAhead(before, done, n);
      ok, data := Read(n);
    }
  }
}
