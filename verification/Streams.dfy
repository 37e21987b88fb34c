/** The buffer and bounded streams of src/blink_stream.c.

    `State` is the value of a stream: a memory buffer, seen through a bound or directly.
    The transition functions say what one call does to it, `Avail` is the text a reader
    can still get out of it. */
module Streams {
  import opened Base

  /** The private counters of a bounded stream. */
  datatype Limit = Limit(max: nat, pos: nat, eof: bool)

  /** A memory buffer and the bounds it is seen through, the one a caller holds first. */
  datatype State = State(mem: seq<byte>, pos: nat, eof: bool, readable: bool, writable: bool, bounds: seq<Limit>) {
    /** What every initialiser establishes and every call keeps. */
    ghost predicate Wf() {
      && pos <= |mem| <= INT32_MAX
      && forall i :: 0 <= i < |bounds| ==> bounds[i].pos <= bounds[i].max <= UINT32_MAX
    }

    /** The stream underneath the first bound. */
    function Inner(): State
      requires bounds != []
    {
      this.(bounds := bounds[1..])
    }

    /** The same seen through one more bound. */
    function Under(b: Limit): State {
      this.(bounds := [b] + bounds)
    }

    /** How many bytes a reader can still get. */
    ghost function Room(): (n: nat)
      requires Wf()
      ensures n <= INT32_MAX
    {
      if readable then Least(bounds, |mem| - pos) else 0
    }

    /** The bytes still to be read, in order. */
    ghost function Avail(): (a: seq<byte>)
      requires Wf()
      ensures |a| == Room()
    {
      mem[pos..pos + Room()]
    }

    /** The state after n available bytes have been read. */
    ghost function Advance(n: nat): (s: State)
      requires Wf() && n <= Room()
      ensures s.Wf() && s.Room() == Room() - n && s.readable == readable
    {
      LeastShift(bounds, |mem| - pos, n);
      this.(pos := pos + n, bounds := Shift(bounds, n))
    }

    lemma AdvanceAvail(n: nat)
      requires Wf() && n <= Room()
      ensures Advance(n).Avail() == Avail()[n..]
    {
      hide Least, Shift;
    }

    lemma FirstAvail(n: nat)
      requires Wf() && n <= Room()
      ensures Avail()[..n] == mem[pos..pos + n]
    {
      SliceSlice(mem, pos, pos + Room(), 0, n);
    }

    lemma AdvanceTwice(m: nat, n: nat)
      requires Wf() && m + n <= Room()
      ensures Advance(m).Advance(n) == Advance(m + n)
    {
      hide Least;
      assert Shift(Shift(bounds, m), n) == Shift(bounds, m + n);
    }

    lemma AdvanceNone()
      requires Wf()
      ensures Advance(0) == this
    {
      hide Least;
      assert Shift(bounds, 0) == bounds;
    }

    /** Behind a bound with enough left, reading is reading underneath. */
    lemma AdvanceUnder(b: Limit, n: nat)
      requires Wf() && b.pos + n <= b.max <= UINT32_MAX
      ensures Under(b).Wf() && (readable ==> Under(b).Room() == Min(b.max - b.pos, Room()))
      ensures n <= Room() && readable ==> Under(b).Advance(n) == Advance(n).Under(b.(pos := b.pos + n))
    {
      hide Least, Shift;
      RoomUnder(b);
      if n <= Room() && readable { ShiftUnder(bounds, b, n); }
    }

    lemma RoomUnder(b: Limit)
      requires Wf() && b.pos <= b.max <= UINT32_MAX
      ensures Under(b).Wf() && (readable ==> Under(b).Room() == Min(b.max - b.pos, Room()))
    {
      assert Under(b).bounds[1..] == bounds;
    }

    /** The same, said of a stream that is bounded. */
    lemma BehindFirst(n: nat)
      requires Wf() && bounds != [] && readable
      ensures var b := bounds[0];
              && Inner().Wf() && Room() == Min(b.max - b.pos, Inner().Room())
              && (n <= Room() ==> n <= Inner().Room() && Advance(n) == Inner().Advance(n).Under(b.(pos := b.pos + n)))
    {
      hide Advance;
      assert Inner().Under(bounds[0]) == this;
      if bounds[0].pos + n <= bounds[0].max { Inner().AdvanceUnder(bounds[0], n); }
      else { Inner().AdvanceUnder(bounds[0], 0); }
    }
  }

  /** The least of k and what any bound leaves. */
  ghost function Least(bounds: seq<Limit>, k: nat): (n: nat)
    requires forall i :: 0 <= i < |bounds| ==> bounds[i].pos <= bounds[i].max
    ensures n <= k && forall i :: 0 <= i < |bounds| ==> n <= bounds[i].max - bounds[i].pos
  {
    if bounds == [] then k else Min(bounds[0].max - bounds[0].pos, Least(bounds[1..], k))
  }

  /** All bounds n bytes further on. */
  ghost function Shift(bounds: seq<Limit>, n: nat): (r: seq<Limit>)
    ensures |r| == |bounds| && forall i :: 0 <= i < |bounds| ==> r[i] == bounds[i].(pos := bounds[i].pos + n)
  {
    seq(|bounds|, i requires 0 <= i < |bounds| => bounds[i].(pos := bounds[i].pos + n))
  }

  lemma ShiftUnder(bounds: seq<Limit>, b: Limit, n: nat)
    ensures Shift([b] + bounds, n) == [b.(pos := b.pos + n)] + Shift(bounds, n)
  {
  }

  lemma {:induction false} LeastShift(bounds: seq<Limit>, k: nat, n: nat)
    requires forall i :: 0 <= i < |bounds| ==> bounds[i].pos <= bounds[i].max
    requires n <= Least(bounds, k)
    ensures Least(Shift(bounds, n), k - n) == Least(bounds, k) - n
  {
    if bounds != [] {
      LeastShift(bounds[1..], k, n);
      assert Shift(bounds, n)[1..] == Shift(bounds[1..], n);
    }
  }

  // ------------------------------------------------------------- single operations

  /** src/blink_stream.c:83-137. A bounded stream moves its own position before it asks the
      stream underneath, and keeps the move when that one refuses. */
  function Read(s: State, n: nat): (r: (Option<seq<byte>>, State))
    requires s.Wf()
    ensures r.1.Wf()
    decreases |s.bounds|
  {
    if n > INT32_MAX then (None, s)
    else if s.bounds == [] then ReadBuffer(s, n)
    else
      var b := s.bounds[0];
      if b.max - b.pos >= n then
        var (data, inner) := Read(s.Inner(), n);
        (data, inner.Under(b.(pos := b.pos + n)))
      else (None, s.(bounds := [b.(eof := true)] + s.bounds[1..]))
  }

  function ReadBuffer(s: State, n: nat): (r: (Option<seq<byte>>, State))
    requires s.Wf() && s.bounds == []
    ensures r.1.Wf() && r.1.bounds == []
  {
    if !s.readable then (None, s)
    else if |s.mem| - s.pos >= n then (Some(s.mem[s.pos..s.pos + n]), s.(pos := s.pos + n))
    else (None, s.(eof := true))
  }

  /** Reading through one more bound. */
  lemma ReadUnder(s: State, b: Limit, n: nat)
    requires s.Wf() && b.pos <= b.max <= UINT32_MAX && n <= INT32_MAX
    ensures s.Under(b).Wf()
    ensures Read(s.Under(b), n) ==
              if b.max - b.pos >= n then (Read(s, n).0, Read(s, n).1.Under(b.(pos := b.pos + n)))
              else (None, s.Under(b.(eof := true)))
  {
    hide ReadBuffer;
    var t := s.Under(b);
    assert t.bounds[0] == b && t.bounds[1..] == s.bounds;
    assert t.Inner() == s;
  }

  /** src/blink_stream.c:36-81. A bounded stream forwards without moving its own position. */
  function Write(s: State, data: seq<byte>): (r: (bool, State))
    requires s.Wf()
    ensures r.1.Wf()
    decreases |s.bounds|
  {
    if |data| > INT32_MAX then (false, s)
    else if s.bounds == [] then WriteBuffer(s, data)
    else
      var b := s.bounds[0];
      if b.max - b.pos >= |data| then
        var (ok, inner) := Write(s.Inner(), data);
        (ok, inner.Under(b))
      else (false, s)
  }

  function WriteBuffer(s: State, data: seq<byte>): (r: (bool, State))
    requires s.Wf() && s.bounds == []
    ensures r.1.Wf() && r.1.bounds == []
  {
    if s.writable && |s.mem| - s.pos >= |data| then
      (true, s.(mem := s.mem[..s.pos] + data + s.mem[s.pos + |data|..], pos := s.pos + |data|))
    else (false, s)
  }

  /** src/blink_stream.c:139-174. Only buffers can be peeked. */
  function Peek(s: State): Option<byte>
    requires s.Wf()
  {
    if s.bounds == [] && s.readable && s.pos < |s.mem| then Some(s.mem[s.pos]) else None
  }

  /** src/blink_stream.c:270-300. */
  function SeekSet(s: State, offset: nat): (r: (bool, State))
    requires s.Wf()
    ensures r.1.Wf()
  {
    if offset < INT32_MAX && s.bounds == [] && offset <= |s.mem| then (true, s.(pos := offset)) else (false, s)
  }

  /** src/blink_stream.c:302-325, 399-425: a negative offset is accepted and ignored. */
  function SeekCur(s: State, offset: int): (r: (bool, State))
    requires s.Wf()
    ensures r.1.Wf()
  {
    if s.bounds != [] then (false, s)
    else if offset > 0 then
      if s.pos + offset <= |s.mem| then (true, s.(pos := s.pos + offset)) else (false, s)
    else (true, s)
  }

  /** src/blink_stream.c:354-374. */
  function SetMax(s: State, offset: uint32): (r: (bool, State))
    requires s.Wf()
    ensures r.1.Wf()
  {
    if s.bounds != [] && offset >= s.bounds[0].pos then (true, s.Inner().Under(s.bounds[0].(max := offset)))
    else (false, s)
  }

  // -------------------------------------------- peeking, seeking, bounding and writing

  /** What can be peeked is the next byte that can be read, and nothing through a bound. */
  lemma PeekAvail(s: State)
    requires s.Wf()
    ensures Peek(s) == if s.bounds == [] && s.Avail() != [] then Some(s.Avail()[0]) else None
  {
  }

  /** BLINK_Stream_eof, src/blink_stream.c:327-352. */
  function Eof(s: State): bool {
    if s.bounds == [] then s.eof else s.bounds[0].eof
  }

  /** The end is reported once a read has asked for more than the buffer, or the bound one looks
      through, has left; running out of what is underneath is not reported through a bound. */
  lemma EofMeans(s: State, n: nat)
    requires s.Wf()
    ensures Eof(Read(s, n).1) <==>
              || Eof(s)
              || (&& n <= 0x7fff_ffff
                  && if s.bounds == [] then s.readable && n > |s.mem| - s.pos
                     else n > s.bounds[0].max - s.bounds[0].pos)
  {
  }

  /** Seeking forward in a buffer passes over what a read would have returned. */
  lemma SeekIsRead(s: State, n: nat)
    requires s.Wf() && s.bounds == [] && s.readable && n > 0
    ensures SeekCur(s, n) == if n <= s.Room() then (true, s.Advance(n)) else (false, s)
  {
    assert Shift(s.bounds, n) == s.bounds;
  }

  /** A bounded stream cannot be moved, and a buffer not backwards in this way. */
  lemma SeekNowhere(s: State, offset: int)
    requires s.Wf() && (offset <= 0 || s.bounds != [])
    ensures SeekCur(s, offset) == (s.bounds == [], s)
  {
  }

  /** Going back to where a read began makes it as if it had not been, except from the last
      position of all. */
  lemma SeekBack(s: State, n: nat)
    requires s.Wf() && s.bounds == [] && n <= s.Room()
    ensures SeekSet(s.Advance(n), s.pos) == if s.pos < 0x7fff_ffff then (true, s) else (false, s.Advance(n))
  {
    assert Shift(s.bounds, n) == s.bounds;
  }

  /** A position can be set exactly within a buffer, short of the last position of all. */
  lemma SeekWithin(s: State, offset: nat)
    requires s.Wf()
    ensures SeekSet(s, offset).0 <==> s.bounds == [] && offset <= |s.mem| && offset < 0x7fff_ffff
    ensures SeekSet(s, offset).0 && s.readable ==> SeekSet(s, offset).1.Avail() == s.mem[offset..]
    ensures !SeekSet(s, offset).0 ==> SeekSet(s, offset).1 == s
  {
  }

  /** A bound lets through what is left up to its limit of what is there underneath. */
  lemma SetMaxAvail(s: State, limit: uint32)
    requires s.Wf()
    ensures var (ok, t) := SetMax(s, limit);
            && ok == (s.bounds != [] && limit >= s.bounds[0].pos) && (!ok ==> t == s)
            && (ok && s.readable ==>
                  t.Inner() == s.Inner() && s.Inner().Wf()
                  && t.Avail() == s.Inner().Avail()[..Min(limit - s.bounds[0].pos, s.Inner().Room())])
  {
    hide Least;
    if s.bounds != [] && limit >= s.bounds[0].pos && s.readable {
      var b := s.bounds[0].(max := limit);
      assert s.Inner().Under(b).bounds[1..] == s.Inner().bounds;
      s.Inner().RoomUnder(b);
      s.Inner().FirstAvail(Min(limit - b.pos, s.Inner().Room()));
    }
  }

  /** The buffer with data written at its position. */
  function Stamped(s: State, data: seq<byte>): State
    requires s.Wf() && s.pos + |data| <= |s.mem|
  {
    s.(mem := s.mem[..s.pos] + data + s.mem[s.pos + |data|..], pos := s.pos + |data|)
  }

  /** A write is granted exactly if the buffer takes input and it fits there and within every
      bound; it moves no bound, and one that is refused changes nothing. */
  lemma {:induction false} WriteExactly(s: State, data: seq<byte>)
    requires s.Wf()
    ensures Write(s, data) ==
              if s.writable && |data| <= Least(s.bounds, |s.mem| - s.pos) then (true, Stamped(s, data)) else (false, s)
    decreases |s.bounds|
  {
    if s.bounds != [] && |data| <= INT32_MAX {
      assert s.Inner().Under(s.bounds[0]) == s;
      WriteExactly(s.Inner(), data);
    }
  }

  // ------------------------------------------------------------------ reading

  /** A read is decided by what is available: it returns exactly the next n bytes, or fails
      and leaves nothing that was not available before. Where there is no input even a read of
      nothing fails. */
  lemma ReadAvail(s: State, n: nat)
    requires s.Wf()
    ensures if s.readable && n <= s.Room() then Read(s, n) == (Some(s.Avail()[..n]), s.Advance(n))
            else Read(s, n).0.None? && Read(s, n).1.Avail() <= s.Avail()
  {
    hide Read;
    if s.readable && n <= s.Room() { GrantedRead(s, n); } else { RefusedRead(s, n); }
  }

  lemma {:induction false} GrantedRead(s: State, n: nat)
    requires s.Wf() && s.readable && n <= s.Room()
    ensures Read(s, n) == (Some(s.Avail()[..n]), s.Advance(n))
    decreases |s.bounds|
  {
    hide Least, Shift, State.Advance, State.Avail;
    s.FirstAvail(n);
    if s.bounds == [] {
      GrantedByBuffer(s, n);
    } else {
      var b := s.bounds[0];
      s.BehindFirst(n);
      GrantedRead(s.Inner(), n);
      s.Inner().FirstAvail(n);
    }
  }

  lemma GrantedByBuffer(s: State, n: nat)
    requires s.Wf() && s.bounds == [] && s.readable && n <= s.Room()
    ensures ReadBuffer(s, n) == (Some(s.mem[s.pos..s.pos + n]), s.Advance(n))
  {
    assert Shift(s.bounds, n) == s.bounds;
  }

  lemma RefusedRead(s: State, n: nat)
    requires s.Wf() && !(s.readable && n <= s.Room())
    ensures Read(s, n).0.None? && Progress(s, Read(s, n).1) && Read(s, n).1.Avail() <= s.Avail()
  {
    hide Read;
    NothingRead(s, n);
    ProgressAvail(s, Read(s, n).1);
  }

  lemma {:induction false} NothingRead(s: State, n: nat)
    requires s.Wf() && !(s.readable && n <= s.Room())
    ensures var (data, s') := Read(s, n); data.None? && Progress(s, s') && s'.pos == s.pos
    decreases |s.bounds|
  {
    hide Least, Shift, State.Advance, Progress;
    ProgressSame(s);
    if s.bounds == [] {
      NothingFromBuffer(s, n);
    } else if n <= INT32_MAX {
      var b := s.bounds[0];
      assert s.Inner().Under(b) == s;
      if b.max - b.pos >= n {
        if s.readable { s.BehindFirst(n); }
        NothingRead(s.Inner(), n);
        ProgressUnder(s.Inner(), b, Read(s.Inner(), n).1, b.(pos := b.pos + n));
      } else {
        ProgressSame(s.Inner());
        ProgressUnder(s.Inner(), b, s.Inner(), b.(eof := true));
      }
    }
  }

  lemma NothingFromBuffer(s: State, n: nat)
    requires s.Wf() && s.bounds == [] && !(s.readable && n <= s.Room())
    ensures Read(s, n) == (None, s) || Read(s, n) == (None, s.(eof := true))
    ensures Progress(s, s.(eof := true))
  {
  }

  lemma ProgressSame(s: State)
    requires s.Wf()
    ensures Progress(s, s)
  {
  }

  lemma ProgressUnder(s: State, b: Limit, s': State, b': Limit)
    requires Progress(s, s') && b'.max == b.max && b.pos <= b'.pos <= b.max
    ensures Progress(s.Under(b), s'.Under(b'))
  {
  }

  /** A stream that has made progress without moving its buffer has nothing new to offer. */
  lemma ProgressAvail(s: State, s': State)
    requires s.Wf() && s'.Wf() && Progress(s, s') && s'.pos == s.pos
    ensures s'.Avail() <= s.Avail()
  {
    LeastLess(s.bounds, s'.bounds, |s.mem| - s.pos);
  }

  lemma {:induction false} LeastLess(a: seq<Limit>, b: seq<Limit>, k: nat)
    requires |a| == |b| && forall i :: 0 <= i < |a| ==> a[i].pos <= b[i].pos <= b[i].max == a[i].max
    ensures Least(b, k) <= Least(a, k)
  {
    if a != [] {
      assert forall i :: 0 <= i < |a| - 1 ==> a[1..][i] == a[i + 1] && b[1..][i] == b[i + 1];
      LeastLess(a[1..], b[1..], k);
    }
  }

  /** A read after `done` of the available bytes have gone, seen from before them. */
  lemma ReadAhead(s: State, done: nat, n: nat)
    requires s.Wf() && done <= s.Room()
    ensures var (data, s') := Read(s.Advance(done), n);
            if s.readable && done + n <= s.Room() then
              data == Some(s.Avail()[done..done + n]) && s' == s.Advance(done + n)
            else data == None && Progress(s, s')
  {
    hide Read;
    s.AdvanceAvail(done);
    if s.readable && done + n <= s.Room() {
      GrantedRead(s.Advance(done), n);
      s.AdvanceTwice(done, n);
      assert s.Avail()[done..][..n] == s.Avail()[done..done + n];
    } else {
      RefusedRead(s.Advance(done), n);
      ProgressOn(s, done, Read(s.Advance(done), n).1);
    }
  }

  lemma ProgressOn(s: State, done: nat, s': State)
    requires s.Wf() && done <= s.Room() && Progress(s.Advance(done), s')
    ensures Progress(s, s')
  {
  }

  /** The successful reads of a run, in order, and the state it ends in. */
  function ReadRun(s: State, sizes: seq<nat>): (r: (seq<seq<byte>>, State))
    requires s.Wf()
    ensures r.1.Wf()
    decreases sizes
  {
    if sizes == [] then ([], s)
    else
      var (data, s') := Read(s, sizes[0]);
      var (rest, s'') := ReadRun(s', sizes[1..]);
      ((if data.Some? then [data.value] else []) + rest, s'')
  }

  /** Whatever sizes are asked for, and whichever reads fail, the bytes handed out are a
      prefix of what was available. */
  lemma {:induction false} ReadRunIsPrefix(s: State, sizes: seq<nat>)
    requires s.Wf()
    ensures Flatten(ReadRun(s, sizes).0) <= s.Avail()
    decreases sizes
  {
    hide Read, State.Avail, ReadRun;
    ReadRunStep(s, sizes);
    if sizes != [] {
      var (data, s') := Read(s, sizes[0]);
      ReadRunIsPrefix(s', sizes[1..]);
      ReadOnce(s, sizes[0]);
      if data.Some? { PrefixJoin(s.Avail(), sizes[0], Flatten(ReadRun(s', sizes[1..]).0)); }
    }
  }

  lemma ReadRunStep(s: State, sizes: seq<nat>)
    requires s.Wf()
    ensures sizes == [] ==> Flatten(ReadRun(s, sizes).0) == []
    ensures sizes != [] ==>
              var (data, s') := Read(s, sizes[0]);
              var rest := Flatten(ReadRun(s', sizes[1..]).0);
              Flatten(ReadRun(s, sizes).0) == if data.Some? then data.value + rest else rest
  {
    hide Read;
    if sizes != [] {
      var (data, s') := Read(s, sizes[0]);
      var rest := ReadRun(s', sizes[1..]).0;
      if data.Some? { FlattenCons(data.value, rest); } else { assert [] + rest == rest; }
    }
  }

  lemma PrefixJoin(text: seq<byte>, n: nat, rest: seq<byte>)
    requires n <= |text| && rest <= text[n..]
    ensures text[..n] + rest <= text
  {
    assert text == text[..n] + text[n..];
  }

  lemma ReadOnce(s: State, n: nat)
    requires s.Wf()
    ensures var (data, s') := Read(s, n);
            && (data.Some? ==> n <= s.Room() && data.value == s.Avail()[..n] && s'.Avail() == s.Avail()[n..])
            && (data.None? ==> s'.Avail() <= s.Avail())
  {
    hide Read;
    ReadAvail(s, n);
    if n <= s.Room() { s.AdvanceAvail(n); }
  }

  /** Reads through a bound see a prefix of the buffer's own text and never exceed the budget. */
  lemma BoundedReads(s: State, sizes: seq<nat>)
    requires s.Wf() && s.bounds != []
    ensures var got := Flatten(ReadRun(s, sizes).0);
            got <= s.Inner().Avail() && |got| <= s.bounds[0].max - s.bounds[0].pos
  {
    ReadRunIsPrefix(s, sizes);
    assert s.Avail() <= s.Inner().Avail();
  }

  function Sum(ns: seq<nat>): nat {
    if ns == [] then 0 else ns[0] + Sum(ns[1..])
  }

  /** Reading depends on the total only, not on how it is cut into chunks. */
  lemma {:induction false} ReadRunChunks(s: State, sizes: seq<nat>)
    requires s.Wf() && s.readable && Sum(sizes) <= s.Room()
    ensures |ReadRun(s, sizes).0| == |sizes|
    ensures Flatten(ReadRun(s, sizes).0) == s.Avail()[..Sum(sizes)]
    ensures ReadRun(s, sizes).1 == s.Advance(Sum(sizes))
    decreases sizes
  {
    hide Read, State.Advance, State.Avail, Least;
    if sizes == [] {
      s.AdvanceNone();
    } else {
      var n, m := sizes[0], Sum(sizes[1..]);
      GrantedRead(s, n);
      s.AdvanceTwice(n, m);
      var s', a := s.Advance(n), s.Avail()[..n];
      ReadRunChunks(s', sizes[1..]);
      var rest := ReadRun(s', sizes[1..]);
      assert ReadRun(s, sizes) == ([a] + rest.0, rest.1);
      FlattenCons(a, rest.0);
      s.AdvanceAvail(n);
      TakeSum(s.Avail(), n, m);
    }
  }

  // ------------------------------------------------------------------ writing

  /** Writes performed one after another, stopping at the first that fails. */
  function WriteAll(s: State, chunks: seq<seq<byte>>): (r: (bool, State))
    requires s.Wf()
    ensures r.1.Wf()
    decreases chunks
  {
    if chunks == [] then (true, s)
    else
      var (ok, s') := Write(s, chunks[0]);
      if ok then WriteAll(s', chunks[1..]) else (false, s')
  }

  lemma {:induction false} WriteAllAppend(s: State, a: seq<seq<byte>>, b: seq<seq<byte>>)
    requires s.Wf()
    ensures WriteAll(s, a + b) == if WriteAll(s, a).0 then WriteAll(WriteAll(s, a).1, b) else WriteAll(s, a)
    decreases a
  {
    if a == [] {
      assert a + b == b;
    } else {
      assert (a + b)[1..] == a[1..] + b;
      WriteAllAppend(Write(s, a[0]).1, a[1..], b);
    }
  }

  /** The buffer with data copied over the bytes from its position on. */
  function Stamp(s: State, data: seq<byte>): (s': State)
    requires s.Wf() && |data| <= |s.mem| - s.pos
    ensures s'.Wf() && |s'.mem| == |s.mem|
  {
    s.(mem := s.mem[..s.pos] + data + s.mem[s.pos + |data|..], pos := s.pos + |data|)
  }

  /** Chunks that fit land next to each other at the write position, and nothing outside
      that window changes. */
  lemma {:induction false} WriteAllWindow(s: State, chunks: seq<seq<byte>>)
    requires s.Wf() && s.bounds == [] && s.writable && |Flatten(chunks)| <= |s.mem| - s.pos
    ensures WriteAll(s, chunks) == (true, Stamp(s, Flatten(chunks)))
    decreases chunks
  {
    if chunks == [] {
      assert s.mem[..s.pos] + [] + s.mem[s.pos..] == s.mem;
    } else {
      var c, rest := chunks[0], Flatten(chunks[1..]);
      assert Write(s, c) == (true, Stamp(s, c));
      WriteAllWindow(Stamp(s, c), chunks[1..]);
      StampTwice(s, c, rest);
    }
  }

  lemma StampTwice(s: State, a: seq<byte>, b: seq<byte>)
    requires s.Wf() && |a| + |b| <= |s.mem| - s.pos
    ensures Stamp(Stamp(s, a), b) == Stamp(s, a + b)
  {
    var s' := Stamp(s, a);
    assert s'.mem[..s'.pos] == s.mem[..s.pos] + a;
    assert s'.mem[s'.pos + |b|..] == s.mem[s.pos + |a| + |b|..];
    assert s.mem[..s.pos] + a + b == s.mem[..s.pos] + (a + b);
  }

  /** Back at the start of what was written, it is what can be read first. */
  lemma StampBack(s: State, data: seq<byte>)
    requires s.Wf() && s.bounds == [] && s.readable && s.pos < INT32_MAX && |data| <= |s.mem| - s.pos
    ensures var (sought, s') := SeekSet(Stamp(s, data), s.pos);
            && sought && s'.Avail() == data + s.mem[s.pos + |data|..]
            && |data| <= s'.Room() && s'.Advance(|data|) == Stamp(s, data)
  {
    var s' := SeekSet(Stamp(s, data), s.pos).1;
    assert s'.mem[s.pos..] == data + s.mem[s.pos + |data|..];
    assert Shift(s'.bounds, |data|) == [];
  }

  /** What was written in any chunks is read back in any chunks. */
  lemma WriteThenRead(s: State, chunks: seq<seq<byte>>, sizes: seq<nat>)
    requires s.Wf() && s.bounds == [] && s.writable && s.readable && s.pos < INT32_MAX
    requires |Flatten(chunks)| <= |s.mem| - s.pos && Sum(sizes) == |Flatten(chunks)|
    ensures var (wrote, s1) := WriteAll(s, chunks);
            var (sought, s2) := SeekSet(s1, s.pos);
            && wrote && sought
            && Flatten(ReadRun(s2, sizes).0) == Flatten(chunks)
            && ReadRun(s2, sizes).1 == s1
  {
    hide WriteAll, ReadRun, State.Avail, State.Advance;
    var data := Flatten(chunks);
    WriteAllWindow(s, chunks);
    StampBack(s, data);
    var s2 := SeekSet(Stamp(s, data), s.pos).1;
    ReadRunChunks(s2, sizes);
  }

  // ------------------------------------------------------------------ whole runs

  datatype Op =
    | OpRead(n: nat)
    | OpWrite(data: seq<byte>)
    | OpSeekSet(offset: nat)
    | OpSeekCur(delta: int)
    | OpSetMax(limit: uint32)

  function Apply(s: State, op: Op): (s': State)
    requires s.Wf()
    ensures s'.Wf()
  {
    match op
    case OpRead(n) => Read(s, n).1
    case OpWrite(data) => Write(s, data).1
    case OpSeekSet(offset) => SeekSet(s, offset).1
    case OpSeekCur(delta) => SeekCur(s, delta).1
    case OpSetMax(limit) => SetMax(s, limit).1
  }

  function Run(s: State, ops: seq<Op>): (s': State)
    requires s.Wf()
    ensures s'.Wf()
    decreases ops
  {
    if ops == [] then s else Run(Apply(s, ops[0]), ops[1..])
  }

  /** Index i of the buffer is inside the window of some successful write of the run. */
  ghost predicate Touched(s: State, ops: seq<Op>, i: nat)
    requires s.Wf()
    decreases ops
  {
    ops != [] && (
      || (ops[0].OpWrite? && Write(s, ops[0].data).0 && s.pos <= i < s.pos + |ops[0].data|)
      || Touched(Apply(s, ops[0]), ops[1..], i))
  }

  lemma {:induction false} ReadKeeps(s: State, n: nat)
    requires s.Wf()
    ensures var s' := Read(s, n).1; s'.mem == s.mem && s'.writable == s.writable
    decreases |s.bounds|
  {
    if s.bounds != [] { ReadKeeps(s.Inner(), n); }
  }

  lemma {:induction false} WriteKeeps(s: State, data: seq<byte>)
    requires s.Wf()
    ensures var (ok, s') := Write(s, data);
            && |s'.mem| == |s.mem| && s'.writable == s.writable && (!s.writable ==> s'.mem == s.mem)
            && forall i :: 0 <= i < |s.mem| && !(ok && s.pos <= i < s.pos + |data|) ==> s'.mem[i] == s.mem[i]
    decreases |s.bounds|
  {
    if s.bounds != [] { WriteKeeps(s.Inner(), data); }
  }

  /** One operation changes only what it writes. */
  lemma ApplyKeeps(s: State, op: Op)
    requires s.Wf()
    ensures var s' := Apply(s, op);
            && |s'.mem| == |s.mem| && s'.writable == s.writable && (!s.writable ==> s'.mem == s.mem)
            && forall i :: 0 <= i < |s.mem| ==>
                 (op.OpWrite? && Write(s, op.data).0 && s.pos <= i < s.pos + |op.data|)
                 || s'.mem[i] == s.mem[i]
  {
    hide Read, Write;
    match op
    case OpRead(n) => ReadKeeps(s, n);
    case OpWrite(data) => WriteKeeps(s, data);
    case _ =>
  }

  /** Over any run of operations, on a buffer or through a bound, the position stays inside
      the buffer, the buffer keeps its size, and a byte keeps its value unless the window of
      a successful write covered it. */
  lemma {:induction false} RunFrame(s: State, ops: seq<Op>)
    requires s.Wf()
    ensures var s' := Run(s, ops);
            && s'.pos <= |s'.mem| == |s.mem|
            && (forall i :: 0 <= i < |s.mem| && !Touched(s, ops, i) ==> s'.mem[i] == s.mem[i])
            && (!s.writable ==> s'.mem == s.mem)
    decreases ops
  {
    hide Apply, Write;
    if ops != [] {
      var s1 := Apply(s, ops[0]);
      ApplyKeeps(s, ops[0]);
      RunFrame(s1, ops[1..]);
      var s' := Run(s, ops);
      forall i | 0 <= i < |s.mem| && !Touched(s, ops, i)
        ensures s'.mem[i] == s.mem[i]
      {
        assert !Touched(s1, ops[1..], i);
        assert s1.mem[i] == s.mem[i];
      }
    }
  }

  /** A failed operation may have moved positions forward and set end-of-file marks, but it
      has not touched memory, limits or shape. */
  ghost predicate Progress(s: State, s': State) {
    && s'.mem == s.mem && s'.readable == s.readable && s'.writable == s.writable
    && s.pos <= s'.pos <= |s.mem|
    && |s'.bounds| == |s.bounds|
    && forall i :: 0 <= i < |s.bounds| ==>
         s'.bounds[i].max == s.bounds[i].max && s.bounds[i].pos <= s'.bounds[i].pos <= s.bounds[i].max
  }
}
