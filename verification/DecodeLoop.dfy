/** The loop of BLINK_Object_decodeCompact over fields and sequence elements, with its two
    counters, src/blink_object.c:272-460, 697-742. Frames above the first are never entered,
    so the stack is its bottom frame. */
module DecodeLoop {
  import opened Base
  import opened Objects
  import opened ObjectDecode
  import opened ObjectDecoder
  import opened StreamObjects
  import Compact
  import S = Streams
  import Vlc

  /** A field as BLINK_Object_newGroup leaves it. */
  function Blanked(def: FieldDef): Field {
    Field(def, false, if def.isSequence then Sequence(0, []) else Single(Blank))
  }

  function BlankedAll(defs: seq<FieldDef>): (fields: seq<Field>)
    ensures |fields| == |defs| && forall k :: 0 <= k < |defs| ==> fields[k] == Blanked(defs[k])
  {
    seq(|defs|, k requires 0 <= k < |defs| => Blanked(defs[k]))
  }

  // ------------------------------------------------------ what is left of a decode

  type Decoded = Option<(seq<Field>, nat)>

  /** Where the loop is in a field: in front of it, or of one more header of a sequence with
      this size and list; or within a sequence, `todo` elements before the counter runs out. */
  datatype Pending = Next(count: uint32, elems: seq<Value>) | Within(count: uint32, todo: nat, elems: seq<Value>)

  /** A result seen from before some fields and some bytes. */
  function After(prefix: seq<Field>, used: nat, r: Decoded): Decoded {
    if r.None? then None else Some((prefix + r.value.0, used + r.value.1))
  }

  lemma AfterAfter(a: seq<Field>, m: nat, b: seq<Field>, n: nat, r: Decoded)
    ensures After(a, m, After(b, n, r)) == After(a + b, m + n, r)
  {
    if r.Some? { assert a + (b + r.value.0) == (a + b) + r.value.0; }
  }

  /** The decode of one field, taken up in the middle. */
  ghost function FieldRest(def: FieldDef, reg: Registry, p: Pending, bs: seq<byte>,
                           budget: nat): (r: Option<(Field, nat)>)
    requires |bs| <= budget
    ensures r.Some? ==> r.value.1 <= |bs|
  {
    match p
    case Next(count, elems) =>
      if def.isSequence then DecodeSequence(def, reg, bs, budget, count, elems) else DecodeField(def, reg, bs, budget)
    case Within(count, todo, elems) => DecodeContent(def, reg, bs, budget, count, todo, elems)
  }

  /** The decode of ObjectDecode, taken up in the middle of field i. */
  ghost function Resume(defs: seq<FieldDef>, reg: Registry, i: nat, p: Pending, bs: seq<byte>, budget: nat): Decoded
    requires i <= |defs| && |bs| <= budget
  {
    if i == |defs| then Some(([], 0))
    else match FieldRest(defs[i], reg, p, bs, budget)
      case None => None
      case Some((f, n)) => After([f], n, DecodeFields(defs[i + 1..], reg, bs[n..], budget - n))
  }

  const START: Pending := Next(0, [])

  lemma ResumeFields(defs: seq<FieldDef>, reg: Registry, i: nat, bs: seq<byte>, budget: nat)
    requires i <= |defs| && |bs| <= budget
    ensures Resume(defs, reg, i, START, bs, budget) == DecodeFields(defs[i..], reg, bs, budget)
  {
    hide DecodeSequence, DecodeValue;
    if i < |defs| { assert defs[i..][0] == defs[i] && defs[i..][1..] == defs[i + 1..]; }
  }

  lemma ResumeStart(defs: seq<FieldDef>, reg: Registry, bs: seq<byte>, budget: nat)
    requires |bs| <= budget
    ensures DecodeFields(defs, reg, bs, budget) == After([], 0, Resume(defs, reg, 0, START, bs[0..], budget - 0))
  {
    hide DecodeFields, Resume;
    assert defs[0..] == defs && bs[0..] == bs;
    ResumeFields(defs, reg, 0, bs, budget);
    var r := DecodeFields(defs, reg, bs, budget);
    if r.Some? { assert [] + r.value.0 == r.value.0; }
  }

  /** A step inside a field that uses n bytes. */
  lemma ResumeFurther(defs: seq<FieldDef>, reg: Registry, i: nat, p: Pending, q: Pending, n: nat, bs: seq<byte>,
                      budget: nat)
    requires i < |defs| && n <= |bs| <= budget
    requires FieldRest(defs[i], reg, p, bs, budget) == Further(n, FieldRest(defs[i], reg, q, bs[n..], budget - n))
    ensures Resume(defs, reg, i, p, bs, budget) == After([], n, Resume(defs, reg, i, q, bs[n..], budget - n))
  {
    hide FieldRest, DecodeFields;
    var r := FieldRest(defs[i], reg, q, bs[n..], budget - n);
    if r.Some? {
      var (f, k) := r.value;
      assert bs[n..][k..] == bs[n + k..];
      AfterAfter([], n, [f], k, DecodeFields(defs[i + 1..], reg, bs[n + k..], budget - n - k));
      assert [] + [f] == [f];
    }
  }

  /** A step that ends a field. */
  lemma ResumeNext(defs: seq<FieldDef>, reg: Registry, i: nat, p: Pending, f: Field, n: nat, bs: seq<byte>, budget: nat)
    requires i < |defs| && n <= |bs| <= budget
    requires FieldRest(defs[i], reg, p, bs, budget) == Some((f, n))
    ensures Resume(defs, reg, i, p, bs, budget) == After([f], n, Resume(defs, reg, i + 1, START, bs[n..], budget - n))
  {
    hide FieldRest, DecodeFields;
    ResumeFields(defs, reg, i + 1, bs[n..], budget - n);
  }

  lemma ResumeSingle(defs: seq<FieldDef>, reg: Registry, i: nat, bs: seq<byte>, budget: nat)
    requires i < |defs| && |bs| <= budget && !defs[i].isSequence
    ensures Resume(defs, reg, i, START, bs, budget) ==
              match DecodeValue(defs[i], reg, bs, budget)
              case None => None
              case Some(got) =>
                After([Field(defs[i], got.marks, Single(got.v))], got.used,
                      Resume(defs, reg, i + 1, START, bs[got.used..], budget - got.used))
  {
    hide DecodeValue, DecodeFields, DecodeSequence;
    var d := DecodeValue(defs[i], reg, bs, budget);
    assert DecodeField(defs[i], reg, bs, budget).Some? <==> d.Some?;
    if d.Some? {
      ResumeNext(defs, reg, i, START, Field(defs[i], d.value.marks, Single(d.value.v)), d.value.used, bs, budget);
    }
  }

  lemma ResumeHead(defs: seq<FieldDef>, reg: Registry, i: nat, count: uint32, elems: seq<Value>, bs: seq<byte>,
                   budget: nat)
    requires i < |defs| && |bs| <= budget && defs[i].isSequence
    ensures var r := Vlc.ReadUnsigned(bs, UINT32_MAX);
            && (r.Some? ==> 1 <= r.value.1 <= |bs| && (r.value.0.Word? ==> r.value.0.u <= UINT32_MAX))
            && Resume(defs, reg, i, Next(count, elems), bs, budget) ==
                 match r
                 case None => None
                 case Some((Null, n)) =>
                   if !defs[i].isOptional then None
                   else
                     After([Field(defs[i], false, Sequence(count, elems))], n,
                           Resume(defs, reg, i + 1, START, bs[n..], budget - n))
                 case Some((Word(size), n)) =>
                   After([], n, Resume(defs, reg, i, Within(size, size, elems), bs[n..], budget - n))
  {
    hide Vlc.Decode, DecodeContent, DecodeFields;
    var r := Vlc.ReadUnsigned(bs, UINT32_MAX);
    if r.Some? {
      var n := r.value.1;
      if r.value.0.Word? {
        ResumeFurther(defs, reg, i, Next(count, elems), Within(r.value.0.u, r.value.0.u, elems), n, bs, budget);
      } else if defs[i].isOptional {
        ResumeNext(defs, reg, i, Next(count, elems), Field(defs[i], false, Sequence(count, elems)), n, bs, budget);
      }
    }
  }

  lemma ContentElem(def: FieldDef, reg: Registry, count: uint32, todo: nat, elems: seq<Value>, bs: seq<byte>,
                    budget: nat)
    requires |bs| <= budget && todo > 0
    ensures DecodeContent(def, reg, bs, budget, count, todo, elems) ==
              match DecodeValue(def, reg, bs, budget)
              case None => None
              case Some(got) =>
                Further(got.used,
                        DecodeContent(def, reg, bs[got.used..], budget - got.used, count, todo - 1, elems + [got.v]))
  {
    hide DecodeValue, DecodeSequence;
    var d := DecodeValue(def, reg, bs, budget);
    if d.Some? {
      var n := d.value.used;
      var e := DecodeElems(def, reg, bs[n..], budget - n, todo - 1);
      if e.Some? {
        assert bs[n..][e.value.1..] == bs[n + e.value.1..];
        assert elems + ([d.value.v] + e.value.0) == (elems + [d.value.v]) + e.value.0;
      }
    }
  }

  lemma ResumeElem(defs: seq<FieldDef>, reg: Registry, i: nat, count: uint32, todo: nat, elems: seq<Value>,
                   bs: seq<byte>, budget: nat)
    requires i < |defs| && |bs| <= budget && todo > 0
    ensures Resume(defs, reg, i, Within(count, todo, elems), bs, budget) ==
              match DecodeValue(defs[i], reg, bs, budget)
              case None => None
              case Some(got) =>
                After([], got.used,
                      Resume(defs, reg, i, Within(count, todo - 1, elems + [got.v]), bs[got.used..], budget - got.used))
  {
    hide DecodeValue, DecodeFields, DecodeContent;
    ContentElem(defs[i], reg, count, todo, elems, bs, budget);
    var d := DecodeValue(defs[i], reg, bs, budget);
    if d.Some? {
      ResumeFurther(defs, reg, i, Within(count, todo, elems), Within(count, todo - 1, elems + [d.value.v]),
                    d.value.used, bs, budget);
    }
  }

  /** The counter has run out: the field is finished, or the counter is back at zero. */
  lemma ResumeFull(defs: seq<FieldDef>, reg: Registry, i: nat, count: uint32, elems: seq<Value>, bs: seq<byte>,
                   budget: nat)
    requires i < |defs| && |bs| <= budget && defs[i].isSequence
    ensures Resume(defs, reg, i, Within(count, 0, elems), bs, budget) ==
              if count == UINT32_MAX then Resume(defs, reg, i, Next(count, elems), bs, budget)
              else After([Field(defs[i], false, Sequence(count, elems))], 0,
                         Resume(defs, reg, i + 1, START, bs, budget))
  {
    hide DecodeFields, DecodeSequence;
    assert elems + [] == elems && bs[0..] == bs;
    if count < UINT32_MAX {
      ResumeNext(defs, reg, i, Within(count, 0, elems), Field(defs[i], false, Sequence(count, elems)), 0, bs, budget);
    }
  }

  // ------------------------------------------------------------------ as it runs

  /** j++ on an uint32_t. */
  function Bump(j: uint32): uint32 {
    if j == UINT32_MAX then 0 else j + 1
  }

  /** A reader of the bounded stream has moved on. */
  lemma Onwards(start: S.State, was: nat, before: S.State, n: nat, after: S.State, ok: bool)
    requires start.Wf() && was <= start.Room() && before == start.Advance(was) && Moved(before, after, ok, n)
    ensures S.Progress(start, after)
    ensures ok ==> was + n <= start.Room() && after == start.Advance(was + n)
    ensures ok ==> start.Avail()[was..][n..] == start.Avail()[was + n..]
  {
    if ok { DropDrop(start.Avail(), was, n); }
  }

  lemma DropDrop(bs: seq<byte>, m: nat, n: nat)
    requires m + n <= |bs|
    ensures bs[m..][n..] == bs[m + n..]
  {
  }

  /** struct decode_state: the bounded stream, the new group object's fields, and the counters
      of the bottom frame. */
  class DecodeState {
    const reg: Registry
    const defs: seq<FieldDef>
    const bounded: Stream
    var fields: seq<Field>
    var i: nat
    var j: uint32
    ghost const start: S.State
    ghost var used: nat

    /** What has to come out in the end. */
    ghost function Total(): Decoded
      requires start.Wf() && start.bounds != []
    {
      DecodeFields(defs, reg, start.Avail(), Budget(start))
    }

    ghost predicate Valid()
      reads this, bounded, bounded.Repr
    {
      && this !in bounded.Repr && bounded.Valid() && bounded.bounded
      && start.Wf() && start.bounds != [] && start.readable
      && S.Progress(start, bounded.Value())
    }

    ghost function Place(): Pending
      requires i < |fields|
      reads this
    {
      match fields[i].data
      case Single(_) => START
      case Sequence(count, elems) => if j == 0 then Next(count, elems) else Within(count, Steps(), elems)
    }

    /** How many turns of the counter are left to the sequence that is being read. */
    ghost function Steps(): nat
      reads this
    {
      if i < |fields| && 0 < j <= Size() then Size() + 1 - j else 0
    }

    /** The declared size of the field at i, as far as it is known. */
    ghost function Size(): uint32
      reads this
    {
      if i < |fields| && fields[i].data.Sequence? then fields[i].data.count else 0
    }

    /** The fields before i are finished, those after it untouched; at i, a counter j above zero
        says that j - 1 elements have been read since the last header. */
    ghost predicate Laid()
      reads this
    {
      && |fields| == |defs| && i <= |fields|
      && (forall k :: i < k < |fields| ==> fields[k] == Blanked(defs[k]))
      && (i == |fields| ==> j == 0)
      && (i < |fields| && defs[i].isSequence ==>
            fields[i].data.Sequence? && fields[i] == Field(defs[i], false, fields[i].data) && j <= Size() + 1)
      && (i < |fields| && !defs[i].isSequence ==> j == 0 && fields[i] == Blanked(defs[i]))
    }

    ghost function Rest(): Decoded
      requires start.Wf() && start.bounds != [] && used <= start.Room() && Laid()
      reads this
    {
      Resume(defs, reg, i, if i < |fields| then Place() else START, start.Avail()[used..], Budget(start) - used)
    }

    ghost predicate OnTrack()
      reads this, bounded, bounded.Repr
    {
      && Valid() && Laid() && used <= start.Room() && bounded.Value() == start.Advance(used)
      && Total() == After(fields[..i], used, Rest())
    }

    constructor (reg: Registry, defs: seq<FieldDef>, bounded: Stream)
      requires bounded.Valid() && bounded.bounded && bounded.Value().readable
      ensures OnTrack() && this.reg == reg && this.defs == defs && this.bounded == bounded && start == bounded.Value()
      ensures i == j == used == 0
    {
      hide DecodeFields, Resume, Stream.Valid, Stream.Value, S.State.Avail, S.State.Advance;
      this.reg, this.defs, this.bounded := reg, defs, bounded;
      fields, i, j := BlankedAll(defs), 0, 0;
      start, used := bounded.Value(), 0;
      new;
      start.AdvanceNone();
      ResumeStart(defs, reg, start.Avail(), Budget(start));
      assert fields[..i] == [];
    }

    lemma StreamAt()
      requires OnTrack()
      ensures bounded.Value().Avail() == start.Avail()[used..] && Budget(bounded.Value()) == Budget(start) - used
    {
      hide Total, Rest, DecodeFields;
      start.AdvanceAvail(used);
    }

    lemma InSequence()
      requires OnTrack() && i < |fields| && defs[i].isSequence
      ensures fields[i].data.Sequence?
      ensures var (count, elems) := (fields[i].data.count, fields[i].data.elems);
              var p := if j == 0 then Next(count, elems) else Within(count, Steps(), elems);
              Total() == After(fields[..i], used, Resume(defs, reg, i, p, start.Avail()[used..], Budget(start) - used))
    {
      hide DecodeFields, Resume, Total, After, S.State.Avail, S.State.Advance, Stream.Valid, Stream.Value, S.Progress;
    }

    lemma PlaceBlanked()
      requires Laid()
      ensures i < |fields| && j == 0 && fields[i] == Blanked(defs[i]) ==> Place() == START
    {
    }

    /** A field that is not a sequence, src/blink_object.c:387-395. */
    method TurnSingle() returns (ok: bool)
      requires OnTrack() && i < |fields| && !defs[i].isSequence
      modifies this, bounded.Repr
      ensures Valid() && (if ok then OnTrack() && i == old(i) + 1 else Total() == None)
    {
      hide DecodeFields, DecodeValue, Moved, S.Progress, Resume, Total, Stream.Valid, Stream.Value, S.State.Avail,
           S.State.Advance;
      StreamAt();
      ResumeSingle(defs, reg, i, start.Avail()[used..], Budget(start) - used);
      ghost var before, was := bounded.Value(), used;
      var v, marks;
      ghost var n;
      ok, v, marks, n := Handle(defs[i], reg, bounded);
      Onwards(start, was, before, n, bounded.Value(), ok);
      if ok {
        Finish(Field(defs[i], marks, Single(v)), n);
      }
    }

    /** Field i is finished as f, by n bytes that the stream has already moved past. */
    method Finish(f: Field, ghost n: nat)
      requires Valid() && Laid() && i < |fields|
      requires used + n <= start.Room() && bounded.Value() == start.Advance(used + n)
      requires Total() == After(fields[..i], used,
                                After([f], n, Resume(defs, reg, i + 1, START, start.Avail()[used + n..],
                                                     Budget(start) - used - n)))
      modifies this
      ensures OnTrack() && i == old(i) + 1 && used == old(used) + n
    {
      hide DecodeFields, S.Progress, Resume, Total, After, Place, Stream.Valid, Stream.Value, S.State.Avail,
           S.State.Advance;
      ghost var done := fields[..i];
      AfterAfter(done, used, [f], n,
                 Resume(defs, reg, i + 1, START, start.Avail()[used + n..], Budget(start) - used - n));
      fields := fields[i := f];
      i := i + 1;
      j := 0;
      used := used + n;
      PlaceBlanked();
      assert fields[..i] == done + [f];
    }

    /** Field i is now f, with counter c, by n bytes that the stream has already moved past. */
    method Stay(f: Field, c: uint32, ghost n: nat, ghost p: Pending)
      requires Valid() && Laid() && i < |fields| && defs[i].isSequence
      requires f.data.Sequence? && f == Field(defs[i], false, f.data) && c <= f.data.count + 1
      requires p ==
                    if c == 0 then Next(f.data.count, f.data.elems)
                    else Within(f.data.count, f.data.count + 1 - c, f.data.elems)
      requires used + n <= start.Room() && bounded.Value() == start.Advance(used + n)
      requires Total() == After(fields[..i], used,
                                After([], n,
                                      Resume(defs, reg, i, p, start.Avail()[used + n..], Budget(start) - used - n)))
      modifies this
      ensures OnTrack() && i == old(i) && j == c && fields[i] == f && used == old(used) + n
    {
      hide DecodeFields, S.Progress, Resume, Total, After, Stream.Valid, Stream.Value, S.State.Avail, S.State.Advance;
      ghost var done := fields[..i];
      AfterAfter(done, used, [], n, Resume(defs, reg, i, p, start.Avail()[used + n..], Budget(start) - used - n));
      fields := fields[i := f];
      j := c;
      used := used + n;
      assert fields[..i] == done && done + [] == done;
    }

    /** The header of a sequence, src/blink_object.c:321-347. */
    method TurnHead() returns (ok: bool)
      requires OnTrack() && i < |fields| && defs[i].isSequence && j == 0
      modifies this, bounded.Repr
      ensures Valid()
      ensures (if ok then OnTrack() && used > old(used) && (i == old(i) + 1 || i == old(i)) else Total() == None)
    {
      hide DecodeFields, DecodeElems, Moved, S.Progress, Resume, Vlc.ReadUnsigned, Total, Stream.Valid, Stream.Value,
           S.State.Avail, S.State.Advance;
      StreamAt();
      var count, elems := fields[i].data.count, fields[i].data.elems;
      ResumeHead(defs, reg, i, count, elems, start.Avail()[used..], Budget(start) - used);
      ghost var before := bounded.Value();
      ghost var found := Vlc.ReadUnsigned(before.Avail(), UINT32_MAX);
      var size;
      ok, size := ReadUnsigned(bounded, UINT32_MAX);
      ghost var n := if ok then found.value.1 else 0;
      LandedMoved(before, bounded.Value(), ok, found, size);
      Onwards(start, used, before, n, bounded.Value(), ok);
      if ok {
        if size.Word? {
          Stay(Field(defs[i], false, Sequence(size.u, elems)), 1, n, Within(size.u, size.u, elems));
        } else if defs[i].isOptional {
          Finish(fields[i], n);
        } else {
          ok := false;
        }
      }
    }

    /** An element of a sequence, src/blink_object.c:348-378. The counter has 32 bits. */
    method TurnElem() returns (ok: bool)
      requires OnTrack() && i < |fields| && defs[i].isSequence && 0 < j <= Size()
      modifies this, bounded.Repr
      ensures Valid()
      ensures if ok then OnTrack() && i == old(i) && used >= old(used) && j == Bump(old(j)) && Size() == old(Size())
              else Total() == None
    {
      hide DecodeFields, DecodeValue, Moved, S.Progress, Resume, Total, Rest, Place, Blanked, Stream.Valid,
           Stream.Value, S.State.Avail, S.State.Advance;
      StreamAt();
      InSequence();
      var count, elems := fields[i].data.count, fields[i].data.elems;
      ghost var todo := Steps();
      ResumeElem(defs, reg, i, count, todo, elems, start.Avail()[used..], Budget(start) - used);
      ghost var before, was := bounded.Value(), used;
      var v, marks;
      ghost var n;
      ok, v, marks, n := Handle(defs[i], reg, bounded);
      Onwards(start, was, before, n, bounded.Value(), ok);
      if ok {
        ResumeFull(defs, reg, i, count, elems + [v], start.Avail()[was + n..], Budget(start) - was - n);
        ghost var p := if j == UINT32_MAX then Next(count, elems + [v]) else Within(count, todo - 1, elems + [v]);
        Stay(Field(defs[i], false, Sequence(count, elems + [v])), Bump(j), n, p);
      }
    }

    /** The end of a sequence, src/blink_object.c:380-385. */
    method TurnEnd()
      requires OnTrack() && i < |fields| && defs[i].isSequence && j > Size()
      modifies this
      ensures OnTrack() && i == old(i) + 1 && used == old(used)
    {
      hide DecodeFields, DecodeElems, S.Progress, Resume, Stream.Valid, Stream.Value, After, S.State.Avail,
           S.State.Advance;
      ghost var bs := start.Avail()[used..];
      ResumeFull(defs, reg, i, fields[i].data.count, fields[i].data.elems, bs, Budget(start) - used);
      Finish(fields[i], 0);
    }

    /** One turn of the loop. A turn that stays in its field reads a byte or advances the
        counter. */
    method Turn() returns (ok: bool)
      requires OnTrack() && i < |fields|
      modifies this, bounded.Repr
      ensures Valid() && (if ok then OnTrack() else Total() == None)
      ensures ok ==> i > old(i) || (i == old(i) && (used > old(used) || (used == old(used) && Steps() < old(Steps()))))
    {
      hide DecodeFields, S.Progress, Resume, Total, Stream.Valid, Stream.Value, After, S.State.Avail, S.State.Advance;
      ok := true;
      if !defs[i].isSequence {
        ok := TurnSingle();
      } else if j == 0 {
        ok := TurnHead();
      } else if j <= fields[i].data.count {
        ok := TurnElem();
      } else {
        TurnEnd();
      }
    }

    lemma TotalIs()
      requires start.Wf() && start.bounds != []
      ensures Total() == DecodeFields(defs, reg, start.Avail(), Budget(start))
    {
      hide DecodeFields;
    }

    /** With no field left, what has been read is the result. */
    lemma Finished()
      requires OnTrack() && i == |fields|
      ensures Total() == Some((fields, used)) && bounded.max - bounded.pos == Budget(start) - used
    {
      bounded.Beneath();
      assert defs[i..] == [] && fields[..i] == fields;
      assert fields + [] == fields;
    }

    /** The loop: a field, a header, an element or the end of a sequence a turn. It ends with all
        fields decoded and the bound used up, or there is nothing to decode. */
    method Loop() returns (ok: bool)
      requires OnTrack()
      modifies this, bounded.Repr
      ensures Valid()
      ensures if ok then used == Budget(start) <= start.Room()
                      && bounded.Value() == start.Advance(used)
                      && Total() == Some((fields, used))
              else Total().None? || Total().value.1 != Budget(start)
    {
      hide DecodeFields, Resume, After, Steps, Total, Rest, Laid, Place, S.Progress, Stream.Valid, Stream.Value,
           S.State.Avail, S.State.Advance;
      ok := true;
      while ok
        invariant Valid() && (if ok then OnTrack() else Total() == None)
        decreases ok, |defs| - i, start.Room() - used, Steps()
      {
        AtMost();
        if i < |fields| {
          ok := Turn();
        }
        if ok && i == |fields| {
          Finished();
          ok := bounded.pos >= bounded.max;
          return;
        }
        if ok { AtMost(); }
      }
    }

    lemma AtMost()
      requires OnTrack()
      ensures i <= |fields| == |defs| && used <= start.Room()
    {
    }

    /** The stream underneath, seen from the bounded one. */
    lemma Underneath(inp: Stream)
      requires Valid() && bounded.inner == inp
      ensures inp.Valid() && inp.Value() == bounded.Value().Inner()
    {
      hide Stream.Valid, Stream.Value, S.Progress;
      bounded.Beneath();
    }
  }

  // -------------------------------------------------------------------------- frames

  /** A header has been read: size prefix, bound and ID, with the group found. */
  ghost predicate Opened(reg: Registry, before: S.State, g: GroupDef, start: S.State, k: nat, max: nat, n: nat)
    requires before.Wf() && start.Wf()
  {
    var bs := before.Avail();
    && k <= |bs| && 0 < max <= UINT32_MAX && Vlc.ReadUnsigned(bs, UINT32_MAX) == Some((Vlc.Word(max), k))
    && n <= |Window(bs[k..], max)|
    && (exists id :: Vlc.Decode(Window(bs[k..], max), false) == Some((Vlc.Word(id), n))
                     && GroupById(reg, id) == Some(g))
    && start.bounds != [] && start.readable && start.Avail() == Window(bs[k..], max)[n..] && Budget(start) == max - n
    && k + n <= before.Room() && start.Inner() == before.Advance(k + n)
  }

  lemma OpenedDecode(reg: Registry, before: S.State, g: GroupDef, start: S.State, k: nat, max: nat, n: nat)
    requires before.Wf() && start.Wf() && Opened(reg, before, g, start, k, max, n)
    ensures Decode(reg, before.Avail()) ==
              match DecodeFields(g.fields, reg, start.Avail(), Budget(start))
              case None => None
              case Some((fs, m)) => if m == Budget(start) then Some((Obj(g, fs), k + max)) else None
  {
    hide Vlc.Decode, Vlc.ReadUnsigned, DecodeFields, GroupById;
    var id :| Vlc.Decode(Window(before.Avail()[k..], max), false) == Some((Vlc.Word(id), n))
              && GroupById(reg, id) == Some(g);
    GroupByIdIn(reg, id);
  }

  /** One more bound lets through a window of what there was. */
  lemma BoundAvail(s: S.State, max: nat)
    requires s.Wf() && s.readable && max <= UINT32_MAX
    ensures var b := s.Under(S.Limit(max, 0, false));
            b.Wf() && b.readable && b.Avail() == Window(s.Avail(), max) && Budget(b) == max
  {
    s.AdvanceUnder(S.Limit(max, 0, false), 0);
    SliceSlice(s.mem, s.pos, s.pos + s.Room(), 0, Min(s.Room(), max));
  }

  lemma UnboundAdvance(s: S.State, max: nat, n: nat)
    requires s.Wf() && s.readable && max <= UINT32_MAX
    ensures var b := s.Under(S.Limit(max, 0, false));
            n <= b.Room() ==> n <= s.Room() && b.Advance(n).Inner() == s.Advance(n) && Budget(b.Advance(n)) == max - n
  {
    var b := s.Under(S.Limit(max, 0, false));
    assert b.bounds[1..] == s.bounds;
    b.BehindFirst(n);
    if n <= b.Room() { assert s.Advance(n).Under(S.Limit(max, n, false)).bounds[1..] == s.Advance(n).bounds; }
  }

  lemma HeaderSize(before: S.State)
    requires before.Wf()
    ensures var r := Vlc.ReadUnsigned(before.Avail(), UINT32_MAX);
            r.Some? ==>
              1 <= r.value.1 <= |before.Avail()| && before.readable && (r.value.0.Word? ==> r.value.0.u <= UINT32_MAX)
  {
    hide Vlc.Decode;
  }

  lemma NoFrame(reg: Registry, bs: seq<byte>)
    ensures var r := Vlc.ReadUnsigned(bs, UINT32_MAX);
            (r.None? || r.value.0.Null? || r.value.0.u == 0) ==> Decode(reg, bs) == None
  {
    hide DecodeFrame, Vlc.ReadUnsigned;
  }

  lemma NoGroup(reg: Registry, bs: seq<byte>, max: uint32, k: nat)
    requires Vlc.ReadUnsigned(bs, UINT32_MAX) == Some((Vlc.Word(max), k)) && k <= |bs|
    requires var d := Vlc.Decode(Window(bs[k..], max), false);
             d.None? || d.value.0.Null? || GroupById(reg, d.value.0.u).None?
    ensures Decode(reg, bs) == None
  {
    hide DecodeFields, Vlc.Decode, Vlc.ReadUnsigned;
  }

  /** decodeCompact_groupHeader. */
  method GroupHeader(inp: Stream, reg: Registry)
    returns (r: Option<(GroupDef, DecodeState)>, ghost k: nat, ghost max: nat, ghost n: nat)
    requires inp.Valid()
    modifies inp.Repr
    ensures inp.Valid() && S.Progress(old(inp.Value()), inp.Value())
    ensures r.None? ==> Decode(reg, old(inp.Value()).Avail()) == None
    ensures r.Some? ==>
              && var (g, self) := r.value;
              && fresh(self) && fresh(self.bounded)
              && self.bounded.Repr == {self.bounded} + inp.Repr && self.bounded.inner == inp
              && self.OnTrack() && self.i == self.j == self.used == 0 && self.reg == reg && self.defs == g.fields
              && self.bounded.max == max && self.bounded.pos == n
              && Opened(reg, old(inp.Value()), g, self.start, k, max, n)
  {
    hide Vlc.Decode, Vlc.ReadUnsigned, DecodeFields, GroupById;
    ghost var before := inp.Value();
    r, k, max, n := None, 0, 0, 0;
    HeaderSize(before);
    NoFrame(reg, before.Avail());
    ghost var found := Vlc.ReadUnsigned(before.Avail(), UINT32_MAX);
    var ok, size := ReadUnsigned(inp, UINT32_MAX);
    if ok && size.Word? && size.u != 0 {
      k, max := found.value.1, size.u;
      r, n := OpenFrame(inp, reg, size.u, before, k);
    }
  }

  /** The frame behind a size prefix: the bound is set, the ID read and the group looked up. */
  method OpenFrame(inp: Stream, reg: Registry, size: uint32, ghost before: S.State, ghost k: nat)
    returns (r: Option<(GroupDef, DecodeState)>, ghost n: nat)
    requires inp.Valid() && before.Wf() && before.readable && size > 0
    requires k <= before.Room() && Vlc.ReadUnsigned(before.Avail(), UINT32_MAX) == Some((Vlc.Word(size), k))
    requires inp.Value() == before.Advance(k)
    modifies inp.Repr
    ensures inp.Valid() && S.Progress(before, inp.Value())
    ensures r.None? ==> Decode(reg, before.Avail()) == None
    ensures r.Some? ==>
              && var (g, self) := r.value;
              && fresh(self) && fresh(self.bounded)
              && self.bounded.Repr == {self.bounded} + inp.Repr && self.bounded.inner == inp
              && self.OnTrack() && self.i == self.j == self.used == 0 && self.reg == reg && self.defs == g.fields
              && self.bounded.max == size && self.bounded.pos == n
              && Opened(reg, before, g, self.start, k, size, n)
  {
    hide Vlc.Decode, Vlc.ReadUnsigned, DecodeFields, GroupById, Opened, S.Progress, DecodeState.OnTrack, Decode,
         Stream.Valid, Stream.Value, S.State.Avail, Window;
    r, n := None, 0;
    ghost var here := inp.Value();
    WindowAhead(before, k, here, size);
    var bounded := new Stream.OfStream(inp, size);
    ghost var first := bounded.Value();
    ghost var found := Vlc.Decode(first.Avail(), false);
    var ok, id := Compact.DecodeVlc(bounded, false);
    bounded.Beneath();
    NoGroupYet(reg, before.Avail(), size, k);
    ProgressInner(before, k, first, size, bounded.Value());
    if ok && id.Word? {
      var g := GroupById(reg, id.u);
      if g.Some? {
        n := found.value.1;
        GroupByIdIn(reg, id.u);
        OpenedIntro(reg, before, g.value, id.u, first, bounded.Value(), k, size, n);
        var self := new DecodeState(reg, g.value.fields, bounded);
        r := Some((g.value, self));
      }
    }
  }

  lemma WindowAhead(before: S.State, k: nat, here: S.State, max: uint32)
    requires before.Wf() && before.readable && k <= before.Room() && here == before.Advance(k)
    ensures var b := here.Under(S.Limit(max, 0, false)); b.Wf() && b.Avail() == Window(before.Avail()[k..], max)
  {
    before.AdvanceAvail(k);
    BoundAvail(here, max);
  }

  lemma ProgressInner(before: S.State, k: nat, first: S.State, max: uint32, after: S.State)
    requires before.Wf() && k <= before.Room() && after.bounds != []
    requires first == before.Advance(k).Under(S.Limit(max, 0, false)) && S.Progress(first, after)
    ensures S.Progress(before, after.Inner())
  {
  }

  lemma OpenedIntro(reg: Registry, before: S.State, g: GroupDef, id: uint64, first: S.State, start: S.State, k: nat,
                    max: uint32, n: nat)
    requires before.Wf() && before.readable && k <= before.Room() && max > 0
    requires Vlc.ReadUnsigned(before.Avail(), UINT32_MAX) == Some((Vlc.Word(max), k))
    requires first == before.Advance(k).Under(S.Limit(max, 0, false))
    requires n <= first.Room() && start == first.Advance(n)
    requires Vlc.Decode(first.Avail(), false) == Some((Vlc.Word(id), n)) && GroupById(reg, id) == Some(g)
    ensures Opened(reg, before, g, start, k, max, n) && start.readable
  {
    hide Vlc.Decode, Vlc.ReadUnsigned, GroupById, S.State.Avail, Window;
    WindowAhead(before, k, before.Advance(k), max);
    UnboundAdvance(before.Advance(k), max, n);
    before.AdvanceTwice(k, n);
    first.AdvanceAvail(n);
  }

  lemma NoGroupYet(reg: Registry, bs: seq<byte>, max: uint32, k: nat)
    requires Vlc.ReadUnsigned(bs, UINT32_MAX) == Some((Vlc.Word(max), k)) && k <= |bs|
    ensures var d := Vlc.Decode(Window(bs[k..], max), false);
            d.None? || d.value.0.Null? || GroupById(reg, d.value.0.u).None? ==> Decode(reg, bs) == None
  {
    hide DecodeFields, Vlc.Decode, Vlc.ReadUnsigned, Decode;
    var d := Vlc.Decode(Window(bs[k..], max), false);
    if d.None? || d.value.0.Null? || GroupById(reg, d.value.0.u).None? { NoGroup(reg, bs, max, k); }
  }

  lemma FailedFrame(reg: Registry, before: S.State, g: GroupDef, start: S.State, k: nat, max: nat, n: nat,
                    after: S.State)
    requires before.Wf() && start.Wf() && after.bounds != [] && Opened(reg, before, g, start, k, max, n)
    requires S.Progress(start, after)
    ensures S.Progress(before, after.Inner())
  {
    hide Vlc.Decode, Vlc.ReadUnsigned, GroupById;
  }

  lemma WholeFrame(reg: Registry, before: S.State, g: GroupDef, start: S.State, k: nat, max: nat, n: nat, used: nat)
    requires before.Wf() && start.Wf() && Opened(reg, before, g, start, k, max, n)
    requires used == Budget(start) && used <= start.Room()
    ensures k + max <= before.Room() && start.Advance(used).Inner() == before.Advance(k + max)
  {
    hide Vlc.Decode, Vlc.ReadUnsigned, GroupById, S.State.Avail, S.State.Advance, Window;
    start.BehindFirst(used);
    assert start.Inner() == before.Advance(k + n);
    before.AdvanceTwice(k + n, used);
    InnerOf(start.Inner().Advance(used), start.bounds[0].(pos := start.bounds[0].pos + used));
  }

  lemma InnerOf(s: S.State, b: S.Limit)
    ensures s.Under(b).Inner() == s
  {
    assert s.Under(b).bounds[1..] == s.bounds;
  }

  /** BLINK_Object_decodeCompact, with its flat loop: one turn reads a field, a sequence header
      or an element, or leaves a sequence; the frame must then be used up. It finds exactly
      what Decode finds in the bytes the stream still has, and on success stands behind the
      frame. */
  method DecodeCompact(inp: Stream, reg: Registry) returns (r: Option<Obj>)
    requires inp.Valid()
    modifies inp.Repr
    ensures inp.Valid() && S.Progress(old(inp.Value()), inp.Value())
    ensures var want := Decode(reg, old(inp.Value()).Avail());
            if r.None? then want == None
            else
              && want.Some? && want.value.0 == r.value
              && want.value.1 <= old(inp.Value()).Room() && inp.Value() == old(inp.Value()).Advance(want.value.1)
  {
    hide Decode, DecodeFields, Opened, S.Progress, DecodeState.Total, DecodeState.Rest, DecodeState.Laid, Stream.Valid,
         Stream.Value, S.State.Avail, S.State.Advance;
    ghost var before := inp.Value();
    var h;
    ghost var k, max, n;
    h, k, max, n := GroupHeader(inp, reg);
    if h.None? {
      return None;
    }
    var (g, self) := h.value;
    OpenedDecode(reg, before, g, self.start, k, max, n);
    self.TotalIs();
    var ok := self.Loop();
    self.TotalIs();
    self.Underneath(inp);
    FailedFrame(reg, before, g, self.start, k, max, n, self.bounded.Value());
    r := None;
    if ok {
      WholeFrame(reg, before, g, self.start, k, max, n, self.used);
      r := Some(Obj(g, self.fields));
    }
  }
}
