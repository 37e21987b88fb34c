/** Lists of values and nulls written and read with the calls of src/blink_compact.c, one call
    a value, on a stream. */
module CompactRoundTrip {
  import opened Base
  import opened Vlc
  import opened StreamObjects
  import Compact
  import S = Streams

  /** What each call writes. */
  function Chunks(items: seq<Item>): (chunks: seq<seq<byte>>)
    ensures |chunks| == |items|
  {
    if items == [] then [] else [ItemBytes(items[0])] + Chunks(items[1..])
  }

  lemma {:induction false} ChunksBytes(items: seq<Item>)
    ensures Flatten(Chunks(items)) == ItemsBytes(items)
  {
    hide ItemBytes;
    if items != [] {
      ChunksBytes(items[1..]);
      FlattenCons(ItemBytes(items[0]), Chunks(items[1..]));
    }
  }

  /** BLINK_Compact_encodeNull, _encodeU64 and _encodeI64. */
  method EncodeItem(item: Item, out: Stream) returns (ok: bool)
    requires out.Valid()
    modifies out.Repr
    ensures out.Valid() && (ok, out.Value()) == S.Write(old(out.Value()), ItemBytes(item))
  {
    hide Encode, S.Write, Stream.Valid, Stream.Value;
    match item
    case NullItem => ok := out.Write([NULL_BYTE]);
    case UnsignedItem(u) => ok := Compact.EncodeVlc(u, false, out);
    case SignedItem(i) => ok := Compact.EncodeVlc(AsWord(i), true, out);
  }

  lemma WriteOne(s: S.State, items: seq<Item>)
    requires s.Wf() && items != []
    ensures var (ok, s') := S.Write(s, ItemBytes(items[0]));
            S.WriteAll(s, Chunks(items)) == if ok then S.WriteAll(s', Chunks(items[1..])) else (false, s')
  {
    hide S.Write, ItemBytes;
    assert Chunks(items)[0] == ItemBytes(items[0]) && Chunks(items)[1..] == Chunks(items[1..]);
  }

  /** One call after the other, as long as they succeed. */
  method EncodeItems(items: seq<Item>, out: Stream) returns (ok: bool)
    requires out.Valid()
    modifies out.Repr
    ensures out.Valid() && (ok, out.Value()) == S.WriteAll(old(out.Value()), Chunks(items))
  {
    hide ItemBytes, S.Write, S.WriteAll, Chunks, Stream.Valid, Stream.Value;
    ghost var before := out.Value();
    ok := true;
    var k := 0;
    assert items[0..] == items;
    while k < |items|
      invariant k <= |items| && out.Valid()
      invariant S.WriteAll(before, Chunks(items)) == S.WriteAll(out.Value(), Chunks(items[k..]))
    {
      WriteOne(out.Value(), items[k..]);
      assert items[k..][1..] == items[k + 1..];
      ok := EncodeItem(items[k], out);
      if !ok {
        return;
      }
      k := k + 1;
    }
    WriteNone(out.Value());
  }

  lemma WriteNone(s: S.State)
    requires s.Wf()
    ensures S.WriteAll(s, Chunks([])) == (true, s)
  {
  }

  // ------------------------------------------------------------------------ reading

  type Read = Option<(seq<Item>, seq<byte>)>

  /** A result with some items in front. */
  function Before(got: seq<Item>, r: Read): Read {
    match r
    case None => None
    case Some((items, left)) => Some((got + items, left))
  }

  /** One call, seen from behind `used` bytes and k items. */
  lemma BeforeMore(got: seq<Item>, text: seq<byte>, used: nat, signs: seq<bool>, k: nat)
    requires used <= |text| && k < |signs|
    ensures var d := Decode(text[used..], signs[k]);
            && (d.Some? ==> used + d.value.1 <= |text|)
            && Before(got, DecodeItems(text[used..], signs[k..])) ==
                 if d.None? then None
                 else Before(got + [ToItem(d.value.0, signs[k])], DecodeItems(text[used + d.value.1..], signs[k + 1..]))
  {
    hide Decode;
    var d := Decode(text[used..], signs[k]);
    assert signs[k..][0] == signs[k] && signs[k..][1..] == signs[k + 1..];
    if d.Some? {
      var n, item := d.value.1, ToItem(d.value.0, signs[k]);
      assert text[used..][n..] == text[used + n..];
      var r := DecodeItems(text[used + n..], signs[k + 1..]);
      if r.Some? { assert got + ([item] + r.value.0) == (got + [item]) + r.value.0; }
    }
  }

  /** The stream stands behind all but what is left. */
  ghost predicate Behind(before: S.State, after: S.State, left: seq<byte>)
    requires before.Wf()
  {
    |left| <= before.Room() && after == before.Advance(before.Room() - |left|)
  }

  /** One call after the other, as long as they succeed. */
  method DecodeItemsFrom(inp: Stream, signs: seq<bool>) returns (items: Option<seq<Item>>)
    requires inp.Valid()
    modifies inp.Repr
    ensures inp.Valid()
    ensures var want := DecodeItems(old(inp.Value()).Avail(), signs);
            if items.None? then want.None?
            else want.Some? && items.value == want.value.0 && Behind(old(inp.Value()), inp.Value(), want.value.1)
  {
    hide Decode, DecodeItems, Before, Compact.Landed, S.State.Avail, S.State.Advance, S.Progress, Stream.Valid,
         Stream.Value;
    ghost var before := inp.Value();
    ghost var text := before.Avail();
    ghost var used: nat := 0;
    var got, k := [], 0;
    before.AdvanceNone();
    NoneBefore(text, signs);
    while k < |signs|
      invariant k <= |signs| && inp.Valid() && used <= |text| && inp.Value() == before.Advance(used)
      invariant DecodeItems(text, signs) == Before(got, DecodeItems(text[used..], signs[k..]))
    {
      BeforeMore(got, text, used, signs, k);
      var ok, v;
      ghost var n;
      ok, v, n := DecodeItem(inp, signs[k], before, used);
      if !ok {
        return None;
      }
      used := used + n;
      got := got + [ToItem(v, signs[k])];
      k := k + 1;
    }
    AllRead(got, text[used..], signs[k..]);
    items := Some(got);
  }

  /** One call, on a stream that stands `used` bytes behind where it was before. */
  method DecodeItem(inp: Stream, isSigned: bool, ghost before: S.State, ghost used: nat)
    returns (ok: bool, v: Result, ghost n: nat)
    requires inp.Valid() && before.Wf() && used <= before.Room() && inp.Value() == before.Advance(used)
    modifies inp.Repr
    ensures inp.Valid()
    ensures Decode(before.Avail()[used..], isSigned) == if ok then Some((v, n)) else None
    ensures ok ==> used + n <= before.Room() && inp.Value() == before.Advance(used + n)
  {
    hide Decode, Compact.Landed, S.State.Avail, S.State.Advance, S.Progress, Stream.Valid, Stream.Value;
    before.AdvanceAvail(used);
    ghost var found := Decode(before.Avail()[used..], isSigned);
    ok, v := Compact.DecodeVlc(inp, isSigned);
    Found(before.Advance(used), inp.Value(), ok, found, v);
    n := 0;
    if ok {
      n := found.value.1;
      LandedFurther(before, used, inp.Value(), found, v);
    }
  }

  lemma Found(s: S.State, after: S.State, ok: bool, found: Option<(Result, nat)>, v: Result)
    requires s.Wf() && Compact.Landed(s, after, ok, found, v)
    ensures ok == found.Some?
  {
  }

  lemma LandedFurther(s: S.State, used: nat, after: S.State, found: Option<(Result, nat)>, v: Result)
    requires s.Wf() && used <= s.Room() && Compact.Landed(s.Advance(used), after, true, found, v)
    ensures used + found.value.1 <= s.Room() && after == s.Advance(used + found.value.1) && v == found.value.0
  {
    hide S.State.Avail, S.State.Advance;
    s.AdvanceTwice(used, found.value.1);
  }

  lemma NoneBefore(bs: seq<byte>, signs: seq<bool>)
    ensures DecodeItems(bs, signs) == Before([], DecodeItems(bs[0..], signs[0..]))
  {
    assert bs[0..] == bs && signs[0..] == signs;
    var r := DecodeItems(bs, signs);
    if r.Some? { assert [] + r.value.0 == r.value.0; }
  }

  lemma AllRead(got: seq<Item>, left: seq<byte>, signs: seq<bool>)
    requires signs == []
    ensures Before(got, DecodeItems(left, signs)) == Some((got, left))
  {
    assert got + [] == got;
  }

  // ------------------------------------------------------------------- there and back

  /** A list written call by call, sought back to and read call by call: the list comes back,
      and the stream stands again exactly where the writing ended. */
  method ThereAndBack(items: seq<Item>, signs: seq<bool>, io: Stream) returns (r: Option<seq<Item>>)
    requires |items| == |signs| && forall k :: 0 <= k < |items| ==> Fits(items[k], signs[k])
    requires io.Valid() && !io.bounded
    requires var s := io.Value();
                 s.readable && s.writable && s.pos < INT32_MAX && |ItemsBytes(items)| <= |s.mem| - s.pos
    modifies io.Repr
    ensures io.Valid() && r == Some(items) && io.Value() == S.Stamp(old(io.Value()), ItemsBytes(items))
  {
    hide DecodeItems, S.WriteAll, S.Stamp, Chunks, ItemsBytes;
    ghost var before, bytes := io.Value(), ItemsBytes(items);
    ChunksBytes(items);
    S.WriteAllWindow(before, Chunks(items));
    S.StampBack(before, bytes);
    StreamRoundTrip(items, signs, before.mem[before.pos + |bytes|..]);
    var start := io.pos;
    var _ := EncodeItems(items, io);
    var _ := io.SeekSet(start);
    r := DecodeItemsFrom(io, signs);
  }
}
