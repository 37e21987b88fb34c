/** The iterative decoder of src/blink_object.c as it runs on streams: the typed readers it
    calls, the handlers, and the loop over fields and sequence elements. */
module ObjectDecoder {
  import opened Base
  import opened Objects
  import opened ObjectDecode
  import opened StreamObjects
  import Compact
  import S = Streams
  import Vlc

  /** A reader found something of n bytes at the front of what was available and stands behind
      it; or it found nothing, and has at most moved forward. */
  ghost predicate Moved(before: S.State, after: S.State, ok: bool, n: nat)
    requires before.Wf()
  {
    S.Progress(before, after) && (ok ==> n <= before.Room() && after == before.Advance(n))
  }

  lemma MovedTwice(s: S.State, m: nat, s': S.State, n: nat, s'': S.State, ok: bool)
    requires s.Wf() && s'.Wf() && Moved(s, s', true, m) && Moved(s', s'', ok, n)
    ensures Moved(s, s'', ok, m + n) && s'.Avail() == s.Avail()[m..]
  {
    s.AdvanceAvail(m);
    if ok { s.AdvanceTwice(m, n); }
  }

  /** What is next after n bytes, seen from before them. */
  lemma Ahead(s: S.State, n: nat, s': S.State, k: nat)
    requires s.Wf() && s'.Wf() && Moved(s, s', true, n)
    ensures s'.readable == s.readable && (k <= s'.Room() <==> n + k <= |s.Avail()|)
    ensures k <= s'.Room() ==> s'.Avail()[..k] == s.Avail()[n..n + k]
  {
    s.AdvanceAvail(n);
    var a := s.Avail();
    if k <= s'.Room() { assert a[n..][..k] == a[n..n + k]; }
  }

  /** Whoever has found something may still report failure. */
  lemma MovedAnyway(s: S.State, s': S.State, n: nat)
    requires s.Wf() && Moved(s, s', true, n)
    ensures Moved(s, s', false, n)
  {
  }

  lemma NotMoved(s: S.State)
    requires s.Wf()
    ensures Moved(s, s, true, 0)
  {
  }

  lemma LandedMoved(s: S.State, s': S.State, ok: bool, found: Option<(Vlc.Result, nat)>, v: Vlc.Result)
    requires s.Wf() && Compact.Landed(s, s', ok, found, v)
    ensures Moved(s, s', ok, if ok then found.value.1 else 0)
    ensures forall n :: !ok ==> Moved(s, s', false, n)
  {
  }

  // -------------------------------------------------------------------- typed readers

  /** BLINK_Compact_decodeBool, decodeU8 .. decodeU64. */
  method ReadUnsigned(inp: Stream, limit: uint64) returns (ok: bool, v: Vlc.Result)
    requires inp.Valid()
    modifies inp.Repr
    ensures inp.Valid()
    ensures Compact.Landed(old(inp.Value()), inp.Value(), ok, Vlc.ReadUnsigned(old(inp.Value()).Avail(), limit), v)
  {
    hide Vlc.Decode, Stream.Valid, Stream.Value, S.State.Avail, S.State.Advance;
    ok, v := Compact.DecodeVlc(inp, false);
    if ok && v.Word? && v.u > limit {
      ok := false;
    }
  }

  /** BLINK_Compact_decodeI8 .. decodeI64. */
  method ReadSigned(inp: Stream, lo: int64, hi: int64) returns (ok: bool, v: Vlc.Result)
    requires inp.Valid()
    modifies inp.Repr
    ensures inp.Valid()
    ensures Compact.Landed(old(inp.Value()), inp.Value(), ok, Vlc.ReadSigned(old(inp.Value()).Avail(), lo, hi), v)
  {
    hide Vlc.Decode, Stream.Valid, Stream.Value, S.State.Avail, S.State.Advance;
    ok, v := Compact.DecodeVlc(inp, true);
    if ok && v.Word? && !(lo <= Vlc.AsSigned(v.u) <= hi) {
      ok := false;
    }
  }

  /** BLINK_Compact_decodePresent. */
  method ReadPresent(inp: Stream) returns (ok: bool, present: bool, ghost n: nat)
    requires inp.Valid()
    modifies inp.Repr
    ensures inp.Valid() && Moved(old(inp.Value()), inp.Value(), ok, n)
    ensures (if ok then Some((present, n)) else None) == Vlc.ReadPresent(old(inp.Value()).Avail())
  {
    hide Vlc.Decode, Stream.Valid, Stream.Value, S.State.Avail, S.State.Advance;
    ghost var found := Vlc.Decode(inp.Value().Avail(), false);
    var v;
    ok, v := Compact.DecodeVlc(inp, false);
    present, n := ok && v.Word?, if ok then found.value.1 else 0;
    if ok && v.Word? && v.u != 1 {
      ok := false;
    }
  }

  /** BLINK_Compact_decodeDecimal. */
  method ReadDecimal(inp: Stream) returns (ok: bool, r: Option<(int64, int64)>, ghost n: nat)
    requires inp.Valid()
    modifies inp.Repr
    ensures inp.Valid() && Moved(old(inp.Value()), inp.Value(), ok, n)
    ensures (if ok then Some((r, n)) else None) == Vlc.ReadDecimal(old(inp.Value()).Avail())
  {
    hide Vlc.Decode, Stream.Valid, Stream.Value, S.State.Avail, S.State.Advance;
    ghost var before := inp.Value();
    r, n := None, 0;
    var e;
    ok, e := ReadSigned(inp, -128, 127);
    ghost var between := inp.Value();
    if ok {
      n := Vlc.ReadSigned(before.Avail(), -128, 127).value.1;
      if e.Word? {
        before.AdvanceAvail(n);
        ghost var found := Vlc.Decode(between.Avail(), true);
        var m;
        ok, m := Compact.DecodeVlc(inp, true);
        ghost var k := if ok then found.value.1 else 0;
        MovedTwice(before, n, between, k, inp.Value(), ok);
        n := n + k;
        if ok {
          if m.Word? {
            r := Some((Vlc.AsSigned(m.u), Vlc.AsSigned(e.u)));
          } else {
            ok := false;
          }
        }
      }
    }
  }

  /** BLINK_Stream_read of any number of bytes from a readable stream. */
  method ReadBytes(inp: Stream, n: nat) returns (ok: bool, data: seq<byte>)
    requires inp.Valid() && inp.Value().readable
    modifies inp.Repr
    ensures inp.Valid() && Moved(old(inp.Value()), inp.Value(), ok, n)
    ensures ok == (n <= old(inp.Value()).Room())
    ensures ok ==> data == old(inp.Value()).Avail()[..n]
  {
    ghost var before := inp.Value();
    if n <= INT32_MAX {
      ok, data := inp.Take(n, before, 0);
    } else {
      ok, data := inp.Read(n);
    }
  }

  /** The same behind the first `done` bytes of what was there before. */
  method ReadBehind(inp: Stream, n: nat, ghost before: S.State, ghost done: nat) returns (ok: bool, data: seq<byte>)
    requires inp.Valid() && before.Wf() && before.readable && Moved(before, inp.Value(), true, done)
    modifies inp.Repr
    ensures inp.Valid() && Moved(before, inp.Value(), ok, done + n)
    ensures ok == (done + n <= |before.Avail()|) && (ok ==> data == before.Avail()[done..done + n])
  {
    hide Moved, Stream.Valid, Stream.Value, S.State.Avail, S.State.Advance;
    ghost var between := inp.Value();
    Ahead(before, done, between, n);
    ok, data := ReadBytes(inp, n);
    MovedTwice(before, done, between, n, inp.Value(), ok);
  }

  // ------------------------------------------------------------------------- handlers

  /** A handler came out as the function on bytes says. */
  ghost predicate Handled(before: S.State, after: S.State, ok: bool, got: Got, want: Option<Got>)
    requires before.Wf()
  {
    (if ok then Some(got) else None) == want && Moved(before, after, ok, got.used)
  }

  /** decodeCompact_string. */
  method HandleString(def: FieldDef, inp: Stream) returns (ok: bool, v: Value, marks: bool, ghost used: nat)
    requires inp.Valid() && inp.Value().readable
    modifies inp.Repr
    ensures inp.Valid() && Handled(old(inp.Value()), inp.Value(), ok, Got(v, marks, used),
                                   DecodeString(def, old(inp.Value()).Avail()))
  {
    hide Vlc.ReadUnsigned, Moved, Stream.Valid, Stream.Value, S.State.Avail, S.State.Advance;
    ghost var before := inp.Value();
    v, marks, used := Blank, false, 0;
    var size;
    ok, size := ReadUnsigned(inp, UINT32_MAX);
    ghost var between := inp.Value();
    LandedMoved(before, between, ok, Vlc.ReadUnsigned(before.Avail(), UINT32_MAX), size);
    if ok {
      UnsignedWithin(before.Avail(), UINT32_MAX);
      used := Vlc.ReadUnsigned(before.Avail(), UINT32_MAX).value.1;
      MovedAnyway(before, between, used);
      if size.Null? {
        ok := def.isOptional;
      } else if size.u > 0 {
        var data;
        ok, data := ReadBehind(inp, size.u, before, used);
        if ok {
          v, marks := Bytes(data), true;
        }
        used := used + size.u;
      } else {
        v := Bytes([]);
      }
    }
  }

  lemma UnsignedWithin(bs: seq<byte>, limit: uint64)
    requires Vlc.ReadUnsigned(bs, limit).Some?
    ensures var (v, n) := Vlc.ReadUnsigned(bs, limit).value; n <= |bs| && (v.Word? ==> v.u <= limit)
  {
    hide Vlc.Decode;
  }

  /** decodeCompact_fixed. */
  method HandleFixed(def: FieldDef, inp: Stream) returns (ok: bool, v: Value, marks: bool, ghost used: nat)
    requires inp.Valid() && inp.Value().readable
    modifies inp.Repr
    ensures inp.Valid() && Handled(old(inp.Value()), inp.Value(), ok, Got(v, marks, used),
                                   DecodeFixed(def, old(inp.Value()).Avail()))
  {
    hide Vlc.ReadPresent, Moved, Stream.Valid, Stream.Value, S.State.Avail, S.State.Advance;
    ghost var before := inp.Value();
    v, marks, used, ok := Blank, false, 0, true;
    var present := true;
    NotMoved(before);
    if def.isOptional {
      ok, present, used := ReadPresent(inp);
    }
    if ok && present {
      var data;
      ok, data := ReadBehind(inp, def.size, before, used);
      if ok {
        v, marks := Bytes(data), true;
      }
      used := used + def.size;
    }
  }

  /** decodeCompact_bool, _u8 .. _u64, _f64. */
  method HandleUnsigned(def: FieldDef, inp: Stream) returns (ok: bool, v: Value, marks: bool, ghost used: nat)
    requires inp.Valid()
    modifies inp.Repr
    ensures inp.Valid() && Handled(old(inp.Value()), inp.Value(), ok, Got(v, marks, used),
                                   DecodeUnsigned(def, old(inp.Value()).Avail()))
  {
    hide Vlc.ReadUnsigned, Stream.Valid, Stream.Value, S.State.Avail, S.State.Advance;
    ghost var found := Vlc.ReadUnsigned(inp.Value().Avail(), UnsignedLimit(def.ty));
    v, marks := Blank, false;
    var r;
    ok, r := ReadUnsigned(inp, UnsignedLimit(def.ty));
    used := if ok then found.value.1 else 0;
    if ok {
      match r
      case Null => ok := def.isOptional;
      case Word(u) =>
        v := if def.ty.TBool? then Boolean(u != 0) else if def.ty.TF64? then Rounded(u) else Unsigned(u);
        marks := !def.ty.TU16?;
    }
  }

  /** decodeCompact_i8 .. _i64. */
  method HandleSigned(def: FieldDef, inp: Stream) returns (ok: bool, v: Value, marks: bool, ghost used: nat)
    requires inp.Valid()
    modifies inp.Repr
    ensures inp.Valid() && Handled(old(inp.Value()), inp.Value(), ok, Got(v, marks, used),
                                   DecodeSigned(def, old(inp.Value()).Avail()))
  {
    hide Vlc.ReadSigned, Stream.Valid, Stream.Value, S.State.Avail, S.State.Advance;
    ghost var found := Vlc.ReadSigned(inp.Value().Avail(), -SignedLimit(def.ty) - 1, SignedLimit(def.ty));
    v, marks := Blank, false;
    var r;
    ok, r := ReadSigned(inp, -SignedLimit(def.ty) - 1, SignedLimit(def.ty));
    used := if ok then found.value.1 else 0;
    if ok {
      match r
      case Null => ok := def.isOptional;
      case Word(u) => v, marks := Signed(Vlc.AsSigned(u)), true;
    }
  }

  /** decodeCompact_enum. */
  method HandleEnum(def: FieldDef, inp: Stream) returns (ok: bool, v: Value, marks: bool, ghost used: nat)
    requires inp.Valid()
    modifies inp.Repr
    ensures inp.Valid()
    ensures Handled(old(inp.Value()), inp.Value(), ok, Got(v, marks, used), DecodeEnum(def, old(inp.Value()).Avail()))
  {
    hide Vlc.ReadSigned, Stream.Valid, Stream.Value, S.State.Avail, S.State.Advance;
    ghost var found := Vlc.ReadSigned(inp.Value().Avail(), INT32_MIN, INT32_MAX);
    v, marks := Blank, false;
    var r;
    ok, r := ReadSigned(inp, INT32_MIN, INT32_MAX);
    used := if ok then found.value.1 else 0;
    if ok {
      match r
      case Null => ok := def.isOptional;
      case Word(u) =>
        if Vlc.AsSigned(u) in def.symbols {
          v, marks := Signed(Vlc.AsSigned(u)), true;
        } else {
          ok := false;
        }
    }
  }

  /** decodeCompact_decimal. */
  method HandleDecimal(def: FieldDef, inp: Stream) returns (ok: bool, v: Value, marks: bool, ghost used: nat)
    requires inp.Valid()
    modifies inp.Repr
    ensures inp.Valid() && Handled(old(inp.Value()), inp.Value(), ok, Got(v, marks, used),
                                   DecodeDecimal(def, old(inp.Value()).Avail()))
  {
    hide Vlc.ReadDecimal, Stream.Valid, Stream.Value, S.State.Avail, S.State.Advance;
    DecimalExponent(inp.Value().Avail());
    v, marks := Blank, false;
    var r;
    ok, r, used := ReadDecimal(inp);
    if ok {
      if r.None? {
        ok := def.isOptional;
      } else {
        v, marks := Decimal(r.value.0, r.value.1), true;
      }
    }
  }

  /** The exponent has been range checked by its own reader. */
  lemma DecimalExponent(bs: seq<byte>)
    ensures var r := Vlc.ReadDecimal(bs); r.Some? && r.value.0.Some? ==> -128 <= r.value.0.value.1 < 128
  {
    hide Vlc.Decode;
  }

  /** decodeCompact_staticGroup at the top level: the nested object it prepares is dropped. */
  method HandleStatic(def: FieldDef, inp: Stream) returns (ok: bool, v: Value, marks: bool, ghost used: nat)
    requires inp.Valid()
    modifies inp.Repr
    ensures inp.Valid() && Handled(old(inp.Value()), inp.Value(), ok, Got(v, marks, used),
                                   DecodeStatic(def, old(inp.Value()).Avail()))
  {
    hide Vlc.ReadPresent, Stream.Valid, Stream.Value, S.State.Avail, S.State.Advance;
    v, marks, used, ok := Blank, false, 0, true;
    NotMoved(inp.Value());
    if def.isOptional {
      var present;
      ok, present, used := ReadPresent(inp);
    }
  }

  ghost function Budget(s: S.State): nat
    requires s.Wf() && s.bounds != []
  {
    s.bounds[0].max - s.bounds[0].pos
  }

  lemma BudgetLeft(s: S.State, n: nat, s': S.State)
    requires s.Wf() && s.bounds != [] && s'.Wf() && Moved(s, s', true, n)
    ensures s'.bounds != [] && Budget(s') == Budget(s) - n
  {
  }

  /** An ID that names a group of the field's kind. */
  method ReadKind(def: FieldDef, reg: Registry, inp: Stream) returns (ok: bool, ghost k: nat)
    requires inp.Valid()
    modifies inp.Repr
    ensures inp.Valid() && Moved(old(inp.Value()), inp.Value(), ok, k)
    ensures var found := Vlc.Decode(old(inp.Value()).Avail(), false);
            && ok == (found.Some? && found.value.0.Word? && OfKind(def, reg, found.value.0.u))
            && (ok ==> found.value.1 == k)
  {
    hide Vlc.Decode, GroupById, Moved, Stream.Valid, Stream.Value, S.State.Avail, S.State.Advance;
    ghost var before := inp.Value();
    ghost var found := Vlc.Decode(before.Avail(), false);
    var id;
    ok, id := Compact.DecodeVlc(inp, false);
    k := if ok then found.value.1 else 0;
    LandedMoved(before, inp.Value(), ok, found, id);
    if ok {
      MovedAnyway(before, inp.Value(), k);
      if id.Null? {
        ok := false;
      } else {
        var g := GroupById(reg, id.u);
        ok := g.Some? && (def.ty.TObject? || def.group in g.value.kinds);
      }
    }
  }

  /** decodeCompact_dynamicGroup at the top level, where the limit it sets is the one in force. */
  method HandleDynamic(def: FieldDef, reg: Registry, inp: Stream)
    returns (ok: bool, v: Value, marks: bool, ghost used: nat)
    requires inp.Valid() && inp.bounded
    modifies inp.Repr
    ensures inp.Valid()
    ensures Handled(old(inp.Value()), inp.Value(), ok, Got(v, marks, used),
                    DecodeDynamic(def, reg, old(inp.Value()).Avail(), Budget(old(inp.Value()))))
  {
    hide Vlc.ReadUnsigned, Vlc.Decode, OfKind, Moved, Stream.Valid, Stream.Value, S.State.Avail, S.State.Advance;
    ghost var before := inp.Value();
    v, marks, used := Blank, false, 0;
    var size;
    ok, size := ReadUnsigned(inp, UINT32_MAX);
    ghost var between := inp.Value();
    LandedMoved(before, between, ok, Vlc.ReadUnsigned(before.Avail(), UINT32_MAX), size);
    if ok {
      UnsignedWithin(before.Avail(), UINT32_MAX);
      used := Vlc.ReadUnsigned(before.Avail(), UINT32_MAX).value.1;
      MovedAnyway(before, between, used);
      BudgetLeft(before, used, between);
      inp.Beneath();
      if size.Null? {
        ok := def.isOptional;
      } else if size.u == 0 {
        ok := false;
      } else if inp.max - inp.pos < size.u {
        ok := false;
      } else {
        before.AdvanceAvail(used);
        ghost var k;
        ok, k := ReadKind(def, reg, inp);
        MovedTwice(before, used, between, k, inp.Value(), ok);
        used := used + k;
      }
    }
  }

  /** The handler table. */
  method Handle(def: FieldDef, reg: Registry, inp: Stream) returns (ok: bool, v: Value, marks: bool, ghost used: nat)
    requires inp.Valid() && inp.bounded && inp.Value().readable
    modifies inp.Repr
    ensures inp.Valid()
    ensures Handled(old(inp.Value()), inp.Value(), ok, Got(v, marks, used),
                    DecodeValue(def, reg, old(inp.Value()).Avail(), Budget(old(inp.Value()))))
  {
    hide Handled, DecodeString, DecodeFixed, DecodeDynamic, DecodeDecimal, DecodeStatic, DecodeSigned, DecodeUnsigned,
         DecodeEnum, Stream.Valid, Stream.Value, S.State.Avail, S.State.Advance;
    if IsString(def.ty) {
      ok, v, marks, used := HandleString(def, inp);
    } else if def.ty.TFixed? {
      ok, v, marks, used := HandleFixed(def, inp);
    } else if def.ty.TDecimal? {
      ok, v, marks, used := HandleDecimal(def, inp);
    } else if def.ty.TStaticGroup? {
      ok, v, marks, used := HandleStatic(def, inp);
    } else if def.ty.TDynamicGroup? || def.ty.TObject? {
      ok, v, marks, used := HandleDynamic(def, reg, inp);
    } else if def.ty.TEnum? {
      ok, v, marks, used := HandleEnum(def, inp);
    } else if IsSigned(def.ty) {
      ok, v, marks, used := HandleSigned(def, inp);
    } else {
      ok, v, marks, used := HandleUnsigned(def, inp);
    }
  }
}
