/** The encoder and the decoder as they run, one behind the other on one stream, and the way
    from the text of a schema to an object that has been encoded and decoded with it. */
module EndToEnd {
  import opened Base
  import opened Objects
  import opened GroupObjects
  import opened StreamObjects
  import opened ObjectRoundTrip
  import D = ObjectDecode
  import DecodeLoop
  import E = ObjectEncode
  import ObjectEncoder
  import S = Streams
  import Definitions
  import Inheritance
  import References
  import Resolution
  import Schema
  import ParserNames
  import SchemaBuilder
  import SchemaObjects
  import SchemaParser

  /** The object as it can be shown by decoding. */
  function ShownObj(o: Obj): Obj {
    Obj(o.def, MapShown(o.fields))
  }

  /** A buffer that can be written and read from its position on, with room for n bytes. */
  ghost predicate RoomFor(s: S.State, n: nat)
    requires s.Wf()
  {
    s.bounds == [] && s.readable && s.writable && s.pos < INT32_MAX && n <= |s.mem| - s.pos
  }

  /** BLINK_Object_encodeCompact, BLINK_Stream_seekSet back to the start,
      BLINK_Object_decodeCompact: the object comes back if and only if it is one the code is
      consistent about, and then the stream stands behind its bytes again, the rest of the
      buffer being untouched. */
  method ThereAndBack(g: GroupObject, io: Stream, reg: Registry) returns (r: Option<Obj>)
    requires g.Valid() && io.Valid() && !io.bounded && ObjectEncoder.Apart(g.Repr, io)
    requires Typed(g.content, reg) && RoomFor(io.Value(), |Wire(g.content)|)
    modifies g.Repr, io.Repr
    ensures io.Valid()
    ensures r == Some(ShownObj(g.content)) <==> Faithful(g.content)
    ensures r.Some? && StraightFields(g.content.fields) ==> io.Value() == S.Stamp(old(io.Value()), Wire(g.content))
  {
    hide GroupObject.Valid, Typed, Faithful, Straight, Wire, E.Chunks, D.Decode, S.WriteAll, S.Stamp, S.Progress,
         ObjectEncoder.Apart;
    ghost var before := io.Value();
    var start := io.pos;
    ThroughStream(g.content, reg, before);
    var _ := ObjectEncoder.EncodeCompact(g, io);
    var _ := io.SeekSet(start);
    r := DecodeLoop.DecodeCompact(io, reg);
  }

  // ------------------------------------------------------------ with an accepted schema

  /** The schema an accepted text makes. */
  ghost function SchemaOf(text: seq<byte>): (nss: Schema.Namespaces)
    requires SchemaBuilder.TextOutcome(text) == References.Accept
  {
    Resolution.LinkAll(SchemaParser.Parse(text).value)
  }

  lemma SchemaIsUsable(text: seq<byte>)
    requires SchemaBuilder.TextOutcome(text) == References.Accept
    ensures SchemaObjects.Usable(SchemaOf(text))
  {
    hide SchemaParser.Parse, SchemaObjects.Usable, SchemaBuilder.ConstraintOutcome;
    ParserNames.AcceptedIsTidy(text);
    SchemaBuilder.BoundIsReady(SchemaParser.Parse(text).value);
    SchemaObjects.AcceptedIsUsable(SchemaOf(text));
  }

  /** The groups an accepted text declares, as the codec looks them up. */
  ghost function RegistryOf(text: seq<byte>, overlap: Inheritance.Place -> SchemaObjects.Misread): Registry
    requires SchemaBuilder.TextOutcome(text) == References.Accept
  {
    SchemaIsUsable(text);
    SchemaObjects.RegistryOf(SchemaOf(text), overlap)
  }

  /** The group of an accepted text that BLINK_Schema_getGroupByID finds. */
  ghost function GroupOf(text: seq<byte>, id: uint64): Option<Schema.Ref>
    requires SchemaBuilder.TextOutcome(text) == References.Accept
  {
    Definitions.FirstWithId(SchemaOf(text), Definitions.AllDefs(SchemaOf(text)), id)
  }

  /** A complete and well-typed object of that group. */
  ghost predicate ObjectOf(text: seq<byte>, id: uint64, overlap: Inheritance.Place -> SchemaObjects.Misread, o: Obj)
    requires SchemaBuilder.TextOutcome(text) == References.Accept && GroupOf(text, id).Some?
  {
    SchemaIsUsable(text);
    SchemaObjects.RegistryFinds(SchemaOf(text), id, overlap);
    && o.def == SchemaObjects.GroupDefOf(SchemaOf(text), GroupOf(text, id).value, overlap)
    && o.def.fields == Defs(o.fields) && TypedFields(o.fields)
    && E.SizeOf(o, false).Some? && E.SizeOf(o, false).value + 9 < TWO_32
  }

  lemma ObjectIsTyped(text: seq<byte>, id: uint64, overlap: Inheritance.Place -> SchemaObjects.Misread, o: Obj)
    requires SchemaBuilder.TextOutcome(text) == References.Accept && GroupOf(text, id).Some?
    requires ObjectOf(text, id, overlap, o)
    ensures Typed(o, RegistryOf(text, overlap))
  {
    hide SchemaBuilder.TextOutcome, SchemaOf, SchemaObjects.Usable, SchemaObjects.FieldDefsOf, SchemaObjects.Node,
         SchemaObjects.RegistryOf, TypedFields, E.SizeOf;
    SchemaIsUsable(text);
    var nss := SchemaOf(text);
    SchemaObjects.RegistryFinds(nss, id, overlap);
    Definitions.WalkIsComplete(nss);
    Definitions.FirstWithIdMeans(nss, Definitions.AllDefs(nss), id);
  }

  /** The group that building the schema and looking the ID up come to. */
  ghost function FoundIn(text: seq<byte>, id: uint64): Option<Schema.Ref> {
    if SchemaBuilder.TextOutcome(text) == References.Accept then GroupOf(text, id) else None
  }

  /** If there is such a group, o is a complete and well-typed object of it. */
  ghost predicate Suits(text: seq<byte>, id: uint64, overlap: Inheritance.Place -> SchemaObjects.Misread, o: Obj) {
    FoundIn(text, id).Some? ==> ObjectOf(text, id, overlap, o)
  }

  /** From text to object: the schema is built from its text and a group looked up by number;
      if both succeed, an object of that group is encoded and decoded, with the groups of that
      schema as they are asked for. `found` says which group it was. */
  method TextToObject(inp: Stream, id: uint64, g: GroupObject, io: Stream,
                      overlap: Inheritance.Place -> SchemaObjects.Misread)
    returns (found: Option<Schema.Ref>, r: Option<Obj>)
    requires inp.Valid() && !inp.bounded && inp.pos == 0
    requires g.Valid() && io.Valid() && !io.bounded && ObjectEncoder.Apart(g.Repr, io) && io.Repr !! inp.Repr
    requires RoomFor(io.Value(), |Wire(g.content)|)
    requires Suits(inp.Text(), id, overlap, g.content)
    modifies inp.Repr, g.Repr, io.Repr
    ensures found == FoundIn(old(inp.Text()), id)
    ensures found.None? ==> r.None? && io.Valid() && io.Value() == old(io.Value())
    ensures found.Some? ==>
              && io.Valid()
              && (r == Some(ShownObj(g.content)) <==> Faithful(g.content))
              && (r.Some? && StraightFields(g.content.fields) ==>
                   io.Value() == S.Stamp(old(io.Value()), Wire(g.content)))
  {
    hide SchemaBuilder.TextOutcome, GroupObject.Valid, Typed, Faithful, Straight, Wire, SchemaObjects.Usable, S.Stamp,
         ObjectOf, ObjectEncoder.Apart, SchemaObjects.RegistryOf, SchemaParser.Parse, Resolution.LinkAll,
         Schema.SchemaOk, Definitions.AllDefs;
    ghost var text := inp.Text();
    found, r := None, None;
    var schema, how := SchemaBuilder.New(inp);
    if schema.Some? {
      found := Definitions.GetGroupByID(schema.value.nss, id);
      if found.Some? {
        SchemaIsUsable(text);
        var reg := SchemaObjects.Describe(schema.value.nss, overlap);
        ObjectIsTyped(text, id, overlap, g.content);
        r := ThereAndBack(g, io, reg);
      }
    }
  }
}
