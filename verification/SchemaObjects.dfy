/** What the object codec gets to see of a schema: the type, size and group of a field, the
    fields an object is created with, and the groups of the schema by number.
    src/blink_schema.c:137-159, 282-430, src/blink_object.c:212-270. */
module SchemaObjects {
  import opened Base
  import opened Schema
  import opened Lookup
  import opened Definitions
  import opened Resolution
  import opened References
  import opened Inheritance
  import opened Constraints
  import SchemaBuilder
  import O = Objects

  // ------------------------------------------------------------------ types of fields

  /** The table of BLINK_Field_getType. */
  function Translate(tag: IType): O.Type
    requires !tag.IRef?
  {
    match tag
    case IString => O.TString
    case IBinary => O.TBinary
    case IFixed => O.TFixed
    case IBool => O.TBool
    case IU8 => O.TU8
    case IU16 => O.TU16
    case IU32 => O.TU32
    case IU64 => O.TU64
    case II8 => O.TI8
    case II16 => O.TI16
    case II32 => O.TI32
    case II64 => O.TI64
    case IF64 => O.TF64
    case IDate => O.TDate
    case ITimeOfDayMilli => O.TTimeOfDayMilli
    case ITimeOfDayNano => O.TTimeOfDayNano
    case INanoTime => O.TNanoTime
    case IMilliTime => O.TMilliTime
    case IDecimal => O.TDecimal
    case IObject => O.TObject
  }

  /** The reference of a field has been bound, and its chain ends. */
  ghost predicate Settled(nss: Namespaces, t: TypeInfo)
    requires Linked(nss)
  {
    t.tag.IRef? ==> t.resolved.Some? && ValidRef(nss, t.resolved.value) && Ends(nss, t.resolved.value)
  }

  /** The type of a field: what stands at the end of its chain of references, a group being
      dynamic if some reference on the chain is. */
  ghost function TypeOf(nss: Namespaces, t: TypeInfo): O.Type
    requires Linked(nss) && Settled(nss, t)
  {
    if !t.tag.IRef? then Translate(t.tag)
    else
      var (end, dynamic, _) := TerminalOf(nss, t.resolved.value);
      match DefAt(nss, end)
      case Enum(_, _, _) => O.TEnum
      case Group(_, _, _, _, _, _) => if dynamic then O.TDynamicGroup else O.TStaticGroup
      case TypeDef(_, _, ty) => Translate(ty.tag)
  }

  /** BLINK_Field_getType. */
  method GetType(nss: Namespaces, f: Field) returns (ty: O.Type)
    requires Linked(nss) && Settled(nss, f.ty)
    ensures ty == TypeOf(nss, f.ty)
  {
    hide Linked, Ends, TerminalOf, Translate;
    if f.ty.tag.IRef? {
      var ptr, dynamic, sequence := GetTerminal(nss, f.ty.resolved.value);
      match nss[ptr.ns].defs[ptr.at]
      case Enum(_, _, _) => ty := O.TEnum;
      case Group(_, _, _, _, _, _) => ty := if dynamic then O.TDynamicGroup else O.TStaticGroup;
      case TypeDef(_, _, t) => ty := Translate(t.tag);
    } else {
      ty := Translate(f.ty.tag);
    }
  }

  /** The star of the field itself is not looked at: a field that refers to a group directly
      is a static group, whether it has a star or not. */
  lemma StarHasNoEffect(nss: Namespaces, t: TypeInfo)
    requires Linked(nss) && Settled(nss, t)
    ensures Settled(nss, t.(isDynamic := !t.isDynamic)) && TypeOf(nss, t.(isDynamic := !t.isDynamic)) == TypeOf(nss, t)
    ensures t.tag.IRef? && IsGroup(nss, t.resolved.value) ==> TypeOf(nss, t) == O.TStaticGroup
  {
    hide Linked;
    if t.tag.IRef? && IsGroup(nss, t.resolved.value) {
      assert EndsIn(nss, t.resolved.value, 0);
      TerminalOfIs(nss, t.resolved.value, 0);
    }
  }

  // --------------------------------------------------------------------- the registry

  function IndexIn(refs: seq<Ref>, r: Ref): (k: nat)
    requires r in refs
    ensures k < |refs| && refs[k] == r
  {
    if refs[0] == r then 0 else 1 + IndexIn(refs[1..], r)
  }

  /** Groups are told apart by their place in the walk. */
  function Node(nss: Namespaces, r: Ref): (k: nat)
    requires ValidRef(nss, r)
    ensures k < |AllDefs(nss)| && AllDefs(nss)[k] == r
  {
    WalkIsComplete(nss);
    IndexIn(AllDefs(nss), r)
  }

  lemma NodesDiffer(nss: Namespaces, a: Ref, b: Ref)
    requires ValidRef(nss, a) && ValidRef(nss, b)
    ensures Node(nss, a) == Node(nss, b) <==> a == b
  {
    hide AllDefs, ValidRef, IndexIn;
  }

  /** What holds of every schema that comes out of BLINK_Schema_new (`AcceptedIsUsable`). */
  ghost predicate Usable(nss: Namespaces) {
    && Linked(nss)
    && (forall g :: IsGroup(nss, g) ==> Rooted(nss, g))
    && forall g, i :: IsGroup(nss, g) && 0 <= i < |FieldsOf(nss, g)| ==> Settled(nss, FieldsOf(nss, g)[i].ty)
  }

  lemma AcceptedIsUsable(nss: Namespaces)
    requires Bound(nss) && Linked(nss) && SchemaBuilder.SupersLinked(nss) && SchemaBuilder.ConstraintsMet(nss)
    ensures Usable(nss)
  {
    hide Linked, FindDef, Bound, AllAccepted, SchemaBuilder.SupersLinked, SchemaBuilder.ConstraintsMet;
    SchemaBuilder.ConstraintsMean(nss);
    forall g | IsGroup(nss, g) ensures Rooted(nss, g) { SchemaBuilder.MetRooted(nss, g); }
    forall g, i | IsGroup(nss, g) && 0 <= i < |FieldsOf(nss, g)| ensures Settled(nss, FieldsOf(nss, g)[i].ty) {
      FieldIsSettled(nss, g, i);
    }
  }

  lemma FieldIsSettled(nss: Namespaces, g: Ref, i: nat)
    requires Bound(nss) && Linked(nss) && AllAccepted(nss) && IsGroup(nss, g) && i < |FieldsOf(nss, g)|
    ensures Settled(nss, FieldsOf(nss, g)[i].ty)
  {
    hide Linked, FindDef, AllAccepted;
    assert DefBound(nss, DefAt(nss, g));
    var t := FieldsOf(nss, g)[i].ty;
    assert TypeBound(nss, t);
    if t.tag.IRef? { AcceptedEnds(nss, t.resolved.value); }
  }

  /** What the source reads through pointers of the wrong kind: the size of a field that refers
      to a string or fixed type comes from the union member that holds a pointer, and symbols are
      looked up in the node of a field. */
  datatype Misread = Misread(size: uint32, symbols: set<int64>)

  /** A field as the codec sees it. */
  ghost function FieldDefOf(nss: Namespaces, f: Field, overlap: Misread): O.FieldDef
    requires Linked(nss) && Settled(nss, f.ty)
  {
    var ty := TypeOf(nss, f.ty);
    var size :=
      if !(ty.TString? || ty.TBinary? || ty.TFixed?) then 0
      else if f.ty.tag.IRef? then overlap.size
      else f.ty.size;
    var group := if O.IsGroup(ty) && f.ty.tag.IRef? then Node(nss, TerminalOf(nss, f.ty.resolved.value).0) else 0;
    O.FieldDef(ty, f.ty.isSequence, f.isOptional, size, group, overlap.symbols)
  }

  /** The places BLINK_Object_newGroup creates fields for: those BLINK_Group_eachField visits. */
  ghost function Created(nss: Namespaces, g: Ref): seq<Place>
    requires Linked(nss) && Rooted(nss, g)
  {
    Repeat(Own(nss, g), |Lineage(nss, g)|)
  }

  lemma {:induction false} RepeatAt(own: seq<Place>, n: nat, i: nat, j: nat)
    requires i < n && j < |own|
    ensures |Repeat(own, n)| == n * |own| && i * |own| + j < n * |own| && Repeat(own, n)[i * |own| + j] == own[j]
    decreases n
  {
    RepeatLength(own, n - 1);
    assert n * |own| == |own| + (n - 1) * |own|;
    if i > 0 {
      RepeatAt(own, n - 1, i - 1, j);
      assert i * |own| + j == |own| + ((i - 1) * |own| + j);
    }
  }

  lemma {:induction false} RepeatLength(own: seq<Place>, n: nat)
    ensures |Repeat(own, n)| == n * |own|
  {
    if n > 0 {
      RepeatLength(own, n - 1);
      assert n * |own| == |own| + (n - 1) * |own|;
    }
  }

  /** An object is created with the fields of its own group alone, once for each group of its
      line. */
  lemma CreatedMeans(nss: Namespaces, g: Ref, i: nat, j: nat)
    requires Linked(nss) && Rooted(nss, g) && i < |Lineage(nss, g)| && j < |FieldsOf(nss, g)|
    ensures var n := |FieldsOf(nss, g)|;
            && |Created(nss, g)| == |Lineage(nss, g)| * n && i * n + j < |Created(nss, g)|
            && Created(nss, g)[i * n + j] == Place(g, j)
  {
    hide Linked, Rooted, Lineage, FieldsOf;
    RepeatAt(Own(nss, g), |Lineage(nss, g)|, i, j);
  }

  lemma {:induction false} RepeatIn(own: seq<Place>, n: nat)
    ensures forall p :: p in Repeat(own, n) ==> p in own
  {
    if n > 0 { RepeatIn(own, n - 1); }
  }

  lemma CreatedIn(nss: Namespaces, g: Ref)
    requires Linked(nss) && Rooted(nss, g) && IsGroup(nss, g)
    ensures forall p :: p in Created(nss, g) ==> p.group == g && p.at < |FieldsOf(nss, g)|
  {
    hide Linked, Rooted, Lineage, FieldsOf;
    RepeatIn(Own(nss, g), |Lineage(nss, g)|);
  }

  ghost function FieldDefsOf(nss: Namespaces, g: Ref, overlap: Place -> Misread): (defs: seq<O.FieldDef>)
    requires Usable(nss) && IsGroup(nss, g)
    ensures |defs| == |Created(nss, g)|
  {
    CreatedIn(nss, g);
    var places := Created(nss, g);
    seq(|places|, i requires 0 <= i < |places| =>
      assert places[i] in places;
      FieldDefOf(nss, FieldsOf(nss, g)[places[i].at], overlap(places[i])))
  }

  ghost function GroupDefOf(nss: Namespaces, g: Ref, overlap: Place -> Misread): O.GroupDef
    requires Usable(nss) && IsGroup(nss, g)
  {
    O.GroupDef(Node(nss, g), DefAt(nss, g).id, FieldDefsOf(nss, g, overlap), KindsOf(nss, g))
  }

  /** The codec's test for the kind of a group is BLINK_Group_isKindOf. */
  lemma KindsAreKinds(nss: Namespaces, a: Ref, b: Ref, overlap: Place -> Misread)
    requires Usable(nss) && IsGroup(nss, a) && IsGroup(nss, b)
    ensures Node(nss, b) in GroupDefOf(nss, a, overlap).kinds <==> KindOf(nss, a, b)
  {
    hide Linked, Rooted, Lineage, Node, FieldDefsOf;
    forall r | r in Lineage(nss, a) && ValidRef(nss, r) ensures Node(nss, r) == Node(nss, b) <==> r == b {
      NodesDiffer(nss, r, b);
    }
  }

  ghost function RegistryFrom(nss: Namespaces, refs: seq<Ref>, overlap: Place -> Misread): O.Registry
    requires Usable(nss)
  {
    if refs == [] then []
    else (if IsGroup(nss, refs[0]) then [GroupDefOf(nss, refs[0], overlap)] else [])
           + RegistryFrom(nss, refs[1..], overlap)
  }

  /** The groups of a schema, in the order of the walk. */
  ghost function RegistryOf(nss: Namespaces, overlap: Place -> Misread): O.Registry
    requires Usable(nss)
  {
    RegistryFrom(nss, AllDefs(nss), overlap)
  }

  lemma {:induction false} FindsFrom(nss: Namespaces, refs: seq<Ref>, id: uint64, overlap: Place -> Misread)
    requires Usable(nss)
    ensures var found := FirstWithId(nss, refs, id);
            && (found.Some? ==> IsGroup(nss, found.value))
            && O.GroupById(RegistryFrom(nss, refs, overlap), id) ==
                 if found.None? then None else Some(GroupDefOf(nss, found.value, overlap))
  {
    hide Usable, FieldDefsOf, Node;
    if refs != [] {
      FindsFrom(nss, refs[1..], id, overlap);
      var rest := RegistryFrom(nss, refs[1..], overlap);
      if IsGroup(nss, refs[0]) {
        assert ([GroupDefOf(nss, refs[0], overlap)] + rest)[1..] == rest;
      } else {
        assert [] + rest == rest;
      }
    }
  }

  /** Looking a group up by number in the registry is BLINK_Schema_getGroupByID: the first group
      with the number in the order of the walk, or none. */
  lemma RegistryFinds(nss: Namespaces, id: uint64, overlap: Place -> Misread)
    requires Usable(nss)
    ensures var found := FirstWithId(nss, AllDefs(nss), id);
            && (found.Some? ==> IsGroup(nss, found.value))
            && O.GroupById(RegistryOf(nss, overlap), id) ==
                 if found.None? then None else Some(GroupDefOf(nss, found.value, overlap))
  {
    hide Usable, GroupDefOf, AllDefs, FirstWithId;
    FindsFrom(nss, AllDefs(nss), id, overlap);
  }

  // -------------------------------------------------------------------- as it is asked for

  /** What the codec asks of a field: BLINK_Field_getType, _getSize and _getGroup. */
  method DescribeField(nss: Namespaces, f: Field, overlap: Misread) returns (d: O.FieldDef)
    requires Linked(nss) && Settled(nss, f.ty)
    ensures d == FieldDefOf(nss, f, overlap)
  {
    hide Linked, Ends, TerminalOf, Translate, Node;
    var ty := GetType(nss, f);
    var size := 0;
    if ty.TString? || ty.TBinary? || ty.TFixed? {
      size := if f.ty.tag.IRef? then overlap.size else f.ty.size;
    }
    var group := 0;
    if O.IsGroup(ty) && f.ty.tag.IRef? {
      var ptr, _, _ := GetTerminal(nss, f.ty.resolved.value);
      group := Node(nss, ptr);
    }
    d := O.FieldDef(ty, f.ty.isSequence, f.isOptional, size, group, overlap.symbols);
  }

  /** The fields BLINK_Object_newGroup finds: one for each visit of BLINK_Group_eachField. */
  method DescribeFields(nss: Namespaces, g: Ref, overlap: Place -> Misread) returns (defs: seq<O.FieldDef>)
    requires Usable(nss) && IsGroup(nss, g)
    ensures defs == FieldDefsOf(nss, g, overlap)
  {
    hide Linked, Rooted, Settled, FieldDefOf, FieldsOf;
    var places := EachField(nss, g);
    CreatedIn(nss, g);
    defs := [];
    var i := 0;
    while i < |places|
      invariant i <= |places| && |defs| == i && defs == FieldDefsOf(nss, g, overlap)[..i]
    {
      assert places[i] in places;
      var d := DescribeField(nss, FieldsOf(nss, g)[places[i].at], overlap(places[i]));
      defs := defs + [d];
      i := i + 1;
    }
  }

  ghost function KindsOf(nss: Namespaces, g: Ref): set<nat>
    requires Linked(nss) && Rooted(nss, g)
  {
    set r | r in Lineage(nss, g) && ValidRef(nss, r) :: Node(nss, r)
  }

  lemma KindsUp(nss: Namespaces, g: Ref)
    requires Linked(nss) && Rooted(nss, g)
    ensures IsGroup(nss, g)
    ensures SuperRef(nss, g).None? ==> KindsOf(nss, g) == {Node(nss, g)}
    ensures SuperRef(nss, g).Some? ==>
              && Ends(nss, SuperRef(nss, g).value) && Rooted(nss, Parent(nss, g).value)
              && KindsOf(nss, g) == KindsOf(nss, Parent(nss, g).value) + {Node(nss, g)}
  {
    hide Linked, Rooted, Lineage, Node, Ends, TerminalOf;
    Unfold(nss, g);
  }

  /** The groups that the group is a kind of, by the pointers isKindOf follows. */
  method Kinds(nss: Namespaces, g: Ref) returns (kinds: set<nat>)
    requires Linked(nss) && Rooted(nss, g)
    ensures kinds == KindsOf(nss, g)
  {
    hide Linked, Rooted, Lineage, Node, Ends, TerminalOf, KindsOf;
    var ptr := g;
    KindsUp(nss, ptr);
    kinds := {Node(nss, ptr)};
    while SuperRef(nss, ptr).Some?
      invariant Rooted(nss, ptr) && IsGroup(nss, ptr)
      invariant KindsOf(nss, g) == kinds + KindsOf(nss, ptr) && Node(nss, ptr) in kinds
      decreases |Lineage(nss, ptr)|
    {
      Unfold(nss, ptr);
      KindsUp(nss, ptr);
      var s := GetSuper(nss, ptr);
      ptr := s.value;
      KindsUp(nss, ptr);
      kinds := kinds + {Node(nss, ptr)};
    }
    KindsUp(nss, ptr);
  }

  /** All groups of a schema, as the codec gets to know them. */
  method Describe(nss: Namespaces, overlap: Place -> Misread) returns (reg: O.Registry)
    requires Usable(nss)
    ensures reg == RegistryOf(nss, overlap)
  {
    hide Usable, GroupDefOf, RefsFrom, RegistryFrom, RegistryOf, AllDefs, DefIterator.On, DefIterator.Rest;
    var it := new DefIterator(nss);
    var d := it.Next(nss);
    reg := [];
    ghost var todo := AllDefs(nss);
    RegistryStarts(nss, overlap);
    while d.Some?
      invariant it.On(nss) && (d.None? ==> it.Rest(nss) == [])
      invariant todo == if d.None? then [] else [d.value] + it.Rest(nss)
      invariant RegistryOf(nss, overlap) == reg + RegistryFrom(nss, todo, overlap)
      decreases |todo|
    {
      ghost var rest := it.Rest(nss);
      assert todo[1..] == rest;
      RegistryStep(nss, reg, todo, overlap);
      if IsGroup(nss, d.value) {
        var g := DescribeGroup(nss, d.value, overlap);
        reg := reg + [g];
      }
      d := it.Next(nss);
      todo := rest;
    }
    RegistryEnds(nss, reg, overlap);
  }

  lemma RegistryStarts(nss: Namespaces, overlap: Place -> Misread)
    requires Usable(nss)
    ensures RegistryOf(nss, overlap) == [] + RegistryFrom(nss, AllDefs(nss), overlap)
  {
  }

  lemma RegistryEnds(nss: Namespaces, reg: O.Registry, overlap: Place -> Misread)
    requires Usable(nss)
    ensures reg + RegistryFrom(nss, [], overlap) == reg
  {
  }

  lemma RegistryStep(nss: Namespaces, reg: O.Registry, todo: seq<Ref>, overlap: Place -> Misread)
    requires Usable(nss) && todo != []
    ensures reg + RegistryFrom(nss, todo, overlap) ==
              (if IsGroup(nss, todo[0]) then reg + [GroupDefOf(nss, todo[0], overlap)] else reg)
              + RegistryFrom(nss, todo[1..], overlap)
  {
    hide Usable, GroupDefOf;
    var rest := RegistryFrom(nss, todo[1..], overlap);
    if IsGroup(nss, todo[0]) {
      Regroup(reg, [GroupDefOf(nss, todo[0], overlap)], rest);
    } else {
      assert [] + rest == rest;
    }
  }

  method DescribeGroup(nss: Namespaces, g: Ref, overlap: Place -> Misread) returns (d: O.GroupDef)
    requires Usable(nss) && IsGroup(nss, g)
    ensures d == GroupDefOf(nss, g, overlap)
  {
    hide Linked, Rooted, Lineage, FieldDefsOf, Node;
    var fields := DescribeFields(nss, g, overlap);
    var kinds := Kinds(nss, g);
    d := O.GroupDef(Node(nss, g), nss[g.ns].defs[g.at].id, fields, kinds);
  }
}
