/** Group definitions as the object codec sees them, and group objects as values. */
module Objects {
  import opened Base

  /** enum blink_type_tag. */
  datatype Type =
    | TString | TBinary | TFixed | TBool
    | TU8 | TU16 | TU32 | TU64 | TI8 | TI16 | TI32 | TI64
    | TF64 | TDate | TTimeOfDayMilli | TTimeOfDayNano | TNanoTime | TMilliTime
    | TDecimal | TObject | TEnum | TStaticGroup | TDynamicGroup

  /** What BLINK_Field_getType, _isSequence, _isOptional, _getSize and _getGroup report. `symbols`
      are the values BLINK_Enum_getSymbolByValue finds when it is given the node of the field,
      as the decoder does; that node is not an enum, so what is found is whatever lies there. */
  datatype FieldDef =
    FieldDef(ty: Type, isSequence: bool, isOptional: bool, size: uint32,
             group: nat, symbols: set<int64>)

  /** A group: its node, its ID if it has one, the fields an object of it is created with, and
      the nodes of the groups it is a kind of. */
  datatype GroupDef = GroupDef(node: nat, id: Option<uint64>, fields: seq<FieldDef>, kinds: set<nat>)

  /** The groups of a schema in definition order. */
  type Registry = seq<GroupDef>

  /** BLINK_Schema_getGroupByID. */
  function GroupById(reg: Registry, id: uint64): Option<GroupDef> {
    if reg == [] then None
    else if reg[0].id == Some(id) then Some(reg[0])
    else GroupById(reg[1..], id)
  }

  type int8 = x: int | -128 <= x < 128

  /** union blink_object_value. `Blank` is the zeroed union, `Rounded(u)` the double nearest
      to u, which is what the decoder stores in an f64 field. */
  datatype Value =
    | Blank
    | Bytes(data: seq<byte>)
    | Boolean(b: bool)
    | Unsigned(u: uint64)
    | Signed(i: int64)
    | Double(bits: uint64)
    | Rounded(u: uint64)
    | Decimal(mantissa: int64, exponent: int8)
    | Nested(g: Obj)

  datatype Data = Single(v: Value) | Sequence(count: uint32, elems: seq<Value>)

  /** struct blink_object_field. */
  datatype Field = Field(def: FieldDef, initialised: bool, data: Data)

  /** struct blink_object, without its size cache. */
  datatype Obj = Obj(def: GroupDef, fields: seq<Field>)

  predicate IsUnsigned(ty: Type) {
    ty.TU8? || ty.TU16? || ty.TU32? || ty.TU64? || ty.TTimeOfDayMilli? || ty.TTimeOfDayNano?
  }

  predicate IsSigned(ty: Type) {
    ty.TI8? || ty.TI16? || ty.TI32? || ty.TI64? || ty.TDate? || ty.TNanoTime? || ty.TMilliTime? || ty.TEnum?
  }

  predicate IsString(ty: Type) {
    ty.TString? || ty.TBinary?
  }

  predicate IsGroup(ty: Type) {
    ty.TStaticGroup? || ty.TDynamicGroup?
  }

  /** The union member a value of this type lives in. */
  ghost predicate Kind(ty: Type, v: Value) {
    match ty
    case TString => v.Bytes? && |v.data| <= UINT32_MAX
    case TBinary => v.Bytes? && |v.data| <= UINT32_MAX
    case TFixed => v.Bytes? && |v.data| <= UINT32_MAX
    case TBool => v.Boolean?
    case TF64 => v.Double?
    case TDecimal => v.Decimal?
    case TObject => false
    case TStaticGroup => v.Nested?
    case TDynamicGroup => v.Nested? && v.g.def.id.Some?
    case _ => if IsUnsigned(ty) then v.Unsigned? else v.Signed?
  }

  /** The values the encoder visits for a field, in order. */
  function Values(f: Field): (vs: seq<Value>)
    ensures forall v :: v in vs ==> v < f
  {
    if !f.initialised then []
    else match f.data
      case Single(v) => [v]
      case Sequence(_, elems) => elems
  }

  /** Data laid out as the definition says, every value in the member its type uses, and a
      sequence's size equal to the length of its list, all the way down. */
  ghost predicate Shaped(o: Obj)
    decreases o
  {
    forall f :: f in o.fields ==> ShapedField(f)
  }

  ghost predicate ShapedField(f: Field)
    decreases f
  {
    && f.def.isSequence == f.data.Sequence?
    && (f.data.Sequence? ==> f.data.count == |f.data.elems|)
    && forall v :: v in Values(f) ==> Kind(f.def.ty, v) && (v.Nested? ==> Shaped(v.g))
  }
}
