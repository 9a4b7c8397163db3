/**
 What the codec is handed: scalars, the serde calls a value makes on the serializer, and the
 Rust types that drive the deserializer.
 */
module Values {
  import opened Bytes
  import opened Utf8

  type i8 = i: int | -0x80 <= i < 0x80
  type i16 = i: int | -0x8000 <= i < 0x8000
  type i32 = i: int | -0x8000_0000 <= i < 0x8000_0000
  type i64 = i: int | -0x8000_0000_0000_0000 <= i < 0x8000_0000_0000_0000
  type u16 = i: int | 0 <= i < 0x1_0000
  type u32 = i: int | 0 <= i < 0x1_0000_0000
  type u64 = i: int | 0 <= i < 0x1_0000_0000_0000_0000
  type uchar = c: int | 0 <= c < 0xD800 || 0xE000 <= c < 0x11_0000
  type bytes4 = s: bytes | |s| == 4 witness [0, 0, 0, 0]
  type bytes8 = s: bytes | |s| == 8 witness [0, 0, 0, 0, 0, 0, 0, 0]
  type bytes16 = s: bytes | |s| == 16 witness [0, 0, 0, 0, 0, 0, 0, 0, 0, 0, 0, 0, 0, 0, 0, 0]

  /** Floats and decimals are kept as their bit patterns. */
  datatype Scalar =
    | Bool(b: bool)
    | I8(i8: i8) | I16(i16: i16) | I32(i32: i32) | I64(i64: i64)
    | U8(u8: byte) | U16(u16: u16) | U32(u32: u32) | U64(u64: u64)
    | F32(f32: bytes4) | F64(f64: bytes8)
    | Char(c: uchar)
    | Timestamp(ms: i64)
    | Dec32(d32: bytes4) | Dec64(d64: bytes8) | Dec128(d128: bytes16)
    | Uuid(uuid: bytes16)
    | Binary(bin: bytes) | Str(str: str) | Sym(sym: str)

  datatype Kind =
    | KBool | KI8 | KI16 | KI32 | KI64 | KU8 | KU16 | KU32 | KU64 | KF32 | KF64 | KChar
    | KTimestamp | KDec32 | KDec64 | KDec128 | KUuid | KBinary | KStr | KSym

  function KindOf(s: Scalar): Kind {
    match s
    case Bool(_) => KBool
    case I8(_) => KI8
    case I16(_) => KI16
    case I32(_) => KI32
    case I64(_) => KI64
    case U8(_) => KU8
    case U16(_) => KU16
    case U32(_) => KU32
    case U64(_) => KU64
    case F32(_) => KF32
    case F64(_) => KF64
    case Char(_) => KChar
    case Timestamp(_) => KTimestamp
    case Dec32(_) => KDec32
    case Dec64(_) => KDec64
    case Dec128(_) => KDec128
    case Uuid(_) => KUuid
    case Binary(_) => KBinary
    case Str(_) => KStr
    case Sym(_) => KSym
  }

  datatype Descriptor = Name(name: str) | Code(code: u64)

  /** The attribute of a composite field: what may be left off the wire, and what stands in for it. */
  datatype Attr = Mandatory | Optional | Default(def: Val) | Multiple

  datatype Field = Field(attr: Attr, v: Val)

  datatype Entry = Entry(key: Val, value: Val)

  datatype Named = Named(name: str, v: Val)

  /**
   A value, as the serde calls it makes:
   - `Nothing` and `Just` are `serialize_none` and `serialize_some`;
   - `List`, `Tuple`, `Map`, `Struct` and `TupleStruct` carry no special name;
   - `Array` is the newtype that marks the next sequence as an array;
   - `Described` is `Described<T>`, `Composite` a derived described list, `DescribedMap` a derived
     described map.
   */
  datatype Val =
    | Prim(s: Scalar)
    | Unit
    | Nothing
    | Just(v: Val)
    | List(vs: seq<Val>)
    | Tuple(vs: seq<Val>)
    | Array(vs: seq<Val>)
    | Map(entries: seq<Entry>)
    | Described(d: Descriptor, v: Val)
    | Composite(d: Descriptor, fields: seq<Field>)
    | DescribedMap(d: Descriptor, named: seq<Named>)
    | UnitVariant(index: u32)
    | NewtypeVariant(index: u32, v: Val)
    | TupleVariant(index: u32, vs: seq<Val>)
    | Struct(named: seq<Named>)
    | TupleStruct(vs: seq<Val>)

  /** The name under which a struct is serialized. */
  datatype StructEncoding = NoEnc | ListEnc | MapEnc | BasicEnc

  /** `NonNativeType`, without the borrowed symbol and the lazy value. */
  datatype NonNative = NDec32 | NDec64 | NDec128 | NSymbol | NTimestamp | NUuid

  datatype FieldTy = FieldTy(attr: Attr, t: Ty)

  datatype VariantTy =
    | VUnit(name: str)
    | VNewtype(name: str, t: Ty)
    | VTuple(name: str, ts: seq<Ty>)

  /**
   The Rust type a value is decoded at. An optional field of type `Option<T>` is
   `FieldTy(Optional, T)`, and a multiple field of type `Option<Array<T>>` is
   `FieldTy(Multiple, T)`.
   */
  datatype Ty =
    | TPrim(k: Kind)
    | TUnit
    | TOption(t: Ty)
    | TSeq(t: Ty)
    | TTuple(ts: seq<Ty>)
    | TArray(t: Ty)
    | TMap(key: Ty, value: Ty)
    | TDescribed(t: Ty)
    | TComposite(name: str, code: Option<u64>, fields: seq<FieldTy>)
    | TEnum(variants: seq<VariantTy>)

  /** The descriptor a derived type writes: its code when it has one, else its name. */
  function DescriptorOf(name: str, code: Option<u64>): Descriptor {
    match code
    case Some(c) => Code(c)
    case None => Name(name)
  }

  // ---- typing -------------------------------------------------------------------------------

  predicate HasType(v: Val, t: Ty)
    decreases v, 1
  {
    match t
    case TPrim(k) => v.Prim? && KindOf(v.s) == k
    case TUnit => v.Unit?
    case TOption(u) => v.Nothing? || (v.Just? && HasType(v.v, u))
    case TSeq(u) => v.List? && AllHaveType(v.vs, u)
    case TTuple(ts) => v.Tuple? && EachHasType(v.vs, ts)
    case TArray(u) => v.Array? && AllHaveType(v.vs, u)
    case TMap(k, u) =>
      v.Map? && forall i :: 0 <= i < |v.entries| ==> EntryHasType(v.entries[i], k, u)
    case TDescribed(u) => v.Described? && HasType(v.v, u)
    case TComposite(name, code, fts) =>
      v.Composite? && v.d == DescriptorOf(name, code) && FieldsHaveType(v.fields, fts)
    case TEnum(variants) => VariantHasType(v, variants)
  }

  predicate EntryHasType(e: Entry, k: Ty, u: Ty)
    decreases e, 0
  {
    HasType(e.key, k) && HasType(e.value, u)
  }

  predicate AllHaveType(vs: seq<Val>, t: Ty)
    decreases vs, 0
  {
    forall i :: 0 <= i < |vs| ==> HasType(vs[i], t)
  }

  predicate EachHasType(vs: seq<Val>, ts: seq<Ty>)
    decreases vs, 0
  {
    |vs| == |ts| && forall i :: 0 <= i < |vs| ==> HasType(vs[i], ts[i])
  }

  predicate FieldsHaveType(fs: seq<Field>, fts: seq<FieldTy>)
    decreases fs, 0
  {
    |fs| == |fts| && forall i :: 0 <= i < |fs| ==> FieldHasType(fs[i], fts[i])
  }

  predicate FieldHasType(f: Field, ft: FieldTy)
    decreases f, 0
  {
    && f.attr == ft.attr
    && match ft.attr
       case Mandatory => HasType(f.v, ft.t)
       case Default(def) => HasType(f.v, ft.t)
       case Optional => f.v.Nothing? || (f.v.Just? && HasType(f.v.v, ft.t))
       case Multiple =>
         f.v.Nothing? || (f.v.Just? && f.v.v.Array? && AllHaveType(f.v.v.vs, ft.t))
  }

  predicate VariantHasType(v: Val, variants: seq<VariantTy>)
    decreases v, 0
  {
    && (v.UnitVariant? || v.NewtypeVariant? || v.TupleVariant?)
    && v.index < |variants|
    && match variants[v.index]
       case VUnit(_) => v.UnitVariant?
       case VNewtype(_, t) => v.NewtypeVariant? && HasType(v.v, t)
       case VTuple(_, ts) => v.TupleVariant? && EachHasType(v.vs, ts)
  }
}
