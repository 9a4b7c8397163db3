/**
 `serialized_size`: the length of an encoding, computed without writing it. Every nested value is
 sized by a serializer of its own, so the size is a function of the element mode and of the
 innermost struct encoding.
 */
module Sizes {
  import opened Bytes
  import opened Values
  import opened Wire

  function ScalarSize(m: Mode, s: Scalar): Outcome<nat> {
    match s
    case Bool(_) => Ok(if m == First then 2 else 1)
    case I8(_) => Ok(if m == Other then 1 else 2)
    case I16(_) => Ok(if m == Other then 2 else 3)
    case I32(i) => Ok(if m == NotElem && -128 <= i <= 127 then 2 else if m == Other then 4 else 5)
    case I64(i) => Ok(if m == NotElem && -128 <= i <= 127 then 2 else if m == Other then 8 else 9)
    case U8(_) => Ok(if m == Other then 1 else 2)
    case U16(_) => Ok(if m == Other then 2 else 3)
    case U32(i) =>
      Ok(if m == NotElem && i == 0 then 1 else if m == NotElem && i <= 255 then 2 else if m == Other then 4 else 5)
    case U64(i) =>
      Ok(if m == NotElem && i == 0 then 1 else if m == NotElem && i <= 255 then 2 else if m == Other then 8 else 9)
    case F32(_) => Ok(if m == Other then 4 else 5)
    case F64(_) => Ok(if m == Other then 8 else 9)
    case Char(_) => Ok(if m == Other then 4 else 5)
    case Timestamp(_) => Ok(if m == Other then 8 else 9)
    case Dec32(_) => Ok(if m == Other then 4 else 5)
    case Dec64(_) => Ok(if m == Other then 8 else 9)
    case Dec128(_) => Ok(if m == Other then 16 else 17)
    case Uuid(_) => Ok(if m == Other then 16 else 17)
    case Binary(x) => VariableSize(m, |x|)
    case Str(x) => VariableSize(m, |x|)
    case Sym(x) => VariableSize(m, |x|)
  }

  function VariableSize(m: Mode, l: nat): Outcome<nat> {
    if m == First then Ok(5 + l)
    else if m == Other then Ok(4 + l)
    else if l <= 254 then Ok(2 + l)
    else if l <= MAX_BODY then Ok(5 + l)
    else Err(TooLong)
  }

  function MapSize(m: Mode, len: nat): Outcome<nat> {
    if len <= 254 then Ok(if m == Other then 2 + len else 3 + len)
    else if len <= MAX_BODY then Ok(if m == Other then 8 + len else 9 + len)
    else Err(TooLong)
  }

  function ListSize(m: Mode, len: nat): Outcome<nat> {
    if len == 0 then Ok(1) else MapSize(m, len)
  }

  function ArraySize(m: Mode, len: nat): Outcome<nat> {
    MapSize(m, len)
  }

  function DescriptorSize(m: Mode, d: Descriptor): Outcome<nat> {
    var n :- ScalarSize(m, DescriptorScalar(d));
    Ok(1 + n)
  }

  /** `top` is the struct encoding that a plain struct would be sized under. */
  function Size(m: Mode, top: StructEncoding, v: Val): Outcome<nat>
    decreases v, 1
  {
    match v
    case Prim(s) => ScalarSize(m, s)
    case Unit => Ok(1)
    case Nothing => Ok(1)
    case Just(x) => Size(m, top, x)
    case List(vs) => var n :- SizeAll(NotElem, NoEnc, vs); ListSize(m, n)
    case Tuple(vs) => var n :- SizeAll(NotElem, NoEnc, vs); ListSize(m, n)
    case Array(vs) => var n :- SizeElements(First, vs); ArraySize(m, n)
    case Map(es) => var n :- SizeEntries(es); MapSize(m, n)
    case Described(d, x) =>
      var k :- DescriptorSize(m, d);
      var n :- Size(NotElem, NoEnc, x);
      Ok(k + n)
    // the descriptor is added to the body before the header is chosen
    case Composite(d, fs) =>
      var k :- DescriptorSize(m, d);
      var n :- SizeFields(fs, 0);
      ListSize(m, k + n)
    case DescribedMap(d, ns) =>
      var k :- DescriptorSize(m, d);
      var n :- SizeNamed(NotElem, MapEnc, ns);
      MapSize(m, k + n)
    case UnitVariant(i) => ScalarSize(m, U32(i))
    case NewtypeVariant(i, x) =>
      var k :- ScalarSize(NotElem, U32(i));
      var n :- Size(NotElem, NoEnc, x);
      MapSize(m, k + n)
    case TupleVariant(i, vs) =>
      var n :- SizeAll(NotElem, NoEnc, vs);
      var k :- ScalarSize(NotElem, U32(i));
      var l :- ListSize(m, n);
      MapSize(m, k + l)
    case Struct(ns) =>
      (match top
       case NoEnc => var n :- SizeNamed(m, NoEnc, ns); ListSize(m, n)
       case ListEnc => var n :- SizeNamed(NotElem, ListEnc, ns); ListSize(m, n)
       case MapEnc => var n :- SizeNamed(NotElem, MapEnc, ns); MapSize(m, n)
       case BasicEnc => SizeNamed(NotElem, NoEnc, ns))
    case TupleStruct(vs) =>
      (match top
       case NoEnc => var n :- SizeAll(m, NoEnc, vs); ListSize(m, n)
       case ListEnc => var n :- SizeAll(m, NoEnc, vs); ListSize(m, n)
       case MapEnc => Panic
       case BasicEnc => SizeAll(NotElem, NoEnc, vs))
  }

  function SizeAll(m: Mode, top: StructEncoding, vs: seq<Val>): Outcome<nat>
    decreases vs, 0
  {
    if vs == [] then Ok(0)
    else
      var n :- Size(m, top, vs[0]);
      var k :- SizeAll(m, top, vs[1..]);
      Ok(n + k)
  }

  function SizeElements(m: Mode, vs: seq<Val>): Outcome<nat>
    decreases vs, 0
  {
    if vs == [] then Ok(0)
    else
      var n :- Size(m, NoEnc, vs[0]);
      var k :- SizeElements(Other, vs[1..]);
      Ok(n + k)
  }

  function SizeEntry(e: Entry): Outcome<nat>
    decreases e, 0
  {
    var k :- Size(NotElem, NoEnc, e.key);
    var n :- Size(NotElem, NoEnc, e.value);
    Ok(k + n)
  }

  function SizeEntries(es: seq<Entry>): Outcome<nat>
    decreases es, 0
  {
    if es == [] then Ok(0)
    else
      var n :- SizeEntry(es[0]);
      var k :- SizeEntries(es[1..]);
      Ok(n + k)
  }

  /** Under a described map the field name is sized as well. */
  function SizeNamedValue(m: Mode, top: StructEncoding, n: Named): Outcome<nat>
    decreases n, 0
  {
    var k :- if top == MapEnc then ScalarSize(NotElem, Str(n.name)) else Ok(0);
    var l :- Size(m, top, n.v);
    Ok(k + l)
  }

  function SizeNamed(m: Mode, top: StructEncoding, ns: seq<Named>): Outcome<nat>
    decreases ns, 0
  {
    if ns == [] then Ok(0)
    else
      var n :- SizeNamedValue(m, top, ns[0]);
      var k :- SizeNamed(m, top, ns[1..]);
      Ok(n + k)
  }

  /** The calls of the derived serializer: nulls held back are sized when a later field is written. */
  function SizeFields(fs: seq<Field>, nulls: nat): Outcome<nat>
    decreases fs, 0
  {
    if fs == [] then Ok(0)
    else if Skipped(fs[0]) then SizeFields(fs[1..], nulls + 1)
    else
      var n :- SizeField(fs[0]);
      var k :- SizeFields(fs[1..], 0);
      Ok(nulls + n + k)
  }

  function SizeField(f: Field): Outcome<nat>
    decreases f, 0
  {
    Size(NotElem, ListEnc, f.v)
  }
}
