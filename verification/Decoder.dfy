/**
 The deserializer as a function of its state. `Decode(d, t)` is what `T::deserialize` does to a
 deserializer in state `d`, for a Rust type `T` described by `t`, on any input.
 */
module Decoder {
  import opened Bytes
  import opened Utf8
  import opened FormatCodes
  import opened Values

  const MAX_COUNT: nat := 65536

  datatype EnumType = ENone | EArray | EDescriptor

  /** The unread input and the mode fields of `Deserializer`. */
  datatype State = State(
    rest: bytes, elem: Option<byte>, nonNative: Option<NonNative>, enumType: EnumType, encoding: StructEncoding)

  // ---- reading ------------------------------------------------------------------------------

  function Next(d: State): Outcome<(byte, State)> {
    if d.rest == [] then Err(UnexpectedEof) else Ok((d.rest[0], d.(rest := d.rest[1..])))
  }

  function Take(d: State, n: nat): Outcome<(bytes, State)> {
    if |d.rest| < n then Err(UnexpectedEof) else Ok((d.rest[..n], d.(rest := d.rest[n..])))
  }

  /** `read_const_bytes` followed by `from_be_bytes` */
  function TakeBE(d: State, w: nat): Outcome<(nat, State)> {
    var (x, d1) :- Take(d, w);
    Ok((FromBE(x), d1))
  }

  function ReadFormatCode(d: State): Outcome<(byte, State)> {
    var (c, d1) :- Next(d);
    if IsCode(c) then Ok((c, d1)) else Err(InvalidFormatCode)
  }

  /** `get_elem_code_or_read_format_code` */
  function ReadCode(d: State): Outcome<(byte, State)> {
    if d.elem.Some? then Ok((d.elem.value, d)) else ReadFormatCode(d)
  }

  /** `get_elem_code_or_peek_byte` */
  function PeekByte(d: State): Outcome<byte> {
    if d.elem.Some? then Ok(d.elem.value)
    else if d.rest == [] then Err(UnexpectedEof)
    else Ok(d.rest[0])
  }

  function PeekCode(d: State): Outcome<byte> {
    var c :- PeekByte(d);
    if IsCode(c) then Ok(c) else Err(InvalidFormatCode)
  }

  // ---- scalars ------------------------------------------------------------------------------

  function SignedOctet(b: byte): i8 {
    if b >= 128 then b - 256 else b
  }

  function Signed16(x: bytes): i16
    requires |x| == 2
  {
    Pow256Values();
    FromTwos(FromBE(x), 2)
  }

  function Signed32(x: bytes): i32
    requires |x| == 4
  {
    Pow256Values();
    FromTwos(FromBE(x), 4)
  }

  function Signed64(x: bytes): i64
    requires |x| == 8
  {
    Pow256Values();
    FromTwos(FromBE(x), 8)
  }

  /** A constructor that must be `code`, then `w` octets. */
  function ParseFixed(d: State, code: byte, w: nat): (r: Outcome<(bytes, State)>)
    ensures r.Ok? ==> |r.value.0| == w
  {
    var (c, d1) :- ReadCode(d);
    if c == code then Take(d1, w) else Err(InvalidFormatCode)
  }

  /** The octets behind an 8-bit or 32-bit length prefix. */
  function TakePrefixed(d: State, wide: bool): Outcome<(bytes, State)> {
    var (l, d1) :- TakeBE(d, if wide then 4 else 1);
    Take(d1, l)
  }

  function ParseVariable(d: State, code8: byte, code32: byte): Outcome<(bytes, State)> {
    var (c, d1) :- ReadCode(d);
    if c == code8 then TakePrefixed(d1, false)
    else if c == code32 then TakePrefixed(d1, true)
    else Err(InvalidFormatCode)
  }

  function CheckUtf8(r: (bytes, State)): (o: Outcome<(str, State)>)
    ensures o.Ok? <==> Valid(r.0)
  {
    if Valid(r.0) then Ok((r.0, r.1)) else Err(InvalidUtf8)
  }

  function ParseText(d: State, code8: byte, code32: byte): Outcome<(str, State)> {
    var r :- ParseVariable(d, code8, code32);
    CheckUtf8(r)
  }

  /** `parse_decimal`, then the width check of the visitor. */
  function ParseDecimal(d: State, w: nat): (r: Outcome<(bytes, State)>)
    ensures r.Ok? ==> |r.value.0| == w
  {
    var (c, d1) :- ReadCode(d);
    if c != DECIMAL32 && c != DECIMAL64 && c != DECIMAL128 then Err(InvalidFormatCode)
    else
      var (x, d2) :- Take(d1, if c == DECIMAL32 then 4 else if c == DECIMAL64 then 8 else 16);
      if |x| == w then Ok((x, d2)) else Err(Message)
  }

  function ParseBool(d: State): Outcome<(Scalar, State)> {
    var (c, d1) :- ReadCode(d);
    if c == BOOLEAN then
      var (b, d2) :- Next(d1);
      if b == 0 then Ok((Bool(false), d2)) else if b == 1 then Ok((Bool(true), d2)) else Err(InvalidValue)
    else if c == BOOLEAN_TRUE then Ok((Bool(true), d1))
    else if c == BOOLEAN_FALSE then Ok((Bool(false), d1))
    else Err(InvalidFormatCode)
  }

  function ParseI32(d: State): Outcome<(Scalar, State)> {
    var (c, d1) :- ReadCode(d);
    if c == INT then
      var (x, d2) :- Take(d1, 4);
      Ok((I32(Signed32(x)), d2))
    else if c == SMALL_INT then
      var (b, d2) :- Next(d1);
      Ok((I32(SignedOctet(b)), d2))
    else Err(InvalidFormatCode)
  }

  function ParseI64(d: State): Outcome<(Scalar, State)> {
    var (c, d1) :- ReadCode(d);
    if c == LONG then
      var (x, d2) :- Take(d1, 8);
      Ok((I64(Signed64(x)), d2))
    else if c == SMALL_LONG then
      var (b, d2) :- Next(d1);
      Ok((I64(SignedOctet(b)), d2))
    else Err(InvalidFormatCode)
  }

  function ParseU32(d: State): (r: Outcome<(Scalar, State)>)
    ensures r.Ok? ==> r.value.0.U32?
  {
    var (c, d1) :- ReadCode(d);
    Pow256Values();
    if c == UINT then
      var (x, d2) :- Take(d1, 4);
      Ok((U32(FromBE(x)), d2))
    else if c == SMALL_UINT then
      var (b, d2) :- Next(d1);
      Ok((U32(b), d2))
    else if c == UINT0 then Ok((U32(0), d1))
    else Err(InvalidFormatCode)
  }

  function ParseU64(d: State): (r: Outcome<(Scalar, State)>)
    ensures r.Ok? ==> r.value.0.U64?
  {
    var (c, d1) :- ReadCode(d);
    Pow256Values();
    if c == ULONG then
      var (x, d2) :- Take(d1, 8);
      Ok((U64(FromBE(x)), d2))
    else if c == SMALL_ULONG then
      var (b, d2) :- Next(d1);
      Ok((U64(b), d2))
    else if c == ULONG0 then Ok((U64(0), d1))
    else Err(InvalidFormatCode)
  }

  function ParseChar(d: State): Outcome<(Scalar, State)> {
    var (x, d1) :- ParseFixed(d, CHAR, 4);
    var n := FromBE(x);
    if 0 <= n < 0xD800 || 0xE000 <= n < 0x11_0000 then Ok((Char(n), d1)) else Err(InvalidValue)
  }

  function ParseTimestamp(d: State): Outcome<(i64, State)> {
    var (x, d1) :- ParseFixed(d, TIMESTAMP, 8);
    Ok((Signed64(x), d1))
  }

  /** `deserialize_i64` reads a timestamp when that type has been announced. */
  function DecodeI64(d: State): Outcome<(Scalar, State)> {
    if d.nonNative == Some(NTimestamp) then
      var (i, d1) :- ParseTimestamp(d.(nonNative := None));
      Ok((I64(i), d1))
    else ParseI64(d)
  }

  /** `deserialize_string` reads a symbol when that type has been announced. */
  function DecodeString(d: State): Outcome<(str, State)> {
    if d.nonNative == Some(NSymbol) then ParseText(d.(nonNative := None), SYM8, SYM32)
    else ParseText(d, STR8, STR32)
  }

  function DecodeSymbol(d: State): Outcome<(str, State)> {
    DecodeString(d.(nonNative := Some(NSymbol)))
  }

  /** Decoding a scalar type; the announced types are set and cleared within the call. */
  function DecodeScalar(d: State, k: Kind): Outcome<(Scalar, State)> {
    match k
    case KBool => ParseBool(d)
    case KI8 => var (x, d1) :- ParseFixed(d, BYTE, 1); Ok((I8(SignedOctet(x[0])), d1))
    case KI16 => var (x, d1) :- ParseFixed(d, SHORT, 2); Ok((I16(Signed16(x)), d1))
    case KI32 => ParseI32(d)
    case KI64 => DecodeI64(d)
    case KU8 => var (x, d1) :- ParseFixed(d, UBYTE, 1); Ok((U8(x[0]), d1))
    case KU16 => var (x, d1) :- ParseFixed(d, USHORT, 2); Pow256Values(); Ok((U16(FromBE(x)), d1))
    case KU32 => ParseU32(d)
    case KU64 => ParseU64(d)
    case KF32 => var (x, d1) :- ParseFixed(d, FLOAT, 4); Ok((F32(x), d1))
    case KF64 => var (x, d1) :- ParseFixed(d, DOUBLE, 8); Ok((F64(x), d1))
    case KChar => ParseChar(d)
    case KTimestamp => var (i, d1) :- ParseTimestamp(d.(nonNative := None)); Ok((Timestamp(i), d1))
    case KDec32 => var (x, d1) :- ParseDecimal(d.(nonNative := None), 4); Ok((Dec32(x), d1))
    case KDec64 => var (x, d1) :- ParseDecimal(d.(nonNative := None), 8); Ok((Dec64(x), d1))
    case KDec128 => var (x, d1) :- ParseDecimal(d.(nonNative := None), 16); Ok((Dec128(x), d1))
    case KUuid => var (x, d1) :- ParseFixed(d.(nonNative := None), UUID, 16); Ok((Uuid(x), d1))
    case KBinary =>
      if d.nonNative.Some? then Panic
      else var (x, d1) :- ParseVariable(d, VBIN8, VBIN32); Ok((Binary(x), d1))
    case KStr => var (x, d1) :- DecodeString(d); Ok((Str(x), d1))
    case KSym => var (x, d1) :- DecodeSymbol(d); Ok((Sym(x), d1))
  }

  // ---- headers ------------------------------------------------------------------------------

  /** A size field, less the octets it counts besides the body. The subtraction is unguarded. */
  function Subtract(size: nat, offset: nat): Outcome<nat> {
    if size < offset then Panic else Ok(size - offset)
  }

  function SizeAndCount(d: State, wide: bool): Outcome<((nat, nat), State)> {
    var w := if wide then 4 else 1;
    var (size, d1) :- TakeBE(d, w);
    var (count, d2) :- TakeBE(d1, w);
    Ok(((size, count), d2))
  }

  datatype SeqHeader = ArrayHeader(size: nat, count: nat) | ListHeader(count: nat)

  /** The array arms of `deserialize_seq`; the element constructor becomes part of the state. */
  function ArrayHead(d: State, wide: bool): Outcome<(SeqHeader, State)> {
    var ((size, count), d1) :- SizeAndCount(d, wide);
    if count > MAX_COUNT || count > size then Err(InvalidValue)
    else if count == 0 then Ok((ArrayHeader(size, 0), d1))
    else
      var (c, d2) :- ReadFormatCode(d1);
      var body :- Subtract(size, if wide then 5 else 2);
      Ok((ArrayHeader(body, count), d2.(elem := Some(c))))
  }

  function ListHead(d: State, wide: bool): Outcome<(SeqHeader, State)> {
    var ((size, count), d1) :- SizeAndCount(d, wide);
    if wide && count > MAX_COUNT then Err(InvalidValue)
    else
      var _ :- Subtract(size, if wide then 4 else 1);
      Ok((ListHeader(count), d1.(elem := None)))
  }

  function SeqHead(d: State): Outcome<(SeqHeader, State)> {
    var (c, d1) :- ReadCode(d);
    if c == ARRAY8 then ArrayHead(d1, false)
    else if c == ARRAY32 then ArrayHead(d1, true)
    else if c == LIST0 then Ok((ListHeader(0), d1))
    else if c == LIST8 then ListHead(d1, false)
    else if c == LIST32 then ListHead(d1, true)
    else Err(InvalidFormatCode)
  }

  /** The header of `deserialize_tuple`, whose count must be the length of the tuple. */
  function TupleHead(d: State, len: nat): Outcome<State> {
    var (c, d1) :- ReadCode(d);
    if c == LIST0 then
      if len == 0 then Ok(d1) else Err(SequenceLengthMismatch)
    else if c == LIST8 || c == LIST32 then
      var ((size, count), d2) :- SizeAndCount(d1, c == LIST32);
      var _ :- Subtract(size, if c == LIST32 then 4 else 1);
      if count == len then Ok(d2.(elem := None)) else Err(SequenceLengthMismatch)
    else Err(InvalidFormatCode)
  }

  function MapHead(d: State): Outcome<(nat, State)> {
    var (c, d1) :- ReadCode(d);
    if c == MAP8 || c == MAP32 then
      var ((size, count), d2) :- SizeAndCount(d1, c == MAP32);
      if c == MAP32 && count > MAX_COUNT then Err(InvalidValue)
      else
        var _ :- Subtract(size, if c == MAP32 then 4 else 1);
        Ok((count, d2))
    else Err(InvalidFormatCode)
  }

  /** `consume_list_header`, added to the descriptor's count of one in 32 bits. */
  function FieldCount(d: State): Outcome<(nat, State)> {
    var (c, d1) :- ReadCode(d);
    if c == LIST0 then Ok((0, d1))
    else if c == LIST8 || c == LIST32 then
      var ((_, count), d2) :- SizeAndCount(d1, c == LIST32);
      if count < 0xFFFF_FFFF then Ok((count, d2)) else Panic
    else Err(Message)
  }

  // ---- descriptors --------------------------------------------------------------------------

  /** `Descriptor::deserialize`: the enum type is `Descriptor` until the constructor is consumed. */
  function DecodeDescriptor(d: State): Outcome<(Descriptor, State)> {
    var (b, d1) :- Next(d);
    if b != DESCRIBED then Err(InvalidFormatCode)
    else
      var d2 := d1.(enumType := ENone);
      var c :- PeekByte(d2);
      if c == SYM8 || c == SYM32 then
        var (x, d3) :- DecodeSymbol(d2);
        Ok((Name(x), d3.(enumType := d.enumType)))
      else if c == ULONG || c == SMALL_ULONG || c == ULONG0 then
        var (x, d3) :- ParseU64(d2);
        Ok((Code(x.u64), d3.(enumType := d.enumType)))
      else Err(Message)
  }

  /** `parse_described_identifier`: reads the descriptor without consuming it. */
  function PeekDescriptor(input: bytes): Outcome<Descriptor> {
    if |input| < 2 then Err(UnexpectedEof)
    else if !IsCode(input[1]) then Err(InvalidFormatCode)
    else if input[1] == SYM8 then
      if |input| < 3 || |input| - 3 < input[2] then Err(UnexpectedEof)
      else PeekName(input[3..3 + input[2]])
    else if input[1] == SYM32 then
      if |input| < 6 || |input| < 6 + FromBE(input[2..6]) then Err(UnexpectedEof)
      else PeekName(input[6..6 + FromBE(input[2..6])])
    else if input[1] == ULONG0 then Ok(Code(0))
    else if input[1] == SMALL_ULONG then
      if |input| < 3 then Err(UnexpectedEof) else Ok(Code(input[2]))
    else if input[1] == ULONG then
      Pow256Values();
      if |input| < 10 then Err(UnexpectedEof) else Ok(Code(FromBE(input[2..10])))
    else Err(InvalidFormatCode)
  }

  function PeekName(x: bytes): Outcome<Descriptor> {
    if Valid(x) then Ok(Name(x)) else Err(InvalidUtf8)
  }

  /** The first element of a `DescribedAccess`. */
  function DescribedHead(d: State): Outcome<(Descriptor, State)> {
    if d.rest == [] then Err(Message)
    else if !IsCode(d.rest[0]) then Err(InvalidFormatCode)
    else DecodeDescriptor(d)
  }

  predicate DescriptorMatches(d: Descriptor, name: str, code: Option<u64>) {
    match d
    case Name(n) => n == name
    case Code(c) => code == Some(c)
  }

  // ---- identifiers --------------------------------------------------------------------------

  datatype Ident = IdNumber(n: nat) | IdName(x: str)

  function IdentOf(d: Descriptor): Ident {
    match d
    case Name(n) => IdName(n)
    case Code(c) => IdNumber(c)
  }

  /** `deserialize_str` takes strings and symbols alike. */
  function DecodeStr(d: State): Outcome<(str, State)> {
    var (c, d1) :- ReadCode(d);
    if c == STR8 || c == SYM8 then
      var r :- TakePrefixed(d1, false);
      CheckUtf8(r)
    else if c == STR32 || c == SYM32 then
      var r :- TakePrefixed(d1, true);
      CheckUtf8(r)
    else Err(InvalidFormatCode)
  }

  /** `deserialize_identifier` */
  function DecodeIdent(d: State): Outcome<(Ident, State)> {
    match d.enumType
    case EArray =>
      var c :- PeekByte(d);
      Ok((IdNumber(c), d))
    case EDescriptor =>
      var (b, d1) :- Next(d);
      if b != DESCRIBED then Err(InvalidFormatCode)
      else
        var d2 := d1.(enumType := ENone);
        var c :- PeekByte(d2);
        Ok((IdNumber(c), d2))
    case ENone =>
      var c :- PeekCode(d);
      if c == STR8 || c == STR32 then
        var (x, d1) :- DecodeStr(d);
        Ok((IdName(x), d1))
      else if c == UINT || c == SMALL_UINT || c == UINT0 then
        var (x, d1) :- ParseU32(d);
        Ok((IdNumber(x.u32), d1))
      else if c == SYM8 || c == SYM32 then
        var (x, d1) :- DecodeSymbol(d);
        Ok((IdName(x), d1))
      else if c == ULONG || c == SMALL_ULONG || c == ULONG0 then
        var (x, d1) :- ParseU64(d);
        Ok((IdNumber(x.u64), d1))
      else if c == DESCRIBED then
        var x :- PeekDescriptor(d.rest);
        Ok((IdentOf(x), d))
      else Ok((IdNumber(c), d))
  }

  function FindVariant(variants: seq<VariantTy>, x: str, i: nat): Outcome<u32>
    requires i <= |variants|
    decreases |variants| - i
  {
    if i == |variants| || i > 0xFFFF_FFFF then Err(Message)
    else if variants[i].name == x then Ok(i)
    else FindVariant(variants, x, i + 1)
  }

  function VariantIndex(variants: seq<VariantTy>, id: Ident): (r: Outcome<u32>)
    ensures r.Ok? ==> r.value < |variants|
  {
    match id
    case IdNumber(n) => if n < |variants| && n <= 0xFFFF_FFFF then Ok(n) else Err(Message)
    case IdName(x) =>
      var i :- FindVariant(variants, x, 0);
      if i < |variants| then Ok(i) else Err(Message)
  }

  /** The constructors that `deserialize_enum` steps over before the variant identifier. */
  function EnumHead(d: State): Outcome<State> {
    var c :- PeekCode(d);
    if c == LIST0 then Err(InvalidFormatCode)
    else if c == LIST8 || c == MAP8 || c == LIST32 || c == MAP32 then
      var (_, d1) :- Next(d);
      var ((_, count), d2) :- SizeAndCount(d1, c == LIST32 || c == MAP32);
      if count == 2 then Ok(d2) else Err(InvalidLength)
    else Ok(d)
  }

  // ---- values -------------------------------------------------------------------------------

  function Decode(d: State, t: Ty): Outcome<(Val, State)>
    decreases t, 1, 0
  {
    match t
    case TPrim(k) => var (s, d1) :- DecodeScalar(d, k); Ok((Prim(s), d1))
    case TUnit => var (c, d1) :- ReadCode(d); if c == NULL then Ok((Unit, d1)) else Err(InvalidFormatCode)
    case TOption(u) => DecodeOption(d, u)
    case TSeq(u) => var (vs, d1) :- DecodeVec(d, u); Ok((List(vs), d1))
    case TTuple(ts) =>
      var d1 :- TupleHead(d, |ts|);
      var (vs, d2) :- DecodeTuple(d1, ts);
      Ok((Tuple(vs), d2))
    case TArray(u) => DecodeArray(d, u)
    case TMap(_, _) =>
      var (count, d1) :- MapHead(d);
      var (es, d2) :- DecodeEntries(d1, t, count);
      Ok((Map(es), d2))
    case TDescribed(u) => DecodeDescribed(d, u)
    case TComposite(name, code, fts) => DecodeComposite(d, name, code, fts)
    case TEnum(variants) => DecodeEnum(d, variants)
  }

  function DecodeOption(d: State, t: Ty): Outcome<(Val, State)>
    decreases t, 2, 0
  {
    var c :- PeekCode(d);
    if c == NULL then
      var (_, d1) :- ReadCode(d);
      Ok((Nothing, d1))
    else
      var (v, d1) :- Decode(d, t);
      Ok((Just(v), d1))
  }

  /** `Vec<T>`: an array or a list, drained by the visitor. */
  function DecodeVec(d: State, t: Ty): Outcome<(seq<Val>, State)>
    decreases t, 3, 0
  {
    var (h, d1) :- SeqHead(d);
    match h
    case ArrayHeader(size, count) => DecodeElements(d1, t, count, size, |d1.rest|)
    case ListHeader(count) => DecodeList(d1, t, count)
  }

  /** `ArrayAccess`: `count` elements, none reaching past `size` octets from `start`. */
  function DecodeElements(d: State, t: Ty, count: nat, size: nat, start: nat): Outcome<(seq<Val>, State)>
    decreases t, 2, count
  {
    if count == 0 then Ok(([], d.(elem := None)))
    else
      var (v, d1) :- Decode(d, t);
      if start - |d1.rest| > size then Err(InvalidValue)
      else
        var (vs, d2) :- DecodeElements(d1, t, count - 1, size, start);
        Ok(([v] + vs, d2))
  }

  /** `ListAccess` */
  function DecodeList(d: State, t: Ty, count: nat): Outcome<(seq<Val>, State)>
    decreases t, 2, count
  {
    if count == 0 then Ok(([], d))
    else
      var (v, d1) :- Decode(d, t);
      var (vs, d2) :- DecodeList(d1, t, count - 1);
      Ok(([v] + vs, d2))
  }

  function DecodeTuple(d: State, ts: seq<Ty>): Outcome<(seq<Val>, State)>
    decreases ts, 0, 0
  {
    if ts == [] then Ok(([], d))
    else
      var (v, d1) :- Decode(d, ts[0]);
      var (vs, d2) :- DecodeTuple(d1, ts[1..]);
      Ok(([v] + vs, d2))
  }

  /** `MapAccess::next_entry_seed` takes two from the count before it reads the pair. */
  function DecodeEntries(d: State, t: Ty, count: nat): Outcome<(seq<Entry>, State)>
    requires t.TMap?
    decreases t, 0, count
  {
    if count == 0 then Ok(([], d))
    else if count == 1 then Panic
    else
      var (k, d1) :- Decode(d, t.key);
      var (v, d2) :- Decode(d1, t.value);
      var (es, d3) :- DecodeEntries(d2, t, count - 2);
      Ok(([Entry(k, v)] + es, d3))
  }

  /** `Array<T>`: several elements, or a bare value standing for one. */
  function DecodeArray(d: State, t: Ty): Outcome<(Val, State)>
    decreases t, 4, 0
  {
    var d1 := d.(enumType := EArray);
    var c :- PeekByte(d1);
    if !IsCode(c) then Err(Message)
    else if c == ARRAY8 || c == ARRAY32 then
      var (vs, d2) :- DecodeVec(d1, t);
      Ok((Array(vs), d2.(enumType := d.enumType)))
    else
      var (v, d2) :- Decode(d1, t);
      Ok((Array([v]), d2.(enumType := d.enumType)))
  }

  function DecodeDescribed(d: State, t: Ty): Outcome<(Val, State)>
    decreases t, 4, 0
  {
    var (x, d1) :- DescribedHead(d.(encoding := BasicEnc));
    if d1.rest == [] then Err(Message)
    else if !IsCode(d1.rest[0]) then Err(InvalidFormatCode)
    else
      var (v, d2) :- Decode(d1, t);
      Ok((Described(x, v), d2.(encoding := d.encoding)))
  }

  function DecodeComposite(d: State, name: str, code: Option<u64>, fts: seq<FieldTy>): Outcome<(Val, State)>
    decreases fts, 1, 0
  {
    var (x, d1) :- DescribedHead(d.(encoding := ListEnc));
    var (count, d2) :- FieldCount(d1);
    if !DescriptorMatches(x, name, code) then Err(Message)
    else
      var (fs, d3) :- DecodeFields(d2, count, fts);
      Ok((Composite(DescriptorOf(name, code), fs), d3.(encoding := d.encoding)))
  }

  /** The generated `visit_seq`; `left` is how many list elements have not been read. */
  function DecodeFields(d: State, left: nat, fts: seq<FieldTy>): Outcome<(seq<Field>, State)>
    decreases fts, 0, 0
  {
    if fts == [] then Ok(([], d))
    else if left == 0 || d.rest == [] then
      var f :- MissingField(fts[0].attr);
      var (fs, d1) :- DecodeFields(d, left, fts[1..]);
      Ok(([f] + fs, d1))
    else if !IsCode(d.rest[0]) then Err(InvalidFormatCode)
    else
      var (f, d1) :- DecodeField(d, fts[0]);
      var (fs, d2) :- DecodeFields(d1, left - 1, fts[1..]);
      Ok(([f] + fs, d2))
  }

  /** `unwrap_or_none` and `unwrap_or_default` on a list that has ended. */
  function MissingField(attr: Attr): Outcome<Field> {
    match attr
    case Mandatory => Err(Message)
    case Optional => Ok(Field(attr, Nothing))
    case Multiple => Ok(Field(attr, Nothing))
    case Default(def) => Ok(Field(attr, def))
  }

  function DecodeField(d: State, ft: FieldTy): Outcome<(Field, State)>
    decreases ft, 0, 0
  {
    match ft.attr
    case Mandatory => var (v, d1) :- Decode(d, ft.t); Ok((Field(ft.attr, v), d1))
    case Optional => var (v, d1) :- DecodeOption(d, ft.t); Ok((Field(ft.attr, v), d1))
    case Default(def) =>
      var (v, d1) :- DecodeOption(d, ft.t);
      Ok((Field(ft.attr, if v.Just? then v.v else def), d1))
    case Multiple => var (v, d1) :- DecodeMultiple(d, ft.t); Ok((Field(ft.attr, v), d1))
  }

  /** `Option<Array<T>>`, with an empty array taken for none. */
  function DecodeMultiple(d: State, t: Ty): Outcome<(Val, State)>
    decreases t, 5, 0
  {
    var c :- PeekCode(d);
    if c == NULL then
      var (_, d1) :- ReadCode(d);
      Ok((Nothing, d1))
    else
      var (v, d1) :- DecodeArray(d, t);
      Ok((if v == Array([]) then Nothing else Just(v), d1))
  }

  function DecodeEnum(d: State, variants: seq<VariantTy>): Outcome<(Val, State)>
    decreases variants, 1, 0
  {
    var d1 :- EnumHead(d);
    var (id, d2) :- DecodeIdent(d1);
    var i :- VariantIndex(variants, id);
    var (v, d3) :- DecodeVariant(d2, i, variants[i]);
    Ok((v, d3.(enumType := d.enumType)))
  }

  function DecodeVariant(d: State, i: u32, v: VariantTy): Outcome<(Val, State)>
    decreases v, 0, 0
  {
    match v
    case VUnit(_) => Ok((UnitVariant(i), d))
    case VNewtype(_, t) => var (x, d1) :- Decode(d, t); Ok((NewtypeVariant(i, x), d1))
    case VTuple(_, ts) =>
      var d1 :- TupleHead(d, |ts|);
      var (vs, d2) :- DecodeTuple(d1, ts);
      Ok((TupleVariant(i, vs), d2))
  }
}
