/**
 The wire format: the bytes of a scalar in the three element modes, the header writers, and the
 reference encoding `Encode`, a function of the value alone. `Refinement` shows that the stateful
 encoder produces `Encode`.
 */
module Wire {
  import opened Bytes
  import opened Utf8
  import opened FormatCodes
  import opened Values

  /** `u32::MAX - 4`, the longest body a 32-bit form may carry. */
  const MAX_BODY: nat := 0xFFFF_FFFB

  /** `IsArrayElement` */
  datatype Mode = NotElem | First | Other

  // ---- scalars ------------------------------------------------------------------------------

  function Tagged(m: Mode, code: byte, body: bytes): bytes {
    if m == Other then body else [code] + body
  }

  /** The constructor is left off after the first element of an array. */
  function ScalarBytes(m: Mode, s: Scalar): bytes {
    match s
    case Bool(b) =>
      if m == NotElem then [if b then BOOLEAN_TRUE else BOOLEAN_FALSE]
      else Tagged(m, BOOLEAN, [if b then 1 else 0])
    case I8(i) => Tagged(m, BYTE, [Octet(i)])
    case I16(i) => Tagged(m, SHORT, Signed(i, 2))
    case I32(i) =>
      if m == NotElem && -128 <= i <= 127 then [SMALL_INT, Octet(i)] else Tagged(m, INT, Signed(i, 4))
    case I64(i) =>
      if m == NotElem && -128 <= i <= 127 then [SMALL_LONG, Octet(i)] else Tagged(m, LONG, Signed(i, 8))
    case U8(i) => Tagged(m, UBYTE, [i])
    case U16(i) => Tagged(m, USHORT, BE(i, 2))
    case U32(i) =>
      if m == NotElem && i == 0 then [UINT0]
      else if m == NotElem && i <= 255 then [SMALL_UINT, i]
      else Tagged(m, UINT, BE(i, 4))
    case U64(i) =>
      if m == NotElem && i == 0 then [ULONG0]
      else if m == NotElem && i <= 255 then [SMALL_ULONG, i]
      else Tagged(m, ULONG, BE(i, 8))
    case F32(x) => Tagged(m, FLOAT, x)
    case F64(x) => Tagged(m, DOUBLE, x)
    case Char(c) => Tagged(m, CHAR, BE(c, 4))
    case Timestamp(i) => Tagged(m, TIMESTAMP, Signed(i, 8))
    case Dec32(x) => Tagged(m, DECIMAL32, x)
    case Dec64(x) => Tagged(m, DECIMAL64, x)
    case Dec128(x) => Tagged(m, DECIMAL128, x)
    case Uuid(x) => Tagged(m, UUID, x)
    case Binary(x) => Variable(m, VBIN8, VBIN32, |x|, x)
    // inside an array a string is prefixed with its number of characters
    case Str(x) => Variable(m, STR8, STR32, if m == NotElem then |x| else CharCount(x), x)
    case Sym(x) => Variable(m, SYM8, SYM32, |x|, x)
  }

  function Octet(i: int): byte {
    i % 256
  }

  function Signed(i: int, w: nat): bytes
    requires 0 <= i + Pow256(w)
  {
    BE(Twos(i, w), w)
  }

  /** `l as u32` keeps the low 32 bits of the prefix. */
  function Variable(m: Mode, code8: byte, code32: byte, l: nat, x: bytes): bytes {
    if m == NotElem && l <= 254 then [code8, l] + x
    else Tagged(m, code32, BE(l % 0x1_0000_0000, 4)) + x
  }

  /** Outside an array a variable-width scalar may be too long. */
  predicate ScalarFits(m: Mode, s: Scalar) {
    m == NotElem ==>
      match s
      case Binary(x) => |x| <= MAX_BODY
      case Str(x) => |x| <= MAX_BODY
      case Sym(x) => |x| <= MAX_BODY
      case _ => true
  }

  // ---- headers ------------------------------------------------------------------------------

  /** The shared shape of `write_list`, `write_map` and `write_array`, with its narrowing casts. */
  function WriteCompound(m: Mode, code8: byte, code32: byte, num: nat, buf: bytes): Outcome<bytes> {
    if |buf| <= 254 then Ok(Tagged(m, code8, [(|buf| + 1) % 256, num % 256]) + buf)
    else if |buf| <= MAX_BODY then
      Ok(Tagged(m, code32, BE((|buf| + 4) % 0x1_0000_0000, 4) + BE(num % 0x1_0000_0000, 4)) + buf)
    else Err(TooLong)
  }

  function WriteList(m: Mode, num: nat, buf: bytes): Outcome<bytes> {
    if |buf| == 0 then Ok([LIST0]) else WriteCompound(m, LIST8, LIST32, num, buf)
  }

  function WriteMap(m: Mode, num: nat, buf: bytes): Outcome<bytes> {
    WriteCompound(m, MAP8, MAP32, num, buf)
  }

  function WriteArray(m: Mode, num: nat, buf: bytes): Outcome<bytes> {
    WriteCompound(m, ARRAY8, ARRAY32, num, buf)
  }

  function Written(o: Outcome<bytes>): bytes {
    if o.Ok? then o.value else []
  }

  // ---- the reference encoding ---------------------------------------------------------------

  function DescriptorBytes(m: Mode, d: Descriptor): bytes {
    [DESCRIBED] + ScalarBytes(m, DescriptorScalar(d))
  }

  function DescriptorScalar(d: Descriptor): Scalar {
    match d
    case Name(n) => Sym(n)
    case Code(c) => U64(c)
  }

  /** A field that the derived serializer holds back as a null. */
  predicate Skipped(f: Field) {
    match f.attr
    case Mandatory => false
    case Optional => f.v.Nothing?
    case Multiple => f.v.Nothing?
    case Default(def) => f.v == def
  }

  /** One more than the index of the last field that is written, 0 when none is. */
  function Flushed(fs: seq<Field>): (n: nat)
    ensures n <= |fs|
    ensures n > 0 ==> !Skipped(fs[n - 1])
    ensures forall i :: n <= i < |fs| ==> Skipped(fs[i])
  {
    if fs == [] then 0
    else
      var n := Flushed(fs[1..]);
      assert forall i :: 1 <= i < |fs| ==> fs[i] == fs[1..][i - 1];
      if n > 0 then n + 1 else if Skipped(fs[0]) then 0 else 1
  }

  /**
   The encoding of `v`. `inMap` says that the nearest enclosing struct encoding is a described
   map, under which a plain struct is written as a map of its field names.
   */
  function Encode(inMap: bool, v: Val): bytes
    decreases v, 1
  {
    match v
    case Prim(s) => ScalarBytes(NotElem, s)
    case Unit => [NULL]
    case Nothing => [NULL]
    case Just(x) => Encode(inMap, x)
    case List(vs) => Written(WriteList(NotElem, |vs|, EncodeAll(false, vs)))
    case Tuple(vs) => Written(WriteList(NotElem, |vs|, EncodeAll(false, vs)))
    case Array(vs) => Written(WriteArray(NotElem, |vs|, ArrayBody(First, vs)))
    case Map(es) => Written(WriteMap(NotElem, 2 * |es|, EncodeEntries(es)))
    case Described(d, x) => DescriptorBytes(NotElem, d) + Encode(false, x)
    case Composite(d, fs) => EncodeComposite(d, fs, Flushed(fs))
    case DescribedMap(d, ns) => DescriptorBytes(NotElem, d) + Written(WriteMap(NotElem, 2 * |ns|, EncodeNamed(ns)))
    case UnitVariant(i) => ScalarBytes(NotElem, U32(i))
    case NewtypeVariant(i, x) => Written(WriteMap(NotElem, 2, ScalarBytes(NotElem, U32(i)) + Encode(false, x)))
    case TupleVariant(i, vs) =>
      Written(WriteMap(NotElem, 2, ScalarBytes(NotElem, U32(i)) + Written(WriteList(NotElem, |vs|, EncodeAll(false, vs)))))
    case Struct(ns) =>
      if inMap then Written(WriteMap(NotElem, 2 * |ns|, EncodeNamed(ns)))
      else Written(WriteList(NotElem, |ns|, EncodeValues(ns)))
    case TupleStruct(vs) => Written(WriteList(NotElem, |vs|, EncodeAll(false, vs)))
  }

  function EncodeAll(inMap: bool, vs: seq<Val>): bytes
    decreases vs, 0
  {
    if vs == [] then [] else Encode(inMap, vs[0]) + EncodeAll(inMap, vs[1..])
  }

  /** Only scalars are given a meaning as array elements. */
  function ArrayBody(m: Mode, vs: seq<Val>): bytes
    decreases vs
  {
    if vs == [] then []
    else (if vs[0].Prim? then ScalarBytes(m, vs[0].s) else []) + ArrayBody(Other, vs[1..])
  }

  function EncodeEntry(e: Entry): bytes
    decreases e, 0
  {
    Encode(false, e.key) + Encode(false, e.value)
  }

  function EncodeEntries(es: seq<Entry>): bytes
    decreases es, 0
  {
    if es == [] then [] else EncodeEntry(es[0]) + EncodeEntries(es[1..])
  }

  function EncodeNamed(ns: seq<Named>): bytes
    decreases ns, 0
  {
    if ns == [] then []
    else ScalarBytes(NotElem, Str(ns[0].name)) + EncodeNamedValue(true, ns[0]) + EncodeNamed(ns[1..])
  }

  function EncodeValues(ns: seq<Named>): bytes
    decreases ns, 0
  {
    if ns == [] then [] else EncodeNamedValue(false, ns[0]) + EncodeValues(ns[1..])
  }

  function EncodeNamedValue(inMap: bool, n: Named): bytes
    decreases n, 0
  {
    Encode(inMap, n.v)
  }

  /** What one field contributes to the list: null when it is held back. */
  function WireBytes(f: Field): bytes
    decreases f, 0
  {
    if Skipped(f) then [NULL] else Encode(false, f.v)
  }

  /** The first `n` fields, each on the wire. */
  function WireBody(fs: seq<Field>, n: nat): bytes
    decreases fs, 0
  {
    if fs == [] || n == 0 then [] else WireBytes(fs[0]) + WireBody(fs[1..], n - 1)
  }

  /** A composite written with `n` list elements: the derived serializer stops at `Flushed(fs)`. */
  function EncodeComposite(d: Descriptor, fs: seq<Field>, n: nat): bytes
    decreases fs, 1
  {
    DescriptorBytes(NotElem, d) + Written(WriteList(NotElem, n, WireBody(fs, n)))
  }

  // ---- what fits on the wire ----------------------------------------------------------------

  /** No body in `v` is longer than a 32-bit form can carry. */
  predicate Fits(inMap: bool, v: Val)
    decreases v, 1
  {
    match v
    case Prim(s) => ScalarFits(NotElem, s)
    case Unit => true
    case Nothing => true
    case Just(x) => Fits(inMap, x)
    case List(vs) => AllFit(vs) && |EncodeAll(false, vs)| <= MAX_BODY
    case Tuple(vs) => AllFit(vs) && |EncodeAll(false, vs)| <= MAX_BODY
    case Array(vs) => |ArrayBody(First, vs)| <= MAX_BODY
    case Map(es) => EntriesFit(es) && |EncodeEntries(es)| <= MAX_BODY
    case Described(d, x) => ScalarFits(NotElem, DescriptorScalar(d)) && Fits(false, x)
    case Composite(d, fs) =>
      ScalarFits(NotElem, DescriptorScalar(d)) && FieldsFit(fs) && |WireBody(fs, Flushed(fs))| <= MAX_BODY
    case DescribedMap(d, ns) =>
      ScalarFits(NotElem, DescriptorScalar(d)) && NamedFit(true, ns) && |EncodeNamed(ns)| <= MAX_BODY
    case UnitVariant(_) => true
    case NewtypeVariant(i, x) => Fits(false, x) && |ScalarBytes(NotElem, U32(i)) + Encode(false, x)| <= MAX_BODY
    case TupleVariant(i, vs) =>
      && AllFit(vs) && |EncodeAll(false, vs)| <= MAX_BODY
      && |ScalarBytes(NotElem, U32(i)) + Written(WriteList(NotElem, |vs|, EncodeAll(false, vs)))| <= MAX_BODY
    case Struct(ns) =>
      NamedFit(inMap, ns) && (if inMap then |EncodeNamed(ns)| else |EncodeValues(ns)|) <= MAX_BODY
    case TupleStruct(vs) => AllFit(vs) && |EncodeAll(false, vs)| <= MAX_BODY
  }

  predicate AllFit(vs: seq<Val>)
    decreases vs, 0
  {
    forall i :: 0 <= i < |vs| ==> Fits(false, vs[i])
  }

  predicate EntriesFit(es: seq<Entry>)
    decreases es, 0
  {
    forall i :: 0 <= i < |es| ==> EntryFits(es[i])
  }

  predicate EntryFits(e: Entry)
    decreases e, 0
  {
    Fits(false, e.key) && Fits(false, e.value)
  }

  predicate NamedFit(inMap: bool, ns: seq<Named>)
    decreases ns, 0
  {
    forall i :: 0 <= i < |ns| ==> NamedFits(inMap, ns[i])
  }

  predicate NamedFits(inMap: bool, n: Named)
    decreases n, 0
  {
    Fits(inMap, n.v) && (inMap ==> |n.name| <= MAX_BODY)
  }

  predicate FieldsFit(fs: seq<Field>)
    decreases fs, 0
  {
    forall i :: 0 <= i < |fs| ==> FieldFits(fs[i])
  }

  predicate FieldFits(f: Field)
    decreases f, 0
  {
    Skipped(f) || Fits(false, f.v)
  }
}
