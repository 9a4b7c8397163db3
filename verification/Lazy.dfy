/**
 Reading a value without decoding it: the extent of the next value, from the category of its
 constructor alone.
 */
module Lazy {
  import opened Bytes
  import opened Utf8
  import opened FormatCodes
  import opened Values
  import opened Wire
  import opened Decoder
  import opened Modes
  import opened Scalars
  import opened Headers
  import opened RoundTrip

  function ReadBytes(input: bytes, n: nat): Outcome<(bytes, bytes)> {
    if |input| < n then Err(UnexpectedEof) else Ok((input[..n], input[n..]))
  }

  /** `read_primitive_bytes_or_else` when a described value is an error. */
  function LazyPrimitive(input: bytes): Outcome<(bytes, bytes)> {
    if input == [] then Err(UnexpectedEof)
    else if !IsCode(input[0]) then Err(InvalidFormatCode)
    else
      match CategoryOf(input[0])
      case Fixed(w) => ReadBytes(input, w + 1)
      case Prefixed(w) =>
        if |input| < w + 1 then Err(UnexpectedEof)
        else ReadBytes(input, 1 + w + FromBE(input[1..w + 1]))
      case IsDescribed => Err(InvalidFormatCode)
  }

  /** `LazyValue::from_reader`: a described value is its constructor, a primitive and a primitive. */
  function LazyRead(input: bytes): Outcome<(bytes, bytes)> {
    if input == [] || input[0] != DESCRIBED then LazyPrimitive(input)
    else
      var (x, r1) :- LazyPrimitive(input[1..]);
      var (v, r2) :- LazyPrimitive(r1);
      Ok(([DESCRIBED] + x + v, r2))
  }

  // ---- encodings announce their own length --------------------------------------------------

  /** The first octets of `b` say how long `b` is. */
  ghost predicate Framed(b: bytes) {
    && b != [] && IsCode(b[0])
    && match CategoryOf(b[0])
       case Fixed(w) => |b| == 1 + w
       case Prefixed(w) => |b| >= 1 + w && |b| == 1 + w + FromBE(b[1..1 + w])
       case IsDescribed => false
  }

  lemma FramedIsRead(b: bytes, r: bytes)
    requires Framed(b)
    ensures LazyPrimitive(b + r) == Ok((b, r))
  {
    hide IsCode, FromBE;
    assert (b + r)[0] == b[0] && (b + r)[..|b|] == b && (b + r)[|b|..] == r;
    match CategoryOf(b[0])
    case Fixed(_) =>
    case Prefixed(w) => assert (b + r)[1..w + 1] == b[1..1 + w];
  }

  lemma PrefixedIsFramed(code: byte, wide: bool, size: nat, body: bytes)
    requires IsCode(code) && CategoryOf(code) == Prefixed(Width(wide))
    requires size == |body| < Pow256(Width(wide))
    ensures Framed([code] + (BE(size, Width(wide)) + body))
  {
    hide IsCode, BE, FromBE, Pow256;
    var w := Width(wide);
    var b := [code] + (BE(size, w) + body);
    BERoundTrip(size, w);
    assert b[1..1 + w] == BE(size, w);
  }

  lemma VariableIsFramed(code8: byte, code32: byte, x: bytes)
    requires IsCode(code8) && CategoryOf(code8) == Prefixed(1) && IsCode(code32) && CategoryOf(code32) == Prefixed(4)
    requires |x| <= MAX_BODY
    ensures Framed(Variable(NotElem, code8, code32, |x|, x))
  {
    hide IsCode, BE, Framed, Pow256;
    Pow256Values();
    if |x| <= 254 {
      OneOctet(|x|);
      PrefixedIsFramed(code8, false, |x|, x);
      assert [code8, |x|] + x == [code8] + (BE(|x|, 1) + x);
    } else {
      PrefixedIsFramed(code32, true, |x|, x);
      assert [code32] + BE(|x|, 4) + x == [code32] + (BE(|x|, 4) + x);
    }
  }

  lemma ScalarIsFramed(s: Scalar)
    requires ScalarFits(NotElem, s)
    ensures Framed(ScalarBytes(NotElem, s))
  {
    match s
    case Binary(x) => VariableIsFramed(VBIN8, VBIN32, x);
    case Str(x) => VariableIsFramed(STR8, STR32, x);
    case Sym(x) => VariableIsFramed(SYM8, SYM32, x);
    case _ => hide BE;
  }

  lemma CompoundIsFramed(code8: byte, code32: byte, num: nat, buf: bytes)
    requires IsCode(code8) && CategoryOf(code8) == Prefixed(1) && IsCode(code32) && CategoryOf(code32) == Prefixed(4)
    requires |buf| <= MAX_BODY
    ensures Framed(Written(WriteCompound(NotElem, code8, code32, num, buf)))
  {
    hide IsCode, BE, Framed, Pow256;
    Pow256Values();
    if |buf| <= 254 {
      var body := [num % 256] + buf;
      OneOctet(|body|);
      PrefixedIsFramed(code8, false, |body|, body);
      assert [code8] + [|buf| + 1, num % 256] + buf == [code8] + (BE(|body|, 1) + body);
    } else {
      var count := BE(num % 0x1_0000_0000, 4);
      var body := count + buf;
      PrefixedIsFramed(code32, true, |body|, body);
      assert [code32] + (BE(|body|, 4) + count) + buf == [code32] + (BE(|body|, 4) + body);
    }
  }

  lemma ListIsFramed(num: nat, buf: bytes)
    requires |buf| <= MAX_BODY
    ensures Framed(Written(WriteList(NotElem, num, buf)))
    ensures Framed(Written(WriteMap(NotElem, num, buf))) && Framed(Written(WriteArray(NotElem, num, buf)))
  {
    hide WriteCompound;
    CompoundIsFramed(LIST8, LIST32, num, buf);
    CompoundIsFramed(MAP8, MAP32, num, buf);
    CompoundIsFramed(ARRAY8, ARRAY32, num, buf);
  }

  // ---- values -------------------------------------------------------------------------------

  /** The values that are written as a descriptor and another value. */
  predicate IsDescribedValue(v: Val) {
    v.Described? || v.Composite? || v.DescribedMap? || (v.Just? && IsDescribedValue(v.v))
  }

  /** A described value directly inside a described value. */
  predicate TwiceDescribed(v: Val) {
    (v.Described? && IsDescribedValue(v.v)) || (v.Just? && TwiceDescribed(v.v))
  }

  lemma {:induction false} PrimitiveIsFramed(inMap: bool, v: Val)
    requires Fits(inMap, v) && !IsDescribedValue(v)
    ensures Framed(Encode(inMap, v))
    decreases v
  {
    hide Framed, ScalarBytes, WriteList, WriteMap, WriteArray, EncodeAll, EncodeEntries, EncodeNamed, EncodeValues, ArrayBody, ScalarFits;
    match v
    case Prim(s) => ScalarIsFramed(s);
    case Unit => NullIsFramed();
    case Nothing => NullIsFramed();
    case Just(x) => PrimitiveIsFramed(inMap, x);
    case List(vs) => ListIsFramed(|vs|, EncodeAll(false, vs));
    case Tuple(vs) => ListIsFramed(|vs|, EncodeAll(false, vs));
    case Array(vs) => ListIsFramed(|vs|, ArrayBody(First, vs));
    case Map(es) => ListIsFramed(2 * |es|, EncodeEntries(es));
    case UnitVariant(i) => IndexIsFramed(i);
    case NewtypeVariant(i, x) => ListIsFramed(2, ScalarBytes(NotElem, U32(i)) + Encode(false, x));
    case TupleVariant(i, vs) =>
      ListIsFramed(2, ScalarBytes(NotElem, U32(i)) + Written(WriteList(NotElem, |vs|, EncodeAll(false, vs))));
    case Struct(ns) => ListIsFramed(if inMap then 2 * |ns| else |ns|, if inMap then EncodeNamed(ns) else EncodeValues(ns));
    case TupleStruct(vs) => ListIsFramed(|vs|, EncodeAll(false, vs));
  }

  lemma NullIsFramed()
    ensures Framed([NULL])
  {
  }

  lemma IndexIsFramed(i: u32)
    ensures Framed(ScalarBytes(NotElem, U32(i)))
  {
    hide Framed, ScalarBytes;
    ScalarIsFramed(U32(i));
  }

  /** A descriptor in front of a value: read through when the value is a primitive, refused otherwise. */
  lemma DescribedIsRead(d: Descriptor, b: bytes, r: bytes)
    requires ScalarFits(NotElem, DescriptorScalar(d)) && b != []
    ensures Framed(b) ==> LazyRead(DescriptorBytes(NotElem, d) + b + r) == Ok((DescriptorBytes(NotElem, d) + b, r))
    ensures b[0] == DESCRIBED ==> LazyRead(DescriptorBytes(NotElem, d) + b + r) == Err(InvalidFormatCode)
  {
    hide Framed, ScalarBytes, LazyPrimitive, ScalarFits;
    var x := ScalarBytes(NotElem, DescriptorScalar(d));
    var input := DescriptorBytes(NotElem, d) + b + r;
    assert input[0] == DESCRIBED && input[1..] == x + (b + r);
    ScalarIsFramed(DescriptorScalar(d));
    FramedIsRead(x, b + r);
    if b[0] == DESCRIBED { DescribedIsRefused(b + r); } else if Framed(b) { FramedIsRead(b, r); }
    FramedNotDescribed(b);
  }

  lemma DescribedIsRefused(b: bytes)
    requires b != [] && b[0] == DESCRIBED
    ensures LazyPrimitive(b) == Err(InvalidFormatCode)
  {
  }

  lemma FramedNotDescribed(b: bytes)
    ensures Framed(b) ==> b[0] != DESCRIBED
  {
  }

  lemma {:induction false} DescribedStart(inMap: bool, v: Val)
    requires IsDescribedValue(v)
    ensures Encode(inMap, v) != [] && Encode(inMap, v)[0] == DESCRIBED
  {
    hide ScalarBytes, WriteList, WriteMap, WireBody, EncodeNamed;
    if v.Just? { DescribedStart(inMap, v.v); }
  }

  lemma {:induction false} DescribedValueIsRead(inMap: bool, v: Val, r: bytes)
    requires Fits(inMap, v) && IsDescribedValue(v)
    ensures LazyRead(Encode(inMap, v) + r) ==
              if TwiceDescribed(v) then Err(InvalidFormatCode) else Ok((Encode(inMap, v), r))
    decreases v
  {
    hide Framed, DescriptorBytes, WriteList, WriteMap, WireBody, EncodeNamed, ScalarFits, LazyRead, FieldFits, Flushed;
    match v
    case Just(x) => DescribedValueIsRead(inMap, x, r);
    case Composite(d, fs) =>
      ListIsFramed(Flushed(fs), WireBody(fs, Flushed(fs)));
      FramedNonEmpty(Written(WriteList(NotElem, Flushed(fs), WireBody(fs, Flushed(fs)))), []);
      DescribedIsRead(d, Written(WriteList(NotElem, Flushed(fs), WireBody(fs, Flushed(fs)))), r);
    case DescribedMap(d, ns) =>
      ListIsFramed(2 * |ns|, EncodeNamed(ns));
      FramedNonEmpty(Written(WriteMap(NotElem, 2 * |ns|, EncodeNamed(ns))), []);
      DescribedIsRead(d, Written(WriteMap(NotElem, 2 * |ns|, EncodeNamed(ns))), r);
    case Described(d, x) =>
      assert Fits(false, x);
      EncodingStart(false, x);
      DescribedIsRead(d, Encode(false, x), r);
      if IsDescribedValue(x) { DescribedStart(false, x); } else { PrimitiveIsFramed(false, x); }
  }

  /**
   Skipping: in front of any `r`, a lazy read takes exactly the encoding of `v`, for every value that
   fits, if and only if no described value stands directly inside a described value.
   */
  lemma LazyIff(inMap: bool, v: Val, r: bytes)
    requires Fits(inMap, v)
    ensures LazyRead(Encode(inMap, v) + r) ==
              if TwiceDescribed(v) then Err(InvalidFormatCode) else Ok((Encode(inMap, v), r))
  {
    hide Encode, Fits, Framed;
    if IsDescribedValue(v) {
      DescribedValueIsRead(inMap, v, r);
    } else {
      PrimitiveIsFramed(inMap, v);
      FramedIsRead(Encode(inMap, v), r);
      FramedNotDescribed(Encode(inMap, v));
      TwiceIsDescribed(v);
      FramedNonEmpty(Encode(inMap, v), r);
    }
  }

  lemma FramedNonEmpty(b: bytes, r: bytes)
    requires Framed(b)
    ensures b != [] && (b + r)[0] == b[0]
  {
  }

  lemma {:induction false} TwiceIsDescribed(v: Val)
    ensures TwiceDescribed(v) ==> IsDescribedValue(v)
  {
    if v.Just? { TwiceIsDescribed(v.v); }
  }

  /** What a lazy read sets aside decodes later to what decoding in place would have given. */
  lemma LazyThenDecode(v: Val, t: Ty, r: bytes)
    requires Typed(v, t) && Decodable(v) && !TwiceDescribed(v)
    ensures var o := LazyRead(Encode(false, v) + r);
            && o.Ok?
            && Decode(Fresh(o.value.0, NoEnc), t) == Ok((Norm(v), Fresh([], NoEnc)))
            && Decode(Fresh(Encode(false, v) + r, NoEnc), t) == Ok((Norm(v), Fresh(o.value.1, NoEnc)))
  {
    hide Encode, Decode, Norm, Decodable, LazyRead, HasType, Fits;
    LazyIff(false, v, r);
    ValueExactly(v, t, r, NoEnc);
    ValueExactly(v, t, [], NoEnc);
    assert Encode(false, v) + [] == Encode(false, v);
  }

  // ---- scalars from any input ---------------------------------------------------------------

  /** The input with the element constructor put back in front of it, where one is set. */
  function Unfolded(d: State): bytes {
    if d.elem.Some? then [d.elem.value] + d.rest else d.rest
  }

  /** No element constructor is set, or one that `ReadFormatCode` gave. */
  predicate ElemIsCode(d: State) {
    d.elem.Some? ==> IsCode(d.elem.value)
  }

  /** `e` is `d` after the extent that a lazy read finds. */
  ghost predicate SkipsTo(d: State, e: State) {
    LazyPrimitive(Unfolded(d)).Ok? && LazyPrimitive(Unfolded(d)).value.1 == e.rest
  }

  lemma AfterCode(d: State)
    requires ElemIsCode(d) && ReadCode(d).Ok?
    ensures var p, o := Unfolded(d), ReadCode(d).value; p != [] && IsCode(p[0]) && p[0] == o.0 && p[1..] == o.1.rest
  {
    hide IsCode;
  }

  /** Behind a constructor of fixed width, a read of that width ends the extent. */
  lemma FixedExtent(d: State, w: nat)
    requires ElemIsCode(d) && ReadCode(d).Ok? && IsCode(ReadCode(d).value.0) && CategoryOf(ReadCode(d).value.0) == Fixed(w)
    ensures var d1 := ReadCode(d).value.1;
            && (Take(d1, w).Ok? ==> SkipsTo(d, Take(d1, w).value.1))
            && (w == 0 ==> SkipsTo(d, d1))
            && (w == 1 && Next(d1).Ok? ==> SkipsTo(d, Next(d1).value.1))
  {
    hide IsCode, ReadCode, CategoryOf;
    AfterCode(d);
    var p := Unfolded(d);
    if |p| > w { assert p[1..][w..] == p[w + 1..]; }
  }

  lemma FixedSkips(d: State, code: byte, w: nat)
    requires ElemIsCode(d) && IsCode(code) && CategoryOf(code) == Fixed(w)
    ensures ParseFixed(d, code, w).Ok? ==> SkipsTo(d, ParseFixed(d, code, w).value.1)
  {
    hide IsCode, ReadCode, Take, SkipsTo, CategoryOf;
    if ReadCode(d).Ok? && ReadCode(d).value.0 == code { FixedExtent(d, w); }
  }

  lemma PrefixedExtent(d: State, wide: bool)
    requires ElemIsCode(d) && ReadCode(d).Ok?
    requires IsCode(ReadCode(d).value.0) && CategoryOf(ReadCode(d).value.0) == Prefixed(Width(wide))
    ensures var o := TakePrefixed(ReadCode(d).value.1, wide); o.Ok? ==> SkipsTo(d, o.value.1)
  {
    hide IsCode, ReadCode, CategoryOf, FromBE;
    AfterCode(d);
    var p, w := Unfolded(d), Width(wide);
    if TakePrefixed(ReadCode(d).value.1, wide).Ok? {
      assert p[1..][..w] == p[1..w + 1];
      var l := FromBE(p[1..w + 1]);
      assert p[1..][w..][l..] == p[1 + w + l..];
    }
  }

  lemma VariableSkips(d: State, code8: byte, code32: byte)
    requires ElemIsCode(d)
    requires IsCode(code8) && CategoryOf(code8) == Prefixed(1) && IsCode(code32) && CategoryOf(code32) == Prefixed(4)
    ensures ParseVariable(d, code8, code32).Ok? ==> SkipsTo(d, ParseVariable(d, code8, code32).value.1)
    ensures ParseText(d, code8, code32).Ok? ==> SkipsTo(d, ParseText(d, code8, code32).value.1)
  {
    hide IsCode, ReadCode, TakePrefixed, SkipsTo, CategoryOf, Valid;
    if ReadCode(d).Ok? {
      if ReadCode(d).value.0 == code8 { PrefixedExtent(d, false); }
      else if ReadCode(d).value.0 == code32 { PrefixedExtent(d, true); }
    }
  }

  lemma IntegersSkip(d: State)
    requires ElemIsCode(d)
    ensures ParseBool(d).Ok? ==> SkipsTo(d, ParseBool(d).value.1)
    ensures ParseI32(d).Ok? ==> SkipsTo(d, ParseI32(d).value.1)
    ensures ParseI64(d).Ok? ==> SkipsTo(d, ParseI64(d).value.1)
    ensures ParseU32(d).Ok? ==> SkipsTo(d, ParseU32(d).value.1)
    ensures ParseU64(d).Ok? ==> SkipsTo(d, ParseU64(d).value.1)
  {
    hide IsCode, ReadCode, Take, Next, SkipsTo, CategoryOf, FromBE;
    if ReadCode(d).Ok? {
      CodeIsCode(d);
      var c := ReadCode(d).value.0;
      IntegerWidths();
      var k := CategoryOf(c);
      if k.Fixed? { FixedExtent(d, k.width); }
    }
  }

  lemma CodeIsCode(d: State)
    requires ElemIsCode(d) && ReadCode(d).Ok?
    ensures IsCode(ReadCode(d).value.0)
  {
    hide IsCode;
  }

  lemma IntegerWidths()
    ensures IsCode(BOOLEAN) && CategoryOf(BOOLEAN) == Fixed(1) && IsCode(BOOLEAN_TRUE) && CategoryOf(BOOLEAN_TRUE) == Fixed(0)
    ensures IsCode(BOOLEAN_FALSE) && CategoryOf(BOOLEAN_FALSE) == Fixed(0)
    ensures IsCode(INT) && CategoryOf(INT) == Fixed(4) && IsCode(SMALL_INT) && CategoryOf(SMALL_INT) == Fixed(1)
    ensures IsCode(LONG) && CategoryOf(LONG) == Fixed(8) && IsCode(SMALL_LONG) && CategoryOf(SMALL_LONG) == Fixed(1)
    ensures IsCode(UINT) && CategoryOf(UINT) == Fixed(4) && IsCode(SMALL_UINT) && CategoryOf(SMALL_UINT) == Fixed(1)
    ensures IsCode(UINT0) && CategoryOf(UINT0) == Fixed(0)
    ensures IsCode(ULONG) && CategoryOf(ULONG) == Fixed(8) && IsCode(SMALL_ULONG) && CategoryOf(SMALL_ULONG) == Fixed(1)
    ensures IsCode(ULONG0) && CategoryOf(ULONG0) == Fixed(0)
    ensures IsCode(DECIMAL32) && CategoryOf(DECIMAL32) == Fixed(4) && IsCode(DECIMAL64) && CategoryOf(DECIMAL64) == Fixed(8)
    ensures IsCode(DECIMAL128) && CategoryOf(DECIMAL128) == Fixed(16)
  {
  }

  lemma DecimalSkips(d: State, w: nat)
    requires ElemIsCode(d)
    ensures ParseDecimal(d, w).Ok? ==> SkipsTo(d, ParseDecimal(d, w).value.1)
  {
    hide IsCode, ReadCode, Take, SkipsTo, CategoryOf;
    if ReadCode(d).Ok? {
      CodeIsCode(d);
      IntegerWidths();
      var k := CategoryOf(ReadCode(d).value.0);
      if k.Fixed? { FixedExtent(d, k.width); }
    }
  }

  /**
   Whatever the input, and with the constructor in front of it or set for an array, a scalar that
   decodes ends where the category table says it ends.
   */
  lemma ScalarSkips(d: State, k: Kind)
    requires ElemIsCode(d) && d.nonNative == None
    ensures DecodeScalar(d, k).Ok? ==> SkipsTo(d, DecodeScalar(d, k).value.1)
  {
    hide SkipsTo, ParseFixed, ParseVariable, ParseText, ParseBool, ParseI32, ParseI64, ParseU32, ParseU64, ParseDecimal, FromBE, FromTwos;
    assert d.(nonNative := None) == d;
    match k
    case KI8 => FixedSkips(d, BYTE, 1);
    case KI16 => FixedSkips(d, SHORT, 2);
    case KU8 => FixedSkips(d, UBYTE, 1);
    case KU16 => FixedSkips(d, USHORT, 2);
    case KF32 => FixedSkips(d, FLOAT, 4);
    case KF64 => FixedSkips(d, DOUBLE, 8);
    case KChar => FixedSkips(d, CHAR, 4);
    case KTimestamp => FixedSkips(d, TIMESTAMP, 8);
    case KUuid => FixedSkips(d, UUID, 16);
    case KDec32 => DecimalSkips(d, 4);
    case KDec64 => DecimalSkips(d, 8);
    case KDec128 => DecimalSkips(d, 16);
    case KBinary => VariableSkips(d, VBIN8, VBIN32);
    case KStr => VariableSkips(d, STR8, STR32);
    case KSym => VariableSkips(d, SYM8, SYM32);
    case _ => IntegersSkip(d);
  }

  // ---- longer input -------------------------------------------------------------------------

  /** What a lazy read finds does not depend on what comes behind it, and it is never nothing. */
  lemma LazyExtends(input: bytes, more: bytes)
    requires LazyPrimitive(input).Ok?
    ensures var (b, r) := LazyPrimitive(input).value;
            input == b + r && b != [] && LazyPrimitive(input + more) == Ok((b, r + more))
  {
    hide IsCode, FromBE, CategoryOf;
    var (b, r) := LazyPrimitive(input).value;
    var x := input + more;
    assert x[0] == input[0] && input == b + r;
    assert x[..|b|] == b && x[|b|..] == r + more;
    match CategoryOf(input[0])
    case Fixed(_) =>
    case Prefixed(w) => assert x[1..w + 1] == input[1..w + 1];
  }
}
