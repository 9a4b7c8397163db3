/**
 The wire format in numbers: what the encoder writes, octet by octet, as sections 1.2 and 1.6 of Part 1
 of the AMQP 1.0 specification number the constructors. Nothing here goes by the name of a constant.
 */
module Numbers {
  import opened Bytes
  import opened Utf8
  import opened FormatCodes
  import opened Values
  import opened Wire
  import opened Decoder

  // ---- byte order ---------------------------------------------------------------------------

  /** The low `w` octets of `n`, in two's complement when it is negative: octet `i` by its position. */
  function Octets(n: int, w: nat): (s: bytes)
    ensures |s| == w
  {
    seq(w, i requires 0 <= i < w => n / Pow256(w - 1 - i) % 256)
  }

  lemma DivisionIsUnique(n: int, d: int, q: int, r: int)
    requires d > 0 && n == d * q + r && 0 <= r < d
    ensures n / d == q && n % d == r
  {
    var a, b := n / d, n % d;
    assert n == d * a + b;
    Distribute(d, a, q);
    if a > q {
      AtLeastOnce(d, a - q);
    } else if a < q {
      AtLeastOnce(d, q - a);
      Distribute(d, q, a);
    }
  }

  lemma Distribute(d: int, a: int, b: int)
    ensures d * (a - b) == d * a - d * b
  {
  }

  lemma {:induction false} AtLeastOnce(d: int, k: int)
    requires d > 0 && k > 0
    ensures d * k >= d
    decreases k
  {
    if k > 1 {
      AtLeastOnce(d, k - 1);
      Distribute(d, k, 1);
    }
  }

  lemma DivisionTwice(n: int, p: int)
    requires p > 0
    ensures n / 256 / p == n / (256 * p)
    ensures n % (256 * p) / 256 == n / 256 % p && n % (256 * p) % 256 == n % 256
  {
    var q, r := n / 256, n % 256;
    var a, b := q / p, q % p;
    calc {
      n;
      256 * (p * a + b) + r;
      256 * (p * a) + (256 * b + r);
      (256 * p) * a + (256 * b + r);
    }
    assert 256 * b + r < 256 * p;
    DivisionIsUnique(n, 256 * p, a, 256 * b + r);
    DivisionIsUnique(256 * b + r, 256, b, r);
  }

  lemma OctetsStep(n: int, w: nat)
    requires w > 0
    ensures Octets(n, w) == Octets(n / 256, w - 1) + [n % 256]
  {
    var a, b := Octets(n, w), Octets(n / 256, w - 1) + [n % 256];
    forall i | 0 <= i < w ensures a[i] == b[i] {
      if i < w - 1 {
        DivisionTwice(n, Pow256(w - 2 - i));
        assert Pow256(w - 1 - i) == 256 * Pow256(w - 2 - i);
      } else {
        assert Pow256(0) == 1;
      }
    }
  }

  /** `BE` is big-endian. */
  lemma {:induction false} BEByPosition(n: nat, w: nat)
    ensures BE(n, w) == Octets(n, w)
    ensures forall i :: 0 <= i < w ==> BE(n, w)[i] == n / Pow256(w - 1 - i) % 256
    decreases w
  {
    if w > 0 {
      BEByPosition(n / 256, w - 1);
      OctetsStep(n, w);
    }
  }

  lemma {:induction false} BEOfLowPart(n: nat, w: nat)
    ensures BE(n % Pow256(w), w) == Octets(n, w)
    decreases w
  {
    if w > 0 {
      DivisionTwice(n, Pow256(w - 1));
      BEOfLowPart(n / 256, w - 1);
      OctetsStep(n, w);
    }
  }

  /** `to_be_bytes` of a signed integer is two's complement. */
  lemma {:induction false} SignedByPosition(i: int, w: nat)
    requires 0 <= i + Pow256(w)
    ensures BE(i + Pow256(w), w) == Octets(i, w)
    ensures Signed(i, w) == Octets(i, w)
    decreases w
  {
    hide Octets;
    BEOfNothing(i);
    if i >= 0 { BEByPosition(i, w); }
    if w > 0 {
      var p := Pow256(w - 1);
      DivisionIsUnique(i + 256 * p, 256, i / 256 + p, i % 256);
      SignedByPosition(i / 256, w - 1);
      OctetsStep(i, w);
    }
  }

  lemma BEOfNothing(n: int)
    ensures Octets(n, 0) == []
  {
  }

  lemma OneOctetByPosition(n: int)
    ensures Octets(n, 1) == [n % 256]
  {
    OctetsStep(n, 1);
    assert Octets(n / 256, 0) == [];
  }

  // ---- scalars ------------------------------------------------------------------------------

  /** A scalar outside an array. */
  function Outside(s: Scalar): bytes {
    match s
    case Bool(b) => [if b then 0x41 else 0x42]
    case I8(i) => [0x51] + Octets(i, 1)
    case I16(i) => [0x61] + Octets(i, 2)
    case I32(i) => if -128 <= i <= 127 then [0x54] + Octets(i, 1) else [0x71] + Octets(i, 4)
    case I64(i) => if -128 <= i <= 127 then [0x55] + Octets(i, 1) else [0x81] + Octets(i, 8)
    case U8(i) => [0x50, i]
    case U16(i) => [0x60] + Octets(i, 2)
    case U32(i) => if i == 0 then [0x43] else if i <= 255 then [0x52, i] else [0x70] + Octets(i, 4)
    case U64(i) => if i == 0 then [0x44] else if i <= 255 then [0x53, i] else [0x80] + Octets(i, 8)
    case F32(x) => [0x72] + x
    case F64(x) => [0x82] + x
    case Char(c) => [0x73] + Octets(c, 4)
    case Timestamp(i) => [0x83] + Octets(i, 8)
    case Dec32(x) => [0x74] + x
    case Dec64(x) => [0x84] + x
    case Dec128(x) => [0x94] + x
    case Uuid(x) => [0x98] + x
    case Binary(x) => if |x| <= 254 then [0xa0, |x|] + x else [0xb0] + (Octets(|x|, 4) + x)
    case Str(x) => if |x| <= 254 then [0xa1, |x|] + x else [0xb1] + (Octets(|x|, 4) + x)
    case Sym(x) => if |x| <= 254 then [0xa3, |x|] + x else [0xb3] + (Octets(|x|, 4) + x)
  }

  /** The constructor of an array of scalars, and one element behind it. */
  function ElementCode(k: Kind): byte {
    match k
    case KBool => 0x56
    case KI8 => 0x51
    case KI16 => 0x61
    case KI32 => 0x71
    case KI64 => 0x81
    case KU8 => 0x50
    case KU16 => 0x60
    case KU32 => 0x70
    case KU64 => 0x80
    case KF32 => 0x72
    case KF64 => 0x82
    case KChar => 0x73
    case KTimestamp => 0x83
    case KDec32 => 0x74
    case KDec64 => 0x84
    case KDec128 => 0x94
    case KUuid => 0x98
    case KBinary => 0xb0
    case KStr => 0xb1
    case KSym => 0xb3
  }

  function Element(s: Scalar): bytes {
    match s
    case Bool(b) => [if b then 1 else 0]
    case I8(i) => Octets(i, 1)
    case I16(i) => Octets(i, 2)
    case I32(i) => Octets(i, 4)
    case I64(i) => Octets(i, 8)
    case U8(i) => [i]
    case U16(i) => Octets(i, 2)
    case U32(i) => Octets(i, 4)
    case U64(i) => Octets(i, 8)
    case F32(x) => x
    case F64(x) => x
    case Char(c) => Octets(c, 4)
    case Timestamp(i) => Octets(i, 8)
    case Dec32(x) => x
    case Dec64(x) => x
    case Dec128(x) => x
    case Uuid(x) => x
    case Binary(x) => Octets(|x|, 4) + x
    case Str(x) => Octets(CharCount(x), 4) + x
    case Sym(x) => Octets(|x|, 4) + x
  }

  lemma IntegerOctets(s: Scalar)
    ensures s.I8? ==> [Octet(s.i8)] == Octets(s.i8, 1)
    ensures s.I16? ==> Signed(s.i16, 2) == Octets(s.i16, 2)
    ensures s.I32? ==> Signed(s.i32, 4) == Octets(s.i32, 4) && [Octet(s.i32)] == Octets(s.i32, 1)
    ensures s.I64? ==> Signed(s.i64, 8) == Octets(s.i64, 8) && [Octet(s.i64)] == Octets(s.i64, 1)
    ensures s.Timestamp? ==> Signed(s.ms, 8) == Octets(s.ms, 8)
    ensures s.U16? ==> BE(s.u16, 2) == Octets(s.u16, 2)
    ensures s.U32? ==> BE(s.u32, 4) == Octets(s.u32, 4)
    ensures s.U64? ==> BE(s.u64, 8) == Octets(s.u64, 8)
    ensures s.Char? ==> BE(s.c, 4) == Octets(s.c, 4)
  {
    hide BE, Octets, Signed;
    Pow256Values();
    match s
    case I8(i) => OneOctetByPosition(i);
    case I16(i) => SignedByPosition(i, 2);
    case I32(i) => SignedByPosition(i, 4); OneOctetByPosition(i);
    case I64(i) => SignedByPosition(i, 8); OneOctetByPosition(i);
    case Timestamp(i) => SignedByPosition(i, 8);
    case U16(i) => BEByPosition(i, 2);
    case U32(i) => BEByPosition(i, 4);
    case U64(i) => BEByPosition(i, 8);
    case Char(c) => BEByPosition(c, 4);
    case _ =>
  }

  lemma VariableOctets(code8: byte, code32: byte, l: nat, x: bytes)
    ensures Variable(NotElem, code8, code32, l, x) == if l <= 254 then [code8, l] + x else [code32] + (Octets(l, 4) + x)
    ensures Variable(First, code8, code32, l, x) == [code32] + (Octets(l, 4) + x)
    ensures Variable(Other, code8, code32, l, x) == Octets(l, 4) + x
  {
    hide BE, Octets;
    Pow256Values();
    BEOfLowPart(l, 4);
    assert [code32] + Octets(l, 4) + x == [code32] + (Octets(l, 4) + x);
  }

  /**
   Every scalar in numbers, outside an array, as its first element and as a later one: which
   constructor, when the compact form is taken, which octets in which order.
   */
  lemma ScalarInOctets(s: Scalar)
    ensures ScalarBytes(NotElem, s) == Outside(s)
    ensures ScalarBytes(First, s) == [ElementCode(KindOf(s))] + Element(s)
    ensures ScalarBytes(Other, s) == Element(s)
  {
    hide ScalarBytes, Outside, Element, ElementCode;
    if s.Binary? || s.Str? || s.Sym? {
      VariableScalarInOctets(s);
    } else {
      FixedScalarInOctets(s);
    }
  }

  lemma VariableScalarInOctets(s: Scalar)
    requires s.Binary? || s.Str? || s.Sym?
    ensures ScalarBytes(NotElem, s) == Outside(s)
    ensures ScalarBytes(First, s) == [ElementCode(KindOf(s))] + Element(s)
    ensures ScalarBytes(Other, s) == Element(s)
  {
    hide BE, Octets, Variable, CharCount;
    match s
    case Binary(x) => VariableOctets(0xa0, 0xb0, |x|, x);
    case Str(x) => VariableOctets(0xa1, 0xb1, |x|, x); VariableOctets(0xa1, 0xb1, CharCount(x), x);
    case Sym(x) => VariableOctets(0xa3, 0xb3, |x|, x);
  }

  lemma FixedScalarInOctets(s: Scalar)
    requires !s.Binary? && !s.Str? && !s.Sym?
    ensures ScalarBytes(NotElem, s) == Outside(s)
    ensures ScalarBytes(First, s) == [ElementCode(KindOf(s))] + Element(s)
    ensures ScalarBytes(Other, s) == Element(s)
  {
    hide BE, Octets, Signed, Octet;
    IntegerOctets(s);
    assert s.I32? ==> [0x54] + [Octet(s.i32)] == [0x54, Octet(s.i32)];
    assert s.I64? ==> [0x55] + [Octet(s.i64)] == [0x55, Octet(s.i64)];
  }

  // ---- compounds ----------------------------------------------------------------------------

  /** A header with the size of what follows it, the number of elements, and the body. */
  function Compound(code8: byte, code32: byte, n: nat, body: bytes): bytes {
    if |body| <= 254 then [code8] + (Octets(|body| + 1, 1) + (Octets(n, 1) + body))
    else [code32] + (Octets(|body| + 4, 4) + (Octets(n, 4) + body))
  }

  function ListOctets(n: nat, body: bytes): bytes {
    if body == [] then [0x45] else Compound(0xc0, 0xd0, n, body)
  }

  function MapOctets(n: nat, body: bytes): bytes {
    Compound(0xc1, 0xd1, n, body)
  }

  lemma CompoundInOctets(code8: byte, code32: byte, n: nat, body: bytes)
    requires |body| <= 0xFFFF_FFFB
    ensures WriteCompound(NotElem, code8, code32, n, body) == Ok(Compound(code8, code32, n, body))
  {
    hide BE, Octets, Pow256;
    Pow256Values();
    if |body| <= 254 {
      OneOctetByPosition(|body| + 1);
      OneOctetByPosition(n);
      assert [code8] + [(|body| + 1) % 256, n % 256] + body == [code8] + ([(|body| + 1) % 256] + ([n % 256] + body));
    } else {
      BEOfLowPart(|body| + 4, 4);
      BEOfLowPart(n, 4);
      var a, b := Octets(|body| + 4, 4), Octets(n, 4);
      assert [code32] + (a + b) + body == [code32] + (a + (b + body));
    }
  }

  lemma HeadersInOctets(n: nat, body: bytes)
    requires |body| <= 0xFFFF_FFFB
    ensures Written(WriteList(NotElem, n, body)) == ListOctets(n, body)
    ensures Written(WriteMap(NotElem, n, body)) == MapOctets(n, body)
    ensures Written(WriteArray(NotElem, n, body)) == Compound(0xe0, 0xf0, n, body)
  {
    hide WriteCompound, Compound;
    CompoundInOctets(0xc0, 0xd0, n, body);
    CompoundInOctets(0xc1, 0xd1, n, body);
    CompoundInOctets(0xe0, 0xf0, n, body);
  }

  /** As the first element of an array a compound is written in full, as a later one without its constructor. */
  lemma HeadersInModes(n: nat, body: bytes)
    requires |body| <= 0xFFFF_FFFB
    ensures WriteList(First, n, body) == WriteList(NotElem, n, body) && WriteMap(First, n, body) == WriteMap(NotElem, n, body)
    ensures WriteArray(First, n, body) == WriteArray(NotElem, n, body)
    ensures body == [] ==> WriteList(Other, n, body) == Ok([0x45])
    ensures body != [] ==> WriteList(Other, n, body) == Ok(Written(WriteList(NotElem, n, body))[1..])
    ensures WriteMap(Other, n, body) == Ok(MapOctets(n, body)[1..])
    ensures WriteArray(Other, n, body) == Ok(Compound(0xe0, 0xf0, n, body)[1..])
  {
    hide BE, Octets;
    HeadersInOctets(n, body);
    WithoutConstructor(0xc0, 0xd0, n, body);
    WithoutConstructor(0xc1, 0xd1, n, body);
    WithoutConstructor(0xe0, 0xf0, n, body);
  }

  lemma WithoutConstructor(code8: byte, code32: byte, n: nat, body: bytes)
    requires |body| <= 0xFFFF_FFFB
    ensures WriteCompound(Other, code8, code32, n, body) == Ok(Compound(code8, code32, n, body)[1..])
    ensures WriteCompound(Other, code8, code32, n, body) == Ok(Written(WriteCompound(NotElem, code8, code32, n, body))[1..])
  {
    hide BE, Octets;
    CompoundInOctets(code8, code32, n, body);
    if |body| <= 254 {
      var a := [(|body| + 1) % 256, n % 256];
      assert ([code8] + a + body)[1..] == a + body;
    } else {
      var a := BE((|body| + 4) % 0x1_0000_0000, 4) + BE(n % 0x1_0000_0000, 4);
      assert ([code32] + a + body)[1..] == a + body;
    }
  }

  function DescriptorOctets(d: Descriptor): bytes {
    [0x00] + Outside(DescriptorScalar(d))
  }

  /** Every encoding in numbers, one constructor deep, in terms of the encodings of its parts. */
  lemma EncodingInOctets(v: Val)
    requires Fits(false, v)
    ensures v.Prim? ==> Encode(false, v) == Outside(v.s)
    ensures v.Unit? || v.Nothing? ==> Encode(false, v) == [0x40]
    ensures v.Just? ==> Encode(false, v) == Encode(false, v.v)
    ensures v.List? || v.Tuple? || v.TupleStruct? ==> Encode(false, v) == ListOctets(|v.vs|, EncodeAll(false, v.vs))
    ensures v.Array? ==> Encode(false, v) == Compound(0xe0, 0xf0, |v.vs|, ArrayBody(First, v.vs))
    ensures v.Map? ==> Encode(false, v) == MapOctets(2 * |v.entries|, EncodeEntries(v.entries))
    ensures v.Described? ==> Encode(false, v) == DescriptorOctets(v.d) + Encode(false, v.v)
    ensures v.Composite? ==> Encode(false, v) == DescriptorOctets(v.d) + ListOctets(Flushed(v.fields), WireBody(v.fields, Flushed(v.fields)))
    ensures v.DescribedMap? ==> Encode(false, v) == DescriptorOctets(v.d) + MapOctets(2 * |v.named|, EncodeNamed(v.named))
    ensures v.UnitVariant? ==> Encode(false, v) == Outside(U32(v.index))
    ensures v.NewtypeVariant? ==> Encode(false, v) == MapOctets(2, Outside(U32(v.index)) + Encode(false, v.v))
    ensures v.TupleVariant? ==> Encode(false, v) == MapOctets(2, Outside(U32(v.index)) + ListOctets(|v.vs|, EncodeAll(false, v.vs)))
    ensures v.Struct? ==> Encode(false, v) == ListOctets(|v.named|, EncodeValues(v.named))
  {
    hide ScalarBytes, Outside, WriteList, WriteMap, WriteArray, ListOctets, MapOctets, Compound, EncodeAll, EncodeEntries, EncodeNamed,
         EncodeValues, WireBody, ArrayBody, Flushed, FieldFits, NamedFits, EntryFits, ScalarFits;
    match v
    case Prim(s) => ScalarInOctets(s);
    case List(vs) => HeadersInOctets(|vs|, EncodeAll(false, vs));
    case Tuple(vs) => HeadersInOctets(|vs|, EncodeAll(false, vs));
    case TupleStruct(vs) => HeadersInOctets(|vs|, EncodeAll(false, vs));
    case Array(vs) => HeadersInOctets(|vs|, ArrayBody(First, vs));
    case Map(es) => HeadersInOctets(2 * |es|, EncodeEntries(es));
    case Described(d, _) => ScalarInOctets(DescriptorScalar(d));
    case Composite(d, fs) =>
      ScalarInOctets(DescriptorScalar(d));
      HeadersInOctets(Flushed(fs), WireBody(fs, Flushed(fs)));
    case DescribedMap(d, ns) =>
      ScalarInOctets(DescriptorScalar(d));
      HeadersInOctets(2 * |ns|, EncodeNamed(ns));
    case UnitVariant(i) => ScalarInOctets(U32(i));
    case NewtypeVariant(i, x) =>
      ScalarInOctets(U32(i));
      HeadersInOctets(2, ScalarBytes(NotElem, U32(i)) + Encode(false, x));
    case TupleVariant(i, vs) =>
      ScalarInOctets(U32(i));
      HeadersInOctets(|vs|, EncodeAll(false, vs));
      HeadersInOctets(2, ScalarBytes(NotElem, U32(i)) + Written(WriteList(NotElem, |vs|, EncodeAll(false, vs))));
    case Struct(ns) => HeadersInOctets(|ns|, EncodeValues(ns));
    case _ =>
  }

  // ---- limits -------------------------------------------------------------------------------

  /** The octets that are constructors. */
  lemma ConstructorsInOctets(b: byte)
    ensures IsCode(b) <==> b in {
                0x00, 0x40, 0x41, 0x42, 0x43, 0x44, 0x45, 0x50, 0x51, 0x52, 0x53, 0x54, 0x55, 0x56, 0x60, 0x61, 0x70, 0x71, 0x72, 0x73,
                0x74, 0x80, 0x81, 0x82, 0x83, 0x84, 0x94, 0x98, 0xa0, 0xa1, 0xa3, 0xb0, 0xb1, 0xb3, 0xc0, 0xc1, 0xd0, 0xd1, 0xe0, 0xf0}
  {
  }

  /** What is too long to be written, and what is too many to be read. */
  lemma LimitsInNumbers(s: Scalar, n: nat, body: bytes)
    ensures s.Binary? ==> (ScalarFits(NotElem, s) <==> |s.bin| <= 4294967291)
    ensures s.Str? ==> (ScalarFits(NotElem, s) <==> |s.str| <= 4294967291)
    ensures s.Sym? ==> (ScalarFits(NotElem, s) <==> |s.sym| <= 4294967291)
    ensures !s.Binary? && !s.Str? && !s.Sym? ==> ScalarFits(NotElem, s)
    ensures ScalarFits(First, s) && ScalarFits(Other, s)
    ensures WriteList(NotElem, n, body) == Err(TooLong) <==> |body| > 4294967291
    ensures WriteMap(NotElem, n, body) == Err(TooLong) <==> |body| > 4294967291
    ensures WriteArray(NotElem, n, body) == Err(TooLong) <==> |body| > 4294967291
    ensures MAX_COUNT == 65536
  {
  }
}
