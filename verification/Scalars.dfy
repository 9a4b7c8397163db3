/** Every scalar decodes to itself, from its compact form, its wide form and as an array element. */
module Scalars {
  import opened Bytes
  import opened Utf8
  import opened FormatCodes
  import opened Values
  import opened Wire
  import opened Decoder
  import opened Modes

  /** The constructor shared by all elements of an array of one scalar type. */
  function WideCode(k: Kind): byte {
    match k
    case KBool => BOOLEAN
    case KI8 => BYTE
    case KI16 => SHORT
    case KI32 => INT
    case KI64 => LONG
    case KU8 => UBYTE
    case KU16 => USHORT
    case KU32 => UINT
    case KU64 => ULONG
    case KF32 => FLOAT
    case KF64 => DOUBLE
    case KChar => CHAR
    case KTimestamp => TIMESTAMP
    case KDec32 => DECIMAL32
    case KDec64 => DECIMAL64
    case KDec128 => DECIMAL128
    case KUuid => UUID
    case KBinary => VBIN32
    case KStr => STR32
    case KSym => SYM32
  }

  /** What the decoder takes for the octets after the wide constructor of `s`. */
  function WideBody(s: Scalar): bytes {
    match s
    case Str(x) => BE(|x| % 0x1_0000_0000, 4) + x
    case _ => ScalarBytes(Other, s)
  }

  /** The length prefix of a variable-width scalar is not truncated. */
  predicate ShortEnough(s: Scalar) {
    match s
    case Binary(x) => |x| < 0x1_0000_0000
    case Str(x) => |x| < 0x1_0000_0000
    case Sym(x) => |x| < 0x1_0000_0000
    case _ => true
  }

  predicate AsciiIfStr(s: Scalar) {
    s.Str? ==> Ascii(s.str)
  }

  /** Array factoring: the first element is one constructor followed by the other-element form. */
  lemma FirstIsCodeThenOther(s: Scalar)
    ensures ScalarBytes(First, s) == [WideCode(KindOf(s))] + ScalarBytes(Other, s)
  {
    hide BE, Signed, Octet, Variable;
    match s
    case Binary(x) => VariableFactors(VBIN8, VBIN32, |x|, x);
    case Str(x) => VariableFactors(STR8, STR32, CharCount(x), x);
    case Sym(x) => VariableFactors(SYM8, SYM32, |x|, x);
    case _ =>
  }

  lemma VariableFactors(code8: byte, code32: byte, l: nat, x: bytes)
    ensures Variable(First, code8, code32, l, x) == [code32] + Variable(Other, code8, code32, l, x)
    ensures l > 254 ==> Variable(NotElem, code8, code32, l, x) == [code32] + Variable(Other, code8, code32, l, x)
    ensures Variable(Other, code8, code32, l, x) == BE(l % 0x1_0000_0000, 4) + x
  {
    hide BE;
    var b := BE(l % 0x1_0000_0000, 4);
    assert [code32] + b + x == [code32] + (b + x);
  }

  lemma OtherIsWideBody(s: Scalar)
    requires AsciiIfStr(s)
    ensures ScalarBytes(Other, s) == WideBody(s)
  {
    if s.Str? { CharCountIsByteCount(s.str); }
  }

  // ---- reading what was written -------------------------------------------------------------

  lemma TakeFront(d: State, a: bytes, r: bytes)
    requires d.rest == a + r
    ensures Take(d, |a|) == Ok((a, d.(rest := r)))
  {
  }

  lemma TakeBEFront(d: State, n: nat, w: nat, r: bytes)
    requires d.rest == BE(n, w) + r && n < Pow256(w)
    ensures TakeBE(d, w) == Ok((n, d.(rest := r)))
  {
    TakeFront(d, BE(n, w), r);
    BERoundTrip(n, w);
  }

  lemma OneOctet(n: byte)
    ensures BE(n, 1) == [n] && FromBE([n]) == n && Pow256(1) == 256
  {
    assert BE(n, 1) == BE(0, 0) + [n];
    assert [n][..0] == [];
  }

  lemma ReadFront(d: State, c: byte, r: bytes)
    requires d.rest == [c] + r && d.elem == None && IsCode(c)
    ensures ReadCode(d) == Ok((c, d.(rest := r)))
    ensures PeekCode(d) == Ok(c) && PeekByte(d) == Ok(c)
  {
  }

  lemma PrefixedFront(d: State, x: bytes, wide: bool, r: bytes)
    requires |x| < if wide then 0x1_0000_0000 else 256
    requires d.rest == BE(|x|, if wide then 4 else 1) + (x + r)
    ensures TakePrefixed(d, wide) == Ok((x, d.(rest := r)))
  {
    hide BE, Take, TakeBE, Pow256;
    Pow256Values();
    var w := if wide then 4 else 1;
    TakeBEFront(d, |x|, w, x + r);
    TakeFront(d.(rest := x + r), x, r);
  }

  /** Variable-width scalars: `c` has been read, the prefix and the octets follow. */
  lemma VariableFront(d: State, p: State, s: Scalar, wide: bool, x: bytes, r: bytes)
    requires d.nonNative == None && p.nonNative == None
    requires s == Binary(x) || (Valid(x) && (s == Str(x) || s == Sym(x)))
    requires ReadCode(d) == Ok((if wide then WideCode(KindOf(s)) else NarrowCode(s), p))
    requires |x| < if wide then 0x1_0000_0000 else 256
    requires p.rest == BE(|x|, if wide then 4 else 1) + (x + r)
    ensures DecodeScalar(d, KindOf(s)) == Ok((s, p.(rest := r)))
  {
    hide ReadCode, TakePrefixed, BE, Valid;
    PrefixedFront(p, x, wide, r);
    assert d.(nonNative := Some(NSymbol)).(nonNative := None) == d;
  }

  function NarrowCode(s: Scalar): byte {
    match s
    case Binary(_) => VBIN8
    case Str(_) => STR8
    case Sym(_) => SYM8
    case _ => NULL
  }

  /** The remaining wide forms: a fixed number of octets. */
  lemma FixedFront(d: State, p: State, s: Scalar, r: bytes)
    requires d.nonNative == None && p.nonNative == None
    requires !s.Binary? && !s.Str? && !s.Sym?
    requires ReadCode(d) == Ok((WideCode(KindOf(s)), p))
    requires p.rest == ScalarBytes(Other, s) + r
    ensures DecodeScalar(d, KindOf(s)) == Ok((s, p.(rest := r)))
  {
    hide ReadCode, BE, FromBE, Pow256;
    Pow256Values();
    assert d.(nonNative := None) == d;
    var b := ScalarBytes(Other, s);
    TakeFront(p, b, r);
    assert |b| == 1 ==> Next(p) == Ok((b[0], p.(rest := r)));
    match s
    case I16(i) => SignedRoundTrip(i, 2);
    case I32(i) => SignedRoundTrip(i, 4);
    case I64(i) => SignedRoundTrip(i, 8);
    case Timestamp(i) => SignedRoundTrip(i, 8);
    case U16(i) => BERoundTrip(i, 2);
    case U32(i) => BERoundTrip(i, 4);
    case U64(i) => BERoundTrip(i, 8);
    case Char(c) => BERoundTrip(c, 4);
    case _ =>
  }

  lemma WideBodyOf(s: Scalar)
    requires ShortEnough(s)
    ensures s.Binary? ==> WideBody(s) == BE(|s.bin|, 4) + s.bin
    ensures s.Str? ==> WideBody(s) == BE(|s.str|, 4) + s.str
    ensures s.Sym? ==> WideBody(s) == BE(|s.sym|, 4) + s.sym
    ensures !s.Binary? && !s.Str? && !s.Sym? ==> WideBody(s) == ScalarBytes(Other, s)
  {
    hide BE, Signed, Octet;
  }

  /** Any scalar after its wide constructor, read from the input or set for an array. */
  lemma WideDecodes(d: State, p: State, s: Scalar, r: bytes)
    requires d.nonNative == None && p.nonNative == None
    requires ShortEnough(s)
    requires ReadCode(d) == Ok((WideCode(KindOf(s)), p))
    requires p.rest == WideBody(s) + r
    ensures DecodeScalar(d, KindOf(s)) == Ok((s, p.(rest := r)))
  {
    hide ReadCode, DecodeScalar, ScalarBytes, WideBody, BE, WideCode, NarrowCode;
    WideBodyOf(s);
    if s.Binary? || s.Str? || s.Sym? {
      var x := if s.Binary? then s.bin else if s.Str? then s.str else s.sym;
      assert BE(|x|, 4) + x + r == BE(|x|, 4) + (x + r);
      VariableFront(d, p, s, true, x, r);
    } else {
      FixedFront(d, p, s, r);
    }
  }

  /** The forms that exist only outside arrays: no octets, or one. */
  predicate Compact(s: Scalar) {
    match s
    case Bool(_) => true
    case I32(i) => -128 <= i <= 127
    case I64(i) => -128 <= i <= 127
    case U32(i) => i <= 255
    case U64(i) => i <= 255
    case Binary(x) => |x| <= 254
    case Str(x) => |x| <= 254
    case Sym(x) => |x| <= 254
    case _ => false
  }

  lemma SmallIntegerDecodes(s: Scalar, r: bytes, encoding: StructEncoding)
    requires Compact(s) && !s.Binary? && !s.Str? && !s.Sym?
    ensures DecodeScalar(Fresh(ScalarBytes(NotElem, s) + r, encoding), KindOf(s)) == Ok((s, Fresh(r, encoding)))
  {
    hide ReadCode;
    var b := ScalarBytes(NotElem, s);
    var d := Fresh(b + r, encoding);
    assert d.rest == [b[0]] + (b[1..] + r);
    ReadFront(d, b[0], b[1..] + r);
    if |b| == 1 { assert b[1..] + r == r; } else { assert b[1..] + r == [b[1]] + r; }
  }

  lemma SmallVariableDecodes(s: Scalar, x: bytes, r: bytes, encoding: StructEncoding)
    requires s == Binary(x) || (Valid(x) && (s == Str(x) || s == Sym(x)))
    requires |x| <= 254
    ensures DecodeScalar(Fresh(ScalarBytes(NotElem, s) + r, encoding), KindOf(s)) == Ok((s, Fresh(r, encoding)))
  {
    hide ReadCode, DecodeScalar;
    var d := Fresh(ScalarBytes(NotElem, s) + r, encoding);
    OneOctet(|x|);
    assert d.rest == [NarrowCode(s)] + (BE(|x|, 1) + (x + r));
    ReadFront(d, NarrowCode(s), BE(|x|, 1) + (x + r));
    VariableFront(d, d.(rest := BE(|x|, 1) + (x + r)), s, false, x, r);
  }

  lemma NotCompactIsWide(s: Scalar)
    requires ScalarFits(NotElem, s) && !Compact(s)
    ensures ShortEnough(s) && ScalarBytes(NotElem, s) == [WideCode(KindOf(s))] + WideBody(s)
    ensures IsCode(WideCode(KindOf(s)))
  {
    hide BE, Signed, Octet, Variable;
    match s
    case Binary(x) => VariableFactors(VBIN8, VBIN32, |x|, x);
    case Str(x) => VariableFactors(STR8, STR32, |x|, x);
    case Sym(x) => VariableFactors(SYM8, SYM32, |x|, x);
    case _ =>
  }

  /** A scalar written outside an array, whatever follows it, decodes to itself and stops there. */
  lemma ScalarRoundTrip(s: Scalar, r: bytes, encoding: StructEncoding)
    requires ScalarFits(NotElem, s)
    ensures DecodeScalar(Fresh(ScalarBytes(NotElem, s) + r, encoding), KindOf(s)) == Ok((s, Fresh(r, encoding)))
  {
    hide ReadCode, DecodeScalar, ScalarBytes, WideBody, IsCode;
    if Compact(s) {
      match s
      case Binary(x) => SmallVariableDecodes(s, x, r, encoding);
      case Str(x) => SmallVariableDecodes(s, x, r, encoding);
      case Sym(x) => SmallVariableDecodes(s, x, r, encoding);
      case _ => SmallIntegerDecodes(s, r, encoding);
    } else {
      NotCompactIsWide(s);
      var d := Fresh(ScalarBytes(NotElem, s) + r, encoding);
      var c := WideCode(KindOf(s));
      assert d.rest == [c] + (WideBody(s) + r);
      ReadFront(d, c, WideBody(s) + r);
      WideDecodes(d, d.(rest := WideBody(s) + r), s, r);
    }
  }
}
