/** What the decoder answers when it refuses its input. */
module Refusals {
  import opened Bytes
  import opened Utf8
  import opened FormatCodes
  import opened Values
  import opened Wire
  import opened Decoder
  import opened Modes
  import opened Scalars
  import opened Headers
  import opened RoundTrip
  import opened Numbers
  import opened Forms
  import opened Transparent

  /** The constructor of another type; the decimals are told apart by their width alone. */
  predicate OtherType(c: byte, k: Kind) {
    && IsCode(c) && ValueTypeOf(c) != ScalarType(k)
    && !((k == KDec32 || k == KDec64 || k == KDec128) && (c == 0x74 || c == 0x84 || c == 0x94))
  }

  /** Nothing to read, no constructor, or the constructor of another type. */
  lemma WrongConstructor(input: bytes, k: Kind, encoding: StructEncoding)
    ensures input == [] ==> DecodeScalar(Fresh(input, encoding), k) == Err(UnexpectedEof)
    ensures input != [] && !IsCode(input[0]) ==> DecodeScalar(Fresh(input, encoding), k) == Err(InvalidFormatCode)
    ensures input != [] && OtherType(input[0], k) ==> DecodeScalar(Fresh(input, encoding), k) == Err(InvalidFormatCode)
  {
    hide FromBE, FromTwos, IsCode, Take, TakePrefixed, Next, ReadCode, Valid, ValueTypeOf;
    var d := Fresh(input, encoding);
    FirstCode(d);
    if input != [] && IsCode(input[0]) { TypeOfCode(input[0]); }
    assert d.(nonNative := None) == d && d.(nonNative := Some(NSymbol)).(nonNative := None) == d;
  }

  lemma FirstCode(d: State)
    requires d.elem == None
    ensures d.rest == [] ==> ReadCode(d) == Err(UnexpectedEof)
    ensures d.rest != [] && !IsCode(d.rest[0]) ==> ReadCode(d) == Err(InvalidFormatCode)
    ensures d.rest != [] && IsCode(d.rest[0]) ==> ReadCode(d) == Ok((d.rest[0], d.(rest := d.rest[1..])))
  {
    hide IsCode;
  }

  lemma TypeOfCode(c: byte)
    requires IsCode(c)
    ensures c == BOOLEAN || c == BOOLEAN_TRUE || c == BOOLEAN_FALSE ==> ValueTypeOf(c) == ScalarType(KBool)
    ensures c == BYTE ==> ValueTypeOf(c) == ScalarType(KI8)
    ensures c == SHORT ==> ValueTypeOf(c) == ScalarType(KI16)
    ensures c == INT || c == SMALL_INT ==> ValueTypeOf(c) == ScalarType(KI32)
    ensures c == LONG || c == SMALL_LONG ==> ValueTypeOf(c) == ScalarType(KI64)
    ensures c == UBYTE ==> ValueTypeOf(c) == ScalarType(KU8)
    ensures c == USHORT ==> ValueTypeOf(c) == ScalarType(KU16)
    ensures c == UINT || c == SMALL_UINT || c == UINT0 ==> ValueTypeOf(c) == ScalarType(KU32)
    ensures c == ULONG || c == SMALL_ULONG || c == ULONG0 ==> ValueTypeOf(c) == ScalarType(KU64)
    ensures c == FLOAT ==> ValueTypeOf(c) == ScalarType(KF32)
    ensures c == DOUBLE ==> ValueTypeOf(c) == ScalarType(KF64)
    ensures c == CHAR ==> ValueTypeOf(c) == ScalarType(KChar)
    ensures c == TIMESTAMP ==> ValueTypeOf(c) == ScalarType(KTimestamp)
    ensures c == UUID ==> ValueTypeOf(c) == ScalarType(KUuid)
    ensures c == VBIN8 || c == VBIN32 ==> ValueTypeOf(c) == ScalarType(KBinary)
    ensures c == STR8 || c == STR32 ==> ValueTypeOf(c) == ScalarType(KStr)
    ensures c == SYM8 || c == SYM32 ==> ValueTypeOf(c) == ScalarType(KSym)
  {
  }

  /** The right constructor in front of what is no value of its type. */
  lemma BadContent(b: byte, x: bytes, r: bytes, encoding: StructEncoding)
    requires |x| <= 255
    ensures b > 1 ==> DecodeScalar(Fresh([0x56, b] + r, encoding), KBool) == Err(InvalidValue)
    ensures !Valid(x) ==> DecodeScalar(Fresh([0xa1, |x|] + x + r, encoding), KStr) == Err(InvalidUtf8)
    ensures !Valid(x) ==> DecodeScalar(Fresh([0xa3, |x|] + x + r, encoding), KSym) == Err(InvalidUtf8)
  {
    hide IsCode, Valid, TakePrefixed, ReadCode;
    BadText(0xa1, x, r, encoding);
    BadText(0xa3, x, r, encoding);
    var d := Fresh([0x56, b] + r, encoding);
    assert d.rest == [0x56] + ([b] + r);
    CodesInNumbers(KBool);
    ReadFront(d, 0x56, [b] + r);
    var e := Fresh([0xa3, |x|] + x + r, encoding);
    assert e.(nonNative := Some(NSymbol)).(nonNative := None) == e;
  }

  lemma BadText(c: byte, x: bytes, r: bytes, encoding: StructEncoding)
    requires |x| <= 255 && (c == 0xa1 || c == 0xa3)
    ensures var d := Fresh([c, |x|] + x + r, encoding);
            ReadCode(d).Ok? && ReadCode(d).value.0 == c && TakePrefixed(ReadCode(d).value.1, false) == Ok((x, Fresh(r, encoding)))
  {
    hide TakePrefixed, BE;
    var d := Fresh([c, |x|] + x + r, encoding);
    OneOctet(|x|);
    var tail := BE(|x|, 1) + (x + r);
    assert d.rest == [c] + tail;
    ReadFront(d, c, tail);
    PrefixedFront(d.(rest := tail), x, false, r);
  }

  /** A tuple wants as many elements as it has, in a list of whatever width. */
  lemma TupleLengthMismatch(n: nat, l: nat, h: bytes, ts: seq<Ty>, r: bytes, encoding: StructEncoding)
    requires ListForm(n, l, h) && n != |ts|
    ensures Decode(Fresh(h + r, encoding), TTuple(ts)) == Err(SequenceLengthMismatch)
  {
    hide ReadCode, SizeAndCount, HeaderForm, DecodeTuple;
    var d := Fresh(h + r, encoding);
    if HeaderForm(0xc0, 0xd0, n, l, h) {
      HeaderFormFront(d, 0xc0, 0xd0, n, l, h, r);
    } else {
      ReadFront(d, 0x45, r);
    }
  }

  /** More elements than the cap, under a header that can say so. */
  lemma TooManyElements(n: nat, l: nat, h: bytes, t: Ty, u: Ty, r: bytes, encoding: StructEncoding)
    requires n > 65536
    ensures ListForm(n, l, h) ==> Decode(Fresh(h + r, encoding), TSeq(t)) == Err(InvalidValue)
    ensures HeaderForm(0xc1, 0xd1, n, l, h) ==> Decode(Fresh(h + r, encoding), TMap(t, u)) == Err(InvalidValue)
    ensures HeaderForm(0xe0, 0xf0, n, l, h) ==> Decode(Fresh(h + r, encoding), TSeq(t)) == Err(InvalidValue)
  {
    hide ReadCode, SizeAndCount, DecodeList, DecodeElements, DecodeEntries, Octets;
    var d := Fresh(h + r, encoding);
    ArrayCodes();
    if ListForm(n, l, h) { HeaderFormFront(d, 0xc0, 0xd0, n, l, h, r); }
    if HeaderForm(0xc1, 0xd1, n, l, h) { HeaderFormFront(d, 0xc1, 0xd1, n, l, h, r); }
    if HeaderForm(0xe0, 0xf0, n, l, h) { HeaderFormFront(d, 0xe0, 0xf0, n, l, h, r); }
  }

  /** A list that ends in front of a mandatory field. */
  lemma {:induction false} MandatoryFieldMissing(fts: seq<FieldTy>, left: nat, d: State)
    requires (left == 0 || d.rest == []) && exists i :: 0 <= i < |fts| && fts[i].attr.Mandatory?
    ensures DecodeFields(d, left, fts) == Err(Message)
    decreases |fts|
  {
    hide DecodeField;
    if !fts[0].attr.Mandatory? {
      var i :| 0 <= i < |fts| && fts[i].attr.Mandatory?;
      assert fts[1..][i - 1].attr.Mandatory?;
      MandatoryFieldMissing(fts[1..], left, d);
    }
  }
}
