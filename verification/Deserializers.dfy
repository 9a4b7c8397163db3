/**
 The deserializer as the object it is: the unread slice and the mode fields, updated in place; the
 accessors are loops over it. Every method is proved to do what `Decoder` says, on any input.
 */
module Deserializers {
  import opened Bytes
  import opened Utf8
  import opened FormatCodes
  import opened Values
  import opened Decoder

  class Deserializer {
    var slice: bytes
    const initialLen: nat
    var elem: Option<byte>
    var nonNative: Option<NonNative>
    var enumType: EnumType
    var encoding: StructEncoding

    constructor (input: bytes)
      ensures Now() == State(input, None, None, ENone, NoEnc)
    {
      slice, initialLen := input, |input|;
      elem, nonNative, enumType, encoding := None, None, ENone, NoEnc;
    }

    ghost function Now(): State
      reads this
    {
      State(slice, elem, nonNative, enumType, encoding)
    }

    /** The call gave `o`'s value and moved to `o`'s state, or failed as `o` does. */
    ghost predicate Did<T>(o: Outcome<(T, State)>, r: Outcome<T>)
      reads this
    {
      match o
      case Ok((x, d)) => r == Ok(x) && Now() == d
      case Err(e) => r == Err(e)
      case Panic => r == Panic
    }

    function BytesConsumed(): int
      reads this
    {
      initialLen - |slice|
    }

    // ---- reading ----------------------------------------------------------------------------

    method ReadByte() returns (r: Outcome<byte>)
      modifies this`slice
      ensures Did(Next(old(Now())), r)
    {
      if slice == [] { return Err(UnexpectedEof); }
      r := Ok(slice[0]);
      slice := slice[1..];
    }

    method ReadBytes(n: nat) returns (r: Outcome<bytes>)
      modifies this`slice
      ensures Did(Take(old(Now()), n), r)
    {
      if |slice| < n { return Err(UnexpectedEof); }
      r := Ok(slice[..n]);
      slice := slice[n..];
    }

    method ReadBE(w: nat) returns (r: Outcome<nat>)
      modifies this`slice
      ensures Did(TakeBE(old(Now()), w), r)
    {
      var x :- ReadBytes(w);
      r := Ok(FromBE(x));
    }

    method ReadConstructor() returns (r: Outcome<byte>)
      modifies this`slice
      ensures Did(ReadFormatCode(old(Now())), r)
    {
      hide IsCode;
      var c :- ReadByte();
      r := if IsCode(c) then Ok(c) else Err(InvalidFormatCode);
    }

    method ElemCodeOrRead() returns (r: Outcome<byte>)
      modifies this`slice
      ensures Did(ReadCode(old(Now())), r)
    {
      hide ReadFormatCode;
      if elem.Some? { r := Ok(elem.value); } else { r := ReadConstructor(); }
    }

    method ElemCodeOrPeek() returns (r: Outcome<byte>)
      ensures r == PeekByte(Now())
    {
      r := if elem.Some? then Ok(elem.value) else if slice == [] then Err(UnexpectedEof) else Ok(slice[0]);
    }

    method PeekConstructor() returns (r: Outcome<byte>)
      ensures r == PeekCode(Now())
    {
      hide IsCode;
      var c :- ElemCodeOrPeek();
      r := if IsCode(c) then Ok(c) else Err(InvalidFormatCode);
    }

    // ---- scalars ----------------------------------------------------------------------------

    method Fixed(code: byte, w: nat) returns (r: Outcome<bytes>)
      modifies this`slice
      ensures Did(ParseFixed(old(Now()), code, w), r)
    {
      hide ReadCode;
      var c :- ElemCodeOrRead();
      if c != code { return Err(InvalidFormatCode); }
      r := ReadBytes(w);
    }

    method Prefixed(wide: bool) returns (r: Outcome<bytes>)
      modifies this`slice
      ensures Did(TakePrefixed(old(Now()), wide), r)
    {
      hide FromBE;
      var l :- ReadBE(if wide then 4 else 1);
      r := ReadBytes(l);
    }

    method VariableWidth(code8: byte, code32: byte) returns (r: Outcome<bytes>)
      modifies this`slice
      ensures Did(ParseVariable(old(Now()), code8, code32), r)
    {
      hide ReadCode, TakePrefixed;
      var c :- ElemCodeOrRead();
      if c == code8 {
        r := Prefixed(false);
      } else if c == code32 {
        r := Prefixed(true);
      } else {
        r := Err(InvalidFormatCode);
      }
    }

    method Text(code8: byte, code32: byte) returns (r: Outcome<str>)
      modifies this`slice
      ensures Did(ParseText(old(Now()), code8, code32), r)
    {
      hide ParseVariable, Valid;
      var x :- VariableWidth(code8, code32);
      r := if Valid(x) then Ok(x) else Err(InvalidUtf8);
    }

    method Decimal(w: nat) returns (r: Outcome<bytes>)
      modifies this`slice
      ensures Did(ParseDecimal(old(Now()), w), r)
    {
      hide ReadCode;
      var c :- ElemCodeOrRead();
      if c != DECIMAL32 && c != DECIMAL64 && c != DECIMAL128 { return Err(InvalidFormatCode); }
      var x :- ReadBytes(if c == DECIMAL32 then 4 else if c == DECIMAL64 then 8 else 16);
      r := if |x| == w then Ok(x) else Err(Message);
    }

    method Boolean() returns (r: Outcome<Scalar>)
      modifies this`slice
      ensures Did(ParseBool(old(Now())), r)
    {
      hide ReadCode;
      var c :- ElemCodeOrRead();
      if c == BOOLEAN {
        var b :- ReadByte();
        r := if b == 0 then Ok(Bool(false)) else if b == 1 then Ok(Bool(true)) else Err(InvalidValue);
      } else {
        r := if c == BOOLEAN_TRUE then Ok(Bool(true)) else if c == BOOLEAN_FALSE then Ok(Bool(false))
             else Err(InvalidFormatCode);
      }
    }

    /** `parse_i32`, `parse_i64`, `parse_u32` and `parse_u64`: one wide and one or two compact forms. */
    method Integer(k: Kind) returns (r: Outcome<Scalar>)
      requires k == KI32 || k == KI64 || k == KU32 || k == KU64
      modifies this`slice
      ensures k == KI32 ==> Did(ParseI32(old(Now())), r)
      ensures k == KI64 ==> Did(ParseI64(old(Now())), r)
      ensures k == KU32 ==> Did(ParseU32(old(Now())), r)
      ensures k == KU64 ==> Did(ParseU64(old(Now())), r)
    {
      hide ReadCode, FromBE, FromTwos;
      Pow256Values();
      var c :- ElemCodeOrRead();
      if (k == KI32 && c == INT) || (k == KU32 && c == UINT) {
        var x :- ReadBytes(4);
        r := Ok(if k == KI32 then I32(Signed32(x)) else U32(FromBE(x)));
      } else if (k == KI64 && c == LONG) || (k == KU64 && c == ULONG) {
        var x :- ReadBytes(8);
        r := Ok(if k == KI64 then I64(Signed64(x)) else U64(FromBE(x)));
      } else if (k == KI32 && c == SMALL_INT) || (k == KI64 && c == SMALL_LONG) {
        var b :- ReadByte();
        r := Ok(if k == KI32 then I32(SignedOctet(b)) else I64(SignedOctet(b)));
      } else if (k == KU32 && c == SMALL_UINT) || (k == KU64 && c == SMALL_ULONG) {
        var b :- ReadByte();
        r := Ok(if k == KU32 then U32(b) else U64(b));
      } else {
        r := if k == KU32 && c == UINT0 then Ok(U32(0)) else if k == KU64 && c == ULONG0 then Ok(U64(0))
             else Err(InvalidFormatCode);
      }
    }

    method Milliseconds() returns (r: Outcome<i64>)
      modifies this`slice
      ensures Did(ParseTimestamp(old(Now())), r)
    {
      hide ParseFixed, FromBE, FromTwos;
      var x :- Fixed(TIMESTAMP, 8);
      r := Ok(Signed64(x));
    }

    method String() returns (r: Outcome<str>)
      modifies this`slice, this`nonNative
      ensures Did(DecodeString(old(Now())), r)
    {
      hide ParseText;
      if nonNative == Some(NSymbol) {
        nonNative := None;
        r := Text(SYM8, SYM32);
      } else {
        r := Text(STR8, STR32);
      }
    }

    method Symbol() returns (r: Outcome<str>)
      modifies this`slice, this`nonNative
      ensures Did(DecodeSymbol(old(Now())), r)
    {
      hide DecodeString;
      nonNative := Some(NSymbol);
      r := String();
    }

    /** The scalar types; the newtypes announce themselves in `nonNative` before they forward. */
    method Scalar(k: Kind) returns (r: Outcome<Scalar>)
      modifies this`slice, this`nonNative
      ensures Did(DecodeScalar(old(Now()), k), r)
    {
      hide ParseFixed, ParseBool, ParseI32, ParseI64, ParseU32, ParseU64, ParseDecimal, ParseVariable, ParseTimestamp,
           DecodeString, DecodeSymbol, FromBE, FromTwos;
      Pow256Values();
      match k
      case KBool => r := Boolean();
      case KI8 => var x :- Fixed(BYTE, 1); r := Ok(I8(SignedOctet(x[0])));
      case KI16 => var x :- Fixed(SHORT, 2); r := Ok(I16(Signed16(x)));
      case KI32 => r := Integer(k);
      case KI64 =>
        if nonNative == Some(NTimestamp) {
          nonNative := None;
          var i :- Milliseconds();
          r := Ok(I64(i));
        } else {
          r := Integer(k);
        }
      case KU8 => var x :- Fixed(UBYTE, 1); r := Ok(U8(x[0]));
      case KU16 => var x :- Fixed(USHORT, 2); r := Ok(U16(FromBE(x)));
      case KU32 => r := Integer(k);
      case KU64 => r := Integer(k);
      case KF32 => var x :- Fixed(FLOAT, 4); r := Ok(F32(x));
      case KF64 => var x :- Fixed(DOUBLE, 8); r := Ok(F64(x));
      case KChar =>
        var x :- Fixed(CHAR, 4);
        var n := FromBE(x);
        r := if 0 <= n < 0xD800 || 0xE000 <= n < 0x11_0000 then Ok(Char(n)) else Err(InvalidValue);
      case KTimestamp => nonNative := None; var i :- Milliseconds(); r := Ok(Timestamp(i));
      case KDec32 => nonNative := None; var x :- Decimal(4); r := Ok(Dec32(x));
      case KDec64 => nonNative := None; var x :- Decimal(8); r := Ok(Dec64(x));
      case KDec128 => nonNative := None; var x :- Decimal(16); r := Ok(Dec128(x));
      case KUuid => nonNative := None; var x :- Fixed(UUID, 16); r := Ok(Uuid(x));
      case KBinary =>
        if nonNative.Some? { return Panic; }
        var x :- VariableWidth(VBIN8, VBIN32);
        r := Ok(Binary(x));
      case KStr => var x :- String(); r := Ok(Str(x));
      case KSym => var x :- Symbol(); r := Ok(Sym(x));
    }

    // ---- headers ----------------------------------------------------------------------------

    method SizeCount(wide: bool) returns (r: Outcome<(nat, nat)>)
      modifies this`slice
      ensures Did(SizeAndCount(old(Now()), wide), r)
    {
      hide TakeBE;
      var size :- ReadBE(if wide then 4 else 1);
      var count :- ReadBE(if wide then 4 else 1);
      r := Ok((size, count));
    }

    method SeqConstructor() returns (r: Outcome<SeqHeader>)
      modifies this`slice, this`elem
      ensures Did(SeqHead(old(Now())), r)
    {
      hide ReadCode, SizeAndCount, ReadFormatCode;
      var c :- ElemCodeOrRead();
      if c == LIST0 {
        return Ok(ListHeader(0));
      } else if c == ARRAY8 || c == ARRAY32 {
        var p :- SizeCount(c == ARRAY32);
        var size, count := p.0, p.1;
        if count > MAX_COUNT || count > size { return Err(InvalidValue); }
        if count == 0 { return Ok(ArrayHeader(size, 0)); }
        var code :- ReadConstructor();
        var offset := if c == ARRAY32 then 5 else 2;
        if size < offset { return Panic; }
        elem := Some(code);
        return Ok(ArrayHeader(size - offset, count));
      } else if c == LIST8 || c == LIST32 {
        var p :- SizeCount(c == LIST32);
        var size, count := p.0, p.1;
        if c == LIST32 && count > MAX_COUNT { return Err(InvalidValue); }
        if size < (if c == LIST32 then 4 else 1) { return Panic; }
        elem := None;
        return Ok(ListHeader(count));
      } else {
        return Err(InvalidFormatCode);
      }
    }

    method TupleConstructor(len: nat) returns (r: Outcome<()>)
      modifies this`slice, this`elem
      ensures TupleHead(old(Now()), len).Ok? ==> r == Ok(()) && Now() == TupleHead(old(Now()), len).value
      ensures !TupleHead(old(Now()), len).Ok? ==> r == TupleHead(old(Now()), len).PropagateFailure<()>()
    {
      hide ReadCode, SizeAndCount;
      var c :- ElemCodeOrRead();
      var count := 0;
      if c == LIST8 || c == LIST32 {
        var p :- SizeCount(c == LIST32);
        var size, n := p.0, p.1;
        if size < (if c == LIST32 then 4 else 1) { return Panic; }
        elem, count := None, n;
      } else if c != LIST0 {
        return Err(InvalidFormatCode);
      }
      r := if count == len then Ok(()) else Err(SequenceLengthMismatch);
    }

    method MapConstructor() returns (r: Outcome<nat>)
      modifies this`slice
      ensures Did(MapHead(old(Now())), r)
    {
      hide ReadCode, SizeAndCount;
      var c :- ElemCodeOrRead();
      if c != MAP8 && c != MAP32 { return Err(InvalidFormatCode); }
      var p :- SizeCount(c == MAP32);
      var size, count := p.0, p.1;
      if c == MAP32 && count > MAX_COUNT { return Err(InvalidValue); }
      if size < (if c == MAP32 then 4 else 1) { return Panic; }
      r := Ok(count);
    }

    method ListCount() returns (r: Outcome<nat>)
      modifies this`slice
      ensures Did(FieldCount(old(Now())), r)
    {
      hide ReadCode, SizeAndCount;
      var c :- ElemCodeOrRead();
      if c == LIST0 { return Ok(0); }
      if c != LIST8 && c != LIST32 { return Err(Message); }
      var p :- SizeCount(c == LIST32);
      r := if p.1 < 0xFFFF_FFFF then Ok(p.1) else Panic;
    }

    method ReadDescriptor() returns (r: Outcome<Descriptor>)
      modifies this`slice, this`nonNative, this`enumType
      ensures Did(DecodeDescriptor(old(Now())), r)
    {
      hide DecodeSymbol, ParseU64;
      var saved := enumType;
      var b :- ReadByte();
      if b != DESCRIBED { return Err(InvalidFormatCode); }
      enumType := ENone;
      var c :- ElemCodeOrPeek();
      if c == SYM8 || c == SYM32 {
        var x :- Symbol();
        r := Ok(Name(x));
      } else if c == ULONG || c == SMALL_ULONG || c == ULONG0 {
        var x :- Integer(KU64);
        r := Ok(Code(x.u64));
      } else {
        return Err(Message);
      }
      enumType := saved;
    }

    method FirstOfDescribed() returns (r: Outcome<Descriptor>)
      modifies this`slice, this`nonNative, this`enumType
      ensures Did(DescribedHead(old(Now())), r)
    {
      hide DecodeDescriptor, IsCode;
      if slice == [] { return Err(Message); }
      if !IsCode(slice[0]) { return Err(InvalidFormatCode); }
      r := ReadDescriptor();
    }

    // ---- values -----------------------------------------------------------------------------

    method Deserialize(t: Ty) returns (r: Outcome<Val>)
      modifies this
      ensures Did(Decode(old(Now()), t), r)
      decreases t, 1, 0
    {
      hide DecodeScalar, ReadCode, TupleHead, MapHead;
      match t
      case TPrim(k) => var s :- Scalar(k); r := Ok(Prim(s));
      case TUnit => var c :- ElemCodeOrRead(); r := if c == NULL then Ok(Unit) else Err(InvalidFormatCode);
      case TOption(u) => r := DeserializeOption(u);
      case TSeq(u) => var vs :- DeserializeVec(u); r := Ok(List(vs));
      case TTuple(ts) =>
        var _ :- TupleConstructor(|ts|);
        var vs :- DeserializeTuple(ts);
        r := Ok(Tuple(vs));
      case TArray(u) => r := DeserializeArray(u);
      case TMap(_, _) =>
        var count :- MapConstructor();
        var es :- DeserializeEntries(t, count);
        r := Ok(Map(es));
      case TDescribed(u) => r := DeserializeDescribed(u);
      case TComposite(name, code, fts) => r := DeserializeComposite(name, code, fts);
      case TEnum(variants) => r := DeserializeEnum(variants);
    }

    method DeserializeOption(t: Ty) returns (r: Outcome<Val>)
      modifies this
      ensures Did(DecodeOption(old(Now()), t), r)
      decreases t, 2, 0
    {
      hide Decode, ReadCode;
      var c :- PeekConstructor();
      if c == NULL {
        var _ :- ElemCodeOrRead();
        r := Ok(Nothing);
      } else {
        var v :- Deserialize(t);
        r := Ok(Just(v));
      }
    }

    method DeserializeVec(t: Ty) returns (r: Outcome<seq<Val>>)
      modifies this
      ensures Did(DecodeVec(old(Now()), t), r)
      decreases t, 3, 0
    {
      hide SeqHead, DecodeElements, DecodeList;
      var h :- SeqConstructor();
      match h
      case ArrayHeader(size, count) => r := DrainArray(t, size, count);
      case ListHeader(count) => r := DrainList(t, count);
    }

    /** `ArrayAccess` and the visitor that drains it. */
    method DrainArray(t: Ty, size: nat, count0: nat) returns (r: Outcome<seq<Val>>)
      modifies this
      ensures Did(DecodeElements(old(Now()), t, count0, size, |old(slice)|), r)
      decreases t, 2, count0
    {
      hide Decode;
      var startPos := BytesConsumed();
      ghost var start := |slice|;
      ghost var d0 := Now();
      var vs: seq<Val>, count := [], count0;
      PrependNothing(DecodeElements(d0, t, count0, size, start));
      while count > 0
        invariant 0 <= count <= count0
        invariant DecodeElements(d0, t, count0, size, start) == Prepend(vs, DecodeElements(Now(), t, count, size, start))
      {
        ghost var d := Now();
        count := count - 1;
        var v :- Deserialize(t);
        if BytesConsumed() - startPos > size { return Err(InvalidValue); }
        PrependAssoc(vs, v, DecodeElements(Now(), t, count, size, start));
        vs := vs + [v];
      }
      elem := None;
      assert vs + [] == vs;
      r := Ok(vs);
    }

    /** `ListAccess` and the visitor that drains it. */
    method DrainList(t: Ty, count0: nat) returns (r: Outcome<seq<Val>>)
      modifies this
      ensures Did(DecodeList(old(Now()), t, count0), r)
      decreases t, 2, count0
    {
      hide Decode;
      ghost var d0 := Now();
      var vs: seq<Val>, count := [], count0;
      PrependNothing(DecodeList(d0, t, count0));
      while count > 0
        invariant 0 <= count <= count0
        invariant DecodeList(d0, t, count0) == Prepend(vs, DecodeList(Now(), t, count))
      {
        count := count - 1;
        var v :- Deserialize(t);
        PrependAssoc(vs, v, DecodeList(Now(), t, count));
        vs := vs + [v];
      }
      assert vs + [] == vs;
      r := Ok(vs);
    }

    method DeserializeTuple(ts: seq<Ty>) returns (r: Outcome<seq<Val>>)
      modifies this
      ensures Did(DecodeTuple(old(Now()), ts), r)
      decreases ts, 0, 0
    {
      hide Decode;
      ghost var d0 := Now();
      var vs: seq<Val>, i := [], 0;
      PrependNothing(DecodeTuple(d0, ts));
      assert ts[0..] == ts;
      while i < |ts|
        invariant 0 <= i <= |ts|
        invariant DecodeTuple(d0, ts) == Prepend(vs, DecodeTuple(Now(), ts[i..]))
      {
        assert ts[i..][1..] == ts[i + 1..];
        var v :- Deserialize(ts[i]);
        PrependAssoc(vs, v, DecodeTuple(Now(), ts[i + 1..]));
        vs, i := vs + [v], i + 1;
      }
      assert vs + [] == vs;
      r := Ok(vs);
    }

    /** `MapAccess::next_entry_seed` until the count is spent. */
    method DeserializeEntries(t: Ty, count0: nat) returns (r: Outcome<seq<Entry>>)
      requires t.TMap?
      modifies this
      ensures Did(DecodeEntries(old(Now()), t, count0), r)
      decreases t, 0, count0
    {
      hide Decode;
      ghost var d0 := Now();
      var es: seq<Entry>, count := [], count0;
      PrependNothing(DecodeEntries(d0, t, count0));
      while count > 0
        invariant 0 <= count <= count0
        invariant DecodeEntries(d0, t, count0) == Prepend(es, DecodeEntries(Now(), t, count))
      {
        if count == 1 { return Panic; }
        count := count - 2;
        var k :- Deserialize(t.key);
        var v :- Deserialize(t.value);
        PrependAssoc(es, Entry(k, v), DecodeEntries(Now(), t, count));
        es := es + [Entry(k, v)];
      }
      assert es + [] == es;
      r := Ok(es);
    }

    method DeserializeArray(t: Ty) returns (r: Outcome<Val>)
      modifies this
      ensures Did(DecodeArray(old(Now()), t), r)
      decreases t, 4, 0
    {
      hide Decode, DecodeVec, IsCode;
      var saved := enumType;
      enumType := EArray;
      var c :- ElemCodeOrPeek();
      if !IsCode(c) { return Err(Message); }
      if c == ARRAY8 || c == ARRAY32 {
        var vs :- DeserializeVec(t);
        r := Ok(Array(vs));
      } else {
        var v :- Deserialize(t);
        r := Ok(Array([v]));
      }
      enumType := saved;
    }

    method DeserializeDescribed(t: Ty) returns (r: Outcome<Val>)
      modifies this
      ensures Did(DecodeDescribed(old(Now()), t), r)
      decreases t, 4, 0
    {
      hide Decode, DescribedHead, IsCode;
      var saved := encoding;
      encoding := BasicEnc;
      var x :- FirstOfDescribed();
      if slice == [] { return Err(Message); }
      if !IsCode(slice[0]) { return Err(InvalidFormatCode); }
      var v :- Deserialize(t);
      encoding := saved;
      r := Ok(Described(x, v));
    }

    method DeserializeComposite(name: str, code: Option<u64>, fts: seq<FieldTy>) returns (r: Outcome<Val>)
      modifies this
      ensures Did(DecodeComposite(old(Now()), name, code, fts), r)
      decreases fts, 1, 0
    {
      hide DecodeFields, DescribedHead, FieldCount;
      var saved := encoding;
      encoding := ListEnc;
      var x :- FirstOfDescribed();
      var count :- ListCount();
      if !DescriptorMatches(x, name, code) { return Err(Message); }
      var fs :- DeserializeFields(count, fts);
      encoding := saved;
      r := Ok(Composite(DescriptorOf(name, code), fs));
    }

    /** The generated `visit_seq`, pulling from a `DescribedAccess` with `left` elements to go. */
    method DeserializeFields(left0: nat, fts: seq<FieldTy>) returns (r: Outcome<seq<Field>>)
      modifies this
      ensures Did(DecodeFields(old(Now()), left0, fts), r)
      decreases fts, 0, 0
    {
      hide DecodeField, IsCode, MissingField;
      ghost var d0 := Now();
      var fs: seq<Field>, left, i := [], left0, 0;
      PrependNothing(DecodeFields(d0, left0, fts));
      assert fts[0..] == fts;
      while i < |fts|
        invariant 0 <= i <= |fts|
        invariant DecodeFields(d0, left0, fts) == Prepend(fs, DecodeFields(Now(), left, fts[i..]))
      {
        assert fts[i..][1..] == fts[i + 1..];
        var f;
        if left == 0 || slice == [] {
          f :- MissingField(fts[i].attr);
        } else {
          if !IsCode(slice[0]) { return Err(InvalidFormatCode); }
          f :- DeserializeField(fts[i]);
          left := left - 1;
        }
        PrependAssoc(fs, f, DecodeFields(Now(), left, fts[i + 1..]));
        fs, i := fs + [f], i + 1;
      }
      assert fs + [] == fs;
      r := Ok(fs);
    }

    method DeserializeField(ft: FieldTy) returns (r: Outcome<Field>)
      modifies this
      ensures Did(DecodeField(old(Now()), ft), r)
      decreases ft, 0, 0
    {
      hide Decode, DecodeOption, DecodeMultiple;
      match ft.attr
      case Mandatory => var v :- Deserialize(ft.t); r := Ok(Field(ft.attr, v));
      case Optional => var v :- DeserializeOption(ft.t); r := Ok(Field(ft.attr, v));
      case Default(def) =>
        var v :- DeserializeOption(ft.t);
        r := Ok(Field(ft.attr, if v.Just? then v.v else def));
      case Multiple => var v :- DeserializeMultiple(ft.t); r := Ok(Field(ft.attr, v));
    }

    method DeserializeMultiple(t: Ty) returns (r: Outcome<Val>)
      modifies this
      ensures Did(DecodeMultiple(old(Now()), t), r)
      decreases t, 5, 0
    {
      hide DecodeArray, ReadCode;
      var c :- PeekConstructor();
      if c == NULL {
        var _ :- ElemCodeOrRead();
        r := Ok(Nothing);
      } else {
        var v :- DeserializeArray(t);
        r := Ok(if v == Array([]) then Nothing else Just(v));
      }
    }

    // ---- enums ------------------------------------------------------------------------------

    method StrOrSymbol() returns (r: Outcome<str>)
      modifies this`slice
      ensures Did(DecodeStr(old(Now())), r)
    {
      hide ReadCode, TakePrefixed, Valid;
      var c :- ElemCodeOrRead();
      if c != STR8 && c != SYM8 && c != STR32 && c != SYM32 { return Err(InvalidFormatCode); }
      var x :- Prefixed(c == STR32 || c == SYM32);
      r := if Valid(x) then Ok(x) else Err(InvalidUtf8);
    }

    method Identifier() returns (r: Outcome<Ident>)
      modifies this`slice, this`nonNative, this`enumType
      ensures Did(DecodeIdent(old(Now())), r)
    {
      hide DecodeStr, DecodeSymbol, ParseU32, ParseU64, PeekDescriptor, IsCode;
      if enumType == EArray {
        var c :- ElemCodeOrPeek();
        return Ok(IdNumber(c));
      } else if enumType == EDescriptor {
        var b :- ReadByte();
        if b != DESCRIBED { return Err(InvalidFormatCode); }
        enumType := ENone;
        var c :- ElemCodeOrPeek();
        return Ok(IdNumber(c));
      }
      var c :- PeekConstructor();
      if c == STR8 || c == STR32 {
        var x :- StrOrSymbol();
        r := Ok(IdName(x));
      } else if c == UINT || c == SMALL_UINT || c == UINT0 {
        var x :- Integer(KU32);
        r := Ok(IdNumber(x.u32));
      } else if c == SYM8 || c == SYM32 {
        var x :- Symbol();
        r := Ok(IdName(x));
      } else if c == ULONG || c == SMALL_ULONG || c == ULONG0 {
        var x :- Integer(KU64);
        r := Ok(IdNumber(x.u64));
      } else if c == DESCRIBED {
        var x :- PeekDescriptor(slice);
        r := Ok(IdentOf(x));
      } else {
        r := Ok(IdNumber(c));
      }
    }

    method EnumConstructor() returns (r: Outcome<()>)
      modifies this`slice
      ensures EnumHead(old(Now())).Ok? ==> r == Ok(()) && Now() == EnumHead(old(Now())).value
      ensures !EnumHead(old(Now())).Ok? ==> r == EnumHead(old(Now())).PropagateFailure<()>()
    {
      hide SizeAndCount, IsCode;
      var c :- PeekConstructor();
      if c == LIST0 { return Err(InvalidFormatCode); }
      if c == LIST8 || c == MAP8 || c == LIST32 || c == MAP32 {
        var _ :- ReadByte();
        var p :- SizeCount(c == LIST32 || c == MAP32);
        if p.1 != 2 { return Err(InvalidLength); }
      }
      r := Ok(());
    }

    method DeserializeEnum(variants: seq<VariantTy>) returns (r: Outcome<Val>)
      modifies this
      ensures Did(DecodeEnum(old(Now()), variants), r)
      decreases variants, 1, 0
    {
      hide EnumHead, DecodeIdent, VariantIndex, DecodeVariant;
      var saved := enumType;
      var _ :- EnumConstructor();
      var id :- Identifier();
      var i :- VariantIndex(variants, id);
      var v :- DeserializeVariant(i, variants[i]);
      enumType := saved;
      r := Ok(v);
    }

    method DeserializeVariant(i: u32, v: VariantTy) returns (r: Outcome<Val>)
      modifies this
      ensures Did(DecodeVariant(old(Now()), i, v), r)
      decreases v, 0, 0
    {
      hide Decode, TupleHead;
      match v
      case VUnit(_) => r := Ok(UnitVariant(i));
      case VNewtype(_, t) => var x :- Deserialize(t); r := Ok(NewtypeVariant(i, x));
      case VTuple(_, ts) =>
        var _ :- TupleConstructor(|ts|);
        var vs :- DeserializeTuple(ts);
        r := Ok(TupleVariant(i, vs));
    }
  }

  function Prepend<T>(xs: seq<T>, o: Outcome<(seq<T>, State)>): Outcome<(seq<T>, State)> {
    if o.Ok? then Ok((xs + o.value.0, o.value.1)) else o
  }

  lemma PrependNothing<T>(o: Outcome<(seq<T>, State)>)
    ensures Prepend([], o) == o
  {
    if o.Ok? { assert [] + o.value.0 == o.value.0; }
  }

  lemma PrependAssoc<T>(xs: seq<T>, x: T, o: Outcome<(seq<T>, State)>)
    ensures Prepend(xs, Prepend([x], o)) == Prepend(xs + [x], o)
  {
    if o.Ok? { assert xs + ([x] + o.value.0) == xs + [x] + o.value.0; }
  }

  /** `from_slice` */
  method FromSlice(input: bytes, t: Ty) returns (r: Outcome<Val>)
    ensures var o := Decode(State(input, None, None, ENone, NoEnc), t);
            r == if o.Ok? then Ok(o.value.0) else o.PropagateFailure<Val>()
  {
    hide Decode;
    var de := new Deserializer(input);
    r := de.Deserialize(t);
  }
}
