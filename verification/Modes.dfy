/**
 What every successful decode does to the state of the deserializer, on any input and at any type:
 it consumes a prefix, and it leaves the mode fields as it found them. The element constructor
 alone may be dropped, and only when one was set.
 */
module Modes {
  import opened Bytes
  import opened Utf8
  import opened FormatCodes
  import opened Values
  import opened Decoder

  ghost predicate Keeps(d: State, e: State) {
    && e.nonNative == None
    && e.enumType == d.enumType
    && e.encoding == d.encoding
    && (e.elem == d.elem || e.elem == None)
    && |e.rest| <= |d.rest| && IsTail(e.rest, d.rest)
  }

  /** `a` is what is left of `b` after a prefix. */
  ghost predicate IsTail(a: bytes, b: bytes) {
    |a| <= |b| && a == b[|b| - |a|..]
  }

  lemma TailFacts()
    ensures forall a: bytes {:trigger IsTail(a, a)} :: IsTail(a, a)
    ensures forall a: bytes, b: bytes, c: bytes {:trigger IsTail(a, b), IsTail(b, c)} :: IsTail(a, b) && IsTail(b, c) ==> IsTail(a, c)
  {
    forall a: bytes, b: bytes, c: bytes | IsTail(a, b) && IsTail(b, c) ensures IsTail(a, c) { TailTrans(a, b, c); }
  }

  lemma TailTrans(a: bytes, b: bytes, c: bytes)
    requires IsTail(a, b) && IsTail(b, c)
    ensures IsTail(a, c)
  {
    assert c[|c| - |b|..][|b| - |a|..] == c[|c| - |a|..];
  }

  lemma ParseKeeps(d: State, a: byte, b: byte, w: nat)
    requires d.nonNative == None
    ensures ParseFixed(d, a, w).Ok? ==> Keeps(d, ParseFixed(d, a, w).value.1)
    ensures ParseVariable(d, a, b).Ok? ==> Keeps(d, ParseVariable(d, a, b).value.1)
    ensures ParseText(d, a, b).Ok? ==> Keeps(d, ParseText(d, a, b).value.1)
    ensures ParseDecimal(d, w).Ok? ==> Keeps(d, ParseDecimal(d, w).value.1)
  {
    hide ReadCode, Take, TakePrefixed, Valid, IsTail;
    TailFacts();
    ReadKeeps(d);
    if ReadCode(d).Ok? {
      var d1 := ReadCode(d).value.1;
      TakeKeeps(d1, w);
      TakeKeeps(d1, 4);
      TakeKeeps(d1, 8);
      TakeKeeps(d1, 16);
      PrefixedKeeps(d1, false);
      PrefixedKeeps(d1, true);
    }
  }

  lemma NextKeeps(d: State)
    requires d.nonNative == None
    ensures Next(d).Ok? ==> Keeps(d, Next(d).value.1)
  {
  }

  lemma TakeKeeps(d: State, n: nat)
    requires d.nonNative == None
    ensures Take(d, n).Ok? ==> Keeps(d, Take(d, n).value.1)
  {
  }

  lemma PrefixedKeeps(d: State, wide: bool)
    requires d.nonNative == None
    ensures TakePrefixed(d, wide).Ok? ==> Keeps(d, TakePrefixed(d, wide).value.1)
  {
    hide Take, FromBE, IsTail;
    TailFacts();
    var w := if wide then 4 else 1;
    TakeKeeps(d, w);
    if Take(d, w).Ok? { TakeKeeps(Take(d, w).value.1, FromBE(Take(d, w).value.0)); }
  }

  lemma IntegerKeeps(d: State)
    requires d.nonNative == None
    ensures ParseBool(d).Ok? ==> Keeps(d, ParseBool(d).value.1)
    ensures ParseI32(d).Ok? ==> Keeps(d, ParseI32(d).value.1)
    ensures ParseI64(d).Ok? ==> Keeps(d, ParseI64(d).value.1)
    ensures ParseU32(d).Ok? ==> Keeps(d, ParseU32(d).value.1)
    ensures ParseU64(d).Ok? ==> Keeps(d, ParseU64(d).value.1)
  {
    hide ReadCode, Take, Next, FromBE, IsTail;
    TailFacts();
    ReadKeeps(d);
    if ReadCode(d).Ok? {
      var d1 := ReadCode(d).value.1;
      NextKeeps(d1);
      TakeKeeps(d1, 4);
      TakeKeeps(d1, 8);
    }
  }

  lemma SymbolKeeps(d: State)
    requires d.nonNative == None
    ensures DecodeSymbol(d).Ok? ==> Keeps(d, DecodeSymbol(d).value.1)
  {
    hide IsTail;
    TailFacts();
    ParseKeeps(d, SYM8, SYM32, 0);
  }

  lemma ScalarKeeps(d: State, k: Kind)
    requires d.nonNative == None
    ensures DecodeScalar(d, k).Ok? ==> Keeps(d, DecodeScalar(d, k).value.1)
  {
    hide ParseFixed, ParseVariable, ParseText, ParseDecimal, ParseBool, ParseI32, ParseI64, ParseU32, ParseU64, IsTail;
    TailFacts();
    assert d.(nonNative := None) == d;
    IntegerKeeps(d);
    SymbolKeeps(d);
    match k
    case KI8 => ParseKeeps(d, BYTE, 0, 1);
    case KI16 => ParseKeeps(d, SHORT, 0, 2);
    case KU8 => ParseKeeps(d, UBYTE, 0, 1);
    case KU16 => ParseKeeps(d, USHORT, 0, 2);
    case KF32 => ParseKeeps(d, FLOAT, 0, 4);
    case KF64 => ParseKeeps(d, DOUBLE, 0, 8);
    case KChar => ParseKeeps(d, CHAR, 0, 4);
    case KTimestamp => ParseKeeps(d, TIMESTAMP, 0, 8);
    case KDec32 => ParseKeeps(d, 0, 0, 4);
    case KDec64 => ParseKeeps(d, 0, 0, 8);
    case KDec128 => ParseKeeps(d, 0, 0, 16);
    case KUuid => ParseKeeps(d, UUID, 0, 16);
    case KBinary => ParseKeeps(d, VBIN8, VBIN32, 0);
    case KStr => ParseKeeps(d, STR8, STR32, 0);
    case _ =>
  }

  lemma SizeAndCountKeeps(d: State, wide: bool)
    requires d.nonNative == None
    ensures SizeAndCount(d, wide).Ok? ==> Keeps(d, SizeAndCount(d, wide).value.1)
  {
    hide Take, FromBE, IsTail;
    TailFacts();
    var w := if wide then 4 else 1;
    TakeKeeps(d, w);
    if Take(d, w).Ok? { TakeKeeps(Take(d, w).value.1, w); }
  }

  lemma ReadKeeps(d: State)
    requires d.nonNative == None
    ensures ReadFormatCode(d).Ok? ==> Keeps(d, ReadFormatCode(d).value.1)
    ensures ReadCode(d).Ok? ==> Keeps(d, ReadCode(d).value.1)
  {
    hide Next, IsCode, IsTail;
    TailFacts();
    NextKeeps(d);
  }

  lemma HeadsKeep(d: State, len: nat)
    requires d.nonNative == None
    ensures TupleHead(d, len).Ok? ==> Keeps(d, TupleHead(d, len).value)
    ensures MapHead(d).Ok? ==> Keeps(d, MapHead(d).value.1)
    ensures FieldCount(d).Ok? ==> Keeps(d, FieldCount(d).value.1)
  {
    hide SizeAndCount, ReadCode, IsTail;
    TailFacts();
    ReadKeeps(d);
    if ReadCode(d).Ok? {
      SizeAndCountKeeps(ReadCode(d).value.1, false);
      SizeAndCountKeeps(ReadCode(d).value.1, true);
    }
  }

  /** An array header leaves its element constructor behind, and only it. */
  lemma SeqHeadKeeps(d: State)
    requires d.nonNative == None
    ensures SeqHead(d).Ok? ==>
              var (h, e) := SeqHead(d).value;
              Keeps(d, if h.ArrayHeader? then e.(elem := None) else e)
  {
    hide SizeAndCount, ReadCode, ReadFormatCode, IsTail;
    TailFacts();
    ReadKeeps(d);
    if ReadCode(d).Ok? {
      var (c, d1) := ReadCode(d).value;
      var wide := c == ARRAY32 || c == LIST32;
      SizeAndCountKeeps(d1, wide);
      if SizeAndCount(d1, wide).Ok? {
        ReadKeeps(SizeAndCount(d1, wide).value.1);
      }
    }
  }

  lemma DescriptorKeeps(d: State)
    requires d.nonNative == None
    ensures DecodeDescriptor(d).Ok? ==> Keeps(d, DecodeDescriptor(d).value.1)
    ensures DecodeDescriptor(d).Ok? ==> |DecodeDescriptor(d).value.1.rest| < |d.rest|
  {
    hide DecodeSymbol, ParseU64, IsTail;
    TailFacts();
    NextKeeps(d);
    if Next(d).Ok? {
      var d2 := Next(d).value.1.(enumType := ENone);
      SymbolKeeps(d2);
      IntegerKeeps(d2);
    }
  }

  lemma StrKeeps(d: State)
    requires d.nonNative == None
    ensures DecodeStr(d).Ok? ==> Keeps(d, DecodeStr(d).value.1)
  {
    hide ReadCode, TakePrefixed, Valid, IsTail;
    TailFacts();
    ReadKeeps(d);
    if ReadCode(d).Ok? {
      PrefixedKeeps(ReadCode(d).value.1, false);
      PrefixedKeeps(ReadCode(d).value.1, true);
    }
  }

  lemma IdentKeeps(d: State)
    requires d.nonNative == None
    ensures DecodeIdent(d).Ok? ==> Keeps(d, DecodeIdent(d).value.1.(enumType := d.enumType))
  {
    hide DecodeStr, DecodeSymbol, ParseU32, ParseU64, PeekDescriptor, IsCode, PeekCode, IsTail;
    TailFacts();
    StrKeeps(d);
    SymbolKeeps(d);
    IntegerKeeps(d);
    if d.enumType == EDescriptor { NextKeeps(d); }
  }

  lemma EnumHeadKeeps(d: State)
    requires d.nonNative == None
    ensures EnumHead(d).Ok? ==> Keeps(d, EnumHead(d).value)
  {
    hide SizeAndCount, Next, IsTail;
    TailFacts();
    NextKeeps(d);
    if Next(d).Ok? {
      SizeAndCountKeeps(Next(d).value.1, false);
      SizeAndCountKeeps(Next(d).value.1, true);
    }
  }

  /**
   The mode invariant: on every input, at every type, a successful decode restores the announced
   type, the enum type and the struct encoding, and leaves no element constructor that was not
   there before.
   */
  lemma {:induction false} DecodeKeeps(d: State, t: Ty)
    requires d.nonNative == None
    ensures Decode(d, t).Ok? ==> Keeps(d, Decode(d, t).value.1)
    decreases t, 1, 0
  {
    hide DecodeScalar, ReadCode, TupleHead, MapHead, IsTail;
    TailFacts();
    match t
    case TPrim(k) => ScalarKeeps(d, k);
    case TUnit => ReadKeeps(d);
    case TOption(u) => OptionKeeps(d, u);
    case TSeq(u) => VecKeeps(d, u);
    case TTuple(ts) =>
      HeadsKeep(d, |ts|);
      if TupleHead(d, |ts|).Ok? { TupleKeeps(TupleHead(d, |ts|).value, ts); }
    case TArray(u) => ArrayKeeps(d, u);
    case TMap(_, _) =>
      HeadsKeep(d, 0);
      if MapHead(d).Ok? { EntriesKeep(MapHead(d).value.1, t, MapHead(d).value.0); }
    case TDescribed(u) => DescribedKeeps(d, u);
    case TComposite(name, code, fts) => CompositeKeeps(d, name, code, fts);
    case TEnum(variants) => EnumKeeps(d, variants);
  }

  lemma {:induction false} OptionKeeps(d: State, t: Ty)
    requires d.nonNative == None
    ensures DecodeOption(d, t).Ok? ==> Keeps(d, DecodeOption(d, t).value.1)
    decreases t, 2, 0
  {
    hide Decode, ReadCode, IsTail;
    TailFacts();
    ReadKeeps(d);
    DecodeKeeps(d, t);
  }

  lemma {:induction false} VecKeeps(d: State, t: Ty)
    requires d.nonNative == None
    ensures DecodeVec(d, t).Ok? ==> Keeps(d, DecodeVec(d, t).value.1)
    decreases t, 3, 0
  {
    hide SeqHead, DecodeElements, DecodeList, IsTail;
    TailFacts();
    SeqHeadKeeps(d);
    if SeqHead(d).Ok? {
      var (h, d1) := SeqHead(d).value;
      match h
      case ArrayHeader(size, count) => ElementsKeep(d1, t, count, size, |d1.rest|);
      case ListHeader(count) => ListKeeps(d1, t, count);
    }
  }

  /** An array that is read to its end drops the element constructor. */
  lemma {:induction false} ElementsKeep(d: State, t: Ty, count: nat, size: nat, start: nat)
    requires d.nonNative == None
    ensures DecodeElements(d, t, count, size, start).Ok? ==>
              var e := DecodeElements(d, t, count, size, start).value.1;
              Keeps(d, e) && e.elem == None
    decreases t, 2, count
  {
    hide Decode, IsTail;
    TailFacts();
    DecodeKeeps(d, t);
    if count > 0 && Decode(d, t).Ok? {
      ElementsKeep(Decode(d, t).value.1, t, count - 1, size, start);
    }
  }

  lemma {:induction false} ListKeeps(d: State, t: Ty, count: nat)
    requires d.nonNative == None
    ensures DecodeList(d, t, count).Ok? ==> Keeps(d, DecodeList(d, t, count).value.1)
    decreases t, 2, count
  {
    hide Decode, IsTail;
    TailFacts();
    DecodeKeeps(d, t);
    if count > 0 && Decode(d, t).Ok? {
      ListKeeps(Decode(d, t).value.1, t, count - 1);
    }
  }

  lemma {:induction false} TupleKeeps(d: State, ts: seq<Ty>)
    requires d.nonNative == None
    ensures DecodeTuple(d, ts).Ok? ==> Keeps(d, DecodeTuple(d, ts).value.1)
    decreases ts, 0, 0
  {
    hide Decode, IsTail;
    TailFacts();
    if ts != [] {
      DecodeKeeps(d, ts[0]);
      if Decode(d, ts[0]).Ok? { TupleKeeps(Decode(d, ts[0]).value.1, ts[1..]); }
    }
  }

  lemma {:induction false} EntriesKeep(d: State, t: Ty, count: nat)
    requires d.nonNative == None && t.TMap?
    ensures DecodeEntries(d, t, count).Ok? ==> Keeps(d, DecodeEntries(d, t, count).value.1)
    decreases t, 0, count
  {
    hide Decode, IsTail;
    TailFacts();
    if count > 1 {
      DecodeKeeps(d, t.key);
      if Decode(d, t.key).Ok? {
        var d1 := Decode(d, t.key).value.1;
        DecodeKeeps(d1, t.value);
        if Decode(d1, t.value).Ok? { EntriesKeep(Decode(d1, t.value).value.1, t, count - 2); }
      }
    }
  }

  lemma {:induction false} ArrayKeeps(d: State, t: Ty)
    requires d.nonNative == None
    ensures DecodeArray(d, t).Ok? ==> Keeps(d, DecodeArray(d, t).value.1)
    decreases t, 4, 0
  {
    hide Decode, DecodeVec, IsTail;
    TailFacts();
    var d1 := d.(enumType := EArray);
    VecKeeps(d1, t);
    DecodeKeeps(d1, t);
  }

  lemma {:induction false} DescribedKeeps(d: State, t: Ty)
    requires d.nonNative == None
    ensures DecodeDescribed(d, t).Ok? ==> Keeps(d, DecodeDescribed(d, t).value.1)
    decreases t, 4, 0
  {
    hide Decode, DecodeDescriptor, IsTail;
    TailFacts();
    var d0 := d.(encoding := BasicEnc);
    DescriptorKeeps(d0);
    if DecodeDescriptor(d0).Ok? { DecodeKeeps(DecodeDescriptor(d0).value.1, t); }
  }

  lemma {:induction false} CompositeKeeps(d: State, name: str, code: Option<u64>, fts: seq<FieldTy>)
    requires d.nonNative == None
    ensures DecodeComposite(d, name, code, fts).Ok? ==> Keeps(d, DecodeComposite(d, name, code, fts).value.1)
    decreases fts, 1, 0
  {
    hide DecodeFields, DecodeDescriptor, FieldCount, IsTail;
    TailFacts();
    var d0 := d.(encoding := ListEnc);
    DescriptorKeeps(d0);
    if DecodeDescriptor(d0).Ok? {
      var d1 := DecodeDescriptor(d0).value.1;
      HeadsKeep(d1, 0);
      if FieldCount(d1).Ok? { FieldsKeep(FieldCount(d1).value.1, FieldCount(d1).value.0, fts); }
    }
  }

  lemma {:induction false} FieldsKeep(d: State, left: nat, fts: seq<FieldTy>)
    requires d.nonNative == None
    ensures DecodeFields(d, left, fts).Ok? ==> Keeps(d, DecodeFields(d, left, fts).value.1)
    decreases fts, 0, 0
  {
    hide DecodeField, IsTail;
    TailFacts();
    if fts != [] {
      if left == 0 || d.rest == [] {
        FieldsKeep(d, left, fts[1..]);
      } else {
        FieldKeeps(d, fts[0]);
        if DecodeField(d, fts[0]).Ok? { FieldsKeep(DecodeField(d, fts[0]).value.1, left - 1, fts[1..]); }
      }
    }
  }

  lemma {:induction false} FieldKeeps(d: State, ft: FieldTy)
    requires d.nonNative == None
    ensures DecodeField(d, ft).Ok? ==> Keeps(d, DecodeField(d, ft).value.1)
    decreases ft, 0, 0
  {
    hide Decode, DecodeOption, DecodeArray, ReadCode, IsTail;
    TailFacts();
    match ft.attr
    case Mandatory => DecodeKeeps(d, ft.t);
    case Multiple => ReadKeeps(d); ArrayKeeps(d, ft.t);
    case _ => OptionKeeps(d, ft.t);
  }

  lemma {:induction false} EnumKeeps(d: State, variants: seq<VariantTy>)
    requires d.nonNative == None
    ensures DecodeEnum(d, variants).Ok? ==> Keeps(d, DecodeEnum(d, variants).value.1)
    decreases variants, 1, 0
  {
    hide EnumHead, DecodeIdent, VariantIndex, DecodeVariant, IsTail;
    TailFacts();
    EnumHeadKeeps(d);
    if EnumHead(d).Ok? {
      var d1 := EnumHead(d).value;
      IdentKeeps(d1);
      if DecodeIdent(d1).Ok? {
        var (id, d2) := DecodeIdent(d1).value;
        if VariantIndex(variants, id).Ok? {
          VariantKeeps(d2, VariantIndex(variants, id).value, variants[VariantIndex(variants, id).value]);
        }
      }
    }
  }

  lemma {:induction false} VariantKeeps(d: State, i: u32, v: VariantTy)
    requires d.nonNative == None
    ensures DecodeVariant(d, i, v).Ok? ==> Keeps(d, DecodeVariant(d, i, v).value.1)
    decreases v, 0, 0
  {
    hide Decode, TupleHead, IsTail;
    TailFacts();
    match v
    case VUnit(_) =>
    case VNewtype(_, t) => DecodeKeeps(d, t);
    case VTuple(_, ts) =>
      HeadsKeep(d, |ts|);
      if TupleHead(d, |ts|).Ok? { TupleKeeps(TupleHead(d, |ts|).value, ts); }
  }

  // ---- what follows from it -----------------------------------------------------------------

  /** A deserializer with no mode set, as `Deserializer::new` makes it. */
  function Fresh(rest: bytes, encoding: StructEncoding): State {
    State(rest, None, None, ENone, encoding)
  }

  /** From clear modes to clear modes, so that sibling values decode independently. */
  lemma ClearModesStayClear(input: bytes, encoding: StructEncoding, t: Ty)
    ensures Decode(Fresh(input, encoding), t).Ok? ==>
              var e := Decode(Fresh(input, encoding), t).value.1;
              e == Fresh(e.rest, encoding) && IsTail(e.rest, input)
  {
    DecodeKeeps(Fresh(input, encoding), t);
  }
}
