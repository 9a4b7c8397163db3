/**
 Where a panic of the decoder comes from. Received bytes can make an unsigned operation overflow, but
 only in the header of a list, a map or an array.
 */
module Panics {
  import opened Bytes
  import opened Utf8
  import opened FormatCodes
  import opened Values
  import opened Decoder
  import opened Modes
  import opened Headers
  import opened Scalars

  /**
   At `e` stands a header that some decode cannot take: its size is below the octets it counts besides
   the body, or a map holds half a pair, or the count of a list is the largest there is.
   */
  ghost predicate BadHeader(e: State) {
    && ReadCode(e).Ok?
    && var (c, e1) := ReadCode(e).value;
       var wide := c == LIST32 || c == MAP32 || c == ARRAY32;
       var h := SizeAndCount(e1, wide);
       && h.Ok?
       && var (size, count) := h.value.0;
          || ((c == LIST8 || c == LIST32 || c == MAP8 || c == MAP32) && size < Width(wide))
          || ((c == ARRAY8 || c == ARRAY32) && count > 0 && size < Width(wide) + 1)
          || ((c == MAP8 || c == MAP32) && count % 2 == 1)
          || (c == LIST32 && count == 0xFFFF_FFFF)
  }

  /** `e` is further on in the input of `d`, under no constructor, that of `d`, or one that was passed. */
  ghost predicate Within(d: State, e: State) {
    && IsTail(e.rest, d.rest)
    && (e.elem == None || e.elem == d.elem || Passed(e.elem, d.rest, e.rest))
  }

  ghost predicate Passed(c: Option<byte>, from: bytes, to: bytes) {
    exists i :: 0 <= i < |from| - |to| && c == Some(from[i])
  }

  ghost predicate HasBadHeader(d: State) {
    exists e :: Within(d, e) && BadHeader(e)
  }

  lemma WithinTrans(d: State, e: State, f: State)
    requires Within(d, e) && Within(e, f)
    ensures Within(d, f)
  {
    TailTrans(f.rest, e.rest, d.rest);
    if f.elem != None && f.elem != d.elem && f.elem != e.elem {
      var i :| 0 <= i < |e.rest| - |f.rest| && f.elem == Some(e.rest[i]);
      assert d.rest[|d.rest| - |e.rest| + i] == e.rest[i];
    }
  }

  /** A bad header further on is a bad header here. */
  lemma Lift(d: State, e: State)
    requires Within(d, e)
    ensures HasBadHeader(e) ==> HasBadHeader(d)
  {
    hide BadHeader, Within;
    if HasBadHeader(e) {
      var f :| Within(e, f) && BadHeader(f);
      WithinTrans(d, e, f);
    }
  }

  lemma LiftKeeps(d: State, e: State)
    requires Keeps(d, e)
    ensures HasBadHeader(e) ==> HasBadHeader(d)
  {
    hide HasBadHeader, IsTail;
    Lift(d, e);
  }

  /** The mode fields do not matter. */
  lemma SameInput(d: State, e: State)
    requires d.rest == e.rest && d.elem == e.elem
    ensures HasBadHeader(e) <==> HasBadHeader(d)
  {
    hide HasBadHeader;
    Lift(d, e);
    Lift(e, d);
  }

  lemma Here(d: State)
    requires BadHeader(d)
    ensures HasBadHeader(d)
  {
    hide BadHeader;
    assert Within(d, d);
  }

  // ---- leaves -------------------------------------------------------------------------------

  lemma ReadsDoNotPanic(d: State, n: nat, wide: bool)
    ensures !Take(d, n).Panic? && !TakePrefixed(d, wide).Panic? && !ReadFormatCode(d).Panic? && !ReadCode(d).Panic?
    ensures !SizeAndCount(d, wide).Panic? && !PeekCode(d).Panic? && !Next(d).Panic?
  {
    hide IsCode, FromBE;
  }

  lemma ParsesDoNotPanic(d: State, a: byte, b: byte, w: nat)
    ensures !ParseFixed(d, a, w).Panic? && !ParseVariable(d, a, b).Panic? && !ParseText(d, a, b).Panic? && !ParseDecimal(d, w).Panic?
    ensures !ParseBool(d).Panic? && !ParseI32(d).Panic? && !ParseI64(d).Panic? && !ParseU32(d).Panic? && !ParseU64(d).Panic?
    ensures !DecodeStr(d).Panic?
  {
    hide IsCode, FromBE, ReadCode, Take, TakePrefixed, Next, Valid;
    ReadsDoNotPanic(d, 0, false);
    if ReadCode(d).Ok? {
      var d1 := ReadCode(d).value.1;
      ReadsDoNotPanic(d1, w, false);
      ReadsDoNotPanic(d1, 4, true);
      ReadsDoNotPanic(d1, 8, true);
      ReadsDoNotPanic(d1, 16, true);
    }
  }

  lemma SymbolDoesNotPanic(d: State)
    ensures !DecodeSymbol(d).Panic?
  {
    hide ParseText;
    ParsesDoNotPanic(d.(nonNative := Some(NSymbol)).(nonNative := None), SYM8, SYM32, 0);
  }

  lemma ScalarDoesNotPanic(d: State, k: Kind)
    requires d.nonNative == None
    ensures !DecodeScalar(d, k).Panic?
  {
    hide ParseFixed, ParseVariable, ParseText, ParseBool, ParseI32, ParseI64, ParseU32, ParseU64, ParseDecimal, FromBE, FromTwos;
    assert d.(nonNative := None) == d;
    SymbolDoesNotPanic(d);
    match k
    case KI8 => ParsesDoNotPanic(d, BYTE, 0, 1);
    case KI16 => ParsesDoNotPanic(d, SHORT, 0, 2);
    case KU8 => ParsesDoNotPanic(d, UBYTE, 0, 1);
    case KU16 => ParsesDoNotPanic(d, USHORT, 0, 2);
    case KF32 => ParsesDoNotPanic(d, FLOAT, 0, 4);
    case KF64 => ParsesDoNotPanic(d, DOUBLE, 0, 8);
    case KChar => ParsesDoNotPanic(d, CHAR, 0, 4);
    case KTimestamp => ParsesDoNotPanic(d, TIMESTAMP, 0, 8);
    case KUuid => ParsesDoNotPanic(d, UUID, 0, 16);
    case KDec32 => ParsesDoNotPanic(d, 0, 0, 4);
    case KDec64 => ParsesDoNotPanic(d, 0, 0, 8);
    case KDec128 => ParsesDoNotPanic(d, 0, 0, 16);
    case KBinary => ParsesDoNotPanic(d, VBIN8, VBIN32, 0);
    case KStr => ParsesDoNotPanic(d, STR8, STR32, 0);
    case _ => ParsesDoNotPanic(d, 0, 0, 0);
  }

  lemma DescriptorDoesNotPanic(d: State)
    ensures !DecodeDescriptor(d).Panic? && !DescribedHead(d).Panic?
  {
    hide DecodeSymbol, ParseU64, IsCode;
    if Next(d).Ok? {
      var d2 := Next(d).value.1.(enumType := ENone);
      SymbolDoesNotPanic(d2);
      ParsesDoNotPanic(d2, 0, 0, 0);
    }
  }

  lemma IdentDoesNotPanic(d: State)
    ensures !DecodeIdent(d).Panic?
  {
    hide DecodeStr, DecodeSymbol, ParseU32, ParseU64, PeekDescriptor, PeekCode, Next;
    ReadsDoNotPanic(d, 0, false);
    SymbolDoesNotPanic(d);
    ParsesDoNotPanic(d, 0, 0, 0);
    PeekDoesNotPanic(d.rest);
  }

  lemma EnumHeadDoesNotPanic(d: State)
    ensures !EnumHead(d).Panic?
  {
    hide PeekCode, Next, SizeAndCount;
    ReadsDoNotPanic(d, 0, false);
    if Next(d).Ok? {
      ReadsDoNotPanic(Next(d).value.1, 0, false);
      ReadsDoNotPanic(Next(d).value.1, 0, true);
    }
  }

  lemma PeekDoesNotPanic(input: bytes)
    ensures !PeekDescriptor(input).Panic?
  {
    hide IsCode, FromBE, Valid;
  }

  lemma {:induction false} FindDoesNotPanic(variants: seq<VariantTy>, x: str, i: nat)
    requires i <= |variants|
    ensures !FindVariant(variants, x, i).Panic?
    decreases |variants| - i
  {
    if i < |variants| { FindDoesNotPanic(variants, x, i + 1); }
  }

  // ---- headers ------------------------------------------------------------------------------

  lemma CountBound(d: State, wide: bool)
    ensures var o := SizeAndCount(d, wide); o.Ok? ==> o.value.0.1 <= if wide then 0xFFFF_FFFF else 255
  {
    hide FromBE, Pow256;
    Pow256Values();
  }

  lemma ArrayHeadPanics(d: State, wide: bool)
    ensures ArrayHead(d, wide).Panic? ==>
              var o := SizeAndCount(d, wide); o.Ok? && o.value.0.1 > 0 && o.value.0.0 < Width(wide) + 1
    ensures ListHead(d, wide).Panic? ==> var o := SizeAndCount(d, wide); o.Ok? && o.value.0.0 < Width(wide)
  {
    hide SizeAndCount, ReadFormatCode;
    ReadsDoNotPanic(d, 0, wide);
    if SizeAndCount(d, wide).Ok? { ReadsDoNotPanic(SizeAndCount(d, wide).value.1, 0, false); }
  }

  lemma SeqHeadPanics(d: State)
    ensures SeqHead(d).Panic? ==> BadHeader(d)
  {
    hide ReadCode, SizeAndCount, ArrayHead, ListHead;
    ReadsDoNotPanic(d, 0, false);
    if ReadCode(d).Ok? {
      ArrayHeadPanics(ReadCode(d).value.1, false);
      ArrayHeadPanics(ReadCode(d).value.1, true);
    }
  }

  lemma HeadsPanic(d: State, len: nat)
    ensures TupleHead(d, len).Panic? || MapHead(d).Panic? || FieldCount(d).Panic? ==> BadHeader(d)
  {
    hide ReadCode, SizeAndCount;
    ReadsDoNotPanic(d, 0, false);
    if ReadCode(d).Ok? {
      var (c, d1) := ReadCode(d).value;
      ReadsDoNotPanic(d1, 0, false);
      ReadsDoNotPanic(d1, 0, true);
      CountBound(d1, c == LIST32 || c == MAP32);
    }
  }

  lemma OddMapIsBad(d: State)
    requires MapHead(d).Ok? && MapHead(d).value.0 % 2 == 1
    ensures BadHeader(d)
  {
    hide ReadCode, SizeAndCount;
  }

  /** Behind an array header, under the constructor that it passed. */
  lemma SeqHeadWithin(d: State)
    requires d.nonNative == None && SeqHead(d).Ok?
    ensures Within(d, SeqHead(d).value.1) && SeqHead(d).value.1.nonNative == None
  {
    hide SizeAndCount, ReadCode, IsCode, IsTail;
    SeqHeadKeeps(d);
    ReadKeeps(d);
    var (c, d1) := ReadCode(d).value;
    var (h, e) := SeqHead(d).value;
    SizeAndCountKeeps(d1, c == ARRAY32);
    if h.ArrayHeader? && h.count > 0 {
      TailFacts();
      PassedOne(d.rest, SizeAndCount(d1, c == ARRAY32).value.1.rest);
    }
  }

  lemma PassedOne(from: bytes, to: bytes)
    requires IsTail(to, from) && to != []
    ensures Passed(Some(to[0]), from, to[1..])
  {
    assert from[|from| - |to|] == to[0];
  }

  // ---- values -------------------------------------------------------------------------------

  /**
   On any input and at any type, from clear modes: a panic comes from a bad header in the input, one
   with a size below its offset, an odd map count or a list count of 2^32 - 1.
   */
  lemma {:induction false} PanicHasHeader(d: State, t: Ty)
    requires d.nonNative == None
    ensures Decode(d, t).Panic? ==> HasBadHeader(d)
    decreases t, 1, 0
  {
    hide DecodeScalar, ReadCode, TupleHead, MapHead, DecodeVec, DecodeTuple, DecodeEntries, DecodeArray, DecodeDescribed,
         DecodeComposite, DecodeEnum, DecodeOption, HasBadHeader, BadHeader, IsTail;
    ReadsDoNotPanic(d, 0, false);
    match t
    case TPrim(k) => ScalarDoesNotPanic(d, k);
    case TUnit =>
    case TOption(u) => OptionPanics(d, u);
    case TSeq(u) => VecPanics(d, u);
    case TTuple(ts) => TupleValuePanics(d, ts);
    case TArray(u) => ArrayPanics(d, u);
    case TMap(_, _) => MapPanics(d, t);
    case TDescribed(u) => DescribedPanics(d, u);
    case TComposite(name, code, fts) => CompositePanics(d, name, code, fts);
    case TEnum(variants) => EnumPanics(d, variants);
  }

  lemma {:induction false} OptionPanics(d: State, t: Ty)
    requires d.nonNative == None
    ensures DecodeOption(d, t).Panic? ==> HasBadHeader(d)
    decreases t, 2, 0
  {
    hide Decode, HasBadHeader, ReadCode, PeekCode;
    ReadsDoNotPanic(d, 0, false);
    PanicHasHeader(d, t);
  }

  lemma {:induction false} TupleValuePanics(d: State, ts: seq<Ty>)
    requires d.nonNative == None
    ensures TupleHead(d, |ts|).Panic? ==> HasBadHeader(d)
    ensures TupleHead(d, |ts|).Ok? && DecodeTuple(TupleHead(d, |ts|).value, ts).Panic? ==> HasBadHeader(d)
    decreases ts, 1, 0
  {
    hide TupleHead, DecodeTuple, HasBadHeader, BadHeader, IsTail;
    HeadsPanic(d, |ts|);
    if TupleHead(d, |ts|).Panic? { Here(d); }
    HeadsKeep(d, |ts|);
    if TupleHead(d, |ts|).Ok? {
      TuplePanics(TupleHead(d, |ts|).value, ts);
      LiftKeeps(d, TupleHead(d, |ts|).value);
    }
  }

  lemma {:induction false} TuplePanics(d: State, ts: seq<Ty>)
    requires d.nonNative == None
    ensures DecodeTuple(d, ts).Panic? ==> HasBadHeader(d)
    decreases ts, 0, 0
  {
    hide Decode, HasBadHeader, IsTail;
    if ts != [] {
      PanicHasHeader(d, ts[0]);
      DecodeKeeps(d, ts[0]);
      if Decode(d, ts[0]).Ok? {
        TuplePanics(Decode(d, ts[0]).value.1, ts[1..]);
        LiftKeeps(d, Decode(d, ts[0]).value.1);
      }
    }
  }

  lemma {:induction false} VecPanics(d: State, t: Ty)
    requires d.nonNative == None
    ensures DecodeVec(d, t).Panic? ==> HasBadHeader(d)
    decreases t, 3, 0
  {
    hide SeqHead, DecodeElements, DecodeList, HasBadHeader, BadHeader, Within, IsTail;
    SeqHeadPanics(d);
    if SeqHead(d).Panic? { Here(d); }
    if SeqHead(d).Ok? {
      var (h, d1) := SeqHead(d).value;
      SeqHeadWithin(d);
      Lift(d, d1);
      match h
      case ArrayHeader(size, count) => ElementsPanic(d1, t, count, size, |d1.rest|);
      case ListHeader(count) => ListPanics(d1, t, count);
    }
  }

  lemma {:induction false} ElementsPanic(d: State, t: Ty, count: nat, size: nat, start: nat)
    requires d.nonNative == None
    ensures DecodeElements(d, t, count, size, start).Panic? ==> HasBadHeader(d)
    decreases t, 2, count
  {
    hide Decode, HasBadHeader, IsTail;
    PanicHasHeader(d, t);
    DecodeKeeps(d, t);
    if count > 0 && Decode(d, t).Ok? {
      ElementsPanic(Decode(d, t).value.1, t, count - 1, size, start);
      LiftKeeps(d, Decode(d, t).value.1);
    }
  }

  lemma {:induction false} ListPanics(d: State, t: Ty, count: nat)
    requires d.nonNative == None
    ensures DecodeList(d, t, count).Panic? ==> HasBadHeader(d)
    decreases t, 2, count
  {
    hide Decode, HasBadHeader, IsTail;
    PanicHasHeader(d, t);
    DecodeKeeps(d, t);
    if count > 0 && Decode(d, t).Ok? {
      ListPanics(Decode(d, t).value.1, t, count - 1);
      LiftKeeps(d, Decode(d, t).value.1);
    }
  }

  lemma {:induction false} MapPanics(d: State, t: Ty)
    requires d.nonNative == None && t.TMap?
    ensures MapHead(d).Panic? ==> HasBadHeader(d)
    ensures MapHead(d).Ok? && DecodeEntries(MapHead(d).value.1, t, MapHead(d).value.0).Panic? ==> HasBadHeader(d)
    decreases t, 0, 0x1_0000_0000
  {
    hide MapHead, DecodeEntries, HasBadHeader, BadHeader, IsTail;
    HeadsPanic(d, 0);
    if MapHead(d).Panic? { Here(d); }
    HeadsKeep(d, 0);
    if MapHead(d).Ok? {
      var (count, d1) := MapHead(d).value;
      if count % 2 == 1 {
        OddMapIsBad(d);
        Here(d);
      } else {
        CountIsSmall(d);
        EntriesPanic(d1, t, count);
        LiftKeeps(d, d1);
      }
    }
  }

  lemma CountIsSmall(d: State)
    ensures MapHead(d).Ok? ==> MapHead(d).value.0 < 0x1_0000_0000
  {
    hide ReadCode, FromBE;
    Pow256Values();
  }

  lemma {:induction false} EntriesPanic(d: State, t: Ty, count: nat)
    requires d.nonNative == None && t.TMap? && count % 2 == 0
    ensures DecodeEntries(d, t, count).Panic? ==> HasBadHeader(d)
    decreases t, 0, count
  {
    hide Decode, HasBadHeader, IsTail;
    if count > 1 {
      PanicHasHeader(d, t.key);
      DecodeKeeps(d, t.key);
      if Decode(d, t.key).Ok? {
        var d1 := Decode(d, t.key).value.1;
        PanicHasHeader(d1, t.value);
        DecodeKeeps(d1, t.value);
        LiftKeeps(d, d1);
        if Decode(d1, t.value).Ok? {
          EntriesPanic(Decode(d1, t.value).value.1, t, count - 2);
          LiftKeeps(d1, Decode(d1, t.value).value.1);
        }
      }
    }
  }

  lemma {:induction false} ArrayPanics(d: State, t: Ty)
    requires d.nonNative == None
    ensures DecodeArray(d, t).Panic? ==> HasBadHeader(d)
    decreases t, 4, 0
  {
    hide Decode, DecodeVec, HasBadHeader, IsCode;
    var d1 := d.(enumType := EArray);
    VecPanics(d1, t);
    PanicHasHeader(d1, t);
    SameInput(d, d1);
  }

  lemma {:induction false} DescribedPanics(d: State, t: Ty)
    requires d.nonNative == None
    ensures DecodeDescribed(d, t).Panic? ==> HasBadHeader(d)
    decreases t, 4, 0
  {
    hide Decode, DecodeDescriptor, HasBadHeader, IsTail, IsCode;
    var d0 := d.(encoding := BasicEnc);
    DescriptorDoesNotPanic(d0);
    DescriptorKeeps(d0);
    SameInput(d, d0);
    if DecodeDescriptor(d0).Ok? {
      PanicHasHeader(DecodeDescriptor(d0).value.1, t);
      LiftKeeps(d0, DecodeDescriptor(d0).value.1);
    }
  }

  lemma {:induction false} CompositePanics(d: State, name: str, code: Option<u64>, fts: seq<FieldTy>)
    requires d.nonNative == None
    ensures DecodeComposite(d, name, code, fts).Panic? ==> HasBadHeader(d)
    decreases fts, 1, 0
  {
    hide DecodeFields, DecodeDescriptor, FieldCount, HasBadHeader, BadHeader, IsTail, IsCode, DescriptorMatches;
    var d0 := d.(encoding := ListEnc);
    DescriptorDoesNotPanic(d0);
    DescriptorKeeps(d0);
    SameInput(d, d0);
    if DecodeDescriptor(d0).Ok? {
      var d1 := DecodeDescriptor(d0).value.1;
      LiftKeeps(d0, d1);
      HeadsPanic(d1, 0);
      if FieldCount(d1).Panic? { Here(d1); }
      HeadsKeep(d1, 0);
      if FieldCount(d1).Ok? {
        FieldsPanic(FieldCount(d1).value.1, FieldCount(d1).value.0, fts);
        LiftKeeps(d1, FieldCount(d1).value.1);
      }
    }
  }

  lemma {:induction false} FieldsPanic(d: State, left: nat, fts: seq<FieldTy>)
    requires d.nonNative == None
    ensures DecodeFields(d, left, fts).Panic? ==> HasBadHeader(d)
    decreases fts, 0, 0
  {
    hide DecodeField, HasBadHeader, IsTail, IsCode;
    if fts != [] {
      if left == 0 || d.rest == [] {
        FieldsPanic(d, left, fts[1..]);
      } else {
        FieldPanics(d, fts[0]);
        FieldKeeps(d, fts[0]);
        if DecodeField(d, fts[0]).Ok? {
          FieldsPanic(DecodeField(d, fts[0]).value.1, left - 1, fts[1..]);
          LiftKeeps(d, DecodeField(d, fts[0]).value.1);
        }
      }
    }
  }

  lemma {:induction false} FieldPanics(d: State, ft: FieldTy)
    requires d.nonNative == None
    ensures DecodeField(d, ft).Panic? ==> HasBadHeader(d)
    decreases ft, 0, 0
  {
    hide Decode, DecodeOption, DecodeMultiple, HasBadHeader;
    match ft.attr
    case Mandatory => PanicHasHeader(d, ft.t);
    case Multiple => MultiplePanics(d, ft.t);
    case _ => OptionPanics(d, ft.t);
  }

  lemma {:induction false} MultiplePanics(d: State, t: Ty)
    requires d.nonNative == None
    ensures DecodeMultiple(d, t).Panic? ==> HasBadHeader(d)
    decreases t, 5, 0
  {
    hide DecodeArray, HasBadHeader, ReadCode, PeekCode;
    ReadsDoNotPanic(d, 0, false);
    ArrayPanics(d, t);
  }

  lemma {:induction false} EnumPanics(d: State, variants: seq<VariantTy>)
    requires d.nonNative == None
    ensures DecodeEnum(d, variants).Panic? ==> HasBadHeader(d)
    decreases variants, 1, 0
  {
    hide EnumHead, DecodeIdent, FindVariant, DecodeVariant, HasBadHeader, IsTail;
    EnumHeadDoesNotPanic(d);
    EnumHeadKeeps(d);
    if EnumHead(d).Ok? {
      var d1 := EnumHead(d).value;
      IdentDoesNotPanic(d1);
      IdentKeeps(d1);
      LiftKeeps(d, d1);
      if DecodeIdent(d1).Ok? {
        var (id, d2) := DecodeIdent(d1).value;
        LiftKeeps(d1, d2.(enumType := d1.enumType));
        SameInput(d2, d2.(enumType := d1.enumType));
        if id.IdName? { FindDoesNotPanic(variants, id.x, 0); }
        if VariantIndex(variants, id).Ok? {
          VariantPanics(d2, VariantIndex(variants, id).value, variants[VariantIndex(variants, id).value]);
        }
      }
    }
  }

  lemma {:induction false} VariantPanics(d: State, i: u32, v: VariantTy)
    requires d.nonNative == None
    ensures DecodeVariant(d, i, v).Panic? ==> HasBadHeader(d)
    decreases v, 0, 0
  {
    hide Decode, TupleHead, DecodeTuple, HasBadHeader;
    match v
    case VUnit(_) =>
    case VNewtype(_, t) => PanicHasHeader(d, t);
    case VTuple(_, ts) => TupleValuePanics(d, ts);
  }

  // ---- and they do panic --------------------------------------------------------------------

  /** A header that says `size` and `n`, in front of `r`. */
  function SaidHeader(code: byte, wide: bool, size: nat, n: nat, r: bytes): bytes {
    [code] + (BE(size, Width(wide)) + (BE(n, Width(wide)) + r))
  }

  lemma SaidHeaderFront(d: State, code: byte, wide: bool, size: nat, n: nat, r: bytes)
    requires d.rest == SaidHeader(code, wide, size, n, r) && d.elem == None && IsCode(code)
    requires size < Pow256(Width(wide)) && n < Pow256(Width(wide))
    ensures ReadCode(d).Ok? && ReadCode(d).value.0 == code && SizeAndCount(ReadCode(d).value.1, wide) == Ok(((size, n), d.(rest := r)))
  {
    hide IsCode, SizeAndCount, BE, Pow256;
    var tail := BE(size, Width(wide)) + (BE(n, Width(wide)) + r);
    ReadFront(d, code, tail);
    SizeAndCountFront(d.(rest := tail), wide, size, n, r);
  }

  /** Every list and every map whose size does not even cover its count, unless it is refused for its count. */
  lemma ShortHeadersPanic(wide: bool, size: nat, n: nat, r: bytes, t: Ty, u: Ty, ts: seq<Ty>, encoding: StructEncoding)
    requires size < Width(wide) && n <= (if wide then 65536 else 255)
    ensures Decode(Fresh(SaidHeader(if wide then 0xd0 else 0xc0, wide, size, n, r), encoding), TSeq(t)) == Panic
    ensures Decode(Fresh(SaidHeader(if wide then 0xd0 else 0xc0, wide, size, n, r), encoding), TTuple(ts)) == Panic
    ensures Decode(Fresh(SaidHeader(if wide then 0xd1 else 0xc1, wide, size, n, r), encoding), TMap(t, u)) == Panic
  {
    hide DecodeList, DecodeElements, DecodeTuple, DecodeEntries, SizeAndCount, ReadCode, BE, SaidHeader, Pow256;
    Pow256Values();
    SaidHeaderFront(Fresh(SaidHeader(if wide then 0xd0 else 0xc0, wide, size, n, r), encoding), if wide then 0xd0 else 0xc0, wide, size, n, r);
    SaidHeaderFront(Fresh(SaidHeader(if wide then 0xd1 else 0xc1, wide, size, n, r), encoding), if wide then 0xd1 else 0xc1, wide, size, n, r);
  }

  /** Every array with elements whose size does not cover its count and its constructor. */
  lemma ShortArrayPanics(wide: bool, size: nat, n: nat, c: byte, r: bytes, t: Ty, encoding: StructEncoding)
    requires 0 < n <= size < Width(wide) + 1 && IsCode(c)
    ensures Decode(Fresh(SaidHeader(if wide then 0xf0 else 0xe0, wide, size, n, [c] + r), encoding), TSeq(t)) == Panic
  {
    hide DecodeList, DecodeElements, SizeAndCount, ReadCode, BE, SaidHeader, Pow256;
    Pow256Values();
    SaidHeaderFront(Fresh(SaidHeader(if wide then 0xf0 else 0xe0, wide, size, n, [c] + r), encoding), if wide then 0xf0 else 0xe0, wide, size, n, [c] + r);
  }

  /** A composite with the largest count there is. */
  lemma LargestCountPanics(d: State, size: nat, r: bytes)
    requires size <= 0xFFFF_FFFF && d.rest == SaidHeader(0xd0, true, size, 0xFFFF_FFFF, r) && d.elem == None
    ensures FieldCount(d) == Panic
  {
    hide SizeAndCount, ReadCode, BE, SaidHeader, Pow256;
    Pow256Values();
    SaidHeaderFront(d, 0xd0, true, size, 0xFFFF_FFFF, r);
  }

  /** A map of half a pair. */
  lemma HalfPairPanics(r: bytes, t: Ty, u: Ty, encoding: StructEncoding)
    ensures Decode(Fresh([MAP8, 1, 1] + r, encoding), TMap(t, u)) == Panic
  {
    hide SizeAndCount, ReadCode;
    var d := Fresh([MAP8, 1, 1] + r, encoding);
    OneOctet(1);
    assert d.rest == [MAP8] + (BE(1, 1) + (BE(1, 1) + r));
    ReadFront(d, MAP8, BE(1, 1) + (BE(1, 1) + r));
    SizeAndCountFront(d.(rest := BE(1, 1) + (BE(1, 1) + r)), false, 1, 1, r);
    assert MapHead(d) == Ok((1, d.(rest := r)));
    assert DecodeEntries(d.(rest := r), TMap(t, u), 1) == Panic;
  }
}
