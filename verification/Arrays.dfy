/**
 Where a decoded array ends. The accessor checks that no element reaches past the declared body, but
 not that the elements fill it.
 */
module Arrays {
  import opened Bytes
  import opened Utf8
  import opened FormatCodes
  import opened Values
  import opened Wire
  import opened Decoder
  import opened Modes
  import opened Headers
  import opened Scalars
  import opened RoundTrip
  import opened Lazy

  /** What is left behind `count` elements under constructor `c`, by the category table alone. */
  function Walk(c: byte, input: bytes, count: nat): Outcome<bytes>
    decreases count
  {
    if count == 0 then Ok(input)
    else
      var (_, r) :- LazyPrimitive([c] + input);
      Walk(c, r, count - 1)
  }

  /** Under a constructor of fixed width that is a product. */
  lemma {:induction false} WalkFixed(c: byte, input: bytes, count: nat, w: nat)
    requires IsCode(c) && CategoryOf(c) == Fixed(w)
    ensures Walk(c, input, count) == if count * w <= |input| then Ok(input[count * w..]) else Err(UnexpectedEof)
    decreases count
  {
    hide IsCode, CategoryOf;
    if count > 0 {
      assert count * w == (count - 1) * w + w && (count - 1) * w >= 0;
      if w <= |input| {
        assert ([c] + input)[w + 1..] == input[w..];
        WalkFixed(c, input[w..], count - 1, w);
        if count * w <= |input| { assert input[w..][(count - 1) * w..] == input[count * w..]; }
      }
    }
  }

  /** A walk does not depend on what comes behind it. */
  lemma {:induction false} WalkExtends(c: byte, input: bytes, count: nat, more: bytes)
    requires Walk(c, input, count).Ok?
    ensures Walk(c, input + more, count) == Ok(Walk(c, input, count).value + more)
    decreases count
  {
    hide LazyPrimitive;
    if count > 0 {
      LazyExtends([c] + input, more);
      assert [c] + input + more == [c] + (input + more);
      WalkExtends(c, LazyPrimitive([c] + input).value.1, count - 1, more);
    }
  }

  lemma TakeKeepsElem(d: State, n: nat, wide: bool)
    ensures Take(d, n).Ok? ==> Take(d, n).value.1.elem == d.elem
    ensures Next(d).Ok? ==> Next(d).value.1.elem == d.elem
    ensures ReadCode(d).Ok? ==> ReadCode(d).value.1.elem == d.elem
    ensures TakePrefixed(d, wide).Ok? ==> TakePrefixed(d, wide).value.1.elem == d.elem
  {
  }

  lemma ParseKeepsElem(d: State, a: byte, b: byte, w: nat)
    ensures ParseFixed(d, a, w).Ok? ==> ParseFixed(d, a, w).value.1.elem == d.elem
    ensures ParseVariable(d, a, b).Ok? ==> ParseVariable(d, a, b).value.1.elem == d.elem
    ensures ParseText(d, a, b).Ok? ==> ParseText(d, a, b).value.1.elem == d.elem
    ensures ParseDecimal(d, w).Ok? ==> ParseDecimal(d, w).value.1.elem == d.elem
  {
    hide ReadCode, Take, TakePrefixed, Valid;
    TakeKeepsElem(d, 0, false);
    if ReadCode(d).Ok? {
      var d1 := ReadCode(d).value.1;
      TakeKeepsElem(d1, w, false);
      TakeKeepsElem(d1, 4, true);
      TakeKeepsElem(d1, 8, true);
      TakeKeepsElem(d1, 16, true);
    }
  }

  lemma IntegersKeepElem(d: State)
    ensures ParseBool(d).Ok? ==> ParseBool(d).value.1.elem == d.elem
    ensures ParseI32(d).Ok? ==> ParseI32(d).value.1.elem == d.elem
    ensures ParseI64(d).Ok? ==> ParseI64(d).value.1.elem == d.elem
    ensures ParseU32(d).Ok? ==> ParseU32(d).value.1.elem == d.elem
    ensures ParseU64(d).Ok? ==> ParseU64(d).value.1.elem == d.elem
  {
    hide ReadCode, Take, Next, FromBE;
    TakeKeepsElem(d, 0, false);
    if ReadCode(d).Ok? {
      TakeKeepsElem(ReadCode(d).value.1, 4, false);
      TakeKeepsElem(ReadCode(d).value.1, 8, false);
    }
  }

  /** A scalar, unlike a list, does not touch the element constructor. */
  lemma ScalarKeepsElem(d: State, k: Kind)
    ensures DecodeScalar(d, k).Ok? ==> DecodeScalar(d, k).value.1.elem == d.elem
  {
    hide ParseFixed, ParseVariable, ParseText, ParseBool, ParseI32, ParseI64, ParseU32, ParseU64, ParseDecimal, FromBE, FromTwos;
    var e := d.(nonNative := None);
    IntegersKeepElem(d);
    match k
    case KI8 => ParseKeepsElem(d, BYTE, 0, 1);
    case KI16 => ParseKeepsElem(d, SHORT, 0, 2);
    case KI64 => ParseKeepsElem(e, TIMESTAMP, 0, 8);
    case KU8 => ParseKeepsElem(d, UBYTE, 0, 1);
    case KU16 => ParseKeepsElem(d, USHORT, 0, 2);
    case KF32 => ParseKeepsElem(d, FLOAT, 0, 4);
    case KF64 => ParseKeepsElem(d, DOUBLE, 0, 8);
    case KChar => ParseKeepsElem(d, CHAR, 0, 4);
    case KTimestamp => ParseKeepsElem(e, TIMESTAMP, 0, 8);
    case KUuid => ParseKeepsElem(e, UUID, 0, 16);
    case KDec32 => ParseKeepsElem(e, 0, 0, 4);
    case KDec64 => ParseKeepsElem(e, 0, 0, 8);
    case KDec128 => ParseKeepsElem(e, 0, 0, 16);
    case KBinary => ParseKeepsElem(d, VBIN8, VBIN32, 0);
    case KStr => ParseKeepsElem(d, STR8, STR32, 0); ParseKeepsElem(e, SYM8, SYM32, 0);
    case KSym => ParseKeepsElem(e, SYM8, SYM32, 0); assert d.(nonNative := Some(NSymbol)).(nonNative := None) == e;
    case _ =>
  }

  /** On any input, decoded elements end where the walk ends. */
  lemma {:induction false} ElementsWalk(d: State, k: Kind, count: nat, size: nat, start: nat)
    requires d.elem.Some? && ElemIsCode(d) && d.nonNative == None
    requires DecodeElements(d, TPrim(k), count, size, start).Ok?
    ensures Walk(d.elem.value, d.rest, count) == Ok(DecodeElements(d, TPrim(k), count, size, start).value.1.rest)
    decreases count
  {
    hide DecodeScalar, LazyPrimitive, IsCode, IsTail;
    if count > 0 {
      assert Decode(d, TPrim(k)).Ok? && DecodeScalar(d, k).Ok?;
      ScalarSkips(d, k);
      ScalarKeepsElem(d, k);
      ScalarKeeps(d, k);
      ElementsWalk(DecodeScalar(d, k).value.1, k, count - 1, size, start);
    }
  }

  lemma VecReads(d: State, t: Ty)
    requires DecodeVec(d, t).Ok?
    ensures ReadCode(d).Ok? && SeqHead(d).Ok?
  {
    hide ReadCode, ArrayHead, ListHead, DecodeElements, DecodeList;
  }

  /**
   When a decoded array of scalars ends where its header says, on any input: with a count of zero,
   when the size covers the count and nothing else; otherwise when a walk over the body by the
   element constructor's category ends there, which for a constructor of fixed width is a product.
   */
  lemma ArrayEndsIff(d: State, k: Kind)
    requires d.nonNative == None && DecodeVec(d, TPrim(k)).Ok?
    requires ReadCode(d).value.0 == ARRAY8 || ReadCode(d).value.0 == ARRAY32
    ensures var wide := ReadCode(d).value.0 == ARRAY32;
            var h := SizeAndCount(ReadCode(d).value.1, wide);
            && h.Ok?
            && var ((size, count), d1) := h.value;
               var ends := |d1.rest| - |DecodeVec(d, TPrim(k)).value.1.rest| == size - Width(wide);
               && (count == 0 ==> (ends <==> size == Width(wide)))
               && (count > 0 ==>
                     && d1.rest != [] && IsCode(d1.rest[0])
                     && var o := Walk(d1.rest[0], d1.rest[1..], count);
                        && o.Ok? && (ends <==> |d1.rest| - |o.value| == size - Width(wide))
                        && var c := CategoryOf(d1.rest[0]);
                           c.Fixed? ==> (ends <==> count * c.width == size - Width(wide) - 1))
  {
    hide DecodeElements, DecodeList, ReadCode, SizeAndCount, IsCode, CategoryOf, Walk, IsTail, SeqHead;
    VecReads(d, TPrim(k));
    SeqHeadOfArray(d);
    var (c, d0) := ReadCode(d).value;
    var ((size, count), d1) := SizeAndCount(d0, c == ARRAY32).value;
    ReadKeeps(d);
    SizeAndCountKeeps(d0, c == ARRAY32);
    var (h, e) := SeqHead(d).value;
    if count == 0 {
      EmptyElements(e, TPrim(k), h.size, |e.rest|);
    } else {
      assert e.elem == Some(d1.rest[0]) && e.rest == d1.rest[1..];
      ElementsWalk(e, k, count, h.size, |e.rest|);
      var w := CategoryOf(d1.rest[0]);
      if w.Fixed? { WalkFixed(d1.rest[0], d1.rest[1..], count, w.width); }
    }
  }

  /**
   Bodies that are not filled: whatever size an array of one octet declares, it is decoded and all of
   `r` is left, though `pad` octets of `r` belong to the declared body.
   */
  lemma UnfilledBody(x: byte, pad: nat, r: bytes)
    requires pad <= 252
    ensures Decode(Fresh([ARRAY8, 3 + pad, 1, UBYTE, x] + r, NoEnc), TArray(TPrim(KU8))) == Ok((Array([Prim(U8(x))]), Fresh(r, NoEnc)))
  {
    hide IsCode, SizeAndCount, ReadCode, SeqHead, DecodeElements, ReadFormatCode;
    var d := Fresh([ARRAY8, 3 + pad, 1, UBYTE, x] + r, NoEnc).(enumType := EArray);
    UnfilledHead(d, x, pad, r);
    UnfilledElement(d.(rest := [x] + r, elem := Some(UBYTE)), x, pad, r);
    ArrayCodes();
  }

  lemma UnfilledHead(d: State, x: byte, pad: nat, r: bytes)
    requires pad <= 252 && d.rest == [ARRAY8, 3 + pad, 1, UBYTE, x] + r && d.elem == None
    ensures SeqHead(d) == Ok((ArrayHeader(1 + pad, 1), d.(rest := [x] + r, elem := Some(UBYTE))))
  {
    hide IsCode, SizeAndCount, ReadCode, SeqHead, ReadFormatCode;
    ArrayCodes();
    OneOctet(3 + pad);
    OneOctet(1);
    var tail := [UBYTE] + ([x] + r);
    assert d.rest == [ARRAY8] + (BE(3 + pad, 1) + (BE(1, 1) + tail));
    ReadFront(d, ARRAY8, BE(3 + pad, 1) + (BE(1, 1) + tail));
    SizeAndCountFront(d.(rest := BE(3 + pad, 1) + (BE(1, 1) + tail)), false, 3 + pad, 1, tail);
    SeqHeadOfArray(d);
    WideCodeFront(d.(rest := tail), KU8, [x] + r);
  }

  lemma UnfilledElement(d: State, x: byte, pad: nat, r: bytes)
    requires d.rest == [x] + r && d.elem == Some(UBYTE)
    ensures DecodeElements(d, TPrim(KU8), 1, 1 + pad, 1 + |r|) == Ok(([Prim(U8(x))], d.(rest := r, elem := None)))
  {
    var e := d.(rest := r);
    assert ParseFixed(d, UBYTE, 1) == Ok(([x], e));
    assert Decode(d, TPrim(KU8)) == Ok((Prim(U8(x)), e));
    assert DecodeElements(e, TPrim(KU8), 0, 1 + pad, 1 + |r|) == Ok(([], e.(elem := None)));
    assert [Prim(U8(x))] + [] == [Prim(U8(x))];
  }
}
