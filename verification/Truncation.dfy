/**
 Input that was cut off. A decoder should notice that an encoding is incomplete; this one does, except
 that the end of the input stands for the end of a composite's list.
 */
module Truncation {
  import opened Bytes
  import opened Utf8
  import opened FormatCodes
  import opened Values
  import opened Wire
  import opened Decoder
  import opened Modes
  import opened Scalars
  import opened Headers
  import opened RoundTrip
  import opened Lazy
  import opened Arrays
  import opened SizeProofs

  // ---- the cuts that go unnoticed -----------------------------------------------------------

  /**
   The first `k` octets of the encoding of `v` decode: the cut is in a composite that ends the
   encoding, at or inside a field behind which every field may be left out.
   */
  predicate Cut(v: Val, k: nat)
    decreases v, 1
  {
    match v
    case Just(x) => Cut(x, k)
    case List(vs) => Behind(v, EncodeAll(false, vs), k) && AllCut(vs, k - Head(v, EncodeAll(false, vs)))
    case Tuple(vs) => Behind(v, EncodeAll(false, vs), k) && AllCut(vs, k - Head(v, EncodeAll(false, vs)))
    case Map(es) => Behind(v, EncodeEntries(es), k) && EntriesCut(es, k - Head(v, EncodeEntries(es)))
    case Described(_, x) => Behind(v, Encode(false, x), k) && Cut(x, k - Head(v, Encode(false, x)))
    case Composite(_, fs) =>
      var n := Flushed(fs);
      Behind(v, WireBody(fs, n), k) && FieldsCut(fs, n, k - Head(v, WireBody(fs, n)))
    case NewtypeVariant(_, x) => Behind(v, Encode(false, x), k) && Cut(x, k - Head(v, Encode(false, x)))
    case TupleVariant(_, vs) => Behind(v, EncodeAll(false, vs), k) && AllCut(vs, k - Head(v, EncodeAll(false, vs)))
    case _ => false
  }

  /** How much of the encoding of `v` stands in front of its `body`. */
  function Head(v: Val, body: bytes): int {
    |Encode(false, v)| - |body|
  }

  predicate Behind(v: Val, body: bytes, k: nat) {
    k >= Head(v, body)
  }

  /** Only the last element may be cut. */
  predicate AllCut(vs: seq<Val>, j: nat)
    decreases vs, 0
  {
    && vs != []
    && if j < |Encode(false, vs[0])| then |vs| == 1 && Cut(vs[0], j) else AllCut(vs[1..], j - |Encode(false, vs[0])|)
  }

  /** Only the last value may be cut, and no key. */
  predicate EntriesCut(es: seq<Entry>, j: nat)
    decreases es, 0
  {
    && es != []
    && if j < |EncodeEntry(es[0])| then |es| == 1 && EntryCut(es[0], j) else EntriesCut(es[1..], j - |EncodeEntry(es[0])|)
  }

  predicate EntryCut(e: Entry, j: nat)
    decreases e, 0
  {
    j >= |Encode(false, e.key)| && Cut(e.value, j - |Encode(false, e.key)|)
  }

  /** At a field, if it and all fields behind it may be left out; inside a field, if it may be cut there. */
  predicate FieldsCut(fs: seq<Field>, n: nat, j: nat)
    decreases fs, 0
  {
    && fs != [] && n > 0
    && if j == 0 then Droppable(fs)
       else if j < |WireBytes(fs[0])| then FieldCut(fs[0], j) && Droppable(fs[1..])
       else FieldsCut(fs[1..], n - 1, j - |WireBytes(fs[0])|)
  }

  predicate FieldCut(f: Field, j: nat)
    decreases f, 0
  {
    !Skipped(f) && Cut(f.v, j)
  }

  predicate Droppable(fs: seq<Field>) {
    forall i :: 0 <= i < |fs| ==> !fs[i].attr.Mandatory?
  }

  /** `o` succeeds, and uses the input up, exactly when `cut`. */
  ghost predicate SucceedsIff<T>(o: Outcome<(T, State)>, cut: bool, encoding: StructEncoding) {
    if cut then o.Ok? && o.value.1 == Fresh([], encoding) else !o.Ok?
  }

  // ---- no input, and cut scalars ------------------------------------------------------------

  lemma NothingFails(t: Ty, encoding: StructEncoding)
    ensures !Decode(Fresh([], encoding), t).Ok?
  {
    hide DecodeList, DecodeElements, DecodeFields;
    if t.TPrim? {
      hide DecodeScalar, LazyPrimitive;
      ScalarSkips(Fresh([], encoding), t.k);
      NothingIsNoPrimitive();
    }
  }

  lemma NothingIsNoPrimitive()
    ensures !LazyPrimitive([]).Ok?
  {
  }

  /** No proper prefix of framed bytes is read as a primitive. */
  lemma FramedCut(b: bytes, k: nat)
    requires Framed(b) && k < |b|
    ensures !LazyPrimitive(b[..k]).Ok?
  {
    hide Framed, LazyPrimitive;
    assert b + [] == b && b == b[..k] + b[k..];
    FramedIsRead(b, []);
    if LazyPrimitive(b[..k]).Ok? { LazyExtends(b[..k], b[k..]); }
  }

  lemma ScalarCut(s: Scalar, k: nat, encoding: StructEncoding)
    requires ScalarFits(NotElem, s) && k < |ScalarBytes(NotElem, s)|
    ensures !DecodeScalar(Fresh(ScalarBytes(NotElem, s)[..k], encoding), KindOf(s)).Ok?
  {
    hide DecodeScalar, ScalarBytes, Framed, LazyPrimitive, ScalarFits;
    ScalarIsFramed(s);
    FramedCut(ScalarBytes(NotElem, s), k);
    ScalarSkips(Fresh(ScalarBytes(NotElem, s)[..k], encoding), KindOf(s));
  }

  lemma DescriptorSkips(d: State)
    requires d.elem == None && d.nonNative == None
    ensures DecodeDescriptor(d).Ok? ==> d.rest != [] && LazyPrimitive(d.rest[1..]).Ok?
    ensures DescribedHead(d).Ok? ==> DecodeDescriptor(d).Ok?
  {
    hide ParseText, ParseU64, LazyPrimitive, IsCode;
    if Next(d).Ok? {
      var d2 := Next(d).value.1.(enumType := ENone);
      assert d2.(nonNative := Some(NSymbol)).(nonNative := None) == d2;
      SymbolCodes();
      VariableSkips(d2, SYM8, SYM32);
      IntegersSkip(d2);
    }
  }

  lemma SymbolCodes()
    ensures IsCode(SYM8) && CategoryOf(SYM8) == Prefixed(1) && IsCode(SYM32) && CategoryOf(SYM32) == Prefixed(4)
  {
  }

  lemma DescriptorCut(x: Descriptor, k: nat, encoding: StructEncoding)
    requires ScalarFits(NotElem, DescriptorScalar(x)) && k < |DescriptorBytes(NotElem, x)|
    ensures !DescribedHead(Fresh(DescriptorBytes(NotElem, x)[..k], encoding)).Ok?
  {
    hide DescribedHead, DecodeDescriptor, ScalarBytes, Framed, LazyPrimitive, ScalarFits;
    var b := ScalarBytes(NotElem, DescriptorScalar(x));
    var d := Fresh(DescriptorBytes(NotElem, x)[..k], encoding);
    DescriptorSkips(d);
    if k > 0 {
      assert d.rest[1..] == b[..k - 1];
      ScalarIsFramed(DescriptorScalar(x));
      FramedCut(b, k - 1);
    }
  }

  lemma IndexCut(i: u32, k: nat, encoding: StructEncoding)
    requires k < |ScalarBytes(NotElem, U32(i))|
    ensures !DecodeIdent(Fresh(ScalarBytes(NotElem, U32(i))[..k], encoding)).Ok?
  {
    hide ParseU32, ScalarBytes, DecodeStr, DecodeSymbol, ParseU64, PeekDescriptor, IsCode;
    var d := Fresh(ScalarBytes(NotElem, U32(i))[..k], encoding);
    IndexStart(i);
    U32Cut(i, k, encoding);
    if k > 0 { assert d.rest[0] == ScalarBytes(NotElem, U32(i))[0]; }
  }

  lemma U32Cut(i: u32, k: nat, encoding: StructEncoding)
    requires k < |ScalarBytes(NotElem, U32(i))|
    ensures !ParseU32(Fresh(ScalarBytes(NotElem, U32(i))[..k], encoding)).Ok?
  {
    hide ScalarBytes, ParseU32;
    ScalarCut(U32(i), k, encoding);
  }

  // ---- cut headers --------------------------------------------------------------------------

  lemma NeedsOctets(d: State, wide: bool)
    ensures SizeAndCount(d, wide).Ok? ==> |d.rest| >= 2 * Width(wide)
  {
    hide FromBE;
  }

  /** A header of a cut input: not there, not complete, or complete in front of a cut body. */
  lemma HeaderCut(d: State, code: byte, num: nat, buf: bytes, k: nat)
    requires num <= |buf| <= MAX_BODY && d.elem == None && IsCode(code)
    requires k < |ExactHeader(code, Wide(buf), num, buf)| && d.rest == ExactHeader(code, Wide(buf), num, buf)[..k]
    ensures var w := Width(Wide(buf));
            && |ExactHeader(code, Wide(buf), num, buf)| == 1 + 2 * w + |buf|
            && (k > 0 ==>
                  && PeekCode(d) == PeekByte(d) == Ok(code) && Next(d) == ReadCode(d) && ReadCode(d).Ok? && ReadCode(d).value.0 == code
                  && SizeAndCount(ReadCode(d).value.1, Wide(buf)).Ok? == (k >= 1 + 2 * w)
                  && (k >= 1 + 2 * w ==>
                        SizeAndCount(ReadCode(d).value.1, Wide(buf)) == Ok(((|buf| + w, num), d.(rest := buf[..k - 1 - 2 * w])))))
  {
    hide BE, SizeAndCount, Pow256, IsCode, WriteCompound;
    HeaderIsLossless(0, 0, num, buf);
    var w := Width(Wide(buf));
    var a, b := BE(|buf| + w, w), BE(num, w);
    var all := [code] + (a + (b + buf));
    assert all == ExactHeader(code, Wide(buf), num, buf);
    if k > 0 {
      var tail := (a + (b + buf))[..k - 1];
      assert d.rest == [code] + tail;
      ReadFront(d, code, tail);
      NeedsOctets(d.(rest := tail), Wide(buf));
      if k >= 1 + 2 * w {
        var r := buf[..k - 1 - 2 * w];
        assert tail == a + (b + r);
        SizeAndCountFront(d.(rest := tail), Wide(buf), |buf| + w, num, r);
      }
    }
  }

  lemma ListCut(d: State, n: nat, buf: bytes, k: nat)
    requires n <= |buf| <= MAX_BODY && (buf == [] ==> n == 0) && d.elem == None
    requires k < |Written(WriteList(NotElem, n, buf))| && d.rest == Written(WriteList(NotElem, n, buf))[..k]
    ensures var h := |Written(WriteList(NotElem, n, buf))| - |buf|;
            && h >= 1
            && (k < h ==> !SeqHead(d).Ok? && !TupleHead(d, n).Ok? && !FieldCount(d).Ok?)
            && (k >= h ==>
                  var d1 := d.(rest := buf[..k - h]);
                  && (n <= MAX_COUNT ==> SeqHead(d) == Ok((ListHeader(n), d1)))
                  && TupleHead(d, n) == Ok(d1) && FieldCount(d) == Ok((n, d1)))
  {
    hide WriteCompound, SizeAndCount, IsCode;
    ListCodes();
    if buf != [] {
      var code := if Wide(buf) then LIST32 else LIST8;
      HeaderIsLossless(LIST8, LIST32, n, buf);
      HeaderCut(d, code, n, buf, k);
    }
  }

  lemma ListCodes()
    ensures IsCode(LIST8) && IsCode(LIST32) && IsCode(MAP8) && IsCode(MAP32)
  {
  }

  lemma MapCut(d: State, n: nat, buf: bytes, k: nat)
    requires n <= |buf| <= MAX_BODY && d.elem == None
    requires k < |Written(WriteMap(NotElem, n, buf))| && d.rest == Written(WriteMap(NotElem, n, buf))[..k]
    ensures var h := |Written(WriteMap(NotElem, n, buf))| - |buf|;
            && h >= 1
            && (k < h ==> !MapHead(d).Ok? && !EnumHead(d).Ok?)
            && (k >= h ==>
                  var d1 := d.(rest := buf[..k - h]);
                  && (n <= MAX_COUNT ==> MapHead(d) == Ok((n, d1)))
                  && (n == 2 ==> EnumHead(d) == Ok(d1)))
  {
    hide WriteCompound, SizeAndCount, IsCode;
    ListCodes();
    HeaderIsLossless(MAP8, MAP32, n, buf);
    HeaderCut(d, if Wide(buf) then MAP32 else MAP8, n, buf, k);
  }

  // ---- cut arrays ---------------------------------------------------------------------------

  /** The elements of an encoded array fill its body. */
  lemma BodyWalk(vs: seq<Val>, k: Kind)
    requires AllOfKind(vs, k) && AllAscii(vs) && |ArrayBody(Other, vs)| <= MAX_BODY
    ensures Walk(WideCode(k), ArrayBody(Other, vs), |vs|) == Ok([])
  {
    hide ArrayBody, DecodeElements, Walk, AsciiIfStr, IsCode;
    var b := ArrayBody(Other, vs);
    var d := Fresh(b, NoEnc).(elem := Some(WideCode(k)));
    assert b + [] == b;
    ElementsExactly(d, vs, k, [], |b|, |b|);
    WideIsCode(k);
    ElementsWalk(d, k, |vs|, |b|, |b|);
  }

  lemma WideIsCode(k: Kind)
    ensures IsCode(WideCode(k))
  {
  }

  lemma ElementsCut(d: State, vs: seq<Val>, k: Kind, j: nat, size: nat, start: nat)
    requires AllOfKind(vs, k) && AllAscii(vs) && |ArrayBody(Other, vs)| <= MAX_BODY && j < |ArrayBody(Other, vs)|
    requires d.elem == Some(WideCode(k)) && d.nonNative == None && d.rest == ArrayBody(Other, vs)[..j]
    ensures !DecodeElements(d, TPrim(k), |vs|, size, start).Ok?
  {
    hide ArrayBody, DecodeElements, Walk, AsciiIfStr, IsCode;
    WideIsCode(k);
    BodyWalk(vs, k);
    var b := ArrayBody(Other, vs);
    assert b == b[..j] + b[j..];
    if DecodeElements(d, TPrim(k), |vs|, size, start).Ok? {
      ElementsWalk(d, k, |vs|, size, start);
      WalkExtends(WideCode(k), b[..j], |vs|, b[j..]);
    }
  }

  lemma ArrayCut(vs: seq<Val>, kind: Kind, k: nat, encoding: StructEncoding)
    requires AllOfKind(vs, kind) && |ArrayBody(First, vs)| <= MAX_BODY && Decodable(Array(vs))
    requires k < |Encode(false, Array(vs))|
    ensures !DecodeArray(Fresh(Encode(false, Array(vs))[..k], encoding), TPrim(kind)).Ok?
  {
    hide DecodeVec, Fits, Decodable, AllAscii, Encode, ArrayBody, IsCode, WriteCompound, ExactHeader, ReadCode, SizeAndCount, SeqHead,
         ReadFormatCode, Next;
    ArrayFacts(vs, kind);
    var d := Fresh(Encode(false, Array(vs))[..k], encoding).(enumType := EArray);
    var buf := ArrayBody(First, vs);
    var code := if Wide(buf) then ARRAY32 else ARRAY8;
    ArrayCodes();
    HeaderCut(d, code, |vs|, buf, k);
    if k > 0 {
      SeqHeadOfArray(d);
      CutVec(d, vs, kind, k);
    }
  }

  lemma ArrayFacts(vs: seq<Val>, kind: Kind)
    requires AllOfKind(vs, kind) && |ArrayBody(First, vs)| <= MAX_BODY && Decodable(Array(vs))
    ensures var buf := ArrayBody(First, vs);
            && |vs| <= |buf| && AllAscii(vs)
            && Encode(false, Array(vs)) == ExactHeader(if Wide(buf) then ARRAY32 else ARRAY8, Wide(buf), |vs|, buf)
  {
    hide ArrayBody, ExactHeader, AsciiIfStr;
    CompoundHeadersAreExact(Array(vs));
  }

  /** The header of a cut array leads nowhere. */
  lemma CutVec(d: State, vs: seq<Val>, kind: Kind, k: nat)
    requires AllOfKind(vs, kind) && AllAscii(vs) && |vs| <= |ArrayBody(First, vs)| <= MAX_BODY
    requires d.nonNative == None && ReadCode(d).Ok?
    requires var buf := ArrayBody(First, vs);
             var w := Width(Wide(buf));
             && k < 1 + 2 * w + |buf|
             && SeqHead(d) == ArrayHead(ReadCode(d).value.1, Wide(buf))
             && SizeAndCount(ReadCode(d).value.1, Wide(buf)).Ok? == (k >= 1 + 2 * w)
             && (k >= 1 + 2 * w ==>
                   SizeAndCount(ReadCode(d).value.1, Wide(buf)) == Ok(((|buf| + w, |vs|), d.(rest := buf[..k - 1 - 2 * w]))))
    ensures !DecodeVec(d, TPrim(kind)).Ok?
  {
    hide ArrayBody, IsCode, ReadCode, SizeAndCount, AsciiIfStr, SeqHead, DecodeElements, DecodeList;
    var buf := ArrayBody(First, vs);
    var j := k - 1 - 2 * Width(Wide(buf));
    if vs == [] { EmptyArrayBody(); }
    if j > 0 {
      ArrayBodyFactors(vs, kind);
      var rest := ArrayBody(Other, vs)[..j - 1];
      assert buf[..j] == [WideCode(kind)] + rest;
      WideCodeFront(d.(rest := buf[..j]), kind, rest);
      var e := d.(rest := rest, elem := Some(WideCode(kind)));
      ElementsCut(e, vs, kind, j - 1, |ArrayBody(Other, vs)|, |rest|);
    }
  }

  // ---- cut sequences ------------------------------------------------------------------------

  /** The first value, cut, or the first value in front of cut others. */
  lemma SplitAt(a: bytes, b: bytes, j: nat)
    requires j < |a + b|
    ensures j < |a| ==> (a + b)[..j] == a[..j]
    ensures j >= |a| ==> (a + b)[..j] == a + b[..j - |a|] && j - |a| < |b|
  {
  }

  lemma InFront(v: Val, t: Ty, r: bytes, encoding: StructEncoding)
    requires Typed(v, t) && Decodable(v)
    ensures var o := Decode(Fresh(Encode(false, v) + r, encoding), t); o.Ok? && o.value.1 == Fresh(r, encoding)
  {
    hide Encode, Decode, Typed, Norm, Decodable;
    ValueExactly(v, t, r, encoding);
  }

  lemma ListStep(d: State, t: Ty, n: nat)
    ensures n == 0 ==> DecodeList(d, t, n) == Ok(([], d))
    ensures n > 0 ==>
              var o, p := Decode(d, t), DecodeList(d, t, n);
              && (!o.Ok? ==> !p.Ok?)
              && (o.Ok? ==> var q := DecodeList(o.value.1, t, n - 1); (p.Ok? <==> q.Ok?) && (p.Ok? ==> p.value.1 == q.value.1))
  {
    hide Decode;
  }

  lemma {:induction false} ListElementsCut(vs: seq<Val>, t: Ty, j: nat, encoding: StructEncoding)
    requires forall i :: 0 <= i < |vs| ==> Typed(vs[i], t)
    requires AllDecodable(vs) && j < |EncodeAll(false, vs)|
    ensures SucceedsIff(DecodeList(Fresh(EncodeAll(false, vs)[..j], encoding), t, |vs|), AllCut(vs, j), encoding)
    decreases vs, 0
  {
    hide Encode, Decode, Typed, Decodable, Cut, DecodeList;
    var e := Encode(false, vs[0]);
    SplitAt(e, EncodeAll(false, vs[1..]), j);
    ListStep(Fresh(EncodeAll(false, vs)[..j], encoding), t, |vs|);
    if j < |e| {
      ValueCut(vs[0], t, j, encoding);
      ListStep(Fresh([], encoding), t, |vs| - 1);
      NothingFails(t, encoding);
    } else {
      InFront(vs[0], t, EncodeAll(false, vs[1..])[..j - |e|], encoding);
      ListElementsCut(vs[1..], t, j - |e|, encoding);
    }
  }

  lemma {:induction false} TupleElementsCut(vs: seq<Val>, ts: seq<Ty>, j: nat, encoding: StructEncoding)
    requires |vs| == |ts| && forall i :: 0 <= i < |vs| ==> Typed(vs[i], ts[i])
    requires AllDecodable(vs) && j < |EncodeAll(false, vs)|
    ensures SucceedsIff(DecodeTuple(Fresh(EncodeAll(false, vs)[..j], encoding), ts), AllCut(vs, j), encoding)
    decreases vs, 0
  {
    hide Encode, Decode, Typed, Decodable, Cut;
    var e := Encode(false, vs[0]);
    SplitAt(e, EncodeAll(false, vs[1..]), j);
    if j < |e| {
      ValueCut(vs[0], ts[0], j, encoding);
      if |ts| > 1 { NothingFails(ts[1], encoding); }
    } else {
      InFront(vs[0], ts[0], EncodeAll(false, vs[1..])[..j - |e|], encoding);
      TupleElementsCut(vs[1..], ts[1..], j - |e|, encoding);
    }
  }

  lemma {:induction false} EntryIsCut(e: Entry, t: Ty, j: nat, encoding: StructEncoding)
    requires t.TMap? && EntryTyped(e, t) && EntryDecodable(e) && j < |EncodeEntry(e)|
    ensures var o := Decode(Fresh(EncodeEntry(e)[..j], encoding), t.key);
            if EntryCut(e, j) then o.Ok? && SucceedsIff(Decode(o.value.1, t.value), true, encoding)
            else o.Ok? ==> !Decode(o.value.1, t.value).Ok?
    decreases e, 0
  {
    hide Encode, Decode, Typed, Decodable, Cut;
    var a, b := Encode(false, e.key), Encode(false, e.value);
    SplitAt(a, b, j);
    if j < |a| {
      ValueCut(e.key, t.key, j, encoding);
      NothingFails(t.value, encoding);
    } else {
      InFront(e.key, t.key, b[..j - |a|], encoding);
      ValueCut(e.value, t.value, j - |a|, encoding);
    }
  }

  lemma {:induction false} EntriesAreCut(es: seq<Entry>, t: Ty, j: nat, encoding: StructEncoding)
    requires t.TMap? && (forall i :: 0 <= i < |es| ==> EntryTyped(es[i], t)) && EntriesDecodable(es)
    requires j < |EncodeEntries(es)|
    ensures SucceedsIff(DecodeEntries(Fresh(EncodeEntries(es)[..j], encoding), t, 2 * |es|), EntriesCut(es, j), encoding)
    decreases es, 0
  {
    hide EncodeEntry, Decode, EntryTyped, EntryDecodable, EntryCut;
    var e := EncodeEntry(es[0]);
    var more := EncodeEntries(es[1..]);
    SplitAt(e, more, j);
    if j < |e| {
      EntryIsCut(es[0], t, j, encoding);
      NothingFails(t.key, encoding);
    } else {
      EntryInFront(es[0], t, more[..j - |e|], encoding);
      EntriesAreCut(es[1..], t, j - |e|, encoding);
    }
  }

  lemma EntryInFront(e: Entry, t: Ty, r: bytes, encoding: StructEncoding)
    requires t.TMap? && EntryTyped(e, t) && EntryDecodable(e)
    ensures var o := Decode(Fresh(EncodeEntry(e) + r, encoding), t.key);
            o.Ok? && Decode(o.value.1, t.value).Ok? && Decode(o.value.1, t.value).value.1 == Fresh(r, encoding)
  {
    hide Encode, Decode, Typed, Norm, Decodable;
    assert EncodeEntry(e) + r == Encode(false, e.key) + (Encode(false, e.value) + r);
    EntryExactly(e, t, r, encoding);
  }

  // ---- cut options and fields ---------------------------------------------------------------

  lemma {:induction false} OptionIsCut(x: Val, t: Ty, k: nat, encoding: StructEncoding)
    requires Typed(x, t) && Decodable(x) && !Nullish(x) && k < |Encode(false, x)|
    ensures SucceedsIff(DecodeOption(Fresh(Encode(false, x)[..k], encoding), t), Cut(x, k), encoding)
    decreases x, 3
  {
    hide Encode, Decode, Decodable, IsCode, Nullish, Typed, Fits, Cut, ReadCode, PeekCode;
    TypedFits(x, t);
    ValueCut(x, t, k, encoding);
    CutPeek(x, k, encoding);
    if k == 0 { NothingFails(t, encoding); }
  }

  lemma TypedFits(x: Val, t: Ty)
    requires Typed(x, t)
    ensures Fits(false, x)
  {
    hide HasType, ScalarArrays, Fits;
  }

  lemma CutPeek(x: Val, k: nat, encoding: StructEncoding)
    requires Fits(false, x) && !Nullish(x) && k <= |Encode(false, x)|
    ensures var o := PeekCode(Fresh(Encode(false, x)[..k], encoding)); if k == 0 then !o.Ok? else o.Ok? && o.value != NULL
  {
    hide Encode, Fits, IsCode, Nullish;
    EncodingStart(false, x);
    if k > 0 { assert Encode(false, x)[..k][0] == Encode(false, x)[0]; }
  }

  lemma {:induction false} FieldIsCut(f: Field, ft: FieldTy, j: nat, encoding: StructEncoding)
    requires FieldTyped(f, ft) && FieldDecodable(f) && 0 < j < |WireBytes(f)|
    ensures SucceedsIff(DecodeField(Fresh(WireBytes(f)[..j], encoding), ft), FieldCut(f, j), encoding)
    decreases f, 0
  {
    hide Encode, Decode, DecodeOption, DecodeArray, Nullish, Fits, ScalarArrays, Cut, HasType, DecodeMultiple;
    match ft.attr
    case Multiple => MultipleIsCut(f, ft, j, encoding);
    case Mandatory => ValueCut(f.v, ft.t, j, encoding);
    case Optional => JustField(f, ft); JustIsCut(f.v, j); OptionIsCut(f.v.v, ft.t, j, encoding);
    case Default(_) => OptionIsCut(f.v, ft.t, j, encoding);
  }

  lemma JustIsCut(v: Val, j: nat)
    requires v.Just?
    ensures Cut(v, j) == Cut(v.v, j) && Encode(false, v) == Encode(false, v.v)
  {
  }

  lemma MultipleIsCut(f: Field, ft: FieldTy, j: nat, encoding: StructEncoding)
    requires FieldTyped(f, ft) && FieldDecodable(f) && 0 < j < |WireBytes(f)| && ft.attr.Multiple?
    ensures !DecodeMultiple(Fresh(WireBytes(f)[..j], encoding), ft.t).Ok? && !FieldCut(f, j)
  {
    hide DecodeArray, ArrayBody, IsCode;
    var vs := f.v.v.vs;
    assert Fits(false, f.v) && Fits(false, Array(vs));
    assert AllOfKind(vs, ft.t.k) by {
      assert AllHaveType(vs, ft.t);
      forall i | 0 <= i < |vs| ensures vs[i].Prim? && KindOf(vs[i].s) == ft.t.k { assert HasType(vs[i], ft.t); }
    }
    assert WireBytes(f) == Encode(false, Array(vs));
    assert Decodable(Array(vs));
    assert !Cut(f.v, j) && !Cut(Array(vs), j);
    EncodingStart(false, Array(vs));
    hide Encode, Decodable;
    assert WireBytes(f)[..j][0] == Encode(false, Array(vs))[0];
    ArrayCut(vs, ft.t.k, j, encoding);
  }

  lemma {:induction false} MissingFields(fs: seq<Field>, fts: seq<FieldTy>, left: nat, encoding: StructEncoding)
    requires |fs| == |fts| && forall i :: 0 <= i < |fs| ==> fs[i].attr == fts[i].attr
    ensures SucceedsIff(DecodeFields(Fresh([], encoding), left, fts), Droppable(fs), encoding)
    decreases |fs|
  {
    hide DecodeField;
    if fs != [] {
      MissingFields(fs[1..], fts[1..], left, encoding);
      assert Droppable(fs) <==> !fs[0].attr.Mandatory? && Droppable(fs[1..]);
    }
  }

  lemma SameAttrs(fs: seq<Field>, fts: seq<FieldTy>)
    requires FieldsTyped(fs, fts)
    ensures |fs| == |fts| && forall i :: 0 <= i < |fs| ==> fs[i].attr == fts[i].attr
  {
    forall i | 0 <= i < |fs| ensures fs[i].attr == fts[i].attr { assert FieldTyped(fs[i], fts[i]); }
  }

  lemma {:induction false} FieldsAreCut(fs: seq<Field>, fts: seq<FieldTy>, n: nat, j: nat, encoding: StructEncoding)
    requires FieldsTyped(fs, fts) && FieldsDecodable(fs) && n <= |fs| && j < |WireBody(fs, n)|
    ensures SucceedsIff(DecodeFields(Fresh(WireBody(fs, n)[..j], encoding), n, fts), FieldsCut(fs, n, j), encoding)
    decreases fs, 0
  {
    hide DecodeField, FieldTyped, WireBytes, FieldDecodable, IsCode, Skipped, MissingField, FieldCut, NormField, Droppable;
    SameAttrs(fs, fts);
    var f, ft, b := fs[0], fts[0], WireBytes(fs[0]);
    assert FieldTyped(f, ft) && FieldDecodable(f);
    var more := WireBody(fs[1..], n - 1);
    var d := Fresh(WireBody(fs, n)[..j], encoding);
    SplitAt(b, more, j);
    FieldTypedFits(f, ft);
    WireStart(f);
    if j == 0 {
      MissingFields(fs, fts, n, encoding);
    } else if j < |b| {
      assert d.rest[0] == b[0];
      FieldIsCut(f, ft, j, encoding);
      MissingFields(fs[1..], fts[1..], n - 1, encoding);
    } else {
      assert d.rest[0] == b[0];
      FieldExactly(f, ft, more[..j - |b|], encoding);
      FieldsAreCut(fs[1..], fts[1..], n - 1, j - |b|, encoding);
    }
  }

  // ---- cut values ---------------------------------------------------------------------------

  lemma {:induction false} SeqIsCut(v: Val, t: Ty, k: nat, encoding: StructEncoding)
    requires Typed(v, t) && v.List? && t.TSeq? && Decodable(v) && k < |Encode(false, v)|
    ensures SucceedsIff(Decode(Fresh(Encode(false, v)[..k], encoding), t), Cut(v, k), encoding)
    decreases v, 0
  {
    hide SeqHead, DecodeList, WriteList, EncodeAll, AllCut;
    assert AllHaveType(v.vs, t.t) && AllFit(v.vs) && AllDecodable(v.vs);
    AllTakeAnOctet(v.vs);
    EmptyAll();
    var buf := EncodeAll(false, v.vs);
    ListCut(Fresh(Encode(false, v)[..k], encoding), |v.vs|, buf, k);
    var h := |Encode(false, v)| - |buf|;
    if k >= h { ListElementsCut(v.vs, t.t, k - h, encoding); }
  }

  lemma {:induction false} TupleIsCut(v: Val, t: Ty, k: nat, encoding: StructEncoding)
    requires Typed(v, t) && v.Tuple? && t.TTuple? && Decodable(v) && k < |Encode(false, v)|
    ensures SucceedsIff(Decode(Fresh(Encode(false, v)[..k], encoding), t), Cut(v, k), encoding)
    decreases v, 0
  {
    hide TupleHead, DecodeTuple, WriteList, EncodeAll, AllCut, AllFit;
    assert EachHasType(v.vs, t.ts) && AllFit(v.vs) && AllDecodable(v.vs);
    TupleListCut(v.vs, t.ts, k, encoding);
  }

  lemma {:induction false} TupleListCut(vs: seq<Val>, ts: seq<Ty>, k: nat, encoding: StructEncoding)
    requires EachHasType(vs, ts) && AllFit(vs) && AllDecodable(vs) && forall i :: 0 <= i < |ts| ==> ScalarArrays(ts[i])
    requires |EncodeAll(false, vs)| <= MAX_BODY && k < |Written(WriteList(NotElem, |vs|, EncodeAll(false, vs)))|
    ensures var all := EncodeAll(false, vs);
            var buf := Written(WriteList(NotElem, |vs|, all));
            var h := |buf| - |all|;
            var d := Fresh(buf[..k], encoding);
            && (k < h ==> !TupleHead(d, |ts|).Ok?)
            && (k >= h ==>
                  && TupleHead(d, |ts|).Ok?
                  && SucceedsIff(DecodeTuple(TupleHead(d, |ts|).value, ts), AllCut(vs, k - h), encoding))
    decreases vs, 1
  {
    hide WriteList, TupleHead, DecodeTuple, EncodeAll, AllCut, Fits, HasType, ScalarArrays, Decodable, SeqHead, FieldCount;
    AllTakeAnOctet(vs);
    EmptyAll();
    var all := EncodeAll(false, vs);
    var buf := Written(WriteList(NotElem, |vs|, all));
    ListCut(Fresh(buf[..k], encoding), |vs|, all, k);
    var h := |buf| - |all|;
    if k >= h { TupleElementsCut(vs, ts, k - h, encoding); }
  }

  lemma {:induction false} MapIsCut(v: Val, t: Ty, k: nat, encoding: StructEncoding)
    requires Typed(v, t) && v.Map? && t.TMap? && Decodable(v) && k < |Encode(false, v)|
    ensures SucceedsIff(Decode(Fresh(Encode(false, v)[..k], encoding), t), Cut(v, k), encoding)
    decreases v, 0
  {
    hide MapHead, DecodeEntries, WriteMap, EncodeEntries, EntriesCut, EntryFits, EntryHasType, EntryDecodable;
    assert EntriesFit(v.entries) && EntriesDecodable(v.entries);
    MapBodyCut(v.entries, t, k, encoding);
  }

  lemma {:induction false} MapBodyCut(es: seq<Entry>, t: Ty, k: nat, encoding: StructEncoding)
    requires t.TMap? && ScalarArrays(t.key) && ScalarArrays(t.value) && EntriesFit(es) && EntriesDecodable(es) && 2 * |es| <= MAX_COUNT
    requires forall i :: 0 <= i < |es| ==> EntryHasType(es[i], t.key, t.value)
    requires |EncodeEntries(es)| <= MAX_BODY && k < |Written(WriteMap(NotElem, 2 * |es|, EncodeEntries(es)))|
    ensures var buf := EncodeEntries(es);
            var all := Written(WriteMap(NotElem, 2 * |es|, buf));
            var h := |all| - |buf|;
            var o := MapHead(Fresh(all[..k], encoding));
            && (k < h ==> !o.Ok?)
            && (k >= h ==> o.Ok? && SucceedsIff(DecodeEntries(o.value.1, t, o.value.0), EntriesCut(es, k - h), encoding))
    decreases es, 1
  {
    hide MapHead, DecodeEntries, WriteMap, EncodeEntries, EntriesCut, EntryDecodable, ScalarArrays, HasType, Fits, EnumHead;
    forall i | 0 <= i < |es| ensures EntryTyped(es[i], t) { assert EntryHasType(es[i], t.key, t.value) && EntryFits(es[i]); }
    EntriesTakeTwoOctets(es);
    var buf := EncodeEntries(es);
    var all := Written(WriteMap(NotElem, 2 * |es|, buf));
    MapCut(Fresh(all[..k], encoding), 2 * |es|, buf, k);
    var h := |all| - |buf|;
    if k >= h { EntriesAreCut(es, t, k - h, encoding); }
  }

  lemma {:induction false} DescribedIsCut(v: Val, t: Ty, k: nat, encoding: StructEncoding)
    requires Typed(v, t) && v.Described? && t.TDescribed? && Decodable(v) && k < |Encode(false, v)|
    ensures SucceedsIff(Decode(Fresh(Encode(false, v)[..k], encoding), t), Cut(v, k), encoding)
    decreases v, 0
  {
    hide DescribedHead, DescriptorBytes, ScalarFits, Typed, Decodable, Encode, Decode, Cut;
    var h, b := DescriptorBytes(NotElem, v.d), Encode(false, v.v);
    DescribedParts(v, t, k, Fresh(Encode(false, v)[..k], encoding));
    SplitAt(h, b, k);
    if k < |h| {
      DescriptorCut(v.d, k, BasicEnc);
    } else {
      DescribedBodyCut(v, t, k - |h|, encoding);
    }
  }

  lemma DescribedParts(v: Val, t: Ty, k: nat, d: State)
    requires Typed(v, t) && v.Described? && t.TDescribed? && Decodable(v)
    ensures Typed(v.v, t.t) && Decodable(v.v) && ScalarFits(NotElem, DescriptorScalar(v.d))
    ensures Encode(false, v) == DescriptorBytes(NotElem, v.d) + Encode(false, v.v)
    ensures Cut(v, k) <==> k >= |DescriptorBytes(NotElem, v.d)| && Cut(v.v, k - |DescriptorBytes(NotElem, v.d)|)
    ensures Decode(d, t) == DecodeDescribed(d, t.t)
  {
    hide DescriptorBytes, ScalarFits, DecodeDescribed;
  }

  lemma {:induction false} DescribedBodyCut(v: Val, t: Ty, j: nat, encoding: StructEncoding)
    requires v.Described? && t.TDescribed? && Typed(v.v, t.t) && Decodable(v.v) && j < |Encode(false, v.v)|
    requires ScalarFits(NotElem, DescriptorScalar(v.d))
    ensures SucceedsIff(DecodeDescribed(Fresh(DescriptorBytes(NotElem, v.d) + Encode(false, v.v)[..j], encoding), t.t), Cut(v.v, j), encoding)
    decreases v.v, 3
  {
    hide DescribedHead, DescriptorBytes, ScalarFits, Encode, Decode, Cut, Decodable, Fits, HasType, ScalarArrays, IsCode, Nullish;
    var b := Encode(false, v.v);
    DescriptorFront(Fresh(DescriptorBytes(NotElem, v.d) + b[..j], BasicEnc), v.d, b[..j]);
    EncodingStart(false, v.v);
    ValueCut(v.v, t.t, j, BasicEnc);
    NothingFails(t.t, BasicEnc);
    if j > 0 { assert b[..j][0] == b[0]; }
  }

  lemma {:induction false} CompositeIsCut(v: Val, t: Ty, k: nat, encoding: StructEncoding)
    requires Typed(v, t) && v.Composite? && t.TComposite? && Decodable(v) && k < |Encode(false, v)|
    ensures SucceedsIff(Decode(Fresh(Encode(false, v)[..k], encoding), t), Cut(v, k), encoding)
    decreases v, 0
  {
    hide DecodeComposite, EncodeComposite, ScalarFits, FieldFits, FieldHasType, Skipped, WireBody, FieldsCut, Flushed, FieldDecodable;
    assert FieldsHaveType(v.fields, t.fields) && FieldsFit(v.fields);
    assert FieldsTyped(v.fields, t.fields) && FieldsDecodable(v.fields);
    assert Encode(false, v) == EncodeComposite(v.d, v.fields, Flushed(v.fields));
    CompositeBodyCut(v.fields, t.name, t.code, t.fields, k, encoding);
  }

  lemma {:induction false} CompositeBodyCut(fs: seq<Field>, name: str, code: Option<u64>, fts: seq<FieldTy>, k: nat, encoding: StructEncoding)
    requires FieldsTyped(fs, fts) && FieldsDecodable(fs) && |WireBody(fs, Flushed(fs))| <= MAX_BODY
    requires ScalarFits(NotElem, DescriptorScalar(DescriptorOf(name, code)))
    requires k < |EncodeComposite(DescriptorOf(name, code), fs, Flushed(fs))|
    ensures var x, n := DescriptorOf(name, code), Flushed(fs);
            var h := |EncodeComposite(x, fs, n)| - |WireBody(fs, n)|;
            && h >= 0
            && SucceedsIff(DecodeComposite(Fresh(EncodeComposite(x, fs, n)[..k], encoding), name, code, fts), k >= h && FieldsCut(fs, n, k - h), encoding)
    decreases fs, 2
  {
    hide DescribedHead, FieldCount, DecodeFields, DecodeComposite, WriteList, DescriptorBytes, WireBody, FieldsTyped, ScalarFits, FieldsCut,
         Flushed, FieldsDecodable, Skipped, DescriptorMatches, DescriptorOf;
    var x, n := DescriptorOf(name, code), Flushed(fs);
    var a, body := DescriptorBytes(NotElem, x), WireBody(fs, n);
    var l := Written(WriteList(NotElem, n, body));
    SplitAt(a, l, k);
    ListIsLonger(n, body);
    CompositeSteps(Fresh((a + l)[..k], encoding), name, code, fts);
    if k < |a| {
      DescriptorCut(x, k, ListEnc);
    } else {
      DescriptorFront(Fresh(a + l[..k - |a|], ListEnc), x, l[..k - |a|]);
      FieldListCut(fs, fts, k - |a|);
    }
  }

  lemma CompositeSteps(d: State, name: str, code: Option<u64>, fts: seq<FieldTy>)
    ensures var h := DescribedHead(d.(encoding := ListEnc));
            && (!h.Ok? ==> !DecodeComposite(d, name, code, fts).Ok?)
            && (h.Ok? && h.value.0 == DescriptorOf(name, code) ==>
                  var c := FieldCount(h.value.1);
                  && (!c.Ok? ==> !DecodeComposite(d, name, code, fts).Ok?)
                  && (c.Ok? ==>
                        var p, o := DecodeFields(c.value.1, c.value.0, fts), DecodeComposite(d, name, code, fts);
                        (o.Ok? <==> p.Ok?) && (o.Ok? ==> o.value.1 == p.value.1.(encoding := d.encoding))))
  {
    hide DescribedHead, FieldCount, DecodeFields;
  }

  lemma {:induction false} FieldListCut(fs: seq<Field>, fts: seq<FieldTy>, k: nat)
    requires FieldsTyped(fs, fts) && FieldsDecodable(fs) && |WireBody(fs, Flushed(fs))| <= MAX_BODY
    requires k < |Written(WriteList(NotElem, Flushed(fs), WireBody(fs, Flushed(fs))))|
    ensures var n, body := Flushed(fs), WireBody(fs, Flushed(fs));
            var l := Written(WriteList(NotElem, n, body));
            var h := |l| - |body|;
            var o := FieldCount(Fresh(l[..k], ListEnc));
            && (k < h ==> !o.Ok?)
            && (k >= h ==> o.Ok? && SucceedsIff(DecodeFields(o.value.1, o.value.0, fts), FieldsCut(fs, n, k - h), ListEnc))
    decreases fs, 1
  {
    hide FieldCount, DecodeFields, WriteList, WireBody, FieldTyped, FieldsCut, Flushed, FieldDecodable, FieldFits, Skipped, SeqHead, TupleHead;
    var n, body := Flushed(fs), WireBody(fs, Flushed(fs));
    var l := Written(WriteList(NotElem, n, body));
    FieldsTypedFit(fs, fts);
    FieldsTakeAnOctet(fs, n);
    NoBodyNoFields(fs);
    ListCut(Fresh(l[..k], ListEnc), n, body, k);
    var h := |l| - |body|;
    if k >= h { FieldsAreCut(fs, fts, n, k - h, ListEnc); }
  }

  lemma ListIsLonger(n: nat, buf: bytes)
    requires |buf| <= MAX_BODY
    ensures |Written(WriteList(NotElem, n, buf))| > |buf|
  {
    hide BE;
  }

  lemma NoBodyNoFields(fs: seq<Field>)
    requires FieldsFit(fs)
    ensures WireBody(fs, Flushed(fs)) == [] ==> Flushed(fs) == 0
  {
    hide WireBody, Flushed, FieldFits;
    FieldsTakeAnOctet(fs, Flushed(fs));
  }

  lemma UnitVariantIsCut(v: Val, t: Ty, k: nat, encoding: StructEncoding)
    requires Typed(v, t) && v.UnitVariant? && t.TEnum? && k < |Encode(false, v)|
    ensures !Decode(Fresh(Encode(false, v)[..k], encoding), t).Ok?
  {
    hide DecodeIdent, ScalarBytes, IsCode, VariantIndex, DecodeVariant, SizeAndCount;
    var b := ScalarBytes(NotElem, U32(v.index));
    var d := Fresh(b[..k], encoding);
    IndexCut(v.index, k, encoding);
    IndexStart(v.index);
    if k > 0 {
      assert d.rest[0] == b[0];
      assert EnumHead(d).Ok? ==> EnumHead(d) == Ok(d);
    }
    assert Decode(d, t) == DecodeEnum(d, t.variants);
  }

  /** A variant that carries a value: a map of its index and `buf`, which stands at the end. */
  lemma VariantBodyCut(i: u32, variants: seq<VariantTy>, buf: bytes, k: nat, encoding: StructEncoding)
    requires i < |variants| && |buf| >= 1 && |ScalarBytes(NotElem, U32(i)) + buf| <= MAX_BODY
    requires k < |Written(WriteMap(NotElem, 2, ScalarBytes(NotElem, U32(i)) + buf))|
    ensures var all := Written(WriteMap(NotElem, 2, ScalarBytes(NotElem, U32(i)) + buf));
            var o := DecodeEnum(Fresh(all[..k], encoding), variants);
            var h := |all| - |buf|;
            && (k < h ==> !o.Ok?)
            && (k >= h ==>
                  var p := DecodeVariant(Fresh(buf[..k - h], encoding), i, variants[i]);
                  o == if p.Ok? then Ok((p.value.0, p.value.1.(enumType := ENone))) else p)
  {
    hide WriteMap, EnumHead, DecodeIdent, ScalarBytes, DecodeVariant;
    var idx := ScalarBytes(NotElem, U32(i));
    var all := Written(WriteMap(NotElem, 2, idx + buf));
    IndexStart(i);
    MapCut(Fresh(all[..k], encoding), 2, idx + buf, k);
    var j := k - (|all| - |idx + buf|);
    if j >= 0 {
      SplitAt(idx, buf, j);
      if j < |idx| {
        IndexCut(i, j, encoding);
      } else {
        IndexDecodes(i, buf[..j - |idx|], encoding);
      }
    }
  }

  lemma {:induction false} NewtypeVariantIsCut(v: Val, t: Ty, k: nat, encoding: StructEncoding)
    requires Typed(v, t) && v.NewtypeVariant? && t.TEnum? && Decodable(v) && k < |Encode(false, v)|
    ensures SucceedsIff(Decode(Fresh(Encode(false, v)[..k], encoding), t), Cut(v, k), encoding)
    decreases v, 0
  {
    hide DecodeEnum, ScalarBytes, WriteMap, Typed, Encode, Fits, Decodable, Decode, Cut;
    NewtypeParts(v, t, k, Fresh(Encode(false, v)[..k], encoding));
    EncodingStart(false, v.v);
    VariantBodyCut(v.index, t.variants, Encode(false, v.v), k, encoding);
    var h := |Encode(false, v)| - |Encode(false, v.v)|;
    if k >= h { ValueCut(v.v, t.variants[v.index].t, k - h, encoding); }
  }

  lemma NewtypeParts(v: Val, t: Ty, k: nat, d: State)
    requires Typed(v, t) && v.NewtypeVariant? && t.TEnum? && Decodable(v)
    ensures v.index < |t.variants| && t.variants[v.index].VNewtype? && Typed(v.v, t.variants[v.index].t) && Decodable(v.v) && Fits(false, v.v)
    ensures |ScalarBytes(NotElem, U32(v.index)) + Encode(false, v.v)| <= MAX_BODY
    ensures Encode(false, v) == Written(WriteMap(NotElem, 2, ScalarBytes(NotElem, U32(v.index)) + Encode(false, v.v)))
    ensures Cut(v, k) <==> Behind(v, Encode(false, v.v), k) && Cut(v.v, k - Head(v, Encode(false, v.v)))
    ensures Decode(d, t) == DecodeEnum(d, t.variants)
  {
    hide ScalarBytes, WriteMap, DecodeEnum, AllCut, FieldsCut, EntriesCut, EncodeAll, EncodeEntries, WireBody, Flushed, ArrayBody;
    assert VariantHasType(v, t.variants) && VariantArrays(t.variants[v.index]);
  }

  lemma {:induction false} TupleVariantIsCut(v: Val, t: Ty, k: nat, encoding: StructEncoding)
    requires Typed(v, t) && v.TupleVariant? && t.TEnum? && Decodable(v) && k < |Encode(false, v)|
    ensures SucceedsIff(Decode(Fresh(Encode(false, v)[..k], encoding), t), Cut(v, k), encoding)
    decreases v, 0
  {
    hide DecodeEnum, ScalarBytes, WriteMap, WriteList, DecodeVariant, EncodeAll, AllCut;
    assert AllFit(v.vs) && VariantHasType(v, t.variants) && VariantArrays(t.variants[v.index]) && AllDecodable(v.vs);
    var all := EncodeAll(false, v.vs);
    var buf := Written(WriteList(NotElem, |v.vs|, all));
    ListIsLonger(|v.vs|, all);
    VariantBodyCut(v.index, t.variants, buf, k, encoding);
    var j := k - (|Encode(false, v)| - |buf|);
    if j >= 0 { TupleBodyCut(v, t.variants[v.index], j, encoding); }
  }

  lemma {:induction false} TupleBodyCut(v: Val, u: VariantTy, j: nat, encoding: StructEncoding)
    requires v.TupleVariant? && u.VTuple? && EachHasType(v.vs, u.ts) && AllFit(v.vs) && AllDecodable(v.vs) && VariantArrays(u)
    requires |EncodeAll(false, v.vs)| <= MAX_BODY && j < |Written(WriteList(NotElem, |v.vs|, EncodeAll(false, v.vs)))|
    ensures var all := EncodeAll(false, v.vs);
            var buf := Written(WriteList(NotElem, |v.vs|, all));
            var h := |buf| - |all|;
            SucceedsIff(DecodeVariant(Fresh(buf[..j], encoding), v.index, u), j >= h && AllCut(v.vs, j - h), encoding)
    decreases v.vs, 2
  {
    hide WriteList, TupleHead, DecodeTuple, EncodeAll, AllCut, Fits, HasType, ScalarArrays, Decodable;
    TupleListCut(v.vs, u.ts, j, encoding);
  }

  /**
   Truncation, for every nested value that comes back and every cut in its encoding: the rest is
   decoded without an error if and only if the cut is one of those that `Cut` describes.
   */
  lemma {:induction false} ValueCut(v: Val, t: Ty, k: nat, encoding: StructEncoding)
    requires Typed(v, t) && Decodable(v) && k < |Encode(false, v)|
    ensures SucceedsIff(Decode(Fresh(Encode(false, v)[..k], encoding), t), Cut(v, k), encoding)
    decreases v, 2
  {
    match t
    case TPrim(_) => PrimIsCut(v, t, k, encoding);
    case TUnit => NothingFails(t, encoding);
    case TOption(_) => OptionValueIsCut(v, t, k, encoding);
    case TSeq(_) => SeqIsCut(v, t, k, encoding);
    case TTuple(_) => TupleIsCut(v, t, k, encoding);
    case TArray(_) => ArrayValueIsCut(v, t, k, encoding);
    case TMap(_, _) => MapIsCut(v, t, k, encoding);
    case TDescribed(_) => DescribedIsCut(v, t, k, encoding);
    case TComposite(_, _, _) => CompositeIsCut(v, t, k, encoding);
    case TEnum(_) => VariantIsCut(v, t, k, encoding);
  }

  lemma PrimIsCut(v: Val, t: Ty, k: nat, encoding: StructEncoding)
    requires Typed(v, t) && t.TPrim? && k < |Encode(false, v)|
    ensures !Decode(Fresh(Encode(false, v)[..k], encoding), t).Ok? && !Cut(v, k)
  {
    hide DecodeScalar, ScalarBytes;
    ScalarCut(v.s, k, encoding);
  }

  lemma {:induction false} OptionValueIsCut(v: Val, t: Ty, k: nat, encoding: StructEncoding)
    requires Typed(v, t) && t.TOption? && Decodable(v) && k < |Encode(false, v)|
    ensures SucceedsIff(Decode(Fresh(Encode(false, v)[..k], encoding), t), Cut(v, k), encoding)
    decreases v, 0
  {
    hide DecodeOption, ScalarArrays;
    if v.Just? {
      JustTyped(v, t);
      JustIsCut(v, k);
      OptionIsCut(v.v, t.t, k, encoding);
    } else {
      NothingFails(t, encoding);
    }
  }

  lemma ArrayValueIsCut(v: Val, t: Ty, k: nat, encoding: StructEncoding)
    requires Typed(v, t) && t.TArray? && Decodable(v) && k < |Encode(false, v)|
    ensures !Decode(Fresh(Encode(false, v)[..k], encoding), t).Ok? && !Cut(v, k)
  {
    hide DecodeArray, ArrayBody, AsciiIfStr;
    assert AllHaveType(v.vs, t.t);
    assert AllOfKind(v.vs, t.t.k) by {
      forall i | 0 <= i < |v.vs| ensures v.vs[i].Prim? && KindOf(v.vs[i].s) == t.t.k { assert HasType(v.vs[i], t.t); }
    }
    ArrayCut(v.vs, t.t.k, k, encoding);
  }

  lemma {:induction false} VariantIsCut(v: Val, t: Ty, k: nat, encoding: StructEncoding)
    requires Typed(v, t) && t.TEnum? && Decodable(v) && k < |Encode(false, v)|
    ensures SucceedsIff(Decode(Fresh(Encode(false, v)[..k], encoding), t), Cut(v, k), encoding)
    decreases v, 1
  {
    assert VariantHasType(v, t.variants);
    hide Decode, Encode, Typed;
    if v.UnitVariant? {
      UnitVariantIsCut(v, t, k, encoding);
    } else if v.NewtypeVariant? {
      NewtypeVariantIsCut(v, t, k, encoding);
    } else {
      TupleVariantIsCut(v, t, k, encoding);
    }
  }

  // ---- what follows from it -----------------------------------------------------------------

  /** A composite of fields that may all be left out: nobody notices that they were. */
  lemma HeaderAloneDecodes(d: Descriptor, fs: seq<Field>, t: Ty, encoding: StructEncoding)
    requires Typed(Composite(d, fs), t) && Decodable(Composite(d, fs)) && Flushed(fs) > 0 && Droppable(fs)
    ensures var v := Composite(d, fs);
            var h := Head(v, WireBody(fs, Flushed(fs)));
            0 <= h < |Encode(false, v)| && Decode(Fresh(Encode(false, v)[..h], encoding), t).Ok?
  {
    var v := Composite(d, fs);
    assert FieldsFit(fs) && |WireBody(fs, Flushed(fs))| <= MAX_BODY;
    assert Encode(false, v) == EncodeComposite(d, fs, Flushed(fs));
    var n, body := Flushed(fs), WireBody(fs, Flushed(fs));
    FieldsTakeAnOctet(fs, n);
    hide WireBody, Flushed, Typed, Decodable, WriteList, DescriptorBytes, Droppable;
    ListIsLonger(n, body);
    var h := Head(v, body);
    assert FieldsCut(fs, n, 0);
    assert Cut(v, h);
    hide Encode, Cut, Decode;
    ValueCut(v, t, h, encoding);
  }

  /** Without composites every cut is noticed. */
  lemma {:induction false} NoCompositeNoCut(v: Val, k: nat)
    requires NoComposite(v)
    ensures !Cut(v, k)
    decreases v, 1
  {
    hide Encode, EncodeAll, EncodeEntries;
    match v
    case Just(x) => NoCompositeNoCut(x, k);
    case List(vs) => if Behind(v, EncodeAll(false, vs), k) { NoneCut(vs, k - Head(v, EncodeAll(false, vs))); }
    case Tuple(vs) => if Behind(v, EncodeAll(false, vs), k) { NoneCut(vs, k - Head(v, EncodeAll(false, vs))); }
    case Map(es) => if Behind(v, EncodeEntries(es), k) { NoEntriesCut(es, k - Head(v, EncodeEntries(es))); }
    case Described(_, x) => if Behind(v, Encode(false, x), k) { NoCompositeNoCut(x, k - Head(v, Encode(false, x))); }
    case NewtypeVariant(_, x) => if Behind(v, Encode(false, x), k) { NoCompositeNoCut(x, k - Head(v, Encode(false, x))); }
    case TupleVariant(_, vs) => if Behind(v, EncodeAll(false, vs), k) { NoneCut(vs, k - Head(v, EncodeAll(false, vs))); }
    case _ =>
  }

  lemma {:induction false} NoneCut(vs: seq<Val>, j: nat)
    requires NoneComposite(vs)
    ensures !AllCut(vs, j)
    decreases vs, 0
  {
    hide Encode, NoComposite, Cut;
    if vs != [] {
      NoCompositeNoCut(vs[0], j);
      if j >= |Encode(false, vs[0])| { NoneCut(vs[1..], j - |Encode(false, vs[0])|); }
    }
  }

  lemma {:induction false} NoEntriesCut(es: seq<Entry>, j: nat)
    requires forall i :: 0 <= i < |es| ==> EntryNotComposite(es[i])
    ensures !EntriesCut(es, j)
    decreases es, 0
  {
    hide EncodeEntry, EntryNotComposite, EntryCut;
    if es != [] {
      NoEntryCut(es[0], j);
      if j >= |EncodeEntry(es[0])| { NoEntriesCut(es[1..], j - |EncodeEntry(es[0])|); }
    }
  }

  lemma {:induction false} NoEntryCut(e: Entry, j: nat)
    requires EntryNotComposite(e)
    ensures !EntryCut(e, j)
    decreases e, 0
  {
    hide Encode, NoComposite, Cut;
    if j >= |Encode(false, e.key)| { NoCompositeNoCut(e.value, j - |Encode(false, e.key)|); }
  }
}
