/**
 The round trip. A value encoded in front of any other bytes decodes, at its type, to its
 normal form, and the decoder stops exactly where the encoding ends; and this happens for exactly
 the values that are `Decodable`.
 */
module RoundTrip {
  import opened Bytes
  import opened Utf8
  import opened FormatCodes
  import opened Values
  import opened Wire
  import opened Decoder
  import opened Modes
  import opened Scalars
  import opened Headers

  /** Arrays, and multiple fields, hold scalars. */
  predicate ScalarArrays(t: Ty) {
    match t
    case TPrim(_) => true
    case TUnit => true
    case TOption(u) => ScalarArrays(u)
    case TSeq(u) => ScalarArrays(u)
    case TTuple(ts) => forall i :: 0 <= i < |ts| ==> ScalarArrays(ts[i])
    case TArray(u) => u.TPrim?
    case TMap(k, u) => ScalarArrays(k) && ScalarArrays(u)
    case TDescribed(u) => ScalarArrays(u)
    case TComposite(_, _, fts) => forall i :: 0 <= i < |fts| ==> FieldArrays(fts[i])
    case TEnum(variants) => forall i :: 0 <= i < |variants| ==> VariantArrays(variants[i])
  }

  predicate FieldArrays(ft: FieldTy) {
    ScalarArrays(ft.t) && (ft.attr.Multiple? ==> ft.t.TPrim?)
  }

  predicate VariantArrays(v: VariantTy) {
    match v
    case VUnit(_) => true
    case VNewtype(_, t) => ScalarArrays(t)
    case VTuple(_, ts) => forall i :: 0 <= i < |ts| ==> ScalarArrays(ts[i])
  }

  /** A value of type `t` that can be written. */
  predicate Typed(v: Val, t: Ty) {
    HasType(v, t) && ScalarArrays(t) && Fits(false, v)
  }

  /**
   When the decoder gives a value back: lists, maps and arrays stay within the count cap, strings
   in arrays are ASCII, and nothing that reads as null stands where null means absence.
   */
  predicate Decodable(v: Val)
    decreases v, 1
  {
    match v
    case Just(x) => !Nullish(x) && Decodable(x)
    case List(vs) => |vs| <= MAX_COUNT && AllDecodable(vs)
    case Tuple(vs) => AllDecodable(vs)
    case Array(vs) => |vs| <= MAX_COUNT && forall i :: 0 <= i < |vs| ==> vs[i].Prim? ==> AsciiIfStr(vs[i].s)
    case Map(es) => 2 * |es| <= MAX_COUNT && forall i :: 0 <= i < |es| ==> EntryDecodable(es[i])
    case Described(_, x) => Decodable(x)
    case Composite(_, fs) => FieldsDecodable(fs)
    case NewtypeVariant(_, x) => Decodable(x)
    case TupleVariant(_, vs) => AllDecodable(vs)
    case _ => true
  }

  predicate AllDecodable(vs: seq<Val>)
    decreases vs, 0
  {
    forall i :: 0 <= i < |vs| ==> Decodable(vs[i])
  }

  predicate EntryDecodable(e: Entry)
    decreases e, 0
  {
    Decodable(e.key) && Decodable(e.value)
  }

  predicate FieldsDecodable(fs: seq<Field>)
    decreases fs, 0
  {
    forall i :: 0 <= i < |fs| ==> FieldDecodable(fs[i])
  }

  predicate FieldDecodable(f: Field)
    decreases f, 0
  {
    Skipped(f) || (Decodable(f.v) && (f.attr.Default? ==> !Nullish(f.v)))
  }

  /** The normal form: an empty array in a multiple field is the same as no array. */
  function Norm(v: Val): Val
    decreases v, 1
  {
    match v
    case Just(x) => Just(Norm(x))
    case List(vs) => List(NormAll(vs))
    case Tuple(vs) => Tuple(NormAll(vs))
    case Map(es) => Map(NormEntries(es))
    case Described(d, x) => Described(d, Norm(x))
    case Composite(d, fs) => Composite(d, NormFields(fs))
    case NewtypeVariant(i, x) => NewtypeVariant(i, Norm(x))
    case TupleVariant(i, vs) => TupleVariant(i, NormAll(vs))
    case _ => v
  }

  function NormAll(vs: seq<Val>): (ns: seq<Val>)
    ensures |ns| == |vs|
    decreases vs, 0
  {
    if vs == [] then [] else [Norm(vs[0])] + NormAll(vs[1..])
  }

  function NormEntry(e: Entry): Entry
    decreases e, 0
  {
    Entry(Norm(e.key), Norm(e.value))
  }

  function NormEntries(es: seq<Entry>): seq<Entry>
    decreases es, 0
  {
    if es == [] then [] else [NormEntry(es[0])] + NormEntries(es[1..])
  }

  function NormFields(fs: seq<Field>): seq<Field>
    decreases fs, 0
  {
    if fs == [] then [] else [NormField(fs[0])] + NormFields(fs[1..])
  }

  function NormField(f: Field): Field
    decreases f, 0
  {
    if Skipped(f) then f
    else if f.attr.Multiple? && f.v == Just(Array([])) then Field(f.attr, Nothing)
    else Field(f.attr, Norm(f.v))
  }

  // ---- what is proved about one decode ------------------------------------------------------

  /** `o` gives back `x` and leaves `r` exactly when `good`; otherwise it gives back something else or nothing. */
  ghost predicate Exactly<T>(o: Outcome<(T, State)>, good: bool, x: T, r: bytes, encoding: StructEncoding) {
    if good then o == Ok((x, Fresh(r, encoding))) else !(o.Ok? && o.value.0 == x)
  }

  lemma ConsCancel<T>(a: T, x: seq<T>, b: T, y: seq<T>)
    ensures [a] + x == [b] + y <==> a == b && x == y
  {
    assert ([a] + x)[0] == a && ([b] + y)[0] == b;
    assert ([a] + x)[1..] == x && ([b] + y)[1..] == y;
  }

  // ---- sequences ----------------------------------------------------------------------------

  lemma {:induction false} ListExactly(vs: seq<Val>, t: Ty, r: bytes, encoding: StructEncoding)
    requires forall i :: 0 <= i < |vs| ==> Typed(vs[i], t)
    ensures Exactly(DecodeList(Fresh(EncodeAll(false, vs) + r, encoding), t, |vs|), AllDecodable(vs), NormAll(vs), r, encoding)
    decreases vs, 0
  {
    hide Encode, Decode, Typed, Norm, Decodable;
    if vs == [] {
      assert EncodeAll(false, vs) + r == r;
    } else {
      var tail := EncodeAll(false, vs[1..]) + r;
      assert EncodeAll(false, vs) + r == Encode(false, vs[0]) + tail;
      ValueExactly(vs[0], t, tail, encoding);
      ListExactly(vs[1..], t, r, encoding);
      assert AllDecodable(vs) <==> Decodable(vs[0]) && AllDecodable(vs[1..]);
      var o := Decode(Fresh(EncodeAll(false, vs) + r, encoding), t);
      if o.Ok? && DecodeList(o.value.1, t, |vs| - 1).Ok? {
        ConsCancel(o.value.0, DecodeList(o.value.1, t, |vs| - 1).value.0, Norm(vs[0]), NormAll(vs[1..]));
      }
    }
  }

  lemma {:induction false} TupleExactly(vs: seq<Val>, ts: seq<Ty>, r: bytes, encoding: StructEncoding)
    requires |vs| == |ts| && forall i :: 0 <= i < |vs| ==> Typed(vs[i], ts[i])
    ensures Exactly(DecodeTuple(Fresh(EncodeAll(false, vs) + r, encoding), ts), AllDecodable(vs), NormAll(vs), r, encoding)
    decreases vs, 0
  {
    hide Encode, Decode, Typed, Norm, Decodable;
    if vs == [] {
      assert EncodeAll(false, vs) + r == r;
    } else {
      var tail := EncodeAll(false, vs[1..]) + r;
      assert EncodeAll(false, vs) + r == Encode(false, vs[0]) + tail;
      ValueExactly(vs[0], ts[0], tail, encoding);
      TupleExactly(vs[1..], ts[1..], r, encoding);
      assert AllDecodable(vs) <==> Decodable(vs[0]) && AllDecodable(vs[1..]);
      var o := Decode(Fresh(EncodeAll(false, vs) + r, encoding), ts[0]);
      if o.Ok? && DecodeTuple(o.value.1, ts[1..]).Ok? {
        ConsCancel(o.value.0, DecodeTuple(o.value.1, ts[1..]).value.0, Norm(vs[0]), NormAll(vs[1..]));
      }
    }
  }

  predicate EntriesDecodable(es: seq<Entry>) {
    forall i :: 0 <= i < |es| ==> EntryDecodable(es[i])
  }

  predicate EntryTyped(e: Entry, t: Ty)
    requires t.TMap?
  {
    Typed(e.key, t.key) && Typed(e.value, t.value)
  }

  lemma {:induction false} EntriesExactly(es: seq<Entry>, t: Ty, r: bytes, encoding: StructEncoding)
    requires t.TMap? && forall i :: 0 <= i < |es| ==> EntryTyped(es[i], t)
    ensures Exactly(DecodeEntries(Fresh(EncodeEntries(es) + r, encoding), t, 2 * |es|), EntriesDecodable(es), NormEntries(es), r, encoding)
    decreases es, 0
  {
    hide Encode, Decode, Typed, Norm, Decodable;
    if es == [] {
      assert EncodeEntries(es) + r == r;
    } else {
      var tail := EncodeEntries(es[1..]) + r;
      var e := es[0];
      assert EntryTyped(e, t);
      assert EncodeEntries(es) + r == Encode(false, e.key) + (Encode(false, e.value) + tail);
      EntryExactly(e, t, tail, encoding);
      EntriesExactly(es[1..], t, r, encoding);
      assert EntriesDecodable(es) <==> EntryDecodable(e) && EntriesDecodable(es[1..]);
      EntryCancel(Fresh(EncodeEntries(es) + r, encoding), t, |es|, NormEntry(e), NormEntries(es[1..]));
    }
  }

  lemma {:induction false} EntryExactly(e: Entry, t: Ty, r: bytes, encoding: StructEncoding)
    requires t.TMap? && EntryTyped(e, t)
    ensures Exactly(Decode(Fresh(Encode(false, e.key) + (Encode(false, e.value) + r), encoding), t.key), Decodable(e.key), Norm(e.key), Encode(false, e.value) + r, encoding)
    ensures Exactly(Decode(Fresh(Encode(false, e.value) + r, encoding), t.value), Decodable(e.value), Norm(e.value), r, encoding)
    decreases e, 0
  {
    hide Encode, Decode, Typed, Norm, Decodable;
    ValueExactly(e.key, t.key, Encode(false, e.value) + r, encoding);
    ValueExactly(e.value, t.value, r, encoding);
  }

  /** A pair and the pairs behind it are what they should be only if each part is. */
  lemma EntryCancel(d: State, t: Ty, n: nat, e: Entry, es: seq<Entry>)
    requires t.TMap? && n > 0
    ensures var o := DecodeEntries(d, t, 2 * n);
            o.Ok? && o.value.0 == [e] + es ==>
              var k := Decode(d, t.key);
              && k.Ok? && k.value.0 == e.key
              && var u := Decode(k.value.1, t.value);
                 && u.Ok? && u.value.0 == e.value
                 && var p := DecodeEntries(u.value.1, t, 2 * (n - 1));
                    p.Ok? && p.value.0 == es
  {
    hide Decode;
    var o := DecodeEntries(d, t, 2 * n);
    if o.Ok? {
      var k := Decode(d, t.key).value;
      var u := Decode(k.1, t.value).value;
      ConsCancel(Entry(k.0, u.0), DecodeEntries(u.1, t, 2 * (n - 1)).value.0, e, es);
    }
  }

  // ---- headers ------------------------------------------------------------------------------

  lemma ListHeadFront(d: State, n: nat, buf: bytes, r: bytes)
    requires n <= |buf| <= MAX_BODY && (buf == [] ==> n == 0)
    requires d.rest == Written(WriteList(NotElem, n, buf)) + r && d.elem == None
    ensures SeqHead(d) == if n > MAX_COUNT then Err(InvalidValue) else Ok((ListHeader(n), d.(rest := buf + r)))
    ensures TupleHead(d, n) == Ok(d.(rest := buf + r))
    ensures FieldCount(d) == Ok((n, d.(rest := buf + r)))
    ensures d.rest != [] && IsCode(d.rest[0]) && d.rest[0] != NULL
  {
    hide WriteCompound, ReadCode, SizeAndCount;
    if buf == [] {
      ReadFront(d, LIST0, r);
      assert buf + r == r;
    } else {
      HeaderIsLossless(LIST8, LIST32, n, buf);
      HeaderFront(d, if Wide(buf) then LIST32 else LIST8, n, buf, r);
    }
  }

  lemma MapHeadFront(d: State, n: nat, buf: bytes, r: bytes)
    requires n <= |buf| <= MAX_BODY
    requires d.rest == Written(WriteMap(NotElem, n, buf)) + r && d.elem == None
    ensures MapHead(d) == if n > MAX_COUNT then Err(InvalidValue) else Ok((n, d.(rest := buf + r)))
    ensures n == 2 ==> EnumHead(d) == Ok(d.(rest := buf + r))
  {
    hide WriteCompound, ReadCode, PeekCode, Next, SizeAndCount;
    HeaderIsLossless(MAP8, MAP32, n, buf);
    HeaderFront(d, if Wide(buf) then MAP32 else MAP8, n, buf, r);
  }

  lemma DescriptorStart(x: Descriptor)
    ensures var b := ScalarBytes(NotElem, DescriptorScalar(x));
            && |b| >= 1 && IsCode(b[0]) && IsCode(DESCRIBED)
            && if x.Name? then b[0] == SYM8 || b[0] == SYM32 else b[0] == ULONG || b[0] == SMALL_ULONG || b[0] == ULONG0
  {
    hide BE;
  }

  lemma DescriptorFront(d: State, x: Descriptor, r: bytes)
    requires ScalarFits(NotElem, DescriptorScalar(x))
    requires d.rest == DescriptorBytes(NotElem, x) + r && d.elem == None && d.nonNative == None
    ensures DecodeDescriptor(d) == DescribedHead(d) == Ok((x, d.(rest := r)))
  {
    hide DecodeSymbol, ParseU64, ScalarBytes, IsCode;
    DescriptorStart(x);
    var s := DescriptorScalar(x);
    assert d.rest == [DESCRIBED] + (ScalarBytes(NotElem, s) + r);
    ScalarRoundTrip(s, r, d.encoding);
    assert d.(rest := d.rest[1..]).(enumType := ENone) == Fresh(ScalarBytes(NotElem, s) + r, d.encoding);
    assert d.rest[1] == ScalarBytes(NotElem, s)[0];
  }

  // ---- arrays -------------------------------------------------------------------------------

  /** The vector of scalars of kind `k` that an array holds. */
  ghost predicate AllOfKind(vs: seq<Val>, k: Kind) {
    forall i :: 0 <= i < |vs| ==> vs[i].Prim? && KindOf(vs[i].s) == k
  }

  ghost predicate AllAscii(vs: seq<Val>) {
    forall i :: 0 <= i < |vs| ==> vs[i].Prim? ==> AsciiIfStr(vs[i].s)
  }

  lemma ArrayBodyFactors(vs: seq<Val>, k: Kind)
    requires vs != [] && AllOfKind(vs, k)
    ensures ArrayBody(First, vs) == [WideCode(k)] + ArrayBody(Other, vs)
  {
    hide ScalarBytes;
    FirstIsCodeThenOther(vs[0].s);
  }

  /** A string that is not ASCII comes back shorter, if it comes back at all. */
  lemma NonAsciiDiffers(d: State, x: str, r: bytes)
    requires d.elem == Some(STR32) && d.nonNative == None && !Ascii(x) && |x| < 0x1_0000_0000
    requires d.rest == ScalarBytes(Other, Str(x)) + r
    ensures !(DecodeScalar(d, KStr).Ok? && DecodeScalar(d, KStr).value.0 == Str(x))
  {
    hide BE, Valid, TakeBE;
    CharCountIsByteCount(x);
    var l := CharCount(x);
    Pow256Values();
    assert d.rest == BE(l, 4) + (x + r);
    TakeBEFront(d, l, 4, x + r);
  }

  lemma ScalarShort(m: Mode, s: Scalar)
    requires |ScalarBytes(m, s)| <= MAX_BODY
    ensures ShortEnough(s)
  {
    hide BE;
  }

  lemma ElementExactly(d: State, s: Scalar, r: bytes)
    requires d.elem == Some(WideCode(KindOf(s))) && d.nonNative == None && ShortEnough(s)
    requires d.rest == ScalarBytes(Other, s) + r
    ensures var o := DecodeScalar(d, KindOf(s));
            if AsciiIfStr(s) then o == Ok((s, d.(rest := r))) else !(o.Ok? && o.value.0 == s)
  {
    hide DecodeScalar, ScalarBytes, WideBody;
    if AsciiIfStr(s) {
      OtherIsWideBody(s);
      WideDecodes(d, d, s, r);
    } else {
      NonAsciiDiffers(d, s.str, r);
    }
  }

  lemma {:induction false} ElementsExactly(d: State, vs: seq<Val>, k: Kind, r: bytes, size: nat, start: nat)
    requires AllOfKind(vs, k) && |ArrayBody(Other, vs)| <= MAX_BODY
    requires d.elem == Some(WideCode(k)) && d.nonNative == None
    requires d.rest == ArrayBody(Other, vs) + r && start - |r| <= size
    ensures var o := DecodeElements(d, TPrim(k), |vs|, size, start);
            if AllAscii(vs) then o == Ok((vs, d.(rest := r, elem := None))) else !(o.Ok? && o.value.0 == vs)
    decreases vs
  {
    hide DecodeScalar, ScalarBytes, AsciiIfStr, DecodeElements;
    if vs == [] {
      EmptyElements(d, TPrim(k), size, start);
      assert d.rest == r;
    } else {
      var s := vs[0].s;
      var tail := ArrayBody(Other, vs[1..]) + r;
      assert d.rest == ScalarBytes(Other, s) + tail;
      ScalarShort(Other, s);
      ElementExactly(d, s, tail);
      ElementsExactly(d.(rest := tail), vs[1..], k, r, size, start);
      assert AllAscii(vs) <==> AsciiIfStr(s) && AllAscii(vs[1..]);
      assert vs == [vs[0]] + vs[1..];
      ElementsCancel(d, k, |vs|, size, start, vs[0], vs[1..]);
    }
  }

  /** An element and the elements behind it are what they should be only if each part is. */
  lemma ElementsCancel(d: State, k: Kind, n: nat, size: nat, start: nat, v: Val, vs: seq<Val>)
    requires n > 0
    ensures var o, p := DecodeElements(d, TPrim(k), n, size, start), DecodeScalar(d, k);
            && (o.Ok? && o.value.0 == [v] + vs ==>
                  p.Ok? && Prim(p.value.0) == v
                  && var q := DecodeElements(p.value.1, TPrim(k), n - 1, size, start); q.Ok? && q.value.0 == vs)
            && (p.Ok? && Prim(p.value.0) == v && start - |p.value.1.rest| <= size ==>
                  var q := DecodeElements(p.value.1, TPrim(k), n - 1, size, start);
                  q.Ok? ==> o == Ok(([v] + q.value.0, q.value.1)))
  {
    hide DecodeScalar;
    var p := DecodeScalar(d, k);
    if p.Ok? {
      var q := DecodeElements(p.value.1, TPrim(k), n - 1, size, start);
      if q.Ok? { ConsCancel(Prim(p.value.0), q.value.0, v, vs); }
    }
  }

  lemma ArrayHeadFront(d: State, vs: seq<Val>, k: Kind, r: bytes)
    requires AllOfKind(vs, k) && |ArrayBody(First, vs)| <= MAX_BODY
    requires d.rest == Encode(false, Array(vs)) + r && d.elem == None
    ensures PeekByte(d) == Ok(ARRAY8) || PeekByte(d) == Ok(ARRAY32)
    ensures SeqHead(d) ==
              if |vs| > MAX_COUNT then Err(InvalidValue)
              else if vs == [] then Ok((ArrayHeader(1, 0), d.(rest := r)))
              else Ok((ArrayHeader(|ArrayBody(Other, vs)|, |vs|), d.(rest := ArrayBody(Other, vs) + r, elem := Some(WideCode(k)))))
  {
    hide WriteCompound, ReadCode, SizeAndCount, ArrayBody, SeqHead, ReadFormatCode, IsCode;
    var buf := ArrayBody(First, vs);
    ElementsTakeAnOctet(First, vs);
    HeaderIsLossless(ARRAY8, ARRAY32, |vs|, buf);
    ArrayCodes();
    HeaderFront(d, if Wide(buf) then ARRAY32 else ARRAY8, |vs|, buf, r);
    SeqHeadOfArray(d);
    if vs == [] {
      assert buf == [] by { EmptyArrayBody(); }
      assert buf + r == r;
    } else {
      ArrayBodyFactors(vs, k);
      var tail := ArrayBody(Other, vs) + r;
      assert buf + r == [WideCode(k)] + tail;
      WideCodeFront(d.(rest := buf + r), k, tail);
    }
  }

  lemma ArrayCodes()
    ensures IsCode(ARRAY8) && IsCode(ARRAY32)
  {
  }

  lemma SeqHeadOfArray(d: State)
    requires ReadCode(d).Ok?
    ensures ReadCode(d).value.0 == ARRAY8 ==> SeqHead(d) == ArrayHead(ReadCode(d).value.1, false)
    ensures ReadCode(d).value.0 == ARRAY32 ==> SeqHead(d) == ArrayHead(ReadCode(d).value.1, true)
  {
    hide ReadCode, ArrayHead, ListHead;
  }

  lemma WideCodeFront(d: State, k: Kind, r: bytes)
    requires d.rest == [WideCode(k)] + r
    ensures ReadFormatCode(d) == Ok((WideCode(k), d.(rest := r)))
  {
  }

  lemma EmptyArrayBody()
    ensures ArrayBody(First, []) == []
  {
  }

  /** An array of one scalar type comes back exactly when its count is capped and its strings are ASCII. */
  lemma ArrayExactly(vs: seq<Val>, k: Kind, r: bytes, encoding: StructEncoding)
    requires AllOfKind(vs, k) && |ArrayBody(First, vs)| <= MAX_BODY
    ensures Exactly(DecodeArray(Fresh(Encode(false, Array(vs)) + r, encoding), TPrim(k)), Decodable(Array(vs)), Array(vs), r, encoding)
  {
    hide Encode, SeqHead, ArrayBody, DecodeElements, AsciiIfStr;
    var d := Fresh(Encode(false, Array(vs)) + r, encoding).(enumType := EArray);
    ArrayHeadFront(d, vs, k, r);
    assert Decodable(Array(vs)) <==> |vs| <= MAX_COUNT && AllAscii(vs);
    if |vs| <= MAX_COUNT {
      if vs == [] {
        EmptyElements(d.(rest := r), TPrim(k), 1, |r|);
      } else {
        ArrayBodyFactors(vs, k);
        var d1 := d.(rest := ArrayBody(Other, vs) + r, elem := Some(WideCode(k)));
        ElementsExactly(d1, vs, k, r, |ArrayBody(Other, vs)|, |d1.rest|);
      }
    }
  }

  lemma EmptyElements(d: State, t: Ty, size: nat, start: nat)
    ensures DecodeElements(d, t, 0, size, start) == Ok(([], d.(elem := None)))
  {
  }

  // ---- options and fields -------------------------------------------------------------------

  /** `Some(x)` comes back unless `x` itself reads as null. */
  lemma {:induction false} OptionExactly(x: Val, t: Ty, r: bytes, encoding: StructEncoding)
    requires Typed(x, t)
    ensures var o := DecodeOption(Fresh(Encode(false, x) + r, encoding), t);
            && Exactly(o, !Nullish(x) && Decodable(x), Just(Norm(x)), r, encoding)
            && (if Nullish(x) then o.Ok? && o.value.0 == Nothing else o.Ok? ==> o.value.0.Just?)
    decreases x, 3
  {
    hide Encode, Decode, Norm, Decodable, IsCode, Nullish, HasType, Fits;
    EncodingStart(false, x);
    ValueExactly(x, t, r, encoding);
  }

  lemma NullDecodes(t: Ty, r: bytes, encoding: StructEncoding)
    ensures DecodeOption(Fresh([NULL] + r, encoding), t) == Ok((Nothing, Fresh(r, encoding)))
    ensures DecodeMultiple(Fresh([NULL] + r, encoding), t) == Ok((Nothing, Fresh(r, encoding)))
  {
    hide Decode, DecodeArray;
    ReadFront(Fresh([NULL] + r, encoding), NULL, r);
  }

  lemma {:induction false} NormNullish(v: Val)
    requires Nullish(v)
    ensures Norm(v) == v
  {
    if v.Just? { NormNullish(v.v); }
  }

  predicate FieldTyped(f: Field, ft: FieldTy) {
    FieldHasType(f, ft) && FieldArrays(ft) && FieldFits(f)
  }

  lemma SkippedFieldExactly(f: Field, ft: FieldTy, r: bytes, encoding: StructEncoding)
    requires FieldTyped(f, ft) && Skipped(f)
    ensures DecodeField(Fresh(WireBytes(f) + r, encoding), ft) == Ok((f, Fresh(r, encoding)))
    ensures MissingField(ft.attr) == Ok(f)
  {
    hide DecodeOption, DecodeMultiple, HasType, ScalarArrays;
    NullDecodes(ft.t, r, encoding);
  }

  lemma MultipleFieldExactly(f: Field, ft: FieldTy, r: bytes, encoding: StructEncoding)
    requires FieldTyped(f, ft) && !Skipped(f) && ft.attr.Multiple?
    ensures Exactly(DecodeField(Fresh(WireBytes(f) + r, encoding), ft), FieldDecodable(f), NormField(f), r, encoding)
  {
    hide DecodeArray, ArrayBody, IsCode;
    var vs := f.v.v.vs;
    assert Fits(false, f.v) && Fits(false, Array(vs));
    assert AllOfKind(vs, ft.t.k) by {
      assert AllHaveType(vs, ft.t);
      forall i | 0 <= i < |vs| ensures vs[i].Prim? && KindOf(vs[i].s) == ft.t.k { assert HasType(vs[i], ft.t); }
    }
    assert WireBytes(f) == Encode(false, Array(vs));
    assert FieldDecodable(f) <==> Decodable(Array(vs));
    assert Norm(f.v) == Just(Norm(Array(vs))) == f.v;
    var d := Fresh(WireBytes(f) + r, encoding);
    EncodingStart(false, Array(vs));
    assert PeekCode(d).Ok? && PeekCode(d).value != NULL;
    ArrayExactly(vs, ft.t.k, r, encoding);
    hide Encode, Decodable, PeekCode;
    if vs == [] { assert Decodable(Array([])); }
  }

  lemma {:induction false} FieldExactly(f: Field, ft: FieldTy, r: bytes, encoding: StructEncoding)
    requires FieldTyped(f, ft)
    ensures Exactly(DecodeField(Fresh(WireBytes(f) + r, encoding), ft), FieldDecodable(f), NormField(f), r, encoding)
    decreases f, 0
  {
    hide Encode, Decode, DecodeOption, DecodeArray, Nullish, Fits, ScalarArrays;
    if Skipped(f) {
      SkippedFieldExactly(f, ft, r, encoding);
    } else {
      match ft.attr
      case Multiple => MultipleFieldExactly(f, ft, r, encoding);
      case Mandatory => ValueExactly(f.v, ft.t, r, encoding);
      case Optional => JustField(f, ft); OptionExactly(f.v.v, ft.t, r, encoding);
      case Default(_) =>
        OptionExactly(f.v, ft.t, r, encoding);
        if Nullish(f.v) { NormNullish(f.v); }
    }
  }

  lemma JustField(f: Field, ft: FieldTy)
    requires FieldTyped(f, ft) && !Skipped(f) && ft.attr.Optional?
    ensures f.v.Just? && Typed(f.v.v, ft.t)
    ensures WireBytes(f) == Encode(false, f.v.v) && NormField(f) == Field(f.attr, Just(Norm(f.v.v)))
    ensures FieldDecodable(f) <==> !Nullish(f.v.v) && Decodable(f.v.v)
  {
    assert Fits(false, f.v) && Fits(false, f.v.v);
  }

  lemma WireStart(f: Field)
    requires FieldFits(f)
    ensures |WireBytes(f)| >= 1 && IsCode(WireBytes(f)[0])
  {
    hide Encode, Fits, Nullish;
    if !Skipped(f) { EncodingStart(false, f.v); }
  }

  ghost predicate FieldsTyped(fs: seq<Field>, fts: seq<FieldTy>) {
    |fs| == |fts| && forall i :: 0 <= i < |fs| ==> FieldTyped(fs[i], fts[i])
  }

  /** The fields of a composite, of which `n` are on the wire and the others are all held back. */
  lemma {:induction false} FieldsExactly(fs: seq<Field>, fts: seq<FieldTy>, n: nat, r: bytes, encoding: StructEncoding)
    requires FieldsTyped(fs, fts) && n <= |fs|
    requires forall i :: n <= i < |fs| ==> Skipped(fs[i])
    ensures Exactly(DecodeFields(Fresh(WireBody(fs, n) + r, encoding), n, fts), FieldsDecodable(fs), NormFields(fs), r, encoding)
    decreases fs, 0
  {
    hide DecodeField, FieldTyped, NormField, WireBytes, FieldDecodable, IsCode, Skipped, MissingField;
    if fs == [] {
      assert WireBody(fs, n) + r == r;
    } else {
      var f, ft := fs[0], fts[0];
      assert FieldTyped(f, ft);
      assert FieldsDecodable(fs) <==> FieldDecodable(f) && FieldsDecodable(fs[1..]);
      var d := Fresh(WireBody(fs, n) + r, encoding);
      if n == 0 {
        MissingFieldExactly(f, ft, r, encoding);
        FieldsExactly(fs[1..], fts[1..], 0, r, encoding);
        assert WireBody(fs[1..], 0) + r == WireBody(fs, 0) + r;
        if DecodeFields(d, 0, fts[1..]).Ok? {
          ConsCancel(f, DecodeFields(d, 0, fts[1..]).value.0, NormField(f), NormFields(fs[1..]));
        }
      } else {
        var tail := WireBody(fs[1..], n - 1) + r;
        assert d.rest == WireBytes(f) + tail;
        FieldTypedFits(f, ft);
        WireStart(f);
        FieldExactly(f, ft, tail, encoding);
        FieldsExactly(fs[1..], fts[1..], n - 1, r, encoding);
        var o := DecodeField(d, ft);
        if o.Ok? && DecodeFields(o.value.1, n - 1, fts[1..]).Ok? {
          ConsCancel(o.value.0, DecodeFields(o.value.1, n - 1, fts[1..]).value.0, NormField(f), NormFields(fs[1..]));
        }
      }
    }
  }

  lemma FieldTypedFits(f: Field, ft: FieldTy)
    requires FieldTyped(f, ft)
    ensures FieldFits(f)
  {
  }

  lemma MissingFieldExactly(f: Field, ft: FieldTy, r: bytes, encoding: StructEncoding)
    requires FieldTyped(f, ft) && Skipped(f)
    ensures MissingField(ft.attr) == Ok(f) && FieldDecodable(f) && NormField(f) == f
  {
    SkippedFieldExactly(f, ft, r, encoding);
  }

  /**
   A composite under descriptor `x`, which is its name or, if it has one, its code, and with any number
   `n` of list elements, from the last flushed field up to the number of its fields, decodes to its
   normal form: a type with a code goes by its name as well, and nulls at the tail make no difference.
   */
  lemma {:induction false} CompositeUnder(x: Descriptor, fs: seq<Field>, n: nat, name: str, code: Option<u64>, fts: seq<FieldTy>, r: bytes, encoding: StructEncoding)
    requires FieldsTyped(fs, fts) && Flushed(fs) <= n <= |fs| && |WireBody(fs, n)| <= MAX_BODY
    requires ScalarFits(NotElem, DescriptorScalar(x)) && (x == Name(name) || Some(x) == CodeDescriptor(code))
    ensures Exactly(DecodeComposite(Fresh(EncodeComposite(x, fs, n) + r, encoding), name, code, fts), FieldsDecodable(fs), Composite(DescriptorOf(name, code), NormFields(fs)), r, encoding)
    decreases fs, 1
  {
    hide DescribedHead, FieldCount, DecodeFields, WriteList, DescriptorBytes, WireBody, FieldTyped, ScalarFits;
    var buf := WireBody(fs, n);
    var d := Fresh(EncodeComposite(x, fs, n) + r, ListEnc);
    assert d.rest == DescriptorBytes(NotElem, x) + (Written(WriteList(NotElem, n, buf)) + r);
    DescriptorFront(d, x, Written(WriteList(NotElem, n, buf)) + r);
    FieldsTypedFit(fs, fts);
    FieldsTakeAnOctet(fs, n);
    ListHeadFront(d.(rest := Written(WriteList(NotElem, n, buf)) + r), n, buf, r);
    FieldsExactly(fs, fts, n, r, ListEnc);
  }

  function CodeDescriptor(code: Option<u64>): Option<Descriptor> {
    if code.Some? then Some(Code(code.value)) else None
  }

  /** In particular under the descriptor that is written. */
  lemma {:induction false} CompositeExactly(fs: seq<Field>, n: nat, name: str, code: Option<u64>, fts: seq<FieldTy>, r: bytes, encoding: StructEncoding)
    requires FieldsTyped(fs, fts) && Flushed(fs) <= n <= |fs| && |WireBody(fs, n)| <= MAX_BODY
    requires ScalarFits(NotElem, DescriptorScalar(DescriptorOf(name, code)))
    ensures var x := DescriptorOf(name, code);
            Exactly(DecodeComposite(Fresh(EncodeComposite(x, fs, n) + r, encoding), name, code, fts), FieldsDecodable(fs), Composite(x, NormFields(fs)), r, encoding)
    decreases fs, 2
  {
    hide DecodeComposite, EncodeComposite, WireBody, FieldsTyped, ScalarFits, FieldsDecodable, NormFields, Flushed;
    CompositeUnder(DescriptorOf(name, code), fs, n, name, code, fts, r, encoding);
  }

  /** Any other name and any other code is refused, whatever list follows. */
  lemma OtherDescriptorRefused(x: Descriptor, n: nat, buf: bytes, name: str, code: Option<u64>, fts: seq<FieldTy>, r: bytes, encoding: StructEncoding)
    requires x != Name(name) && Some(x) != CodeDescriptor(code)
    requires ScalarFits(NotElem, DescriptorScalar(x)) && n <= |buf| <= MAX_BODY && (buf == [] ==> n == 0)
    ensures DecodeComposite(Fresh(DescriptorBytes(NotElem, x) + (Written(WriteList(NotElem, n, buf)) + r), encoding), name, code, fts) == Err(Message)
  {
    hide DescribedHead, FieldCount, DecodeFields, WriteList, DescriptorBytes, ScalarFits;
    var tail := Written(WriteList(NotElem, n, buf)) + r;
    var d := Fresh(DescriptorBytes(NotElem, x) + tail, ListEnc);
    DescriptorFront(d, x, tail);
    ListHeadFront(d.(rest := tail), n, buf, r);
  }

  lemma FieldsTypedFit(fs: seq<Field>, fts: seq<FieldTy>)
    requires FieldsTyped(fs, fts)
    ensures FieldsFit(fs)
  {
    forall i | 0 <= i < |fs| ensures FieldFits(fs[i]) { assert FieldTyped(fs[i], fts[i]); }
  }

  // ---- values -------------------------------------------------------------------------------

  lemma {:induction false} SeqExactly(v: Val, t: Ty, r: bytes, encoding: StructEncoding)
    requires Typed(v, t) && v.List? && t.TSeq?
    ensures Exactly(Decode(Fresh(Encode(false, v) + r, encoding), t), Decodable(v), Norm(v), r, encoding)
    decreases v, 0
  {
    hide SeqHead, DecodeList, WriteList, EncodeAll, NormAll;
    assert AllHaveType(v.vs, t.t) && AllFit(v.vs);
    AllTakeAnOctet(v.vs);
    var d := Fresh(Encode(false, v) + r, encoding);
    EmptyAll();
    ListHeadFront(d, |v.vs|, EncodeAll(false, v.vs), r);
    ListExactly(v.vs, t.t, r, encoding);
  }

  lemma EmptyAll()
    ensures forall vs | AllFit(vs) && EncodeAll(false, vs) == [] :: vs == []
  {
    forall vs | AllFit(vs) && EncodeAll(false, vs) == [] ensures vs == [] { AllTakeAnOctet(vs); }
  }

  lemma {:induction false} TupleValueExactly(v: Val, t: Ty, r: bytes, encoding: StructEncoding)
    requires Typed(v, t) && v.Tuple? && t.TTuple?
    ensures Exactly(Decode(Fresh(Encode(false, v) + r, encoding), t), Decodable(v), Norm(v), r, encoding)
    decreases v, 0
  {
    hide TupleHead, DecodeTuple, WriteList, EncodeAll, NormAll;
    assert EachHasType(v.vs, t.ts) && AllFit(v.vs);
    AllTakeAnOctet(v.vs);
    var d := Fresh(Encode(false, v) + r, encoding);
    EmptyAll();
    ListHeadFront(d, |v.vs|, EncodeAll(false, v.vs), r);
    TupleExactly(v.vs, t.ts, r, encoding);
  }

  lemma {:induction false} MapExactly(v: Val, t: Ty, r: bytes, encoding: StructEncoding)
    requires Typed(v, t) && v.Map? && t.TMap?
    ensures Exactly(Decode(Fresh(Encode(false, v) + r, encoding), t), Decodable(v), Norm(v), r, encoding)
    decreases v, 0
  {
    hide MapHead, DecodeEntries, WriteMap, EncodeEntries, NormEntries;
    var es := v.entries;
    assert EntriesFit(es);
    forall i | 0 <= i < |es| ensures EntryTyped(es[i], t) { assert EntryHasType(es[i], t.key, t.value) && EntryFits(es[i]); }
    EntriesTakeTwoOctets(es);
    MapHeadFront(Fresh(Encode(false, v) + r, encoding), 2 * |es|, EncodeEntries(es), r);
    EntriesExactly(es, t, r, encoding);
    assert Decodable(v) <==> 2 * |es| <= MAX_COUNT && EntriesDecodable(es);
  }

  lemma {:induction false} DescribedExactly(v: Val, t: Ty, r: bytes, encoding: StructEncoding)
    requires Typed(v, t) && v.Described? && t.TDescribed?
    ensures Exactly(Decode(Fresh(Encode(false, v) + r, encoding), t), Decodable(v), Norm(v), r, encoding)
    decreases v, 0
  {
    hide DescribedHead, DescriptorBytes, ScalarFits;
    var tail := Encode(false, v.v) + r;
    var d := Fresh(Encode(false, v) + r, BasicEnc);
    assert d.rest == DescriptorBytes(NotElem, v.d) + tail;
    DescriptorFront(d, v.d, tail);
    assert Fits(false, v.v) && HasType(v.v, t.t);
    EncodingStart(false, v.v);
    ValueExactly(v.v, t.t, r, BasicEnc);
  }

  lemma {:induction false} CompositeValueExactly(v: Val, t: Ty, r: bytes, encoding: StructEncoding)
    requires Typed(v, t) && v.Composite? && t.TComposite?
    ensures Exactly(Decode(Fresh(Encode(false, v) + r, encoding), t), Decodable(v), Norm(v), r, encoding)
    decreases v, 0
  {
    hide DecodeComposite, EncodeComposite, NormFields, ScalarFits, FieldFits, FieldHasType, Skipped;
    assert FieldsHaveType(v.fields, t.fields) && FieldsFit(v.fields);
    assert FieldsTyped(v.fields, t.fields);
    CompositeExactly(v.fields, Flushed(v.fields), t.name, t.code, t.fields, r, encoding);
  }

  lemma IndexDecodes(i: u32, r: bytes, encoding: StructEncoding)
    ensures DecodeIdent(Fresh(ScalarBytes(NotElem, U32(i)) + r, encoding)) == Ok((IdNumber(i), Fresh(r, encoding)))
  {
    hide ParseU32, ScalarBytes;
    var d := Fresh(ScalarBytes(NotElem, U32(i)) + r, encoding);
    IndexStart(i);
    assert d.rest[0] == ScalarBytes(NotElem, U32(i))[0];
    ScalarRoundTrip(U32(i), r, encoding);
  }

  lemma IndexStart(i: u32)
    ensures var b := ScalarBytes(NotElem, U32(i)); |b| >= 1 && (b[0] == UINT0 || b[0] == SMALL_UINT || b[0] == UINT)
  {
    hide BE;
  }

  lemma UnitVariantExactly(v: Val, t: Ty, r: bytes, encoding: StructEncoding)
    requires Typed(v, t) && v.UnitVariant? && t.TEnum?
    ensures Exactly(Decode(Fresh(Encode(false, v) + r, encoding), t), Decodable(v), Norm(v), r, encoding)
  {
    hide DecodeIdent, ScalarBytes;
    IndexDecodes(v.index, r, encoding);
    IndexStart(v.index);
    var d := Fresh(Encode(false, v) + r, encoding);
    assert d.rest[0] == ScalarBytes(NotElem, U32(v.index))[0];
    assert EnumHead(d) == Ok(d);
    assert VariantHasType(v, t.variants);
    assert DecodeVariant(Fresh(r, encoding), v.index, t.variants[v.index]) == Ok((v, Fresh(r, encoding)));
    assert Decode(d, t) == DecodeEnum(d, t.variants);
  }

  /** The header and the index of a variant that carries a value. */
  lemma VariantHead(i: u32, buf: bytes, r: bytes, encoding: StructEncoding)
    requires |buf| >= 1 && |ScalarBytes(NotElem, U32(i)) + buf| <= MAX_BODY
    ensures var d := Fresh(Written(WriteMap(NotElem, 2, ScalarBytes(NotElem, U32(i)) + buf)) + r, encoding);
            EnumHead(d).Ok? && DecodeIdent(EnumHead(d).value) == Ok((IdNumber(i), Fresh(buf + r, encoding)))
  {
    hide WriteMap, EnumHead, DecodeIdent, ScalarBytes;
    var all := ScalarBytes(NotElem, U32(i)) + buf;
    IndexStart(i);
    MapHeadFront(Fresh(Written(WriteMap(NotElem, 2, all)) + r, encoding), 2, all, r);
    assert all + r == ScalarBytes(NotElem, U32(i)) + (buf + r);
    IndexDecodes(i, buf + r, encoding);
  }

  lemma {:induction false} NewtypeVariantExactly(v: Val, t: Ty, r: bytes, encoding: StructEncoding)
    requires Typed(v, t) && v.NewtypeVariant? && t.TEnum?
    ensures Exactly(Decode(Fresh(Encode(false, v) + r, encoding), t), Decodable(v), Norm(v), r, encoding)
    decreases v, 0
  {
    hide DecodeIdent, ScalarBytes, EnumHead, WriteMap;
    assert Fits(false, v.v) && VariantHasType(v, t.variants) && VariantArrays(t.variants[v.index]);
    assert Typed(v.v, t.variants[v.index].t);
    EncodingStart(false, v.v);
    ValueExactly(v.v, t.variants[v.index].t, r, encoding);
    EnumSteps(v, t, Encode(false, v.v), r, encoding);
  }

  /** The steps of an enum decode that the variants with a value have in common. */
  lemma EnumSteps(v: Val, t: Ty, buf: bytes, r: bytes, encoding: StructEncoding)
    requires t.TEnum? && (v.NewtypeVariant? || v.TupleVariant?) && v.index < |t.variants|
    requires |buf| >= 1 && |ScalarBytes(NotElem, U32(v.index)) + buf| <= MAX_BODY
    requires Encode(false, v) == Written(WriteMap(NotElem, 2, ScalarBytes(NotElem, U32(v.index)) + buf))
    ensures var o := DecodeVariant(Fresh(buf + r, encoding), v.index, t.variants[v.index]);
            Decode(Fresh(Encode(false, v) + r, encoding), t) ==
            (if o.Ok? then Ok((o.value.0, o.value.1.(enumType := ENone))) else o)
  {
    hide DecodeIdent, ScalarBytes, EnumHead, WriteMap, Encode, DecodeVariant;
    VariantHead(v.index, buf, r, encoding);
    var d := Fresh(Encode(false, v) + r, encoding);
    assert Decode(d, t) == DecodeEnum(d, t.variants);
  }

  lemma {:induction false} TupleVariantExactly(v: Val, t: Ty, r: bytes, encoding: StructEncoding)
    requires Typed(v, t) && v.TupleVariant? && t.TEnum?
    ensures Exactly(Decode(Fresh(Encode(false, v) + r, encoding), t), Decodable(v), Norm(v), r, encoding)
    decreases v, 0
  {
    hide DecodeIdent, ScalarBytes, EnumHead, WriteMap, WriteList, TupleHead, DecodeTuple, EncodeAll;
    assert AllFit(v.vs) && VariantHasType(v, t.variants) && VariantArrays(t.variants[v.index]);
    var ts := t.variants[v.index].ts;
    assert EachHasType(v.vs, ts);
    AllTakeAnOctet(v.vs);
    EmptyAll();
    var buf := Written(WriteList(NotElem, |v.vs|, EncodeAll(false, v.vs)));
    ListHeadFront(Fresh(buf + r, encoding), |v.vs|, EncodeAll(false, v.vs), r);
    ListWritten(|v.vs|, EncodeAll(false, v.vs));
    TupleExactly(v.vs, ts, r, encoding);
    EnumSteps(v, t, buf, r, encoding);
  }

  lemma ListWritten(n: nat, buf: bytes)
    requires |buf| <= MAX_BODY
    ensures |Written(WriteList(NotElem, n, buf))| >= 1
  {
    hide BE;
  }

  /**
   The round trip, nested to any depth: a typed value that can be written decodes, in front of any
   `r`, to its normal form and leaves exactly `r`, if and only if it is decodable.
   */
  lemma {:induction false} ValueExactly(v: Val, t: Ty, r: bytes, encoding: StructEncoding)
    requires Typed(v, t)
    ensures Exactly(Decode(Fresh(Encode(false, v) + r, encoding), t), Decodable(v), Norm(v), r, encoding)
    decreases v, 2
  {
    match t
    case TPrim(k) => PrimExactly(v, t, r, encoding);
    case TUnit => ReadFront(Fresh([NULL] + r, encoding), NULL, r);
    case TOption(u) =>
      if v.Just? { JustExactly(v, t, r, encoding); } else { NullDecodes(u, r, encoding); }
    case TSeq(u) => SeqExactly(v, t, r, encoding);
    case TTuple(ts) => TupleValueExactly(v, t, r, encoding);
    case TArray(u) => ArrayValueExactly(v, t, r, encoding);
    case TMap(_, _) => MapExactly(v, t, r, encoding);
    case TDescribed(u) => DescribedExactly(v, t, r, encoding);
    case TComposite(name, code, fts) => CompositeValueExactly(v, t, r, encoding);
    case TEnum(variants) => VariantExactly(v, t, r, encoding);
  }

  lemma PrimExactly(v: Val, t: Ty, r: bytes, encoding: StructEncoding)
    requires Typed(v, t) && t.TPrim?
    ensures Exactly(Decode(Fresh(Encode(false, v) + r, encoding), t), Decodable(v), Norm(v), r, encoding)
  {
    hide DecodeScalar, ScalarBytes;
    ScalarRoundTrip(v.s, r, encoding);
  }

  lemma {:induction false} JustExactly(v: Val, t: Ty, r: bytes, encoding: StructEncoding)
    requires Typed(v, t) && v.Just? && t.TOption?
    ensures Exactly(Decode(Fresh(Encode(false, v) + r, encoding), t), Decodable(v), Norm(v), r, encoding)
    decreases v, 0
  {
    hide DecodeOption, ScalarArrays;
    assert Fits(false, v.v) && HasType(v.v, t.t) && ScalarArrays(t.t) by { JustTyped(v, t); }
    OptionExactly(v.v, t.t, r, encoding);
  }

  lemma JustTyped(v: Val, t: Ty)
    requires Typed(v, t) && v.Just? && t.TOption?
    ensures Fits(false, v.v) && HasType(v.v, t.t) && ScalarArrays(t.t)
  {
  }

  lemma ArrayValueExactly(v: Val, t: Ty, r: bytes, encoding: StructEncoding)
    requires Typed(v, t) && t.TArray?
    ensures Exactly(Decode(Fresh(Encode(false, v) + r, encoding), t), Decodable(v), Norm(v), r, encoding)
  {
    hide DecodeArray, ArrayBody, AsciiIfStr;
    assert AllHaveType(v.vs, t.t);
    assert AllOfKind(v.vs, t.t.k) by {
      forall i | 0 <= i < |v.vs| ensures v.vs[i].Prim? && KindOf(v.vs[i].s) == t.t.k { assert HasType(v.vs[i], t.t); }
    }
    ArrayExactly(v.vs, t.t.k, r, encoding);
  }

  lemma {:induction false} VariantExactly(v: Val, t: Ty, r: bytes, encoding: StructEncoding)
    requires Typed(v, t) && t.TEnum?
    ensures Exactly(Decode(Fresh(Encode(false, v) + r, encoding), t), Decodable(v), Norm(v), r, encoding)
    decreases v, 1
  {
    assert VariantHasType(v, t.variants);
    hide Decode, Encode, Typed, Norm;
    if v.UnitVariant? {
      UnitVariantExactly(v, t, r, encoding);
    } else if v.NewtypeVariant? {
      NewtypeVariantExactly(v, t, r, encoding);
    } else {
      TupleVariantExactly(v, t, r, encoding);
    }
  }
}
