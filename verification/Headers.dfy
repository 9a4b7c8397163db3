/** The headers of lists, maps and arrays: nothing is lost in writing them, and they are read back. */
module Headers {
  import opened Bytes
  import opened Utf8
  import opened FormatCodes
  import opened Values
  import opened Wire
  import opened Decoder
  import opened Modes
  import opened Scalars

  predicate Wide(buf: bytes) {
    |buf| > 254
  }

  function Width(wide: bool): nat {
    if wide then 4 else 1
  }

  /** A header without any narrowing cast: constructor, exact size, exact count, body. */
  function ExactHeader(code: byte, wide: bool, num: nat, buf: bytes): bytes {
    [code] + (BE(|buf| + Width(wide), Width(wide)) + (BE(num, Width(wide)) + buf))
  }

  /**
   No narrowing cast in a header writer changes a value, as long as no element is empty: the count
   is then at most the body, so both counts fit wherever the body does.
   */
  lemma HeaderIsLossless(code8: byte, code32: byte, num: nat, buf: bytes)
    requires num <= |buf| <= MAX_BODY
    ensures WriteCompound(NotElem, code8, code32, num, buf)
         == Ok(ExactHeader(if Wide(buf) then code32 else code8, Wide(buf), num, buf))
    ensures num < Pow256(Width(Wide(buf))) && |buf| + Width(Wide(buf)) < Pow256(Width(Wide(buf)))
  {
    hide BE, Pow256;
    Pow256Values();
    var size := |buf| + Width(Wide(buf));
    if Wide(buf) {
      assert [code32] + (BE(size, 4) + BE(num, 4)) + buf == [code32] + (BE(size, 4) + (BE(num, 4) + buf));
    } else {
      OneOctet(size);
      OneOctet(num);
      assert [code8] + [size, num] + buf == [code8] + ([size] + ([num] + buf));
    }
  }

  lemma SizeAndCountFront(d: State, wide: bool, size: nat, count: nat, r: bytes)
    requires d.rest == BE(size, Width(wide)) + (BE(count, Width(wide)) + r)
    requires size < Pow256(Width(wide)) && count < Pow256(Width(wide))
    ensures SizeAndCount(d, wide) == Ok(((size, count), d.(rest := r)))
  {
    hide BE, TakeBE, Pow256;
    TakeBEFront(d, size, Width(wide), BE(count, Width(wide)) + r);
    TakeBEFront(d.(rest := BE(count, Width(wide)) + r), count, Width(wide), r);
  }

  /** Reading the constructor of a written header, then its size and its count. */
  lemma HeaderFront(d: State, code: byte, num: nat, buf: bytes, r: bytes)
    requires num <= |buf| <= MAX_BODY && d.elem == None && IsCode(code)
    requires d.rest == ExactHeader(code, Wide(buf), num, buf) + r
    ensures PeekCode(d) == PeekByte(d) == Ok(code)
    ensures Next(d) == ReadCode(d) && ReadCode(d).Ok? && ReadCode(d).value.0 == code
    ensures SizeAndCount(ReadCode(d).value.1, Wide(buf))
         == Ok(((|buf| + Width(Wide(buf)), num), d.(rest := buf + r)))
  {
    hide BE, SizeAndCount, Pow256, IsCode, WriteCompound;
    HeaderIsLossless(0, 0, num, buf);
    var w := Width(Wide(buf));
    var tail := BE(|buf| + w, w) + (BE(num, w) + (buf + r));
    assert d.rest == [code] + tail;
    ReadFront(d, code, tail);
    SizeAndCountFront(d.(rest := tail), Wide(buf), |buf| + w, num, buf + r);
  }

  // ---- every element takes at least one octet -----------------------------------------------

  /** The values whose encoding is, or starts with, the null constructor. */
  predicate Nullish(v: Val) {
    v.Unit? || v.Nothing? || (v.Just? && Nullish(v.v))
  }

  lemma ScalarStart(m: Mode, s: Scalar)
    ensures |ScalarBytes(m, s)| >= 1
    ensures m == NotElem ==> IsCode(ScalarBytes(m, s)[0]) && ScalarBytes(m, s)[0] != NULL && ScalarBytes(m, s)[0] != DESCRIBED
  {
    hide BE;
  }

  /** An encoding starts with a known constructor, which is null exactly for the nullish values. */
  lemma {:induction false} EncodingStart(inMap: bool, v: Val)
    requires Fits(inMap, v)
    ensures var b := Encode(inMap, v);
            |b| >= 1 && IsCode(b[0]) && (b[0] == NULL <==> Nullish(v))
    decreases v
  {
    hide ScalarBytes, WriteList, WriteMap, WriteArray, EncodeAll, EncodeEntries, EncodeNamed, EncodeValues, WireBody, ArrayBody,
         Flushed, IsCode, FieldFits, NamedFits, EntryFits;
    CodesStart();
    match v
    case Prim(s) => ScalarStart(NotElem, s);
    case UnitVariant(i) => ScalarStart(NotElem, U32(i));
    case Just(x) => EncodingStart(inMap, x);
    case List(vs) => CompoundStart(|vs|, EncodeAll(false, vs));
    case Tuple(vs) => CompoundStart(|vs|, EncodeAll(false, vs));
    case Array(vs) => CompoundStart(|vs|, ArrayBody(First, vs));
    case Map(es) => CompoundStart(2 * |es|, EncodeEntries(es));
    case NewtypeVariant(i, x) => CompoundStart(2, ScalarBytes(NotElem, U32(i)) + Encode(false, x));
    case TupleVariant(i, vs) =>
      CompoundStart(2, ScalarBytes(NotElem, U32(i)) + Written(WriteList(NotElem, |vs|, EncodeAll(false, vs))));
    case Struct(ns) => CompoundStart(if inMap then 2 * |ns| else |ns|, if inMap then EncodeNamed(ns) else EncodeValues(ns));
    case TupleStruct(vs) => CompoundStart(|vs|, EncodeAll(false, vs));
    case _ =>
  }

  lemma CodesStart()
    ensures IsCode(NULL) && IsCode(DESCRIBED)
  {
  }

  predicate Starts(b: bytes) {
    |b| >= 1 && IsCode(b[0]) && b[0] != NULL
  }

  lemma CompoundStart(num: nat, buf: bytes)
    requires |buf| <= MAX_BODY
    ensures Starts(Written(WriteList(NotElem, num, buf)))
    ensures Starts(Written(WriteMap(NotElem, num, buf))) && Starts(Written(WriteArray(NotElem, num, buf)))
  {
    hide BE;
  }

  lemma {:induction false} AllTakeAnOctet(vs: seq<Val>)
    requires AllFit(vs)
    ensures |vs| <= |EncodeAll(false, vs)|
  {
    hide Encode, Fits;
    if vs != [] {
      EncodingStart(false, vs[0]);
      AllTakeAnOctet(vs[1..]);
    }
  }

  lemma {:induction false} EntriesTakeTwoOctets(es: seq<Entry>)
    requires EntriesFit(es)
    ensures 2 * |es| <= |EncodeEntries(es)|
  {
    hide Encode, Fits;
    if es != [] {
      assert EntryFits(es[0]);
      EncodingStart(false, es[0].key);
      EncodingStart(false, es[0].value);
      EntriesTakeTwoOctets(es[1..]);
    }
  }

  lemma {:induction false} FieldsTakeAnOctet(fs: seq<Field>, n: nat)
    requires FieldsFit(fs) && n <= |fs|
    ensures n <= |WireBody(fs, n)|
  {
    hide Encode, Fits;
    if fs != [] && n > 0 {
      assert FieldFits(fs[0]);
      if !Skipped(fs[0]) { EncodingStart(false, fs[0].v); }
      FieldsTakeAnOctet(fs[1..], n - 1);
    }
  }

  lemma {:induction false} ElementsTakeAnOctet(m: Mode, vs: seq<Val>)
    requires forall i :: 0 <= i < |vs| ==> vs[i].Prim?
    ensures |vs| <= |ArrayBody(m, vs)|
    decreases vs
  {
    hide ScalarBytes;
    if vs != [] {
      ScalarStart(m, vs[0].s);
      ElementsTakeAnOctet(Other, vs[1..]);
    }
  }

  /**
   The headers of encoded lists, maps and scalar arrays: constructor, size and count as they are
   meant, with nothing cut off, because no element is empty.
   */
  lemma CompoundHeadersAreExact(v: Val)
    requires Fits(false, v) && (v.Array? ==> forall i :: 0 <= i < |v.vs| ==> v.vs[i].Prim?)
    ensures v.List? ==>
              var buf := EncodeAll(false, v.vs);
              && |v.vs| <= |buf|
              && Encode(false, v) == if v.vs == [] then [LIST0] else ExactHeader(if Wide(buf) then LIST32 else LIST8, Wide(buf), |v.vs|, buf)
    ensures v.Map? ==>
              var buf := EncodeEntries(v.entries);
              && 2 * |v.entries| <= |buf|
              && Encode(false, v) == ExactHeader(if Wide(buf) then MAP32 else MAP8, Wide(buf), 2 * |v.entries|, buf)
    ensures v.Array? ==>
              var buf := ArrayBody(First, v.vs);
              && |v.vs| <= |buf|
              && Encode(false, v) == ExactHeader(if Wide(buf) then ARRAY32 else ARRAY8, Wide(buf), |v.vs|, buf)
  {
    hide WriteCompound, ExactHeader, EncodeEntries, ArrayBody, EntryFits;
    match v
    case List(vs) =>
      assert AllFit(vs);
      AllTakeAnOctet(vs);
      assert vs == [] ==> EncodeAll(false, vs) == [];
      hide Fits;
      HeaderIsLossless(LIST8, LIST32, |vs|, EncodeAll(false, vs));
    case Map(es) =>
      assert EntriesFit(es);
      EntriesTakeTwoOctets(es);
      HeaderIsLossless(MAP8, MAP32, 2 * |es|, EncodeEntries(es));
    case Array(vs) =>
      ElementsTakeAnOctet(First, vs);
      HeaderIsLossless(ARRAY8, ARRAY32, |vs|, ArrayBody(First, vs));
    case _ =>
  }
}
