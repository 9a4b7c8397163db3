/** The codec as a whole: what `to_vec` and `from_slice` promise together, and bounds on any input. */
module Codec {
  import opened Bytes
  import opened Utf8
  import opened FormatCodes
  import opened Values
  import opened Wire
  import opened Decoder
  import opened Modes
  import opened Scalars
  import opened Headers
  import opened RoundTrip
  import opened Normal
  import opened Encoder
  import opened Tameness
  import opened Refinement

  /**
   The end-to-end round trip: the stateful serializer accepts exactly the values whose parts fit, and
   what it writes, in front of any `r`, is decoded to the normal form with exactly `r` left, if and
   only if the value is decodable.
   */
  lemma CodecRoundTrip(v: Val, t: Ty, r: bytes)
    requires HasType(v, t) && ScalarArrays(t) && Tame(NoEnc, v)
    ensures if Accepts(false, v)
            then Vec(v).Ok? && (Decode(Fresh(Vec(v).value + r, NoEnc), t) == Ok((Norm(v), Fresh(r, NoEnc))) <==> Decodable(v))
            else Vec(v) == Err(TooLong)
  {
    hide Run, Encode, Decode, Fits, Reserves, Tame, Sensitive, HasType, ScalarArrays, Norm, Decodable;
    ClearIsInsensitive(Plain(NotElem), v);
    Refines(Plain(NotElem), v);
    if Accepts(false, v) { ValueExactly(v, t, r, NoEnc); }
  }

  /** The value itself comes back if and only if it is decodable and already in normal form. */
  lemma SameValueIff(v: Val, t: Ty, r: bytes)
    requires HasType(v, t) && ScalarArrays(t) && Tame(NoEnc, v) && Accepts(false, v)
    ensures Vec(v).Ok?
    ensures var o := Decode(Fresh(Vec(v).value + r, NoEnc), t); (o.Ok? && o.value.0 == v) <==> (Decodable(v) && Norm(v) == v)
  {
    hide Run, Encode, Decode, Fits, Reserves, Tame, Sensitive, HasType, ScalarArrays, Norm, Decodable;
    ClearIsInsensitive(Plain(NotElem), v);
    Refines(Plain(NotElem), v);
    ValueExactly(v, t, r, NoEnc);
    DecodedIsNormal(Fresh(Vec(v).value + r, NoEnc), t);
  }

  /** Two values of one type with the same encoding have the same normal form. */
  lemma EncodingIsInjective(v: Val, w: Val, t: Ty)
    requires Typed(v, t) && Typed(w, t) && Decodable(v) && Decodable(w)
    requires Encode(false, v) == Encode(false, w)
    ensures Norm(v) == Norm(w)
  {
    hide Encode, Decode, Typed, Norm, Decodable;
    ValueExactly(v, t, [], NoEnc);
    ValueExactly(w, t, [], NoEnc);
  }

  /** The encodings of a type form a prefix code: none is a proper prefix of another. */
  lemma PrefixFree(v: Val, w: Val, t: Ty, r: bytes)
    requires Typed(v, t) && Typed(w, t) && Decodable(v) && Decodable(w)
    requires Encode(false, v) + r == Encode(false, w)
    ensures r == [] && Norm(v) == Norm(w)
  {
    hide Encode, Decode, Typed, Norm, Decodable;
    ValueExactly(v, t, r, NoEnc);
    ValueExactly(w, t, [], NoEnc);
    assert Encode(false, w) + [] == Encode(false, w);
  }

  // ---- composites ---------------------------------------------------------------------------

  /** Any amount of null padding between the last flushed field and the field count decodes alike. */
  lemma TrailingNulls(fs: seq<Field>, n: nat, m: nat, name: str, code: Option<u64>, fts: seq<FieldTy>, r: bytes, encoding: StructEncoding)
    requires FieldsTyped(fs, fts) && FieldsDecodable(fs) && Flushed(fs) <= n <= m <= |fs|
    requires |WireBody(fs, m)| <= MAX_BODY && ScalarFits(NotElem, DescriptorScalar(DescriptorOf(name, code)))
    ensures WireBody(fs, m) == WireBody(fs, n) + seq(m - n, _ => NULL)
    ensures var x := DescriptorOf(name, code);
            && DecodeComposite(Fresh(EncodeComposite(x, fs, n) + r, encoding), name, code, fts)
            == DecodeComposite(Fresh(EncodeComposite(x, fs, m) + r, encoding), name, code, fts)
            == Ok((Composite(x, NormFields(fs)), Fresh(r, encoding)))
  {
    hide FieldsTyped, ScalarFits, DecodeComposite, EncodeComposite, NormFields, FieldsDecodable, Skipped, WireBytes;
    PaddingIsNull(fs, n, m);
    CompositeExactly(fs, n, name, code, fts, r, encoding);
    CompositeExactly(fs, m, name, code, fts, r, encoding);
  }

  lemma {:induction false} PaddingIsNull(fs: seq<Field>, n: nat, m: nat)
    requires n <= m <= |fs| && forall i :: n <= i < |fs| ==> Skipped(fs[i])
    ensures WireBody(fs, m) == WireBody(fs, n) + seq(m - n, _ => NULL)
    decreases fs
  {
    hide Skipped, Encode;
    if n > 0 {
      PaddingIsNull(fs[1..], n - 1, m - 1);
      assert WireBody(fs, m) == WireBytes(fs[0]) + WireBody(fs[1..], n - 1) + seq(m - n, _ => NULL);
    } else if m > 0 {
      PaddingIsNull(fs[1..], 0, m - 1);
      assert WireBytes(fs[0]) == [NULL];
      assert WireBody(fs[1..], 0) == [];
      assert [NULL] + seq(m - 1, _ => NULL) == seq(m, _ => NULL);
    }
  }

  /** The count a composite carries on the wire is one more than the index of the last field written. */
  lemma CompositeCount(d: Descriptor, fs: seq<Field>, r: bytes, encoding: StructEncoding)
    requires FieldsTame(fs) && Accepts(false, Composite(d, fs))
    ensures Vec(Composite(d, fs)).Ok?
    ensures var out := Vec(Composite(d, fs)).value;
            && DecodeDescriptor(Fresh(out + r, encoding)).Ok?
            && DecodeDescriptor(Fresh(out + r, encoding)).value.0 == d
            && FieldCount(DecodeDescriptor(Fresh(out + r, encoding)).value.1)
            == Ok((Flushed(fs), Fresh(WireBody(fs, Flushed(fs)) + r, encoding)))
  {
    hide Run, Encode, Fits, Reserves, Tame, WriteList, WireBody, DescriptorBytes, DecodeDescriptor, FieldCount, Flushed,
         ScalarFits, Vec, FieldFits;
    CompositeVec(d, fs);
    var n := Flushed(fs);
    var buf := WireBody(fs, n);
    FieldsTakeAnOctet(fs, n);
    var tail := Written(WriteList(NotElem, n, buf)) + r;
    assert DescriptorBytes(NotElem, d) + Written(WriteList(NotElem, n, buf)) + r == DescriptorBytes(NotElem, d) + tail;
    DescriptorFront(Fresh(DescriptorBytes(NotElem, d) + tail, encoding), d, tail);
    ListHeadFront(Fresh(tail, encoding), n, buf, r);
  }

  lemma CompositeVec(d: Descriptor, fs: seq<Field>)
    requires FieldsTame(fs) && Accepts(false, Composite(d, fs))
    ensures Vec(Composite(d, fs)) == Ok(EncodeComposite(d, fs, Flushed(fs)))
    ensures FieldsFit(fs) && ScalarFits(NotElem, DescriptorScalar(d)) && |WireBody(fs, Flushed(fs))| <= MAX_BODY
  {
    hide Run, EncodeComposite, FieldFits, FieldReserves, FieldTame, ScalarFits, WireBody, Flushed;
    Refines(Plain(NotElem), Composite(d, fs));
  }

  // ---- any input ----------------------------------------------------------------------------

  lemma {:induction false} ElementsBound(d: State, t: Ty, count: nat, size: nat, start: nat)
    requires d.nonNative == None && start - |d.rest| <= size
    ensures var o := DecodeElements(d, t, count, size, start);
            o.Ok? ==> |o.value.0| == count && start - |o.value.1.rest| <= size && |o.value.1.rest| <= |d.rest|
    decreases count
  {
    hide Decode;
    DecodeKeeps(d, t);
    if count > 0 && DecodeElements(d, t, count, size, start).Ok? {
      ElementsBound(Decode(d, t).value.1, t, count - 1, size, start);
    }
  }

  /**
   Arrays from any input: a successful decode gives exactly the declared number of elements, that
   number is capped and at most the declared size, and the element constructor and the elements
   stay within the declared body; a declared count of zero leaves the body unread.
   */
  lemma ArrayBound(d: State, t: Ty)
    requires d.nonNative == None && DecodeVec(d, t).Ok?
    requires ReadCode(d).value.0 == ARRAY8 || ReadCode(d).value.0 == ARRAY32
    ensures var wide := ReadCode(d).value.0 == ARRAY32;
            var h := SizeAndCount(ReadCode(d).value.1, wide);
            && h.Ok?
            && var ((size, count), d1) := h.value;
               var (vs, d2) := DecodeVec(d, t).value;
               && |vs| == count <= MAX_COUNT && count <= size
               && (count == 0 ==> d2.rest == d1.rest)
               && (count > 0 ==> |d1.rest| - |d2.rest| <= size - Width(wide))
               && |d2.rest| <= |d1.rest|
  {
    hide Decode, DecodeElements, DecodeList, ReadCode, SizeAndCount;
    var (c, d0) := ReadCode(d).value;
    var ((size, count), d1) := SizeAndCount(d0, c == ARRAY32).value;
    ReadKeeps(d);
    SizeAndCountKeeps(d0, c == ARRAY32);
    var (h, e) := SeqHead(d).value;
    if count == 0 {
      EmptyElements(e, t, h.size, |e.rest|);
    } else {
      ElementsBound(e, t, count, h.size, |e.rest|);
    }
  }

  // ---- the rule for strings in arrays -------------------------------------------------------

  /** An array of strings that is not all ASCII: written without complaint, never read back. */
  lemma NonAsciiArrayIsLost(x: str, r: bytes)
    requires !Ascii(x) && |x| <= MAX_BODY - 5
    ensures var v := Array([Prim(Str(x))]);
            && Vec(v).Ok?
            && !(var o := Decode(Fresh(Vec(v).value + r, NoEnc), TArray(TPrim(KStr))); o.Ok? && o.value.0 == v)
  {
    hide Encode, Decode, Fits, Reserves, Tame, HasType, ScalarArrays, Norm, Vec;
    OneStringArray(x);
    var v := Array([Prim(Str(x))]);
    assert !AsciiIfStr(v.vs[0].s) && !Decodable(v);
    SameValueIff(v, TArray(TPrim(KStr)), r);
  }

  lemma OneStringArray(x: str)
    requires |x| <= MAX_BODY - 5
    ensures var v, t := Array([Prim(Str(x))]), TArray(TPrim(KStr));
            HasType(v, t) && ScalarArrays(t) && Tame(NoEnc, v) && Accepts(false, v)
  {
    hide BE;
    var v, t := Array([Prim(Str(x))]), TArray(TPrim(KStr));
    assert AllHaveType(v.vs, t.t);
    assert v.vs[1..] == [] && ArrayBody(Other, []) == [];
    assert |ArrayBody(First, v.vs)| == 5 + |x|;
    assert Fits(false, v) && Reserves(v);
  }
}
