/** What the encoder writes is among what `Forms` allows, nested to any depth. */
module Conformance {
  import opened Bytes
  import opened Utf8
  import opened FormatCodes
  import opened Values
  import opened Wire
  import opened Decoder
  import opened Scalars
  import opened Headers
  import opened RoundTrip
  import opened Numbers
  import opened Forms

  lemma OutsideIsForm(s: Scalar)
    requires ScalarFits(NotElem, s)
    ensures ScalarForm(s, Outside(s))
  {
    hide Outside, WideForm, CompactForm;
    if s.Binary? || s.Str? || s.Sym? {
      VariableOutsideIsForm(s);
    } else {
      FixedOutsideIsForm(s);
    }
  }

  lemma VariableOutsideIsForm(s: Scalar)
    requires ScalarFits(NotElem, s) && (s.Binary? || s.Str? || s.Sym?)
    ensures WideForm(s, Outside(s)) || CompactForm(s, Outside(s))
  {
    hide Octets;
  }

  lemma FixedOutsideIsForm(s: Scalar)
    requires !s.Binary? && !s.Str? && !s.Sym?
    ensures WideForm(s, Outside(s)) || CompactForm(s, Outside(s))
  {
    hide Octets;
    if s.I32? { OneOctetByPosition(s.i32); }
    if s.I64? { OneOctetByPosition(s.i64); }
  }

  lemma ScalarConforms(s: Scalar)
    requires ScalarFits(NotElem, s)
    ensures ScalarForm(s, ScalarBytes(NotElem, s))
  {
    hide ScalarForm, Outside, ScalarBytes, ScalarFits;
    ScalarInOctets(s);
    OutsideIsForm(s);
  }

  /** `h` octets of header in front of `body`. */
  ghost predicate HeaderOf(code8: byte, code32: byte, n: nat, body: bytes, b: bytes, h: nat) {
    h <= |b| && b[h..] == body && |b| - h == |body| && HeaderForm(code8, code32, n, |body|, b[..h])
  }

  function HeaderLength(body: bytes): nat {
    if |body| <= 254 then 3 else 9
  }

  lemma CompoundConforms(code8: byte, code32: byte, n: nat, body: bytes)
    requires n <= |body| <= 0xFFFF_FFFB
    ensures HeaderOf(code8, code32, n, body, Compound(code8, code32, n, body), HeaderLength(body))
    ensures Compound(code8, code32, n, body)[0] == if |body| <= 254 then code8 else code32
  {
    hide Octets;
    var b, h := Compound(code8, code32, n, body), HeaderLength(body);
    if |body| <= 254 {
      OneOctetByPosition(|body| + 1);
      OneOctetByPosition(n);
      assert b[..h] == [code8, |body| + 1, n];
    } else {
      assert b[..h] == [code32] + (Octets(|body| + 4, 4) + Octets(n, 4));
    }
  }

  /** A written list, its header and its body. */
  lemma ListConforms(n: nat, body: bytes)
    requires n <= |body| <= MAX_BODY && (body == [] ==> n == 0)
    ensures var b := Written(WriteList(NotElem, n, body));
            var h := |b| - |body|;
            0 <= h <= |b| && b[h..] == body && ListForm(n, |body|, b[..h])
  {
    hide Compound, HeaderForm, WriteList;
    HeadersInOctets(n, body);
    if body != [] { CompoundConforms(0xc0, 0xd0, n, body); }
  }

  lemma MapConforms(n: nat, body: bytes)
    requires n <= |body| <= MAX_BODY
    ensures var b := Written(WriteMap(NotElem, n, body));
            var h := |b| - |body|;
            0 <= h <= |b| && b[h..] == body && HeaderForm(0xc1, 0xd1, n, |body|, b[..h])
  {
    hide Compound, HeaderForm, WriteMap;
    HeadersInOctets(n, body);
    CompoundConforms(0xc1, 0xd1, n, body);
  }

  // ---- arrays -------------------------------------------------------------------------------

  lemma ElementConforms(s: Scalar)
    requires AsciiIfStr(s) && ShortEnough(s)
    ensures ElementForm(s, ElementCode(KindOf(s)), ScalarBytes(Other, s))
  {
    hide Octets, ScalarBytes, CompactForm;
    ScalarInOctets(s);
    if s.Str? { CharCountIsByteCount(s.str); }
  }

  lemma {:induction false} ElementsConform(vs: seq<Val>, k: Kind)
    requires AllOfKind(vs, k) && AllAscii(vs) && |ArrayBody(Other, vs)| <= MAX_BODY
    ensures ReadsElements(vs, k, ElementCode(k), ArrayBody(Other, vs))
    decreases |vs|
  {
    hide ScalarBytes, ElementForm, AsciiIfStr, ElementCode;
    if vs != [] {
      var s, b := vs[0].s, ArrayBody(Other, vs);
      var i := |ScalarBytes(Other, s)|;
      assert b[..i] == ScalarBytes(Other, s) && b[i..] == ArrayBody(Other, vs[1..]);
      ScalarShort(Other, s);
      ElementConforms(s);
      assert IsElement(vs[0], k, ElementCode(k), b[..i]);
      ElementsConform(vs[1..], k);
    }
  }

  lemma ArrayConforms(vs: seq<Val>, k: Kind)
    requires AllOfKind(vs, k) && |ArrayBody(First, vs)| <= MAX_BODY && Decodable(Array(vs))
    ensures ArrayForm(vs, k, Written(WriteArray(NotElem, |vs|, ArrayBody(First, vs))))
  {
    hide Compound, HeaderForm, WriteArray, ArrayBody, ReadsElements, IsCode, AsciiIfStr;
    var buf := ArrayBody(First, vs);
    ElementsTakeAnOctet(First, vs);
    HeadersInOctets(|vs|, buf);
    CompoundConforms(0xe0, 0xf0, |vs|, buf);
    var b, h := Compound(0xe0, 0xf0, |vs|, buf), HeaderLength(buf);
    if vs == [] {
      EmptyArrayBody();
      assert b[..h] == b;
    } else {
      assert AllAscii(vs);
      ArrayBodyFactors(vs, k);
      CodesInNumbers(k);
      assert b[h] == buf[0] && b[h + 1..] == ArrayBody(Other, vs);
      ElementsConform(vs, k);
      assert ArrayAt(vs, k, b, h);
    }
  }

  // ---- sequences ----------------------------------------------------------------------------

  lemma {:induction false} AllConform(vs: seq<Val>, t: Ty)
    requires (forall i :: 0 <= i < |vs| ==> Typed(vs[i], t)) && AllDecodable(vs)
    ensures ReadsAll(NormAll(vs), t, EncodeAll(false, vs))
    decreases vs, 0
  {
    hide Encode, Norm, Typed, Decodable, Reads;
    if vs != [] {
      var b, i := EncodeAll(false, vs), |Encode(false, vs[0])|;
      assert b[..i] == Encode(false, vs[0]) && b[i..] == EncodeAll(false, vs[1..]);
      assert NormAll(vs)[0] == Norm(vs[0]) && NormAll(vs)[1..] == NormAll(vs[1..]);
      Conforms(vs[0], t);
      AllConform(vs[1..], t);
    }
  }

  lemma {:induction false} EachConforms(vs: seq<Val>, ts: seq<Ty>)
    requires |vs| == |ts| && (forall i :: 0 <= i < |vs| ==> Typed(vs[i], ts[i])) && AllDecodable(vs)
    ensures ReadsEach(NormAll(vs), ts, EncodeAll(false, vs))
    decreases vs, 0
  {
    hide Encode, Norm, Typed, Decodable, Reads;
    if vs != [] {
      var b, i := EncodeAll(false, vs), |Encode(false, vs[0])|;
      assert b[..i] == Encode(false, vs[0]) && b[i..] == EncodeAll(false, vs[1..]);
      assert NormAll(vs)[0] == Norm(vs[0]) && NormAll(vs)[1..] == NormAll(vs[1..]);
      Conforms(vs[0], ts[0]);
      EachConforms(vs[1..], ts[1..]);
    }
  }

  lemma {:induction false} EntryConforms(e: Entry, t: Ty, r: bytes)
    requires t.TMap? && EntryTyped(e, t) && EntryDecodable(e)
    ensures ReadsEntry(NormEntry(e), t, EncodeEntry(e) + r, |Encode(false, e.key)|, |EncodeEntry(e)|)
    decreases e, 0
  {
    hide Encode, Norm, Typed, Decodable, Reads;
    var b, i, j := EncodeEntry(e) + r, |Encode(false, e.key)|, |EncodeEntry(e)|;
    assert b[..i] == Encode(false, e.key) && b[i..j] == Encode(false, e.value);
    Conforms(e.key, t.key);
    Conforms(e.value, t.value);
  }

  lemma {:induction false} EntriesConform(es: seq<Entry>, t: Ty)
    requires t.TMap? && (forall i :: 0 <= i < |es| ==> EntryTyped(es[i], t)) && EntriesDecodable(es)
    ensures ReadsEntries(NormEntries(es), t, EncodeEntries(es)) && |NormEntries(es)| == |es|
    decreases es, 0
  {
    hide EncodeEntry, NormEntry, EntryTyped, EntryDecodable, ReadsEntry;
    if es != [] {
      var b, j := EncodeEntries(es), |EncodeEntry(es[0])|;
      assert b[j..] == EncodeEntries(es[1..]);
      assert NormEntries(es)[0] == NormEntry(es[0]) && NormEntries(es)[1..] == NormEntries(es[1..]);
      EntryConforms(es[0], t, EncodeEntries(es[1..]));
      EntriesConform(es[1..], t);
    }
  }

  // ---- fields -------------------------------------------------------------------------------

  lemma LeavesOut(f: Field, ft: FieldTy)
    requires FieldTyped(f, ft) && Skipped(f)
    ensures LeftOut(NormField(f), ft) && WireBytes(f) == [0x40]
  {
    hide HasType, ScalarArrays, Fits;
  }

  lemma {:induction false} FieldConforms(f: Field, ft: FieldTy)
    requires FieldTyped(f, ft) && FieldDecodable(f)
    ensures ReadsField(NormField(f), ft, WireBytes(f))
    decreases f, 0
  {
    hide Encode, Norm, Reads, Nullish, Fits, ScalarArrays, HasType, ArrayForm, BareForm, Decodable;
    if Skipped(f) {
      LeavesOut(f, ft);
    } else {
      match ft.attr
      case Mandatory => Conforms(f.v, ft.t);
      case Optional =>
        JustField(f, ft);
        NotNull(f.v.v);
        Conforms(f.v.v, ft.t);
      case Default(_) =>
        NotNull(f.v);
        Conforms(f.v, ft.t);
        NormedDefault(f, ft);
      case Multiple => MultipleConforms(f, ft);
    }
  }

  lemma NotNull(v: Val)
    requires Fits(false, v) && !Nullish(v)
    ensures Encode(false, v) != [] && Encode(false, v)[0] != 0x40
  {
    hide Encode, Fits, Nullish;
    EncodingStart(false, v);
  }

  lemma NormedDefault(f: Field, ft: FieldTy)
    requires FieldTyped(f, ft) && !Skipped(f) && ft.attr.Default?
    ensures NormField(f) == Field(f.attr, Norm(f.v)) && WireBytes(f) == Encode(false, f.v)
  {
    hide HasType, ScalarArrays, Fits, Encode, Norm;
  }

  lemma MultipleConforms(f: Field, ft: FieldTy)
    requires FieldTyped(f, ft) && FieldDecodable(f) && !Skipped(f) && ft.attr.Multiple?
    ensures ReadsField(NormField(f), ft, WireBytes(f))
  {
    hide ArrayForm, BareForm, ArrayBody;
    var vs := f.v.v.vs;
    assert Fits(false, f.v) && Fits(false, Array(vs));
    assert AllOfKind(vs, ft.t.k) by {
      assert AllHaveType(vs, ft.t);
      forall i | 0 <= i < |vs| ensures vs[i].Prim? && KindOf(vs[i].s) == ft.t.k { assert HasType(vs[i], ft.t); }
    }
    assert WireBytes(f) == Encode(false, Array(vs)) && Decodable(Array(vs));
    assert Norm(f.v) == Just(Norm(Array(vs))) == f.v;
    EncodingStart(false, Array(vs));
    ArrayConforms(vs, ft.t.k);
  }

  lemma NormFieldsStep(fs: seq<Field>)
    requires fs != []
    ensures NormFields(fs) != [] && NormFields(fs)[0] == NormField(fs[0]) && NormFields(fs)[1..] == NormFields(fs[1..])
  {
    hide NormField;
  }

  lemma {:induction false} AbsentConform(fs: seq<Field>, fts: seq<FieldTy>)
    requires FieldsTyped(fs, fts) && forall i :: 0 <= i < |fs| ==> Skipped(fs[i])
    ensures |NormFields(fs)| == |fs| && forall i :: 0 <= i < |fs| ==> LeftOut(NormFields(fs)[i], fts[i])
    decreases |fs|
  {
    hide FieldTyped, Skipped, NormField, LeftOut;
    if fs != [] {
      NormFieldsStep(fs);
      assert FieldTyped(fs[0], fts[0]);
      LeavesOut(fs[0], fts[0]);
      AbsentConform(fs[1..], fts[1..]);
      var ns := NormFields(fs);
      forall i | 0 <= i < |fs| ensures LeftOut(ns[i], fts[i]) {
        if i > 0 { assert ns[i] == NormFields(fs[1..])[i - 1] && fts[i] == fts[1..][i - 1]; }
      }
    }
  }

  lemma {:induction false} FieldsConform(fs: seq<Field>, fts: seq<FieldTy>, n: nat)
    requires FieldsTyped(fs, fts) && FieldsDecodable(fs) && n <= |fs| && forall i :: n <= i < |fs| ==> Skipped(fs[i])
    ensures |NormFields(fs)| == |fs| && ReadsFields(NormFields(fs), fts, n, WireBody(fs, n))
    decreases fs, 0
  {
    hide FieldTyped, Skipped, NormField, FieldDecodable, WireBytes, ReadsField, LeftOut;
    if n == 0 {
      AbsentConform(fs, fts);
    } else {
      NormFieldsStep(fs);
      var b, i := WireBody(fs, n), |WireBytes(fs[0])|;
      assert b[..i] == WireBytes(fs[0]) && b[i..] == WireBody(fs[1..], n - 1);
      assert FieldTyped(fs[0], fts[0]) && FieldDecodable(fs[0]);
      FieldConforms(fs[0], fts[0]);
      FieldsConform(fs[1..], fts[1..], n - 1);
    }
  }

  // ---- values -------------------------------------------------------------------------------

  lemma DescriptorConforms(x: Descriptor)
    requires ScalarFits(NotElem, DescriptorScalar(x))
    ensures DescriptorForm(x, DescriptorBytes(NotElem, x))
  {
    hide ScalarForm, ScalarBytes, ScalarFits;
    ScalarConforms(DescriptorScalar(x));
    assert DescriptorBytes(NotElem, x)[1..] == ScalarBytes(NotElem, DescriptorScalar(x));
  }

  lemma {:induction false} TupleBodyConforms(vs: seq<Val>, ts: seq<Ty>)
    requires EachHasType(vs, ts) && AllFit(vs) && AllDecodable(vs) && forall i :: 0 <= i < |ts| ==> ScalarArrays(ts[i])
    requires |EncodeAll(false, vs)| <= MAX_BODY
    ensures var b := Written(WriteList(NotElem, |vs|, EncodeAll(false, vs))); exists h: nat :: TupleAt(NormAll(vs), ts, b, h)
    decreases vs, 1
  {
    hide WriteList, EncodeAll, Fits, HasType, ScalarArrays, Decodable, ListForm, ReadsEach, NormAll;
    AllTakeAnOctet(vs);
    EmptyAll();
    var body := EncodeAll(false, vs);
    ListConforms(|vs|, body);
    EachConforms(vs, ts);
    var b := Written(WriteList(NotElem, |vs|, body));
    assert TupleAt(NormAll(vs), ts, b, |b| - |body|);
  }

  lemma {:induction false} SeqConforms(vs: seq<Val>, t: Ty)
    requires AllHaveType(vs, t) && ScalarArrays(t) && AllFit(vs) && AllDecodable(vs) && |vs| <= 65536 && |EncodeAll(false, vs)| <= MAX_BODY
    ensures var b := Written(WriteList(NotElem, |vs|, EncodeAll(false, vs))); exists h: nat :: ListAt(NormAll(vs), t, b, h)
    decreases vs, 1
  {
    hide WriteList, EncodeAll, Fits, HasType, ScalarArrays, Decodable, ListForm, ReadsAll, NormAll;
    AllTakeAnOctet(vs);
    EmptyAll();
    var body := EncodeAll(false, vs);
    ListConforms(|vs|, body);
    AllConform(vs, t);
    var b := Written(WriteList(NotElem, |vs|, body));
    assert ListAt(NormAll(vs), t, b, |b| - |body|);
  }

  lemma {:induction false} MapValueConforms(es: seq<Entry>, t: Ty)
    requires t.TMap? && ScalarArrays(t.key) && ScalarArrays(t.value) && EntriesFit(es) && EntriesDecodable(es) && 2 * |es| <= 65536
    requires (forall i :: 0 <= i < |es| ==> EntryHasType(es[i], t.key, t.value)) && |EncodeEntries(es)| <= MAX_BODY
    ensures var b := Written(WriteMap(NotElem, 2 * |es|, EncodeEntries(es))); exists h: nat :: MapAt(NormEntries(es), t, b, h)
    decreases es, 1
  {
    hide WriteMap, EncodeEntries, Fits, HasType, ScalarArrays, EntryDecodable, HeaderForm, ReadsEntries, NormEntries;
    forall i | 0 <= i < |es| ensures EntryTyped(es[i], t) { assert EntryHasType(es[i], t.key, t.value) && EntryFits(es[i]); }
    EntriesTakeTwoOctets(es);
    var body := EncodeEntries(es);
    MapConforms(2 * |es|, body);
    EntriesConform(es, t);
    var b := Written(WriteMap(NotElem, 2 * |es|, body));
    assert MapAt(NormEntries(es), t, b, |b| - |body|);
  }

  lemma {:induction false} CompositeConforms(fs: seq<Field>, name: str, code: Option<u64>, fts: seq<FieldTy>)
    requires FieldsTyped(fs, fts) && FieldsDecodable(fs) && |WireBody(fs, Flushed(fs))| <= MAX_BODY
    requires ScalarFits(NotElem, DescriptorScalar(DescriptorOf(name, code)))
    ensures var b := EncodeComposite(DescriptorOf(name, code), fs, Flushed(fs));
            var body := |WireBody(fs, Flushed(fs))|;
            body <= |b| && CompositeAt(NormFields(fs), name, code, fts, b, |DescriptorBytes(NotElem, DescriptorOf(name, code))|, |b| - body, Flushed(fs))
    decreases fs, 1
  {
    hide WriteList, WireBody, FieldsTyped, FieldsDecodable, ScalarFits, Flushed, Skipped, ListForm, ReadsFields, NormFields, DescriptorForm, DescriptorBytes;
    var x, n := DescriptorOf(name, code), Flushed(fs);
    var a, body := DescriptorBytes(NotElem, x), WireBody(fs, n);
    var l := Written(WriteList(NotElem, n, body));
    var b := EncodeComposite(x, fs, n);
    assert b == a + l;
    FieldsOctets(fs, fts);
    ListConforms(n, body);
    DescriptorConforms(x);
    FieldsConform(fs, fts, n);
    var g: nat, h: nat := |a|, |b| - |body|;
    assert b[..g] == a && b[g..h] == l[..|l| - |body|] && b[h..] == body;
  }

  lemma FieldsOctets(fs: seq<Field>, fts: seq<FieldTy>)
    requires FieldsTyped(fs, fts)
    ensures Flushed(fs) <= |WireBody(fs, Flushed(fs))| && |fs| == |fts|
    ensures forall i :: Flushed(fs) <= i < |fs| ==> Skipped(fs[i])
  {
    hide WireBody, FieldTyped, FieldFits, Skipped;
    FieldsTypedFit(fs, fts);
    FieldsTakeAnOctet(fs, Flushed(fs));
  }

  /** An index is a form of its variant. */
  lemma IndexConforms(variants: seq<VariantTy>, i: u32)
    requires i < |variants|
    ensures VariantForm(variants, i, ScalarBytes(NotElem, U32(i)))
  {
    hide ScalarForm, ScalarBytes;
    ScalarConforms(U32(i));
  }

  ghost predicate Carries(v: Val, variants: seq<VariantTy>, buf: bytes)
    requires IsVariant(v, variants)
  {
    match variants[v.index]
    case VUnit(_) => false
    case VNewtype(_, t) => Reads(v.v, t, buf)
    case VTuple(_, ts) => exists k: nat :: TupleAt(v.vs, ts, buf, k)
  }

  lemma VariantConforms(v: Val, variants: seq<VariantTy>, buf: bytes)
    requires IsVariant(v, variants) && !v.UnitVariant? && |buf| >= 1 && |ScalarBytes(NotElem, U32(v.index)) + buf| <= MAX_BODY
    requires Carries(v, variants, buf)
    ensures var b := Written(WriteMap(NotElem, 2, ScalarBytes(NotElem, U32(v.index)) + buf));
            exists g: nat, h: nat :: VariantAt(v, variants, b, g, h)
  {
    hide WriteMap, ScalarBytes, Reads, TupleAt, VariantForm, HeaderForm;
    var a := ScalarBytes(NotElem, U32(v.index));
    IndexStart(v.index);
    MapConforms(2, a + buf);
    IndexConforms(variants, v.index);
    var b := Written(WriteMap(NotElem, 2, a + buf));
    var g := |b| - |a + buf|;
    var h := g + |a|;
    assert b[g..h] == b[g..][..|a|] == a && b[h..] == b[g..][|a|..] == buf;
    assert VariantAt(v, variants, b, g, h);
  }

  lemma {:induction false} EnumConforms(v: Val, variants: seq<VariantTy>)
    requires Typed(v, TEnum(variants)) && Decodable(v)
    ensures Reads(Norm(v), TEnum(variants), Encode(false, v))
    decreases v, 1
  {
    hide ScalarBytes, WriteMap, WriteList, EncodeAll, NormAll, VariantForm, VariantAt, TupleAt;
    assert VariantHasType(v, variants) && VariantArrays(variants[v.index]);
    if v.UnitVariant? {
      IndexConforms(variants, v.index);
    } else if v.NewtypeVariant? {
      assert Fits(false, v.v) && Typed(v.v, variants[v.index].t);
      Conforms(v.v, variants[v.index].t);
      EncodingStart(false, v.v);
      VariantConforms(Norm(v), variants, Encode(false, v.v));
    } else {
      assert AllFit(v.vs) && EachHasType(v.vs, variants[v.index].ts) && AllDecodable(v.vs);
      TupleBodyConforms(v.vs, variants[v.index].ts);
      var buf := Written(WriteList(NotElem, |v.vs|, EncodeAll(false, v.vs)));
      ListWritten(|v.vs|, EncodeAll(false, v.vs));
      VariantConforms(Norm(v), variants, buf);
    }
  }

  /**
   The encoder writes what the standard allows: the encoding of every decodable value is, octet by
   octet and at every depth, an encoding of its normal form.
   */
  lemma {:induction false} Conforms(v: Val, t: Ty)
    requires Typed(v, t) && Decodable(v)
    ensures Reads(Norm(v), t, Encode(false, v))
    decreases v, 2
  {
    hide ScalarBytes, WriteMap, WriteList, WriteArray, EncodeAll, EncodeEntries, EncodeComposite, DescriptorBytes, NormAll, NormEntries, NormFields,
         ListAt, TupleAt, MapAt, CompositeAt, ArrayForm, BareForm, ScalarForm, ScalarFits, VariantForm, VariantAt, ArrayBody, FieldHasType,
         FieldFits, Flushed, WireBody, EntryHasType, EntryFits, EntryDecodable, Skipped;
    match t
    case TPrim(_) => ScalarConforms(v.s);
    case TUnit =>
    case TOption(u) =>
      if v.Just? {
        JustTyped(v, t);
        NotNull(v.v);
        Conforms(v.v, u);
      }
    case TSeq(u) => SeqConforms(v.vs, u);
    case TTuple(ts) => TupleBodyConforms(v.vs, ts);
    case TArray(u) => ArrayValueConforms(v, u);
    case TMap(_, _) => MapValueConforms(v.entries, t);
    case TDescribed(u) => DescribedConforms(v, u);
    case TComposite(name, code, fts) =>
      assert FieldsHaveType(v.fields, fts) && FieldsFit(v.fields);
      assert FieldsTyped(v.fields, fts) && FieldsDecodable(v.fields);
      CompositeConforms(v.fields, name, code, fts);
    case TEnum(variants) => EnumConforms(v, variants);
  }

  lemma ArrayValueConforms(v: Val, u: Ty)
    requires Typed(v, TArray(u)) && Decodable(v)
    ensures u.TPrim? && ArrayForm(v.vs, u.k, Encode(false, v))
  {
    hide ArrayForm, ArrayBody, AsciiIfStr, WriteArray;
    assert AllHaveType(v.vs, u);
    assert AllOfKind(v.vs, u.k) by {
      forall i | 0 <= i < |v.vs| ensures v.vs[i].Prim? && KindOf(v.vs[i].s) == u.k { assert HasType(v.vs[i], u); }
    }
    ArrayConforms(v.vs, u.k);
  }

  lemma {:induction false} DescribedConforms(v: Val, u: Ty)
    requires v.Described? && Typed(v, TDescribed(u)) && Decodable(v)
    ensures exists h: nat :: DescribedAt(v.d, Norm(v.v), u, Encode(false, v), h)
    decreases v, 1
  {
    hide DescriptorBytes, ScalarFits, DescriptorForm;
    var a, b := DescriptorBytes(NotElem, v.d), Encode(false, v);
    assert Typed(v.v, u) && Decodable(v.v) && b == a + Encode(false, v.v);
    DescriptorConforms(v.d);
    Conforms(v.v, u);
    assert b[..|a|] == a && b[|a|..] == Encode(false, v.v);
    assert DescribedAt(v.d, Norm(v.v), u, b, |a|);
  }
}
