/** The decoder accepts whatever `Forms` allows, and gives the value it stands for. */
module Liberal {
  import opened Bytes
  import opened Utf8
  import opened FormatCodes
  import opened Values
  import opened Wire
  import opened Decoder
  import opened Modes
  import opened Scalars
  import opened Headers
  import opened RoundTrip
  import opened Numbers
  import opened Forms
  import opened Conformance

  /** `o` gives `x` and leaves `r`. */
  ghost predicate Gives<T>(o: Outcome<(T, State)>, x: T, r: bytes, encoding: StructEncoding) {
    o == Ok((x, Fresh(r, encoding)))
  }

  lemma Split(b: bytes, i: nat, r: bytes)
    requires i <= |b|
    ensures b + r == b[..i] + (b[i..] + r) && b == b[..i] + b[i..]
  {
  }

  lemma {:induction false} ReadsStart(v: Val, t: Ty, b: bytes)
    requires Reads(v, t, b)
    ensures b != [] && IsCode(b[0])
    decreases v
  {
    hide IsCode, ScalarForm, ReadsAll, ReadsEach, ReadsEntries, ReadsFields, VariantForm, HeaderForm;
    NullIsCode();
    match t
    case TPrim(_) => ScalarFormStart(v.s, b);
    case TUnit =>
    case TOption(u) => if v.Just? { ReadsStart(v.v, u, b); }
    case TSeq(u) =>
      if h: nat :| ListAt(v.vs, u, b, h) {
        HeadStart(|v.vs|, |b| - h, b, h);
      } else {
        ArrayStart(v.vs, u.k, b);
      }
    case TTuple(ts) =>
      var h: nat :| TupleAt(v.vs, ts, b, h);
      HeadStart(|v.vs|, |b| - h, b, h);
    case TArray(u) =>
      if ArrayForm(v.vs, u.k, b) { ArrayStart(v.vs, u.k, b); } else { ScalarFormStart(v.vs[0].s, b); }
    case TMap(_, _) =>
      var h: nat :| MapAt(v.entries, t, b, h);
      MapFormFront(Fresh(b[..h] + [], NoEnc), 2 * |v.entries|, |b| - h, b[..h], []);
    case TDescribed(u) =>
      var h: nat :| DescribedAt(v.d, v.v, u, b, h);
    case TComposite(name, code, fts) =>
      var g: nat, h: nat, n: nat :| CompositeAt(v.fields, name, code, fts, b, g, h, n);
    case TEnum(variants) => VariantStart(v, variants, b);
  }

  lemma NullIsCode()
    ensures IsCode(0x40) && IsCode(0x00)
  {
  }

  lemma HeadStart(n: nat, l: nat, b: bytes, h: nat)
    requires h <= |b| && ListForm(n, l, b[..h])
    ensures b != [] && IsCode(b[0]) && b[0] != NULL && b[0] != DESCRIBED
  {
    hide IsCode, HeaderForm;
    ListFormFront(Fresh(b[..h] + [], NoEnc), n, l, b[..h], []);
  }

  lemma ArrayStart(vs: seq<Val>, k: Kind, b: bytes)
    requires ArrayForm(vs, k, b)
    ensures b != [] && IsCode(b[0]) && (b[0] == ARRAY8 || b[0] == ARRAY32)
  {
    hide IsCode, HeaderForm, ReadsElements;
    ArrayCodes();
    if vs == [] {
      HeaderFormFront(Fresh(b + [], NoEnc), 0xe0, 0xf0, 0, 0, b, []);
    } else {
      var h: nat :| ArrayAt(vs, k, b, h);
      HeaderFormFront(Fresh(b[..h] + [], NoEnc), 0xe0, 0xf0, |vs|, |b| - h, b[..h], []);
    }
  }

  lemma IdentStart(variants: seq<VariantTy>, i: u32, b: bytes)
    requires i < |variants| && VariantForm(variants, i, b)
    ensures b != [] && IsCode(b[0]) && b[0] != LIST0 && b[0] != LIST8 && b[0] != LIST32 && b[0] != MAP8 && b[0] != MAP32
  {
    hide IsCode, ScalarForm;
    var name := variants[i].name;
    if ScalarForm(U32(i), b) { ScalarFormStart(U32(i), b); }
    else if ScalarForm(U64(i), b) { ScalarFormStart(U64(i), b); }
    else if ScalarForm(Str(name), b) { ScalarFormStart(Str(name), b); }
    else { ScalarFormStart(Sym(name), b); }
  }

  lemma VariantStart(v: Val, variants: seq<VariantTy>, b: bytes)
    requires Reads(v, TEnum(variants), b)
    ensures b != [] && IsCode(b[0])
  {
    hide IsCode, VariantForm, HeaderForm, TupleAt;
    if v.UnitVariant? {
      IdentStart(variants, v.index, b);
    } else {
      var g: nat, h: nat :| VariantAt(v, variants, b, g, h);
      PairHead(b, g, [], NoEnc);
    }
  }

  /** The header of a variant with a value. */
  lemma PairHead(b: bytes, g: nat, r: bytes, encoding: StructEncoding)
    requires g <= |b| && (HeaderForm(0xc1, 0xd1, 2, |b| - g, b[..g]) || HeaderForm(0xc0, 0xd0, 2, |b| - g, b[..g]))
    ensures b != [] && IsCode(b[0])
    ensures EnumHead(Fresh(b + r, encoding)) == Ok(Fresh(b[g..] + r, encoding))
  {
    hide IsCode, HeaderForm, EnumHead;
    Split(b, g, r);
    var d := Fresh(b[..g] + (b[g..] + r), encoding);
    if HeaderForm(0xc1, 0xd1, 2, |b| - g, b[..g]) {
      MapFormFront(d, 2, |b| - g, b[..g], b[g..] + r);
    } else {
      ListFormFront(d, 2, |b| - g, b[..g], b[g..] + r);
      PairListFront(d, |b| - g, b[..g], b[g..] + r);
    }
  }

  // ---- sequences ----------------------------------------------------------------------------

  lemma {:induction false} AllDecode(vs: seq<Val>, t: Ty, b: bytes, r: bytes, encoding: StructEncoding)
    requires ReadsAll(vs, t, b)
    ensures Gives(DecodeList(Fresh(b + r, encoding), t, |vs|), vs, r, encoding)
    decreases vs, 0
  {
    hide Decode, Reads;
    if vs == [] {
      assert b + r == r;
    } else {
      var i: nat :| i <= |b| && Reads(vs[0], t, b[..i]) && ReadsAll(vs[1..], t, b[i..]);
      Split(b, i, r);
      ReadsDecode(vs[0], t, b[..i], b[i..] + r, encoding);
      AllDecode(vs[1..], t, b[i..], r, encoding);
      assert vs == [vs[0]] + vs[1..];
    }
  }

  lemma {:induction false} EachDecodes(vs: seq<Val>, ts: seq<Ty>, b: bytes, r: bytes, encoding: StructEncoding)
    requires |vs| == |ts| && ReadsEach(vs, ts, b)
    ensures Gives(DecodeTuple(Fresh(b + r, encoding), ts), vs, r, encoding)
    decreases vs, 0
  {
    hide Decode, Reads;
    if vs == [] {
      assert b + r == r;
    } else {
      var i: nat :| i <= |b| && Reads(vs[0], ts[0], b[..i]) && ReadsEach(vs[1..], ts[1..], b[i..]);
      Split(b, i, r);
      ReadsDecode(vs[0], ts[0], b[..i], b[i..] + r, encoding);
      EachDecodes(vs[1..], ts[1..], b[i..], r, encoding);
      assert vs == [vs[0]] + vs[1..];
    }
  }

  lemma {:induction false} EntryDecodes(e: Entry, t: Ty, b: bytes, i: nat, j: nat, r: bytes, encoding: StructEncoding)
    requires t.TMap? && ReadsEntry(e, t, b, i, j)
    ensures var o := Decode(Fresh(b + r, encoding), t.key);
            o.Ok? && o.value.0 == e.key && Gives(Decode(o.value.1, t.value), e.value, b[j..] + r, encoding)
    decreases e, 0
  {
    hide Decode, Reads;
    assert b + r == b[..i] + (b[i..j] + (b[j..] + r));
    ReadsDecode(e.key, t.key, b[..i], b[i..j] + (b[j..] + r), encoding);
    ReadsDecode(e.value, t.value, b[i..j], b[j..] + r, encoding);
  }

  lemma {:induction false} EntriesDecode(es: seq<Entry>, t: Ty, b: bytes, r: bytes, encoding: StructEncoding)
    requires t.TMap? && ReadsEntries(es, t, b)
    ensures Gives(DecodeEntries(Fresh(b + r, encoding), t, 2 * |es|), es, r, encoding)
    decreases es, 0
  {
    hide Decode, ReadsEntry;
    if es == [] {
      assert b + r == r;
    } else {
      var i: nat, j: nat :| ReadsEntry(es[0], t, b, i, j) && ReadsEntries(es[1..], t, b[j..]);
      EntryDecodes(es[0], t, b, i, j, r, encoding);
      EntriesDecode(es[1..], t, b[j..], r, encoding);
      assert es == [es[0]] + es[1..] && es[0] == Entry(es[0].key, es[0].value);
    }
  }

  // ---- arrays -------------------------------------------------------------------------------

  lemma {:induction false} ElementsDecode(d: State, vs: seq<Val>, k: Kind, c: byte, b: bytes, r: bytes, size: nat, start: nat)
    requires ReadsElements(vs, k, c, b) && d.elem == Some(c) && d.nonNative == None
    requires d.rest == b + r && start - |r| <= size
    ensures DecodeElements(d, TPrim(k), |vs|, size, start) == Ok((vs, d.(rest := r, elem := None)))
    decreases |vs|
  {
    hide DecodeScalar, ScalarForm;
    if vs == [] {
      assert d.rest == r;
    } else {
      var i: nat :| i <= |b| && IsElement(vs[0], k, c, b[..i]) && ReadsElements(vs[1..], k, c, b[i..]);
      Split(b, i, r);
      var e := [c] + b[..i];
      assert e[1..] == b[..i];
      ScalarFormDecodes(d, d, vs[0].s, e, b[i..] + r);
      ElementsDecode(d.(rest := b[i..] + r), vs[1..], k, c, b[i..], r, size, start);
      assert vs == [vs[0]] + vs[1..];
    }
  }

  lemma ArrayFormHead(d: State, vs: seq<Val>, k: Kind, b: bytes, h: nat, r: bytes)
    requires vs != [] && ArrayAt(vs, k, b, h) && d.rest == b + r && d.elem == None
    ensures SeqHead(d) == Ok((ArrayHeader(|b| - h - 1, |vs|), d.(rest := b[h + 1..] + r, elem := Some(b[h]))))
  {
    hide IsCode, HeaderForm, SeqHead, ReadCode, SizeAndCount, ReadsElements;
    ArrayCodes();
    Split(b, h, r);
    HeaderFormFront(d, 0xe0, 0xf0, |vs|, |b| - h, b[..h], b[h..] + r);
    SeqHeadOfArray(d);
    var tail := b[h + 1..] + r;
    assert b[h..] + r == [b[h]] + tail;
    CodeFront(d.(rest := b[h..] + r), b[h], tail);
  }

  lemma CodeFront(d: State, c: byte, r: bytes)
    requires IsCode(c) && d.rest == [c] + r
    ensures ReadFormatCode(d) == Ok((c, d.(rest := r)))
  {
    hide IsCode;
  }

  lemma ArrayFormDecodes(d: State, vs: seq<Val>, k: Kind, b: bytes, r: bytes)
    requires ArrayForm(vs, k, b) && d.rest == b + r && d.elem == None && d.nonNative == None
    ensures DecodeVec(d, TPrim(k)) == Ok((vs, d.(rest := r)))
  {
    hide SeqHead, DecodeElements, HeaderForm, ReadsElements, IsCode;
    if vs == [] {
      EmptyArrayFormHead(d, b, r);
      EmptyElements(d.(rest := r), TPrim(k), SeqHead(d).value.0.size, |r|);
    } else {
      var h: nat :| ArrayAt(vs, k, b, h);
      ArrayFormHead(d, vs, k, b, h, r);
      var e := d.(rest := b[h + 1..] + r, elem := Some(b[h]));
      ElementsDecode(e, vs, k, b[h], b[h + 1..], r, |b| - h - 1, |e.rest|);
    }
  }

  lemma EmptyArrayFormHead(d: State, b: bytes, r: bytes)
    requires HeaderForm(0xe0, 0xf0, 0, 0, b) && d.rest == b + r && d.elem == None
    ensures SeqHead(d).Ok? && SeqHead(d).value.0.ArrayHeader? && SeqHead(d).value.0.count == 0 && SeqHead(d).value.1 == d.(rest := r)
  {
    hide IsCode, HeaderForm, SeqHead, ReadCode, SizeAndCount;
    ArrayCodes();
    HeaderFormFront(d, 0xe0, 0xf0, 0, 0, b, r);
    SeqHeadOfArray(d);
  }

  /** An array, or one bare value for an array of one. */
  lemma ArrayDecodes(vs: seq<Val>, k: Kind, b: bytes, r: bytes, encoding: StructEncoding)
    requires ArrayForm(vs, k, b) || BareForm(vs, k, b)
    ensures Gives(DecodeArray(Fresh(b + r, encoding), TPrim(k)), Array(vs), r, encoding)
    ensures b != [] && IsCode(b[0]) && b[0] != NULL
  {
    hide DecodeVec, IsCode, ArrayForm, ScalarForm, DecodeScalar;
    var d := Fresh(b + r, encoding).(enumType := EArray);
    if ArrayForm(vs, k, b) {
      ArrayStart(vs, k, b);
      ArrayFormDecodes(d, vs, k, b, r);
    } else {
      ScalarFormStart(vs[0].s, b);
      ScalarFormFront(d, vs[0].s, b, r);
      assert vs == [vs[0]];
    }
  }

  // ---- descriptors and fields ---------------------------------------------------------------

  lemma DescriptorFormFront(d: State, x: Descriptor, b: bytes, r: bytes)
    requires DescriptorForm(x, b) && d.rest == b + r && d.elem == None && d.nonNative == None
    ensures DescribedHead(d) == DecodeDescriptor(d) == Ok((x, d.(rest := r)))
  {
    hide IsCode, ScalarForm, DecodeSymbol, ParseU64;
    NullIsCode();
    var s, e := DescriptorScalar(x), b[1..];
    assert d.rest == [DESCRIBED] + (e + r);
    var d2 := d.(rest := e + r, enumType := ENone);
    ScalarFormFront(d2, s, e, r);
    DescriptorCodes(x, e);
    assert (e + r)[0] == e[0];
  }

  lemma DescriptorCodes(x: Descriptor, b: bytes)
    requires ScalarForm(DescriptorScalar(x), b)
    ensures b != [] && if x.Name? then b[0] == SYM8 || b[0] == SYM32 else b[0] == ULONG || b[0] == SMALL_ULONG || b[0] == ULONG0
  {
    hide Octets;
  }

  lemma {:induction false} FieldDecodes(f: Field, ft: FieldTy, b: bytes, r: bytes, encoding: StructEncoding)
    requires ReadsField(f, ft, b)
    ensures Gives(DecodeField(Fresh(b + r, encoding), ft), f, r, encoding)
    ensures b != [] && IsCode(b[0])
    decreases f, 0
  {
    hide Decode, Reads, IsCode, DecodeArray, ArrayForm, BareForm, ReadCode, DecodeOption, DecodeMultiple;
    NullIsCode();
    if b == [0x40] && !ft.attr.Mandatory? {
      NullDecodes(ft.t, r, encoding);
    } else {
      match ft.attr
      case Mandatory =>
        ReadsStart(f.v, ft.t, b);
        ReadsDecode(f.v, ft.t, b, r, encoding);
      case Optional => OptionDecodes(f.v.v, ft.t, b, r, encoding);
      case Default(_) => OptionDecodes(f.v, ft.t, b, r, encoding);
      case Multiple => MultipleDecodes(if f.v.Just? then f.v.v.vs else [], ft.t.k, b, r, encoding);
    }
  }

  lemma MultipleDecodes(vs: seq<Val>, k: Kind, b: bytes, r: bytes, encoding: StructEncoding)
    requires ArrayForm(vs, k, b) || BareForm(vs, k, b)
    ensures Gives(DecodeMultiple(Fresh(b + r, encoding), TPrim(k)), if vs == [] then Nothing else Just(Array(vs)), r, encoding)
    ensures b != [] && IsCode(b[0])
  {
    hide DecodeArray, ArrayForm, BareForm, IsCode;
    ArrayDecodes(vs, k, b, r, encoding);
    assert (b + r)[0] == b[0];
  }

  lemma {:induction false} OptionDecodes(x: Val, t: Ty, b: bytes, r: bytes, encoding: StructEncoding)
    requires Reads(x, t, b) && b != [] && b[0] != 0x40
    ensures Gives(DecodeOption(Fresh(b + r, encoding), t), Just(x), r, encoding)
    ensures IsCode(b[0])
    decreases x, 6
  {
    hide Decode, Reads, IsCode;
    ReadsStart(x, t, b);
    assert (b + r)[0] == b[0];
    ReadsDecode(x, t, b, r, encoding);
  }

  lemma {:induction false} AbsentFieldsDecode(fs: seq<Field>, fts: seq<FieldTy>, d: State)
    requires |fs| == |fts| && forall i :: 0 <= i < |fs| ==> LeftOut(fs[i], fts[i])
    ensures DecodeFields(d, 0, fts) == Ok((fs, d))
    decreases |fs|
  {
    hide DecodeField;
    if fs != [] {
      assert LeftOut(fs[0], fts[0]) && MissingField(fts[0].attr) == Ok(fs[0]);
      AbsentFieldsDecode(fs[1..], fts[1..], d);
      assert fs == [fs[0]] + fs[1..];
    }
  }

  lemma {:induction false} FieldsDecode(fs: seq<Field>, fts: seq<FieldTy>, n: nat, b: bytes, r: bytes, encoding: StructEncoding)
    requires |fs| == |fts| && ReadsFields(fs, fts, n, b)
    ensures Gives(DecodeFields(Fresh(b + r, encoding), n, fts), fs, r, encoding)
    decreases fs, 0
  {
    hide DecodeField, ReadsField, IsCode, LeftOut;
    if n == 0 || fs == [] {
      assert b + r == r;
      AbsentFieldsDecode(fs, fts, Fresh(r, encoding));
    } else {
      var i: nat :| i <= |b| && ReadsField(fs[0], fts[0], b[..i]) && ReadsFields(fs[1..], fts[1..], n - 1, b[i..]);
      Split(b, i, r);
      FieldDecodes(fs[0], fts[0], b[..i], b[i..] + r, encoding);
      assert (b + r)[0] == b[..i][0];
      FieldsDecode(fs[1..], fts[1..], n - 1, b[i..], r, encoding);
      assert fs == [fs[0]] + fs[1..];
    }
  }

  // ---- variants -----------------------------------------------------------------------------

  /** The index found for a name is that of the first variant of that name. */
  lemma {:induction false} FindsFirst(variants: seq<VariantTy>, i: u32, j: nat)
    requires j <= i < |variants| && forall l :: 0 <= l < i ==> variants[l].name != variants[i].name
    ensures FindVariant(variants, variants[i].name, j) == Ok(i)
    decreases i - j
  {
    if j < i { FindsFirst(variants, i, j + 1); }
  }

  lemma StrFormDecodes(x: str, b: bytes, r: bytes, encoding: StructEncoding)
    requires ScalarForm(Str(x), b)
    ensures Gives(DecodeStr(Fresh(b + r, encoding)), x, r, encoding)
    ensures b[0] == STR8 || b[0] == STR32
  {
    hide Octets, ReadCode, TakePrefixed, BE, Valid;
    Pow256Values();
    var d := Fresh(b + r, encoding);
    var wide := b[0] == 0xb1;
    if wide { BEByPosition(|x|, 4); } else { OneOctet(|x|); }
    var tail := BE(|x|, if wide then 4 else 1) + (x + r);
    assert d.rest == [b[0]] + tail;
    ReadFront(d, b[0], tail);
    PrefixedFront(d.(rest := tail), x, wide, r);
  }

  lemma IdentFormCodes(s: Scalar, b: bytes)
    requires ScalarForm(s, b)
    ensures s.U32? ==> b[0] == UINT || b[0] == SMALL_UINT || b[0] == UINT0
    ensures s.U64? ==> b[0] == ULONG || b[0] == SMALL_ULONG || b[0] == ULONG0
    ensures s.Sym? ==> b[0] == SYM8 || b[0] == SYM32
  {
    hide Octets;
  }

  /** A variant is found by its index, as an unsigned integer of either width, and by its name. */
  lemma VariantFormDecodes(variants: seq<VariantTy>, i: u32, b: bytes, r: bytes, encoding: StructEncoding)
    requires i < |variants| && VariantForm(variants, i, b)
    ensures var o := DecodeIdent(Fresh(b + r, encoding)); o.Ok? && o.value.1 == Fresh(r, encoding) && VariantIndex(variants, o.value.0) == Ok(i)
  {
    hide ScalarForm, DecodeStr, DecodeSymbol, ParseU32, ParseU64, PeekDescriptor, IsCode, FindVariant, PeekCode;
    var d := Fresh(b + r, encoding);
    var name := variants[i].name;
    if ScalarForm(U32(i), b) {
      ScalarFormFront(d, U32(i), b, r);
      IdentFormCodes(U32(i), b);
    } else if ScalarForm(U64(i), b) {
      ScalarFormFront(d, U64(i), b, r);
      IdentFormCodes(U64(i), b);
    } else {
      FindsFirst(variants, i, 0);
      if ScalarForm(Str(name), b) {
        ScalarFormFront(d, Str(name), b, r);
        StrFormDecodes(name, b, r, encoding);
      } else {
        ScalarFormFront(d, Sym(name), b, r);
        IdentFormCodes(Sym(name), b);
      }
    }
  }

  lemma UnitVariantDecodes(v: Val, variants: seq<VariantTy>, b: bytes, r: bytes, encoding: StructEncoding)
    requires v.UnitVariant? && IsVariant(v, variants) && VariantForm(variants, v.index, b)
    ensures Gives(DecodeEnum(Fresh(b + r, encoding), variants), v, r, encoding)
  {
    hide VariantForm, DecodeIdent, VariantIndex, IsCode;
    var d := Fresh(b + r, encoding);
    IdentStart(variants, v.index, b);
    assert d.rest[0] == b[0];
    assert EnumHead(d) == Ok(d);
    VariantFormDecodes(variants, v.index, b, r, encoding);
  }

  lemma {:induction false} VariantDecodes(v: Val, variants: seq<VariantTy>, b: bytes, g: nat, h: nat, r: bytes, encoding: StructEncoding)
    requires IsVariant(v, variants) && VariantAt(v, variants, b, g, h)
    ensures Gives(DecodeEnum(Fresh(b + r, encoding), variants), v, r, encoding)
    decreases v, 1
  {
    hide VariantForm, HeaderForm, DecodeIdent, VariantIndex, EnumHead, Decode, Reads, TupleHead, DecodeTuple, TupleAt;
    PairHead(b, g, r, encoding);
    assert b[g..] + r == b[g..h] + (b[h..] + r);
    VariantFormDecodes(variants, v.index, b[g..h], b[h..] + r, encoding);
    match variants[v.index]
    case VNewtype(_, t) => ReadsDecode(v.v, t, b[h..], r, encoding);
    case VTuple(_, ts) =>
      var k: nat :| TupleAt(v.vs, ts, b[h..], k);
      TupleFormDecodes(v.vs, ts, b[h..], k, r, encoding);
  }

  // ---- values -------------------------------------------------------------------------------

  lemma {:induction false} TupleFormDecodes(vs: seq<Val>, ts: seq<Ty>, b: bytes, h: nat, r: bytes, encoding: StructEncoding)
    requires TupleAt(vs, ts, b, h)
    ensures var o := TupleHead(Fresh(b + r, encoding), |ts|); o.Ok? && Gives(DecodeTuple(o.value, ts), vs, r, encoding)
    decreases vs, 1
  {
    hide ListForm, TupleHead, DecodeTuple, ReadsEach;
    Split(b, h, r);
    ListFormFront(Fresh(b + r, encoding), |vs|, |b| - h, b[..h], b[h..] + r);
    EachDecodes(vs, ts, b[h..], r, encoding);
  }

  lemma {:induction false} SeqDecodes(vs: seq<Val>, t: Ty, b: bytes, h: nat, r: bytes, encoding: StructEncoding)
    requires ListAt(vs, t, b, h)
    ensures Gives(DecodeVec(Fresh(b + r, encoding), t), vs, r, encoding)
    decreases vs, 1
  {
    hide ListForm, SeqHead, DecodeList, DecodeElements, ReadsAll;
    Split(b, h, r);
    ListFormFront(Fresh(b + r, encoding), |vs|, |b| - h, b[..h], b[h..] + r);
    AllDecode(vs, t, b[h..], r, encoding);
  }

  lemma {:induction false} MapDecodes(es: seq<Entry>, t: Ty, b: bytes, h: nat, r: bytes, encoding: StructEncoding)
    requires t.TMap? && MapAt(es, t, b, h)
    ensures var o := MapHead(Fresh(b + r, encoding)); o.Ok? && Gives(DecodeEntries(o.value.1, t, o.value.0), es, r, encoding)
    decreases es, 1
  {
    hide HeaderForm, MapHead, DecodeEntries, ReadsEntries, EnumHead;
    Split(b, h, r);
    MapFormFront(Fresh(b + r, encoding), 2 * |es|, |b| - h, b[..h], b[h..] + r);
    EntriesDecode(es, t, b[h..], r, encoding);
  }

  lemma {:induction false} DescribedDecodes(x: Descriptor, v: Val, t: Ty, b: bytes, h: nat, r: bytes, encoding: StructEncoding)
    requires DescribedAt(x, v, t, b, h)
    ensures Gives(DecodeDescribed(Fresh(b + r, encoding), t), Described(x, v), r, encoding)
    decreases v, 6
  {
    hide DescriptorForm, DescribedHead, DecodeDescriptor, Decode, Reads, IsCode;
    Split(b, h, r);
    DescriptorFormFront(Fresh(b + r, BasicEnc), x, b[..h], b[h..] + r);
    ReadsStart(v, t, b[h..]);
    assert (b[h..] + r)[0] == b[h..][0];
    ReadsDecode(v, t, b[h..], r, BasicEnc);
  }

  /** A composite decodes under its name whether or not it has a code, and under its code. */
  lemma {:induction false} CompositeDecodes(fs: seq<Field>, name: str, code: Option<u64>, fts: seq<FieldTy>, b: bytes, g: nat, h: nat, n: nat,
                                            r: bytes, encoding: StructEncoding)
    requires CompositeAt(fs, name, code, fts, b, g, h, n)
    ensures Gives(DecodeComposite(Fresh(b + r, encoding), name, code, fts), Composite(DescriptorOf(name, code), fs), r, encoding)
    decreases fs, 1
  {
    hide DescriptorForm, DescribedHead, DecodeDescriptor, FieldCount, SeqHead, TupleHead, DecodeFields, ListForm, ReadsFields;
    var d := Fresh(b + r, ListEnc);
    var tail := b[h..] + r;
    assert b + r == b[..g] + (b[g..h] + tail);
    var x := if DescriptorForm(Name(name), b[..g]) then Name(name) else Code(code.value);
    DescriptorFormFront(d, x, b[..g], b[g..h] + tail);
    ListFormFront(d.(rest := b[g..h] + tail), n, |b| - h, b[g..h], tail);
    FieldsDecode(fs, fts, n, b[h..], r, ListEnc);
  }

  /**
   The decoder is as liberal as the standard: every encoding of a value, in any of its forms and nested
   to any depth, in front of any `r`, decodes to that value and leaves exactly `r`.
   */
  lemma {:induction false} ReadsDecode(v: Val, t: Ty, b: bytes, r: bytes, encoding: StructEncoding)
    requires Reads(v, t, b)
    ensures Gives(Decode(Fresh(b + r, encoding), t), v, r, encoding)
    decreases v, 5
  {
    hide DecodeScalar, ScalarForm, ReadCode, DecodeOption, DecodeVec, TupleHead, DecodeTuple, MapHead, DecodeEntries, DecodeArray,
         DecodeDescribed, DecodeComposite, DecodeEnum, ListAt, TupleAt, MapAt, DescribedAt, CompositeAt, VariantAt, ArrayForm, BareForm,
         VariantForm;
    match t
    case TPrim(_) => ScalarFormFront(Fresh(b + r, encoding), v.s, b, r);
    case TUnit => ReadFront(Fresh(b + r, encoding), NULL, r);
    case TOption(u) => if v.Just? { OptionDecodes(v.v, u, b, r, encoding); } else { NullDecodes(u, r, encoding); }
    case TSeq(u) =>
      if h: nat :| ListAt(v.vs, u, b, h) {
        SeqDecodes(v.vs, u, b, h, r, encoding);
      } else {
        ArrayFormDecodes(Fresh(b + r, encoding), v.vs, u.k, b, r);
      }
    case TTuple(ts) =>
      var h: nat :| TupleAt(v.vs, ts, b, h);
      TupleFormDecodes(v.vs, ts, b, h, r, encoding);
    case TArray(u) => ArrayDecodes(v.vs, u.k, b, r, encoding);
    case TMap(_, _) =>
      var h: nat :| MapAt(v.entries, t, b, h);
      MapDecodes(v.entries, t, b, h, r, encoding);
    case TDescribed(u) =>
      var h: nat :| DescribedAt(v.d, v.v, u, b, h);
      DescribedDecodes(v.d, v.v, u, b, h, r, encoding);
    case TComposite(name, code, fts) =>
      var g: nat, h: nat, n: nat :| CompositeAt(v.fields, name, code, fts, b, g, h, n);
      CompositeDecodes(v.fields, name, code, fts, b, g, h, n, r, encoding);
    case TEnum(variants) =>
      if v.UnitVariant? {
        UnitVariantDecodes(v, variants, b, r, encoding);
      } else {
        var g: nat, h: nat :| VariantAt(v, variants, b, g, h);
        VariantDecodes(v, variants, b, g, h, r, encoding);
      }
  }

  // ---- what follows from it -----------------------------------------------------------------

  /** One scalar, as it is written outside an array, is an array of one, and one value of a multiple field. */
  lemma BareValueDecodes(s: Scalar, r: bytes, encoding: StructEncoding)
    requires ScalarFits(NotElem, s)
    ensures Decode(Fresh(ScalarBytes(NotElem, s) + r, encoding), TArray(TPrim(KindOf(s)))) == Ok((Array([Prim(s)]), Fresh(r, encoding)))
    ensures DecodeMultiple(Fresh(ScalarBytes(NotElem, s) + r, encoding), TPrim(KindOf(s))) == Ok((Just(Array([Prim(s)])), Fresh(r, encoding)))
  {
    hide ScalarForm, ScalarBytes, ScalarFits, DecodeArray, DecodeMultiple;
    ScalarConforms(s);
    assert BareForm([Prim(s)], KindOf(s), ScalarBytes(NotElem, s));
    ArrayDecodes([Prim(s)], KindOf(s), ScalarBytes(NotElem, s), r, encoding);
    MultipleDecodes([Prim(s)], KindOf(s), ScalarBytes(NotElem, s), r, encoding);
  }

  /** A unit variant under its name, as a string or as a symbol. */
  lemma NamedVariantDecodes(variants: seq<VariantTy>, i: u32, r: bytes, encoding: StructEncoding)
    requires i < |variants| && variants[i].VUnit? && |variants[i].name| <= MAX_BODY
    requires forall j :: 0 <= j < i ==> variants[j].name != variants[i].name
    ensures DecodeEnum(Fresh(ScalarBytes(NotElem, Str(variants[i].name)) + r, encoding), variants) == Ok((UnitVariant(i), Fresh(r, encoding)))
    ensures DecodeEnum(Fresh(ScalarBytes(NotElem, Sym(variants[i].name)) + r, encoding), variants) == Ok((UnitVariant(i), Fresh(r, encoding)))
  {
    hide ScalarForm, ScalarBytes, DecodeEnum;
    var name := variants[i].name;
    ScalarConforms(Str(name));
    ScalarConforms(Sym(name));
    UnitVariantDecodes(UnitVariant(i), variants, ScalarBytes(NotElem, Str(name)), r, encoding);
    UnitVariantDecodes(UnitVariant(i), variants, ScalarBytes(NotElem, Sym(name)), r, encoding);
  }
}
