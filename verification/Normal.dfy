/** The normal form: reaching it once is enough, and the decoder produces nothing else. */
module Normal {
  import opened Bytes
  import opened Values
  import opened Wire
  import opened Decoder
  import opened RoundTrip

  // ---- idempotence --------------------------------------------------------------------------

  lemma {:induction false} NormAllIdempotent(vs: seq<Val>)
    ensures NormAll(NormAll(vs)) == NormAll(vs)
    decreases vs, 0
  {
    hide Norm;
    if vs != [] {
      NormIdempotent(vs[0]);
      NormAllIdempotent(vs[1..]);
      assert NormAll(vs)[0] == Norm(vs[0]) && NormAll(vs)[1..] == NormAll(vs[1..]);
    }
  }

  lemma {:induction false} NormEntryIdempotent(e: Entry)
    ensures NormEntry(NormEntry(e)) == NormEntry(e)
    decreases e, 0
  {
    NormIdempotent(e.key);
    NormIdempotent(e.value);
  }

  lemma {:induction false} NormEntriesIdempotent(es: seq<Entry>)
    ensures NormEntries(NormEntries(es)) == NormEntries(es)
    decreases es, 0
  {
    hide NormEntry;
    if es != [] {
      NormEntryIdempotent(es[0]);
      NormEntriesIdempotent(es[1..]);
      assert NormEntries(es)[0] == NormEntry(es[0]) && NormEntries(es)[1..] == NormEntries(es[1..]);
    }
  }

  lemma {:induction false} NormFieldIdempotent(f: Field)
    ensures NormField(NormField(f)) == NormField(f)
    decreases f, 0
  {
    NormIdempotent(f.v);
  }

  lemma {:induction false} NormFieldsIdempotent(fs: seq<Field>)
    ensures NormFields(NormFields(fs)) == NormFields(fs)
    decreases fs, 0
  {
    hide NormField;
    if fs != [] {
      NormFieldIdempotent(fs[0]);
      NormFieldsIdempotent(fs[1..]);
      assert NormFields(fs)[0] == NormField(fs[0]) && NormFields(fs)[1..] == NormFields(fs[1..]);
    }
  }

  lemma {:induction false} NormIdempotent(v: Val)
    ensures Norm(Norm(v)) == Norm(v)
    decreases v, 1
  {
    hide NormAll, NormEntries, NormFields;
    match v
    case Just(x) => NormIdempotent(x);
    case List(vs) => NormAllIdempotent(vs);
    case Tuple(vs) => NormAllIdempotent(vs);
    case Map(es) => NormEntriesIdempotent(es);
    case Described(_, x) => NormIdempotent(x);
    case Composite(_, fs) => NormFieldsIdempotent(fs);
    case NewtypeVariant(_, x) => NormIdempotent(x);
    case TupleVariant(_, vs) => NormAllIdempotent(vs);
    case _ =>
  }

  // ---- the decoder's results ----------------------------------------------------------------

  ghost predicate NormalIfOk(o: Outcome<(Val, State)>) {
    o.Ok? ==> Norm(o.value.0) == o.value.0
  }

  ghost predicate AllNormalIfOk(o: Outcome<(seq<Val>, State)>) {
    o.Ok? ==> NormAll(o.value.0) == o.value.0
  }

  lemma ConsNormal(v: Val, vs: seq<Val>)
    requires Norm(v) == v && NormAll(vs) == vs
    ensures NormAll([v] + vs) == [v] + vs
  {
    assert ([v] + vs)[1..] == vs;
  }

  lemma {:induction false} ListNormal(d: State, t: Ty, count: nat)
    ensures AllNormalIfOk(DecodeList(d, t, count))
    decreases t, 2, count
  {
    hide Decode, Norm;
    if count > 0 {
      DecodedIsNormal(d, t);
      if DecodeList(d, t, count).Ok? {
        var (v, d1) := Decode(d, t).value;
        ListNormal(d1, t, count - 1);
        ConsNormal(v, DecodeList(d1, t, count - 1).value.0);
      }
    }
  }

  lemma {:induction false} ElementsNormal(d: State, t: Ty, count: nat, size: nat, start: nat)
    ensures AllNormalIfOk(DecodeElements(d, t, count, size, start))
    decreases t, 2, count
  {
    hide Decode, Norm;
    if count > 0 {
      DecodedIsNormal(d, t);
      if DecodeElements(d, t, count, size, start).Ok? {
        var (v, d1) := Decode(d, t).value;
        ElementsNormal(d1, t, count - 1, size, start);
        ConsNormal(v, DecodeElements(d1, t, count - 1, size, start).value.0);
      }
    }
  }

  lemma {:induction false} VecNormal(d: State, t: Ty)
    ensures AllNormalIfOk(DecodeVec(d, t))
    decreases t, 3, 0
  {
    hide SeqHead, DecodeElements, DecodeList, NormAll;
    if SeqHead(d).Ok? {
      var (h, d1) := SeqHead(d).value;
      match h
      case ArrayHeader(size, count) => ElementsNormal(d1, t, count, size, |d1.rest|);
      case ListHeader(count) => ListNormal(d1, t, count);
    }
  }

  lemma {:induction false} TupleNormal(d: State, ts: seq<Ty>)
    ensures AllNormalIfOk(DecodeTuple(d, ts))
    decreases ts, 0, 0
  {
    hide Decode, Norm;
    if ts != [] {
      DecodedIsNormal(d, ts[0]);
      if DecodeTuple(d, ts).Ok? {
        var (v, d1) := Decode(d, ts[0]).value;
        TupleNormal(d1, ts[1..]);
        ConsNormal(v, DecodeTuple(d1, ts[1..]).value.0);
      }
    }
  }

  lemma {:induction false} EntriesNormal(d: State, t: Ty, count: nat)
    requires t.TMap?
    ensures var o := DecodeEntries(d, t, count); o.Ok? ==> NormEntries(o.value.0) == o.value.0
    decreases t, 0, count
  {
    hide Decode, Norm;
    if DecodeEntries(d, t, count).Ok? && count > 0 {
      var (k, d1) := Decode(d, t.key).value;
      var (v, d2) := Decode(d1, t.value).value;
      DecodedIsNormal(d, t.key);
      DecodedIsNormal(d1, t.value);
      EntriesNormal(d2, t, count - 2);
      var es := DecodeEntries(d2, t, count - 2).value.0;
      assert ([Entry(k, v)] + es)[1..] == es;
    }
  }

  lemma {:induction false} FieldNormal(d: State, ft: FieldTy)
    ensures var o := DecodeField(d, ft); o.Ok? ==> NormField(o.value.0) == o.value.0
    decreases ft, 0, 0
  {
    hide Decode, Norm, DecodeArray;
    DecodedIsNormal(d, ft.t);
    JustNormal(d, ft.t);
    ArrayIsNormal(d, ft.t);
  }

  lemma JustNormal(d: State, t: Ty)
    ensures Norm(Nothing) == Nothing
    ensures Decode(d, t).Ok? ==> Norm(Just(Decode(d, t).value.0)) == Just(Norm(Decode(d, t).value.0))
  {
    hide Decode;
  }

  lemma ArrayIsNormal(d: State, t: Ty)
    ensures DecodeArray(d, t).Ok? ==> DecodeArray(d, t).value.0.Array? && Norm(Just(DecodeArray(d, t).value.0)) == Just(DecodeArray(d, t).value.0)
  {
    hide Decode, DecodeVec;
  }

  lemma {:induction false} FieldsNormal(d: State, left: nat, fts: seq<FieldTy>)
    ensures var o := DecodeFields(d, left, fts); o.Ok? ==> NormFields(o.value.0) == o.value.0
    decreases fts, 0, 0
  {
    hide DecodeField, NormField, MissingField;
    if DecodeFields(d, left, fts).Ok? && fts != [] {
      if left == 0 || d.rest == [] {
        MissingNormal(fts[0].attr);
        FieldsNormal(d, left, fts[1..]);
        ConsFieldNormal(MissingField(fts[0].attr).value, DecodeFields(d, left, fts[1..]).value.0);
      } else {
        FieldNormal(d, fts[0]);
        var (f, d1) := DecodeField(d, fts[0]).value;
        FieldsNormal(d1, left - 1, fts[1..]);
        ConsFieldNormal(f, DecodeFields(d1, left - 1, fts[1..]).value.0);
      }
    }
  }

  lemma MissingNormal(attr: Attr)
    ensures MissingField(attr).Ok? ==> NormField(MissingField(attr).value) == MissingField(attr).value
  {
  }

  lemma ConsFieldNormal(f: Field, fs: seq<Field>)
    requires NormField(f) == f && NormFields(fs) == fs
    ensures NormFields([f] + fs) == [f] + fs
  {
    hide NormField;
    assert ([f] + fs)[1..] == fs;
  }

  lemma {:induction false} EnumNormal(d: State, variants: seq<VariantTy>)
    ensures NormalIfOk(DecodeEnum(d, variants))
    decreases variants, 1, 0
  {
    hide EnumHead, DecodeIdent, VariantIndex, DecodeVariant, Norm;
    if DecodeEnum(d, variants).Ok? {
      var (id, d2) := DecodeIdent(EnumHead(d).value).value;
      var i := VariantIndex(variants, id).value;
      VariantNormal(d2, i, variants[i]);
    }
  }

  lemma {:induction false} VariantNormal(d: State, i: u32, v: VariantTy)
    ensures NormalIfOk(DecodeVariant(d, i, v))
    decreases v, 0, 0
  {
    hide Decode, TupleHead, DecodeTuple, NormAll;
    match v
    case VUnit(_) =>
    case VNewtype(_, t) => DecodedIsNormal(d, t);
    case VTuple(_, ts) =>
      if TupleHead(d, |ts|).Ok? { TupleNormal(TupleHead(d, |ts|).value, ts); }
  }

  /** Whatever the input, a value that is decoded is in normal form. */
  lemma {:induction false} DecodedIsNormal(d: State, t: Ty)
    ensures NormalIfOk(Decode(d, t))
    decreases t, 1, 0
  {
    hide DecodeScalar, ReadCode, TupleHead, MapHead, DecodeVec, DecodeTuple, DecodeEntries, DecodeFields, DecodeEnum,
         DecodeArray, DescribedHead, FieldCount, NormAll, NormEntries, NormFields;
    match t
    case TPrim(_) =>
    case TUnit =>
    case TOption(u) => DecodedIsNormal(d, u);
    case TSeq(u) => VecNormal(d, u);
    case TTuple(ts) => if TupleHead(d, |ts|).Ok? { TupleNormal(TupleHead(d, |ts|).value, ts); }
    case TArray(u) => ArrayIsNormal(d, u);
    case TMap(_, _) => if MapHead(d).Ok? { EntriesNormal(MapHead(d).value.1, t, MapHead(d).value.0); }
    case TDescribed(u) =>
      var o := DescribedHead(d.(encoding := BasicEnc));
      if o.Ok? { DecodedIsNormal(o.value.1, u); }
    case TComposite(_, _, fts) =>
      var o := DescribedHead(d.(encoding := ListEnc));
      if o.Ok? && FieldCount(o.value.1).Ok? {
        FieldsNormal(FieldCount(o.value.1).value.1, FieldCount(o.value.1).value.0, fts);
      }
    case TEnum(variants) => EnumNormal(d, variants);
  }
}
