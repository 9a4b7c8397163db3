/**
 `serialized_size` against the encoding. It never falls below the length of the encoding, it is
 that length when no composite occurs, and for one composite it is known when it is not.
 */
module SizeProofs {
  import opened Bytes
  import opened Utf8
  import opened FormatCodes
  import opened Values
  import opened Wire
  import opened Sizes
  import opened HeldBack
  import opened Encoder
  import opened Tameness

  /** No described list and no described map, at any depth. */
  predicate NoComposite(v: Val)
    decreases v, 1
  {
    match v
    case Just(x) => NoComposite(x)
    case List(vs) => NoneComposite(vs)
    case Tuple(vs) => NoneComposite(vs)
    case Map(es) => forall i :: 0 <= i < |es| ==> EntryNotComposite(es[i])
    case Described(_, x) => NoComposite(x)
    case Composite(_, _) => false
    case DescribedMap(_, _) => false
    case NewtypeVariant(_, x) => NoComposite(x)
    case TupleVariant(_, vs) => NoneComposite(vs)
    case Struct(ns) => forall i :: 0 <= i < |ns| ==> NamedNotComposite(ns[i])
    case TupleStruct(vs) => NoneComposite(vs)
    case _ => true
  }

  predicate NoneComposite(vs: seq<Val>)
    decreases vs, 0
  {
    forall i :: 0 <= i < |vs| ==> NoComposite(vs[i])
  }

  predicate EntryNotComposite(e: Entry)
    decreases e, 0
  {
    NoComposite(e.key) && NoComposite(e.value)
  }

  predicate NamedNotComposite(n: Named)
    decreases n, 0
  {
    NoComposite(n.v)
  }

  /**
   `o` is a size for bytes of length `len`: at least `len` when it is one, exactly `len` when
   nothing in them is composite, and otherwise a failure for length. `fits` says that the bytes can
   be written, `reserves` that the sizes taken on the way succeed.
   */
  ghost predicate Bounds(o: Outcome<nat>, fits: bool, reserves: bool, len: nat, exact: bool) {
    && (o.Ok? || o == Err(TooLong))
    && (o.Ok? ==> fits && reserves && len <= o.value)
    && (exact && fits ==> o.Ok? && o.value == len)
  }

  // ---- scalars and headers ------------------------------------------------------------------

  lemma ScalarSizeExact(m: Mode, s: Scalar)
    ensures ScalarSize(m, s) == if ScalarFits(m, s) then Ok(|ScalarBytes(m, s)|) else Err(TooLong)
  {
    hide BE, FromBE, Pow256, Valid;
  }

  /** A header size is the length of the header and its body, and grows with the body. */
  lemma HeaderSizes(num: nat, buf: bytes, len: nat)
    requires |buf| <= len
    ensures MapSize(NotElem, |buf|).Ok? <==> |buf| <= MAX_BODY
    ensures |buf| <= MAX_BODY ==> MapSize(NotElem, |buf|).value == |Written(WriteMap(NotElem, num, buf))| == |Written(WriteArray(NotElem, num, buf))|
    ensures |buf| <= MAX_BODY ==> ListSize(NotElem, |buf|).value == |Written(WriteList(NotElem, num, buf))|
    ensures MapSize(NotElem, len).Ok? ==> |buf| <= MAX_BODY && MapSize(NotElem, |buf|).value <= MapSize(NotElem, len).value
    ensures ListSize(NotElem, len).Ok? ==> |buf| <= MAX_BODY && ListSize(NotElem, |buf|).value <= ListSize(NotElem, len).value
  {
    hide BE;
  }

  lemma DescriptorSizeExact(d: Descriptor)
    ensures DescriptorSize(NotElem, d) ==
              if ScalarFits(NotElem, DescriptorScalar(d)) then Ok(|DescriptorBytes(NotElem, d)|) else Err(TooLong)
    ensures |DescriptorBytes(NotElem, d)| >= 2
  {
    hide ScalarSize, BE;
    ScalarSizeExact(NotElem, DescriptorScalar(d));
  }

  /** The whole of a list or of a map follows from its body. */
  lemma ListBounds(o: Outcome<nat>, fits: bool, reserves: bool, num: nat, buf: bytes, exact: bool)
    requires Bounds(o, fits, reserves, |buf|, exact)
    ensures Bounds(if o.Ok? then ListSize(NotElem, o.value) else o, fits && |buf| <= MAX_BODY, reserves,
                   |Written(WriteList(NotElem, num, buf))|, exact)
    ensures Bounds(if o.Ok? then MapSize(NotElem, o.value) else o, fits && |buf| <= MAX_BODY, reserves,
                   |Written(WriteMap(NotElem, num, buf))|, exact)
  {
    hide WriteList, WriteMap;
    if o.Ok? { HeaderSizes(num, buf, o.value); } else { HeaderSizes(num, buf, |buf|); }
  }

  // ---- sequences ----------------------------------------------------------------------------

  lemma {:induction false} AllBounds(vs: seq<Val>)
    requires AllTame(NoEnc, vs)
    ensures Bounds(SizeAll(NotElem, NoEnc, vs), AllFit(vs), AllReserve(vs), |EncodeAll(false, vs)|, NoneComposite(vs))
    decreases vs, 0
  {
    hide Size, Encode, Fits, Reserves, Tame, NoComposite;
    if vs != [] {
      SizeBounds(NoEnc, vs[0]);
      AllBounds(vs[1..]);
      assert AllFit(vs) <==> Fits(false, vs[0]) && AllFit(vs[1..]);
      assert AllReserve(vs) <==> Reserves(vs[0]) && AllReserve(vs[1..]);
      assert NoneComposite(vs) <==> NoComposite(vs[0]) && NoneComposite(vs[1..]);
    }
  }

  lemma {:induction false} ElementsSize(m: Mode, vs: seq<Val>)
    requires m != NotElem && forall i :: 0 <= i < |vs| ==> vs[i].Prim?
    ensures SizeElements(m, vs) == Ok(|ArrayBody(m, vs)|)
    ensures |ArrayBody(m, vs)| <= MAX_BODY && vs != [] ==> Size(NotElem, NoEnc, vs[0]).Ok?
    decreases vs
  {
    hide ScalarSize, ScalarBytes;
    if vs != [] {
      ScalarSizeExact(m, vs[0].s);
      ScalarSizeExact(NotElem, vs[0].s);
      ElementsSize(Other, vs[1..]);
      if |ScalarBytes(m, vs[0].s)| <= MAX_BODY { ElementIsLong(m, vs[0].s); }
    }
  }

  lemma ElementIsLong(m: Mode, s: Scalar)
    requires |ScalarBytes(m, s)| <= MAX_BODY
    ensures ScalarFits(NotElem, s)
  {
    hide BE;
  }

  lemma {:induction false} EntryBounds(e: Entry)
    requires EntryTame(e)
    ensures Bounds(SizeEntry(e), EntryFits(e), EntryReserves(e), |EncodeEntry(e)|, EntryNotComposite(e))
    decreases e, 0
  {
    hide Size, Encode, Fits, Reserves, Tame, NoComposite, Sensitive;
    SizeBounds(NoEnc, e.key);
    SizeBounds(NoEnc, e.value);
  }

  lemma {:induction false} EntriesBounds(es: seq<Entry>)
    requires forall i :: 0 <= i < |es| ==> EntryTame(es[i])
    ensures Bounds(SizeEntries(es), EntriesFit(es), forall i :: 0 <= i < |es| ==> EntryReserves(es[i]), |EncodeEntries(es)|,
                   forall i :: 0 <= i < |es| ==> EntryNotComposite(es[i]))
    decreases es, 0
  {
    hide SizeEntry, EntryFits, EntryReserves, EntryTame, EncodeEntry, EntryNotComposite;
    if es != [] {
      EntryBounds(es[0]);
      EntriesBounds(es[1..]);
      assert EntriesFit(es) <==> EntryFits(es[0]) && EntriesFit(es[1..]);
      assert (forall i :: 0 <= i < |es| ==> EntryReserves(es[i]))
        <==> EntryReserves(es[0]) && forall i :: 0 <= i < |es[1..]| ==> EntryReserves(es[1..][i]);
      assert (forall i :: 0 <= i < |es| ==> EntryNotComposite(es[i]))
        <==> EntryNotComposite(es[0]) && forall i :: 0 <= i < |es[1..]| ==> EntryNotComposite(es[1..][i]);
    }
  }

  // ---- named fields -------------------------------------------------------------------------

  function NamedBytes(top: StructEncoding, n: Named): bytes {
    if top == MapEnc then ScalarBytes(NotElem, Str(n.name)) + EncodeNamedValue(true, n) else EncodeNamedValue(false, n)
  }

  function AllNamedBytes(top: StructEncoding, ns: seq<Named>): bytes {
    if top == MapEnc then EncodeNamed(ns) else EncodeValues(ns)
  }

  lemma {:induction false} NamedBounds(top: StructEncoding, n: Named)
    requires top != BasicEnc && NamedTame(top, n)
    ensures Bounds(SizeNamedValue(NotElem, top, n), NamedFits(top == MapEnc, n), NamedReserves(n), |NamedBytes(top, n)|, NamedNotComposite(n))
    decreases n, 0
  {
    hide Size, Encode, Fits, Reserves, Tame, NoComposite, ScalarSize, ScalarBytes;
    SizeBounds(top, n.v);
    ScalarSizeExact(NotElem, Str(n.name));
  }

  lemma {:induction false} AllNamedBounds(top: StructEncoding, ns: seq<Named>)
    requires top != BasicEnc && AllNamedTame(top, ns)
    ensures Bounds(SizeNamed(NotElem, top, ns), NamedFit(top == MapEnc, ns), AllNamedReserve(ns), |AllNamedBytes(top, ns)|,
                   forall i :: 0 <= i < |ns| ==> NamedNotComposite(ns[i]))
    decreases ns, 0
  {
    hide SizeNamedValue, NamedFits, NamedReserves, NamedTame, NamedNotComposite, ScalarBytes, EncodeNamedValue;
    if ns != [] {
      NamedBounds(top, ns[0]);
      AllNamedBounds(top, ns[1..]);
      assert NamedFit(top == MapEnc, ns) <==> NamedFits(top == MapEnc, ns[0]) && NamedFit(top == MapEnc, ns[1..]);
      assert AllNamedReserve(ns) <==> NamedReserves(ns[0]) && AllNamedReserve(ns[1..]);
      assert (forall i :: 0 <= i < |ns| ==> NamedNotComposite(ns[i]))
        <==> NamedNotComposite(ns[0]) && forall i :: 0 <= i < |ns[1..]| ==> NamedNotComposite(ns[1..][i]);
    }
  }

  // ---- composites ---------------------------------------------------------------------------

  predicate FieldsNotComposite(fs: seq<Field>) {
    forall i :: 0 <= i < |fs| ==> Skipped(fs[i]) || NoComposite(fs[i].v)
  }

  lemma {:induction false} FieldBounds(f: Field)
    requires FieldTame(f) && !Skipped(f)
    ensures Bounds(SizeField(f), FieldFits(f), FieldReserves(f), |WireBytes(f)|, NoComposite(f.v))
    decreases f, 0
  {
    hide Size, Encode, Fits, Reserves, Tame, NoComposite;
    SizeBounds(ListEnc, f.v);
  }

  lemma {:induction false} FieldsBounds(fs: seq<Field>, nulls: nat)
    requires FieldsTame(fs)
    ensures Bounds(SizeFields(fs, nulls), FieldsFit(fs), FieldsReserve(fs), |Pending(fs, nulls)|, FieldsNotComposite(fs))
    decreases fs, 0
  {
    hide SizeField, Skipped, FieldFits, FieldReserves, FieldTame, WireBytes, Pending, NoComposite, Nulls;
    if fs == [] {
      NothingPending(nulls);
    } else {
      PendingStep(fs, nulls);
      assert FieldTame(fs[0]) && FieldsTame(fs[1..]);
      assert FieldsFit(fs) <==> FieldFits(fs[0]) && FieldsFit(fs[1..]);
      assert FieldsReserve(fs) <==> FieldReserves(fs[0]) && FieldsReserve(fs[1..]);
      assert FieldsNotComposite(fs) <==> (Skipped(fs[0]) || NoComposite(fs[0].v)) && FieldsNotComposite(fs[1..]);
      if Skipped(fs[0]) {
        SkippedIsFine(fs[0]);
        FieldsBounds(fs[1..], nulls + 1);
      } else {
        FieldBounds(fs[0]);
        FieldsBounds(fs[1..], 0);
      }
    }
  }

  lemma SkippedIsFine(f: Field)
    requires Skipped(f)
    ensures FieldFits(f) && FieldReserves(f)
  {
  }

  /** Summing the descriptor into the body before the header is chosen can only overestimate. */
  lemma DescriptorFirst(k: nat, num: nat, buf: bytes, len: nat)
    requires |buf| <= len && k >= 2
    ensures ListSize(NotElem, k + len).Ok? ==> |buf| <= MAX_BODY && k + |Written(WriteList(NotElem, num, buf))| <= ListSize(NotElem, k + len).value
    ensures MapSize(NotElem, k + len).Ok? ==> |buf| <= MAX_BODY && k + |Written(WriteMap(NotElem, num, buf))| <= MapSize(NotElem, k + len).value
  {
    hide BE;
  }

  /**
   The size of a single composite whose fields are sized exactly is wrong in exactly three cases: an
   empty body, a body that fits an 8-bit header on its own but not with the descriptor, and a body
   that fits a 32-bit header on its own but not with the descriptor, where sizing fails.
   */
  lemma CompositeSizeIff(d: Descriptor, fs: seq<Field>)
    requires FieldsTame(fs) && FieldsNotComposite(fs) && Fits(false, Composite(d, fs))
    ensures var k, b := |DescriptorBytes(NotElem, d)|, |WireBody(fs, Flushed(fs))|;
            var o := Size(NotElem, NoEnc, Composite(d, fs));
            && (o.Ok? <==> k + b <= MAX_BODY)
            && (o == Ok(|Encode(false, Composite(d, fs))|) <==> !(b == 0 || b <= 254 < k + b || b <= MAX_BODY < k + b))
  {
    hide SizeFields, ScalarSize, DescriptorBytes, FieldFits, FieldReserves, FieldTame, WireBody, Flushed, BE, NoComposite, ScalarFits;
    FieldsBounds(fs, 0);
    PendingIsBody(fs);
    DescriptorSizeExact(d);
    assert FieldsFit(fs);
    HeaderSizes(Flushed(fs), WireBody(fs, Flushed(fs)), |WireBody(fs, Flushed(fs))|);
  }

  /** A described map is sized wrongly in the last two of these cases. */
  lemma DescribedMapSizeIff(d: Descriptor, ns: seq<Named>)
    requires AllNamedTame(MapEnc, ns) && NoneNamedComposite(ns) && Fits(false, DescribedMap(d, ns))
    ensures var k, b := |DescriptorBytes(NotElem, d)|, |EncodeNamed(ns)|;
            var o := Size(NotElem, NoEnc, DescribedMap(d, ns));
            && (o.Ok? <==> k + b <= MAX_BODY)
            && (o == Ok(|Encode(false, DescribedMap(d, ns))|) <==> !(b <= 254 < k + b || b <= MAX_BODY < k + b))
  {
    hide SizeNamed, ScalarSize, DescriptorBytes, NamedFits, NamedReserves, NamedTame, EncodeNamed, BE, NoComposite, ScalarFits;
    AllNamedBounds(MapEnc, ns);
    DescriptorSizeExact(d);
    assert NamedFit(true, ns);
    HeaderSizes(2 * |ns|, EncodeNamed(ns), |EncodeNamed(ns)|);
  }

  predicate NoneNamedComposite(ns: seq<Named>) {
    forall i :: 0 <= i < |ns| ==> NamedNotComposite(ns[i])
  }

  lemma PendingIsBody(fs: seq<Field>)
    ensures Pending(fs, 0) == WireBody(fs, Flushed(fs))
  {
    WireStep(fs, 0);
  }

  // ---- values -------------------------------------------------------------------------------

  ghost predicate SizeSpec(top: StructEncoding, v: Val) {
    Bounds(Size(NotElem, top, v), Fits(top == MapEnc, v), Reserves(v), |Encode(top == MapEnc, v)|, NoComposite(v))
  }

  lemma {:induction false} SeqBounds(top: StructEncoding, v: Val)
    requires Tame(top, v) && (v.List? || v.Tuple?)
    ensures SizeSpec(top, v)
    decreases v, 0
  {
    hide SizeAll, EncodeAll, WriteList, ListSize, Tame;
    assert AllTame(NoEnc, v.vs) by { ChildrenTame(top, v); }
    AllBounds(v.vs);
    ListBounds(SizeAll(NotElem, NoEnc, v.vs), AllFit(v.vs), AllReserve(v.vs), |v.vs|, EncodeAll(false, v.vs), NoneComposite(v.vs));
    SizeAllFirst(v.vs);
  }

  lemma ChildrenTame(top: StructEncoding, v: Val)
    requires Tame(top, v)
    ensures v.List? || v.Tuple? || v.TupleVariant? ==> AllTame(NoEnc, v.vs)
    ensures v.TupleStruct? ==> AllTame(top, v.vs) && (top == NoEnc || top == ListEnc)
    ensures v.Map? ==> forall i :: 0 <= i < |v.entries| ==> EntryTame(v.entries[i])
  {
    hide Sensitive, After;
  }

  lemma SizeAllFirst(vs: seq<Val>)
    ensures SizeAll(NotElem, NoEnc, vs).Ok? && vs != [] ==> Size(NotElem, NoEnc, vs[0]).Ok?
  {
    hide Size;
  }

  lemma ArrayBounds(top: StructEncoding, v: Val)
    requires Tame(top, v) && v.Array?
    ensures SizeSpec(top, v)
  {
    hide SizeElements, ArrayBody, BE;
    ElementsSize(First, v.vs);
    HeaderSizes(|v.vs|, ArrayBody(First, v.vs), |ArrayBody(First, v.vs)|);
  }

  lemma {:induction false} MapBounds(top: StructEncoding, v: Val)
    requires Tame(top, v) && v.Map?
    ensures SizeSpec(top, v)
    decreases v, 0
  {
    hide SizeEntries, EncodeEntries, WriteMap, MapSize, Tame, EntryTame, EntryReserves, EntryNotComposite;
    ChildrenTame(top, v);
    var es := v.entries;
    EntriesBounds(es);
    ListBounds(SizeEntries(es), EntriesFit(es), forall i :: 0 <= i < |es| ==> EntryReserves(es[i]), 2 * |es|, EncodeEntries(es),
               forall i :: 0 <= i < |es| ==> EntryNotComposite(es[i]));
    SizeEntriesFirst(es);
  }

  lemma SizeEntriesFirst(es: seq<Entry>)
    ensures SizeEntries(es).Ok? && es != [] ==> SizeEntry(es[0]).Ok?
  {
    hide SizeEntry;
  }

  lemma {:induction false} DescribedBounds(top: StructEncoding, v: Val)
    requires Tame(top, v) && v.Described?
    ensures SizeSpec(top, v)
    decreases v, 0
  {
    hide DescriptorBytes, DescriptorSize, ScalarFits;
    assert Tame(BasicEnc, v.v);
    BasicTameIsTame(NoEnc, v.v);
    SizeBounds(NoEnc, v.v);
    DescriptorSizeExact(v.d);
  }

  lemma {:induction false} CompositeBounds(top: StructEncoding, v: Val)
    requires Tame(top, v) && v.Composite?
    ensures SizeSpec(top, v)
    decreases v, 0
  {
    hide DescriptorBytes, DescriptorSize, ScalarFits, SizeFields, WireBody, Flushed, WriteList, ListSize, FieldTame, FieldFits, FieldReserves;
    assert FieldsTame(v.fields);
    FieldsBounds(v.fields, 0);
    PendingIsBody(v.fields);
    DescriptorSizeExact(v.d);
    if SizeFields(v.fields, 0).Ok? {
      DescriptorFirst(|DescriptorBytes(NotElem, v.d)|, Flushed(v.fields), WireBody(v.fields, Flushed(v.fields)), SizeFields(v.fields, 0).value);
    }
    ListSizeError(|DescriptorBytes(NotElem, v.d)|, SizeFields(v.fields, 0));
    assert Encode(top == MapEnc, v) == EncodeComposite(v.d, v.fields, Flushed(v.fields));
    assert Reserves(v) <==> FieldsReserve(v.fields);
  }

  lemma ListSizeError(k: nat, o: Outcome<nat>)
    ensures o.Ok? ==> ListSize(NotElem, k + o.value).Ok? || ListSize(NotElem, k + o.value) == Err(TooLong)
    ensures o.Ok? ==> MapSize(NotElem, k + o.value).Ok? || MapSize(NotElem, k + o.value) == Err(TooLong)
  {
  }

  lemma {:induction false} DescribedMapBounds(top: StructEncoding, v: Val)
    requires Tame(top, v) && v.DescribedMap?
    ensures SizeSpec(top, v)
    decreases v, 0
  {
    hide DescriptorBytes, DescriptorSize, ScalarFits, SizeNamed, EncodeNamed, WriteMap, MapSize, NamedTame, NamedFits, NamedReserves;
    assert AllNamedTame(MapEnc, v.named);
    AllNamedBounds(MapEnc, v.named);
    DescriptorSizeExact(v.d);
    if SizeNamed(NotElem, MapEnc, v.named).Ok? {
      DescriptorFirst(|DescriptorBytes(NotElem, v.d)|, 2 * |v.named|, EncodeNamed(v.named), SizeNamed(NotElem, MapEnc, v.named).value);
    }
    ListSizeError(|DescriptorBytes(NotElem, v.d)|, SizeNamed(NotElem, MapEnc, v.named));
  }

  lemma {:induction false} NewtypeVariantBounds(top: StructEncoding, v: Val)
    requires Tame(top, v) && v.NewtypeVariant?
    ensures SizeSpec(top, v)
    decreases v, 0
  {
    hide ScalarBytes, ScalarSize, WriteMap, MapSize;
    assert Tame(NoEnc, v.v);
    SizeBounds(NoEnc, v.v);
    ScalarSizeExact(NotElem, U32(v.index));
    var o := Size(NotElem, NoEnc, v.v);
    var buf := ScalarBytes(NotElem, U32(v.index)) + Encode(false, v.v);
    var sum := if o.Ok? then Ok(|ScalarBytes(NotElem, U32(v.index))| + o.value) else o;
    ListBounds(sum, Fits(false, v.v), o.Ok? && Reserves(v.v), 2, buf, NoComposite(v.v));
  }

  lemma {:induction false} TupleVariantBounds(top: StructEncoding, v: Val)
    requires Tame(top, v) && v.TupleVariant?
    ensures SizeSpec(top, v)
    decreases v, 0
  {
    hide ScalarBytes, ScalarSize, WriteMap, MapSize, WriteList, ListSize, SizeAll, EncodeAll, Tame;
    ChildrenTame(top, v);
    AllBounds(v.vs);
    ScalarSizeExact(NotElem, U32(v.index));
    var o := SizeAll(NotElem, NoEnc, v.vs);
    var body := EncodeAll(false, v.vs);
    ListBounds(o, AllFit(v.vs), AllReserve(v.vs), |v.vs|, body, NoneComposite(v.vs));
    var l := if o.Ok? then ListSize(NotElem, o.value) else o;
    var list := Written(WriteList(NotElem, |v.vs|, body));
    var sum := if l.Ok? then Ok(|ScalarBytes(NotElem, U32(v.index))| + l.value) else l;
    ListBounds(sum, AllFit(v.vs) && |body| <= MAX_BODY, AllReserve(v.vs), 2, ScalarBytes(NotElem, U32(v.index)) + list, NoneComposite(v.vs));
  }

  lemma {:induction false} StructBounds(top: StructEncoding, v: Val)
    requires Tame(top, v) && v.Struct? && top != BasicEnc
    ensures SizeSpec(top, v)
    decreases v, 0
  {
    hide SizeNamed, EncodeNamed, EncodeValues, WriteMap, MapSize, WriteList, ListSize, NamedTame, NamedReserves, NamedFits, NamedNotComposite;
    var ns := v.named;
    assert AllNamedTame(top, ns);
    AllNamedBounds(top, ns);
    ListBounds(SizeNamed(NotElem, top, ns), NamedFit(top == MapEnc, ns), AllNamedReserve(ns), if top == MapEnc then 2 * |ns| else |ns|,
               AllNamedBytes(top, ns), forall i :: 0 <= i < |ns| ==> NamedNotComposite(ns[i]));
  }

  lemma {:induction false} TupleStructBounds(top: StructEncoding, v: Val)
    requires Tame(top, v) && v.TupleStruct?
    ensures SizeSpec(top, v)
    decreases v, 0
  {
    hide SizeAll, EncodeAll, WriteList, ListSize, Tame;
    ChildrenTame(top, v);
    assert AllTame(NoEnc, v.vs) by {
      forall i | 0 <= i < |v.vs| && top == ListEnc ensures Tame(NoEnc, v.vs[i]) { ListTameIsTame(v.vs[i]); }
    }
    AllBounds(v.vs);
    ListBounds(SizeAll(NotElem, NoEnc, v.vs), AllFit(v.vs), AllReserve(v.vs), |v.vs|, EncodeAll(false, v.vs), NoneComposite(v.vs));
  }

  /**
   Size refinement, for every tame value at any depth: `serialized_size` is at least the length of
   the encoding, whenever it succeeds the encoder does, and it is exactly that length when no
   composite occurs.
   */
  lemma {:induction false} SizeBounds(top: StructEncoding, v: Val)
    requires Tame(top, v) && top != BasicEnc
    ensures SizeSpec(top, v)
    decreases v, 1
  {
    match v
    case Prim(s) => ScalarSizeExact(NotElem, s);
    case UnitVariant(i) => ScalarSizeExact(NotElem, U32(i));
    case Just(x) => SizeBounds(top, x);
    case List(_) => SeqBounds(top, v);
    case Tuple(_) => SeqBounds(top, v);
    case Array(_) => ArrayBounds(top, v);
    case Map(_) => MapBounds(top, v);
    case Described(_, _) => DescribedBounds(top, v);
    case Composite(_, _) => CompositeBounds(top, v);
    case DescribedMap(_, _) => DescribedMapBounds(top, v);
    case NewtypeVariant(_, _) => NewtypeVariantBounds(top, v);
    case TupleVariant(_, _) => TupleVariantBounds(top, v);
    case Struct(_) => StructBounds(top, v);
    case TupleStruct(_) => TupleStructBounds(top, v);
    case _ =>
  }
}
