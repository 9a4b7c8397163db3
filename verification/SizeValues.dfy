/**
 What `serialized_size` is the size of. It counts a composite's descriptor into the body before it
 chooses the header, so it is the length of an encoding in which the descriptor stands inside the
 body: exactly that length, at every depth, where `SizeProofs` bounds it by the real encoding.
 */
module SizeValues {
  import opened Bytes
  import opened Utf8
  import opened FormatCodes
  import opened Values
  import opened Wire
  import opened Sizes
  import opened HeldBack
  import opened Tameness
  import opened SizeProofs

  /** The encoding with every composite's descriptor moved behind its header. */
  function Counted(top: StructEncoding, v: Val): Outcome<bytes>
    decreases v, 1
  {
    match v
    case Prim(s) => if ScalarFits(NotElem, s) then Ok(ScalarBytes(NotElem, s)) else Err(TooLong)
    case Unit => Ok([NULL])
    case Nothing => Ok([NULL])
    case Just(x) => Counted(top, x)
    case List(vs) => var b :- CountedAll(vs); WriteList(NotElem, |vs|, b)
    case Tuple(vs) => var b :- CountedAll(vs); WriteList(NotElem, |vs|, b)
    case Array(vs) => WriteArray(NotElem, |vs|, ArrayBody(First, vs))
    case Map(es) => var b :- CountedEntries(es); WriteMap(NotElem, 2 * |es|, b)
    case Described(d, x) =>
      var h :- CountedDescriptor(d);
      var b :- Counted(NoEnc, x);
      Ok(h + b)
    case Composite(d, fs) =>
      var h :- CountedDescriptor(d);
      var b :- CountedFields(fs, Flushed(fs));
      WriteList(NotElem, Flushed(fs), h + b)
    case DescribedMap(d, ns) =>
      var h :- CountedDescriptor(d);
      var b :- CountedNamed(MapEnc, ns);
      WriteMap(NotElem, 2 * |ns|, h + b)
    case UnitVariant(i) => Ok(ScalarBytes(NotElem, U32(i)))
    case NewtypeVariant(i, x) =>
      var b :- Counted(NoEnc, x);
      WriteMap(NotElem, 2, ScalarBytes(NotElem, U32(i)) + b)
    case TupleVariant(i, vs) =>
      var b :- CountedAll(vs);
      var l :- WriteList(NotElem, |vs|, b);
      WriteMap(NotElem, 2, ScalarBytes(NotElem, U32(i)) + l)
    case Struct(ns) =>
      var b :- CountedNamed(top, ns);
      if top == MapEnc then WriteMap(NotElem, 2 * |ns|, b) else WriteList(NotElem, |ns|, b)
    case TupleStruct(vs) => var b :- CountedAll(vs); WriteList(NotElem, |vs|, b)
  }

  function CountedDescriptor(d: Descriptor): Outcome<bytes> {
    if ScalarFits(NotElem, DescriptorScalar(d)) then Ok(DescriptorBytes(NotElem, d)) else Err(TooLong)
  }

  function CountedAll(vs: seq<Val>): Outcome<bytes>
    decreases vs, 0
  {
    if vs == [] then Ok([])
    else
      var a :- Counted(NoEnc, vs[0]);
      var b :- CountedAll(vs[1..]);
      Ok(a + b)
  }

  function CountedEntry(e: Entry): Outcome<bytes>
    decreases e, 0
  {
    var a :- Counted(NoEnc, e.key);
    var b :- Counted(NoEnc, e.value);
    Ok(a + b)
  }

  function CountedEntries(es: seq<Entry>): Outcome<bytes>
    decreases es, 0
  {
    if es == [] then Ok([])
    else
      var a :- CountedEntry(es[0]);
      var b :- CountedEntries(es[1..]);
      Ok(a + b)
  }

  /** A field of a struct, behind its name under a described map. */
  function CountedNamedValue(top: StructEncoding, n: Named): Outcome<bytes>
    decreases n, 0
  {
    var a :- if top != MapEnc then Ok([])
             else if |n.name| <= MAX_BODY then Ok(ScalarBytes(NotElem, Str(n.name))) else Err(TooLong);
    var b :- Counted(top, n.v);
    Ok(a + b)
  }

  function CountedNamed(top: StructEncoding, ns: seq<Named>): Outcome<bytes>
    decreases ns, 0
  {
    if ns == [] then Ok([])
    else
      var a :- CountedNamedValue(top, ns[0]);
      var b :- CountedNamed(top, ns[1..]);
      Ok(a + b)
  }

  function CountedField(f: Field): Outcome<bytes>
    decreases f, 0
  {
    if Skipped(f) then Ok([NULL]) else Counted(ListEnc, f.v)
  }

  /** The first `n` fields, a null for each that is held back. */
  function CountedFields(fs: seq<Field>, n: nat): Outcome<bytes>
    decreases fs, 0
  {
    if fs == [] || n == 0 then Ok([])
    else
      var a :- CountedField(fs[0]);
      var b :- CountedFields(fs[1..], n - 1);
      Ok(a + b)
  }

  // ---- the size is its length ---------------------------------------------------------------

  function LengthOf(o: Outcome<bytes>): Outcome<nat> {
    if o.Ok? then Ok(|o.value|) else Err(TooLong)
  }

  lemma HeaderLengths(n: nat, buf: bytes)
    ensures ListSize(NotElem, |buf|) == LengthOf(WriteList(NotElem, n, buf))
    ensures MapSize(NotElem, |buf|) == LengthOf(WriteMap(NotElem, n, buf))
    ensures ArraySize(NotElem, |buf|) == LengthOf(WriteArray(NotElem, n, buf))
  {
    hide BE;
  }

  lemma ScalarLength(s: Scalar)
    ensures ScalarSize(NotElem, s) == if ScalarFits(NotElem, s) then Ok(|ScalarBytes(NotElem, s)|) else Err(TooLong)
  {
    hide ScalarSize, ScalarBytes, ScalarFits;
    ScalarSizeExact(NotElem, s);
  }

  lemma {:induction false} AllCounted(vs: seq<Val>)
    requires AllTame(NoEnc, vs)
    ensures SizeAll(NotElem, NoEnc, vs) == LengthOf(CountedAll(vs))
    decreases vs, 0
  {
    hide Size, Counted, Tame;
    if vs != [] {
      SizeIsCounted(NoEnc, vs[0]);
      AllCounted(vs[1..]);
    }
  }

  lemma {:induction false} EntryCounted(e: Entry)
    requires EntryTame(e)
    ensures SizeEntry(e) == LengthOf(CountedEntry(e))
    decreases e, 0
  {
    hide Size, Counted, Tame, Sensitive, After;
    SizeIsCounted(NoEnc, e.key);
    SizeIsCounted(NoEnc, e.value);
  }

  lemma {:induction false} EntriesCounted(es: seq<Entry>)
    requires forall i :: 0 <= i < |es| ==> EntryTame(es[i])
    ensures SizeEntries(es) == LengthOf(CountedEntries(es))
    decreases es, 0
  {
    hide SizeEntry, CountedEntry, EntryTame;
    if es != [] {
      EntryCounted(es[0]);
      EntriesCounted(es[1..]);
    }
  }

  lemma {:induction false} NamedCounted(top: StructEncoding, n: Named)
    requires top != BasicEnc && NamedTame(top, n)
    ensures SizeNamedValue(NotElem, top, n) == LengthOf(CountedNamedValue(top, n))
    decreases n, 0
  {
    hide Size, Counted, Tame, ScalarSize, ScalarBytes;
    SizeIsCounted(top, n.v);
    ScalarLength(Str(n.name));
  }

  lemma {:induction false} AllNamedCounted(top: StructEncoding, ns: seq<Named>)
    requires top != BasicEnc && AllNamedTame(top, ns)
    ensures SizeNamed(NotElem, top, ns) == LengthOf(CountedNamed(top, ns))
    decreases ns, 0
  {
    hide SizeNamedValue, CountedNamedValue, NamedTame;
    if ns != [] {
      NamedCounted(top, ns[0]);
      AllNamedCounted(top, ns[1..]);
    }
  }

  lemma {:induction false} FieldCounted(f: Field)
    requires FieldTame(f) && !Skipped(f)
    ensures SizeField(f) == LengthOf(CountedField(f))
    decreases f, 0
  {
    hide Size, Counted, Tame;
    SizeIsCounted(ListEnc, f.v);
  }

  /** With `nulls` fields held back in front of them. */
  lemma {:induction false} FieldsCounted(fs: seq<Field>, nulls: nat)
    requires FieldsTame(fs)
    ensures var n := Flushed(fs);
            var o := LengthOf(CountedFields(fs, n));
            SizeFields(fs, nulls) == if n == 0 then Ok(0) else if o.Ok? then Ok(nulls + o.value) else o
    decreases fs, 0
  {
    hide SizeField, CountedField, FieldTame, Skipped, Flushed;
    if fs == [] {
      NothingPending(nulls);
    } else {
      FlushedStep(fs);
      assert FieldTame(fs[0]);
      if Skipped(fs[0]) {
        FieldsCounted(fs[1..], nulls + 1);
        SkippedCounted(fs[0]);
      } else {
        FieldCounted(fs[0]);
        FieldsCounted(fs[1..], 0);
        NoFieldsCounted(fs[1..]);
      }
    }
  }

  lemma SkippedCounted(f: Field)
    requires Skipped(f)
    ensures CountedField(f) == Ok([NULL])
  {
  }

  lemma NoFieldsCounted(fs: seq<Field>)
    ensures CountedFields(fs, 0) == Ok([])
  {
  }

  lemma DescriptorCounted(d: Descriptor)
    ensures DescriptorSize(NotElem, d) == LengthOf(CountedDescriptor(d))
  {
    hide ScalarSize, ScalarBytes, ScalarFits;
    ScalarLength(DescriptorScalar(d));
  }

  lemma {:induction false} CompositeCounted(top: StructEncoding, d: Descriptor, fs: seq<Field>)
    requires FieldsTame(fs)
    ensures Size(NotElem, top, Composite(d, fs)) == LengthOf(Counted(top, Composite(d, fs)))
    decreases fs, 1
  {
    hide DescriptorSize, CountedDescriptor, SizeFields, CountedFields, FieldTame, Flushed, ListSize, WriteList;
    DescriptorCounted(d);
    FieldsCounted(fs, 0);
    NoFieldsCounted(fs);
    if CountedDescriptor(d).Ok? && CountedFields(fs, Flushed(fs)).Ok? {
      HeaderLengths(Flushed(fs), CountedDescriptor(d).value + CountedFields(fs, Flushed(fs)).value);
    }
  }

  lemma {:induction false} DescribedMapCounted(top: StructEncoding, d: Descriptor, ns: seq<Named>)
    requires AllNamedTame(MapEnc, ns)
    ensures Size(NotElem, top, DescribedMap(d, ns)) == LengthOf(Counted(top, DescribedMap(d, ns)))
    decreases ns, 1
  {
    hide DescriptorSize, CountedDescriptor, SizeNamed, CountedNamed, NamedTame, MapSize, WriteMap;
    DescriptorCounted(d);
    AllNamedCounted(MapEnc, ns);
    if CountedDescriptor(d).Ok? && CountedNamed(MapEnc, ns).Ok? {
      HeaderLengths(2 * |ns|, CountedDescriptor(d).value + CountedNamed(MapEnc, ns).value);
    }
  }

  lemma {:induction false} ListCounted(top: StructEncoding, v: Val)
    requires Tame(top, v) && top != BasicEnc && (v.List? || v.Tuple? || v.TupleStruct?)
    ensures Size(NotElem, top, v) == LengthOf(Counted(top, v))
    decreases v, 0
  {
    hide SizeAll, CountedAll, ListSize, WriteList;
    ChildrenTame(top, v);
    if v.TupleStruct? && top == ListEnc {
      forall i | 0 <= i < |v.vs| ensures Tame(NoEnc, v.vs[i]) { ListTameIsTame(v.vs[i]); }
    }
    AllCounted(v.vs);
    if CountedAll(v.vs).Ok? { HeaderLengths(|v.vs|, CountedAll(v.vs).value); }
  }

  lemma {:induction false} VariantCounted(top: StructEncoding, v: Val)
    requires Tame(top, v) && (v.NewtypeVariant? || v.TupleVariant?)
    ensures Size(NotElem, top, v) == LengthOf(Counted(top, v))
    decreases v, 0
  {
    hide SizeAll, CountedAll, ListSize, WriteList, MapSize, WriteMap, ScalarSize, ScalarBytes;
    ScalarLength(U32(v.index));
    var a := ScalarBytes(NotElem, U32(v.index));
    if v.NewtypeVariant? {
      assert Tame(NoEnc, v.v);
      SizeIsCounted(NoEnc, v.v);
      if Counted(NoEnc, v.v).Ok? { HeaderLengths(2, a + Counted(NoEnc, v.v).value); }
    } else {
      ChildrenTame(top, v);
      AllCounted(v.vs);
      if CountedAll(v.vs).Ok? {
        HeaderLengths(|v.vs|, CountedAll(v.vs).value);
        var l := WriteList(NotElem, |v.vs|, CountedAll(v.vs).value);
        if l.Ok? { HeaderLengths(2, a + l.value); }
      }
    }
  }

  lemma {:induction false} StructCounted(top: StructEncoding, ns: seq<Named>)
    requires top != BasicEnc && AllNamedTame(top, ns)
    ensures Size(NotElem, top, Struct(ns)) == LengthOf(Counted(top, Struct(ns)))
    decreases ns, 1
  {
    hide SizeNamed, CountedNamed, NamedTame, ListSize, WriteList, MapSize, WriteMap;
    AllNamedCounted(top, ns);
    if CountedNamed(top, ns).Ok? {
      HeaderLengths(|ns|, CountedNamed(top, ns).value);
      HeaderLengths(2 * |ns|, CountedNamed(top, ns).value);
    }
  }

  /** For every tame value, composites and all: the size is exactly that length, or fails for length. */
  lemma {:induction false} SizeIsCounted(top: StructEncoding, v: Val)
    requires Tame(top, v) && top != BasicEnc
    ensures Size(NotElem, top, v) == LengthOf(Counted(top, v))
    decreases v, 2
  {
    hide ScalarSize, ScalarBytes, ScalarFits, SizeAll, CountedAll, SizeEntries, CountedEntries, SizeElements, ArrayBody, DescriptorSize,
         CountedDescriptor, ListSize, WriteList, MapSize, WriteMap, ArraySize, WriteArray, SizeFields, CountedFields, SizeNamed, CountedNamed,
         EntryTame, FieldTame, NamedTame, Flushed;
    match v
    case Prim(s) => ScalarLength(s);
    case UnitVariant(i) => ScalarLength(U32(i)); IndexFits(i);
    case Just(x) => SizeIsCounted(top, x);
    case List(_) => ListCounted(top, v);
    case Tuple(_) => ListCounted(top, v);
    case TupleStruct(_) => ListCounted(top, v);
    case Array(vs) =>
      ElementsSize(First, vs);
      HeaderLengths(|vs|, ArrayBody(First, vs));
    case Map(es) =>
      ChildrenTame(top, v);
      EntriesCounted(es);
      if CountedEntries(es).Ok? { HeaderLengths(2 * |es|, CountedEntries(es).value); }
    case Described(d, x) =>
      BasicTameIsTame(NoEnc, x);
      DescriptorCounted(d);
      SizeIsCounted(NoEnc, x);
    case Composite(d, fs) => CompositeCounted(top, d, fs);
    case DescribedMap(d, ns) => DescribedMapCounted(top, d, ns);
    case NewtypeVariant(_, _) => VariantCounted(top, v);
    case TupleVariant(_, _) => VariantCounted(top, v);
    case Struct(ns) => StructCounted(top, ns);
    case _ =>
  }

  lemma IndexFits(i: u32)
    ensures ScalarFits(NotElem, U32(i))
  {
  }

  // ---- in numbers ---------------------------------------------------------------------------

  /** The sizes of the first `n` fields, one for each that is held back. */
  function Sum(fs: seq<Field>, n: nat): nat
    requires FieldsSized(fs)
    decreases |fs|
  {
    if fs == [] || n == 0 then 0
    else (if Skipped(fs[0]) then 1 else SizeField(fs[0]).value) + Sum(fs[1..], n - 1)
  }

  predicate FieldsSized(fs: seq<Field>) {
    forall i :: 0 <= i < |fs| ==> Skipped(fs[i]) || SizeField(fs[i]).Ok?
  }

  lemma {:induction false} FieldsSum(fs: seq<Field>, nulls: nat)
    requires FieldsSized(fs)
    ensures SizeFields(fs, nulls) == Ok(if Flushed(fs) == 0 then 0 else nulls + Sum(fs, Flushed(fs)))
    decreases |fs|
  {
    hide SizeField, Skipped, Flushed;
    if fs == [] {
      NothingPending(nulls);
    } else {
      FlushedStep(fs);
      assert FieldsSized(fs[1..]);
      FieldsSum(fs[1..], if Skipped(fs[0]) then nulls + 1 else 0);
    }
  }

  /**
   The size of any composite, whatever its fields hold, from the sizes of its fields: descriptor and
   body together, and three octets of header, or nine.
   */
  lemma CompositeSizeValue(top: StructEncoding, d: Descriptor, fs: seq<Field>)
    requires FieldsSized(fs) && ScalarFits(NotElem, DescriptorScalar(d))
    ensures var s := |DescriptorBytes(NotElem, d)| + Sum(fs, Flushed(fs));
            Size(NotElem, top, Composite(d, fs)) == if s <= 254 then Ok(s + 3) else if s <= 4294967291 then Ok(s + 9) else Err(TooLong)
  {
    hide SizeFields, ScalarSize, DescriptorBytes, FieldsSized, Flushed, ScalarFits, Sum;
    FieldsSum(fs, 0);
    NoSum(fs);
    DescriptorSizeExact(d);
  }

  lemma NoSum(fs: seq<Field>)
    requires FieldsSized(fs)
    ensures Sum(fs, 0) == 0
  {
    hide FieldsSized;
  }

  /** And how far that is from the encoding, when the fields are sized exactly. */
  lemma CompositeExcess(d: Descriptor, fs: seq<Field>)
    requires FieldsTame(fs) && FieldsNotComposite(fs) && Fits(false, Composite(d, fs))
    ensures var k, b := |DescriptorBytes(NotElem, d)|, |WireBody(fs, Flushed(fs))|;
            var o, e := Size(NotElem, NoEnc, Composite(d, fs)), |Encode(false, Composite(d, fs))|;
            && e == k + (if b == 0 then 1 else if b <= 254 then b + 3 else b + 9)
            && o == (if k + b > 4294967291 then Err(TooLong)
                     else if b == 0 then Ok(e + if k <= 254 then 2 else 8)
                     else if b <= 254 && k + b > 254 then Ok(e + 6)
                     else Ok(e))
  {
    hide SizeFields, ScalarSize, DescriptorBytes, FieldFits, FieldReserves, FieldTame, WireBody, Flushed, BE, NoComposite, ScalarFits;
    FieldsBounds(fs, 0);
    PendingIsBody(fs);
    DescriptorSizeExact(d);
    assert FieldsFit(fs);
    HeaderSizes(Flushed(fs), WireBody(fs, Flushed(fs)), |WireBody(fs, Flushed(fs))|);
  }

  lemma DescribedMapExcess(d: Descriptor, ns: seq<Named>)
    requires AllNamedTame(MapEnc, ns) && NoneNamedComposite(ns) && Fits(false, DescribedMap(d, ns))
    ensures var k, b := |DescriptorBytes(NotElem, d)|, |EncodeNamed(ns)|;
            var o, e := Size(NotElem, NoEnc, DescribedMap(d, ns)), |Encode(false, DescribedMap(d, ns))|;
            && e == k + (if b <= 254 then b + 3 else b + 9)
            && o == (if k + b > 4294967291 then Err(TooLong) else if b <= 254 && k + b > 254 then Ok(e + 6) else Ok(e))
  {
    hide SizeNamed, ScalarSize, DescriptorBytes, NamedFits, NamedReserves, NamedTame, EncodeNamed, BE, NoComposite, ScalarFits;
    AllNamedBounds(MapEnc, ns);
    DescriptorSizeExact(d);
    assert NamedFit(true, ns);
    HeaderSizes(2 * |ns|, EncodeNamed(ns), |EncodeNamed(ns)|);
  }
}
