/**
 The stateful encoder refines the reference encoding. For every tame value, from any state that the
 value does not read, the encoder writes exactly `Encode`, leaves exactly the flags that `After`
 says, and fails only because something is too long.
 */
module Refinement {
  import opened Bytes
  import opened Utf8
  import opened FormatCodes
  import opened Values
  import opened Wire
  import opened Sizes
  import opened HeldBack
  import opened Encoder
  import opened Tameness
  import opened SizeProofs

  function Expected(cfg: Config, v: Val): Outcome<Step> {
    var inMap := Top(cfg) == MapEnc;
    if Accepts(inMap, v) then Ok(Step(Encode(inMap, v), After(cfg, v))) else Err(TooLong)
  }

  function ExpectedBytes(good: bool, b: bytes): Outcome<bytes> {
    if good then Ok(b) else Err(TooLong)
  }

  // ---- state that nothing reads -------------------------------------------------------------

  lemma {:induction false} ClearIsInsensitive(cfg: Config, v: Val)
    requires cfg.nonNative == None && cfg.seqType == ListSeq
    ensures !Sensitive(cfg, v)
    decreases v
  {
    match v
    case Just(x) => ClearIsInsensitive(cfg, x);
    case Described(d, x) => ClearIsInsensitive(AfterDescriptor(cfg, d), x);
    case _ =>
  }

  /** A value that is tame outside a struct leaves the stack as it found it. */
  lemma {:induction false} AfterKeepsStack(cfg: Config, v: Val)
    ensures After(cfg, v).mode == cfg.mode
    ensures cfg.stack == [] || Tame(BasicEnc, v) ==> After(cfg, v).stack == cfg.stack
    decreases v
  {
    match v
    case Just(x) => AfterKeepsStack(cfg, x);
    case Described(d, x) => AfterKeepsStack(AfterDescriptor(cfg, d), x);
    case _ =>
  }

  /** The flags after a value do not depend on the stack. */
  lemma {:induction false} AfterAndPush(cfg: Config, e: StructEncoding, v: Val)
    requires Tame(BasicEnc, v)
    ensures After(Push(cfg, e), v) == Push(After(cfg, v), e)
    ensures Sensitive(Push(cfg, e), v) == Sensitive(cfg, v)
    decreases v
  {
    match v
    case Just(x) => AfterAndPush(cfg, e, x);
    case Described(d, x) =>
      AfterAndPush(AfterDescriptor(cfg, d), e, x);
      assert AfterDescriptor(Push(cfg, e), d) == Push(AfterDescriptor(cfg, d), e);
    case _ =>
  }

  lemma PushPop(cfg: Config, e: StructEncoding)
    ensures Top(Push(cfg, e)) == e && Pop(Push(cfg, e)) == cfg
  {
    assert (cfg.stack + [e])[..|cfg.stack|] == cfg.stack;
  }

  // ---- scalars ------------------------------------------------------------------------------

  lemma ScalarRefines(cfg: Config, s: Scalar)
    requires cfg.mode == NotElem && !Sensitive(cfg, Prim(s))
    ensures RunScalar(cfg, s)
         == if ScalarFits(NotElem, s) then Ok(Step(ScalarBytes(NotElem, s), After(cfg, Prim(s)))) else Err(TooLong)
  {
    hide BE, Signed, Octet, Variable;
  }

  lemma ElementRefines(m: Mode, s: Scalar)
    requires m != NotElem
    ensures RunScalar(Plain(m), s).Ok? && RunScalar(Plain(m), s).value.out == ScalarBytes(m, s)
  {
    hide BE, Signed, Octet, Variable;
  }

  lemma DescriptorRefines(cfg: Config, d: Descriptor)
    requires cfg.mode == NotElem
    ensures RunDescriptor(cfg, d)
         == if ScalarFits(NotElem, DescriptorScalar(d)) then Ok(Step(DescriptorBytes(NotElem, d), AfterDescriptor(cfg, d)))
            else Err(TooLong)
  {
    hide RunScalar, ScalarBytes;
    ScalarRefines(cfg, DescriptorScalar(d));
  }

  // ---- sequences ----------------------------------------------------------------------------

  lemma {:induction false} AllRefine(base: Config, vs: seq<Val>)
    requires base == Plain(NotElem) || base == Within(ListEnc)
    requires AllTame(Top(base), vs)
    ensures RunAll(base, vs) == ExpectedBytes(AllFit(vs) && AllReserve(vs), EncodeAll(false, vs))
    decreases vs, 0
  {
    hide Run, Encode, Fits, Reserves, Tame;
    if vs != [] {
      ClearIsInsensitive(base, vs[0]);
      Refines(base, vs[0]);
      AllRefine(base, vs[1..]);
      assert AllFit(vs) <==> Fits(false, vs[0]) && AllFit(vs[1..]);
      assert AllReserve(vs) <==> Reserves(vs[0]) && AllReserve(vs[1..]);
    }
  }

  lemma {:induction false} ElementsRefine(m: Mode, vs: seq<Val>)
    requires m != NotElem && forall i :: 0 <= i < |vs| ==> vs[i].Prim?
    ensures RunElements(m, vs) == Ok(ArrayBody(m, vs))
    decreases vs
  {
    hide RunScalar, ScalarBytes;
    if vs != [] {
      ElementRefines(m, vs[0].s);
      ElementsRefine(Other, vs[1..]);
    }
  }

  lemma {:induction false} EntryRefines(e: Entry)
    requires EntryTame(e)
    ensures RunEntry(e) == ExpectedBytes(EntryFits(e) && EntryReserves(e), EncodeEntry(e))
    decreases e, 0
  {
    hide Run, Encode, Fits, Reserves, Tame, Sensitive, After;
    ClearIsInsensitive(Plain(NotElem), e.key);
    Refines(Plain(NotElem), e.key);
    AfterKeepsStack(Plain(NotElem), e.key);
    Refines(After(Plain(NotElem), e.key), e.value);
  }

  lemma {:induction false} EntriesRefine(es: seq<Entry>)
    requires forall i :: 0 <= i < |es| ==> EntryTame(es[i])
    ensures RunEntries(es) == ExpectedBytes(EntriesFit(es) && (forall i :: 0 <= i < |es| ==> EntryReserves(es[i])), EncodeEntries(es))
    decreases es, 0
  {
    hide RunEntry, EntryFits, EntryReserves, EntryTame, EncodeEntry;
    if es != [] {
      EntryRefines(es[0]);
      EntriesRefine(es[1..]);
      assert EntriesFit(es) <==> EntryFits(es[0]) && EntriesFit(es[1..]);
      assert (forall i :: 0 <= i < |es| ==> EntryReserves(es[i]))
        <==> EntryReserves(es[0]) && forall i :: 0 <= i < |es[1..]| ==> EntryReserves(es[1..][i]);
    }
  }

  // ---- structs ------------------------------------------------------------------------------

  lemma {:induction false} NamedRefines(st: Struc, n: Named)
    requires st.cfg.mode == NotElem && Top(st.cfg) != BasicEnc && NamedTame(Top(st.cfg), n)
    ensures NamedStep(st, n) ==
              if NamedFits(Top(st.cfg) == MapEnc, n) && NamedReserves(n)
              then Ok(st.(buf := st.buf + NamedBytes(Top(st.cfg), n), count := st.count + 1)) else Err(TooLong)
    decreases n, 0
  {
    hide Run, RunScalar, Encode, Fits, Reserves, Tame, Sensitive, ScalarBytes, After;
    var top := Top(st.cfg);
    var base := if top == NoEnc then Plain(NotElem) else Within(top);
    ClearIsInsensitive(base, n.v);
    Refines(base, n.v);
    assert Within(MapEnc).nonNative == None;
    NameRefines(n.name);
  }

  lemma NameRefines(name: str)
    ensures RunScalar(Within(MapEnc), Str(name)) ==
              if |name| <= MAX_BODY then Ok(Step(ScalarBytes(NotElem, Str(name)), Within(MapEnc))) else Err(TooLong)
  {
    hide ScalarBytes;
  }

  lemma {:induction false} NamedStepsRefine(st: Struc, ns: seq<Named>)
    requires st.cfg.mode == NotElem && Top(st.cfg) != BasicEnc && AllNamedTame(Top(st.cfg), ns)
    ensures NamedSteps(st, ns) ==
              if NamedFit(Top(st.cfg) == MapEnc, ns) && AllNamedReserve(ns)
              then Ok(st.(buf := st.buf + AllNamedBytes(Top(st.cfg), ns), count := st.count + |ns|)) else Err(TooLong)
    decreases ns, 0
  {
    hide NamedStep, NamedFits, NamedReserves, NamedTame, ScalarBytes, EncodeNamedValue;
    var top := Top(st.cfg);
    if ns == [] {
      assert st.buf + AllNamedBytes(top, ns) == st.buf;
    } else {
      NamedRefines(st, ns[0]);
      assert NamedFit(top == MapEnc, ns) <==> NamedFits(top == MapEnc, ns[0]) && NamedFit(top == MapEnc, ns[1..]);
      assert AllNamedReserve(ns) <==> NamedReserves(ns[0]) && AllNamedReserve(ns[1..]);
      if NamedStep(st, ns[0]).Ok? {
        var st1 := NamedStep(st, ns[0]).value;
        NamedStepsRefine(st1, ns[1..]);
        assert st1.buf + AllNamedBytes(top, ns[1..]) == st.buf + AllNamedBytes(top, ns);
      }
    }
  }

  // ---- composites ---------------------------------------------------------------------------

  lemma {:induction false} CompositeStepRefines(st: Struc, f: Field)
    requires Top(st.cfg) == ListEnc && FieldTame(f) && !Skipped(f)
    ensures CompositeStep(st, f) ==
              if FieldFits(f) && FieldReserves(f)
              then Ok(st.(buf := st.buf + WireBytes(f), count := st.count + 1)) else Err(TooLong)
    decreases f, 0
  {
    hide Run, Encode, Fits, Reserves, Tame, Sensitive, After;
    ClearIsInsensitive(Within(ListEnc), f.v);
    Refines(Within(ListEnc), f.v);
  }

  /**
   Holding nulls back and dropping them at the tail writes the first `Flushed(fs)` fields and
   counts them.
   */
  lemma {:induction false} FieldStepsRefine(st: Struc, fs: seq<Field>, nulls: nat)
    requires Top(st.cfg) == ListEnc && FieldsTame(fs)
    ensures FieldSteps(st, fs, nulls) ==
              if FieldsFit(fs) && FieldsReserve(fs)
              then Ok(st.(buf := st.buf + Pending(fs, nulls), count := st.count + if Flushed(fs) == 0 then 0 else nulls + Flushed(fs)))
              else Err(TooLong)
    decreases fs, 0
  {
    hide CompositeStep, Skipped, FieldFits, FieldReserves, FieldTame, WireBytes, Pending, Flushed;
    if fs == [] {
      NothingPending(nulls);
      assert st.buf + Pending(fs, nulls) == st.buf;
    } else {
      PendingStep(fs, nulls);
      assert FieldsFit(fs) <==> FieldFits(fs[0]) && FieldsFit(fs[1..]);
      assert FieldsReserve(fs) <==> FieldReserves(fs[0]) && FieldsReserve(fs[1..]);
      if Skipped(fs[0]) {
        SkippedIsFine(fs[0]);
        FieldStepsRefine(st, fs[1..], nulls + 1);
      } else {
        CompositeStepRefines(NullSteps(st, nulls), fs[0]);
        var o := CompositeStep(NullSteps(st, nulls), fs[0]);
        if o.Ok? {
          FieldStepsRefine(o.value, fs[1..], 0);
          assert st.buf + Nulls(nulls) + WireBytes(fs[0]) + Pending(fs[1..], 0)
              == st.buf + (Nulls(nulls) + WireBytes(fs[0]) + Pending(fs[1..], 0));
        }
      }
    }
  }

  // ---- values -------------------------------------------------------------------------------

  lemma {:induction false} SeqRefines(cfg: Config, v: Val)
    requires cfg.mode == NotElem && Tame(Top(cfg), v) && !Sensitive(cfg, v) && v.List?
    ensures Run(cfg, v) == Expected(cfg, v)
    decreases v, 0
  {
    hide EncodeAll, RunAll, WriteCompound, Size;
    ChildrenTame(Top(cfg), v);
    AllRefine(Plain(NotElem), v.vs);
    if v.vs != [] { SizeBounds(NoEnc, v.vs[0]); }
    HeaderFails(EncodeAll(false, v.vs), |v.vs|);
  }

  lemma HeaderFails(buf: bytes, n: nat)
    ensures WriteList(NotElem, n, buf) == if |buf| <= MAX_BODY then Ok(Written(WriteList(NotElem, n, buf))) else Err(TooLong)
    ensures WriteMap(NotElem, n, buf) == if |buf| <= MAX_BODY then Ok(Written(WriteMap(NotElem, n, buf))) else Err(TooLong)
    ensures WriteArray(NotElem, n, buf) == if |buf| <= MAX_BODY then Ok(Written(WriteArray(NotElem, n, buf))) else Err(TooLong)
  {
    hide BE;
  }

  lemma ArrayRefines(cfg: Config, v: Val)
    requires cfg.mode == NotElem && Tame(Top(cfg), v) && v.Array?
    ensures Run(cfg, v) == Expected(cfg, v)
  {
    hide ArrayBody, RunElements, WriteCompound, Size, Sensitive;
    ElementsRefine(First, v.vs);
    if v.vs != [] { SizeBounds(NoEnc, v.vs[0]); }
    HeaderFails(ArrayBody(First, v.vs), |v.vs|);
  }

  lemma {:induction false} TupleRefines(cfg: Config, v: Val)
    requires cfg.mode == NotElem && Tame(Top(cfg), v) && v.Tuple?
    ensures Run(cfg, v) == Expected(cfg, v)
    decreases v, 0
  {
    hide EncodeAll, RunAll, WriteCompound, Sensitive;
    ChildrenTame(Top(cfg), v);
    AllRefine(Plain(NotElem), v.vs);
    HeaderFails(EncodeAll(false, v.vs), |v.vs|);
  }

  lemma {:induction false} MapRefines(cfg: Config, v: Val)
    requires cfg.mode == NotElem && Tame(Top(cfg), v) && v.Map?
    ensures Run(cfg, v) == Expected(cfg, v)
    decreases v, 0
  {
    hide EncodeEntries, RunEntries, WriteMap, SizeEntry, EntryTame, EntryReserves, EntryFits, Sensitive;
    ChildrenTame(Top(cfg), v);
    EntriesRefine(v.entries);
    if v.entries != [] { EntryBounds(v.entries[0]); }
    HeaderFails(EncodeEntries(v.entries), 2 * |v.entries|);
  }

  lemma {:induction false} DescribedRefines(cfg: Config, v: Val)
    requires cfg.mode == NotElem && Tame(Top(cfg), v) && !Sensitive(cfg, v) && v.Described?
    ensures Run(cfg, v) == Expected(cfg, v)
    decreases v, 0
  {
    hide RunDescriptor, DescriptorBytes, ScalarFits;
    assert Tame(BasicEnc, v.v);
    var cfg1 := AfterDescriptor(cfg, v.d);
    assert AfterDescriptor(Push(cfg, BasicEnc), v.d) == Push(cfg1, BasicEnc);
    DescriptorRefines(Push(cfg, BasicEnc), v.d);
    AfterAndPush(cfg1, BasicEnc, v.v);
    PushPop(cfg1, BasicEnc);
    PushPop(After(cfg1, v.v), BasicEnc);
    Refines(Push(cfg1, BasicEnc), v.v);
  }

  lemma {:induction false} CompositeRefines(cfg: Config, v: Val)
    requires cfg.mode == NotElem && Tame(Top(cfg), v) && v.Composite?
    ensures Run(cfg, v) == Expected(cfg, v)
    decreases v, 0
  {
    hide RunDescriptor, DescriptorBytes, ScalarFits, FieldSteps, FieldTame, FieldFits, FieldReserves, Flushed, WireBody, WriteList, Sensitive;
    assert FieldsTame(v.fields);
    var cfg1 := AfterDescriptor(cfg, v.d);
    assert AfterDescriptor(Push(cfg, ListEnc), v.d) == Push(cfg1, ListEnc);
    DescriptorRefines(Push(cfg, ListEnc), v.d);
    PushPop(cfg1, ListEnc);
    var st := Struc(Push(cfg1, ListEnc), DescriptorBytes(NotElem, v.d), [], 0);
    FieldStepsRefine(st, v.fields, 0);
    PendingIsBody(v.fields);
    var body := WireBody(v.fields, Flushed(v.fields));
    assert [] + body == body;
    HeaderFails(body, Flushed(v.fields));
    assert Encode(Top(cfg) == MapEnc, v) == EncodeComposite(v.d, v.fields, Flushed(v.fields));
    assert Reserves(v) <==> FieldsReserve(v.fields);
  }

  lemma {:induction false} DescribedMapRefines(cfg: Config, v: Val)
    requires cfg.mode == NotElem && Tame(Top(cfg), v) && v.DescribedMap?
    ensures Run(cfg, v) == Expected(cfg, v)
    decreases v, 0
  {
    hide RunDescriptor, DescriptorBytes, ScalarFits, NamedSteps, NamedTame, NamedFits, NamedReserves, EncodeNamed, WriteMap, Sensitive;
    assert AllNamedTame(MapEnc, v.named);
    var cfg1 := AfterDescriptor(cfg, v.d);
    assert AfterDescriptor(Push(cfg, MapEnc), v.d) == Push(cfg1, MapEnc);
    DescriptorRefines(Push(cfg, MapEnc), v.d);
    PushPop(cfg1, MapEnc);
    var st := Struc(Push(cfg1, MapEnc), DescriptorBytes(NotElem, v.d), [], 0);
    NamedStepsRefine(st, v.named);
    assert [] + EncodeNamed(v.named) == EncodeNamed(v.named);
    HeaderFails(EncodeNamed(v.named), 2 * |v.named|);
  }

  lemma {:induction false} StructRefines(cfg: Config, v: Val)
    requires cfg.mode == NotElem && Tame(Top(cfg), v) && v.Struct?
    ensures Run(cfg, v) == Expected(cfg, v)
    decreases v, 0
  {
    hide NamedSteps, NamedTame, NamedFits, NamedReserves, EncodeNamed, EncodeValues, WriteMap, WriteList, Sensitive;
    assert AllNamedTame(Top(cfg), v.named);
    NamedStepsRefine(Struc(cfg, [], [], 0), v.named);
    var body := AllNamedBytes(Top(cfg), v.named);
    assert [] + body == body;
    HeaderFails(body, |v.named|);
    HeaderFails(body, 2 * |v.named|);
    assert [] + Written(WriteList(NotElem, |v.named|, body)) == Written(WriteList(NotElem, |v.named|, body));
    assert [] + Written(WriteMap(NotElem, 2 * |v.named|, body)) == Written(WriteMap(NotElem, 2 * |v.named|, body));
  }

  lemma {:induction false} TupleStructRefines(cfg: Config, v: Val)
    requires cfg.mode == NotElem && Tame(Top(cfg), v) && v.TupleStruct?
    ensures Run(cfg, v) == Expected(cfg, v)
    decreases v, 0
  {
    hide EncodeAll, RunAll, WriteList, Sensitive;
    ChildrenTame(Top(cfg), v);
    AllRefine(if Top(cfg) == NoEnc then Plain(NotElem) else Within(ListEnc), v.vs);
    HeaderFails(EncodeAll(false, v.vs), |v.vs|);
  }

  lemma {:induction false} NewtypeVariantRefines(cfg: Config, v: Val)
    requires cfg.mode == NotElem && Tame(Top(cfg), v) && v.NewtypeVariant?
    ensures Run(cfg, v) == Expected(cfg, v)
    decreases v, 0
  {
    hide RunScalar, ScalarBytes, WriteMap, Size;
    assert Tame(NoEnc, v.v);
    ScalarRefines(Plain(NotElem), U32(v.index));
    ClearIsInsensitive(Plain(NotElem), v.v);
    Refines(Plain(NotElem), v.v);
    SizeBounds(NoEnc, v.v);
    HeaderFails(ScalarBytes(NotElem, U32(v.index)) + Encode(false, v.v), 2);
  }

  lemma {:induction false} TupleVariantRefines(cfg: Config, v: Val)
    requires cfg.mode == NotElem && Tame(Top(cfg), v) && v.TupleVariant?
    ensures Run(cfg, v) == Expected(cfg, v)
    decreases v, 0
  {
    hide RunScalar, ScalarBytes, WriteMap, WriteList, EncodeAll, RunAll, Sensitive;
    ChildrenTame(Top(cfg), v);
    AllRefine(Plain(NotElem), v.vs);
    ClearIsInsensitive(Plain(NotElem), Prim(U32(v.index)));
    ScalarRefines(Plain(NotElem), U32(v.index));
    HeaderFails(EncodeAll(false, v.vs), |v.vs|);
    HeaderFails(ScalarBytes(NotElem, U32(v.index)) + Written(WriteList(NotElem, |v.vs|, EncodeAll(false, v.vs))), 2);
  }

  /**
   Encoder refinement, nested to any depth: from any state that `v` does not read, the encoder
   writes `Encode` and leaves `After`, or fails for length.
   */
  lemma {:induction false} Refines(cfg: Config, v: Val)
    requires cfg.mode == NotElem && Tame(Top(cfg), v) && !Sensitive(cfg, v)
    ensures Run(cfg, v) == Expected(cfg, v)
    decreases v, 3
  {
    match v
    case Prim(s) => ScalarRefines(cfg, s);
    case UnitVariant(i) => ScalarRefines(cfg, U32(i));
    case Just(x) => Refines(cfg, x);
    case List(_) => SeqRefines(cfg, v);
    case Array(_) => ArrayRefines(cfg, v);
    case Tuple(_) => TupleRefines(cfg, v);
    case Map(_) => MapRefines(cfg, v);
    case Described(_, _) => DescribedRefines(cfg, v);
    case Composite(_, _) => CompositeRefines(cfg, v);
    case DescribedMap(_, _) => DescribedMapRefines(cfg, v);
    case NewtypeVariant(_, _) => NewtypeVariantRefines(cfg, v);
    case TupleVariant(_, _) => TupleVariantRefines(cfg, v);
    case Struct(_) => StructRefines(cfg, v);
    case TupleStruct(_) => TupleStructRefines(cfg, v);
    case _ =>
  }
}
