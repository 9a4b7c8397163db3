/**
 Where the encoder shares one serializer between two values, and what goes wrong there: a map key
 that leaves a flag its value reads, and a plain struct directly inside a described value.
 */
module Sharing {
  import opened Bytes
  import opened Utf8
  import opened FormatCodes
  import opened Values
  import opened Wire
  import opened Sizes
  import opened HeldBack
  import opened Encoder
  import opened Tameness
  import opened SizeProofs
  import opened Refinement
  import opened Headers

  lemma ScalarSensitive(cfg: Config, s: Scalar)
    requires cfg.mode == NotElem && Sensitive(cfg, Prim(s))
    ensures !(RunScalar(cfg, s).Ok? && RunScalar(cfg, s).value.out == ScalarBytes(NotElem, s))
  {
    hide BE, Signed;
    if RunScalar(cfg, s).Ok? {
      assert RunScalar(cfg, s).value.out[0] != ScalarBytes(NotElem, s)[0];
    }
  }

  lemma ArrayIsNoList(n: nat, a: bytes, b: bytes)
    ensures var x, y := WriteArray(NotElem, n, a), WriteList(NotElem, n, b); x.Ok? ==> x.value != Written(y)
  {
    hide BE;
    var x, y := WriteArray(NotElem, n, a), WriteList(NotElem, n, b);
    if x.Ok? && y.Ok? {
      assert x.value[0] == ARRAY8 || x.value[0] == ARRAY32;
      assert y.value[0] == LIST0 || y.value[0] == LIST8 || y.value[0] == LIST32;
    }
  }

  lemma ListSensitive(cfg: Config, vs: seq<Val>)
    requires cfg.mode == NotElem && cfg.seqType == ArraySeq
    ensures !(RunSeq(cfg, vs).Ok? && RunSeq(cfg, vs).value.out == Encode(false, List(vs)))
  {
    hide WriteArray, WriteList, RunElements, EncodeAll, Size;
    var o := RunSeq(cfg, vs);
    if o.Ok? { ArrayIsNoList(|vs|, RunElements(First, vs).value, EncodeAll(false, vs)); }
  }

  /** A value that reads a flag left set is not written as it would be on its own. */
  lemma {:induction false} SensitiveDiffers(cfg: Config, v: Val)
    requires cfg.mode == NotElem && Tame(Top(cfg), v) && Sensitive(cfg, v)
    ensures !(Run(cfg, v).Ok? && Run(cfg, v).value.out == Encode(false, v))
    decreases v
  {
    hide RunScalar, ScalarBytes, RunSeq, DescriptorBytes, RunDescriptor, ScalarFits;
    match v
    case Prim(s) => ScalarSensitive(cfg, s);
    case List(vs) => ListSensitive(cfg, vs);
    case Just(x) => SensitiveDiffers(cfg, x);
    case Described(d, x) => DescribedDiffers(cfg, v);
    case _ =>
  }

  lemma {:induction false} DescribedDiffers(cfg: Config, v: Val)
    requires cfg.mode == NotElem && Tame(Top(cfg), v) && Sensitive(cfg, v) && v.Described?
    ensures !(Run(cfg, v).Ok? && Run(cfg, v).value.out == Encode(false, v))
    decreases v, 0
  {
    hide RunDescriptor, DescriptorBytes, ScalarFits;
    assert Tame(BasicEnc, v.v);
    var cfg1 := AfterDescriptor(cfg, v.d);
    var inner := Push(cfg1, BasicEnc);
    assert AfterDescriptor(Push(cfg, BasicEnc), v.d) == inner;
    DescriptorRefines(Push(cfg, BasicEnc), v.d);
    AfterAndPush(cfg1, BasicEnc, v.v);
    PushPop(cfg1, BasicEnc);
    SensitiveDiffers(inner, v.v);
    TameIsNotPlain(v.v);
    if Run(inner, v.v).Ok? {
      StackKept(inner, v.v);
      PrefixCancel(DescriptorBytes(NotElem, v.d), Run(inner, v.v).value.out, Encode(false, v.v));
    }
  }

  lemma PrefixCancel(h: bytes, a: bytes, b: bytes)
    ensures h + a == h + b <==> a == b
  {
    assert (h + a)[|h|..] == a && (h + b)[|h|..] == b;
  }

  // ---- the stack of struct encodings --------------------------------------------------------

  /** Neither a plain struct nor one directly inside an option or a described value. */
  predicate NotPlain(v: Val) {
    match v
    case Just(x) => NotPlain(x)
    case Described(_, x) => NotPlain(x)
    case Struct(_) => false
    case TupleStruct(_) => false
    case _ => true
  }

  lemma {:induction false} TameIsNotPlain(v: Val)
    requires Tame(BasicEnc, v)
    ensures NotPlain(v)
  {
    match v
    case Just(x) => TameIsNotPlain(x);
    case Described(_, x) => TameIsNotPlain(x);
    case _ =>
  }

  lemma StepKeepsConfig(st: Struc, name: str, v: Val)
    requires Top(st.cfg) != BasicEnc
    ensures FieldStep(st, name, v).Ok? ==> FieldStep(st, name, v).value.cfg == st.cfg
  {
    hide RunScalar;
  }

  lemma {:induction false} FieldStepsKeepConfig(st: Struc, fs: seq<Field>, nulls: nat)
    requires Top(st.cfg) == ListEnc
    ensures FieldSteps(st, fs, nulls).Ok? ==> FieldSteps(st, fs, nulls).value.cfg == st.cfg
    decreases fs
  {
    hide Run, Skipped, FieldStep;
    if fs != [] {
      StepKeepsConfig(NullSteps(st, nulls), [], fs[0].v);
      assert CompositeStep(NullSteps(st, nulls), fs[0]) == FieldStep(NullSteps(st, nulls), [], fs[0].v);
      if Skipped(fs[0]) {
        FieldStepsKeepConfig(st, fs[1..], nulls + 1);
      } else if CompositeStep(NullSteps(st, nulls), fs[0]).Ok? {
        FieldStepsKeepConfig(CompositeStep(NullSteps(st, nulls), fs[0]).value, fs[1..], 0);
      }
    }
  }

  lemma {:induction false} NamedStepsKeepConfig(st: Struc, ns: seq<Named>)
    requires Top(st.cfg) != BasicEnc
    ensures NamedSteps(st, ns).Ok? ==> NamedSteps(st, ns).value.cfg == st.cfg
    decreases ns
  {
    hide Run, RunScalar, FieldStep;
    if ns != [] {
      StepKeepsConfig(st, ns[0].name, ns[0].v);
      assert NamedStep(st, ns[0]) == FieldStep(st, ns[0].name, ns[0].v);
      if NamedStep(st, ns[0]).Ok? { NamedStepsKeepConfig(NamedStep(st, ns[0]).value, ns[1..]); }
    }
  }

  lemma ScalarKeepsStack(cfg: Config, s: Scalar, d: Descriptor)
    ensures RunScalar(cfg, s).Ok? ==> RunScalar(cfg, s).value.cfg.stack == cfg.stack
    ensures RunDescriptor(cfg, d).Ok? ==> RunDescriptor(cfg, d).value.cfg.stack == cfg.stack
  {
    hide ScalarBytes, ScalarFits, Tagged;
  }

  /**
   Stack balance, for every state and every value, whatever it holds. No call ever pushes without
   popping: the stack of struct encodings after a success is a prefix of the one before, and it is
   the same one if and only if there was nothing to pop or the value is neither a plain struct nor
   one directly inside an option or a described value. (`NoEnc` is never pushed.)
   */
  lemma {:induction false} StackBalance(cfg: Config, v: Val)
    requires NoEnc !in cfg.stack && Run(cfg, v).Ok?
    ensures Run(cfg, v).value.cfg.stack <= cfg.stack
    ensures Run(cfg, v).value.cfg.stack == cfg.stack <==> NotPlain(v) || cfg.stack == []
    decreases v, 1
  {
    hide Run, NotPlain;
    StackKept(cfg, v);
    if !NotPlain(v) { StackShrinks(cfg, v); }
  }

  /** The values that are not plain keep the stack, `NoEnc` on it or not. */
  lemma {:induction false} StackKept(cfg: Config, v: Val)
    ensures NotPlain(v) && Run(cfg, v).Ok? ==> Run(cfg, v).value.cfg.stack == cfg.stack
    decreases v, 0
  {
    hide RunScalar, RunDescriptor, WriteList, WriteMap, WriteArray, FieldSteps, NamedSteps, RunAll, RunElements, RunEntries, Size;
    match v
    case Prim(s) => ScalarKeepsStack(cfg, s, Code(0));
    case UnitVariant(i) => ScalarKeepsStack(cfg, U32(i), Code(0));
    case Just(x) => StackKept(cfg, x);
    case Described(d, x) => DescribedKeepsStack(cfg, d, x);
    case Composite(d, fs) => CompositeBalance(cfg, d, fs);
    case DescribedMap(d, ns) => DescribedMapBalance(cfg, d, ns);
    case _ =>
  }

  /** The plain ones pop at least one encoding, if there is one, and push none. */
  lemma {:induction false} StackShrinks(cfg: Config, v: Val)
    requires NoEnc !in cfg.stack && Run(cfg, v).Ok? && !NotPlain(v)
    ensures Shorter(Run(cfg, v).value.cfg.stack, cfg.stack)
    decreases v, 0
  {
    hide RunDescriptor, WriteList, WriteMap, NamedSteps, RunAll;
    match v
    case Just(x) => StackShrinks(cfg, x);
    case Described(d, x) => DescribedShrinks(cfg, d, x);
    case Struct(ns) =>
      NamedStepsShrink(Struc(cfg, [], [], 0), ns);
      EndShrinks(NamedSteps(Struc(cfg, [], [], 0), ns).value);
    case TupleStruct(_) =>
  }

  /** A proper prefix of a stack, or the empty stack again. */
  predicate Shorter(a: seq<StructEncoding>, b: seq<StructEncoding>) {
    a <= b && (b != [] ==> |a| < |b|)
  }

  lemma EndShrinks(st: Struc)
    requires NoEnc !in st.cfg.stack && EndStruct(st).Ok?
    ensures Shorter(EndStruct(st).value.cfg.stack, st.cfg.stack)
  {
    hide WriteList, WriteMap;
  }

  lemma {:induction false} NamedStepsShrink(st: Struc, ns: seq<Named>)
    requires NoEnc !in st.cfg.stack && NamedSteps(st, ns).Ok?
    ensures NamedSteps(st, ns).value.cfg.stack <= st.cfg.stack
    decreases ns, 0
  {
    hide NamedStep;
    if ns != [] {
      NamedStepShrinks(st, ns[0]);
      NamedStepsShrink(NamedStep(st, ns[0]).value, ns[1..]);
    }
  }

  lemma {:induction false} NamedStepShrinks(st: Struc, n: Named)
    requires NoEnc !in st.cfg.stack && NamedStep(st, n).Ok?
    ensures NamedStep(st, n).value.cfg.stack <= st.cfg.stack
    decreases n, 0
  {
    hide Run, RunScalar;
    if Top(st.cfg) == BasicEnc { StackBalance(st.cfg, n.v); }
  }

  lemma {:induction false} DescribedShrinks(cfg: Config, d: Descriptor, x: Val)
    requires NoEnc !in cfg.stack && Run(cfg, Described(d, x)).Ok? && !NotPlain(x)
    ensures Shorter(Run(cfg, Described(d, x)).value.cfg.stack, cfg.stack)
    decreases x, 1
  {
    hide RunDescriptor, WriteList, WriteMap;
    ScalarKeepsStack(Push(cfg, BasicEnc), Bool(true), d);
    var h := RunDescriptor(Push(cfg, BasicEnc), d).value;
    assert Top(h.cfg) == BasicEnc;
    StackShrinks(h.cfg, x);
    EndShrinks(FieldStep(Struc(h.cfg, h.out, [], 0), [], x).value);
  }

  /** A plain struct under a described list or map pops exactly that encoding. */
  lemma PlainStructPops(cfg: Config, v: Val)
    requires (v.Struct? || v.TupleStruct?) && (Top(cfg) == ListEnc || Top(cfg) == MapEnc) && Run(cfg, v).Ok?
    ensures Run(cfg, v).value.cfg.stack == cfg.stack[..|cfg.stack| - 1]
  {
    hide WriteList, WriteMap, NamedSteps, RunAll;
    if v.Struct? { NamedStepsKeepConfig(Struc(cfg, [], [], 0), v.named); }
  }

  lemma CompositeBalance(cfg: Config, d: Descriptor, fs: seq<Field>)
    ensures Run(cfg, Composite(d, fs)).Ok? ==> Run(cfg, Composite(d, fs)).value.cfg.stack == cfg.stack
  {
    hide RunDescriptor, WriteList, WriteMap, FieldSteps;
    ScalarKeepsStack(Push(cfg, ListEnc), Bool(true), d);
    PushPop(cfg, ListEnc);
    if RunDescriptor(Push(cfg, ListEnc), d).Ok? {
      var h := RunDescriptor(Push(cfg, ListEnc), d).value;
      FieldStepsKeepConfig(Struc(h.cfg, h.out, [], 0), fs, 0);
    }
  }

  lemma DescribedMapBalance(cfg: Config, d: Descriptor, ns: seq<Named>)
    ensures Run(cfg, DescribedMap(d, ns)).Ok? ==> Run(cfg, DescribedMap(d, ns)).value.cfg.stack == cfg.stack
  {
    hide RunDescriptor, WriteList, WriteMap, NamedSteps;
    ScalarKeepsStack(Push(cfg, MapEnc), Bool(true), d);
    PushPop(cfg, MapEnc);
    if RunDescriptor(Push(cfg, MapEnc), d).Ok? {
      var h := RunDescriptor(Push(cfg, MapEnc), d).value;
      NamedStepsKeepConfig(Struc(h.cfg, h.out, [], 0), ns);
    }
  }

  lemma {:induction false} DescribedKeepsStack(cfg: Config, d: Descriptor, x: Val)
    ensures NotPlain(x) && Run(cfg, Described(d, x)).Ok? ==> Run(cfg, Described(d, x)).value.cfg.stack == cfg.stack
    decreases x, 1
  {
    hide RunDescriptor, WriteList, WriteMap;
    ScalarKeepsStack(Push(cfg, BasicEnc), Bool(true), d);
    PushPop(cfg, BasicEnc);
    if RunDescriptor(Push(cfg, BasicEnc), d).Ok? {
      var h := RunDescriptor(Push(cfg, BasicEnc), d).value;
      assert Top(h.cfg) == BasicEnc;
      StackKept(h.cfg, x);
    }
  }

  /**
   A map entry is written as its key followed by its value, each as on its own, if and only if the
   value does not read the flag that the key leaves set.
   */
  lemma EntryIff(e: Entry)
    requires Tame(NoEnc, e.key) && Tame(NoEnc, e.value) && Accepts(false, e.key) && Accepts(false, e.value)
    ensures RunEntry(e) == Ok(EncodeEntry(e)) <==> !Sensitive(After(Plain(NotElem), e.key), e.value)
  {
    hide Run, Encode, Fits, Reserves, Tame, Sensitive, After;
    var cfg := After(Plain(NotElem), e.key);
    ClearIsInsensitive(Plain(NotElem), e.key);
    Refines(Plain(NotElem), e.key);
    AfterKeepsStack(Plain(NotElem), e.key);
    if Sensitive(cfg, e.value) {
      SensitiveDiffers(cfg, e.value);
      if Run(cfg, e.value).Ok? {
        PrefixCancel(Encode(false, e.key), Run(cfg, e.value).value.out, Encode(false, e.value));
      }
    } else {
      Refines(cfg, e.value);
    }
  }

  /** A timestamp key: an integer value is written as a timestamp, and a string value panics. */
  lemma TimestampKey(ms: i64, i: i64, x: str)
    ensures RunEntry(Entry(Prim(Timestamp(ms)), Prim(I64(i)))) == Ok(ScalarBytes(NotElem, Timestamp(ms)) + ScalarBytes(NotElem, Timestamp(i)))
    ensures RunEntry(Entry(Prim(Timestamp(ms)), Prim(Str(x)))) == Panic
  {
    hide ScalarBytes;
    var cfg := Plain(NotElem).(nonNative := Some(NTimestamp));
    assert Run(Plain(NotElem), Prim(Timestamp(ms))) == Ok(Step(ScalarBytes(NotElem, Timestamp(ms)), cfg));
    assert Run(cfg, Prim(I64(i))) == Ok(Step(ScalarBytes(NotElem, Timestamp(i)), cfg));
    assert Run(cfg, Prim(Str(x))) == Panic;
  }
}
