/**
 Plain structs where they do not belong: directly inside a described value, or inside several. They
 pop the encoding that the described value pushed, so that their fields are written without a list
 around them and the described value ends as if it were something else.
 */
module Misplaced {
  import opened Bytes
  import opened Utf8
  import opened FormatCodes
  import opened Values
  import opened Wire
  import opened Headers
  import opened Encoder
  import opened Tameness
  import opened Refinement
  import opened Sharing
  import opened Lazy

  // ---- described values around a plain struct -----------------------------------------------

  /** The value without its descriptors, and the descriptors. */
  function Core(v: Val): Val {
    match v
    case Just(x) => Core(x)
    case Described(_, x) => Core(x)
    case _ => v
  }

  function Descriptors(v: Val): bytes {
    match v
    case Just(x) => Descriptors(x)
    case Described(d, x) => DescriptorBytes(NotElem, d) + Descriptors(x)
    case _ => []
  }

  lemma {:induction false} EncodedCore(v: Val)
    ensures Encode(false, v) == Descriptors(v) + Encode(false, Core(v))
    ensures !NotPlain(v) ==> Core(v).Struct? || Core(v).TupleStruct?
  {
    hide DescriptorBytes, EncodeAll, EncodeValues, EncodeEntries, WireBody, EncodeNamed, ArrayBody, WriteList, WriteMap, WriteArray;
    match v
    case Just(x) => EncodedCore(x);
    case Described(d, x) =>
      EncodedCore(x);
      assert DescriptorBytes(NotElem, d) + (Descriptors(x) + Encode(false, Core(x))) == Descriptors(v) + Encode(false, Core(v));
    case _ => assert [] + Encode(false, v) == Encode(false, v);
  }

  /** A struct with fields, and the first of them. */
  predicate HasFields(w: Val) {
    (w.Struct? && w.named != []) || (w.TupleStruct? && w.vs != [])
  }

  function FirstField(w: Val): Val
    requires HasFields(w)
  {
    if w.Struct? then w.named[0].v else w.vs[0]
  }

  /** The first field is tame where it is written; nothing is asked of the others. */
  predicate FirstTame(w: Val) {
    HasFields(w) ==> Tame(if w.Struct? then BasicEnc else NoEnc, FirstField(w))
  }

  // ---- what they write ----------------------------------------------------------------------

  ghost predicate Clear(cfg: Config) {
    cfg.mode == NotElem && cfg.nonNative == None && cfg.seqType == ListSeq
  }

  /** What ends a described value whose own encoding is gone from the stack. */
  function Stray(top: StructEncoding): bytes {
    match top
    case NoEnc => [LIST0]
    case ListEnc => [LIST0]
    case MapEnc => [MAP8, 1, 2]
    case BasicEnc => []
  }

  function Popped(cfg: Config): Config {
    if Top(cfg) == NoEnc then cfg else Pop(cfg)
  }

  /** `s` starts with the descriptors and the first field; without fields it is `bare` and no more. */
  ghost predicate Writes(cfg: Config, s: Step, v: Val, bare: bytes) {
    if HasFields(Core(v)) then
      Fits(false, FirstField(Core(v))) && Descriptors(v) + Encode(false, FirstField(Core(v))) <= s.out
    else s.out == bare && Clear(s.cfg) && s.cfg.stack == Popped(cfg).stack
  }

  lemma {:induction false} NamedStepsExtend(st: Struc, ns: seq<Named>)
    requires NamedSteps(st, ns).Ok?
    ensures st.out <= NamedSteps(st, ns).value.out
    decreases ns
  {
    hide Run, RunScalar;
    if ns != [] {
      assert NamedStep(st, ns[0]) == FieldStep(st, ns[0].name, ns[0].v);
      var st1 := NamedStep(st, ns[0]).value;
      assert st.out <= st1.out;
      NamedStepsExtend(st1, ns[1..]);
    }
  }

  lemma EndExtends(st: Struc)
    requires EndStruct(st).Ok?
    ensures st.out <= EndStruct(st).value.out
  {
    hide WriteList, WriteMap;
  }

  lemma FirstRuns(cfg: Config, v: Val)
    requires Clear(cfg) && Tame(Top(cfg), v) && Top(cfg) != MapEnc && Run(cfg, v).Ok?
    ensures Run(cfg, v).value.out == Encode(false, v) && Fits(false, v)
  {
    hide Run, Encode, Fits, Reserves, Tame, Sensitive, After;
    ClearIsInsensitive(cfg, v);
    Refines(cfg, v);
  }

  lemma StructWrites(cfg: Config, w: Val)
    requires Clear(cfg) && Top(cfg) == BasicEnc && w.Struct? && FirstTame(w) && Run(cfg, w).Ok?
    ensures Writes(cfg, Run(cfg, w).value, w, [])
  {
    hide Run, Tame, Encode, Fits, WriteList, WriteMap;
    StructRun(cfg, w.named);
    var st := Struc(cfg, [], [], 0);
    if w.named != [] {
      var n := w.named[0];
      assert NamedStep(st, n) == FieldStep(st, n.name, n.v);
      var st1 := NamedStep(st, n).value;
      FirstRuns(cfg, n.v);
      assert st1.out == [] + Encode(false, n.v);
      NamedStepsExtend(st1, w.named[1..]);
      EndExtends(NamedSteps(st, w.named).value);
      assert Descriptors(w) + Encode(false, n.v) == Encode(false, n.v);
    }
  }

  lemma StructRun(cfg: Config, ns: seq<Named>)
    ensures Run(cfg, Struct(ns)) ==
              (var o := NamedSteps(Struc(cfg, [], [], 0), ns); if o.Ok? then EndStruct(o.value) else o.PropagateFailure<Step>())
  {
    hide NamedSteps, EndStruct;
  }

  lemma TupleStructWrites(cfg: Config, w: Val)
    requires Clear(cfg) && Top(cfg) == BasicEnc && w.TupleStruct? && FirstTame(w) && Run(cfg, w).Ok?
    ensures Writes(cfg, Run(cfg, w).value, w, [])
  {
    assert Run(cfg, w) == RunTupleStruct(cfg, w.vs);
    hide Run, Tame, Encode, Fits, WriteList, WriteMap;
    if w.vs != [] {
      FirstRuns(Plain(NotElem), w.vs[0]);
      assert Descriptors(w) + Encode(false, w.vs[0]) == Encode(false, w.vs[0]);
    }
  }

  /** A described value around a plain struct, in any state with clear flags. */
  lemma {:induction false} DescribedWrites(cfg: Config, d: Descriptor, x: Val)
    requires Clear(cfg) && !NotPlain(x) && FirstTame(Core(x)) && Run(cfg, Described(d, x)).Ok?
    ensures Writes(cfg, Run(cfg, Described(d, x)).value, Described(d, x), Descriptors(Described(d, x)) + Stray(Top(cfg)))
    decreases x, 1
  {
    hide Run, RunDescriptor, DescriptorBytes, Tame, Encode, Fits, ScalarFits, EndStruct, NotPlain;
    var inner := Push(cfg, BasicEnc);
    DescriptorRefines(inner, d);
    assert AfterDescriptor(inner, d) == inner;
    DescribedRun(cfg, d, x);
    PushPop(cfg, BasicEnc);
    PlainUnderBasic(inner, x);
    var h, s := DescriptorBytes(NotElem, d), Run(inner, x).value;
    var st := Struc(s.cfg, h + s.out, [], 1);
    if HasFields(Core(x)) {
      EndExtends(st);
      Prefixed(h, Descriptors(x), Encode(false, FirstField(Core(x))), s.out, EndStruct(st).value.out);
    } else {
      StrayEnds(st);
    }
  }

  lemma Prefixed(h: bytes, a: bytes, b: bytes, s: bytes, out: bytes)
    requires a + b <= s && h + s <= out
    ensures h + a + b <= out
  {
    assert h + (a + b) == h + a + b;
    assert out[..|h + s|] == h + s && s[..|a + b|] == a + b;
  }

  lemma StrayEnds(st: Struc)
    requires Clear(st.cfg) && st.buf == [] && st.count == 1
    ensures EndStruct(st) == Ok(Step(st.out + Stray(Top(st.cfg)), Popped(st.cfg)))
  {
    assert st.out + [] == st.out;
    assert WriteList(NotElem, 1, []) == Ok([LIST0]);
    assert WriteMap(NotElem, 2, []) == Ok([MAP8] + [1, 2] + []);
    assert [MAP8] + [1, 2] + [] == [MAP8, 1, 2];
  }

  lemma DescribedRun(cfg: Config, d: Descriptor, x: Val)
    requires RunDescriptor(Push(cfg, BasicEnc), d).Ok? ==> RunDescriptor(Push(cfg, BasicEnc), d).value.cfg == Push(cfg, BasicEnc)
    requires Run(cfg, Described(d, x)).Ok?
    ensures RunDescriptor(Push(cfg, BasicEnc), d).Ok? && Run(Push(cfg, BasicEnc), x).Ok?
    ensures var h := RunDescriptor(Push(cfg, BasicEnc), d).value;
            var s := Run(Push(cfg, BasicEnc), x).value;
            Run(cfg, Described(d, x)) == EndStruct(Struc(s.cfg, h.out + s.out, [], 1))
  {
    hide RunDescriptor, EndStruct;
    PushPop(cfg, BasicEnc);
  }

  lemma {:induction false} PlainUnderBasic(cfg: Config, v: Val)
    requires Clear(cfg) && Top(cfg) == BasicEnc && !NotPlain(v) && FirstTame(Core(v)) && Run(cfg, v).Ok?
    ensures Writes(cfg, Run(cfg, v).value, v, Descriptors(v))
    decreases v, 0
  {
    hide Tame, Fits, Encode, DescriptorBytes;
    match v
    case Just(x) => PlainUnderBasic(cfg, x);
    case Described(d, x) =>
      DescribedWrites(cfg, d, x);
      assert Descriptors(v) + [] == Descriptors(v);
    case Struct(_) => StructWrites(cfg, v);
    case TupleStruct(_) => TupleStructWrites(cfg, v);
  }

  // ---- when that is the encoding ------------------------------------------------------------

  /** A list of elements starts with no encoding of its first element, however both go on. */
  lemma FrameDiffers(first: Val, num: nat, buf: bytes, rest: bytes)
    requires Fits(false, first) && |Encode(false, first)| <= |buf|
    ensures Encode(false, first) + rest != Written(WriteList(NotElem, num, buf))
  {
    hide Encode, Fits, Framed, LazyPrimitive;
    var b, e := Encode(false, first), Written(WriteList(NotElem, num, buf));
    EncodingStart(false, first);
    assert e + [] == e;
    if b + rest == e {
      ListStart(num, buf);
      assert (b + rest)[0] == b[0];
      if IsDescribedValue(first) {
        DescribedStart(false, first);
      } else {
        PrimitiveIsFramed(false, first);
        FramedIsRead(b, rest);
        ListIsFramed(num, buf);
        FramedIsRead(e, []);
      }
    }
  }

  lemma ListStart(num: nat, buf: bytes)
    requires buf != []
    ensures var e := Written(WriteList(NotElem, num, buf)); e != [] ==> e[0] != DESCRIBED && |buf| < |e| && |buf| <= MAX_BODY
  {
    hide BE;
  }

  lemma CoreList(w: Val)
    requires w.Struct? || w.TupleStruct?
    ensures !HasFields(w) ==> Encode(false, w) == [LIST0]
    ensures HasFields(w) && Fits(false, FirstField(w)) ==>
              exists num: nat, buf: bytes :: |Encode(false, FirstField(w))| <= |buf| && Encode(false, w) == Written(WriteList(NotElem, num, buf))
  {
    hide WriteList, Fits;
    if HasFields(w) {
      if w.Struct? {
        var buf := EncodeValues(w.named);
        assert |Encode(false, FirstField(w))| <= |buf| by { FirstOfValues(w.named); }
        assert Encode(false, w) == Written(WriteList(NotElem, |w.named|, buf));
      } else {
        var buf := EncodeAll(false, w.vs);
        assert Encode(false, w) == Written(WriteList(NotElem, |w.vs|, buf));
      }
    } else {
      EmptyList();
    }
  }

  lemma FirstOfValues(ns: seq<Named>)
    requires ns != []
    ensures |Encode(false, ns[0].v)| <= |EncodeValues(ns)|
  {
    hide Encode;
  }

  lemma EmptyList()
    ensures Written(WriteList(NotElem, 0, [])) == [LIST0]
  {
  }

  /**
   Exactly when a plain struct inside described values is written as it should be, in any state with
   clear flags, for a struct or a tuple struct with any fields of which the first is tame: only
   when it has no fields at all, and then only where a stray empty list is what is missing.
   */
  lemma MisplacedIff(cfg: Config, d: Descriptor, x: Val)
    requires Clear(cfg) && !NotPlain(x) && FirstTame(Core(x)) && Run(cfg, Described(d, x)).Ok?
    ensures Run(cfg, Described(d, x)).value.out == Encode(false, Described(d, x)) <==>
              !HasFields(Core(x)) && (Top(cfg) == NoEnc || Top(cfg) == ListEnc)
  {
    hide Run, Encode, Fits, Tame, DescriptorBytes, WriteList, NotPlain;
    var v := Described(d, x);
    var out := Run(cfg, v).value.out;
    DescribedWrites(cfg, d, x);
    EncodedCore(v);
    PlainCore(x);
    CoreList(Core(x));
    var ds := Descriptors(v);
    if HasFields(Core(x)) {
      var b := Encode(false, FirstField(Core(x)));
      var rest := out[|ds + b|..];
      assert out == ds + (b + rest);
      var num: nat, buf: bytes :| |b| <= |buf| && Encode(false, Core(x)) == Written(WriteList(NotElem, num, buf));
      FrameDiffers(FirstField(Core(x)), num, buf, rest);
      PrefixCancel(ds, b + rest, Encode(false, Core(x)));
    } else {
      PrefixCancel(ds, Stray(Top(cfg)), [LIST0]);
    }
  }

  lemma PlainCore(x: Val)
    requires !NotPlain(x)
    ensures Core(x).Struct? || Core(x).TupleStruct?
  {
    EncodedCore(x);
  }

  // ---- one field ----------------------------------------------------------------------------

  /** With one field on a new serializer: the field without a list, and then an empty list. */
  lemma DescribedStructIsWrong(d: Descriptor, n: Named)
    requires Tame(BasicEnc, n.v) && Accepts(false, n.v) && ScalarFits(NotElem, DescriptorScalar(d))
    ensures var v := Described(d, Struct([n]));
            && Run(Plain(NotElem), v).Ok?
            && Run(Plain(NotElem), v).value.out == DescriptorBytes(NotElem, d) + Encode(false, n.v) + [LIST0]
            && Run(Plain(NotElem), v).value.out != Encode(false, v)
  {
    hide Fits, Encode, Run, RunDescriptor, DescriptorBytes, Tame, Sensitive, After, Core, HasFields, FirstTame, NotPlain, Reserves, ScalarFits;
    OneFieldIsMisplaced(n);
    var cfg := Plain(NotElem);
    var inner := Push(cfg, BasicEnc);
    DescriptorRefines(inner, d);
    assert AfterDescriptor(inner, d) == inner;
    PushPop(cfg, BasicEnc);
    ClearIsInsensitive(inner, n.v);
    Refines(inner, n.v);
    AfterKeepsStack(inner, n.v);
    InnerStruct(inner, n);
    OuterDescribed(cfg, d, n);
    MisplacedIff(cfg, d, Struct([n]));
  }

  lemma OneFieldIsMisplaced(n: Named)
    ensures var w := Struct([n]); !NotPlain(w) && Core(w) == w && HasFields(w) && (Tame(BasicEnc, n.v) ==> FirstTame(w))
  {
    hide Tame;
  }

  lemma InnerStruct(inner: Config, n: Named)
    requires Top(inner) == BasicEnc && Run(inner, n.v).Ok? && Top(Run(inner, n.v).value.cfg) == BasicEnc
    ensures Run(inner, Struct([n])) == Ok(Step(Run(inner, n.v).value.out, Pop(Run(inner, n.v).value.cfg)))
  {
    hide RunScalar, RunSeq, RunAll, RunMap, RunTupleStruct, RunDescriptor, FieldSteps, WriteList, WriteMap;
    var s := Run(inner, n.v).value;
    var st := Struc(inner, [], [], 0);
    assert [n][1..] == [];
    assert NamedStep(st, n) == FieldStep(st, n.name, n.v);
    assert [] + s.out == s.out;
    assert NamedSteps(st, [n]) == NamedStep(st, n);
  }

  /** When the inner struct has popped, the described value ends like a plain struct with no body. */
  lemma OuterDescribed(cfg: Config, d: Descriptor, n: Named)
    requires cfg == Plain(NotElem) && RunDescriptor(Push(cfg, BasicEnc), d).Ok?
    requires RunDescriptor(Push(cfg, BasicEnc), d).value.cfg == Push(cfg, BasicEnc)
    requires Run(Push(cfg, BasicEnc), Struct([n])).Ok? && Run(Push(cfg, BasicEnc), Struct([n])).value.cfg.stack == []
    requires Run(Push(cfg, BasicEnc), Struct([n])).value.cfg.mode == NotElem
    ensures var v := Described(d, Struct([n]));
            && Run(cfg, v).Ok?
            && Run(cfg, v).value.out
            == RunDescriptor(Push(cfg, BasicEnc), d).value.out + Run(Push(cfg, BasicEnc), Struct([n])).value.out + [LIST0]
  {
    hide RunDescriptor;
    var h := RunDescriptor(Push(cfg, BasicEnc), d).value;
    var s := Run(Push(cfg, BasicEnc), Struct([n])).value;
    assert FieldStep(Struc(h.cfg, h.out, [], 0), [], Struct([n])) == Ok(Struc(s.cfg, h.out + s.out, [], 1));
  }
}
