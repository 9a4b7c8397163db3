/**
 The values the encoder writes independently of its state, and the state it leaves behind.
 */
module Tameness {
  import opened Bytes
  import opened Values
  import opened Wire
  import opened Sizes
  import opened Encoder

  /**
   A value that the struct encodings are meant for: arrays hold scalars, no plain struct stands
   directly inside a described value, no tuple struct inside a described map, and no map key leaves
   a flag behind that its value reads.
   */
  predicate Tame(top: StructEncoding, v: Val)
    decreases v, 1
  {
    match v
    case Prim(_) => true
    case Unit => true
    case Nothing => true
    case UnitVariant(_) => true
    case Just(x) => Tame(top, x)
    case List(vs) => AllTame(NoEnc, vs)
    case Tuple(vs) => AllTame(NoEnc, vs)
    case Array(vs) => forall i :: 0 <= i < |vs| ==> vs[i].Prim?
    case Map(es) => forall i :: 0 <= i < |es| ==> EntryTame(es[i])
    case Described(_, x) => Tame(BasicEnc, x)
    case Composite(_, fs) => forall i :: 0 <= i < |fs| ==> FieldTame(fs[i])
    case DescribedMap(_, ns) => AllNamedTame(MapEnc, ns)
    case NewtypeVariant(_, x) => Tame(NoEnc, x)
    case TupleVariant(_, vs) => AllTame(NoEnc, vs)
    case Struct(ns) => top != BasicEnc && AllNamedTame(top, ns)
    case TupleStruct(vs) => (top == NoEnc || top == ListEnc) && AllTame(top, vs)
  }

  predicate AllTame(top: StructEncoding, vs: seq<Val>)
    decreases vs, 0
  {
    forall i :: 0 <= i < |vs| ==> Tame(top, vs[i])
  }

  predicate EntryTame(e: Entry)
    decreases e, 0
  {
    Tame(NoEnc, e.key) && Tame(NoEnc, e.value) && !Sensitive(After(Plain(NotElem), e.key), e.value)
  }

  predicate FieldTame(f: Field)
    decreases f, 0
  {
    Skipped(f) || Tame(ListEnc, f.v)
  }

  predicate AllNamedTame(top: StructEncoding, ns: seq<Named>)
    decreases ns, 0
  {
    forall i :: 0 <= i < |ns| ==> NamedTame(top, ns[i])
  }

  predicate NamedTame(top: StructEncoding, n: Named)
    decreases n, 0
  {
    Tame(top, n.v)
  }

  /** The state after `v`: a timestamp and an array leave their flag set, a plain struct pops. */
  function After(cfg: Config, v: Val): Config
    decreases v
  {
    match v
    case Prim(s) =>
      if s.Timestamp? then cfg.(nonNative := Some(NTimestamp))
      else if s.Sym? || s.Dec32? || s.Dec64? || s.Dec128? || s.Uuid? then cfg.(nonNative := None)
      else cfg
    case Array(_) => cfg.(seqType := ArraySeq)
    case Just(x) => After(cfg, x)
    case Described(d, x) => After(AfterDescriptor(cfg, d), x)
    case Composite(d, _) => AfterDescriptor(cfg, d)
    case DescribedMap(d, _) => AfterDescriptor(cfg, d)
    case Struct(_) => if Top(cfg) == NoEnc then cfg else Pop(cfg)
    case TupleStruct(_) => if Top(cfg) == NoEnc then cfg else Pop(cfg)
    case _ => cfg
  }

  function AfterDescriptor(cfg: Config, d: Descriptor): Config {
    if d.Name? then cfg.(nonNative := None) else cfg
  }

  /** `v` is written differently in state `cfg` than from clear flags. */
  predicate Sensitive(cfg: Config, v: Val)
    decreases v
  {
    match v
    case Prim(s) => (s.I64? || s.Str? || s.Binary?) && cfg.nonNative.Some?
    case List(_) => cfg.seqType == ArraySeq
    case Just(x) => Sensitive(cfg, x)
    case Described(d, x) => Sensitive(AfterDescriptor(cfg, d), x)
    case _ => false
  }

  /** The sizes that are taken to reserve buffers do not fail either. */
  predicate Reserves(v: Val)
    decreases v, 1
  {
    match v
    case Just(x) => Reserves(x)
    case List(vs) => (vs == [] || Size(NotElem, NoEnc, vs[0]).Ok?) && AllReserve(vs)
    case Array(vs) => vs == [] || Size(NotElem, NoEnc, vs[0]).Ok?
    case Tuple(vs) => AllReserve(vs)
    case Map(es) => (es == [] || SizeEntry(es[0]).Ok?) && forall i :: 0 <= i < |es| ==> EntryReserves(es[i])
    case Described(_, x) => Reserves(x)
    case Composite(_, fs) => forall i :: 0 <= i < |fs| ==> FieldReserves(fs[i])
    case DescribedMap(_, ns) => AllNamedReserve(ns)
    case NewtypeVariant(_, x) => Size(NotElem, NoEnc, x).Ok? && Reserves(x)
    case TupleVariant(_, vs) => AllReserve(vs)
    case Struct(ns) => AllNamedReserve(ns)
    case TupleStruct(vs) => AllReserve(vs)
    case _ => true
  }

  predicate AllReserve(vs: seq<Val>)
    decreases vs, 0
  {
    forall i :: 0 <= i < |vs| ==> Reserves(vs[i])
  }

  predicate EntryReserves(e: Entry)
    decreases e, 0
  {
    Reserves(e.key) && Reserves(e.value)
  }

  predicate FieldReserves(f: Field)
    decreases f, 0
  {
    Skipped(f) || Reserves(f.v)
  }

  predicate AllNamedReserve(ns: seq<Named>)
    decreases ns, 0
  {
    forall i :: 0 <= i < |ns| ==> NamedReserves(ns[i])
  }

  predicate NamedReserves(n: Named)
    decreases n, 0
  {
    Reserves(n.v)
  }

  /** What the encoder accepts. */
  predicate Accepts(inMap: bool, v: Val) {
    Fits(inMap, v) && Reserves(v)
  }

  predicate FieldsReserve(fs: seq<Field>) {
    forall i :: 0 <= i < |fs| ==> FieldReserves(fs[i])
  }

  predicate FieldsTame(fs: seq<Field>) {
    forall i :: 0 <= i < |fs| ==> FieldTame(fs[i])
  }

  // ---- tameness under other struct encodings ------------------------------------------------

  lemma {:induction false} BasicTameIsTame(top: StructEncoding, v: Val)
    requires Tame(BasicEnc, v)
    ensures Tame(top, v)
    decreases v
  {
    hide Sensitive, After;
    if v.Just? { BasicTameIsTame(top, v.v); }
  }

  lemma {:induction false} ListTameIsTame(v: Val)
    requires Tame(ListEnc, v)
    ensures Tame(NoEnc, v)
    decreases v, 1
  {
    hide Sensitive, After;
    match v
    case Just(x) => ListTameIsTame(x);
    case Struct(ns) =>
      forall i | 0 <= i < |ns| ensures NamedTame(NoEnc, ns[i]) { NamedListTameIsTame(ns[i]); }
    case TupleStruct(vs) =>
      assert AllTame(ListEnc, vs);
      forall i | 0 <= i < |vs| ensures Tame(NoEnc, vs[i]) { ListTameIsTame(vs[i]); }
    case _ =>
  }

  lemma {:induction false} NamedListTameIsTame(n: Named)
    requires NamedTame(ListEnc, n)
    ensures NamedTame(NoEnc, n)
    decreases n, 0
  {
    ListTameIsTame(n.v);
  }
}
