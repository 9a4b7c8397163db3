/**
 The serializer as a function of its state. `Run(cfg, v)` is what `v.serialize(&mut se)` writes and
 how it leaves `se`, for any value and any state, including the flags that are left set.
 */
module Encoder {
  import opened Bytes
  import opened Utf8
  import opened FormatCodes
  import opened Values
  import opened Wire
  import opened Sizes
  import opened HeldBack

  datatype SeqType = ListSeq | ArraySeq

  /** The fields of `Serializer` besides the writer. */
  datatype Config = Config(
    nonNative: Option<NonNative>, seqType: SeqType, stack: seq<StructEncoding>, mode: Mode)

  /** What a call appended to the writer, and the state after it. */
  datatype Step = Step(out: bytes, cfg: Config)

  /** `Serializer::new`, `described_list` and `described_map`. */
  function Plain(mode: Mode): Config {
    Config(None, ListSeq, [], mode)
  }

  function Within(e: StructEncoding): Config {
    Config(None, ListSeq, [e], NotElem)
  }

  function Top(cfg: Config): StructEncoding {
    if cfg.stack == [] then NoEnc else cfg.stack[|cfg.stack| - 1]
  }

  function Push(cfg: Config, e: StructEncoding): Config {
    cfg.(stack := cfg.stack + [e])
  }

  function Pop(cfg: Config): Config {
    if cfg.stack == [] then cfg else cfg.(stack := cfg.stack[..|cfg.stack| - 1])
  }

  // ---- scalars ------------------------------------------------------------------------------

  /** `serialize_str`: a symbol when one was announced; the flag is cleared outside arrays only. */
  function RunStr(cfg: Config, x: str): Outcome<Step> {
    match cfg.nonNative
    case None =>
      if ScalarFits(cfg.mode, Str(x)) then Ok(Step(ScalarBytes(cfg.mode, Str(x)), cfg)) else Err(TooLong)
    case Some(NSymbol) =>
      if ScalarFits(cfg.mode, Sym(x)) then
        Ok(Step(ScalarBytes(cfg.mode, Sym(x)), if cfg.mode == NotElem then cfg.(nonNative := None) else cfg))
      else Err(TooLong)
    case _ => Panic
  }

  /** `serialize_i64`: a timestamp when one was announced; the flag stays set. */
  function RunI64(cfg: Config, i: i64): Outcome<Step> {
    match cfg.nonNative
    case None => Ok(Step(ScalarBytes(cfg.mode, I64(i)), cfg))
    case Some(NTimestamp) => Ok(Step(ScalarBytes(cfg.mode, Timestamp(i)), cfg))
    case _ => Panic
  }

  /** `serialize_bytes` */
  function RunBytes(cfg: Config, x: bytes): Outcome<Step> {
    match cfg.nonNative
    case None =>
      if ScalarFits(cfg.mode, Binary(x)) then Ok(Step(ScalarBytes(cfg.mode, Binary(x)), cfg)) else Err(TooLong)
    case Some(NDec32) => Ok(Step(Tagged(cfg.mode, DECIMAL32, x), cfg.(nonNative := None)))
    case Some(NDec64) => Ok(Step(Tagged(cfg.mode, DECIMAL64, x), cfg.(nonNative := None)))
    case Some(NDec128) => Ok(Step(Tagged(cfg.mode, DECIMAL128, x), cfg.(nonNative := None)))
    case Some(NUuid) => Ok(Step(Tagged(cfg.mode, UUID, x), cfg.(nonNative := None)))
    case Some(_) => Panic
  }

  function RunScalar(cfg: Config, s: Scalar): Outcome<Step> {
    match s
    case I64(i) => RunI64(cfg, i)
    case Timestamp(i) => RunI64(cfg.(nonNative := Some(NTimestamp)), i)
    case Str(x) => RunStr(cfg, x)
    case Sym(x) => RunStr(cfg.(nonNative := Some(NSymbol)), x)
    case Binary(x) => RunBytes(cfg, x)
    case Dec32(x) => RunBytes(cfg.(nonNative := Some(NDec32)), x)
    case Dec64(x) => RunBytes(cfg.(nonNative := Some(NDec64)), x)
    case Dec128(x) => RunBytes(cfg.(nonNative := Some(NDec128)), x)
    case Uuid(x) => RunBytes(cfg.(nonNative := Some(NUuid)), x)
    case _ => Ok(Step(ScalarBytes(cfg.mode, s), cfg))
  }

  /** A descriptor: the newtype variant that writes the described constructor first. */
  function RunDescriptor(cfg: Config, d: Descriptor): Outcome<Step> {
    var s :- RunScalar(cfg, DescriptorScalar(d));
    Ok(s.(out := [DESCRIBED] + s.out))
  }

  // ---- compound values ----------------------------------------------------------------------

  /** `StructSerializer`: what went straight to the writer, the buffered fields and their number. */
  datatype Struc = Struc(cfg: Config, out: bytes, buf: bytes, count: nat)

  function Run(cfg: Config, v: Val): Outcome<Step>
    decreases v, 1
  {
    match v
    case Prim(s) => RunScalar(cfg, s)
    case Unit => Ok(Step([NULL], cfg))
    case Nothing => Ok(Step([NULL], cfg))
    case Just(x) => Run(cfg, x)
    case List(vs) => RunSeq(cfg, vs)
    case Array(vs) => RunSeq(cfg.(seqType := ArraySeq), vs)
    case Tuple(vs) =>
      var buf :- RunAll(Plain(NotElem), vs);
      var out :- WriteList(cfg.mode, |vs|, buf);
      Ok(Step(out, cfg))
    case Map(es) => RunMap(cfg, es)
    case Described(d, x) =>
      var h :- RunDescriptor(Push(cfg, BasicEnc), d);
      var st :- FieldStep(Struc(h.cfg, h.out, [], 0), [], x);
      EndStruct(st)
    case Composite(d, fs) =>
      var h :- RunDescriptor(Push(cfg, ListEnc), d);
      var st :- FieldSteps(Struc(h.cfg, h.out, [], 0), fs, 0);
      EndStruct(st)
    case DescribedMap(d, ns) =>
      var h :- RunDescriptor(Push(cfg, MapEnc), d);
      var st :- NamedSteps(Struc(h.cfg, h.out, [], 0), ns);
      EndStruct(st)
    case UnitVariant(i) => RunScalar(cfg, U32(i))
    case NewtypeVariant(i, x) =>
      var _ :- Size(NotElem, NoEnc, x);
      var k :- RunScalar(Plain(NotElem), U32(i));
      var s :- Run(k.cfg, x);
      var out :- WriteMap(cfg.mode, 2, k.out + s.out);
      Ok(Step(out, cfg))
    case TupleVariant(i, vs) =>
      var buf :- RunAll(Plain(NotElem), vs);
      var k :- RunScalar(Plain(NotElem), U32(i));
      var l :- WriteList(cfg.mode, |vs|, buf);
      var out :- WriteMap(cfg.mode, 2, k.out + l);
      Ok(Step(out, cfg))
    case Struct(ns) =>
      var st :- NamedSteps(Struc(cfg, [], [], 0), ns);
      EndStruct(st)
    case TupleStruct(vs) => RunTupleStruct(cfg, vs)
  }

  /** `to_vec` */
  function Vec(v: Val): Outcome<bytes> {
    var s :- Run(Plain(NotElem), v);
    Ok(s.out)
  }

  /** `SeqSerializer`; the first element is sized to reserve the buffer. */
  function RunSeq(cfg: Config, vs: seq<Val>): Outcome<Step>
    decreases vs, 1
  {
    var _ :- if vs == [] then Ok(0) else Size(NotElem, NoEnc, vs[0]);
    if cfg.seqType == ListSeq then
      var buf :- RunAll(Plain(NotElem), vs);
      var out :- WriteList(cfg.mode, |vs|, buf);
      Ok(Step(out, cfg))
    else
      var buf :- RunElements(First, vs);
      var out :- WriteArray(cfg.mode, |vs|, buf);
      Ok(Step(out, cfg))
  }

  /** Each value on a serializer of its own, all writing to one buffer. */
  function RunAll(base: Config, vs: seq<Val>): Outcome<bytes>
    decreases vs, 0
  {
    if vs == [] then Ok([])
    else
      var s :- Run(base, vs[0]);
      var rest :- RunAll(base, vs[1..]);
      Ok(s.out + rest)
  }

  function RunElements(m: Mode, vs: seq<Val>): Outcome<bytes>
    decreases vs, 0
  {
    if vs == [] then Ok([])
    else
      var s :- Run(Plain(m), vs[0]);
      var rest :- RunElements(Other, vs[1..]);
      Ok(s.out + rest)
  }

  /** `MapSerializer` fed by `serialize_entry`; the first entry is sized to reserve the buffer. */
  function RunMap(cfg: Config, es: seq<Entry>): Outcome<Step>
    decreases es, 1
  {
    var _ :- if es == [] then Ok(0) else SizeEntry(es[0]);
    var buf :- RunEntries(es);
    var out :- WriteMap(cfg.mode, 2 * |es|, buf);
    Ok(Step(out, cfg))
  }

  /** A key and its value share one serializer. */
  function RunEntry(e: Entry): Outcome<bytes>
    decreases e, 0
  {
    var k :- Run(Plain(NotElem), e.key);
    var s :- Run(k.cfg, e.value);
    Ok(k.out + s.out)
  }

  function RunEntries(es: seq<Entry>): Outcome<bytes>
    decreases es, 0
  {
    if es == [] then Ok([])
    else
      var b :- RunEntry(es[0]);
      var rest :- RunEntries(es[1..]);
      Ok(b + rest)
  }

  /** `serialize_field` of a struct, by the innermost struct encoding. */
  function FieldStep(st: Struc, name: str, v: Val): Outcome<Struc>
    decreases v, 2
  {
    match Top(st.cfg)
    case NoEnc =>
      var s :- Run(Plain(st.cfg.mode), v);
      Ok(st.(buf := st.buf + s.out, count := st.count + 1))
    case BasicEnc =>
      var s :- Run(st.cfg, v);
      Ok(st.(cfg := s.cfg, out := st.out + s.out, count := st.count + 1))
    case ListEnc =>
      var s :- Run(Within(ListEnc), v);
      Ok(st.(buf := st.buf + s.out, count := st.count + 1))
    case MapEnc =>
      var k :- RunScalar(Within(MapEnc), Str(name));
      var s :- Run(k.cfg, v);
      Ok(st.(buf := st.buf + (k.out + s.out), count := st.count + 1))
  }

  function NamedStep(st: Struc, n: Named): Outcome<Struc>
    decreases n, 0
  {
    FieldStep(st, n.name, n.v)
  }

  function NamedSteps(st: Struc, ns: seq<Named>): Outcome<Struc>
    decreases ns, 0
  {
    if ns == [] then Ok(st)
    else
      var st1 :- NamedStep(st, ns[0]);
      NamedSteps(st1, ns[1..])
  }

  function NullSteps(st: Struc, nulls: nat): Struc {
    st.(buf := st.buf + Nulls(nulls), count := st.count + nulls)
  }

  /** The derived `serialize`: `buffer_if_none` and `buffer_if_eq_default`, field by field. */
  function FieldSteps(st: Struc, fs: seq<Field>, nulls: nat): Outcome<Struc>
    decreases fs, 0
  {
    if fs == [] then Ok(st)
    else if Skipped(fs[0]) then FieldSteps(st, fs[1..], nulls + 1)
    else
      var st1 :- CompositeStep(NullSteps(st, nulls), fs[0]);
      FieldSteps(st1, fs[1..], 0)
  }

  function CompositeStep(st: Struc, f: Field): Outcome<Struc>
    decreases f, 0
  {
    FieldStep(st, [], f.v)
  }

  /** `StructSerializer::end` pops the innermost struct encoding, whoever pushed it. */
  function EndStruct(st: Struc): Outcome<Step> {
    match Top(st.cfg)
    case NoEnc =>
      var out :- WriteList(st.cfg.mode, st.count, st.buf);
      Ok(Step(st.out + out, st.cfg))
    case BasicEnc => Ok(Step(st.out, Pop(st.cfg)))
    case ListEnc =>
      var out :- WriteList(st.cfg.mode, st.count, st.buf);
      Ok(Step(st.out + out, Pop(st.cfg)))
    case MapEnc =>
      var out :- WriteMap(st.cfg.mode, 2 * st.count, st.buf);
      Ok(Step(st.out + out, Pop(st.cfg)))
  }

  /** `TupleStructSerializer` without a special name. */
  function RunTupleStruct(cfg: Config, vs: seq<Val>): Outcome<Step>
    decreases vs, 1
  {
    match Top(cfg)
    case NoEnc =>
      var buf :- RunAll(Plain(cfg.mode), vs);
      var out :- WriteList(NotElem, |vs|, buf);
      Ok(Step(out, cfg))
    case BasicEnc =>
      var buf :- RunAll(Plain(cfg.mode), vs);
      Ok(Step(buf, Pop(cfg)))
    case ListEnc =>
      var buf :- RunAll(Within(ListEnc), vs);
      var out :- WriteList(NotElem, |vs|, buf);
      Ok(Step(out, Pop(cfg)))
    case MapEnc => Panic
  }
}
