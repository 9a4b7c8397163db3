/**
 The serializer as the object it is: a writer, the flags, the stack of struct encodings. Nested
 values are written by serializers over a local buffer. Every method is proved to do what `Encoder`
 says.
 */
module Serializers {
  import opened Bytes
  import opened Utf8
  import opened FormatCodes
  import opened Values
  import opened Wire
  import opened Sizes
  import opened HeldBack
  import opened Encoder

  class Serializer {
    var writer: bytes
    var nonNative: Option<NonNative>
    var seqType: SeqType
    var stack: seq<StructEncoding>
    const mode: Mode

    constructor (w: bytes, cfg: Config)
      ensures writer == w && Cfg() == cfg
    {
      writer, nonNative, seqType, stack, mode := w, cfg.nonNative, cfg.seqType, cfg.stack, cfg.mode;
    }

    ghost function Cfg(): Config
      reads this
    {
      Config(nonNative, seqType, stack, mode)
    }

    /** The call succeeded with `o`'s output after `before`, or failed as `o` does. */
    ghost predicate Did(o: Outcome<Step>, before: bytes, r: Outcome<()>)
      reads this
    {
      match o
      case Ok(s) => r == Ok(()) && writer == before + s.out && Cfg() == s.cfg
      case Err(e) => r == Err(e)
      case Panic => r == Panic
    }

    method Write(b: bytes)
      modifies this`writer
      ensures writer == old(writer) + b
    {
      writer := writer + b;
    }

    method SerializeStr(x: str) returns (r: Outcome<()>)
      modifies this
      ensures Did(RunStr(old(Cfg()), x), old(writer), r)
    {
      hide ScalarBytes;
      if nonNative == None {
        if !ScalarFits(mode, Str(x)) { return Err(TooLong); }
        Write(ScalarBytes(mode, Str(x)));
      } else if nonNative == Some(NSymbol) {
        if !ScalarFits(mode, Sym(x)) { return Err(TooLong); }
        Write(ScalarBytes(mode, Sym(x)));
        if mode == NotElem { nonNative := None; }
      } else {
        return Panic;
      }
      return Ok(());
    }

    method SerializeI64(i: i64) returns (r: Outcome<()>)
      modifies this
      ensures Did(RunI64(old(Cfg()), i), old(writer), r)
    {
      hide ScalarBytes;
      if nonNative == None {
        Write(ScalarBytes(mode, I64(i)));
      } else if nonNative == Some(NTimestamp) {
        Write(ScalarBytes(mode, Timestamp(i)));
      } else {
        return Panic;
      }
      return Ok(());
    }

    method SerializeBytes(x: bytes) returns (r: Outcome<()>)
      modifies this
      ensures Did(RunBytes(old(Cfg()), x), old(writer), r)
    {
      hide ScalarBytes;
      if nonNative == None {
        if !ScalarFits(mode, Binary(x)) { return Err(TooLong); }
        Write(ScalarBytes(mode, Binary(x)));
      } else {
        var n := nonNative.value;
        if n == NTimestamp || n == NSymbol { return Panic; }
        var code := if n == NDec32 then DECIMAL32 else if n == NDec64 then DECIMAL64
                    else if n == NDec128 then DECIMAL128 else UUID;
        Write(Tagged(mode, code, x));
        nonNative := None;
      }
      return Ok(());
    }

    /** The scalar calls of serde; the newtypes announce themselves before they forward. */
    method SerializeScalar(s: Scalar) returns (r: Outcome<()>)
      modifies this
      ensures Did(RunScalar(old(Cfg()), s), old(writer), r)
    {
      hide RunStr, RunI64, RunBytes, ScalarBytes;
      match s
      case I64(i) => r := SerializeI64(i);
      case Timestamp(i) => nonNative := Some(NTimestamp); r := SerializeI64(i);
      case Str(x) => r := SerializeStr(x);
      case Sym(x) => nonNative := Some(NSymbol); r := SerializeStr(x);
      case Binary(x) => r := SerializeBytes(x);
      case Dec32(x) => nonNative := Some(NDec32); r := SerializeBytes(x);
      case Dec64(x) => nonNative := Some(NDec64); r := SerializeBytes(x);
      case Dec128(x) => nonNative := Some(NDec128); r := SerializeBytes(x);
      case Uuid(x) => nonNative := Some(NUuid); r := SerializeBytes(x);
      case _ => Write(ScalarBytes(mode, s)); r := Ok(());
    }

    method SerializeDescriptor(d: Descriptor) returns (r: Outcome<()>)
      modifies this
      ensures Did(RunDescriptor(old(Cfg()), d), old(writer), r)
    {
      hide RunScalar;
      Write([DESCRIBED]);
      r := SerializeScalar(DescriptorScalar(d));
    }

    /** Writes a header and its buffer, or fails. */
    method Finish(o: Outcome<bytes>) returns (r: Outcome<()>)
      modifies this`writer
      ensures o.Ok? ==> r == Ok(()) && writer == old(writer) + o.value
      ensures !o.Ok? ==> r == o.PropagateFailure<()>()
    {
      if !o.Ok? { return o.PropagateFailure<()>(); }
      Write(o.value);
      return Ok(());
    }

    method Serialize(v: Val) returns (r: Outcome<()>)
      modifies this
      ensures Did(Run(old(Cfg()), v), old(writer), r)
      decreases v, 1
    {
      hide RunScalar, RunDescriptor, WriteList, WriteMap, WriteArray, Size;
      match v
      case Prim(s) => r := SerializeScalar(s);
      case Unit => Write([NULL]); r := Ok(());
      case Nothing => Write([NULL]); r := Ok(());
      case Just(x) => r := Serialize(x);
      case List(vs) => r := SerializeSeq(vs);
      case Array(vs) => seqType := ArraySeq; r := SerializeSeq(vs);
      case Tuple(vs) =>
        var buf :- SerializeAll(Plain(NotElem), vs);
        r := Finish(WriteList(mode, |vs|, buf));
      case Map(es) => r := SerializeMap(es);
      case Described(d, x) => r := SerializeDescribed(d, x);
      case Composite(d, fs) => r := SerializeComposite(d, fs);
      case DescribedMap(d, ns) => r := SerializeDescribedMap(d, ns);
      case UnitVariant(i) => r := SerializeScalar(U32(i));
      case NewtypeVariant(i, x) => r := SerializeNewtypeVariant(i, x);
      case TupleVariant(i, vs) => r := SerializeTupleVariant(i, vs);
      case Struct(ns) => r := SerializeStruct(ns);
      case TupleStruct(vs) => r := SerializeTupleStruct(vs);
    }

    /** One buffer, and a fresh serializer over it for every value. */
    method SerializeAll(base: Config, vs: seq<Val>) returns (r: Outcome<bytes>)
      ensures r == RunAll(base, vs)
      decreases vs, 0
    {
      hide Run;
      var buf: bytes := [];
      var i := 0;
      PrependNothing(RunAll(base, vs));
      assert vs[0..] == vs;
      while i < |vs|
        invariant 0 <= i <= |vs|
        invariant RunAll(base, vs) == Prepend(buf, RunAll(base, vs[i..]))
      {
        assert vs[i..][1..] == vs[i + 1..];
        var se := new Serializer(buf, base);
        var o := se.Serialize(vs[i]);
        if !o.Ok? { return o.PropagateFailure<bytes>(); }
        PrependAssoc(buf, Run(base, vs[i]).value.out, RunAll(base, vs[i + 1..]));
        buf := se.writer;
        i := i + 1;
      }
      assert buf + [] == buf;
      return Ok(buf);
    }

    /** `SeqSerializer`: `num` elements so far; only the first carries a constructor in an array. */
    method SerializeSeq(vs: seq<Val>) returns (r: Outcome<()>)
      modifies this`writer
      ensures Did(RunSeq(old(Cfg()), vs), old(writer), r)
      decreases vs, 1
    {
      hide Size, RunAll, RunElements, WriteList, WriteArray;
      if vs != [] {
        var size := Size(NotElem, NoEnc, vs[0]);
        if !size.Ok? { return size.PropagateFailure<()>(); }
      }
      if seqType == ListSeq {
        var buf :- SerializeAll(Plain(NotElem), vs);
        r := Finish(WriteList(mode, |vs|, buf));
      } else {
        var buf :- SerializeElements(vs);
        r := Finish(WriteArray(mode, |vs|, buf));
      }
    }

    method SerializeElements(vs: seq<Val>) returns (r: Outcome<bytes>)
      ensures r == RunElements(First, vs)
      decreases vs, 0
    {
      hide Run;
      var buf: bytes := [];
      var num := 0;
      PrependNothing(RunElements(First, vs));
      assert vs[0..] == vs;
      while num < |vs|
        invariant 0 <= num <= |vs|
        invariant RunElements(First, vs) == Prepend(buf, RunElements(if num == 0 then First else Other, vs[num..]))
      {
        assert vs[num..][1..] == vs[num + 1..];
        var m := if num == 0 then First else Other;
        var se := new Serializer(buf, Plain(m));
        var o := se.Serialize(vs[num]);
        if !o.Ok? { return o.PropagateFailure<bytes>(); }
        PrependAssoc(buf, Run(Plain(m), vs[num]).value.out, RunElements(Other, vs[num + 1..]));
        buf := se.writer;
        num := num + 1;
      }
      assert buf + [] == buf;
      return Ok(buf);
    }

    /** `serialize_entry`, entry by entry: one serializer for a key and its value. */
    method SerializeMap(es: seq<Entry>) returns (r: Outcome<()>)
      modifies this`writer
      ensures Did(RunMap(old(Cfg()), es), old(writer), r)
      decreases es, 1
    {
      hide SizeEntry, RunEntry, WriteMap;
      if es != [] {
        var size := SizeEntry(es[0]);
        if !size.Ok? { return size.PropagateFailure<()>(); }
      }
      var buf: bytes := [];
      var i := 0;
      PrependNothing(RunEntries(es));
      assert es[0..] == es;
      while i < |es|
        invariant 0 <= i <= |es|
        invariant RunEntries(es) == Prepend(buf, RunEntries(es[i..])) && writer == old(writer)
      {
        assert es[i..][1..] == es[i + 1..];
        var o, b := SerializeEntry(es[i], buf);
        if !o.Ok? { return o; }
        PrependAssoc(buf, RunEntry(es[i]).value, RunEntries(es[i + 1..]));
        buf := b;
        i := i + 1;
      }
      assert es[i..] == [] && buf + [] == buf;
      assert RunEntries(es) == Ok(buf);
      r := Finish(WriteMap(mode, 2 * |es|, buf));
    }

    method SerializeEntry(e: Entry, buf: bytes) returns (r: Outcome<()>, b: bytes)
      ensures RunEntry(e).Ok? ==> r == Ok(()) && b == buf + RunEntry(e).value
      ensures !RunEntry(e).Ok? ==> r == RunEntry(e).PropagateFailure<()>()
      decreases e, 0
    {
      var se := new Serializer(buf, Plain(NotElem));
      b := buf;
      r := se.Serialize(e.key);
      if r.Ok? {
        r := se.Serialize(e.value);
        b := se.writer;
      }
    }

    // ---- structs ----------------------------------------------------------------------------

    /** The writer holds `out` past `base`, and the struct serializer is in state `st`. */
    ghost predicate At(base: bytes, st: Struc, buf: bytes, count: nat)
      reads this
    {
      writer == base + st.out && Cfg() == st.cfg && buf == st.buf && count == st.count
    }

    method SerializeField(name: str, v: Val, buf: bytes, count: nat, ghost base: bytes, ghost st: Struc)
      returns (r: Outcome<()>, buf1: bytes, count1: nat)
      requires At(base, st, buf, count)
      modifies this
      ensures FieldStep(st, name, v).Ok? ==> r == Ok(()) && At(base, FieldStep(st, name, v).value, buf1, count1)
      ensures !FieldStep(st, name, v).Ok? ==> r == FieldStep(st, name, v).PropagateFailure<()>()
      decreases v, 2
    {
      hide Run, RunScalar;
      buf1, count1 := buf, count + 1;
      var top := if stack == [] then NoEnc else stack[|stack| - 1];
      if top == BasicEnc {
        r := Serialize(v);
      } else {
        var se := new Serializer(buf, if top == NoEnc then Plain(mode) else Within(top));
        if top == MapEnc {
          r := se.SerializeScalar(Str(name));
          if !r.Ok? { return; }
        }
        r := se.Serialize(v);
        buf1 := se.writer;
      }
    }

    method SerializeNamed(ns: seq<Named>, ghost base: bytes, ghost st0: Struc)
      returns (r: Outcome<()>, buf: bytes, count: nat)
      requires At(base, st0, [], 0)
      modifies this
      ensures NamedSteps(st0, ns).Ok? ==> r == Ok(()) && At(base, NamedSteps(st0, ns).value, buf, count)
      ensures !NamedSteps(st0, ns).Ok? ==> r == NamedSteps(st0, ns).PropagateFailure<()>()
      decreases ns, 0
    {
      hide Run, FieldStep;
      buf, count := [], 0;
      ghost var st := st0;
      var i := 0;
      while i < |ns|
        invariant 0 <= i <= |ns|
        invariant At(base, st, buf, count)
        invariant NamedSteps(st0, ns) == NamedSteps(st, ns[i..])
      {
        assert ns[i..][1..] == ns[i + 1..];
        assert NamedStep(st, ns[i]) == FieldStep(st, ns[i].name, ns[i].v);
        r, buf, count := SerializeNamedField(ns[i], buf, count, base, st);
        if !r.Ok? { return; }
        st := NamedStep(st, ns[i]).value;
        i := i + 1;
      }
      r := Ok(());
    }

    method SerializeNamedField(n: Named, buf: bytes, count: nat, ghost base: bytes, ghost st: Struc)
      returns (r: Outcome<()>, buf1: bytes, count1: nat)
      requires At(base, st, buf, count)
      modifies this
      ensures NamedStep(st, n).Ok? ==> r == Ok(()) && At(base, NamedStep(st, n).value, buf1, count1)
      ensures !NamedStep(st, n).Ok? ==> r == NamedStep(st, n).PropagateFailure<()>()
      decreases n, 0
    {
      hide FieldStep;
      r, buf1, count1 := SerializeField(n.name, n.v, buf, count, base, st);
    }

    /** The derived `serialize`: `nulls` counts the fields held back since the last one written. */
    method SerializeFields(fs: seq<Field>, ghost base: bytes, ghost st0: Struc)
      returns (r: Outcome<()>, buf: bytes, count: nat)
      requires At(base, st0, [], 0)
      modifies this
      ensures FieldSteps(st0, fs, 0).Ok? ==> r == Ok(()) && At(base, FieldSteps(st0, fs, 0).value, buf, count)
      ensures !FieldSteps(st0, fs, 0).Ok? ==> r == FieldSteps(st0, fs, 0).PropagateFailure<()>()
      decreases fs, 0
    {
      hide Run, FieldStep, Skipped;
      buf, count := [], 0;
      ghost var st := st0;
      var i, nulls := 0, 0;
      while i < |fs|
        invariant 0 <= i <= |fs|
        invariant At(base, st, buf, count)
        invariant FieldSteps(st0, fs, 0) == FieldSteps(st, fs[i..], nulls)
      {
        assert fs[i..][1..] == fs[i + 1..];
        if Skipped(fs[i]) {
          nulls := nulls + 1;
        } else {
          buf, count := buf + Nulls(nulls), count + nulls;
          st := NullSteps(st, nulls);
          nulls := 0;
          r, buf, count := SerializeOneField(fs[i], buf, count, base, st);
          if !r.Ok? { return; }
          st := CompositeStep(st, fs[i]).value;
        }
        i := i + 1;
      }
      r := Ok(());
    }

    method SerializeOneField(f: Field, buf: bytes, count: nat, ghost base: bytes, ghost st: Struc)
      returns (r: Outcome<()>, buf1: bytes, count1: nat)
      requires At(base, st, buf, count)
      modifies this
      ensures CompositeStep(st, f).Ok? ==> r == Ok(()) && At(base, CompositeStep(st, f).value, buf1, count1)
      ensures !CompositeStep(st, f).Ok? ==> r == CompositeStep(st, f).PropagateFailure<()>()
      decreases f, 0
    {
      hide FieldStep;
      r, buf1, count1 := SerializeField([], f.v, buf, count, base, st);
    }

    /** `StructSerializer::end` */
    method End(buf: bytes, count: nat, ghost base: bytes, ghost st: Struc) returns (r: Outcome<()>)
      requires At(base, st, buf, count)
      modifies this
      ensures Did(EndStruct(st), base, r)
    {
      hide WriteList, WriteMap;
      var top := if stack == [] then NoEnc else stack[|stack| - 1];
      if top != NoEnc { stack := stack[..|stack| - 1]; }
      if top == NoEnc || top == ListEnc {
        r := Finish(WriteList(mode, count, buf));
      } else if top == MapEnc {
        r := Finish(WriteMap(mode, 2 * count, buf));
      } else {
        r := Ok(());
      }
    }

    method SerializeDescribed(d: Descriptor, x: Val) returns (r: Outcome<()>)
      modifies this
      ensures Did(Run(old(Cfg()), Described(d, x)), old(writer), r)
      decreases x, 3
    {
      hide RunDescriptor, FieldStep, EndStruct;
      ghost var base := writer;
      ghost var cfg := Push(Cfg(), BasicEnc);
      stack := stack + [BasicEnc];
      r := SerializeDescriptor(d);
      if !r.Ok? { return; }
      ghost var st := Struc(RunDescriptor(cfg, d).value.cfg, RunDescriptor(cfg, d).value.out, [], 0);
      var buf, count;
      r, buf, count := SerializeField([], x, [], 0, base, st);
      if !r.Ok? { return; }
      r := End(buf, count, base, FieldStep(st, [], x).value);
    }

    method SerializeComposite(d: Descriptor, fs: seq<Field>) returns (r: Outcome<()>)
      modifies this
      ensures Did(Run(old(Cfg()), Composite(d, fs)), old(writer), r)
      decreases fs, 1
    {
      hide RunDescriptor, FieldSteps, EndStruct;
      ghost var base := writer;
      ghost var cfg := Push(Cfg(), ListEnc);
      stack := stack + [ListEnc];
      r := SerializeDescriptor(d);
      if !r.Ok? { return; }
      ghost var st := Struc(RunDescriptor(cfg, d).value.cfg, RunDescriptor(cfg, d).value.out, [], 0);
      var buf, count;
      r, buf, count := SerializeFields(fs, base, st);
      if !r.Ok? { return; }
      r := End(buf, count, base, FieldSteps(st, fs, 0).value);
    }

    method SerializeDescribedMap(d: Descriptor, ns: seq<Named>) returns (r: Outcome<()>)
      modifies this
      ensures Did(Run(old(Cfg()), DescribedMap(d, ns)), old(writer), r)
      decreases ns, 1
    {
      hide RunDescriptor, NamedSteps, EndStruct;
      ghost var base := writer;
      ghost var cfg := Push(Cfg(), MapEnc);
      stack := stack + [MapEnc];
      r := SerializeDescriptor(d);
      if !r.Ok? { return; }
      ghost var st := Struc(RunDescriptor(cfg, d).value.cfg, RunDescriptor(cfg, d).value.out, [], 0);
      var buf, count;
      r, buf, count := SerializeNamed(ns, base, st);
      if !r.Ok? { return; }
      r := End(buf, count, base, NamedSteps(st, ns).value);
    }

    method SerializeStruct(ns: seq<Named>) returns (r: Outcome<()>)
      modifies this
      ensures Did(Run(old(Cfg()), Struct(ns)), old(writer), r)
      decreases ns, 1
    {
      hide NamedSteps, EndStruct;
      ghost var st := Struc(Cfg(), [], [], 0);
      ghost var base := writer;
      var buf, count;
      r, buf, count := SerializeNamed(ns, base, st);
      if !r.Ok? { return; }
      r := End(buf, count, base, NamedSteps(st, ns).value);
    }

    method SerializeTupleStruct(vs: seq<Val>) returns (r: Outcome<()>)
      modifies this
      ensures Did(RunTupleStruct(old(Cfg()), vs), old(writer), r)
      decreases vs, 1
    {
      hide RunAll, WriteList;
      var top := if stack == [] then NoEnc else stack[|stack| - 1];
      if top == MapEnc { return Panic; }
      var buf :- SerializeAll(if top == ListEnc then Within(ListEnc) else Plain(mode), vs);
      if top != NoEnc { stack := stack[..|stack| - 1]; }
      if top == BasicEnc {
        Write(buf);
        r := Ok(());
      } else {
        r := Finish(WriteList(NotElem, |vs|, buf));
      }
    }

    // ---- variants ---------------------------------------------------------------------------

    method SerializeNewtypeVariant(i: u32, x: Val) returns (r: Outcome<()>)
      modifies this
      ensures Did(Run(old(Cfg()), NewtypeVariant(i, x)), old(writer), r)
      decreases x, 3
    {
      hide RunScalar, WriteMap, Size;
      var size := Size(NotElem, NoEnc, x);
      if !size.Ok? { return size.PropagateFailure<()>(); }
      var se := new Serializer([], Plain(NotElem));
      r := se.SerializeScalar(U32(i));
      if !r.Ok? { return; }
      assert se.writer == RunScalar(Plain(NotElem), U32(i)).value.out;
      r := se.Serialize(x);
      if !r.Ok? { return; }
      r := Finish(WriteMap(mode, 2, se.writer));
    }

    method SerializeTupleVariant(i: u32, vs: seq<Val>) returns (r: Outcome<()>)
      modifies this
      ensures Did(Run(old(Cfg()), TupleVariant(i, vs)), old(writer), r)
      decreases vs, 1
    {
      hide RunScalar, WriteMap, WriteList, RunAll;
      var buf :- SerializeAll(Plain(NotElem), vs);
      var se := new Serializer([], Plain(NotElem));
      r := se.SerializeScalar(U32(i));
      if !r.Ok? { return; }
      assert se.writer == RunScalar(Plain(NotElem), U32(i)).value.out;
      r := se.Finish(WriteList(mode, |vs|, buf));
      if !r.Ok? { return; }
      r := Finish(WriteMap(mode, 2, se.writer));
    }
  }

  function Prepend(b: bytes, o: Outcome<bytes>): Outcome<bytes> {
    if o.Ok? then Ok(b + o.value) else o
  }

  lemma PrependNothing(o: Outcome<bytes>)
    ensures Prepend([], o) == o
  {
    if o.Ok? { assert [] + o.value == o.value; }
  }

  lemma PrependAssoc(a: bytes, b: bytes, o: Outcome<bytes>)
    ensures Prepend(a, Prepend(b, o)) == Prepend(a + b, o)
  {
    if o.Ok? { assert a + (b + o.value) == a + b + o.value; }
  }

  /** `to_vec` */
  method ToVec(v: Val) returns (r: Outcome<bytes>)
    ensures r == Vec(v)
  {
    hide Run;
    var se := new Serializer([], Plain(NotElem));
    var o := se.Serialize(v);
    if !o.Ok? { return o.PropagateFailure<bytes>(); }
    assert [] + Run(Plain(NotElem), v).value.out == Run(Plain(NotElem), v).value.out;
    return Ok(se.writer);
  }
}
