/**
 Looking ahead at descriptors: peeking agrees with consuming, and a transparent vector, which has no
 header of its own, is split off by the descriptors of its elements.
 */
module Transparent {
  import opened Bytes
  import opened Utf8
  import opened FormatCodes
  import opened Values
  import opened Wire
  import opened Decoder
  import opened Modes
  import opened Scalars
  import opened RoundTrip
  import opened Headers
  import opened Lazy
  import D = Deserializers

  // ---- peeking ------------------------------------------------------------------------------

  lemma PeekNameAgrees(d: State)
    requires |d.rest| >= 2 && d.rest[0] == DESCRIBED && d.elem == None
    requires d.rest[1] == SYM8 || d.rest[1] == SYM32
    ensures var o, p := DecodeSymbol(d.(rest := d.rest[1..], enumType := ENone)), PeekDescriptor(d.rest);
            (o.Ok? <==> p.Ok?) && (o.Ok? ==> p.value == Name(o.value.0))
  {
    hide Valid, FromBE;
    var input := d.rest;
    var tail := input[1..][1..];
    assert tail == input[2..];
    if input[1] == SYM8 {
      if |input| >= 3 {
        OneOctet(input[2]);
        var l := input[2];
        assert tail[..1] == [l];
        if |input| - 3 >= l { assert tail[1..][..l] == input[3..3 + l]; }
      }
    } else if |input| >= 6 {
      assert tail[..4] == input[2..6];
      var l := FromBE(input[2..6]);
      if |input| >= 6 + l { assert tail[4..][..l] == input[6..6 + l]; }
    }
  }

  lemma PeekCodeAgrees(d: State)
    requires |d.rest| >= 2 && d.rest[0] == DESCRIBED && d.elem == None
    requires d.rest[1] == ULONG || d.rest[1] == SMALL_ULONG || d.rest[1] == ULONG0
    ensures var o, p := ParseU64(d.(rest := d.rest[1..], enumType := ENone)), PeekDescriptor(d.rest);
            (o.Ok? <==> p.Ok?) && (o.Ok? ==> p.value == Code(o.value.0.u64))
  {
    hide FromBE;
    var tail := d.rest[1..][1..];
    assert tail == d.rest[2..];
    if |d.rest| >= 10 { assert tail[..8] == d.rest[2..10]; }
  }

  /**
   On every input that starts a described value: peeking succeeds exactly when consuming does, with
   the same descriptor, and leaves the state as it was.
   */
  lemma PeekAgrees(d: State)
    requires d.rest != [] && d.rest[0] == DESCRIBED && d.elem == None && d.enumType == ENone
    ensures PeekDescriptor(d.rest).Ok? <==> DecodeDescriptor(d).Ok?
    ensures DecodeDescriptor(d).Ok? ==> DecodeDescriptor(d).value.0 == PeekDescriptor(d.rest).value
    ensures PeekDescriptor(d.rest).Ok? ==> DecodeIdent(d) == Ok((IdentOf(PeekDescriptor(d.rest).value), d))
  {
    hide DecodeSymbol, ParseU64, PeekDescriptor;
    PeekNeedsCode(d.rest);
    if |d.rest| >= 2 {
      var c := d.rest[1];
      if c == SYM8 || c == SYM32 {
        PeekNameAgrees(d);
      } else if c == ULONG || c == SMALL_ULONG || c == ULONG0 {
        PeekCodeAgrees(d);
      }
    }
  }

  lemma PeekNeedsCode(input: bytes)
    ensures PeekDescriptor(input).Ok? ==>
              |input| >= 2 && (input[1] == SYM8 || input[1] == SYM32 || input[1] == ULONG || input[1] == SMALL_ULONG || input[1] == ULONG0)
  {
    hide FromBE, Valid;
  }

  /** In front of an encoded descriptor, peeking gives that descriptor. */
  lemma PeekFront(x: Descriptor, r: bytes)
    requires ScalarFits(NotElem, DescriptorScalar(x))
    ensures PeekDescriptor(DescriptorBytes(NotElem, x) + r) == Ok(x)
  {
    hide PeekDescriptor, DecodeDescriptor, ScalarFits, DecodeIdent, ScalarBytes;
    var d := Fresh(DescriptorBytes(NotElem, x) + r, NoEnc);
    assert d.rest[0] == DESCRIBED;
    DescriptorFront(d, x, r);
    PeekAgrees(d);
  }

  // ---- transparent vectors ------------------------------------------------------------------

  /** The type of a value as its constructor tells it, whichever form of the type it announces. */
  datatype ValueType = ScalarType(k: Kind) | NullType | ListType | MapType | ArrayType | DescribedType

  function ValueTypeOf(c: byte): ValueType
    requires IsCode(c)
  {
    if c == DESCRIBED then DescribedType
    else if c == NULL then NullType
    else if c == BOOLEAN || c == BOOLEAN_TRUE || c == BOOLEAN_FALSE then ScalarType(KBool)
    else if c == UBYTE then ScalarType(KU8)
    else if c == USHORT then ScalarType(KU16)
    else if c == UINT || c == SMALL_UINT || c == UINT0 then ScalarType(KU32)
    else if c == ULONG || c == SMALL_ULONG || c == ULONG0 then ScalarType(KU64)
    else if c == BYTE then ScalarType(KI8)
    else if c == SHORT then ScalarType(KI16)
    else if c == INT || c == SMALL_INT then ScalarType(KI32)
    else if c == LONG || c == SMALL_LONG then ScalarType(KI64)
    else if c == FLOAT then ScalarType(KF32)
    else if c == DOUBLE then ScalarType(KF64)
    else if c == DECIMAL32 then ScalarType(KDec32)
    else if c == DECIMAL64 then ScalarType(KDec64)
    else if c == DECIMAL128 then ScalarType(KDec128)
    else if c == CHAR then ScalarType(KChar)
    else if c == TIMESTAMP then ScalarType(KTimestamp)
    else if c == UUID then ScalarType(KUuid)
    else if c == VBIN8 || c == VBIN32 then ScalarType(KBinary)
    else if c == STR8 || c == STR32 then ScalarType(KStr)
    else if c == SYM8 || c == SYM32 then ScalarType(KSym)
    else if c == LIST0 || c == LIST8 || c == LIST32 then ListType
    else if c == MAP8 || c == MAP32 then MapType
    else ArrayType
  }

  datatype TypeCode = PrimitiveCode(t: ValueType) | CompositeCode(d: Descriptor)

  /** What the accessor compares from one element to the next. */
  function PeekType(input: bytes): Outcome<TypeCode>
    requires input != []
  {
    if !IsCode(input[0]) then Err(InvalidFormatCode)
    else if input[0] == DESCRIBED then
      var x :- PeekDescriptor(input);
      Ok(CompositeCode(x))
    else Ok(PrimitiveCode(ValueTypeOf(input[0])))
  }

  /** The element types that always take at least one octet and know their type code. */
  predicate Splittable(t: Ty) {
    t.TDescribed? || t.TComposite? || t.TPrim?
  }

  ghost predicate Clear(d: State) {
    d == Fresh(d.rest, d.encoding)
  }

  lemma Advances(d: State, t: Ty)
    requires Clear(d) && Splittable(t)
    ensures Decode(d, t).Ok? ==> Clear(Decode(d, t).value.1) && |Decode(d, t).value.1.rest| < |d.rest|
    ensures Decode(d, t).Ok? ==> Decode(d, t).value.1.encoding == d.encoding
  {
    hide IsTail, Decode;
    ClearModesStayClear(d.rest, d.encoding, t);
    if t.TPrim? {
      ScalarAdvances(d, t.k);
    } else {
      DescribedAdvances(d, t);
    }
  }

  lemma ScalarAdvances(d: State, k: Kind)
    requires Clear(d)
    ensures Decode(d, TPrim(k)).Ok? ==> |Decode(d, TPrim(k)).value.1.rest| < |d.rest|
  {
    hide DecodeScalar, LazyPrimitive;
    ScalarSkips(d, k);
    if DecodeScalar(d, k).Ok? { LazyExtends(d.rest, []); }
  }

  lemma DescribedAdvances(d: State, t: Ty)
    requires Clear(d) && (t.TDescribed? || t.TComposite?)
    ensures Decode(d, t).Ok? ==> |Decode(d, t).value.1.rest| < |d.rest|
  {
    hide IsTail;
    var e := d.(encoding := if t.TDescribed? then BasicEnc else ListEnc);
    DescriptorKeeps(e);
    assert Decode(d, t) == if t.TDescribed? then DecodeDescribed(d, t.t) else DecodeComposite(d, t.name, t.code, t.fields);
    hide Decode, DecodeDescriptor, FieldCount, DecodeFields;
    if Decode(d, t).Ok? {
      assert DecodeDescriptor(e).Ok?;
      AfterDescriptorShrinks(DecodeDescriptor(e).value.1, t);
    }
  }

  lemma AfterDescriptorShrinks(e: State, t: Ty)
    requires e.nonNative == None && (t.TDescribed? || t.TComposite?)
    ensures t.TDescribed? && Decode(e, t.t).Ok? ==> |Decode(e, t.t).value.1.rest| <= |e.rest|
    ensures t.TComposite? && FieldCount(e).Ok? ==>
              var (n, e1) := FieldCount(e).value;
              var o := DecodeFields(e1, n, t.fields);
              o.Ok? ==> |o.value.1.rest| <= |e.rest|
  {
    hide Decode, DecodeFields, FieldCount, IsTail;
    if t.TDescribed? {
      DecodeKeeps(e, t.t);
    } else {
      HeadsKeep(e, 0);
      if FieldCount(e).Ok? { FieldsKeep(FieldCount(e).value.1, FieldCount(e).value.0, t.fields); }
    }
  }

  /** `TransparentVecAccess` until it gives no more, with the type code seen first in `cached`. */
  function TransparentVec(d: State, t: Ty, cached: Option<TypeCode>): Outcome<(seq<Val>, State)>
    requires Clear(d) && Splittable(t)
    decreases |d.rest|
  {
    if d.rest == [] then Ok(([], d))
    else
      var peek :- PeekType(d.rest);
      if cached.Some? && cached.value != peek then Ok(([], d))
      else
        var (v, d1) :- Decode(d, t);
        Advances(d, t);
        var (vs, d2) :- TransparentVec(d1, t, Some(peek));
        Ok(([v] + vs, d2))
  }

  /** The same as the loop it is: the visitor drains the accessor, the accessor caches a type code. */
  method DrainTransparent(de: D.Deserializer, t: Ty) returns (r: Outcome<seq<Val>>)
    requires Clear(de.Now()) && Splittable(t)
    modifies de
    ensures de.Did(TransparentVec(old(de.Now()), t, None), r)
  {
    hide Decode, PeekType;
    ghost var d0 := de.Now();
    var vs: seq<Val>, cached: Option<TypeCode> := [], None;
    D.PrependNothing(TransparentVec(d0, t, None));
    while de.slice != []
      invariant Clear(de.Now())
      invariant TransparentVec(d0, t, None) == D.Prepend(vs, TransparentVec(de.Now(), t, cached))
      decreases |de.slice|
    {
      ghost var d := de.Now();
      var peek :- PeekType(de.slice);
      if cached.Some? && cached.value != peek { break; }
      cached := Some(peek);
      Advances(d, t);
      var v :- de.Deserialize(t);
      D.PrependAssoc(vs, v, TransparentVec(de.Now(), t, cached));
      vs := vs + [v];
    }
    assert vs + [] == vs;
    r := Ok(vs);
  }

  /** Input at which a run of values with type code `x` is over. */
  predicate Ends(r: bytes, x: TypeCode) {
    r == [] || (PeekType(r).Ok? && PeekType(r).value != x)
  }

  // ---- any input ----------------------------------------------------------------------------

  /** From `d` to `e`, `vs` are read one after the other, and each starts with type code `x`. */
  ghost predicate ReadsRun(d: State, t: Ty, vs: seq<Val>, x: TypeCode, e: State)
    decreases |vs|
  {
    if vs == [] then e == d
    else
      && d.rest != [] && PeekType(d.rest) == Ok(x)
      && Decode(d, t).Ok? && Decode(d, t).value.0 == vs[0]
      && ReadsRun(Decode(d, t).value.1, t, vs[1..], x, e)
  }

  lemma {:induction false} LaterRunIff(d: State, t: Ty, x: TypeCode, vs: seq<Val>, e: State)
    requires Clear(d) && Splittable(t)
    ensures TransparentVec(d, t, Some(x)) == Ok((vs, e)) <==> ReadsRun(d, t, vs, x, e) && Ends(e.rest, x)
    decreases |d.rest|
  {
    hide Decode, PeekType, Clear;
    if d.rest != [] && PeekType(d.rest) == Ok(x) && Decode(d, t).Ok? {
      var (v, d1) := Decode(d, t).value;
      Advances(d, t);
      var o := TransparentVec(d1, t, Some(x));
      if vs != [] {
        LaterRunIff(d1, t, x, vs[1..], e);
        if o.Ok? { ConsCancel(v, o.value.0, vs[0], vs[1..]); }
        assert vs == [vs[0]] + vs[1..];
      }
    }
  }

  /**
   On any input and for every element type: the accessor gives `vs` and stops at `e` if and only if
   `vs` is read as a run of one type code, that of the first octets, and what is left at `e` is
   empty or starts otherwise. So the run is never empty, never mixed and never cut short.
   */
  lemma RunIsMaximal(d: State, t: Ty, vs: seq<Val>, e: State)
    requires Clear(d) && Splittable(t)
    ensures d.rest == [] ==> (TransparentVec(d, t, None) == Ok((vs, e)) <==> vs == [] && e == d)
    ensures d.rest != [] ==>
              (TransparentVec(d, t, None) == Ok((vs, e)) <==>
                 && vs != [] && PeekType(d.rest).Ok?
                 && ReadsRun(d, t, vs, PeekType(d.rest).value, e) && Ends(e.rest, PeekType(d.rest).value))
  {
    hide Decode, PeekType, Clear;
    if d.rest != [] && PeekType(d.rest).Ok? && Decode(d, t).Ok? {
      var x := PeekType(d.rest).value;
      var (v, d1) := Decode(d, t).value;
      Advances(d, t);
      var o := TransparentVec(d1, t, Some(x));
      if vs != [] {
        LaterRunIff(d1, t, x, vs[1..], e);
        if o.Ok? { ConsCancel(v, o.value.0, vs[0], vs[1..]); }
        assert vs == [vs[0]] + vs[1..];
      }
    }
  }

  /**
   What the elements of a run have in common: described values carry its descriptor, composites are
   read under it by their name or by their code, and scalars are of its type.
   */
  lemma {:induction false} RunShares(d: State, t: Ty, vs: seq<Val>, x: TypeCode, e: State)
    requires Clear(d) && Splittable(t) && ReadsRun(d, t, vs, x, e) && vs != []
    ensures t.TDescribed? ==> x.CompositeCode? && forall v | v in vs :: v.Described? && v.d == x.d
    ensures t.TComposite? ==> x.CompositeCode? && ByNameOrCode(x.d, t.name, t.code) && forall v | v in vs :: v.Composite? && v.d == DescriptorOf(t.name, t.code)
    ensures t.TPrim? ==> x.PrimitiveCode? && forall v | v in vs :: v.Prim?
    decreases |vs|
  {
    hide Decode, PeekType, Clear;
    ElementShares(d, t, x);
    Advances(d, t);
    if |vs| > 1 { RunShares(Decode(d, t).value.1, t, vs[1..], x, e); }
    assert forall v | v in vs :: v == vs[0] || v in vs[1..];
  }

  predicate ByNameOrCode(x: Descriptor, name: str, code: Option<u64>) {
    x == Name(name) || (code.Some? && x == Code(code.value))
  }

  lemma ElementShares(d: State, t: Ty, x: TypeCode)
    requires Clear(d) && Splittable(t) && d.rest != [] && PeekType(d.rest) == Ok(x) && Decode(d, t).Ok?
    ensures var v := Decode(d, t).value.0;
            && (t.TDescribed? ==> x.CompositeCode? && v.Described? && v.d == x.d)
            && (t.TComposite? ==> x.CompositeCode? && ByNameOrCode(x.d, t.name, t.code) && v.Composite? && v.d == DescriptorOf(t.name, t.code))
            && (t.TPrim? ==> x.PrimitiveCode? && v.Prim?)
  {
    hide PeekDescriptor, DecodeDescriptor, DecodeScalar, ValueTypeOf, IsCode, LazyPrimitive, DecodeFields, FieldCount;
    NotDescribedFails(d.(encoding := BasicEnc));
    NotDescribedFails(d.(encoding := ListEnc));
    if t.TPrim? {
      ScalarSkips(d, t.k);
      if d.rest[0] == DESCRIBED { DescribedIsRefused(d.rest); }
    } else if d.rest[0] == DESCRIBED {
      PeekAgrees(d.(encoding := if t.TDescribed? then BasicEnc else ListEnc));
    }
  }

  lemma NotDescribedFails(d: State)
    ensures DecodeDescriptor(d).Ok? ==> d.rest != [] && d.rest[0] == DESCRIBED
  {
    hide DecodeSymbol, ParseU64;
  }

  // ---- encoded runs -------------------------------------------------------------------------

  /** `v` is a value of type `t` that is written with type code `x` and comes back. */
  ghost predicate Member(v: Val, t: Ty, x: TypeCode) {
    && Typed(v, t) && Decodable(v)
    && ((v.Described? || v.Composite?) ==> x == CompositeCode(v.d))
    && (v.Prim? ==> x == PrimitiveCode(ScalarType(KindOf(v.s))))
    && (v.Described? || v.Composite? || v.Prim?)
  }

  lemma PeekMember(v: Val, t: Ty, x: TypeCode, r: bytes)
    requires Member(v, t, x)
    ensures Encode(false, v) + r != [] && PeekType(Encode(false, v) + r) == Ok(x)
  {
    hide PeekDescriptor, HasType, ScalarArrays, WriteList, WireBody, Flushed, ScalarFits, ScalarBytes, Decodable, ValueTypeOf;
    if v.Prim? {
      PeekScalar(v.s);
      assert (Encode(false, v) + r)[0] == ScalarBytes(NotElem, v.s)[0];
    } else {
      var tail := if v.Described? then Encode(false, v.v) else Written(WriteList(NotElem, Flushed(v.fields), WireBody(v.fields, Flushed(v.fields))));
      assert Encode(false, v) + r == DescriptorBytes(NotElem, v.d) + (tail + r);
      assert (Encode(false, v) + r)[0] == DESCRIBED;
      assert ScalarFits(NotElem, DescriptorScalar(v.d));
      PeekFront(v.d, tail + r);
      assert IsCode(DESCRIBED);
    }
  }

  /** Every form of a scalar starts with a constructor of its type. */
  lemma PeekScalar(s: Scalar)
    ensures var b := ScalarBytes(NotElem, s); b != [] && IsCode(b[0]) && b[0] != DESCRIBED && ValueTypeOf(b[0]) == ScalarType(KindOf(s))
  {
    hide BE, Signed, Octet;
  }

  lemma {:induction false} LaterMembers(vs: seq<Val>, t: Ty, x: TypeCode, cached: Option<TypeCode>, r: bytes, encoding: StructEncoding)
    requires Splittable(t) && forall i :: 0 <= i < |vs| ==> Member(vs[i], t, x)
    requires cached == None || cached == Some(x)
    requires Ends(r, x) && (vs == [] && r != [] ==> cached.Some?)
    ensures TransparentVec(Fresh(EncodeAll(false, vs) + r, encoding), t, cached) == Ok((NormAll(vs), Fresh(r, encoding)))
    decreases vs
  {
    hide Decode, Encode, Norm, PeekType, Typed, Decodable;
    if vs == [] {
      assert EncodeAll(false, vs) + r == r;
    } else {
      var tail := EncodeAll(false, vs[1..]) + r;
      assert EncodeAll(false, vs) + r == Encode(false, vs[0]) + tail;
      assert Member(vs[0], t, x);
      PeekMember(vs[0], t, x, tail);
      ValueExactly(vs[0], t, tail, encoding);
      LaterMembers(vs[1..], t, x, Some(x), r, encoding);
    }
  }

  /**
   Splitting: a run of values that share one type code, written without any header and followed by
   the end of the input or by anything that starts otherwise, is read back as exactly that run.
   */
  lemma SplitsOffRun(vs: seq<Val>, t: Ty, x: TypeCode, r: bytes, encoding: StructEncoding)
    requires Splittable(t) && vs != [] && forall i :: 0 <= i < |vs| ==> Member(vs[i], t, x)
    requires Ends(r, x)
    ensures TransparentVec(Fresh(EncodeAll(false, vs) + r, encoding), t, None) == Ok((NormAll(vs), Fresh(r, encoding)))
  {
    hide TransparentVec, Ends, Member;
    LaterMembers(vs, t, x, None, r, encoding);
  }

  /** In particular the run ends where a value of any type with another type code starts. */
  lemma NextTypeEnds(w: Val, u: Ty, y: TypeCode, x: TypeCode, r: bytes)
    requires Member(w, u, y) && y != x
    ensures Ends(Encode(false, w) + r, x)
  {
    hide PeekType, Encode, Member;
    PeekMember(w, u, y, r);
  }
}
