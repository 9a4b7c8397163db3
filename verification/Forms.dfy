/**
 Everything the decoder is meant to accept, not only what the encoder writes. `Reads(v, t, b)` says in
 numbers that `b` is an encoding of `v` at type `t` as sections 1.2, 1.4 and 1.6 of Part 1 of the AMQP
 1.0 specification allow it: in any of the forms of each primitive type, under headers of either
 width, with a descriptor by name or by code, with one bare value for an array of one, with a variant
 by index or by name.
 */
module Forms {
  import opened Bytes
  import opened Utf8
  import opened FormatCodes
  import opened Values
  import opened Wire
  import opened Decoder
  import opened Modes
  import opened Scalars
  import opened Headers
  import opened RoundTrip
  import opened Numbers

  // ---- scalars ------------------------------------------------------------------------------

  /** The form that an array element takes as well, with its constructor. */
  predicate WideForm(s: Scalar, b: bytes) {
    match s
    case Binary(x) => |x| < 0x1_0000_0000 && b == [0xb0] + (Octets(|x|, 4) + x)
    case Str(x) => |x| < 0x1_0000_0000 && b == [0xb1] + (Octets(|x|, 4) + x)
    case Sym(x) => |x| < 0x1_0000_0000 && b == [0xb3] + (Octets(|x|, 4) + x)
    case _ => b == [ElementCode(KindOf(s))] + Element(s)
  }

  /** The shorter forms of some types. */
  predicate CompactForm(s: Scalar, b: bytes) {
    match s
    case Bool(x) => b == [if x then 0x41 else 0x42]
    case I32(i) => -128 <= i <= 127 && b == [0x54, i % 256]
    case I64(i) => -128 <= i <= 127 && b == [0x55, i % 256]
    case U32(i) => (i <= 255 && b == [0x52, i]) || (i == 0 && b == [0x43])
    case U64(i) => (i <= 255 && b == [0x53, i]) || (i == 0 && b == [0x44])
    case Binary(x) => |x| <= 255 && b == [0xa0, |x|] + x
    case Str(x) => |x| <= 255 && b == [0xa1, |x|] + x
    case Sym(x) => |x| <= 255 && b == [0xa3, |x|] + x
    case _ => false
  }

  predicate ScalarForm(s: Scalar, b: bytes) {
    WideForm(s, b) || CompactForm(s, b)
  }

  /** An array element under constructor `c`. */
  predicate ElementForm(s: Scalar, c: byte, b: bytes) {
    ScalarForm(s, [c] + b)
  }

  lemma CodesInNumbers(k: Kind)
    ensures WideCode(k) == ElementCode(k) && IsCode(WideCode(k)) && WideCode(k) != DESCRIBED && WideCode(k) != NULL
    ensures WideCode(k) != ARRAY8 && WideCode(k) != ARRAY32 && WideCode(k) != LIST0
    ensures WideCode(k) != LIST8 && WideCode(k) != LIST32 && WideCode(k) != MAP8 && WideCode(k) != MAP32
  {
  }

  lemma ScalarFormStart(s: Scalar, b: bytes)
    requires ScalarForm(s, b)
    ensures b != [] && IsCode(b[0]) && b[0] != DESCRIBED && b[0] != NULL && b[0] != ARRAY8 && b[0] != ARRAY32
    ensures b[0] != LIST0 && b[0] != LIST8 && b[0] != LIST32 && b[0] != MAP8 && b[0] != MAP32
  {
    hide Octets, Element, ElementCode;
    CodesInNumbers(KindOf(s));
  }

  lemma WideFormIsWide(s: Scalar, b: bytes)
    requires WideForm(s, b)
    ensures ShortEnough(s) && b == [WideCode(KindOf(s))] + WideBody(s)
  {
    hide Octets, Element, ElementCode, WideCode, BE, ScalarBytes;
    CodesInNumbers(KindOf(s));
    WideCodes();
    ScalarInOctets(s);
    Pow256Values();
    match s
    case Binary(x) => WideBodyOf(s); BEByPosition(|x|, 4);
    case Str(x) => WideBodyOf(s); BEByPosition(|x|, 4);
    case Sym(x) => WideBodyOf(s); BEByPosition(|x|, 4);
    case _ => WideBodyOf(s);
  }

  lemma WideCodes()
    ensures WideCode(KBinary) == 0xb0 && WideCode(KStr) == 0xb1 && WideCode(KSym) == 0xb3
  {
  }

  /** The compact forms of integers and booleans, once their constructor has been read. */
  lemma CompactIntegerDecodes(d: State, p: State, s: Scalar, b: bytes, r: bytes)
    requires CompactForm(s, b) && !s.Binary? && !s.Str? && !s.Sym?
    requires d.nonNative == None && ReadCode(d) == Ok((b[0], p)) && p.rest == b[1..] + r
    ensures DecodeScalar(d, KindOf(s)) == Ok((s, p.(rest := r)))
  {
    hide ReadCode;
    if |b| == 1 { assert p.rest == r; } else { assert p.rest == [b[1]] + r; }
  }

  lemma CompactVariableDecodes(d: State, p: State, s: Scalar, x: bytes, b: bytes, r: bytes)
    requires CompactForm(s, b) && (s == Binary(x) || (Valid(x) && (s == Str(x) || s == Sym(x))))
    requires d.nonNative == None && p.nonNative == None && ReadCode(d) == Ok((b[0], p)) && p.rest == b[1..] + r
    ensures DecodeScalar(d, KindOf(s)) == Ok((s, p.(rest := r)))
  {
    hide ReadCode, DecodeScalar;
    assert b == [NarrowCode(s), |x|] + x;
    OneOctet(|x|);
    assert p.rest == BE(|x|, 1) + (x + r);
    VariableFront(d, p, s, false, x, r);
  }

  /** Every form of every scalar decodes to it, with its constructor read or set for an array. */
  lemma ScalarFormDecodes(d: State, p: State, s: Scalar, b: bytes, r: bytes)
    requires ScalarForm(s, b)
    requires d.nonNative == None && p.nonNative == None && ReadCode(d) == Ok((b[0], p)) && p.rest == b[1..] + r
    ensures DecodeScalar(d, KindOf(s)) == Ok((s, p.(rest := r)))
  {
    hide ReadCode, DecodeScalar, WideForm, CompactForm, WideBody, WideCode;
    if WideForm(s, b) {
      WideFormIsWide(s, b);
      assert b[1..] == WideBody(s);
      WideDecodes(d, p, s, r);
    } else if s.Binary? || s.Str? || s.Sym? {
      CompactVariableDecodes(d, p, s, if s.Binary? then s.bin else if s.Str? then s.str else s.sym, b, r);
    } else {
      CompactIntegerDecodes(d, p, s, b, r);
    }
  }

  lemma ScalarFormFront(d: State, s: Scalar, b: bytes, r: bytes)
    requires ScalarForm(s, b) && d.elem == None && d.nonNative == None && d.rest == b + r
    ensures DecodeScalar(d, KindOf(s)) == Ok((s, d.(rest := r)))
    ensures PeekCode(d) == PeekByte(d) == Ok(b[0])
  {
    hide DecodeScalar, ScalarForm, IsCode, ReadCode;
    ScalarFormStart(s, b);
    assert d.rest == [b[0]] + (b[1..] + r);
    ReadFront(d, b[0], b[1..] + r);
    ScalarFormDecodes(d, d.(rest := b[1..] + r), s, b, r);
  }

  // ---- headers ------------------------------------------------------------------------------

  /** A header for `n` elements in `l` octets of body. */
  predicate HeaderForm(code8: byte, code32: byte, n: nat, l: nat, h: bytes) {
    || (l <= 254 && n <= 255 && h == [code8, l + 1, n])
    || (l <= 0xFFFF_FFFB && n <= 0xFFFF_FFFF && h == [code32] + (Octets(l + 4, 4) + Octets(n, 4)))
  }

  predicate ListForm(n: nat, l: nat, h: bytes) {
    (n == 0 && l == 0 && h == [0x45]) || HeaderForm(0xc0, 0xd0, n, l, h)
  }

  lemma HeaderFormFront(d: State, code8: byte, code32: byte, n: nat, l: nat, h: bytes, r: bytes)
    requires HeaderForm(code8, code32, n, l, h) && IsCode(code8) && IsCode(code32) && code8 != code32
    requires d.rest == h + r && d.elem == None
    ensures h != [] && (h[0] == code8 || h[0] == code32)
    ensures PeekCode(d) == PeekByte(d) == Ok(h[0]) && Next(d) == ReadCode(d) && ReadCode(d).Ok? && ReadCode(d).value.0 == h[0]
    ensures var wide := h[0] == code32; SizeAndCount(ReadCode(d).value.1, wide) == Ok(((l + Width(wide), n), d.(rest := r)))
  {
    hide IsCode, SizeAndCount, BE, Octets, Pow256;
    Pow256Values();
    var wide := h[0] == code32;
    var w := Width(wide);
    if wide {
      BEByPosition(l + 4, 4);
      BEByPosition(n, 4);
    } else {
      OneOctet(l + 1);
      OneOctet(n);
    }
    var tail := BE(l + w, w) + (BE(n, w) + r);
    assert h + r == [h[0]] + tail;
    ReadFront(d, h[0], tail);
    SizeAndCountFront(d.(rest := tail), wide, l + w, n, r);
  }

  lemma ListFormFront(d: State, n: nat, l: nat, h: bytes, r: bytes)
    requires ListForm(n, l, h) && d.rest == h + r && d.elem == None
    ensures h != [] && IsCode(h[0]) && h[0] != NULL && h[0] != DESCRIBED && h[0] != ARRAY8 && h[0] != ARRAY32
    ensures n <= 65536 ==> SeqHead(d) == Ok((ListHeader(n), d.(rest := r)))
    ensures TupleHead(d, n) == Ok(d.(rest := r))
    ensures n < 0xFFFF_FFFF ==> FieldCount(d) == Ok((n, d.(rest := r)))
  {
    hide ReadCode, SizeAndCount, HeaderForm;
    if HeaderForm(0xc0, 0xd0, n, l, h) {
      HeaderFormFront(d, 0xc0, 0xd0, n, l, h, r);
    } else {
      ReadFront(d, 0x45, r);
    }
  }

  lemma MapFormFront(d: State, n: nat, l: nat, h: bytes, r: bytes)
    requires HeaderForm(0xc1, 0xd1, n, l, h) && d.rest == h + r && d.elem == None
    ensures h != [] && IsCode(h[0]) && h[0] != NULL
    ensures n <= 65536 ==> MapHead(d) == Ok((n, d.(rest := r)))
    ensures n == 2 ==> EnumHead(d) == Ok(d.(rest := r))
  {
    hide ReadCode, SizeAndCount, HeaderForm, PeekCode, Next;
    HeaderFormFront(d, 0xc1, 0xd1, n, l, h, r);
  }

  lemma PairListFront(d: State, l: nat, h: bytes, r: bytes)
    requires HeaderForm(0xc0, 0xd0, 2, l, h) && d.rest == h + r && d.elem == None
    ensures EnumHead(d) == Ok(d.(rest := r))
  {
    hide ReadCode, SizeAndCount, HeaderForm, PeekCode, Next;
    HeaderFormFront(d, 0xc0, 0xd0, 2, l, h, r);
  }

  // ---- what the decoder is meant to accept --------------------------------------------------

  ghost predicate Reads(v: Val, t: Ty, b: bytes)
    decreases v, 2
  {
    match t
    case TPrim(k) => v.Prim? && KindOf(v.s) == k && ScalarForm(v.s, b)
    case TUnit => v.Unit? && b == [0x40]
    case TOption(u) => (v.Nothing? && b == [0x40]) || (v.Just? && Reads(v.v, u, b) && b != [] && b[0] != 0x40)
    case TSeq(u) => v.List? && ((exists h: nat :: ListAt(v.vs, u, b, h)) || (u.TPrim? && ArrayForm(v.vs, u.k, b)))
    case TTuple(ts) => v.Tuple? && exists h: nat :: TupleAt(v.vs, ts, b, h)
    case TArray(u) => v.Array? && u.TPrim? && (ArrayForm(v.vs, u.k, b) || BareForm(v.vs, u.k, b))
    case TMap(_, _) => v.Map? && exists h: nat :: MapAt(v.entries, t, b, h)
    case TDescribed(u) => v.Described? && exists h: nat :: DescribedAt(v.d, v.v, u, b, h)
    case TComposite(name, code, fts) =>
      && v.Composite? && v.d == DescriptorOf(name, code)
      && exists g: nat, h: nat, n: nat :: CompositeAt(v.fields, name, code, fts, b, g, h, n)
    case TEnum(variants) =>
      && IsVariant(v, variants)
      && if v.UnitVariant? then VariantForm(variants, v.index, b) else exists g: nat, h: nat :: VariantAt(v, variants, b, g, h)
  }

  ghost predicate ListAt(vs: seq<Val>, t: Ty, b: bytes, h: nat)
    decreases vs, 1
  {
    h <= |b| && |vs| <= 65536 && ListForm(|vs|, |b| - h, b[..h]) && ReadsAll(vs, t, b[h..])
  }

  ghost predicate ReadsAll(vs: seq<Val>, t: Ty, b: bytes)
    decreases vs, 0
  {
    if vs == [] then b == [] else exists i: nat :: i <= |b| && Reads(vs[0], t, b[..i]) && ReadsAll(vs[1..], t, b[i..])
  }

  ghost predicate TupleAt(vs: seq<Val>, ts: seq<Ty>, b: bytes, h: nat)
    decreases vs, 1
  {
    h <= |b| && |vs| == |ts| && ListForm(|vs|, |b| - h, b[..h]) && ReadsEach(vs, ts, b[h..])
  }

  ghost predicate ReadsEach(vs: seq<Val>, ts: seq<Ty>, b: bytes)
    requires |vs| == |ts|
    decreases vs, 0
  {
    if vs == [] then b == [] else exists i: nat :: i <= |b| && Reads(vs[0], ts[0], b[..i]) && ReadsEach(vs[1..], ts[1..], b[i..])
  }

  /** Scalars of one kind under one constructor, which need not be the widest; none, without a constructor. */
  ghost predicate ArrayForm(vs: seq<Val>, k: Kind, b: bytes) {
    if vs == [] then HeaderForm(0xe0, 0xf0, 0, 0, b)
    else exists h: nat :: ArrayAt(vs, k, b, h)
  }

  ghost predicate ArrayAt(vs: seq<Val>, k: Kind, b: bytes, h: nat) {
    && h < |b| && IsCode(b[h]) && HeaderForm(0xe0, 0xf0, |vs|, |b| - h, b[..h])
    && |vs| <= 65536 && |vs| <= |b| - h + (if b[0] == 0xf0 then 4 else 1)
    && ReadsElements(vs, k, b[h], b[h + 1..])
  }

  ghost predicate ReadsElements(vs: seq<Val>, k: Kind, c: byte, b: bytes)
    decreases |vs|
  {
    if vs == [] then b == []
    else
      exists i: nat :: i <= |b| && IsElement(vs[0], k, c, b[..i]) && ReadsElements(vs[1..], k, c, b[i..])
  }

  ghost predicate IsElement(v: Val, k: Kind, c: byte, b: bytes) {
    v.Prim? && KindOf(v.s) == k && ElementForm(v.s, c, b)
  }

  /** One value that is not an array stands for an array of it. */
  ghost predicate BareForm(vs: seq<Val>, k: Kind, b: bytes) {
    |vs| == 1 && vs[0].Prim? && KindOf(vs[0].s) == k && ScalarForm(vs[0].s, b)
  }

  ghost predicate MapAt(es: seq<Entry>, t: Ty, b: bytes, h: nat)
    requires t.TMap?
    decreases es, 1
  {
    h <= |b| && 2 * |es| <= 65536 && HeaderForm(0xc1, 0xd1, 2 * |es|, |b| - h, b[..h]) && ReadsEntries(es, t, b[h..])
  }

  ghost predicate ReadsEntries(es: seq<Entry>, t: Ty, b: bytes)
    requires t.TMap?
    decreases es, 0
  {
    if es == [] then b == []
    else exists i: nat, j: nat :: ReadsEntry(es[0], t, b, i, j) && ReadsEntries(es[1..], t, b[j..])
  }

  ghost predicate ReadsEntry(e: Entry, t: Ty, b: bytes, i: nat, j: nat)
    requires t.TMap?
    ensures ReadsEntry(e, t, b, i, j) ==> j <= |b|
    decreases e, 0
  {
    i <= j <= |b| && Reads(e.key, t.key, b[..i]) && Reads(e.value, t.value, b[i..j])
  }

  /** A descriptor is a symbol or an unsigned long. */
  ghost predicate DescriptorForm(x: Descriptor, b: bytes) {
    b != [] && b[0] == 0x00 && ScalarForm(DescriptorScalar(x), b[1..])
  }

  ghost predicate DescribedAt(x: Descriptor, v: Val, t: Ty, b: bytes, h: nat)
    decreases v, 3
  {
    h <= |b| && DescriptorForm(x, b[..h]) && Reads(v, t, b[h..])
  }

  /** Under the name, or under the code when there is one, `n` of the fields and no null behind them. */
  ghost predicate CompositeAt(fs: seq<Field>, name: str, code: Option<u64>, fts: seq<FieldTy>, b: bytes, g: nat, h: nat, n: nat)
    decreases fs, 1
  {
    && g <= h <= |b|
    && (DescriptorForm(Name(name), b[..g]) || (code.Some? && DescriptorForm(Code(code.value), b[..g])))
    && |fs| == |fts| && n <= |fs| && n < 0xFFFF_FFFF
    && ListForm(n, |b| - h, b[g..h]) && ReadsFields(fs, fts, n, b[h..])
  }

  ghost predicate ReadsFields(fs: seq<Field>, fts: seq<FieldTy>, n: nat, b: bytes)
    requires |fs| == |fts|
    decreases fs, 0
  {
    if n == 0 || fs == [] then n == 0 && b == [] && forall i :: 0 <= i < |fs| ==> LeftOut(fs[i], fts[i])
    else exists i: nat :: i <= |b| && ReadsField(fs[0], fts[0], b[..i]) && ReadsFields(fs[1..], fts[1..], n - 1, b[i..])
  }

  /** What stands for a field that is not there. */
  ghost predicate LeftOut(f: Field, ft: FieldTy) {
    && f.attr == ft.attr
    && match ft.attr
       case Mandatory => false
       case Optional => f.v.Nothing?
       case Multiple => f.v.Nothing?
       case Default(def) => f.v == def
  }

  ghost predicate ReadsField(f: Field, ft: FieldTy, b: bytes)
    decreases f, 0
  {
    if b == [0x40] && !ft.attr.Mandatory? then LeftOut(f, ft)
    else
      && f.attr == ft.attr
      && match ft.attr
         case Mandatory => Reads(f.v, ft.t, b)
         case Optional => f.v.Just? && Reads(f.v.v, ft.t, b) && b != [] && b[0] != 0x40
         case Default(_) => Reads(f.v, ft.t, b) && b != [] && b[0] != 0x40
         case Multiple =>
           && ft.t.TPrim?
           && ((f.v.Nothing? && ArrayForm([], ft.t.k, b))
               || (f.v.Just? && f.v.v.Array? && f.v.v.vs != [] && (ArrayForm(f.v.v.vs, ft.t.k, b) || BareForm(f.v.v.vs, ft.t.k, b))))
  }

  ghost predicate IsVariant(v: Val, variants: seq<VariantTy>) {
    && (v.UnitVariant? || v.NewtypeVariant? || v.TupleVariant?) && v.index < |variants|
    && match variants[v.index]
       case VUnit(_) => v.UnitVariant?
       case VNewtype(_, _) => v.NewtypeVariant?
       case VTuple(_, _) => v.TupleVariant?
  }

  /** A variant by its index, or by its name if it is the first of that name. */
  ghost predicate VariantForm(variants: seq<VariantTy>, i: u32, b: bytes)
    requires i < |variants|
  {
    || ScalarForm(U32(i), b)
    || ScalarForm(U64(i), b)
    || ((forall j :: 0 <= j < i ==> variants[j].name != variants[i].name)
        && (ScalarForm(Str(variants[i].name), b) || ScalarForm(Sym(variants[i].name), b)))
  }

  /** A variant with a value: a map or a list of two, which the value ends. */
  ghost predicate VariantAt(v: Val, variants: seq<VariantTy>, b: bytes, g: nat, h: nat)
    requires IsVariant(v, variants)
    decreases v, 1
  {
    && g <= h <= |b|
    && (HeaderForm(0xc1, 0xd1, 2, |b| - g, b[..g]) || HeaderForm(0xc0, 0xd0, 2, |b| - g, b[..g]))
    && VariantForm(variants, v.index, b[g..h])
    && match variants[v.index]
       case VUnit(_) => false
       case VNewtype(_, t) => Reads(v.v, t, b[h..])
       case VTuple(_, ts) => exists k: nat :: TupleAt(v.vs, ts, b[h..], k)
  }
}
