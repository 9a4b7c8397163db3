/**
 The serializer of maps as the state machine it is. Entries arrive whole, or as a key and then its
 value; buffers are reserved from sizes, with an unguarded subtraction.
 */
module MapSerializers {
  import opened Bytes
  import opened Values
  import opened Wire
  import opened Headers
  import opened Sizes
  import opened Encoder
  import opened Tameness
  import opened SizeProofs
  import opened Refinement
  import opened Serializers

  datatype Phase =
    | Init(hint: Option<nat>)
    | KeyInit(hint: Option<nat>, buf: bytes)
    | Buffer(buf: bytes)

  datatype Machine = Machine(num: nat, phase: Phase)

  datatype Call = WholeEntry(key: Val, value: Val) | JustKey(key: Val) | JustValue(value: Val)

  // ---- the calls as functions ---------------------------------------------------------------

  /** `len * entry - written`, where there is a length hint. */
  function Reserve(hint: Option<nat>, entry: nat, written: nat): Outcome<nat> {
    match hint
    case None => Ok(0)
    case Some(len) => if len * entry < written then Panic else Ok(len * entry - written)
  }

  /** `get_buffer_or_alloc_for_entry` */
  function ForEntry(p: Phase, key: Val, value: Val): Outcome<bytes> {
    match p
    case Init(None) => Ok([])
    case Init(Some(_)) =>
      var _ :- SizeEntry(Entry(key, value));
      Ok([])
    case KeyInit(None, buf) => Ok(buf)
    case KeyInit(hint, buf) =>
      var size :- SizeEntry(Entry(key, value));
      var _ :- Reserve(hint, size, |buf|);
      Ok(buf)
    case Buffer(buf) => Ok(buf)
  }

  /** `get_buffer_or_alloc_for_key` */
  function ForKey(p: Phase, key: Val): (r: Outcome<Phase>)
    ensures r.Ok? ==> !r.value.Init?
  {
    match p
    case Init(hint) =>
      var _ :- Size(NotElem, NoEnc, key);
      Ok(KeyInit(hint, []))
    case _ => Ok(p)
  }

  /** `get_buffer_or_alloc_for_value` */
  function ForValue(p: Phase, value: Val): Outcome<bytes> {
    match p
    case Init(None) => Ok([])
    case Init(Some(_)) =>
      var _ :- Size(NotElem, NoEnc, value);
      Ok([])
    case KeyInit(hint, buf) =>
      var size :- Size(NotElem, NoEnc, value);
      var _ :- Reserve(hint, |buf| + size, |buf|);
      Ok(buf)
    case Buffer(buf) => Ok(buf)
  }

  function Call1(m: Machine, c: Call): Outcome<Machine> {
    match c
    case WholeEntry(k, v) =>
      var buf :- ForEntry(m.phase, k, v);
      var b :- RunEntry(Entry(k, v));
      Ok(Machine(m.num + 2, Buffer(buf + b)))
    case JustKey(k) =>
      var p :- ForKey(m.phase, k);
      var s :- Run(Plain(NotElem), k);
      Ok(Machine(m.num + 1, p.(buf := p.buf + s.out)))
    case JustValue(v) =>
      var buf :- ForValue(m.phase, v);
      var s :- Run(Plain(NotElem), v);
      Ok(Machine(m.num + 1, Buffer(buf + s.out)))
  }

  function CallAll(m: Machine, cs: seq<Call>): Outcome<Machine>
    decreases |cs|
  {
    if cs == [] then Ok(m)
    else
      var m1 :- Call1(m, cs[0]);
      CallAll(m1, cs[1..])
  }

  function Buffered(p: Phase): bytes {
    if p.Init? then [] else p.buf
  }

  // ---- the object ---------------------------------------------------------------------------

  class MapSerializer {
    const se: Serializer
    var num: nat
    var phase: Phase

    constructor (se: Serializer, hint: Option<nat>)
      ensures this.se == se && Now() == Machine(0, Init(hint))
    {
      this.se, num, phase := se, 0, Init(hint);
    }

    ghost function Now(): Machine
      reads this
    {
      Machine(num, phase)
    }

    ghost predicate Did(o: Outcome<Machine>, r: Outcome<()>)
      reads this
    {
      match o
      case Ok(m) => r == Ok(()) && Now() == m
      case Err(e) => r == Err(e)
      case Panic => r == Panic
    }

    /** The state is `Buffer` by the time its buffer is taken: the `unreachable!` arm is dead. */
    method BufferForEntry(key: Val, value: Val) returns (r: Outcome<bytes>)
      modifies this`phase
      ensures r == ForEntry(old(phase), key, value) && (r.Ok? ==> phase == Buffer(r.value))
    {
      hide SizeEntry;
      var was := phase;
      phase := Init(None);
      if was.Init? {
        if was.hint.Some? { var _ :- SizeEntry(Entry(key, value)); }
        phase := Buffer([]);
      } else if was.KeyInit? {
        if was.hint.Some? {
          var size :- SizeEntry(Entry(key, value));
          var _ :- Reserve(was.hint, size, |was.buf|);
        }
        phase := Buffer(was.buf);
      } else {
        phase := was;
      }
      r := Ok(phase.buf);
    }

    /** The state is `KeyInit` or `Buffer` by then, never `Init`. */
    method BufferForKey(key: Val) returns (r: Outcome<Phase>)
      modifies this`phase
      ensures r == ForKey(old(phase), key) && (r.Ok? ==> phase == r.value)
    {
      hide Size;
      var was := phase;
      phase := Init(None);
      if was.Init? {
        var _ :- Size(NotElem, NoEnc, key);
        phase := KeyInit(was.hint, []);
      } else {
        phase := was;
      }
      r := Ok(phase);
    }

    /** The state is `Buffer` by then, as for an entry. */
    method BufferForValue(value: Val) returns (r: Outcome<bytes>)
      modifies this`phase
      ensures r == ForValue(old(phase), value) && (r.Ok? ==> phase == Buffer(r.value))
    {
      hide Size;
      var was := phase;
      phase := Init(None);
      if was.Init? {
        if was.hint.Some? { var _ :- Size(NotElem, NoEnc, value); }
        phase := Buffer([]);
      } else if was.KeyInit? {
        var size :- Size(NotElem, NoEnc, value);
        var _ :- Reserve(was.hint, |was.buf| + size, |was.buf|);
        phase := Buffer(was.buf);
      } else {
        phase := was;
      }
      r := Ok(phase.buf);
    }

    method SerializeEntry(key: Val, value: Val) returns (r: Outcome<()>)
      modifies this
      ensures Did(Call1(old(Now()), WholeEntry(key, value)), r)
    {
      hide Run, ForEntry;
      var buf :- BufferForEntry(key, value);
      var one := new Serializer(buf, Plain(NotElem));
      var _ :- one.Serialize(key);
      ghost var k := Run(Plain(NotElem), key).value;
      var _ :- one.Serialize(value);
      ghost var s := Run(k.cfg, value).value;
      assert one.writer == buf + (k.out + s.out);
      phase := Buffer(one.writer);
      num := num + 2;
      r := Ok(());
    }

    method SerializeKey(key: Val) returns (r: Outcome<()>)
      modifies this
      ensures Did(Call1(old(Now()), JustKey(key)), r)
    {
      hide Run, ForKey;
      var p :- BufferForKey(key);
      var one := new Serializer(p.buf, Plain(NotElem));
      var _ :- one.Serialize(key);
      phase := p.(buf := one.writer);
      num := num + 1;
      r := Ok(());
    }

    method SerializeValue(value: Val) returns (r: Outcome<()>)
      modifies this
      ensures Did(Call1(old(Now()), JustValue(value)), r)
    {
      hide Run, ForValue;
      var buf :- BufferForValue(value);
      var one := new Serializer(buf, Plain(NotElem));
      var _ :- one.Serialize(value);
      phase := Buffer(one.writer);
      num := num + 1;
      r := Ok(());
    }

    method End() returns (r: Outcome<()>)
      modifies se
      ensures var o := WriteMap(se.mode, num, Buffered(phase));
              && (o.Ok? ==> r == Ok(()) && se.writer == old(se.writer) + o.value)
              && (!o.Ok? ==> r == o.PropagateFailure<()>())
      ensures se.Cfg() == old(se.Cfg())
    {
      hide WriteMap;
      r := se.Finish(WriteMap(se.mode, num, if phase.Init? then [] else phase.buf));
    }
  }

  // ---- runs ---------------------------------------------------------------------------------

  /** An entry as it is fed to the machine: in one call, or in two. */
  datatype Item = Whole(key: Val, value: Val) | Pair(key: Val, value: Val)

  function Calls(items: seq<Item>): seq<Call> {
    if items == [] then [] else CallsOf(items[0]) + Calls(items[1..])
  }

  function CallsOf(i: Item): seq<Call> {
    match i
    case Whole(k, v) => [WholeEntry(k, v)]
    case Pair(k, v) => [JustKey(k), JustValue(v)]
  }

  lemma {:induction false} CallAllAppends(m: Machine, cs: seq<Call>, ds: seq<Call>)
    ensures CallAll(m, cs + ds) == (if CallAll(m, cs).Ok? then CallAll(CallAll(m, cs).value, ds) else CallAll(m, cs))
    decreases cs
  {
    hide Call1;
    if cs == [] {
      assert cs + ds == ds;
    } else {
      assert (cs + ds)[0] == cs[0] && (cs + ds)[1..] == cs[1..] + ds;
      if Call1(m, cs[0]).Ok? { CallAllAppends(Call1(m, cs[0]).value, cs[1..], ds); }
    }
  }

  lemma PairCalls(m: Machine, k: Val, v: Val)
    ensures CallAll(m, [JustKey(k), JustValue(v)]) ==
              if Call1(m, JustKey(k)).Ok? then Call1(Call1(m, JustKey(k)).value, JustValue(v)) else Call1(m, JustKey(k))
    ensures CallAll(m, [WholeEntry(k, v)]) == Call1(m, WholeEntry(k, v))
  {
    hide Call1;
    var c := Call1(m, JustKey(k));
    assert [JustKey(k), JustValue(v)][1..] == [JustValue(v)];
    if c.Ok? { assert CallAll(c.value, [JustValue(v)]) == Call1(c.value, JustValue(v)); }
    assert [WholeEntry(k, v)][1..] == [];
  }

  /** Only a whole entry lets its key's flags reach its value. */
  predicate ItemTame(i: Item) {
    Tame(NoEnc, i.key) && Tame(NoEnc, i.value) && (i.Whole? ==> EntryTame(Entry(i.key, i.value)))
  }

  predicate ItemAccepted(i: Item) {
    Accepts(false, i.key) && Accepts(false, i.value)
  }

  predicate AllAccepted(items: seq<Item>) {
    forall i :: 0 <= i < |items| ==> ItemAccepted(items[i])
  }

  lemma AllAcceptedStep(items: seq<Item>)
    requires items != []
    ensures AllAccepted(items) <==> ItemAccepted(items[0]) && AllAccepted(items[1..])
  {
    hide ItemAccepted;
  }

  lemma NothingToDo(m: Machine)
    ensures CallAll(m, []) == Ok(m) && AllAccepted([])
  {
  }

  function ItemBytes(i: Item): bytes {
    Encode(false, i.key) + Encode(false, i.value)
  }

  function AllBytes(items: seq<Item>): bytes {
    if items == [] then [] else ItemBytes(items[0]) + AllBytes(items[1..])
  }

  /** The sizes taken to reserve the buffer when `i` comes first. */
  predicate Sized(hint: Option<nat>, i: Item) {
    (i.Whole? && hint == None) || (Size(NotElem, NoEnc, i.key).Ok? && Size(NotElem, NoEnc, i.value).Ok?)
  }

  /** A hint of no entries, and then a key: the reserve arithmetic subtracts from zero. */
  predicate Underflows(hint: Option<nat>, items: seq<Item>) {
    hint == Some(0) && items != [] && items[0].Pair?
  }

  lemma ValueRuns(v: Val)
    requires Tame(NoEnc, v)
    ensures Run(Plain(NotElem), v).Ok? ==> Run(Plain(NotElem), v).value.out == Encode(false, v)
    ensures Run(Plain(NotElem), v).Ok? <==> Accepts(false, v)
    ensures Run(Plain(NotElem), v).Ok? || Run(Plain(NotElem), v) == Err(TooLong)
    ensures Size(NotElem, NoEnc, v).Ok? || Size(NotElem, NoEnc, v) == Err(TooLong)
    ensures Size(NotElem, NoEnc, v).Ok? ==> Accepts(false, v)
    ensures Accepts(false, v) ==> |Encode(false, v)| > 0
  {
    hide Run, Encode, Fits, Reserves, Tame, Sensitive, After, Size;
    ClearIsInsensitive(Plain(NotElem), v);
    Refines(Plain(NotElem), v);
    SizeBounds(NoEnc, v);
    if Fits(false, v) { EncodingStart(false, v); }
  }

  lemma LaterItem(num: nat, buf: bytes, i: Item)
    requires ItemTame(i)
    ensures CallAll(Machine(num, Buffer(buf)), CallsOf(i)) ==
              if ItemAccepted(i) then Ok(Machine(num + 2, Buffer(buf + ItemBytes(i)))) else Err(TooLong)
  {
    hide Run, RunEntry, Encode, Fits, Reserves, Tame, EntryTame, Accepts;
    var m := Machine(num, Buffer(buf));
    PairCalls(m, i.key, i.value);
    ValueRuns(i.key);
    ValueRuns(i.value);
    match i
    case Whole(k, v) => WholeRuns(k, v);
    case Pair(k, v) => assert buf + Encode(false, k) + Encode(false, v) == buf + ItemBytes(i);
  }

  lemma WholeRuns(k: Val, v: Val)
    requires EntryTame(Entry(k, v))
    ensures RunEntry(Entry(k, v)) ==
              if Accepts(false, k) && Accepts(false, v) then Ok(Encode(false, k) + Encode(false, v)) else Err(TooLong)
  {
    hide Encode, Fits, Reserves, RunEntry;
    EntryRefines(Entry(k, v));
  }

  lemma FirstItem(hint: Option<nat>, i: Item)
    requires ItemTame(i)
    ensures var o := CallAll(Machine(0, Init(hint)), CallsOf(i));
            && (!Underflows(hint, [i]) ==>
                  o == if Sized(hint, i) && ItemAccepted(i) then Ok(Machine(2, Buffer(ItemBytes(i)))) else Err(TooLong))
            && (Underflows(hint, [i]) ==> o == if Sized(hint, i) && ItemAccepted(i) then Panic else Err(TooLong))
  {
    hide Run, RunEntry, Encode, Fits, Reserves, Tame, EntryTame, Size, Accepts;
    PairCalls(Machine(0, Init(hint)), i.key, i.value);
    ValueRuns(i.key);
    ValueRuns(i.value);
    match i
    case Whole(k, v) =>
      WholeRuns(k, v);
      assert [] + ItemBytes(i) == ItemBytes(i);
    case Pair(k, v) =>
      assert [] + Encode(false, k) == Encode(false, k);
      if hint.Some? && Size(NotElem, NoEnc, v).Ok? && Accepts(false, k) { ReserveIff(hint, |Encode(false, k)|, Size(NotElem, NoEnc, v).value); }
  }

  lemma {:induction false} MoreThanOne(n: nat, size: nat)
    requires n > 0
    ensures n * size >= size
  {
    if n > 1 {
      MoreThanOne(n - 1, size);
      assert n * size == (n - 1) * size + size;
    }
  }

  /** With the key in the buffer, the subtraction underflows exactly when the hint is zero. */
  lemma ReserveIff(hint: Option<nat>, key: nat, value: nat)
    requires key > 0
    ensures Reserve(hint, key + value, key) == Panic <==> hint == Some(0)
  {
    if hint.Some? && hint.value > 0 {
      MoreThanOne(hint.value, key + value);
    }
  }

  lemma {:induction false} LaterItems(num: nat, buf: bytes, items: seq<Item>)
    requires forall i :: 0 <= i < |items| ==> ItemTame(items[i])
    ensures CallAll(Machine(num, Buffer(buf)), Calls(items)) ==
              if AllAccepted(items)
              then Ok(Machine(num + 2 * |items|, Buffer(buf + AllBytes(items)))) else Err(TooLong)
    decreases items
  {
    hide ItemTame, AllAccepted, ItemAccepted, ItemBytes, CallsOf, CallAll;
    if items == [] {
      NothingToDo(Machine(num, Buffer(buf)));
      assert buf + [] == buf;
    } else {
      LaterItem(num, buf, items[0]);
      CallAllAppends(Machine(num, Buffer(buf)), CallsOf(items[0]), Calls(items[1..]));
      LaterItems(num + 2, buf + ItemBytes(items[0]), items[1..]);
      assert buf + ItemBytes(items[0]) + AllBytes(items[1..]) == buf + AllBytes(items);
      AllAcceptedStep(items);
    }
  }

  /**
   Every run of entries and of key-value pairs, with any hint that does not underflow (so with every
   honest one): the machine ends with all encodings in order and twice the number of entries, or
   fails for length. It never reaches an `unreachable!` arm.
   */
  lemma MapRuns(hint: Option<nat>, items: seq<Item>)
    requires forall i :: 0 <= i < |items| ==> ItemTame(items[i])
    requires !Underflows(hint, items)
    ensures CallAll(Machine(0, Init(hint)), Calls(items)) ==
              if items == [] then Ok(Machine(0, Init(hint)))
              else if Sized(hint, items[0]) && AllAccepted(items)
              then Ok(Machine(2 * |items|, Buffer(AllBytes(items)))) else Err(TooLong)
  {
    hide ItemTame, AllAccepted, ItemAccepted, ItemBytes, CallsOf, Sized, CallAll;
    NothingToDo(Machine(0, Init(hint)));
    if items != [] {
      FirstItem(hint, items[0]);
      CallAllAppends(Machine(0, Init(hint)), CallsOf(items[0]), Calls(items[1..]));
      LaterItems(2, ItemBytes(items[0]), items[1..]);
      AllAcceptedStep(items);
    }
  }

  /**
   Exactly when a run panics, whatever the hint and whether or not its later entries can be written:
   the hint is zero, the first entry comes as a key, and both its halves are sized and accepted.
   */
  lemma PanicsIff(hint: Option<nat>, items: seq<Item>)
    requires forall i :: 0 <= i < |items| ==> ItemTame(items[i])
    ensures CallAll(Machine(0, Init(hint)), Calls(items)) == Panic <==>
              Underflows(hint, items) && Sized(hint, items[0]) && ItemAccepted(items[0])
  {
    hide ItemTame, AllAccepted, ItemAccepted, ItemBytes, CallsOf, Sized, CallAll;
    if Underflows(hint, items) {
      FirstItem(hint, items[0]);
      CallAllAppends(Machine(0, Init(hint)), CallsOf(items[0]), Calls(items[1..]));
    } else {
      MapRuns(hint, items);
    }
  }

  // ---- the serializer's maps are runs of the machine ----------------------------------------

  function WholeCalls(es: seq<Entry>): seq<Call> {
    if es == [] then [] else [WholeEntry(es[0].key, es[0].value)] + WholeCalls(es[1..])
  }

  lemma {:induction false} LaterEntries(num: nat, buf: bytes, es: seq<Entry>)
    ensures CallAll(Machine(num, Buffer(buf)), WholeCalls(es)) ==
              (var o := RunEntries(es);
               if o.Ok? then Ok(Machine(num + 2 * |es|, Buffer(buf + o.value))) else o.PropagateFailure<Machine>())
    decreases es
  {
    hide RunEntry;
    if es == [] {
      assert buf + [] == buf;
    } else {
      var c := WholeEntry(es[0].key, es[0].value);
      assert WholeCalls(es)[0] == c && WholeCalls(es)[1..] == WholeCalls(es[1..]);
      assert Entry(c.key, c.value) == es[0];
      if RunEntry(es[0]).Ok? {
        LaterEntries(num + 2, buf + RunEntry(es[0]).value, es[1..]);
        if RunEntries(es[1..]).Ok? {
          assert buf + RunEntry(es[0]).value + RunEntries(es[1..]).value == buf + (RunEntry(es[0]).value + RunEntries(es[1..]).value);
        }
      }
    }
  }

  /** `serialize_map` on any entries, tame or not, is the machine fed whole entries, and then its end. */
  lemma MapIsMachine(cfg: Config, es: seq<Entry>)
    ensures RunMap(cfg, es) ==
              (var o := CallAll(Machine(0, Init(Some(|es|))), WholeCalls(es));
               if !o.Ok? then o.PropagateFailure<Step>()
               else var w := WriteMap(cfg.mode, o.value.num, Buffered(o.value.phase));
                    if w.Ok? then Ok(Step(w.value, cfg)) else w.PropagateFailure<Step>())
  {
    hide RunEntry, SizeEntry, WriteMap;
    if es != [] {
      var c := WholeEntry(es[0].key, es[0].value);
      assert WholeCalls(es)[0] == c && WholeCalls(es)[1..] == WholeCalls(es[1..]);
      assert Entry(c.key, c.value) == es[0];
      if RunEntry(es[0]).Ok? {
        assert [] + RunEntry(es[0]).value == RunEntry(es[0]).value;
        LaterEntries(2, RunEntry(es[0]).value, es[1..]);
      }
    }
  }
}
