/**
 The WebSocket adapter: a stream of messages read as a stream of bytes, and bytes written as
 messages. The stream inside is a script of what its polls give, in order.
 */
module WebSockets {
  import opened Bytes

  datatype Message = Text | Binary(data: bytes) | Ping | Pong | Close | Frame

  /** What one poll of the inner stream gives; past the end of the script it has ended. */
  datatype Event = NotYet | Got(msg: Message) | Failed | Ended

  /** How the sink answers a write: in `poll_ready`, or in `start_send`. */
  datatype SinkReply = NotReady | ReadyFails | SendFails | Accepted

  datatype Written = WritePending | WriteReady(n: nat) | WriteFailure

  datatype Offer = Offer(buf: bytes, reply: SinkReply)

  datatype Cursor = Cursor(data: bytes, pos: nat)

  /** The adapter's fields. A cursor may have been read to its end. */
  datatype Adapter = Adapter(inner: seq<Event>, current: Option<Cursor>)

  datatype Poll = Pending | Ready(data: bytes) | Failure | Unreachable

  // ---- what one read does -------------------------------------------------------------------

  ghost predicate Valid(a: Adapter) {
    a.current.Some? ==> a.current.value.pos <= |a.current.value.data|
  }

  /** The bytes of the current message that have not been read. */
  ghost function Unread(a: Adapter): bytes
    requires Valid(a)
  {
    if a.current.None? then [] else a.current.value.data[a.current.value.pos..]
  }

  /** Messages that carry no byte and do not end a read. */
  predicate Idle(e: Event) {
    e.Got? && (e.msg.Ping? || e.msg.Pong? || e.msg.Close? || e.msg == Binary([]))
  }

  function SkipIdle(events: seq<Event>): seq<Event> {
    if events != [] && Idle(events[0]) then SkipIdle(events[1..]) else events
  }

  predicate AtEnd(events: seq<Event>) {
    events == [] || events[0].Ended?
  }

  function Min(a: nat, b: nat): nat {
    if a < b then a else b
  }

  /**
   `poll_read` into a buffer with `room` free bytes: its answer, the events left, the bytes of the
   current message left.
   */
  ghost function Answer(unread: bytes, events: seq<Event>, room: nat): (Poll, seq<Event>, bytes) {
    if unread != [] then
      var n := Min(room, |unread|);
      (Ready(unread[..n]), events, unread[n..])
    else
      var later := SkipIdle(events);
      if later == [] then (Ready([]), [], [])
      else
        match later[0]
        case NotYet => (Pending, later[1..], [])
        case Failed => (Failure, later[1..], [])
        case Ended => (Ready([]), later[1..], [])
        case Got(Binary(b)) => var n := Min(room, |b|); (Ready(b[..n]), later[1..], b[n..])
        case Got(Frame) => (Unreachable, later[1..], [])
        case Got(_) => (Failure, later[1..], [])
  }

  class WebSocketStream {
    var inner: seq<Event>
    var current: Option<Cursor>
    var sent: seq<Message>

    constructor (events: seq<Event>)
      ensures Now() == Adapter(events, None) && sent == []
    {
      inner, current, sent := events, None, [];
    }

    ghost function Now(): Adapter
      reads this
    {
      Adapter(inner, current)
    }

    method PollNext() returns (e: Event)
      modifies this`inner
      ensures e == if old(inner) == [] then Ended else old(inner)[0]
      ensures inner == if old(inner) == [] then [] else old(inner)[1..]
    {
      if inner == [] { return Ended; }
      e := inner[0];
      inner := inner[1..];
    }

    /** Appends to `buf` behind its first `filled` bytes. */
    method PollRead(buf: array<byte>, filled: nat) returns (r: Poll, filled1: nat)
      requires Valid(Now()) && filled <= buf.Length
      modifies this, buf
      ensures Valid(Now()) && sent == old(sent)
      ensures (r, inner, Unread(Now())) == Answer(old(Unread(Now())), old(inner), buf.Length - filled)
      ensures filled <= filled1 <= buf.Length && buf[filled..filled1] == (if r.Ready? then r.data else [])
      ensures forall i :: 0 <= i < buf.Length && !(filled <= i < filled1) ==> buf[i] == old(buf[i])
    {
      hide Answer;
      ghost var answer := Answer(Unread(Now()), inner, buf.Length - filled);
      filled1 := filled;
      while current.None? || current.value.pos >= |current.value.data|
        invariant Valid(Now()) && sent == old(sent)
        invariant answer == Answer(Unread(Now()), inner, buf.Length - filled)
        modifies this
        decreases |inner|
      {
        AnswerStep(inner, buf.Length - filled);
        assert Unread(Now()) == [];
        assert inner == [] ==> answer == (Ready([]), inner, []);
        var e := PollNext();
        match e
        case NotYet => return Pending, filled;
        case Failed => return Failure, filled;
        case Ended => return Ready([]), filled;
        case Got(m) =>
          match m
          case Text => return Failure, filled;
          case Binary(b) => current := Some(Cursor(b, 0));
          case Ping =>
          case Pong =>
          case Close =>
          case Frame => return Unreachable, filled;
      }
      var cursor := current.value;
      var len := Min(buf.Length - filled, |cursor.data| - cursor.pos);
      AnswerRead(cursor.data[cursor.pos..], inner, buf.Length - filled);
      forall i | filled <= i < filled + len {
        buf[i] := cursor.data[cursor.pos + i - filled];
      }
      current := Some(cursor.(pos := cursor.pos + len));
      filled1 := filled + len;
      r := Ready(cursor.data[cursor.pos..cursor.pos + len]);
      assert buf[filled..filled1] == r.data;
      assert cursor.data[cursor.pos..][..len] == r.data;
      assert cursor.data[cursor.pos..][len..] == cursor.data[cursor.pos + len..];
    }

    /** One message per write, of all the bytes offered. */
    method PollWrite(buf: bytes, reply: SinkReply) returns (r: Written)
      modifies this`sent
      ensures sent == old(sent) + Accepts(Offer(buf, reply))
      ensures r == match reply
                   case NotReady => WritePending
                   case Accepted => WriteReady(|buf|)
                   case _ => WriteFailure
    {
      if reply.NotReady? { return WritePending; }
      if reply.ReadyFails? { return WriteFailure; }
      if reply.SendFails? { return WriteFailure; }
      sent := sent + [Binary(buf)];
      r := WriteReady(|buf|);
    }
  }

  lemma AnswerRead(unread: bytes, events: seq<Event>, room: nat)
    requires unread != []
    ensures var n := Min(room, |unread|);
            Answer(unread, events, room) == (Ready(unread[..n]), events, unread[n..])
  {
  }

  /** With nothing left of the current message, the answer is decided by the next event. */
  lemma AnswerStep(events: seq<Event>, room: nat)
    ensures events == [] ==> Answer([], events, room) == (Ready([]), [], [])
    ensures events != [] ==>
              Answer([], events, room) ==
              match events[0]
              case NotYet => (Pending, events[1..], [])
              case Failed => (Failure, events[1..], [])
              case Ended => (Ready([]), events[1..], [])
              case Got(Text) => (Failure, events[1..], [])
              case Got(Frame) => (Unreachable, events[1..], [])
              case Got(Binary(b)) => Answer(b, events[1..], room)
              case Got(_) => Answer([], events[1..], room)
  {
  }

  // ---- runs of reads ------------------------------------------------------------------------

  /** A run of reads into buffers with `rooms` free bytes: the answers, the events left, the bytes left. */
  ghost function Polls(unread: bytes, events: seq<Event>, rooms: seq<nat>): (seq<Poll>, seq<Event>, bytes)
    decreases |rooms|
  {
    if rooms == [] then ([], events, unread)
    else
      var (p, events1, unread1) := Answer(unread, events, rooms[0]);
      var (ps, events2, unread2) := Polls(unread1, events1, rooms[1..]);
      ([p] + ps, events2, unread2)
  }

  function Received(polls: seq<Poll>): bytes {
    if polls == [] then [] else (if polls[0].Ready? then polls[0].data else []) + Received(polls[1..])
  }

  function Binaries(events: seq<Event>): seq<Message> {
    if events == [] then []
    else (if events[0].Got? && events[0].msg.Binary? then [events[0].msg] else []) + Binaries(events[1..])
  }

  function Bodies(messages: seq<Message>): bytes {
    if messages == [] then [] else (if messages[0].Binary? then messages[0].data else []) + Bodies(messages[1..])
  }

  function Payload(events: seq<Event>): bytes {
    Bodies(Binaries(events))
  }

  lemma PayloadStep(events: seq<Event>)
    requires events != []
    ensures Payload(events) ==
              (if events[0].Got? && events[0].msg.Binary? then events[0].msg.data else []) + Payload(events[1..])
  {
    var rest := Binaries(events[1..]);
    if events[0].Got? && events[0].msg.Binary? {
      assert ([events[0].msg] + rest)[1..] == rest;
    } else {
      assert [] + rest == rest && [] + Payload(events[1..]) == Payload(events[1..]);
    }
  }

  lemma {:induction false} IdleIsEmpty(events: seq<Event>)
    ensures Payload(SkipIdle(events)) == Payload(events)
    ensures SkipIdle(events) != [] ==> !Idle(SkipIdle(events)[0])
  {
    if events != [] && Idle(events[0]) {
      PayloadStep(events);
      IdleIsEmpty(events[1..]);
    }
  }

  /** No read loses, repeats or reorders a byte, whatever it answers. */
  lemma ReadConserves(unread: bytes, events: seq<Event>, room: nat)
    ensures var (p, events1, unread1) := Answer(unread, events, room);
            unread + Payload(events) == Received([p]) + (unread1 + Payload(events1))
  {
    hide Payload, SkipIdle;
    var (p, events1, unread1) := Answer(unread, events, room);
    assert Received([p]) == if p.Ready? then p.data else [];
    if unread != [] {
      var n := Min(room, |unread|);
      assert unread == unread[..n] + unread[n..];
    } else {
      IdleIsEmpty(events);
      var later := SkipIdle(events);
      if later != [] {
        PayloadStep(later);
        if later[0].Got? && later[0].msg.Binary? {
          var b := later[0].msg.data;
          var n := Min(room, |b|);
          assert b == b[..n] + b[n..];
        }
      }
    }
  }

  /**
   Conservation over any run of reads, with any buffers, pending answers, errors, pings, closes and
   empty messages: what was read and what is left are the binary payloads, in order.
   */
  lemma {:induction false} RunConserves(unread: bytes, events: seq<Event>, rooms: seq<nat>)
    ensures var (ps, events1, unread1) := Polls(unread, events, rooms);
            unread + Payload(events) == Received(ps) + (unread1 + Payload(events1))
    decreases |rooms|
  {
    hide Answer, Payload;
    if rooms != [] {
      var (p, events1, unread1) := Answer(unread, events, rooms[0]);
      ReadConserves(unread, events, rooms[0]);
      RunConserves(unread1, events1, rooms[1..]);
      var ps := Polls(unread1, events1, rooms[1..]).0;
      assert ([p] + ps)[1..] == ps;
      assert Received([p] + ps) == Received([p]) + Received(ps);
    }
  }

  /** The bytes read in a run from a new adapter are a prefix of the binary payloads. */
  lemma ReadsAPrefix(events: seq<Event>, rooms: seq<nat>)
    ensures Received(Polls([], events, rooms).0) <= Payload(events)
  {
    hide Polls, Payload;
    RunConserves([], events, rooms);
    assert [] + Payload(events) == Payload(events);
  }

  /**
   A read into a non-empty buffer succeeds with nothing exactly when the stream has ended: nothing
   of the current message is left, and only idle messages stand before the end.
   */
  lemma EmptyReadIff(unread: bytes, events: seq<Event>, room: nat)
    requires room > 0
    ensures Answer(unread, events, room).0 == Ready([]) <==> unread == [] && AtEnd(SkipIdle(events))
  {
    IdleIsEmpty(events);
    if unread != [] {
      assert |unread[..Min(room, |unread|)]| > 0;
    } else {
      var later := SkipIdle(events);
      if later != [] && later[0].Got? && later[0].msg.Binary? {
        assert later[0].msg.data != [];
        assert |later[0].msg.data[..Min(room, |later[0].msg.data|)]| > 0;
      }
    }
  }

  // ---- writes, and the two sides together ---------------------------------------------------

  function Accepts(o: Offer): seq<Message> {
    if o.reply.Accepted? then [Binary(o.buf)] else []
  }

  /** The messages and the bytes that a run of writes was told were taken. */
  function Sent(offers: seq<Offer>): seq<Message> {
    if offers == [] then [] else Accepts(offers[0]) + Sent(offers[1..])
  }

  function Taken(offers: seq<Offer>): bytes {
    if offers == [] then []
    else (if offers[0].reply.Accepted? then offers[0].buf else []) + Taken(offers[1..])
  }

  lemma {:induction false} WritesConserve(offers: seq<Offer>)
    ensures Bodies(Sent(offers)) == Taken(offers)
  {
    if offers != [] {
      WritesConserve(offers[1..]);
      if offers[0].reply.Accepted? {
        assert Sent(offers)[1..] == Sent(offers[1..]);
      } else {
        assert Sent(offers) == Sent(offers[1..]);
      }
    }
  }

  lemma {:induction false} BodiesOfPrefix(some: seq<Message>, all: seq<Message>)
    requires some <= all
    ensures Bodies(some) <= Bodies(all)
  {
    if some != [] {
      BodiesOfPrefix(some[1..], all[1..]);
    }
  }

  /**
   End to end: when the peer's binary messages arrive in order, among anything else, every run of
   reads gives a prefix of the bytes whose writes were accepted, and all of them once every message
   has arrived and nothing is left.
   */
  lemma EndToEnd(offers: seq<Offer>, events: seq<Event>, rooms: seq<nat>)
    requires Binaries(events) <= Sent(offers)
    ensures Received(Polls([], events, rooms).0) <= Taken(offers)
    ensures Binaries(events) == Sent(offers) && Polls([], events, rooms).1 == [] && Polls([], events, rooms).2 == [] ==>
              Received(Polls([], events, rooms).0) == Taken(offers)
  {
    hide Polls, Bodies;
    RunConserves([], events, rooms);
    assert [] + Payload(events) == Payload(events);
    WritesConserve(offers);
    BodiesOfPrefix(Binaries(events), Sent(offers));
    assert Payload([]) == [] by { NothingArrives(); }
  }

  lemma NothingArrives()
    ensures Payload([]) == []
  {
  }
}
