/**
 The server's side of SASL negotiation: the loop that answers a client's frames until an outcome is
 sent, for any acceptor; and the PLAIN acceptor.
 */
module Sasl {
  import opened Bytes

  const ANONYMOUS: string := "ANONYMOUS"
  const PLAIN: string := "PLAIN"

  /** `SaslCode`; only `CodeOk` lets the connection go on. */
  datatype SaslCode = CodeOk | CodeAuth | CodeSys | CodeSysPerm | CodeSysTemp

  datatype ClientFrame =
    | Init(mechanism: string, initialResponse: Option<bytes>)
    | Response(response: bytes)
    | OtherFrame

  /** What the transport gives when it is asked for the next frame; past the script it has ended. */
  datatype Incoming = Arrives(frame: ClientFrame) | ReadFails

  datatype ServerFrame = Challenge(challenge: bytes) | Outcome(code: SaslCode, data: Option<bytes>)

  datatype Sent = SentMechanisms(names: seq<string>) | SentFrame(frame: ServerFrame)

  /** An acceptor with state `S`: each callback gives the new state and the answer. */
  datatype Acceptor<!S> = Acceptor(
    mechanisms: S -> seq<string>,
    onInit: (S, ClientFrame) -> (S, ServerFrame),
    onResponse: (S, bytes) -> (S, ServerFrame))

  /** How a negotiation ends: on to the AMQP header, with a SASL error, or cut off. */
  datatype Ending = AmqpNegotiation | SaslError(code: SaslCode, data: Option<bytes>) | IoError

  // ---- the dialogue as a function -----------------------------------------------------------

  function Answer<S>(acc: Acceptor<S>, s: S, f: ClientFrame): (S, ServerFrame) {
    match f
    case Init(_, _) => acc.onInit(s, f)
    case Response(x) => acc.onResponse(s, x)
    case OtherFrame => (s, Outcome(CodeSys, None))
  }

  /** The frames sent after the mechanisms, when `sends` more can be sent before sending fails. */
  function Dialogue<S>(acc: Acceptor<S>, s: S, incoming: seq<Incoming>, sends: nat): (seq<ServerFrame>, Ending)
    decreases |incoming|
  {
    if incoming == [] || incoming[0].ReadFails? then ([], IoError)
    else
      var (s1, a) := Answer(acc, s, incoming[0].frame);
      if sends == 0 then ([], IoError)
      else if a.Challenge? then
        var (rest, end) := Dialogue(acc, s1, incoming[1..], sends - 1);
        ([a] + rest, end)
      else ([a], if a.code == CodeOk then AmqpNegotiation else SaslError(a.code, a.data))
  }

  /** `negotiate_sasl_with_framed`, from the mechanisms on, over a scripted transport. */
  class Negotiation<!S> {
    var sent: seq<Sent>
    var read: nat

    constructor ()
      ensures sent == [] && read == 0
    {
      sent, read := [], 0;
    }

    method Run(acc: Acceptor<S>, initial: S, incoming: seq<Incoming>, sends: nat) returns (end: Ending)
      requires sent == [] && read == 0
      modifies this
      ensures sends == 0 ==> end == IoError && sent == [] && read == 0
      ensures sends > 0 ==> sent != [] && sent[0].SentMechanisms? && sent[0].names != []
      ensures sends > 0 ==>
                var (frames, e) := Dialogue(acc, initial, incoming, sends - 1);
                && end == e
                && sent == [SentMechanisms(if acc.mechanisms(initial) == [] then ["ANONYMOUS"] else acc.mechanisms(initial))] + AsSent(frames)
                && (end != IoError ==> read == |frames|)
    {
      if sends == 0 { return IoError; }
      var names := acc.mechanisms(initial);
      sent := [SentMechanisms(if names == [] then [ANONYMOUS] else names)];
      ghost var first := sent;
      var state, left: nat := initial, sends - 1;
      ghost var done: seq<ServerFrame> := [];
      assert incoming[0..] == incoming;
      hide Dialogue, AsSent;
      NothingSent(Dialogue(acc, initial, incoming, sends - 1));
      while true
        invariant read <= |incoming| && read == |done|
        invariant sent == first + AsSent(done)
        invariant Dialogue(acc, initial, incoming, sends - 1) == After(done, Dialogue(acc, state, incoming[read..], left))
        decreases |incoming| - read
      {
        DialogueStep(acc, state, incoming, read, left);
        AsSentAppends(done);
        assert done + [] == done;
        if read == |incoming| || incoming[read].ReadFails? { return IoError; }
        var (state1, a) := Answer(acc, state, incoming[read].frame);
        read := read + 1;
        if left == 0 { return IoError; }
        left, state := left - 1, state1;
        sent := sent + [SentFrame(a)];
        AfterAssoc(done, a, Dialogue(acc, state, incoming[read..], left));
        done := done + [a];
        if a.Outcome? { return if a.code == CodeOk then AmqpNegotiation else SaslError(a.code, a.data); }
      }
    }
  }

  function After(done: seq<ServerFrame>, d: (seq<ServerFrame>, Ending)): (seq<ServerFrame>, Ending) {
    (done + d.0, d.1)
  }

  lemma AfterAssoc(done: seq<ServerFrame>, a: ServerFrame, d: (seq<ServerFrame>, Ending))
    ensures After(done, After([a], d)) == After(done + [a], d)
  {
    assert done + ([a] + d.0) == done + [a] + d.0;
  }

  lemma NothingSent(d: (seq<ServerFrame>, Ending))
    ensures After([], d) == d && AsSent([]) == []
  {
    assert [] + d.0 == d.0;
  }

  lemma DialogueStep<S>(acc: Acceptor<S>, s: S, incoming: seq<Incoming>, read: nat, left: nat)
    requires read <= |incoming|
    ensures Dialogue(acc, s, incoming[read..], left) ==
              if read == |incoming| || incoming[read].ReadFails? || left == 0 then ([], IoError)
              else
                var (s1, a) := Answer(acc, s, incoming[read].frame);
                if a.Challenge? then After([a], Dialogue(acc, s1, incoming[read + 1..], left - 1))
                else ([a], if a.code == CodeOk then AmqpNegotiation else SaslError(a.code, a.data))
  {
    if read < |incoming| { assert incoming[read..][1..] == incoming[read + 1..]; }
  }

  function AsSent(frames: seq<ServerFrame>): seq<Sent> {
    seq(|frames|, i requires 0 <= i < |frames| => SentFrame(frames[i]))
  }

  lemma AsSentAppends(frames: seq<ServerFrame>)
    ensures forall a :: AsSent(frames + [a]) == AsSent(frames) + [SentFrame(a)]
  {
    forall a ensures AsSent(frames + [a]) == AsSent(frames) + [SentFrame(a)] {
      assert AsSent(frames + [a]) == AsSent(frames) + [SentFrame(a)];
    }
  }

  // ---- the shape of a run -------------------------------------------------------------------

  predicate Challenges(frames: seq<ServerFrame>) {
    forall i :: 0 <= i < |frames| ==> frames[i].Challenge?
  }

  /**
   Every run, for every acceptor and every client, behind the mechanisms: challenges, and then, unless it is cut off,
   exactly one outcome, which answers the last frame read; the AMQP header is negotiated if and only
   if that outcome is ok. A run that is cut off has sent challenges only.
   */
  lemma {:induction false} RunShape<S>(acc: Acceptor<S>, s: S, incoming: seq<Incoming>, sends: nat)
    ensures var (frames, end) := Dialogue(acc, s, incoming, sends);
            && |frames| <= |incoming| && |frames| <= sends
            && (end == IoError ==> Challenges(frames))
            && (end != IoError ==>
                  && frames != [] && Challenges(frames[..|frames| - 1]) && frames[|frames| - 1].Outcome?
                  && (end == AmqpNegotiation <==> frames[|frames| - 1].code == CodeOk)
                  && (end.SaslError? ==> frames[|frames| - 1] == Outcome(end.code, end.data)))
    decreases |incoming|
  {
    if incoming != [] && incoming[0].Arrives? && sends > 0 {
      var (s1, a) := Answer(acc, s, incoming[0].frame);
      if a.Challenge? {
        RunShape(acc, s1, incoming[1..], sends - 1);
        var rest := Dialogue(acc, s1, incoming[1..], sends - 1).0;
        var frames := [a] + rest;
        if rest != [] {
          assert frames[..|frames| - 1] == [a] + rest[..|rest| - 1];
        }
      }
    }
  }

  /** A run of `k` challenges reads `k + 1` frames: those, and no later ones, decide it. */
  lemma {:induction false} LaterFramesAreUnread<S>(acc: Acceptor<S>, s: S, incoming: seq<Incoming>, later: seq<Incoming>, sends: nat)
    requires Dialogue(acc, s, incoming, sends).1 != IoError
    ensures var n := |Dialogue(acc, s, incoming, sends).0|;
            && n <= |incoming|
            && Dialogue(acc, s, incoming[..n] + later, sends) == Dialogue(acc, s, incoming, sends)
    decreases |incoming|
  {
    var n := |Dialogue(acc, s, incoming, sends).0|;
    RunShape(acc, s, incoming, sends);
    var other := incoming[..n] + later;
    assert other[0] == incoming[0];
    var (s1, a) := Answer(acc, s, incoming[0].frame);
    if a.Challenge? {
      LaterFramesAreUnread(acc, s1, incoming[1..], later, sends - 1);
      assert other[1..] == incoming[1..][..n - 1] + later;
    }
  }

  // ---- PLAIN --------------------------------------------------------------------------------

  predicate NulFree(s: bytes) {
    forall i :: 0 <= i < |s| ==> s[i] != 0
  }

  /** Where the first NUL is, or the length. */
  function FirstNul(s: bytes): (i: nat)
    ensures i <= |s| && NulFree(s[..i]) && (i < |s| ==> s[i] == 0)
  {
    if s == [] || s[0] == 0 then 0
    else
      var i := FirstNul(s[1..]);
      assert s[..i + 1] == [s[0]] + s[1..][..i];
      i + 1
  }

  /** `split` at every NUL. */
  function Split(s: bytes): (parts: seq<bytes>)
    ensures |parts| >= 1
    decreases |s|
  {
    var i := FirstNul(s);
    if i == |s| then [s] else [s[..i]] + Split(s[i + 1..])
  }

  datatype PlainMechanism = PlainMechanism(username: bytes, password: bytes)

  function ValidateInit(m: PlainMechanism, initialResponse: Option<bytes>): Option<SaslCode> {
    match initialResponse
    case None => None
    case Some(response) =>
      var parts := Split(response);
      if |parts| < 3 then None
      else Some(if m.username == parts[1] && m.password == parts[2] then CodeOk else CodeAuth)
  }

  function PlainOnInit(m: PlainMechanism, f: ClientFrame): (PlainMechanism, ServerFrame) {
    var code := if f.Init? then ValidateInit(m, f.initialResponse) else None;
    (m, Outcome(if code.Some? then code.value else CodeAuth, None))
  }

  function PlainAcceptor(): Acceptor<PlainMechanism> {
    Acceptor(
      (m: PlainMechanism) => [PLAIN],
      (m: PlainMechanism, f: ClientFrame) => PlainOnInit(m, f),
      (m: PlainMechanism, x: bytes) => (m, Outcome(CodeSys, None)))
  }

  /** A message that carries the credentials: an authorization identity, and what may follow a NUL. */
  predicate Carries(response: bytes, m: PlainMechanism, authzid: bytes, rest: bytes) {
    && NulFree(authzid) && (rest == [] || rest[0] == 0)
    && response == authzid + ([0] + (m.username + ([0] + (m.password + rest))))
  }

  lemma FirstNulFront(a: bytes, rest: bytes)
    requires NulFree(a) && (rest == [] || rest[0] == 0)
    ensures FirstNul(a + rest) == |a|
  {
    var s := a + rest;
    var i := FirstNul(s);
    assert forall j :: 0 <= j < |a| ==> s[j] == a[j];
    assert forall j :: 0 <= j < i ==> s[..i][j] == s[j];
    assert rest != [] ==> s[|a|] == 0;
  }

  lemma SplitFront(a: bytes, rest: bytes)
    requires NulFree(a)
    ensures Split(a + ([0] + rest)) == [a] + Split(rest)
    ensures Split(a) == [a]
  {
    FirstNulFront(a, [0] + rest);
    FirstNulFront(a, []);
    assert a + [] == a;
    var s := a + ([0] + rest);
    assert s[..|a|] == a && s[|a| + 1..] == rest;
  }

  /** The first part, and the input behind its NUL. */
  lemma SplitStep(s: bytes)
    ensures NulFree(Split(s)[0])
    ensures |Split(s)| > 1 ==> exists rest :: s == Split(s)[0] + ([0] + rest) && Split(s)[1..] == Split(rest)
    ensures |Split(s)| == 1 ==> Split(s)[0] == s
  {
    var i := FirstNul(s);
    assert s[..|s|] == s;
    if i < |s| {
      var rest := s[i + 1..];
      assert s == s[..i] + ([0] + rest);
      assert Split(s)[1..] == Split(rest);
    }
  }

  /** A message that carries NUL-free credentials is accepted, whatever follows a NUL behind them. */
  lemma CarriersAreAccepted(m: PlainMechanism, authzid: bytes, response: bytes, rest: bytes)
    requires NulFree(m.username) && NulFree(m.password) && Carries(response, m, authzid, rest)
    ensures ValidateInit(m, Some(response)) == Some(CodeOk)
  {
    hide Split, NulFree;
    var tail := m.password + rest;
    SplitFront(authzid, m.username + ([0] + tail));
    SplitFront(m.username, tail);
    if rest == [] {
      assert tail == m.password;
      SplitFront(m.password, []);
    } else {
      assert tail == m.password + ([0] + rest[1..]);
      SplitFront(m.password, rest[1..]);
    }
    assert Split(response) == [authzid] + ([m.username] + Split(tail));
    assert Split(tail)[0] == m.password && |Split(tail)| >= 1;
  }

  /**
   PLAIN, exactly: for any credentials and any initial response, the outcome is ok if and only if the
   credentials are NUL-free and the response is a NUL-free authorization identity, NUL, the username,
   NUL, the password, and then the end or another NUL.
   */
  lemma PlainIff(m: PlainMechanism, response: bytes)
    ensures ValidateInit(m, Some(response)) == Some(CodeOk) <==>
              NulFree(m.username) && NulFree(m.password) && exists authzid, rest :: Carries(response, m, authzid, rest)
  {
    if ValidateInit(m, Some(response)) == Some(CodeOk) {
      AcceptedCarries(m, response);
    }
    if NulFree(m.username) && NulFree(m.password) && exists authzid, rest :: Carries(response, m, authzid, rest) {
      var authzid, rest :| Carries(response, m, authzid, rest);
      CarriersAreAccepted(m, authzid, response, rest);
    }
  }

  lemma AcceptedCarries(m: PlainMechanism, response: bytes)
    requires ValidateInit(m, Some(response)) == Some(CodeOk)
    ensures NulFree(m.username) && NulFree(m.password) && exists authzid, rest :: Carries(response, m, authzid, rest)
  {
    hide Split, NulFree;
    var parts := Split(response);
    SplitStep(response);
    var r1 :| response == parts[0] + ([0] + r1) && parts[1..] == Split(r1);
    SplitStep(r1);
    assert Split(r1)[0] == parts[1] && |Split(r1)| > 1;
    var r2 :| r1 == m.username + ([0] + r2) && Split(r1)[1..] == Split(r2);
    SplitStep(r2);
    assert Split(r2)[0] == Split(r1)[1] == parts[2];
    var rest: bytes := [];
    if |Split(r2)| > 1 {
      var r3 :| r2 == m.password + ([0] + r3) && Split(r2)[1..] == Split(r3);
      rest := [0] + r3;
    } else {
      assert r2 == m.password + rest;
    }
    assert Carries(response, m, parts[0], rest);
  }

  /** A message in the form of RFC 4616, section 2, is accepted exactly when it names the credentials. */
  lemma Rfc4616Message(m: PlainMechanism, authzid: bytes, authcid: bytes, passwd: bytes)
    requires NulFree(authzid) && NulFree(authcid) && NulFree(passwd)
    ensures ValidateInit(m, Some(authzid + ([0] + (authcid + ([0] + passwd))))) ==
              Some(if m.username == authcid && m.password == passwd then CodeOk else CodeAuth)
  {
    SplitFront(authzid, authcid + ([0] + passwd));
    SplitFront(authcid, passwd);
    SplitFront(passwd, []);
  }

  /**
   A whole negotiation with the PLAIN acceptor: the AMQP header is negotiated if and only if the first
   frame is an init that carries the credentials and the outcome could be sent.
   */
  lemma PlainNegotiates(m: PlainMechanism, incoming: seq<Incoming>, sends: nat)
    ensures Dialogue(PlainAcceptor(), m, incoming, sends).1 == AmqpNegotiation <==>
              && sends > 0 && incoming != [] && incoming[0].Arrives? && incoming[0].frame.Init?
              && NulFree(m.username) && NulFree(m.password)
              && incoming[0].frame.initialResponse.Some?
              && exists authzid, rest :: Carries(incoming[0].frame.initialResponse.value, m, authzid, rest)
  {
    hide ValidateInit, NulFree, Carries, Dialogue, PlainAcceptor;
    PlainFirst(m, incoming, sends);
    if incoming != [] && incoming[0].Arrives? && incoming[0].frame.Init? && incoming[0].frame.initialResponse.Some? {
      PlainIff(m, incoming[0].frame.initialResponse.value);
    }
  }

  lemma PlainFirst(m: PlainMechanism, incoming: seq<Incoming>, sends: nat)
    ensures Dialogue(PlainAcceptor(), m, incoming, sends).1 == AmqpNegotiation <==>
              && sends > 0 && incoming != [] && incoming[0].Arrives? && incoming[0].frame.Init?
              && incoming[0].frame.initialResponse.Some?
              && ValidateInit(m, incoming[0].frame.initialResponse) == Some(CodeOk)
  {
    hide NulFree, Split;
  }

  /** An init frame that carries the credentials. */
  ghost predicate HasCredentials(m: PlainMechanism, f: ClientFrame) {
    && f.Init? && f.initialResponse.Some? && NulFree(m.username) && NulFree(m.password)
    && exists authzid, rest :: Carries(f.initialResponse.value, m, authzid, rest)
  }

  /**
   A whole negotiation with the PLAIN acceptor, frame by frame: it offers PLAIN and nothing else, and it
   answers the first frame with the one outcome there is, ok for an init with the credentials, auth for
   any other init, also one without a response or with too few parts, sys for anything else.
   */
  lemma PlainAnswers(m: PlainMechanism, f: ClientFrame, later: seq<Incoming>, sends: nat)
    requires sends > 0
    ensures PlainAcceptor().mechanisms(m) == ["PLAIN"]
    ensures var code := if !f.Init? then CodeSys else if HasCredentials(m, f) then CodeOk else CodeAuth;
            Dialogue(PlainAcceptor(), m, [Arrives(f)] + later, sends) ==
            ([Outcome(code, None)], if HasCredentials(m, f) then AmqpNegotiation else SaslError(code, None))
  {
    hide ValidateInit, NulFree, Carries;
    var incoming := [Arrives(f)] + later;
    assert incoming[0].frame == f;
    if f.Init? && f.initialResponse.Some? {
      PlainIff(m, f.initialResponse.value);
      CodesOfInit(m, f.initialResponse);
    } else {
      CodesOfInit(m, None);
    }
  }

  lemma CodesOfInit(m: PlainMechanism, r: Option<bytes>)
    ensures ValidateInit(m, r) == None || ValidateInit(m, r) == Some(CodeOk) || ValidateInit(m, r) == Some(CodeAuth)
    ensures r == None ==> ValidateInit(m, r) == None
  {
    hide Split;
  }

  /**
   Every frame is answered by the callback it is meant for, in the state that the answers before it
   left; a challenge goes on, an outcome ends.
   */
  lemma EveryFrameIsAnswered<S>(acc: Acceptor<S>, s: S, f: ClientFrame, later: seq<Incoming>, sends: nat)
    requires sends > 0 && !f.OtherFrame?
    ensures var (s1, a) := if f.Init? then acc.onInit(s, f) else acc.onResponse(s, f.response);
            var rest := Dialogue(acc, s1, later, sends - 1);
            Dialogue(acc, s, [Arrives(f)] + later, sends) ==
            (match a
             case Challenge(_) => ([a] + rest.0, rest.1)
             case Outcome(CodeOk, _) => ([a], AmqpNegotiation)
             case Outcome(code, data) => ([a], SaslError(code, data)))
  {
    var incoming := [Arrives(f)] + later;
    assert incoming[0].frame == f && incoming[1..] == later;
  }

  /** A frame that no client should send ends any negotiation with the code sys. */
  lemma OtherFrameEnds<S>(acc: Acceptor<S>, s: S, later: seq<Incoming>, sends: nat)
    requires sends > 0
    ensures Dialogue(acc, s, [Arrives(OtherFrame)] + later, sends) == ([Outcome(CodeSys, None)], SaslError(CodeSys, None))
  {
    var incoming := [Arrives(OtherFrame)] + later;
    assert incoming[0].frame == OtherFrame;
  }

  // ---- what the loop leaves to the acceptor -------------------------------------------------

  /** The mechanism that an init frame names does not matter to the PLAIN acceptor. */
  lemma MechanismIsIgnored(m: PlainMechanism, a: string, b: string, r: Option<bytes>, later: seq<Incoming>, sends: nat)
    ensures Dialogue(PlainAcceptor(), m, [Arrives(Init(a, r))] + later, sends) == Dialogue(PlainAcceptor(), m, [Arrives(Init(b, r))] + later, sends)
  {
    hide ValidateInit;
    var x, y := [Arrives(Init(a, r))] + later, [Arrives(Init(b, r))] + later;
    assert x[0].frame.initialResponse == y[0].frame.initialResponse;
    assert PlainOnInit(m, x[0].frame) == PlainOnInit(m, y[0].frame);
  }

  /** A response that no challenge preceded is answered by the acceptor like any other. */
  lemma ResponseNeedsNoChallenge<S>(acc: Acceptor<S>, s: S, x: bytes, later: seq<Incoming>, sends: nat)
    requires sends > 0
    ensures var d := Dialogue(acc, s, [Arrives(Response(x))] + later, sends); d.0 != [] && d.0[0] == acc.onResponse(s, x).1
  {
    var incoming := [Arrives(Response(x))] + later;
    assert incoming[0].frame == Response(x);
  }

  function AnonymousAcceptor(): Acceptor<()> {
    Acceptor(
      (u: ()) => [ANONYMOUS],
      (u: (), f: ClientFrame) => (u, Outcome(CodeOk, None)),
      (u: (), x: bytes) => (u, Outcome(CodeOk, None)))
  }

  /** So with the anonymous acceptor an init or a bare response starts the AMQP header, and nothing else does. */
  lemma AnonymousNegotiates(incoming: seq<Incoming>, sends: nat)
    ensures Dialogue(AnonymousAcceptor(), (), incoming, sends).1 == AmqpNegotiation <==>
              sends > 0 && incoming != [] && incoming[0].Arrives? && !incoming[0].frame.OtherFrame?
  {
  }
}
