/** The two ends of the stream as loops: exchange, worker, peer loop. */
module Endpoints {
  import opened Prelude
  import opened Protocol
  import opened Session
  import opened Codec

  /** The next complete message of a stream, and the frames after it. */
  datatype Arrival = Starved | Refused(error: P2PError) | Arrived(packet: Packet, rest: seq<Frame>)

  function NextPacket(held: Option<Packet>, frames: seq<Frame>): (r: Arrival)
    ensures r.Arrived? ==> |r.rest| < |frames|
    decreases |frames|
  {
    if frames == [] then Starved
    else
      var (held', r) := Pushed(held, frames[0]);
      if r.Err? then Refused(r.error)
      else if r.value.Some? then Arrived(r.value.value, frames[1..])
      else NextPacket(held', frames[1..])
  }

  ghost predicate HeadsDecoded(arrival: Arrival, whole: Decoded) {
    match arrival
    case Starved => whole.packets == [] && whole.error.None?
    case Refused(e) => whole.packets == [] && whole.error == Some(e)
    case Arrived(p, rest) => whole == Preceded([p], DecodeAll(None, rest))
  }

  /** The next packet is the first one the whole stream decodes to. */
  lemma {:induction false} NextIsFirstDecoded(held: Option<Packet>, frames: seq<Frame>)
    ensures HeadsDecoded(NextPacket(held, frames), DecodeAll(held, frames))
    decreases |frames|
  {
    if frames != [] {
      var (held', r) := Pushed(held, frames[0]);
      if r.Ok? && r.value.None? {
        NextIsFirstDecoded(held', frames[1..]);
        PrecededTwice([], [], DecodeAll(held', frames[1..]));
      }
    }
  }

  /** Reads frames until a message is complete. */
  method Receive(incoming: seq<Frame>) returns (r: Arrival)
    ensures r == NextPacket(None, incoming)
  {
    var decoder := new MessageDecoder();
    var rest := incoming;
    while rest != []
      invariant decoder.Valid() && fresh(decoder)
      invariant NextPacket(decoder.held, rest) == NextPacket(None, incoming)
      decreases |rest|
    {
      var pushed := decoder.Push(rest[0].messageType, rest[0].flags, rest[0].payload);
      if pushed.Err? {
        return Refused(pushed.error);
      }
      if pushed.value.Some? {
        return Arrived(pushed.value.value, rest[1..]);
      }
      rest := rest[1..];
    }
    return Starved;
  }

  // ── The client ─────────────────────────────────────────────────────

  function Verdict(setup: Setup, request: Packet, arrival: Arrival): Outcome {
    match arrival
    case Starved => Disconnected
    case Refused(_) => ProtocolFailure
    case Arrived(response, _) => Judge(setup, request, response)
  }

  /** One exchange: all frames of the request, then frames until a response is complete. */
  method Exchange(setup: Setup, request: Packet, incoming: seq<Frame>)
    returns (sent: seq<Frame>, rest: seq<Frame>, outcome: Outcome)
    requires setup.cap > 0
    ensures sent == Fragments(request, setup.cap)
    ensures outcome == Verdict(setup, request, NextPacket(None, incoming))
    ensures NextPacket(None, incoming).Arrived? ==> rest == NextPacket(None, incoming).rest
  {
    sent := Frames(request.kind, request.payload, setup.cap);
    var arrival := Receive(incoming);
    rest := [];
    match arrival
    case Starved => outcome := Disconnected;
    case Refused(_) => outcome := ProtocolFailure;
    case Arrived(response, left) =>
      rest := left;
      if response.kind == ErrRes {
        outcome := if setup.readable(response.payload) then Remote(response.payload) else ProtocolFailure;
      } else if Response(request.kind).None? {
        outcome := InvalidRequest;
      } else if Response(request.kind) != Some(response.kind) {
        outcome := ProtocolFailure;
      } else {
        outcome := Success(response.payload);
      }
  }

  /** What a worker has sent and delivered. */
  datatype WorkerRun = WorkerRun(sent: seq<Frame>, delivered: seq<Delivery>)

  function Followed(first: WorkerRun, later: WorkerRun): WorkerRun {
    WorkerRun(first.sent + later.sent, first.delivered + later.delivered)
  }

  lemma FollowedTwice(a: WorkerRun, b: WorkerRun, c: WorkerRun)
    ensures Followed(a, Followed(b, c)) == Followed(Followed(a, b), c)
    ensures Followed(WorkerRun([], []), c) == c
  {
    assert a.sent + (b.sent + c.sent) == (a.sent + b.sent) + c.sent;
    assert a.delivered + (b.delivered + c.delivered) == (a.delivered + b.delivered) + c.delivered;
    assert [] + c.sent == c.sent && [] + c.delivered == c.delivered;
  }

  /** One exchange after the other until one is fatal, on any incoming stream. */
  function Worked(setup: Setup, requests: seq<Packet>, incoming: seq<Frame>): WorkerRun
    requires setup.cap > 0
    decreases |requests|
  {
    if requests == [] then WorkerRun([], [])
    else
      var arrival := NextPacket(None, incoming);
      var outcome := Verdict(setup, requests[0], arrival);
      var first := WorkerRun(Fragments(requests[0], setup.cap), [Delivery(requests[0], outcome)]);
      if Fatal(outcome) || !arrival.Arrived? then first
      else Followed(first, Worked(setup, requests[1..], arrival.rest))
  }

  /** The worker over a queue of requests. */
  method RunWorker(setup: Setup, requests: seq<Packet>, incoming: seq<Frame>) returns (run: WorkerRun)
    requires setup.cap > 0
    ensures run == Worked(setup, requests, incoming)
  {
    run := WorkerRun([], []);
    var rest, left := incoming, requests;
    FollowedTwice(run, run, Worked(setup, requests, incoming));
    while left != []
      invariant Worked(setup, requests, incoming) == Followed(run, Worked(setup, left, rest))
      decreases |left|
    {
      var frames, after, outcome := Exchange(setup, left[0], rest);
      var exchange := WorkerRun(frames, [Delivery(left[0], outcome)]);
      if Fatal(outcome) {
        return Followed(run, exchange);
      }
      FollowedTwice(run, exchange, Worked(setup, left[1..], after));
      run, rest, left := Followed(run, exchange), after, left[1..];
    }
    FollowedTwice(run, run, run);
    assert run.sent + [] == run.sent && run.delivered + [] == run.delivered;
  }

  /** Delivery `i` is the verdict on the i-th message the stream decodes to, or fatal when there is none. */
  ghost predicate Judged(setup: Setup, request: Packet, packets: seq<Packet>, i: nat, d: Delivery) {
    && d.request == request
    && (if i < |packets| then d.outcome == Judge(setup, request, packets[i]) else Fatal(d.outcome))
  }

  ghost predicate AllJudged(setup: Setup, requests: seq<Packet>, packets: seq<Packet>, delivered: seq<Delivery>) {
    && |delivered| <= |requests|
    && forall i :: 0 <= i < |delivered| ==> Judged(setup, requests[i], packets, i, delivered[i])
  }

  /** A run goes on exactly until the first fatal delivery. */
  ghost predicate StopsAtFatal(count: nat, delivered: seq<Delivery>) {
    && |delivered| <= count
    && (forall i :: 0 <= i < |delivered| - 1 ==> !Fatal(delivered[i].outcome))
    && (|delivered| < count ==> delivered != [] && Fatal(delivered[|delivered| - 1].outcome))
  }

  /** What the worker's run comes to. */
  ghost predicate WorkedWell(setup: Setup, requests: seq<Packet>, packets: seq<Packet>, run: WorkerRun)
    requires setup.cap > 0
  {
    && AllJudged(setup, requests, packets, run.delivered)
    && StopsAtFatal(|requests|, run.delivered)
    && run.sent == FragmentsOfAll(requests[..|run.delivered|], setup.cap)
  }

  /** On any stream, honest or not, each caller gets the verdict on its own message of the stream. */
  lemma {:induction false} WorkerJudgesDecoded(setup: Setup, requests: seq<Packet>, incoming: seq<Frame>)
    requires setup.cap > 0
    ensures WorkedWell(setup, requests, DecodeAll(None, incoming).packets, Worked(setup, requests, incoming))
    decreases |requests|
  {
    NextIsFirstDecoded(None, incoming);
    if requests == [] {
      assert requests[..0] == [];
    } else {
      var arrival := NextPacket(None, incoming);
      if arrival.Arrived? && !Fatal(Verdict(setup, requests[0], arrival)) {
        WorkerJudgesDecoded(setup, requests[1..], arrival.rest);
        WorkedOneMore(setup, requests, DecodeAll(None, arrival.rest).packets, arrival.packet,
          Worked(setup, requests[1..], arrival.rest));
      } else {
        assert requests[..1] == [requests[0]] && requests[..1][1..] == [];
        assert FragmentsOfAll(requests[..1], setup.cap) == Fragments(requests[0], setup.cap) + [];
      }
    }
  }

  lemma WorkedOneMore(setup: Setup, requests: seq<Packet>, packets: seq<Packet>, p: Packet, later: WorkerRun)
    requires setup.cap > 0 && requests != [] && WorkedWell(setup, requests[1..], packets, later)
    requires !Fatal(Judge(setup, requests[0], p))
    ensures WorkedWell(setup, requests, [p] + packets, Followed(
      WorkerRun(Fragments(requests[0], setup.cap), [Delivery(requests[0], Judge(setup, requests[0], p))]), later))
  {
    var d := Delivery(requests[0], Judge(setup, requests[0], p));
    JudgedOneMore(setup, requests, packets, p, d, later.delivered);
    StopsOneMore(|requests| - 1, d, later.delivered);
    SentOneMore(setup.cap, requests, |later.delivered|);
  }

  lemma JudgedOneMore(
    setup: Setup, requests: seq<Packet>, packets: seq<Packet>, p: Packet, d: Delivery, later: seq<Delivery>
  )
    requires requests != [] && AllJudged(setup, requests[1..], packets, later)
    requires d == Delivery(requests[0], Judge(setup, requests[0], p))
    ensures AllJudged(setup, requests, [p] + packets, [d] + later)
  {
    forall i | 0 <= i < 1 + |later| ensures Judged(setup, requests[i], [p] + packets, i, ([d] + later)[i]) {
      if i > 0 {
        assert Judged(setup, requests[1..][i - 1], packets, i - 1, later[i - 1]);
      }
    }
  }

  lemma StopsOneMore(count: nat, d: Delivery, later: seq<Delivery>)
    requires StopsAtFatal(count, later) && !Fatal(d.outcome)
    ensures StopsAtFatal(count + 1, [d] + later)
  {
    forall i | 0 <= i < |later| ensures !Fatal(([d] + later)[i].outcome) {
      assert i > 0 ==> ([d] + later)[i] == later[i - 1];
    }
    assert later != [] ==> ([d] + later)[|later|] == later[|later| - 1];
  }

  lemma SentOneMore(cap: nat, requests: seq<Packet>, n: nat)
    requires cap > 0 && n < |requests|
    ensures FragmentsOfAll(requests[..n + 1], cap)
      == Fragments(requests[0], cap) + FragmentsOfAll(requests[1..][..n], cap)
  {
    assert requests[..n + 1][0] == requests[0] && requests[..n + 1][1..] == requests[1..][..n];
  }

  ghost predicate HonestAnswers(setup: Setup, requests: seq<Packet>, responses: seq<Packet>) {
    |responses| == |requests| && forall i :: 0 <= i < |requests| ==> IsAnswer(setup, requests[i], responses[i])
  }

  ghost predicate AllDelivered(setup: Setup, requests: seq<Packet>, responses: seq<Packet>, delivered: seq<Delivery>) {
    && |delivered| == |requests| == |responses|
    && forall i :: 0 <= i < |requests| ==>
         delivered[i] == Delivery(requests[i], Judge(setup, requests[i], responses[i]))
  }

  lemma HonestlyJudged(setup: Setup, requests: seq<Packet>, responses: seq<Packet>, delivered: seq<Delivery>)
    requires HonestAnswers(setup, requests, responses)
    requires AllJudged(setup, requests, responses, delivered) && StopsAtFatal(|requests|, delivered)
    ensures AllDelivered(setup, requests, responses, delivered)
  {
    forall i | 0 <= i < |delivered|
      ensures delivered[i] == Delivery(requests[i], Judge(setup, requests[i], responses[i]))
      ensures !Fatal(delivered[i].outcome)
    {
      assert Judged(setup, requests[i], responses, i, delivered[i]);
      assert IsAnswer(setup, requests[i], responses[i]);
    }
  }

  /** Against the frames of one honest answer per request, every request is delivered its own answer. */
  lemma HonestWorker(setup: Setup, requests: seq<Packet>, responses: seq<Packet>)
    requires setup.cap > 0 && HonestAnswers(setup, requests, responses)
    ensures var run := Worked(setup, requests, FragmentsOfAll(responses, setup.cap));
      run.sent == FragmentsOfAll(requests, setup.cap) && AllDelivered(setup, requests, responses, run.delivered)
  {
    var run := Worked(setup, requests, FragmentsOfAll(responses, setup.cap));
    AnswersDecode(setup, requests, responses);
    WorkerJudgesDecoded(setup, requests, FragmentsOfAll(responses, setup.cap));
    HonestlyJudged(setup, requests, responses, run.delivered);
    assert requests[..|requests|] == requests;
  }

  lemma AnswersDecode(setup: Setup, requests: seq<Packet>, responses: seq<Packet>)
    requires setup.cap > 0 && HonestAnswers(setup, requests, responses)
    ensures DecodeAll(None, FragmentsOfAll(responses, setup.cap)).packets == responses
  {
    forall i | 0 <= i < |responses| ensures |responses[i].payload| <= MAX_MESSAGE_BYTES {
      assert IsAnswer(setup, requests[i], responses[i]);
    }
    StreamRoundTrip(responses, setup.cap);
  }

  // ── The server ─────────────────────────────────────────────────────

  /** What the handler answers to each request of a list. */
  function Answers(answer: Packet -> Packet, requests: seq<Packet>): (answers: seq<Packet>)
    ensures |answers| == |requests|
    ensures forall i :: 0 <= i < |requests| ==> answers[i] == answer(requests[i])
  {
    if requests == [] then [] else [answer(requests[0])] + Answers(answer, requests[1..])
  }

  /** What a peer loop has sent, and whether the connection is still open when the stream ends. */
  datatype PeerRun = PeerRun(out: seq<Frame>, open: bool)

  /** Reassemble, answer, frame, on any incoming stream; a refused frame or request ends the connection. */
  function PeerServed(cap: nat, answer: Packet -> Packet, incoming: seq<Frame>): PeerRun
    requires cap > 0
    decreases |incoming|
  {
    match NextPacket(None, incoming)
    case Starved => PeerRun([], true)
    case Refused(_) => PeerRun([], false)
    case Arrived(p, rest) =>
      if !Acceptable(p) then PeerRun([], false)
      else
        var later := PeerServed(cap, answer, rest);
        later.(out := Fragments(answer(p), cap) + later.out)
  }

  /** The per-peer loop. */
  method ServePeer(cap: nat, answer: Packet -> Packet, incoming: seq<Frame>) returns (run: PeerRun)
    requires cap > 0
    ensures run == PeerServed(cap, answer, incoming)
  {
    var out: seq<Frame>, rest := [], incoming;
    assert [] + PeerServed(cap, answer, incoming).out == PeerServed(cap, answer, incoming).out;
    while true
      invariant PeerServed(cap, answer, incoming).out == out + PeerServed(cap, answer, rest).out
      invariant PeerServed(cap, answer, incoming).open == PeerServed(cap, answer, rest).open
      decreases |rest|
    {
      var arrival := Receive(rest);
      if !arrival.Arrived? || !Acceptable(arrival.packet) {
        assert out + [] == out;
        return PeerRun(out, arrival.Starved?);
      }
      var response := answer(arrival.packet);
      var frames := Frames(response.kind, response.payload, cap);
      Associate(out, frames, PeerServed(cap, answer, arrival.rest).out);
      out, rest := out + frames, arrival.rest;
    }
  }

  /** How many messages of a list come before the first one the handler refuses. */
  function AcceptedCount(packets: seq<Packet>): (n: nat)
    ensures n <= |packets|
    ensures forall i :: 0 <= i < n ==> Acceptable(packets[i])
    ensures n < |packets| ==> !Acceptable(packets[n])
  {
    if packets == [] || !Acceptable(packets[0]) then 0 else 1 + AcceptedCount(packets[1..])
  }

  /** On any stream the server answers exactly the acceptable messages it decodes to, in order, up to the
      first refusal, and keeps the connection open exactly when there is none. */
  lemma {:induction false} PeerAnswersDecoded(cap: nat, answer: Packet -> Packet, incoming: seq<Frame>)
    requires cap > 0
    ensures var d, run := DecodeAll(None, incoming), PeerServed(cap, answer, incoming);
      var n := AcceptedCount(d.packets);
      && run.out == FragmentsOfAll(Answers(answer, d.packets[..n]), cap)
      && (run.open <==> n == |d.packets| && d.error.None?)
    decreases |incoming|
  {
    NextIsFirstDecoded(None, incoming);
    match NextPacket(None, incoming)
    case Arrived(p, rest) =>
      var later := DecodeAll(None, rest).packets;
      assert ([p] + later)[0] == p && ([p] + later)[1..] == later;
      if Acceptable(p) {
        PeerAnswersDecoded(cap, answer, rest);
        AnswersCons(cap, answer, p, later[..AcceptedCount(later)]);
        assert ([p] + later)[..1 + AcceptedCount(later)] == [p] + later[..AcceptedCount(later)];
      }
    case _ =>
  }

  lemma AnswersCons(cap: nat, answer: Packet -> Packet, p: Packet, later: seq<Packet>)
    requires cap > 0
    ensures FragmentsOfAll(Answers(answer, [p] + later), cap)
      == Fragments(answer(p), cap) + FragmentsOfAll(Answers(answer, later), cap)
  {
    assert ([p] + later)[1..] == later;
    assert ([answer(p)] + Answers(answer, later))[1..] == Answers(answer, later);
  }

  /** Acceptable requests within the limit are all answered, in order. */
  lemma HonestPeer(cap: nat, answer: Packet -> Packet, requests: seq<Packet>)
    requires cap > 0
    requires forall i :: 0 <= i < |requests| ==> Acceptable(requests[i]) && |requests[i].payload| <= MAX_MESSAGE_BYTES
    ensures PeerServed(cap, answer, FragmentsOfAll(requests, cap)).open
    ensures PeerServed(cap, answer, FragmentsOfAll(requests, cap)).out == FragmentsOfAll(Answers(answer, requests), cap)
  {
    StreamRoundTrip(requests, cap);
    PeerAnswersDecoded(cap, answer, FragmentsOfAll(requests, cap));
    assert requests[..|requests|] == requests;
  }

  ghost predicate HonestHandler(setup: Setup, answer: Packet -> Packet, requests: seq<Packet>) {
    forall i :: 0 <= i < |requests| ==> IsRequest(requests[i]) && IsAnswer(setup, requests[i], answer(requests[i]))
  }

  /** Every request has been delivered the handler's own answer to it. */
  ghost predicate OwnAnswers(answer: Packet -> Packet, requests: seq<Packet>, delivered: seq<Delivery>) {
    && |delivered| == |requests|
    && forall i :: 0 <= i < |requests| ==> OwnAnswer(requests[i], answer(requests[i]), delivered[i])
  }

  ghost predicate OwnAnswer(request: Packet, response: Packet, d: Delivery) {
    && d.request == request
    && d.outcome == if response.kind == ErrRes then Remote(response.payload) else Success(response.payload)
  }

  lemma JudgedIsOwn(setup: Setup, request: Packet, response: Packet)
    requires IsAnswer(setup, request, response)
    ensures OwnAnswer(request, response, Delivery(request, Judge(setup, request, response)))
  {
  }

  lemma {:induction false} DeliveredAreOwn(
    setup: Setup, answer: Packet -> Packet, requests: seq<Packet>, delivered: seq<Delivery>)
    requires HonestHandler(setup, answer, requests)
    requires AllDelivered(setup, requests, Answers(answer, requests), delivered)
    ensures OwnAnswers(answer, requests, delivered)
  {
    forall i | 0 <= i < |requests| ensures OwnAnswer(requests[i], answer(requests[i]), delivered[i]) {
      JudgedIsOwn(setup, requests[i], answer(requests[i]));
    }
  }

  /** Client and server composed: what the worker delivers for request `i` over the frames the peer loop
      sends is the verdict on the handler's answer to request `i`. */
  lemma HonestSession(setup: Setup, answer: Packet -> Packet, requests: seq<Packet>)
    requires setup.cap > 0 && HonestHandler(setup, answer, requests)
    ensures var served := PeerServed(setup.cap, answer, FragmentsOfAll(requests, setup.cap));
      served.open && OwnAnswers(answer, requests, Worked(setup, requests, served.out).delivered)
  {
    var answers := Answers(answer, requests);
    HonestPeer(setup.cap, answer, requests);
    HonestWorker(setup, requests, answers);
    DeliveredAreOwn(setup, answer, requests, Worked(setup, requests, FragmentsOfAll(answers, setup.cap)).delivered);
  }

  /** The two loops run against each other, for any queue of acceptable requests and any honest handler. */
  method WholeSession(setup: Setup, answer: Packet -> Packet, requests: seq<Packet>) returns (delivered: seq<Delivery>)
    requires setup.cap > 0 && HonestHandler(setup, answer, requests)
    ensures OwnAnswers(answer, requests, delivered)
  {
    var up := SendAll(setup.cap, requests);
    var peer := ServePeer(setup.cap, answer, up);
    var run := RunWorker(setup, requests, peer.out);
    HonestSession(setup, answer, requests);
    delivered := run.delivered;
  }

  lemma FirstOfAll(packets: seq<Packet>, i: nat, cap: nat)
    requires i < |packets| && cap > 0
    ensures FragmentsOfAll(packets[i..], cap) == Fragments(packets[i], cap) + FragmentsOfAll(packets[i + 1..], cap)
  {
    assert packets[i..][1..] == packets[i + 1..];
  }

  method SendAll(cap: nat, requests: seq<Packet>) returns (up: seq<Frame>)
    requires cap > 0
    ensures up == FragmentsOfAll(requests, cap)
  {
    up := [];
    var i := 0;
    assert requests[0..] == requests;
    while i < |requests|
      invariant i <= |requests| && up + FragmentsOfAll(requests[i..], cap) == FragmentsOfAll(requests, cap)
    {
      FirstOfAll(requests, i, cap);
      var frames := Frames(requests[i].kind, requests[i].payload, cap);
      Associate(up, frames, FragmentsOfAll(requests[i + 1..], cap));
      up, i := up + frames, i + 1;
    }
    assert up + [] == up;
  }
}
