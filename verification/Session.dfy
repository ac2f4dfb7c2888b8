/** One client worker and one server peer over an ordered stream, as a state machine. */
module Session {
  import opened Prelude
  import opened Protocol

  /** What the worker hands to the caller that made the request. */
  datatype Outcome =
    | Success(payload: seq<byte>)
    | Remote(error: seq<byte>)
    | Timeout
    | Disconnected
    | ProtocolFailure
    | InvalidRequest

  datatype Delivery = Delivery(request: Packet, outcome: Outcome)

  /** A request the server's handler answered, and its answer. */
  datatype Answered = Answered(request: Packet, response: Packet)

  datatype Worker =
    | Idle
    | Sending(request: Packet, unsent: seq<Frame>)
    | Receiving(request: Packet, held: Option<Packet>)
    | Stopped

  datatype Peer =
    | Waiting(held: Option<Packet>)
    | Handling(request: Packet)
    | Replying(unsent: seq<Frame>)
    | Closed(unsent: seq<Frame>)

  /** `up` and `down` are the frames in flight; `answers` and `delivered` are everything so far. */
  datatype State = State(
    worker: Worker, up: seq<Frame>, down: seq<Frame>, peer: Peer, answers: seq<Answered>, delivered: seq<Delivery>)

  /** Who moves next. A caller that gave up is invisible: the worker answers it all the same. */
  datatype Step =
    | TakeRequest(request: Packet)
    | SendFrame
    | PeerTakesFrame
    | PeerAnswers(response: Packet)
    | PeerRefuses
    | PeerSendsFrame
    | PeerCloses
    | WorkerTakesFrame
    | WorkerStops(outcome: Outcome)
    | CallerGivesUp

  /** The frame size, and which error payloads the client can read. */
  datatype Setup = Setup(cap: nat, readable: seq<byte> -> bool)

  // ── Steps ──────────────────────────────────────────────────────────

  /** What a caller may put into the request queue. */
  predicate IsRequest(p: Packet) {
    Response(p.kind).Some? && |p.payload| <= MAX_MESSAGE_BYTES
  }

  predicate CarriesQuery(m: Message) {
    m == NullifierQueryReq || m == WitnessQueryReq
  }

  /** What the server's handler takes; anything else ends the connection. */
  predicate Acceptable(p: Packet) {
    Response(p.kind).Some? && (p.payload == [] || CarriesQuery(p.kind))
  }

  /** An honest answer: the matching response kind or a readable error, within the size limit. */
  predicate IsAnswer(setup: Setup, request: Packet, response: Packet) {
    && Acceptable(request)
    && |response.payload| <= MAX_MESSAGE_BYTES
    && (response.kind == Response(request.kind).value || (response.kind == ErrRes && setup.readable(response.payload)))
  }

  /** Outcomes after which the worker gives the connection up. */
  predicate Fatal(outcome: Outcome) {
    outcome.Timeout? || outcome.Disconnected? || outcome.ProtocolFailure?
  }

  function Deliver(s: State, request: Packet, outcome: Outcome): State {
    s.(delivered := s.delivered + [Delivery(request, outcome)],
       worker := if Fatal(outcome) then Stopped else Idle)
  }

  /** The worker's verdict on a complete response. */
  function Judge(setup: Setup, request: Packet, response: Packet): Outcome {
    if response.kind == ErrRes then (if setup.readable(response.payload) then Remote(response.payload) else ProtocolFailure)
    else if Response(request.kind).None? then InvalidRequest
    else if Response(request.kind) == Some(response.kind) then Success(response.payload)
    else ProtocolFailure
  }

  function AfterSend(setup: Setup, s: State): State
    requires s.worker.Sending? && s.worker.unsent != []
  {
    var rest := s.worker.unsent[1..];
    s.(up := s.up + [s.worker.unsent[0]],
       worker := if rest == [] then Receiving(s.worker.request, None) else s.worker.(unsent := rest))
  }

  function AfterPeerTakes(s: State): State
    requires s.peer.Waiting? && s.up != []
  {
    var (held, r) := Pushed(s.peer.held, s.up[0]);
    s.(up := s.up[1..],
       peer := if r.Err? then Closed([]) else if r.value.Some? then Handling(r.value.value) else Waiting(held))
  }

  function AfterAnswer(setup: Setup, s: State, response: Packet): State
    requires s.peer.Handling? && setup.cap > 0
  {
    s.(peer := Replying(Fragments(response, setup.cap)), answers := s.answers + [Answered(s.peer.request, response)])
  }

  function AfterPeerSends(s: State): State
    requires s.peer.Replying? && s.peer.unsent != []
  {
    var rest := s.peer.unsent[1..];
    s.(down := s.down + [s.peer.unsent[0]], peer := if rest == [] then Waiting(None) else Replying(rest))
  }

  function AfterWorkerTakes(setup: Setup, s: State): State
    requires s.worker.Receiving? && s.down != []
  {
    var (held, r) := Pushed(s.worker.held, s.down[0]);
    var s' := s.(down := s.down[1..]);
    if r.Err? then Deliver(s', s.worker.request, ProtocolFailure)
    else if r.value.Some? then Deliver(s', s.worker.request, Judge(setup, s.worker.request, r.value.value))
    else s'.(worker := s.worker.(held := held))
  }

  predicate Enabled(setup: Setup, s: State, step: Step) {
    match step
    case TakeRequest(request) => s.worker.Idle? && IsRequest(request)
    case SendFrame => s.worker.Sending? && s.worker.unsent != []
    case PeerTakesFrame => s.peer.Waiting? && s.up != []
    case PeerAnswers(response) => s.peer.Handling? && IsAnswer(setup, s.peer.request, response)
    case PeerRefuses => s.peer.Handling? && !Acceptable(s.peer.request)
    case PeerSendsFrame => s.peer.Replying? && s.peer.unsent != []
    case PeerCloses => true
    case WorkerTakesFrame => s.worker.Receiving? && s.down != []
    case WorkerStops(outcome) => outcome.Timeout? || outcome.Disconnected?
    case CallerGivesUp => true
  }

  function Next(setup: Setup, s: State, step: Step): State
    requires setup.cap > 0 && Enabled(setup, s, step)
  {
    match step
    case TakeRequest(request) => s.(worker := Sending(request, Fragments(request, setup.cap)))
    case SendFrame => AfterSend(setup, s)
    case PeerTakesFrame => AfterPeerTakes(s)
    case PeerAnswers(response) => AfterAnswer(setup, s, response)
    case PeerRefuses => s.(peer := Closed([]))
    case PeerSendsFrame => AfterPeerSends(s)
    case PeerCloses => s.(peer := Closed(if s.peer.Replying? || s.peer.Closed? then s.peer.unsent else []))
    case WorkerTakesFrame => AfterWorkerTakes(setup, s)
    case WorkerStops(outcome) =>
      if s.worker.Sending? || s.worker.Receiving? then Deliver(s, s.worker.request, outcome) else s.(worker := Stopped)
    case CallerGivesUp => s
  }

  const START: State := State(Idle, [], [], Waiting(None), [], [])

  // ── The invariant ──────────────────────────────────────────────────

  /** Nothing is in flight and the server holds no partial message. */
  ghost predicate Clean(s: State) {
    s.up == [] && s.down == [] && (s.peer == Waiting(None) || s.peer == Closed([]))
  }

  /** The request is on its way: what the server holds and what is still to come decode to exactly it. */
  ghost predicate RequestInFlight(s: State, request: Packet, unsent: seq<Frame>) {
    && s.down == []
    && match s.peer
       case Waiting(held) => DecodeAll(held, s.up + unsent) == Decoded(None, [request], None)
       case Handling(handled) => handled == request && s.up + unsent == []
       case Replying(_) => false
       case Closed(rest) => rest == []
  }

  /** Frames of the current answer the server has not sent (or never will). */
  function Remaining(peer: Peer): seq<Frame> {
    match peer
    case Replying(rest) => rest
    case Closed(rest) => rest
    case _ => []
  }

  /** The answer is on its way back: what the worker holds and what is still to come decode to exactly it. */
  ghost predicate AnswerInFlight(setup: Setup, s: State, request: Packet, held: Option<Packet>) {
    && s.up == []
    && (s.peer == Waiting(None) || (s.peer.Replying? && s.peer.unsent != []) || s.peer.Closed?)
    && s.answers != []
    && var last := s.answers[|s.answers| - 1];
    && last.request == request && IsAnswer(setup, request, last.response)
    && DecodeAll(held, s.down + Remaining(s.peer)) == Decoded(None, [last.response], None)
  }

  /** Where each party stands, as long as the worker lives. */
  ghost predicate Aligned(setup: Setup, s: State) {
    match s.worker
    case Idle => Clean(s) && |s.answers| == |s.delivered|
    case Sending(request, unsent) =>
      IsRequest(request) && unsent != [] && RequestInFlight(s, request, unsent) && |s.answers| == |s.delivered|
    case Receiving(request, held) =>
      IsRequest(request) &&
      (if |s.answers| == |s.delivered| then held == None && RequestInFlight(s, request, [])
       else |s.answers| == |s.delivered| + 1 && AnswerInFlight(setup, s, request, held))
    case Stopped => true
  }

  /** A delivery matches the server's answer to the same request; only the last may be a failure. */
  ghost predicate FaithfulAt(s: State, i: nat)
    requires i < |s.delivered|
  {
    var d := s.delivered[i];
    match d.outcome
    case Success(payload) =>
      Response(d.request.kind).Some? && i < |s.answers| &&
      s.answers[i] == Answered(d.request, Packet(Response(d.request.kind).value, payload))
    case Remote(error) => i < |s.answers| && s.answers[i] == Answered(d.request, Packet(ErrRes, error))
    case ProtocolFailure => false
    case InvalidRequest => false
    case _ => s.worker == Stopped && i == |s.delivered| - 1
  }

  ghost predicate Faithful(s: State) {
    forall i: nat :: i < |s.delivered| ==> FaithfulAt(s, i)
  }

  ghost predicate Sound(setup: Setup, s: State) {
    setup.cap > 0 && Aligned(setup, s) && Faithful(s)
  }

  // ── Every step keeps it ────────────────────────────────────────────

  /** Taking the frame that completes a message from a stream of exactly that message empties the stream. */
  lemma FrameTaken(held: Option<Packet>, frames: seq<Frame>, p: Packet)
    requires frames != [] && DecodeAll(held, frames) == Decoded(None, [p], None)
    ensures var (held', r) := Pushed(held, frames[0]);
      && r.Ok?
      && (if r.value.Some? then r.value.value == p && held' == None && frames[1..] == []
          else DecodeAll(held', frames[1..]) == Decoded(None, [p], None))
  {
    var (held', r) := Pushed(held, frames[0]);
    var later := DecodeAll(held', frames[1..]);
    if r.value.Some? {
      assert ([r.value.value] + later.packets)[0] == r.value.value;
      assert |later.packets| == 0;
      QuietStreamIsEmpty(frames[1..]);
    } else {
      assert [] + later.packets == later.packets;
    }
  }

  /** The same for a stream in two parts, of which the first is in the channel. */
  lemma ChannelFrameTaken(held: Option<Packet>, channel: seq<Frame>, unsent: seq<Frame>, p: Packet)
    requires channel != [] && DecodeAll(held, channel + unsent) == Decoded(None, [p], None)
    ensures var (held', r) := Pushed(held, channel[0]);
      && r.Ok?
      && (if r.value.Some? then r.value.value == p && held' == None && channel[1..] == [] && unsent == []
          else DecodeAll(held', channel[1..] + unsent) == Decoded(None, [p], None))
  {
    var frames := channel + unsent;
    FrameTaken(held, frames, p);
    assert frames[0] == channel[0] && frames[1..] == channel[1..] + unsent;
  }

  lemma TakeKeepsAligned(setup: Setup, s: State, request: Packet)
    requires setup.cap > 0 && Aligned(setup, s) && s.worker.Idle? && IsRequest(request)
    ensures Aligned(setup, Next(setup, s, TakeRequest(request)))
  {
    OneMessageIff(request, setup.cap);
    assert [] + Fragments(request, setup.cap) == Fragments(request, setup.cap);
  }

  lemma SendKeepsAligned(setup: Setup, s: State)
    requires setup.cap > 0 && Aligned(setup, s) && Enabled(setup, s, SendFrame)
    ensures Aligned(setup, AfterSend(setup, s))
  {
    var unsent := s.worker.unsent;
    assert (s.up + [unsent[0]]) + unsent[1..] == s.up + unsent;
  }

  lemma PeerTakesKeepsAligned(setup: Setup, s: State)
    requires setup.cap > 0 && Aligned(setup, s) && Enabled(setup, s, PeerTakesFrame)
    ensures Aligned(setup, AfterPeerTakes(s))
  {
    match s.worker
    case Sending(request, unsent) =>
      PeerTakesRequest(s, request, unsent);
    case Receiving(request, held) =>
      PeerTakesRequest(s, request, []);
    case _ =>
  }

  lemma PeerTakesRequest(s: State, request: Packet, unsent: seq<Frame>)
    requires s.peer.Waiting? && s.up != [] && RequestInFlight(s, request, unsent)
    ensures RequestInFlight(AfterPeerTakes(s), request, unsent)
  {
    ChannelFrameTaken(s.peer.held, s.up, unsent, request);
  }

  lemma AnswerKeepsAligned(setup: Setup, s: State, response: Packet)
    requires setup.cap > 0 && Aligned(setup, s) && Enabled(setup, s, PeerAnswers(response))
    ensures Aligned(setup, AfterAnswer(setup, s, response))
  {
    if s.worker.Receiving? {
      OneMessageIff(response, setup.cap);
      assert [] + Fragments(response, setup.cap) == Fragments(response, setup.cap);
    }
  }

  lemma PeerSendsKeepsAligned(setup: Setup, s: State)
    requires setup.cap > 0 && Aligned(setup, s) && Enabled(setup, s, PeerSendsFrame)
    ensures Aligned(setup, AfterPeerSends(s))
  {
    var rest := s.peer.unsent;
    assert (s.down + [rest[0]]) + rest[1..] == s.down + rest;
  }

  lemma CloseKeepsAligned(setup: Setup, s: State)
    requires setup.cap > 0 && Aligned(setup, s)
    ensures Aligned(setup, Next(setup, s, PeerCloses))
  {
  }

  /** Only an answer on its way back can bring the worker a frame; after it the stream is the same
      answer, or the answer is complete and nothing is left. */
  lemma WorkerFrame(setup: Setup, s: State)
    requires setup.cap > 0 && Aligned(setup, s) && Enabled(setup, s, WorkerTakesFrame)
    ensures |s.answers| == |s.delivered| + 1 && AnswerInFlight(setup, s, s.worker.request, s.worker.held)
    ensures var (held', r) := Pushed(s.worker.held, s.down[0]);
      var response := s.answers[|s.answers| - 1].response;
      && r.Ok?
      && (if r.value.Some? then r.value.value == response && s.down[1..] == [] && Remaining(s.peer) == []
          else DecodeAll(held', s.down[1..] + Remaining(s.peer)) == Decoded(None, [response], None))
  {
    ChannelFrameTaken(s.worker.held, s.down, Remaining(s.peer), s.answers[|s.answers| - 1].response);
  }

  lemma DeliveredAnswer(setup: Setup, s: State, request: Packet, response: Packet)
    requires Faithful(s) && s.worker.Receiving? && Clean(s) && |s.answers| == |s.delivered| + 1
    requires s.answers[|s.answers| - 1] == Answered(request, response) && IsAnswer(setup, request, response)
    ensures var s' := Deliver(s, request, Judge(setup, request, response));
      s'.worker == Idle && Aligned(setup, s') && Faithful(s')
  {
    var s' := Deliver(s, request, Judge(setup, request, response));
    forall i: nat | i < |s'.delivered|
      ensures FaithfulAt(s', i)
    {
      if i < |s.delivered| {
        assert FaithfulAt(s, i);
      }
    }
  }

  lemma WorkerTakesAnswer(setup: Setup, s: State)
    requires Sound(setup, s) && Enabled(setup, s, WorkerTakesFrame)
    ensures Sound(setup, AfterWorkerTakes(setup, s))
  {
    WorkerFrame(setup, s);
    var s' := s.(down := s.down[1..]);
    FaithfulKept(s, s');
    var (held, r) := Pushed(s.worker.held, s.down[0]);
    if r.value.Some? {
      DeliveredAnswer(setup, s', s.worker.request, s.answers[|s.answers| - 1].response);
    } else {
      FaithfulKept(s, s'.(worker := s.worker.(held := held)));
    }
  }

  lemma FaithfulKept(s: State, s': State)
    requires Faithful(s) && s'.delivered == s.delivered && s.answers <= s'.answers
    requires s.worker == Stopped ==> s'.worker == Stopped
    ensures Faithful(s')
  {
    forall i: nat | i < |s'.delivered|
      ensures FaithfulAt(s', i)
    {
      assert FaithfulAt(s, i);
    }
  }

  lemma StopKeepsSound(setup: Setup, s: State, outcome: Outcome)
    requires Sound(setup, s) && Enabled(setup, s, WorkerStops(outcome))
    ensures Sound(setup, Next(setup, s, WorkerStops(outcome)))
  {
    var s' := Next(setup, s, WorkerStops(outcome));
    forall i: nat | i < |s'.delivered|
      ensures FaithfulAt(s', i)
    {
      if i < |s.delivered| {
        assert FaithfulAt(s, i);
      }
    }
  }

  lemma StepKeepsSound(setup: Setup, s: State, step: Step)
    requires Sound(setup, s) && Enabled(setup, s, step)
    ensures Sound(setup, Next(setup, s, step))
  {
    match step
    case TakeRequest(request) =>
      TakeKeepsAligned(setup, s, request);
      FaithfulKept(s, Next(setup, s, step));
    case SendFrame =>
      SendKeepsAligned(setup, s);
      FaithfulKept(s, Next(setup, s, step));
    case PeerTakesFrame =>
      PeerTakesKeepsAligned(setup, s);
      FaithfulKept(s, Next(setup, s, step));
    case PeerAnswers(response) =>
      AnswerKeepsAligned(setup, s, response);
      FaithfulKept(s, Next(setup, s, step));
    case PeerRefuses =>
      CloseKeepsAligned(setup, s);
      FaithfulKept(s, Next(setup, s, step));
    case PeerSendsFrame =>
      PeerSendsKeepsAligned(setup, s);
      FaithfulKept(s, Next(setup, s, step));
    case PeerCloses =>
      CloseKeepsAligned(setup, s);
      FaithfulKept(s, Next(setup, s, step));
    case WorkerTakesFrame => WorkerTakesAnswer(setup, s);
    case WorkerStops(outcome) => StopKeepsSound(setup, s, outcome);
    case CallerGivesUp =>
  }

  /** A run: each state follows from the one before by an enabled step. */
  ghost predicate IsRun(setup: Setup, states: seq<State>, steps: seq<Step>) {
    && setup.cap > 0
    && |states| == |steps| + 1 && states[0] == START
    && forall i :: 0 <= i < |steps| ==> Enabled(setup, states[i], steps[i]) && states[i + 1] == Next(setup, states[i], steps[i])
  }

  /** THE RESULT. In every reachable state each success (or remote error) handed to a caller is the
      server's answer to that same request, in order; and when the worker takes a new request both
      channels and the server's decoder are empty. */
  lemma {:induction false} EveryRunIsFaithful(setup: Setup, states: seq<State>, steps: seq<Step>, i: nat)
    requires IsRun(setup, states, steps) && i < |states|
    ensures Sound(setup, states[i])
    ensures i < |steps| && steps[i].TakeRequest? ==> Clean(states[i])
  {
    if i > 0 {
      EveryRunIsFaithful(setup, states, steps, i - 1);
      StepKeepsSound(setup, states[i - 1], steps[i - 1]);
    }
  }

  // ── What is answered, and how it is judged ─────────────────────────

  /** Of the numbers 0 to 7 all are answered, those other than the two queries (3 and 7) only without a
      payload; nothing else is. */
  lemma AcceptableIff(p: Packet)
    ensures Acceptable(p) <==> Number(p.kind) < 8 && (p.payload == [] || Number(p.kind) == 3 || Number(p.kind) == 7)
  {
  }

  /** Exactly when a caller gets which outcome of a complete response. */
  lemma JudgeIff(setup: Setup, request: Packet, response: Packet)
    ensures var o := Judge(setup, request, response);
      && (o == Success(response.payload) <==> Number(request.kind) < 8 && Number(response.kind) == Number(request.kind) + 8)
      && (o == Remote(response.payload) <==> Number(response.kind) == 16 && setup.readable(response.payload))
      && (o == InvalidRequest <==> Number(response.kind) != 16 && Number(request.kind) >= 8)
      && (Fatal(o) <==> o == ProtocolFailure)
      && (o.Success? || o.Remote? || o == InvalidRequest || o == ProtocolFailure)
  {
  }
}
