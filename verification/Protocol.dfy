/** Messages, their fragmentation into frames, and their reassembly. */
module Protocol {
  import opened Prelude

  const FRAME_FLAG_MORE: nat := 1
  const MAX_MESSAGE_BYTES: nat := 8 * 1024 * 1024

  datatype Message =
    | HealthReq | NullifierMetadataReq | NullifierParamsReq | NullifierQueryReq
    | WitnessMetadataReq | WitnessBroadcastReq | WitnessParamsReq | WitnessQueryReq
    | HealthRes | NullifierMetadataRes | NullifierParamsRes | NullifierQueryRes
    | WitnessMetadataRes | WitnessBroadcastRes | WitnessParamsRes | WitnessQueryRes
    | ErrRes

  datatype P2PError =
    | InvalidMessageType(value: nat)
    | InvalidFlags(flags: nat)
    | MessageTypeChanged
    | MessageTooLarge

  datatype Frame = Frame(messageType: nat, flags: nat, payload: seq<byte>)

  /** A whole message, or the part of one that has arrived. */
  datatype Packet = Packet(kind: Message, payload: seq<byte>)

  const MESSAGES: seq<Message> := [
    HealthReq, NullifierMetadataReq, NullifierParamsReq, NullifierQueryReq,
    WitnessMetadataReq, WitnessBroadcastReq, WitnessParamsReq, WitnessQueryReq,
    HealthRes, NullifierMetadataRes, NullifierParamsRes, NullifierQueryRes,
    WitnessMetadataRes, WitnessBroadcastRes, WitnessParamsRes, WitnessQueryRes,
    ErrRes]

  function Number(m: Message): nat {
    match m
    case HealthReq => 0 case NullifierMetadataReq => 1 case NullifierParamsReq => 2 case NullifierQueryReq => 3
    case WitnessMetadataReq => 4 case WitnessBroadcastReq => 5 case WitnessParamsReq => 6 case WitnessQueryReq => 7
    case HealthRes => 8 case NullifierMetadataRes => 9 case NullifierParamsRes => 10 case NullifierQueryRes => 11
    case WitnessMetadataRes => 12 case WitnessBroadcastRes => 13 case WitnessParamsRes => 14 case WitnessQueryRes => 15
    case ErrRes => 16
  }

  function FromNumber(value: nat): Result<Message, P2PError> {
    if value < |MESSAGES| then Ok(MESSAGES[value]) else Err(InvalidMessageType(value))
  }

  function Response(m: Message): Option<Message> {
    match m
    case HealthReq => Some(HealthRes)
    case NullifierMetadataReq => Some(NullifierMetadataRes)
    case NullifierParamsReq => Some(NullifierParamsRes)
    case NullifierQueryReq => Some(NullifierQueryRes)
    case WitnessMetadataReq => Some(WitnessMetadataRes)
    case WitnessBroadcastReq => Some(WitnessBroadcastRes)
    case WitnessParamsReq => Some(WitnessParamsRes)
    case WitnessQueryReq => Some(WitnessQueryRes)
    case _ => None
  }

  lemma NumberRoundTrip(m: Message)
    ensures FromNumber(Number(m)) == Ok(m)
  {
  }

  // ── Reassembly ─────────────────────────────────────────────────────

  /** One frame into the decoder: what it holds afterwards and what it answers. */
  function Pushed(held: Option<Packet>, f: Frame): (Option<Packet>, Result<Option<Packet>, P2PError>) {
    if f.flags > FRAME_FLAG_MORE then (held, Err(InvalidFlags(f.flags)))
    else
      match FromNumber(f.messageType)
      case Err(e) => (held, Err(e))
      case Ok(kind) =>
        if held.Some? && held.value.kind != kind then (held, Err(MessageTypeChanged))
        else
          var current := if held.Some? then held.value.payload else [];
          if |current| + |f.payload| > MAX_MESSAGE_BYTES then (held, Err(MessageTooLarge))
          else
            var packet := Packet(kind, current + f.payload);
            if f.flags == FRAME_FLAG_MORE then (Some(packet), Ok(None)) else (None, Ok(Some(packet)))
  }

  predicate WithinLimit(held: Option<Packet>) {
    held.Some? ==> |held.value.payload| <= MAX_MESSAGE_BYTES
  }

  class MessageDecoder {
    var held: Option<Packet>

    ghost predicate Valid()
      reads this
    {
      WithinLimit(held)
    }

    constructor ()
      ensures Valid() && held == None
    {
      held := None;
    }

    /** Takes a frame; answers a message when the frame completes one. A refused frame changes nothing. */
    method Push(messageType: nat, flags: nat, payload: seq<byte>) returns (r: Result<Option<Packet>, P2PError>)
      requires Valid()
      modifies this
      ensures Valid()
      ensures (held, r) == Pushed(old(held), Frame(messageType, flags, payload))
      ensures r.Err? ==> held == old(held)
      ensures r.Ok? && r.value.Some? ==> held == None && |r.value.value.payload| <= MAX_MESSAGE_BYTES
    {
      if flags > FRAME_FLAG_MORE {
        return Err(InvalidFlags(flags));
      }
      var kind := FromNumber(messageType);
      if kind.Err? {
        return Err(kind.error);
      }
      var more := flags == FRAME_FLAG_MORE;
      if held.Some? && held.value.kind != kind.value {
        return Err(MessageTypeChanged);
      }
      var currentLen := if held.Some? then |held.value.payload| else 0;
      if |payload| > MAX_MESSAGE_BYTES - currentLen {
        return Err(MessageTooLarge);
      }
      if held.None? {
        held := Some(Packet(kind.value, []));
      }
      held := Some(held.value.(payload := held.value.payload + payload));
      if more {
        return Ok(None);
      }
      var packet := held.value;
      held := None;
      return Ok(Some(packet));
    }
  }

  /** A whole stream of frames through one decoder, up to the first refusal. */
  datatype Decoded = Decoded(held: Option<Packet>, packets: seq<Packet>, error: Option<P2PError>)

  /** What a push contributes to the stream of messages. */
  function Emitted(p: Option<Packet>): seq<Packet> {
    if p.Some? then [p.value] else []
  }

  function DecodeAll(held: Option<Packet>, frames: seq<Frame>): Decoded
    decreases |frames|
  {
    if frames == [] then Decoded(held, [], None)
    else
      var (held', r) := Pushed(held, frames[0]);
      if r.Err? then Decoded(held', [], Some(r.error))
      else
        var later := DecodeAll(held', frames[1..]);
        later.(packets := Emitted(r.value) + later.packets)
  }

  // ── Fragmentation ──────────────────────────────────────────────────

  /** The frames of a message: full ones flagged "more", then the last. */
  function Fragments(p: Packet, cap: nat): (frames: seq<Frame>)
    requires cap > 0
    ensures frames != []
    decreases |p.payload|
  {
    if |p.payload| <= cap then [Frame(Number(p.kind), 0, p.payload)]
    else
      [Frame(Number(p.kind), FRAME_FLAG_MORE, p.payload[..cap])] + Fragments(p.(payload := p.payload[cap..]), cap)
  }

  function FragmentsOfAll(packets: seq<Packet>, cap: nat): seq<Frame>
    requires cap > 0
    decreases |packets|
  {
    if packets == [] then [] else Fragments(packets[0], cap) + FragmentsOfAll(packets[1..], cap)
  }

  /** Every chunk of the payload as a "more" frame. */
  function MoreFrames(p: Packet, cap: nat): (frames: seq<Frame>)
    requires cap > 0
    ensures p.payload == [] <==> frames == []
    decreases |p.payload|
  {
    if p.payload == [] then []
    else
      var n := if |p.payload| <= cap then |p.payload| else cap;
      [Frame(Number(p.kind), FRAME_FLAG_MORE, p.payload[..n])] + MoreFrames(p.(payload := p.payload[n..]), cap)
  }

  function Patched(frames: seq<Frame>): seq<Frame>
    requires frames != []
  {
    frames[|frames| - 1 := frames[|frames| - 1].(flags := 0)]
  }

  /** Flagging every chunk and clearing the last flag gives the frames of the message. */
  lemma {:induction false} PatchedIsFragments(p: Packet, cap: nat)
    requires cap > 0 && p.payload != []
    ensures Patched(MoreFrames(p, cap)) == Fragments(p, cap)
    decreases |p.payload|
  {
    var n := if |p.payload| <= cap then |p.payload| else cap;
    var tail := p.(payload := p.payload[n..]);
    if |p.payload| > cap {
      PatchedIsFragments(tail, cap);
      var first := Frame(Number(p.kind), FRAME_FLAG_MORE, p.payload[..n]);
      assert Patched([first] + MoreFrames(tail, cap)) == [first] + Patched(MoreFrames(tail, cap));
    } else {
      assert p.payload[..n] == p.payload;
    }
  }

  function ChunkLength(payload: seq<byte>, cap: nat): (n: nat)
    ensures n <= |payload|
  {
    if |payload| <= cap then |payload| else cap
  }

  lemma NextChunk(frames: seq<Frame>, kind: Message, rest: seq<byte>, cap: nat)
    requires cap > 0 && rest != []
    ensures var n := ChunkLength(rest, cap);
      frames + MoreFrames(Packet(kind, rest), cap)
      == (frames + [Frame(Number(kind), FRAME_FLAG_MORE, rest[..n])]) + MoreFrames(Packet(kind, rest[n..]), cap)
  {
  }

  /** Cuts a payload into frames and clears the last flag; an empty payload is one empty frame. */
  method Frames(kind: Message, payload: seq<byte>, cap: nat) returns (frames: seq<Frame>)
    requires cap > 0
    ensures frames == Fragments(Packet(kind, payload), cap)
  {
    frames := [];
    var rest := payload;
    ghost var all := MoreFrames(Packet(kind, payload), cap);
    assert frames + all == all;
    while rest != []
      invariant frames + MoreFrames(Packet(kind, rest), cap) == all
      decreases |rest|
    {
      var n := ChunkLength(rest, cap);
      NextChunk(frames, kind, rest, cap);
      frames, rest := frames + [Frame(Number(kind), FRAME_FLAG_MORE, rest[..n])], rest[n..];
    }
    assert frames + [] == frames;
    if frames != [] {
      PatchedIsFragments(Packet(kind, payload), cap);
      frames := frames[|frames| - 1 := frames[|frames| - 1].(flags := 0)];
    } else {
      frames := [Frame(Number(kind), 0, payload)];
    }
  }

  // ── Round trip ─────────────────────────────────────────────────────

  /** A result with earlier messages put before its own. */
  function Preceded(packets: seq<Packet>, d: Decoded): Decoded {
    d.(packets := packets + d.packets)
  }

  lemma PrecededTwice(a: seq<Packet>, b: seq<Packet>, d: Decoded)
    ensures Preceded(a, Preceded(b, d)) == Preceded(a + b, d)
    ensures Preceded([], d) == d
  {
    assert a + (b + d.packets) == (a + b) + d.packets;
    assert [] + d.packets == d.packets;
  }

  lemma {:induction false} DecodeAppend(held: Option<Packet>, a: seq<Frame>, b: seq<Frame>)
    requires DecodeAll(held, a).error.None?
    ensures DecodeAll(held, a + b) == Preceded(DecodeAll(held, a).packets, DecodeAll(DecodeAll(held, a).held, b))
    decreases |a|
  {
    if a == [] {
      assert a + b == b;
      PrecededTwice([], [], DecodeAll(held, b));
    } else {
      var (held', r) := Pushed(held, a[0]);
      DecodeAppend(held', a[1..], b);
      assert (a + b)[1..] == a[1..] + b;
      var rest := DecodeAll(held', a[1..]);
      PrecededTwice(Emitted(r.value), rest.packets, DecodeAll(rest.held, b));
    }
  }

  /** Pushing the frames of the rest of a message completes it when the whole is within the limit. */
  lemma {:induction false} FragmentsDecode(held: Option<Packet>, p: Packet, cap: nat)
    requires cap > 0 && WithinLimit(held) && (held.Some? ==> held.value.kind == p.kind)
    ensures var whole := (if held.Some? then held.value.payload else []) + p.payload;
      var r := DecodeAll(held, Fragments(p, cap));
      if |whole| <= MAX_MESSAGE_BYTES then r == Decoded(None, [Packet(p.kind, whole)], None)
      else r.error == Some(MessageTooLarge) && r.packets == []
    decreases |p.payload|
  {
    NumberRoundTrip(p.kind);
    var before := if held.Some? then held.value.payload else [];
    var frames := Fragments(p, cap);
    if |p.payload| <= cap {
      assert frames[1..] == [];
    } else {
      var tail := p.(payload := p.payload[cap..]);
      assert frames[1..] == Fragments(tail, cap);
      assert before + p.payload == (before + p.payload[..cap]) + p.payload[cap..];
      var (held', r) := Pushed(held, frames[0]);
      if r.Ok? {
        FragmentsDecode(held', tail, cap);
        var later := DecodeAll(held', frames[1..]);
        assert [] + later.packets == later.packets;
      }
    }
  }

  /** One message survives framing exactly when it is within the size limit. */
  lemma OneMessageIff(p: Packet, cap: nat)
    requires cap > 0
    ensures DecodeAll(None, Fragments(p, cap)) == Decoded(None, [p], None) <==> |p.payload| <= MAX_MESSAGE_BYTES
    ensures |p.payload| > MAX_MESSAGE_BYTES ==> DecodeAll(None, Fragments(p, cap)).error == Some(MessageTooLarge)
  {
    FragmentsDecode(None, p, cap);
    assert [] + p.payload == p.payload;
  }

  /** THE RESULT. The concatenated frames of any messages within the limit decode to exactly those
      messages, in order, and leave the decoder empty. */
  lemma {:induction false} StreamRoundTrip(packets: seq<Packet>, cap: nat)
    requires cap > 0 && forall i :: 0 <= i < |packets| ==> |packets[i].payload| <= MAX_MESSAGE_BYTES
    ensures DecodeAll(None, FragmentsOfAll(packets, cap)) == Decoded(None, packets, None)
    decreases |packets|
  {
    if packets != [] {
      OneMessageIff(packets[0], cap);
      StreamRoundTrip(packets[1..], cap);
      DecodeAppend(None, Fragments(packets[0], cap), FragmentsOfAll(packets[1..], cap));
      assert [packets[0]] + packets[1..] == packets;
    }
  }

  /** No stream, honest or not, makes the decoder hold or emit more than the limit. */
  lemma {:induction false} NeverOverLimit(held: Option<Packet>, frames: seq<Frame>)
    requires WithinLimit(held)
    ensures WithinLimit(DecodeAll(held, frames).held)
    ensures forall p :: p in DecodeAll(held, frames).packets ==> |p.payload| <= MAX_MESSAGE_BYTES
    decreases |frames|
  {
    if frames != [] {
      NeverOverLimit(Pushed(held, frames[0]).0, frames[1..]);
    }
  }

  /** Only nothing decodes to nothing: a stream that leaves an empty decoder and no message has no frames. */
  lemma {:induction false} QuietStreamIsEmpty(frames: seq<Frame>)
    requires DecodeAll(None, frames) == Decoded(None, [], None)
    ensures frames == []
  {
    if frames != [] {
      PendingIsFinished(Pushed(None, frames[0]).0, frames[1..]);
    }
  }

  /** A decoder that holds part of a message cannot become empty without emitting one. */
  lemma {:induction false} PendingIsFinished(held: Option<Packet>, frames: seq<Frame>)
    requires held.Some? && DecodeAll(held, frames).error.None? && DecodeAll(held, frames).packets == []
    ensures DecodeAll(held, frames).held.Some?
    decreases |frames|
  {
    if frames != [] {
      PendingIsFinished(Pushed(held, frames[0]).0, frames[1..]);
    }
  }

  // ── What the definitions amount to ─────────────────────────────────

  /** Requests have the numbers 0 to 7, and each has the response eight numbers up. */
  lemma ResponseIsEightUp(m: Message, r: Message)
    ensures Response(m) == Some(r) <==> Number(m) < 8 && Number(r) == Number(m) + 8
    ensures Response(m).Some? <==> Number(m) < 8
  {
  }

  /** Exactly which frames a decoder refuses. */
  lemma RefusedIff(held: Option<Packet>, f: Frame)
    ensures Pushed(held, f).1.Err? <==>
      || f.flags > 1
      || f.messageType > 16
      || (held.Some? && Number(held.value.kind) != f.messageType)
      || (if held.Some? then |held.value.payload| else 0) + |f.payload| > MAX_MESSAGE_BYTES
    ensures Pushed(held, f).1.Err? ==> Pushed(held, f).0 == held
  {
    if held.Some? {
      NumberRoundTrip(held.value.kind);
    }
  }

  /** The frames of one message in any chunks: one number, every flag "more" but the last. */
  ghost predicate OneMessage(frames: seq<Frame>, kind: Message) {
    && frames != []
    && forall i :: 0 <= i < |frames| ==>
         frames[i].messageType == Number(kind) && frames[i].flags == (if i < |frames| - 1 then 1 else 0)
  }

  function Payload(frames: seq<Frame>): seq<byte> {
    if frames == [] then [] else frames[0].payload + Payload(frames[1..])
  }

  /** However a message is cut, its chunks put together are what arrives. */
  lemma {:induction false} AnyChunksDecode(held: Option<Packet>, frames: seq<Frame>, kind: Message)
    requires OneMessage(frames, kind) && (held.Some? ==> held.value.kind == kind)
    requires |(if held.Some? then held.value.payload else []) + Payload(frames)| <= MAX_MESSAGE_BYTES
    ensures DecodeAll(held, frames)
      == Decoded(None, [Packet(kind, (if held.Some? then held.value.payload else []) + Payload(frames))], None)
    decreases |frames|
  {
    NumberRoundTrip(kind);
    var before := if held.Some? then held.value.payload else [];
    if |frames| == 1 {
      assert Payload(frames[1..]) == [] && frames[0].payload + [] == frames[0].payload;
    } else {
      assert before + Payload(frames) == (before + frames[0].payload) + Payload(frames[1..]);
      AnyChunksDecode(Some(Packet(kind, before + frames[0].payload)), frames[1..], kind);
      var later := DecodeAll(Pushed(held, frames[0]).0, frames[1..]);
      assert [] + later.packets == later.packets;
    }
  }

  /** The frames of a message: full chunks of the payload in order, the last one shorter or full. */
  lemma {:induction false} FragmentAt(p: Packet, cap: nat, i: nat)
    requires cap > 0 && i < |Fragments(p, cap)|
    ensures var f, n := Fragments(p, cap)[i], |Fragments(p, cap)|;
      && f.messageType == Number(p.kind)
      && (i < n - 1 ==> f.flags == 1 && (i + 1) * cap < |p.payload| && f.payload == p.payload[i * cap..(i + 1) * cap])
      && (i == n - 1 ==> f.flags == 0 && i * cap <= |p.payload| <= (i + 1) * cap && f.payload == p.payload[i * cap..])
    decreases i
  {
    if |p.payload| > cap && i > 0 {
      var tail := p.(payload := p.payload[cap..]);
      FragmentAt(tail, cap, i - 1);
      assert (i - 1) * cap + cap == i * cap && i * cap + cap == (i + 1) * cap;
      if i < |Fragments(p, cap)| - 1 {
        assert tail.payload[(i - 1) * cap..i * cap] == p.payload[i * cap..(i + 1) * cap];
      } else {
        assert tail.payload[(i - 1) * cap..] == p.payload[i * cap..];
      }
    }
  }
}
