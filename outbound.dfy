/**
 * The outbound relay (AI server -> telephony): for each AI server event,
 * collect its audio payloads (top-level outputAudio first, then the parts of
 * serverContent.modelTurn that carry audio, in order), encode each one to
 * mu-law and stream it with the frame pacer. Payloads are the already
 * base64-decoded PCM16 bytes.
 */
module OutboundRelay {
  import opened Wrappers
  import MuLaw
  import opened FramePacer

  type Payload = seq<MuLaw.Byte>

  /** One element of serverContent.modelTurn.parts. */
  datatype Part =
    | NonDictPart                       // not a JSON object: skipped
    | DictPart(audio: Option<Payload>)  // an object; Some(data) when its "audio" field is truthy

  datatype ModelTurn = ModelTurn(parts: Option<seq<Part>>)
  datatype ServerContent = ServerContent(modelTurn: Option<ModelTurn>)

  /** The fields of an AI server event that the relay looks at. */
  datatype ServerEvent = ServerEvent(outputAudio: Option<Payload>, serverContent: Option<ServerContent>)

  predicate HasAudio(p: Part)
  {
    p.DictPart? && p.audio.Some?
  }

  /** The audio payloads of a list of parts, in list order. */
  function PartsAudio(parts: seq<Part>): (r: seq<Payload>)
    ensures |r| <= |parts|
  {
    if parts == [] then []
    else (if HasAudio(parts[0]) then [parts[0].audio.value] else []) + PartsAudio(parts[1..])
  }

  /** serverContent.modelTurn.parts when that path exists, otherwise no parts. */
  function TurnParts(evt: ServerEvent): seq<Part>
  {
    match evt.serverContent
    case Some(ServerContent(Some(ModelTurn(Some(parts))))) => parts
    case _ => []
  }

  /** The audio chunks of one event, in the order the relay replays them. */
  function AudioChunks(evt: ServerEvent): seq<Payload>
  {
    (if evt.outputAudio.Some? then [evt.outputAudio.value] else []) + PartsAudio(TurnParts(evt))
  }

  /** Order is kept across concatenation of part lists. */
  lemma {:induction false} PartsAudioAppend(a: seq<Part>, b: seq<Part>)
    ensures PartsAudio(a + b) == PartsAudio(a) + PartsAudio(b)
  {
    if a != [] {
      assert (a + b)[1..] == a[1..] + b;
      PartsAudioAppend(a[1..], b);
    } else {
      assert a + b == b;
    }
  }

  /** The positions, from i on, of the parts that carry audio, in increasing order. */
  ghost function AudioPositions(parts: seq<Part>, i: nat): seq<nat>
    requires i <= |parts|
    decreases |parts| - i
  {
    if i == |parts| then []
    else (if HasAudio(parts[i]) then [i] else []) + AudioPositions(parts, i + 1)
  }

  /**
   * The payloads of parts[i..] are those of its audio-carrying parts, in
   * list order: element j of the result comes from part
   * AudioPositions(parts, i)[j].
   */
  lemma {:induction false} PartsAudioAt(parts: seq<Part>, i: nat)
    requires i <= |parts|
    ensures |AudioPositions(parts, i)| == |PartsAudio(parts[i..])|
    ensures forall j :: 0 <= j < |AudioPositions(parts, i)| ==>
      i <= AudioPositions(parts, i)[j] < |parts| && HasAudio(parts[AudioPositions(parts, i)[j]])
      && PartsAudio(parts[i..])[j] == parts[AudioPositions(parts, i)[j]].audio.value
    decreases |parts| - i
  {
    if i < |parts| {
      PartsAudioAt(parts, i + 1);
      PartsAudioUnfold(parts, i);
    }
  }

  lemma PartsAudioUnfold(parts: seq<Part>, i: nat)
    requires i < |parts|
    ensures PartsAudio(parts[i..]) ==
      (if HasAudio(parts[i]) then [parts[i].audio.value] else []) + PartsAudio(parts[i + 1..])
  {
    assert parts[i..][0] == parts[i] && parts[i..][1..] == parts[i + 1..];
  }

  /** The positions of the audio-carrying parts increase. */
  lemma {:induction false} AudioPositionsIncrease(parts: seq<Part>, i: nat)
    requires i <= |parts|
    ensures forall j :: 0 <= j < |AudioPositions(parts, i)| ==> i <= AudioPositions(parts, i)[j]
    ensures forall j, k :: 0 <= j < k < |AudioPositions(parts, i)| ==>
      AudioPositions(parts, i)[j] < AudioPositions(parts, i)[k]
    decreases |parts| - i
  {
    if i < |parts| {
      AudioPositionsIncrease(parts, i + 1);
    }
  }

  /** Every part from i on that carries audio is among the positions. */
  lemma {:induction false} AudioPositionsComplete(parts: seq<Part>, i: nat)
    requires i <= |parts|
    ensures forall n :: i <= n < |parts| && HasAudio(parts[n]) ==> n in AudioPositions(parts, i)
    decreases |parts| - i
  {
    if i < |parts| {
      AudioPositionsComplete(parts, i + 1);
    }
  }

  /** Parts that are not objects, or carry no truthy audio, contribute nothing. */
  lemma {:induction false} PartsWithoutAudio(parts: seq<Part>)
    requires forall n :: 0 <= n < |parts| ==> !HasAudio(parts[n])
    ensures PartsAudio(parts) == []
  {
    if parts != [] {
      PartsWithoutAudio(parts[1..]);
    }
  }

  /** An event with neither audio position yields no chunks, so nothing is sent to the telephony side. */
  lemma NoAudioPositions(evt: ServerEvent)
    requires evt.outputAudio.None?
    requires forall n :: 0 <= n < |TurnParts(evt)| ==> !HasAudio(TurnParts(evt)[n])
    ensures AudioChunks(evt) == []
    ensures RelayEventSpec(evt) == Relayed([], false)
  {
    PartsWithoutAudio(TurnParts(evt));
  }

  /**
   * Builds the ordered list of audio payloads of one event: the top-level
   * outputAudio data, then each part that is an object with truthy audio.
   */
  method ExtractAudio(evt: ServerEvent) returns (chunks: seq<Payload>)
    ensures chunks == AudioChunks(evt)
    ensures evt.outputAudio.Some? ==> |chunks| >= 1 && chunks[0] == evt.outputAudio.value
  {
    chunks := [];
    if evt.outputAudio.Some? {
      chunks := chunks + [evt.outputAudio.value];
    }
    var top := chunks;
    var sc := evt.serverContent;
    if sc.Some? && sc.value.modelTurn.Some? && sc.value.modelTurn.value.parts.Some? {
      var parts := sc.value.modelTurn.value.parts.value;
      for k := 0 to |parts|
        invariant chunks == top + PartsAudio(parts[..k])
      {
        PartsAudioAppend(parts[..k], [parts[k]]);
        assert parts[..k + 1] == parts[..k] + [parts[k]];
        if parts[k].DictPart? && parts[k].audio.Some? {
          chunks := chunks + [parts[k].audio.value];
        }
      }
      assert parts[..|parts|] == parts;
    }
  }

  // ---------------------------------------------------------------------
  // Relaying chunks and events
  // ---------------------------------------------------------------------

  /**
   * What the relay has sent to the telephony socket, and whether it stopped
   * on an exception (an odd-length PCM16 chunk cannot be encoded).
   */
  datatype Relayed = Relayed(sent: seq<TwilioMessage>, raised: bool)

  /**
   * Steps run one after the other: their sends are concatenated in order,
   * and the first step that raised ends the run.
   */
  function Chain(steps: seq<Relayed>): Relayed
  {
    if steps == [] then Relayed([], false)
    else if steps[0].raised then steps[0]
    else
      var rest := Chain(steps[1..]);
      Relayed(steps[0].sent + rest.sent, rest.raised)
  }

  /** Running a + b is running a, then (unless a raised) running b. */
  lemma {:induction false} ChainAppend(a: seq<Relayed>, b: seq<Relayed>)
    ensures Chain(a + b) ==
      if Chain(a).raised then Chain(a) else Relayed(Chain(a).sent + Chain(b).sent, Chain(b).raised)
  {
    if a == [] {
      assert a + b == b;
    } else {
      assert (a + b)[0] == a[0] && (a + b)[1..] == a[1..] + b;
      ChainAppend(a[1..], b);
    }
  }

  /**
   * One more step: it adds its sends to those of the steps before it, and
   * when it raised the whole run ends there.
   */
  lemma ChainStep(steps: seq<Relayed>, k: nat)
    requires k < |steps| && !Chain(steps[..k]).raised
    ensures !steps[k].raised ==>
      Chain(steps[..k + 1]) == Relayed(Chain(steps[..k]).sent + steps[k].sent, false)
    ensures steps[k].raised ==>
      Chain(steps) == Relayed(Chain(steps[..k]).sent + steps[k].sent, true)
  {
    var one := [steps[k]];
    assert one[1..] == [];
    ChainAppend(steps[..k], one);
    assert steps[..k + 1] == steps[..k] + one;
    ChainAppend(steps[..k + 1], steps[k + 1..]);
    assert steps[..k + 1] + steps[k + 1..] == steps;
  }

  /** One chunk: encoded and streamed by the frame pacer, or raising when it cannot be encoded. */
  function RelayChunk(c: Payload): Relayed
  {
    match MuLaw.Encode(c)
    case Failure(_) => Relayed([], true)
    case Success(ulaw) => Relayed(ChunkMessages(ulaw), false)
  }

  function ChunkSteps(chunks: seq<Payload>): (steps: seq<Relayed>)
    ensures |steps| == |chunks|
    ensures forall i :: 0 <= i < |chunks| ==> steps[i] == RelayChunk(chunks[i])
  {
    if chunks == [] then [] else [RelayChunk(chunks[0])] + ChunkSteps(chunks[1..])
  }

  /** Encode and stream each chunk in order; the first chunk that fails to encode ends the relay. */
  function RelayChunks(chunks: seq<Payload>): Relayed
  {
    Chain(ChunkSteps(chunks))
  }

  /** The bytes carried by the media messages, concatenated in sending order. */
  function MediaBytes(msgs: seq<TwilioMessage>): seq<MuLaw.Byte>
  {
    if msgs == [] then []
    else (if msgs[0].Media? then msgs[0].payload else []) + MediaBytes(msgs[1..])
  }

  /** The number of mark messages. */
  function MarkCount(msgs: seq<TwilioMessage>): nat
  {
    if msgs == [] then 0 else (if msgs[0].Mark? then 1 else 0) + MarkCount(msgs[1..])
  }

  lemma {:induction false} MessagesAppend(a: seq<TwilioMessage>, b: seq<TwilioMessage>)
    ensures MediaBytes(a + b) == MediaBytes(a) + MediaBytes(b)
    ensures MarkCount(a + b) == MarkCount(a) + MarkCount(b)
  {
    if a == [] {
      assert a + b == b;
    } else {
      assert (a + b)[0] == a[0] && (a + b)[1..] == a[1..] + b;
      MessagesAppend(a[1..], b);
    }
  }

  lemma {:induction false} MediaFramesContent(frames: seq<seq<MuLaw.Byte>>)
    ensures MediaBytes(MediaFrames(frames)) == Flatten(frames)
    ensures MarkCount(MediaFrames(frames)) == 0
  {
    if frames != [] {
      MediaFramesContent(frames[1..]);
      assert MediaFrames(frames)[1..] == MediaFrames(frames[1..]);
    }
  }

  /** The media messages of a chunk carry exactly its bytes, and exactly one mark follows. */
  lemma ChunkMessagesContent(u: seq<MuLaw.Byte>)
    ensures MediaBytes(ChunkMessages(u)) == u
    ensures MarkCount(ChunkMessages(u)) == 1
  {
    MessagesAppend(MediaFrames(Frames(u)), [Mark(ChunkMark)]);
    MediaFramesContent(Frames(u));
    FramesConcat(u);
  }

  /** The encodings of chunks that all have even length, concatenated. */
  function EncodedBytes(chunks: seq<Payload>): seq<MuLaw.Byte>
    requires forall i :: 0 <= i < |chunks| ==> |chunks[i]| % 2 == 0
  {
    if chunks == [] then [] else MuLaw.Encode(chunks[0]).value + EncodedBytes(chunks[1..])
  }

  /**
   * When every chunk has even length the relay does not raise, sends one
   * mark per chunk, and its media frames carry exactly the encodings of the
   * chunks, in order.
   */
  lemma {:induction false} RelayEvenChunks(chunks: seq<Payload>)
    requires forall i :: 0 <= i < |chunks| ==> |chunks[i]| % 2 == 0
    ensures !RelayChunks(chunks).raised
    ensures MarkCount(RelayChunks(chunks).sent) == |chunks|
    ensures MediaBytes(RelayChunks(chunks).sent) == EncodedBytes(chunks)
  {
    if chunks != [] {
      var u := MuLaw.Encode(chunks[0]).value;
      var rest := RelayChunks(chunks[1..]);
      assert RelayChunks(chunks) == Relayed(ChunkMessages(u) + rest.sent, rest.raised) by {
        RelayChunksUnfold(chunks);
        assert RelayChunk(chunks[0]) == Relayed(ChunkMessages(u), false);
      }
      RelayEvenChunks(chunks[1..]);
      assert MediaBytes(ChunkMessages(u) + rest.sent) == u + MediaBytes(rest.sent)
          && MarkCount(ChunkMessages(u) + rest.sent) == 1 + MarkCount(rest.sent) by {
        ChunkMessagesContent(u);
        MessagesAppend(ChunkMessages(u), rest.sent);
      }
    }
  }

  /**
   * The first chunk of odd length ends the relay: what was sent is what the
   * chunks before it sent, and the relay raises.
   */
  lemma RelayStopsAtOddChunk(chunks: seq<Payload>, k: nat)
    requires k < |chunks| && |chunks[k]| % 2 == 1
    requires forall i :: 0 <= i < k ==> |chunks[i]| % 2 == 0
    ensures RelayChunks(chunks) == Relayed(RelayChunks(chunks[..k]).sent, true)
  {
    var steps := ChunkSteps(chunks);
    assert steps[..k] == ChunkSteps(chunks[..k]);
    RelayEvenChunks(chunks[..k]);
    ChainStep(steps, k);
    assert steps[k] == Relayed([], true);
    assert RelayChunks(chunks[..k]).sent + [] == RelayChunks(chunks[..k]).sent;
  }

  /** The first chunk is relayed first; the rest follow unless it raised. */
  lemma RelayChunksUnfold(chunks: seq<Payload>)
    requires chunks != []
    ensures RelayChunks(chunks) ==
      if RelayChunk(chunks[0]).raised then RelayChunk(chunks[0])
      else Relayed(RelayChunk(chunks[0]).sent + RelayChunks(chunks[1..]).sent, RelayChunks(chunks[1..]).raised)
  {
    var steps := ChunkSteps(chunks);
    assert steps[0] == RelayChunk(chunks[0]) && steps[1..] == ChunkSteps(chunks[1..]);
  }

  /**
   * An event with top-level audio first streams that audio (frames and
   * mark), and only then the audio of its parts.
   */
  lemma TopLevelFirst(evt: ServerEvent)
    requires evt.outputAudio.Some? && |evt.outputAudio.value| % 2 == 0
    ensures var top := ChunkMessages(MuLaw.Encode(evt.outputAudio.value).value);
      RelayEventSpec(evt) == Relayed(top + RelayChunks(PartsAudio(TurnParts(evt))).sent,
                                     RelayChunks(PartsAudio(TurnParts(evt))).raised)
  {
    var chunks := AudioChunks(evt);
    assert chunks[0] == evt.outputAudio.value;
    assert chunks[1..] == PartsAudio(TurnParts(evt));
    RelayChunksUnfold(chunks);
  }

  /** The relay of one AI server event. */
  function RelayEventSpec(evt: ServerEvent): Relayed
  {
    RelayChunks(AudioChunks(evt))
  }

  /**
   * Handles one AI server event: extracts its audio chunks, then encodes and
   * streams each one. Returns what was sent and whether encoding raised.
   */
  method RelayEvent(evt: ServerEvent) returns (sent: seq<TwilioMessage>, raised: bool)
    ensures Relayed(sent, raised) == RelayEventSpec(evt)
  {
    var chunks := ExtractAudio(evt);
    ghost var steps := ChunkSteps(chunks);
    sent, raised := [], false;
    var k := 0;
    while k < |chunks|
      invariant 0 <= k <= |chunks|
      invariant Relayed(sent, false) == Chain(steps[..k])
    {
      ChainStep(steps, k);
      var encoded := MuLaw.Encode(chunks[k]);
      if encoded.Failure? {
        assert sent + [] == sent;
        raised := true;
        return;
      }
      var frames := SendChunk(encoded.value);
      sent := sent + frames;
      k := k + 1;
    }
    assert steps[..|chunks|] == steps;
  }

  function EventSteps(events: seq<ServerEvent>): (steps: seq<Relayed>)
    ensures |steps| == |events|
    ensures forall i :: 0 <= i < |events| ==> steps[i] == RelayEventSpec(events[i])
  {
    if events == [] then [] else [RelayEventSpec(events[0])] + EventSteps(events[1..])
  }

  /**
   * The outbound relay over the events received before the AI connection
   * closes: each event is relayed in turn, and an exception ends the loop.
   */
  function RelayEvents(events: seq<ServerEvent>): Relayed
  {
    Chain(EventSteps(events))
  }

  /** All chunks of all events, in arrival order. */
  function AllChunks(events: seq<ServerEvent>): seq<Payload>
  {
    if events == [] then [] else AudioChunks(events[0]) + AllChunks(events[1..])
  }

  lemma {:induction false} ChunkStepsAppend(a: seq<Payload>, b: seq<Payload>)
    ensures ChunkSteps(a + b) == ChunkSteps(a) + ChunkSteps(b)
  {
    if a == [] {
      assert a + b == b;
    } else {
      assert (a + b)[0] == a[0] && (a + b)[1..] == a[1..] + b;
      ChunkStepsAppend(a[1..], b);
    }
  }

  /**
   * Event boundaries are invisible on the telephony side: relaying the events
   * one by one sends what relaying all their chunks in turn sends.
   */
  lemma {:induction false} RelayEventsFlat(events: seq<ServerEvent>)
    ensures RelayEvents(events) == RelayChunks(AllChunks(events))
  {
    if events != [] {
      RelayEventsFlat(events[1..]);
      var first := ChunkSteps(AudioChunks(events[0]));
      var later := ChunkSteps(AllChunks(events[1..]));
      ChunkStepsAppend(AudioChunks(events[0]), AllChunks(events[1..]));
      ChainAppend(first, later);
      assert EventSteps(events)[0] == Chain(first);
      assert EventSteps(events)[1..] == EventSteps(events[1..]);
    }
  }

  /**
   * The outbound pump: receives AI server events until the connection is
   * closed (the end of the sequence) and relays each; an encoding exception
   * ends the pump.
   */
  method PumpGeminiToTwilio(events: seq<ServerEvent>) returns (sent: seq<TwilioMessage>, raised: bool)
    ensures Relayed(sent, raised) == RelayEvents(events)
  {
    ghost var steps := EventSteps(events);
    sent, raised := [], false;
    var k := 0;
    while k < |events|
      invariant 0 <= k <= |events|
      invariant Relayed(sent, false) == Chain(steps[..k])
    {
      ChainStep(steps, k);
      var out, failed := RelayEvent(events[k]);
      sent := sent + out;
      if failed {
        raised := true;
        return;
      }
      k := k + 1;
    }
    assert steps[..|events|] == steps;
  }
}
