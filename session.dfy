/**
 * One bridged call. The session opens the AI connection, sends one setup
 * message, then runs the inbound and outbound pumps side by side. Each
 * socket is written by one party only (the AI socket by the session and the
 * inbound pump, the telephony socket by the outbound pump), so what each
 * socket receives does not depend on how the two pumps interleave: the
 * session is modelled as the pair of those two traces.
 */
module BridgeSession {
  import MuLaw
  import FramePacer
  import InboundRelay
  import OutboundRelay

  /** A message sent on the AI socket: the setup message (contents not modelled) or an audio input. */
  datatype AiMessage = Setup | Audio(input: InboundRelay.RealtimeInput)

  datatype Session = Session(
    toAi: seq<AiMessage>,
    toTwilio: seq<FramePacer.TwilioMessage>,
    aiClosed: bool,
    outboundRaised: bool)

  function WrapAudio(inputs: seq<InboundRelay.RealtimeInput>): (r: seq<AiMessage>)
    ensures |r| == |inputs|
    ensures forall j :: 0 <= j < |inputs| ==> r[j] == Audio(inputs[j])
  {
    if inputs == [] then [] else [Audio(inputs[0])] + WrapAudio(inputs[1..])
  }

  /**
   * The session over the telephony events it receives and the AI server
   * events received before the AI connection closes.
   */
  function RunSession(twilioEvents: seq<InboundRelay.TwilioEvent>,
                      aiEvents: seq<OutboundRelay.ServerEvent>, rate: nat): (s: Session)
    ensures |s.toAi| >= 1 && s.toAi[0] == Setup
    ensures forall j :: 1 <= j < |s.toAi| ==> s.toAi[j].Audio?
  {
    var inbound := InboundRelay.RelayTrace(twilioEvents, rate);
    var outbound := OutboundRelay.RelayEvents(aiEvents);
    Session([Setup] + WrapAudio(inbound.sent), outbound.sent, inbound.aiClosed, outbound.raised)
  }

  /**
   * One media event (of silence, say), then stop, with no AI audio: the AI
   * server gets the setup message and exactly one audio message (the decoded
   * payload, at 8000 Hz), its connection is closed, and nothing is sent to
   * the telephony side.
   */
  lemma MediaThenStop(payload: seq<MuLaw.Byte>)
    ensures var s := RunSession([InboundRelay.MediaEvent(payload), InboundRelay.Stop], [], 8000);
      s.toAi == [Setup, Audio(InboundRelay.RealtimeInput(MuLaw.Decode(payload), "audio/pcm;rate=8000"))]
      && s.aiClosed && s.toTwilio == [] && !s.outboundRaised
  {
    InboundRelay.MimeTypeDefault();
    var events := [InboundRelay.MediaEvent(payload), InboundRelay.Stop];
    assert events[1..] == [InboundRelay.Stop];
    var msg := InboundRelay.AudioMessage(payload, 8000);
    assert InboundRelay.RelayTrace(events[1..], 8000) == InboundRelay.Inbound([], true, 1);
    assert InboundRelay.RelayTrace(events, 8000) == InboundRelay.Inbound([msg], true, 2);
    assert WrapAudio([msg]) == [Audio(msg)];
  }
}
