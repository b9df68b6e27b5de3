/**
 * The inbound relay (telephony -> AI server): reads telephony events in
 * order; a media event's mu-law payload (already base64-decoded) is decoded
 * to PCM16 and sent to the AI server as one realtimeInput message; a stop
 * event closes the AI connection and ends the loop; every other event is
 * ignored.
 */
module InboundRelay {
  import MuLaw

  /** A telephony event, by the value of its "event" field. */
  datatype TwilioEvent =
    | Stop
    | MediaEvent(payload: seq<MuLaw.Byte>)
    | OtherEvent  // any other value, or no "event" field

  /** {"realtimeInput": {"audio": {"data": ..., "mimeType": ...}}}, with the data not yet base64-encoded. */
  datatype RealtimeInput = RealtimeInput(data: seq<MuLaw.Byte>, mimeType: string)

  function DigitChar(d: nat): (c: char)
    requires d < 10
    ensures '0' <= c <= '9'
    ensures c == '0' <==> d == 0
  {
    "0123456789"[d]
  }

  /** The decimal digits of n, as Python formats an int. */
  function Decimal(n: nat): (s: string)
    ensures |s| >= 1
    ensures forall k :: 0 <= k < |s| ==> '0' <= s[k] <= '9'
    ensures s[0] == '0' <==> n == 0
  {
    if n < 10 then [DigitChar(n)] else Decimal(n / 10) + [DigitChar(n % 10)]
  }

  /** The number a string of decimal digits spells, most significant digit first. */
  function DigitsValue(s: string): nat
    requires forall k :: 0 <= k < |s| ==> '0' <= s[k] <= '9'
  {
    if s == [] then 0
    else 10 * DigitsValue(s[..|s| - 1]) + (s[|s| - 1] as int - '0' as int)
  }

  /** The digits Decimal writes spell the number back. */
  lemma {:induction false} DecimalValue(n: nat)
    ensures DigitsValue(Decimal(n)) == n
  {
    if n >= 10 {
      DecimalValue(n / 10);
      var s := Decimal(n);
      assert s[..|s| - 1] == Decimal(n / 10);
    }
  }

  /** audio/pcm;rate=<rate> */
  function MimeType(rate: nat): string
  {
    "audio/pcm;rate=" + Decimal(rate)
  }

  lemma MimeTypeDefault()
    ensures MimeType(8000) == "audio/pcm;rate=8000"
  {
    assert Decimal(8) == "8";
    assert Decimal(80) == "80";
    assert Decimal(800) == "800";
  }

  /** The message the relay sends for one media payload. */
  function AudioMessage(payload: seq<MuLaw.Byte>, rate: nat): (m: RealtimeInput)
    ensures |m.data| == 2 * |payload|
    ensures m.mimeType == MimeType(rate)
  {
    RealtimeInput(MuLaw.Decode(payload), MimeType(rate))
  }

  /**
   * The outcome of the inbound loop over the events it received: what it sent
   * to the AI server, whether it closed the AI connection, and how many
   * events it read.
   */
  datatype Inbound = Inbound(sent: seq<RealtimeInput>, aiClosed: bool, consumed: nat)

  /** The inbound loop, one event at a time. */
  function RelayTrace(events: seq<TwilioEvent>, rate: nat): (r: Inbound)
    ensures r.consumed <= |events|
  {
    if events == [] then Inbound([], false, 0)
    else
      match events[0]
      case Stop => Inbound([], true, 1)
      case MediaEvent(p) =>
        var rest := RelayTrace(events[1..], rate);
        Inbound([AudioMessage(p, rate)] + rest.sent, rest.aiClosed, rest.consumed + 1)
      case OtherEvent =>
        var rest := RelayTrace(events[1..], rate);
        Inbound(rest.sent, rest.aiClosed, rest.consumed + 1)
  }

  /** The position of the first stop event, or |events| when there is none. */
  function FirstStop(events: seq<TwilioEvent>): (k: nat)
    ensures k <= |events|
    ensures k < |events| ==> events[k] == Stop
    ensures forall i :: 0 <= i < k ==> events[i] != Stop
  {
    if events == [] then 0
    else if events[0] == Stop then 0
    else 1 + FirstStop(events[1..])
  }

  /** One message per media event, in order, ignoring every other event. */
  function Forwarded(events: seq<TwilioEvent>, rate: nat): (r: seq<RealtimeInput>)
    ensures |r| <= |events|
    ensures forall m :: m in r ==> exists p :: MediaEvent(p) in events && m == AudioMessage(p, rate)
  {
    if events == [] then []
    else
      var rest := Forwarded(events[1..], rate);
      assert forall e :: e in events[1..] ==> e in events;
      match events[0]
      case MediaEvent(p) => [AudioMessage(p, rate)] + rest
      case _ => rest
  }

  lemma {:induction false} ForwardedAppend(a: seq<TwilioEvent>, b: seq<TwilioEvent>, rate: nat)
    ensures Forwarded(a + b, rate) == Forwarded(a, rate) + Forwarded(b, rate)
  {
    if a == [] {
      assert a + b == b;
    } else {
      assert (a + b)[0] == a[0] && (a + b)[1..] == a[1..] + b;
      ForwardedAppend(a[1..], b, rate);
    }
  }

  /**
   * With k the position of the first stop: the loop has sent one message per
   * media event before k, in order; it closed the AI connection exactly when
   * a stop was received; and it read the events up to and including that
   * stop (all of them when there is none).
   */
  lemma {:induction false} RelayTraceStops(events: seq<TwilioEvent>, rate: nat)
    ensures var k := FirstStop(events);
      RelayTrace(events, rate) ==
        Inbound(Forwarded(events[..k], rate), k < |events|, if k < |events| then k + 1 else |events|)
  {
    if events != [] {
      var k := FirstStop(events);
      if events[0] == Stop {
        assert events[..k] == [];
      } else {
        RelayTraceStops(events[1..], rate);
        assert events[..k][0] == events[0] && events[..k][1..] == events[1..][..k - 1];
      }
    }
  }

  /** Events after the first stop are never read. */
  lemma EventsAfterStopIgnored(events: seq<TwilioEvent>, later: seq<TwilioEvent>, rate: nat)
    requires Stop in events
    ensures RelayTrace(events + later, rate) == RelayTrace(events, rate)
  {
    var k := FirstStop(events);
    var i :| 0 <= i < |events| && events[i] == Stop;
    assert FirstStop(events + later) == k by {
      FirstStopPrefix(events, later);
    }
    RelayTraceStops(events, rate);
    RelayTraceStops(events + later, rate);
    assert (events + later)[..k] == events[..k];
  }

  lemma {:induction false} FirstStopPrefix(events: seq<TwilioEvent>, later: seq<TwilioEvent>)
    requires Stop in events
    ensures FirstStop(events + later) == FirstStop(events)
  {
    if events[0] != Stop {
      assert (events + later)[1..] == events[1..] + later;
      assert Stop in events[1..];
      FirstStopPrefix(events[1..], later);
    }
  }

  /**
   * The inbound pump: reads the events in order; on a media event sends its
   * decoded audio to the AI server; on a stop event closes the AI connection
   * and exits. Returns what was sent, whether the AI connection was closed,
   * and how many events were read.
   */
  method PumpTwilioToGemini(events: seq<TwilioEvent>, rate: nat)
    returns (sent: seq<RealtimeInput>, aiClosed: bool, consumed: nat)
    ensures Inbound(sent, aiClosed, consumed) == RelayTrace(events, rate)
    ensures aiClosed <==> Stop in events
  {
    RelayTraceStops(events, rate);
    sent, aiClosed, consumed := [], false, 0;
    while consumed < |events|
      invariant consumed <= |events|
      invariant forall i :: 0 <= i < consumed ==> events[i] != Stop
      invariant sent == Forwarded(events[..consumed], rate)
    {
      var ev := events[consumed];
      ForwardedAppend(events[..consumed], [ev], rate);
      assert events[..consumed + 1] == events[..consumed] + [ev];
      consumed := consumed + 1;
      if ev == Stop {
        aiClosed := true;
        assert FirstStop(events) == consumed - 1;
        return;
      }
      if ev.MediaEvent? {
        sent := sent + [AudioMessage(ev.payload, rate)];
      }
    }
    assert events[..consumed] == events;
  }
}
