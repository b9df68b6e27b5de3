/**
 * The frame pacer of the outbound relay: one mu-law chunk is sent to the
 * telephony socket as 160-byte media frames (20 ms at 8 kHz), the last one
 * possibly short, followed by one mark message. The 20 ms sleep between
 * frames is not modelled.
 */
module FramePacer {
  import MuLaw

  /** Bytes per media frame: 20 ms of 8 kHz mu-law. */
  const FrameSize: nat := 160
  /** The name carried by the mark sent after each chunk. */
  const ChunkMark: string := "gemini-chunk"

  /** A message sent to the telephony socket. */
  datatype TwilioMessage =
    | Media(payload: seq<MuLaw.Byte>)
    | Mark(name: string)

  /** ceil(len / FrameSize). */
  function FrameCount(len: nat): nat
  {
    (len + FrameSize - 1) / FrameSize
  }

  /** The chunk cut into consecutive slices of FrameSize bytes, the last one possibly short. */
  function Frames(u: seq<MuLaw.Byte>): seq<seq<MuLaw.Byte>>
    decreases |u|
  {
    if u == [] then []
    else
      var n := MuLaw.Min(FrameSize, |u|);
      [u[..n]] + Frames(u[n..])
  }

  function Flatten<T>(ss: seq<seq<T>>): seq<T>
  {
    if ss == [] then [] else ss[0] + Flatten(ss[1..])
  }

  function MediaFrames(frames: seq<seq<MuLaw.Byte>>): (msgs: seq<TwilioMessage>)
    ensures |msgs| == |frames|
    ensures forall j :: 0 <= j < |frames| ==> msgs[j] == Media(frames[j])
  {
    if frames == [] then [] else [Media(frames[0])] + MediaFrames(frames[1..])
  }

  /** Everything one chunk produces on the telephony socket: its frames, then the mark. */
  function ChunkMessages(u: seq<MuLaw.Byte>): seq<TwilioMessage>
  {
    MediaFrames(Frames(u)) + [Mark(ChunkMark)]
  }

  /** The number of frames is ceil(L / 160). */
  lemma {:induction false} FramesCount(u: seq<MuLaw.Byte>)
    ensures |Frames(u)| == FrameCount(|u|)
    decreases |u|
  {
    if |u| > FrameSize {
      FramesCount(u[FrameSize..]);
    }
  }

  /** Frame j is the slice [160 j, min(160 (j + 1), L)) of the chunk. */
  lemma {:induction false} FramesAt(u: seq<MuLaw.Byte>, j: nat)
    requires j < |Frames(u)|
    ensures j * FrameSize < |u|
    ensures Frames(u)[j] == u[j * FrameSize..MuLaw.Min(j * FrameSize + FrameSize, |u|)]
    decreases |u|
  {
    if j > 0 {
      var n := MuLaw.Min(FrameSize, |u|);
      var rest := u[n..];
      assert Frames(u)[j] == Frames(rest)[j - 1];
      FramesAt(rest, j - 1);
      assert n == FrameSize;
      assert rest[(j - 1) * FrameSize..MuLaw.Min((j - 1) * FrameSize + FrameSize, |rest|)]
          == u[j * FrameSize..MuLaw.Min(j * FrameSize + FrameSize, |u|)];
    }
  }

  /** Every frame but the last holds exactly 160 bytes; the last holds 1 to 160. */
  lemma FrameSizes(u: seq<MuLaw.Byte>)
    ensures forall j :: 0 <= j < |Frames(u)| - 1 ==> |Frames(u)[j]| == FrameSize
    ensures u != [] ==> 1 <= |Frames(u)[|Frames(u)| - 1]| <= FrameSize
  {
    FramesCount(u);
    var k := |Frames(u)|;
    forall j | 0 <= j < k - 1
      ensures |Frames(u)[j]| == FrameSize
    {
      FramesAt(u, j);
      assert (j + 1) * FrameSize <= (k - 1) * FrameSize < |u|;
    }
    if u != [] {
      FramesAt(u, k - 1);
    }
  }

  /** Concatenating the frames gives back the chunk. */
  lemma {:induction false} FramesConcat(u: seq<MuLaw.Byte>)
    ensures Flatten(Frames(u)) == u
    decreases |u|
  {
    if u != [] {
      var n := MuLaw.Min(FrameSize, |u|);
      FramesConcat(u[n..]);
      assert Frames(u)[1..] == Frames(u[n..]);
      assert u[..n] + u[n..] == u;
    }
  }

  /** A 401-byte chunk goes out as frames of 160, 160 and 81 bytes. */
  lemma Frames401(u: seq<MuLaw.Byte>)
    requires |u| == 401
    ensures |Frames(u)| == 3
    ensures |Frames(u)[0]| == 160 && |Frames(u)[1]| == 160 && |Frames(u)[2]| == 81
  {
    FramesCount(u);
    FramesAt(u, 0);
    FramesAt(u, 1);
    FramesAt(u, 2);
  }

  /** An empty chunk produces the mark alone. */
  lemma EmptyChunk()
    ensures ChunkMessages([]) == [Mark(ChunkMark)]
  {
  }

  /**
   * Sends one encoded chunk: a media message per 160-byte slice, in order,
   * then the mark. Returns the messages sent, in sending order.
   */
  method SendChunk(ulaw: seq<MuLaw.Byte>) returns (sent: seq<TwilioMessage>)
    ensures sent == ChunkMessages(ulaw)
    ensures |sent| == FrameCount(|ulaw|) + 1 && sent[|sent| - 1] == Mark(ChunkMark)
  {
    FramesCount(ulaw);
    sent := [];
    var i := 0;
    while i < |ulaw|
      invariant i == FrameSize * |sent|
      invariant |sent| <= FrameCount(|ulaw|)
      invariant forall j :: 0 <= j < |sent| ==> sent[j] == Media(Frames(ulaw)[j])
    {
      FramesAt(ulaw, |sent|);
      sent := sent + [Media(ulaw[i..MuLaw.Min(i + FrameSize, |ulaw|)])];
      i := i + FrameSize;
    }
    assert sent == MediaFrames(Frames(ulaw));
    sent := sent + [Mark(ChunkMark)];
  }
}
