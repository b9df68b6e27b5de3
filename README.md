# voxa call bridge: a Dafny model

voxa bridges a phone call to a realtime AI voice server. The telephony side
(Twilio Media Streams) delivers 8 kHz mu-law audio. The AI side (Gemini Live)
takes and returns 16-bit PCM. For each call, `app.py` opens the AI socket,
sends one setup message and then runs two pumps side by side:

- the **inbound pump** reads telephony events. A `media` event's payload is
  decoded from mu-law to PCM16 and sent as one `realtimeInput` message with
  MIME type `audio/pcm;rate=<SAMPLE_RATE>`. A `stop` event closes the AI
  socket and ends the pump. Every other event is ignored;
- the **outbound pump** reads AI server events. It collects their audio
  chunks: the top-level `outputAudio` first, then every object part of
  `serverContent.modelTurn.parts` that has truthy `audio`, in order. It
  encodes each chunk to mu-law and sends it as 160-byte `media` frames
  (20 ms each, the last one possibly short), followed by one `gemini-chunk`
  mark.

The model has six modules:

| file | module | contents |
|---|---|---|
| wrappers.dfy | `Wrappers` | `Option` and `Result` |
| codec.dfy | `MuLaw` | the mu-law codec as pure functions over bytes, plus lemmas on its fields, its value range, concatenation and the sign through a round trip |
| pacer.dfy | `FramePacer` | cutting a chunk into frames (a function) and sending it (a method with a loop, proved against that function) |
| outbound.dfy | `OutboundRelay` | audio extraction and the outbound pump as methods, each proved equal to a specification function; lemmas on order, content and where the pump stops |
| inbound.dfy | `InboundRelay` | the inbound pump as a method proved equal to a recursive trace function; lemmas on the first stop |
| session.dfy | `BridgeSession` | the setup message followed by the two pumps' traces |

Socket I/O is modelled as sequences. A pump's input is the sequence of
messages it receives before its socket closes. Its output is the sequence
of messages it sends. An exception that ends a pump is modelled as a
`raised` flag. Each socket is written by one party only, so what each
socket receives does not depend on how the two pumps interleave.

## Model

| member | source | states |
|---|---|---|
| MuLaw.Wrap16 | app.py:35 | the int16 cast: the result is congruent to the input modulo 2^16, and equals it when the input is already a 16-bit value |
| MuLaw.SampleBytesRoundTrip | app.py:36 | a sample written as two little-endian bytes reads back as the same sample |
| MuLaw.SampleOfRoundTrip | app.py:42 | two bytes read as an int16 sample write back as the same two bytes |
| MuLaw.SampleBytes | app.py:36 | the two bytes of a sample in the output buffer; by definition the low byte then the high byte of its two's-complement form (two bytes, by its contract) |
| MuLaw.SampleOf | app.py:42 | by definition the int16 read from a little-endian byte pair: values 0x8000 and above are negative |
| MuLaw.SignBit | app.py:29-30 | by definition bit 7 of the inverted byte is set, which holds exactly for bytes below 0x80 |
| MuLaw.Exponent | app.py:31 | the decoder's exponent is a 3-bit field (at most 7) |
| MuLaw.Mantissa | app.py:32 | the decoder's mantissa is a 4-bit field (at most 15) |
| MuLaw.Magnitude | app.py:33-34 | by definition ((mantissa << 4) + 8) << (exponent + 3), less the bias 0x84, at full width; MagnitudeRange bounds it |
| MuLaw.Expanded | app.py:35 | by definition the magnitude, negated when the sign bit is set, before the int16 cast |
| MuLaw.DecodeSample | app.py:29-35 | one decoded sample: congruent to the expanded value modulo 2^16, and equal to it whenever that fits in 16 bits |
| MuLaw.DecodeFieldBits | app.py:29-32 | the arithmetic sign, exponent and mantissa equal the bitwise `~b & 0x80`, `(~b >> 4) & 0x07` and `~b & 0x0F` |
| MuLaw.Decode | app.py:24-36 | the output is two bytes per input byte; bytes 2i and 2i+1 are the little-endian form of the sample decoded from input byte i alone (the empty input gives the empty output) |
| MuLaw.DecodeAppend | app.py:28-36 | decoding distributes over concatenation, so no state carries from one byte to the next |
| MuLaw.SignBitNegates | app.py:30-35 | flipping bit 7 of a code keeps its exponent and mantissa and negates its expanded value |
| MuLaw.MagnitudeRange | app.py:33-34 | the expanded magnitude lies in [-68, 253820], and it is negative exactly when the mantissa is 0 and the exponent is 0 or 1 |
| MuLaw.DecodeWithoutWrap | app.py:33-35 | for exponents 0 to 4 the int16 cast does not wrap; then the decoded sign follows the sign bit, except for the four codes whose magnitude is negative (mantissa 0 and exponent 0 or 1: 0xFF, 0x7F, 0xEF and 0x6F) |
| MuLaw.DecodeZeroCodes | app.py:29-35 | the zero codes decode away from zero: 0xFF gives -68 and 0x7F gives 68 |
| MuLaw.DecodeLoudCodes | app.py:33-35 | 0xB0 decodes exactly to 31612; the loudest codes wrap, so 0x80 gives -8324 and 0x00 gives 8324 |
| MuLaw.DecodeSampleUint8 | app.py:28-35 | the decoder with every intermediate kept unsigned 8-bit, as the array code evaluates it: its result always lies in [0, 255] |
| MuLaw.ShiftedUint8 | app.py:33 | modulo 256 the shifted mantissa is 0 for exponents 2 or more and 128 for exponent 1; for exponent 0 it is 64 or 192, depending on the mantissa's parity |
| MuLaw.DecodeUint8Values | app.py:28-35 | evaluated in 8 bits, every code decodes to one of eight values: 4, 60, 68, 124, 132, 188, 196 or 252 |
| MuLaw.Uint8DecodeLosesSign | app.py:28-35 | code 0x30 (sign set, exponent 4, mantissa 15) decodes to -31612 at full width but to 132 in 8 bits |
| MuLaw.Log2Floor | app.py:46 | floor(log2 n) for n >= 1: 2^k <= n < 2^(k+1) |
| MuLaw.ClippedMagnitude | app.py:43-44 | the magnitude is at most CLIP (32635); it is the absolute value of the sample, or CLIP when that exceeds CLIP |
| MuLaw.SegmentExponent | app.py:46-47 | the exponent clamped to [0, 7]: 0 means x < 32; e in 1..6 means 2^(e+4) <= x < 2^(e+5); 7 means x >= 2048 |
| MuLaw.EncodeMantissa | app.py:48 | the encoder's mantissa is a 4-bit field |
| MuLaw.EncodeSample | app.py:43-49 | by definition 255 - (128 sign + 16 exponent + mantissa), with the sign set for negative samples and the exponent and mantissa taken from the clipped magnitude; EncodeFields states which fields the decoder reads back |
| MuLaw.PackBits | app.py:49 | the bitwise or of `s << 7`, `e << 4` and `m`, inverted and truncated to 8 bits, equals 255 - (128 s + 16 e + m) for fields of 1, 3 and 4 bits |
| MuLaw.EncodeSamples | app.py:42-49 | one output byte per input sample; byte i is the encoding of the int16 read from input bytes 2i and 2i+1 |
| MuLaw.Encode | app.py:38-50 | fails exactly when the input length is odd; otherwise the output has half the input's length, and byte i encodes sample i (the empty input gives the empty output) |
| MuLaw.EncodeSamplesAppend | app.py:42-50 | encoding distributes over concatenation at any sample boundary |
| MuLaw.PackedFields | app.py:49 | a byte packed from a sign, an exponent and a mantissa gives those same fields back to the decoder's field reads |
| MuLaw.EncodeFields | app.py:43-49 | an encoded byte has bit 7 clear exactly for negative samples; the decoder reads back the encoder's sign, exponent and mantissa |
| MuLaw.CoarseMantissa | app.py:46-48 | in segments 1 to 6 the encoder's mantissa is always 2 or 3 |
| MuLaw.SignSurvivesRoundTrip | app.py:24-50 | decoding and then encoding keeps the sign bit of every code whose expanded value fits in 16 bits and whose magnitude is positive, whatever its exponent |
| MuLaw.SignLostOnWrap | app.py:35 | the loudest negative code 0x00 loses its sign bit through a decode/encode round trip |
| FramePacer.Frames | app.py:178-180 | by definition the first min(160, L) bytes as one frame, followed by the frames of the rest; FramesAt, FrameSizes and FramesConcat characterise it |
| FramePacer.ChunkMessages | app.py:177-191 | by definition one media message per frame, then the `gemini-chunk` mark; ChunkMessagesContent states its content |
| FramePacer.MediaFrames | app.py:179-184 | one media message per frame, carrying that frame, in order |
| FramePacer.FramesCount | app.py:178-179 | a chunk of L bytes produces ceil(L / 160) frames |
| FramePacer.FramesAt | app.py:179-180 | frame j is the slice [160 j, min(160 j + 160, L)) of the chunk |
| FramePacer.FrameSizes | app.py:177-180 | every frame but the last holds 160 bytes; the last holds 1 to 160 |
| FramePacer.FramesConcat | app.py:179-180 | concatenating the frames gives back the chunk |
| FramePacer.Frames401 | app.py:177-180 | a 401-byte chunk goes out as frames of 160, 160 and 81 bytes |
| FramePacer.EmptyChunk | app.py:179-191 | an empty chunk sends the mark alone |
| FramePacer.SendChunk | app.py:177-191 | sends the chunk's frames in order and then the `gemini-chunk` mark: ceil(L / 160) + 1 messages, the last one the mark |
| OutboundRelay.HasAudio | app.py:169 | by definition a part is an object whose `audio` value is present and truthy |
| OutboundRelay.TurnParts | app.py:166-167 | by definition the list at `serverContent.modelTurn.parts` when every step of that path exists, and no parts otherwise |
| OutboundRelay.PartsAudio | app.py:168-170 | at most one audio chunk per part |
| OutboundRelay.PartsAudioAppend | app.py:168-170 | collecting from two part lists in turn concatenates their chunks in order |
| OutboundRelay.PartsAudioAt | app.py:168-170 | chunk j is the audio of the j-th part that is an object with truthy audio |
| OutboundRelay.AudioPositionsIncrease | app.py:168 | the parts that chunks come from appear in increasing list order |
| OutboundRelay.AudioPositionsComplete | app.py:168-170 | every part that is an object with truthy audio contributes a chunk |
| OutboundRelay.PartsWithoutAudio | app.py:169 | parts without truthy audio, or that are not objects, contribute nothing |
| OutboundRelay.NoAudioPositions | app.py:159-170 | an event with neither top-level audio nor audio parts has no chunks, and relaying it sends nothing to the telephony side and does not raise |
| OutboundRelay.AudioChunks | app.py:159-170 | by definition the top-level `outputAudio` data (when present) followed by the audio of the `serverContent.modelTurn.parts` (when that path exists) |
| OutboundRelay.ExtractAudio | app.py:159-170 | builds the event's chunk list: the top-level `outputAudio` data first, when present, then the audio of the parts |
| OutboundRelay.Chain | app.py:173-191 | by definition the steps' sends concatenated in order, up to and including the first step that raised; the run raises exactly when one step did |
| OutboundRelay.ChainAppend | app.py:173-191 | running two runs of steps in turn concatenates their sends; the second run does not start when the first raised |
| OutboundRelay.ChainStep | app.py:173-191 | each step adds its sends after those of the earlier steps; a step that raises ends the run |
| OutboundRelay.RelayChunk | app.py:174-191 | by definition an odd-length chunk raises and sends nothing; otherwise its encoding's frames and mark are sent |
| OutboundRelay.RelayChunks | app.py:173-191 | by definition the chunks relayed in order, stopping at the first that raises; RelayEvenChunks and RelayStopsAtOddChunk characterise it |
| OutboundRelay.ChunkSteps | app.py:173-175 | one relay step per chunk, in order |
| OutboundRelay.MediaFramesContent | app.py:179-184 | the media messages of a chunk's frames carry its bytes and contain no mark |
| OutboundRelay.ChunkMessagesContent | app.py:177-191 | a chunk's media messages carry exactly its bytes, and exactly one mark follows them |
| OutboundRelay.RelayEvenChunks | app.py:173-191 | when all chunks have even length the relay does not raise; it sends one mark per chunk, and its media bytes are the chunks' encodings concatenated in order |
| OutboundRelay.RelayStopsAtOddChunk | app.py:174-175 | the first odd-length chunk raises: the relay has sent exactly what the chunks before it sent, and nothing of that chunk |
| OutboundRelay.RelayChunksUnfold | app.py:173-175 | the first chunk is relayed first; the rest follow only when it did not raise |
| OutboundRelay.TopLevelFirst | app.py:162-175 | an event's top-level audio is sent in full (frames and mark) before anything from its parts |
| OutboundRelay.RelayEventSpec | app.py:148-191 | by definition relaying the event's audio chunks, as AudioChunks lists them |
| OutboundRelay.RelayEvent | app.py:148-191 | handling one event sends exactly what relaying its extracted chunks in order sends, and raises exactly when that does |
| OutboundRelay.EventSteps | app.py:141-148 | one relay step per AI server event, in order |
| OutboundRelay.RelayEvents | app.py:141-191 | by definition the events relayed in order, stopping at the first that raises; RelayEventsFlat states it as one chunk relay |
| OutboundRelay.ChunkStepsAppend | app.py:173-175 | the steps of two chunk lists in turn are the steps of their concatenation |
| OutboundRelay.RelayEventsFlat | app.py:141-191 | event boundaries are invisible on the telephony side: relaying the events one by one sends what relaying all their chunks in turn sends |
| OutboundRelay.PumpGeminiToTwilio | app.py:141-191 | the outbound pump relays the events in order and stops at the first exception; it equals the specification RelayEvents |
| InboundRelay.Decimal | app.py:133 | the decimal form of a non-negative number: at least one character, every character a digit, and a leading `0` exactly when the number is 0 |
| InboundRelay.DigitsValue | app.py:133 | by definition the number a string of decimal digits spells, most significant digit first |
| InboundRelay.DecimalValue | app.py:133 | the digits Decimal writes spell the number back, so the MIME type carries the rate itself |
| InboundRelay.MimeType | app.py:133 | by definition `audio/pcm;rate=` followed by the rate's decimal digits |
| InboundRelay.MimeTypeDefault | app.py:133 | at the default rate of 8000 the MIME type is `audio/pcm;rate=8000` |
| InboundRelay.AudioMessage | app.py:125-136 | the message for a media payload carries twice as many PCM bytes as the payload has mu-law bytes, with MIME type `audio/pcm;rate=<rate>` |
| InboundRelay.RelayTrace | app.py:112-138 | the inbound loop never reads more events than it receives |
| InboundRelay.FirstStop | app.py:117-123 | the position of the first stop event: no stop comes before it, and it is a stop unless it is the end |
| InboundRelay.Forwarded | app.py:125-136 | at most one message per event; every message is the audio message of some media event |
| InboundRelay.ForwardedAppend | app.py:113-136 | forwarding two event lists in turn concatenates their messages |
| InboundRelay.RelayTraceStops | app.py:113-136 | with k the first stop: the pump sends one audio message per media event before k, in order; it closes the AI socket exactly when a stop arrives; it reads the events up to and including that stop |
| InboundRelay.EventsAfterStopIgnored | app.py:118-123 | events after the first stop are never read |
| InboundRelay.FirstStopPrefix | app.py:118-123 | adding events after a stop does not move the first stop |
| InboundRelay.PumpTwilioToGemini | app.py:112-138 | the inbound pump equals RelayTrace, and it closes the AI socket exactly when a stop event arrives |
| BridgeSession.WrapAudio | app.py:129-136 | one AI socket audio message per forwarded input, in order |
| BridgeSession.RunSession | app.py:86-194 | the AI socket receives the setup message first and then only audio messages |
| BridgeSession.MediaThenStop | app.py:109-136 | one media event then a stop, at the default rate: the AI socket gets the setup and one audio message (the decoded payload at `audio/pcm;rate=8000`) and is closed, and nothing is sent to the telephony side |

## Left out

- Base64 and JSON: payloads are modelled as the decoded bytes, and events as datatypes holding only the fields the relays read.
- Malformed messages are not modelled. Examples: a `media` event without `media.payload`, `outputAudio` or a part's `audio` without `data`, invalid base64, invalid JSON. The code raises on them, which ends that pump. It does not drop the message and carry on.
- A part's `audio` value counts as present exactly when it is truthy. The model keeps only "present with this data" or "absent".
- The 20 ms `asyncio.sleep` between frames is not modelled, nor are `asyncio.gather` or the concurrency of the two pumps. Neither is what happens to one pump when the other ends. Each socket is written by one party, so the per-socket traces do not depend on scheduling.
- Socket failures are not modelled beyond the end of a sequence: a failed send, a failed connect, and an error raised by closing the AI socket (the `finally: break` ends the loop either way).
- The setup message's contents (model, voice, modalities, system instruction) are not modelled; it is a single `Setup` message.
- The `/voice` TwiML endpoint, environment and configuration loading, and the server entry point are not modelled. make_call.py is not part of this model.
- `SAMPLE_RATE` comes from the environment; here it is the parameter `rate`, a natural number. A negative value, which `int(os.getenv(...))` accepts, is not modelled: its MIME type would carry a minus sign.
- PCM16 byte order is taken as little-endian, the host order of `tobytes` and `frombuffer` on common machines.
- MuLaw.SegmentExponent: the floating-point `floor(log2(x / 16.0 + 1e-9))` is modelled as the integer floor(log2(x div 16)). For integer x >= 16 the two agree, and for x < 16 both give 0 after the clamp. Floating-point rounding is not modelled.
- MuLaw.Decode: decodes with full-width integers followed by the int16 cast (MuLaw.DecodeSample), not with the 8-bit intermediates of the code as written (see Findings; MuLaw.DecodeSampleUint8 models those).
- MuLaw.Wrap16: the final cast to int16 wraps modulo 2^16, as the code does. A clamping cast would give different results for exponents 5 to 7; the code wraps.

## Findings

| source | as written | input that shows it | evidently intended | confidence | as-written member | corrected member |
|---|---|---|---|---|---|---|
| app.py:28-35 | the decoder's array is unsigned 8-bit and every intermediate keeps that type, so the shift, the subtraction of 0x84 and the negation all wrap modulo 256; every code decodes to one of eight values in [4, 252], and none is negative | code 0x30 (sign set, exponent 4, mantissa 15) decodes to 132 | the formula evaluated at full width before the int16 cast: 0x30 decodes to -31612, and flipping the sign bit negates the value | high; not executed (rests on NumPy keeping uint8 through `<<`, `-` and unary `-`) | MuLaw.Uint8DecodeLosesSign | MuLaw.SignBitNegates |
