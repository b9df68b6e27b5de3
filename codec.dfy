/**
 * The mu-law <-> PCM16 helpers of the bridge (8 kHz mono).
 *
 * Both directions are memoryless: each output sample depends on one input
 * sample only. PCM16 is signed 16-bit little-endian. The expansion formula
 * is the one the bridge uses, which is NOT the ITU-T G.711 expansion; the
 * lemmas at the end of the module say how it behaves.
 */
module MuLaw {
  import opened Wrappers

  /** Bias subtracted from the expanded magnitude when decoding (0x84). */
  const MuLawBias: int := 0x84
  /** Largest magnitude the encoder keeps; larger magnitudes are clipped. */
  const Clip: int := 32635

  /** An unsigned 8-bit value: one mu-law sample, or one byte of a PCM16 buffer. */
  type Byte = b: int | 0 <= b < 256

  /** A signed 16-bit PCM sample. */
  type Sample = x: int | -0x8000 <= x < 0x8000

  /** Raised when a PCM16 buffer does not hold a whole number of samples. */
  datatype CodecError = OddLength

  function Pow2(k: nat): (r: nat)
    ensures r >= 1
  {
    if k == 0 then 1 else 2 * Pow2(k - 1)
  }

  lemma {:induction false} Pow2Add(a: nat, b: nat)
    ensures Pow2(a + b) == Pow2(a) * Pow2(b)
  {
    if a > 0 {
      Pow2Add(a - 1, b);
    }
  }

  function Min(a: int, b: int): int { if a <= b then a else b }

  function Abs(x: int): nat { if x < 0 then -x else x }

  // ---------------------------------------------------------------------
  // Sample <-> little-endian bytes
  // ---------------------------------------------------------------------

  /** Two's-complement wrap-around of an integer to 16 bits (numpy's astype(int16)). */
  function Wrap16(v: int): (r: Sample)
    ensures (r - v) % 0x10000 == 0
    ensures -0x8000 <= v < 0x8000 ==> r == v
  {
    (v + 0x8000) % 0x10000 - 0x8000
  }

  /** The two bytes, low byte first, that hold a sample. */
  function SampleBytes(x: Sample): (r: seq<Byte>)
    ensures |r| == 2
  {
    var u := if x < 0 then x + 0x10000 else x;
    [u % 256, u / 256]
  }

  /** The sample held by a low byte and a high byte. */
  function SampleOf(lo: Byte, hi: Byte): Sample
  {
    var u := hi * 256 + lo;
    if u >= 0x8000 then u - 0x10000 else u
  }

  lemma SampleBytesRoundTrip(x: Sample)
    ensures SampleOf(SampleBytes(x)[0], SampleBytes(x)[1]) == x
  {
  }

  lemma SampleOfRoundTrip(lo: Byte, hi: Byte)
    ensures SampleBytes(SampleOf(lo, hi)) == [lo, hi]
  {
  }

  // ---------------------------------------------------------------------
  // Decoding: mu-law byte -> sample
  // ---------------------------------------------------------------------
  // The fields are read from the bit-inverted byte ~b = 255 - b; the
  // lemma DecodeFieldBits shows that the arithmetic below is the bitwise
  // extraction (& 0x80, >> 4 & 0x07, & 0x0F).

  /** The sign bit (0x80) of the bit-inverted byte. */
  predicate SignBit(b: Byte)
  {
    255 - b >= 0x80
  }

  /** Bits 4-6 of the bit-inverted byte. */
  function Exponent(b: Byte): (e: nat)
    ensures e <= 7
  {
    ((255 - b) / 16) % 8
  }

  /** Bits 0-3 of the bit-inverted byte. */
  function Mantissa(b: Byte): (m: nat)
    ensures m <= 15
  {
    (255 - b) % 16
  }

  /** ((mantissa << 4) + 0x08) << (exponent + 3), less the bias, on unbounded integers. */
  function Magnitude(b: Byte): int
  {
    (Mantissa(b) * 16 + 8) * Pow2(Exponent(b) + 3) - MuLawBias
  }

  /** The decoded value before the final cast to 16 bits. */
  function Expanded(b: Byte): int
  {
    if SignBit(b) then -Magnitude(b) else Magnitude(b)
  }

  /** One decoded sample: the expanded value cast to int16. */
  function DecodeSample(b: Byte): (r: Sample)
    ensures (r - Expanded(b)) % 0x10000 == 0
    ensures -0x8000 <= Expanded(b) < 0x8000 ==> r == Expanded(b)
  {
    Wrap16(Expanded(b))
  }

  /** mu-law bytes -> PCM16 bytes; sample i of the output is decoded from byte i alone. */
  function Decode(mu: seq<Byte>): (pcm: seq<Byte>)
    ensures |pcm| == 2 * |mu|
    ensures forall i :: 0 <= i < |mu| ==> pcm[2 * i] == SampleBytes(DecodeSample(mu[i]))[0]
    ensures forall i :: 0 <= i < |mu| ==> pcm[2 * i + 1] == SampleBytes(DecodeSample(mu[i]))[1]
  {
    if mu == [] then []
    else SampleBytes(DecodeSample(mu[0])) + Decode(mu[1..])
  }

  /**
   * The decoder as its array arithmetic evaluates it: the inverted byte is
   * an unsigned 8-bit array and every intermediate keeps that type, so the
   * shift, the bias subtraction and the negation all wrap modulo 256 before
   * the cast to int16. The rest of the model decodes with DecodeSample, the
   * full-width reading of the same formula.
   */
  function DecodeSampleUint8(b: Byte): (r: Sample)
    ensures 0 <= r < 256
  {
    var shifted := ((Mantissa(b) * 16 + 8) * Pow2(Exponent(b) + 3)) % 256;
    var biased := (shifted - MuLawBias) % 256;
    if SignBit(b) then (256 - biased) % 256 else biased
  }

  // ---------------------------------------------------------------------
  // Encoding: sample -> mu-law byte
  // ---------------------------------------------------------------------

  /** floor(log2(n)) for n >= 1. */
  function Log2Floor(n: nat): (k: nat)
    requires n >= 1
    ensures Pow2(k) <= n < Pow2(k + 1)
  {
    if n == 1 then 0 else 1 + Log2Floor(n / 2)
  }

  /** The clipped magnitude the encoder works on: |v| limited to Clip. */
  function ClippedMagnitude(v: Sample): (x: nat)
    ensures x <= Clip
    ensures x == Abs(v) || (x == Clip && Abs(v) > Clip)
  {
    Min(Abs(v), Clip)
  }

  /**
   * The segment exponent floor(log2(x / 16)) clamped to [0, 7]; it is 0 when
   * the logarithm is negative (x < 16).
   */
  function SegmentExponent(x: nat): (e: nat)
    ensures e <= 7
    ensures e == 0 ==> x < 32
    ensures 1 <= e <= 6 ==> Pow2(e + 4) <= x < Pow2(e + 5)
    ensures e == 7 ==> x >= 2048
  {
    if x < 16 then 0
    else
      var k := Log2Floor(x / 16);
      Log2Scaled(x, k);
      Pow2Values();
      if k >= 7 then Pow2Monotone(11, k + 4); 7 else k
  }

  /** 2^k <= x / 16 < 2^(k+1) means 2^(k+4) <= x < 2^(k+5). */
  lemma Log2Scaled(x: nat, k: nat)
    requires Pow2(k) <= x / 16 < Pow2(k + 1)
    ensures Pow2(k + 4) <= x < Pow2(k + 5)
  {
    assert Pow2(4) == 16;
    Pow2Add(k, 4);
    Pow2Add(k + 1, 4);
  }

  /** (x >> (exponent + 3)) & 0x0F. */
  function EncodeMantissa(x: nat, e: nat): (m: nat)
    ensures m <= 15
  {
    (x / Pow2(e + 3)) % 16
  }

  /**
   * One encoded byte: ~(sign << 7 | exponent << 4 | mantissa) truncated to
   * 8 bits. The three fields occupy disjoint bits, so the bitwise or is a sum
   * (lemma PackBits).
   */
  function EncodeSample(v: Sample): Byte
  {
    var sign := if v < 0 then 1 else 0;
    var x := ClippedMagnitude(v);
    var e := SegmentExponent(x);
    var m := EncodeMantissa(x, e);
    255 - (sign * 128 + e * 16 + m)
  }

  /** The samples of an even-length PCM16 buffer, each encoded to one byte. */
  function EncodeSamples(pcm: seq<Byte>): (mu: seq<Byte>)
    requires |pcm| % 2 == 0
    ensures |mu| == |pcm| / 2
    ensures forall i :: 0 <= i < |mu| ==> mu[i] == EncodeSample(SampleOf(pcm[2 * i], pcm[2 * i + 1]))
  {
    if pcm == [] then []
    else [EncodeSample(SampleOf(pcm[0], pcm[1]))] + EncodeSamples(pcm[2..])
  }

  /**
   * PCM16 bytes -> mu-law bytes. The empty buffer encodes to the empty
   * buffer; a buffer of odd length cannot be read as int16 samples and fails.
   */
  function Encode(pcm: seq<Byte>): (r: Result<seq<Byte>, CodecError>)
    ensures r.Failure? <==> |pcm| % 2 == 1
    ensures r.Success? ==> |r.value| == |pcm| / 2
    ensures r.Success? ==> forall i :: 0 <= i < |r.value| ==>
      r.value[i] == EncodeSample(SampleOf(pcm[2 * i], pcm[2 * i + 1]))
  {
    if |pcm| == 0 then Success([])
    else if |pcm| % 2 == 1 then Failure(OddLength)
    else Success(EncodeSamples(pcm))
  }

  // ---------------------------------------------------------------------
  // Properties
  // ---------------------------------------------------------------------

  /** The arithmetic field extraction is the bitwise one on the inverted byte. */
  lemma DecodeFieldBits(b: bv8)
    ensures ((!b) & 0x80 != 0) <==> SignBit(b as int)
    ensures (((!b) >> 4) & 0x07) as int == Exponent(b as int)
    ensures ((!b) & 0x0F) as int == Mantissa(b as int)
  {
    var n := !b;
    assert n as int == 255 - b as int;
    assert (n & 0x80 != 0) <==> n as int >= 0x80;
    assert (n >> 4) as int == n as int / 16;
    assert ((n >> 4) & 0x07) as int == (n >> 4) as int % 8;
    assert (n & 0x0F) as int == n as int % 16;
  }

  /** Packing three disjoint fields with | and inverting is the arithmetic of EncodeSample. */
  lemma PackBits(s: bv8, e: bv8, m: bv8)
    requires s < 2 && e < 8 && m < 16
    ensures (!((s << 7) | (e << 4) | m)) as int == 255 - (s as int * 128 + e as int * 16 + m as int)
  {
  }

  /** Decoding distributes over concatenation: no state crosses a byte boundary. */
  lemma {:induction false} DecodeAppend(a: seq<Byte>, b: seq<Byte>)
    ensures Decode(a + b) == Decode(a) + Decode(b)
  {
    if a != [] {
      assert (a + b)[1..] == a[1..] + b;
      DecodeAppend(a[1..], b);
    } else {
      assert a + b == b;
    }
  }

  /** Encoding distributes over concatenation at any sample boundary. */
  lemma {:induction false} EncodeSamplesAppend(a: seq<Byte>, b: seq<Byte>)
    requires |a| % 2 == 0 && |b| % 2 == 0
    ensures EncodeSamples(a + b) == EncodeSamples(a) + EncodeSamples(b)
  {
    if a != [] {
      assert (a + b)[2..] == a[2..] + b;
      EncodeSamplesAppend(a[2..], b);
    } else {
      assert a + b == b;
    }
  }

  /** Flipping the sign bit of a byte negates its expanded value and keeps exponent and mantissa. */
  lemma SignBitNegates(b: Byte)
    ensures SignBit((b + 0x80) % 256) == !SignBit(b)
    ensures Exponent((b + 0x80) % 256) == Exponent(b) && Mantissa((b + 0x80) % 256) == Mantissa(b)
    ensures Expanded((b + 0x80) % 256) == -Expanded(b)
  {
    var c := (b + 0x80) % 256;
    assert 255 - c == (255 - b + 0x80) % 256;
    FlipBit7(255 - b);
    assert Magnitude(c) == Magnitude(b);
  }

  /** Flipping bit 7 of a byte flips its top bit and keeps bits 0-6. */
  lemma FlipBit7(t: int)
    requires 0 <= t < 256
    ensures ((t + 0x80) % 256 >= 0x80) <==> t < 0x80
    ensures ((t + 0x80) % 256 / 16) % 8 == (t / 16) % 8
    ensures (t + 0x80) % 256 % 16 == t % 16
  {
    if t < 0x80 {
      assert (t + 0x80) % 256 == t + 0x80;
      assert (t + 0x80) / 16 == t / 16 + 8;
    } else {
      assert (t + 0x80) % 256 == t - 0x80;
      assert t / 16 == (t - 0x80) / 16 + 8;
    }
  }

  lemma {:induction false} Pow2Monotone(a: nat, b: nat)
    requires a <= b
    ensures Pow2(a) <= Pow2(b)
  {
    Pow2Add(a, b - a);
  }

  /**
   * The expanded magnitude lies in [-68, 253820]; it is negative exactly for
   * mantissa 0 with exponent 0 or 1.
   */
  lemma MagnitudeRange(b: Byte)
    ensures -68 <= Magnitude(b) <= 253820
    ensures Magnitude(b) < 0 <==> Mantissa(b) == 0 && Exponent(b) <= 1
  {
    var e, m := Exponent(b), Mantissa(b);
    var p := Pow2(e + 3);
    assert Magnitude(b) == (m * 16 + 8) * p - MuLawBias;
    assert 8 <= p <= 1024 by {
      Pow2Monotone(3, e + 3);
      Pow2Monotone(e + 3, 10);
    }
    assert 8 * p <= (m * 16 + 8) * p <= 248 * 1024 by {
      MulMonotone(8, m * 16 + 8, p);
      MulMonotone(m * 16 + 8, 248, p);
      MulMonotone(p, 1024, 248);
    }
    if e > 1 {
      assert p >= 32 by { Pow2Monotone(5, e + 3); }
    } else if e == 1 {
      assert p == 16 by { Pow2Values(); assert Pow2(4) == 2 * Pow2(3); }
      assert m > 0 ==> (m * 16 + 8) * p >= 24 * 16 by { MulMonotone(24, m * 16 + 8, 16); }
    } else {
      assert p == 8 by { Pow2Values(); }
      assert m > 0 ==> (m * 16 + 8) * p >= 24 * 8 by { MulMonotone(24, m * 16 + 8, 8); }
    }
  }

  /**
   * For exponents 0..4 the 16-bit cast does not wrap, so the decoded sample
   * is the expanded value, and its sign follows the sign bit except for the
   * four codes with mantissa 0 and exponent 0 or 1 (0xFF, 0x7F, 0xEF and
   * 0x6F), whose magnitude is negative.
   */
  lemma DecodeWithoutWrap(b: Byte)
    requires Exponent(b) <= 4
    ensures DecodeSample(b) == Expanded(b)
    ensures (Exponent(b) > 1 || Mantissa(b) > 0) ==> (DecodeSample(b) < 0 <==> SignBit(b))
  {
    var e, m := Exponent(b), Mantissa(b);
    var p := Pow2(e + 3);
    Pow2Monotone(e + 3, 7);
    assert p <= 128;
    assert (m * 16 + 8) * p <= 248 * p <= 248 * 128;
    MagnitudeRange(b);
  }

  /** The positive-zero code 0xFF decodes to -68 and the negative-zero code 0x7F to 68. */
  lemma DecodeZeroCodes()
    ensures DecodeSample(0xFF) == -68 && DecodeSample(0x7F) == 68
  {
    Pow2Values();
    assert Magnitude(0xFF) == -68 && Magnitude(0x7F) == -68;
  }

  /**
   * The loudest codes wrap around 16 bits: 0x80 (sign clear) decodes to a
   * negative sample and 0x00 (sign set) to a positive one, while 0xB0, the
   * loudest code of exponent 4, is still exact.
   */
  lemma DecodeLoudCodes()
    ensures DecodeSample(0xB0) == 31612
    ensures DecodeSample(0x80) == -8324 && DecodeSample(0x00) == 8324
  {
    Pow2Values();
    assert Magnitude(0xB0) == 31612;
    assert Expanded(0x80) == 253820;
    assert Expanded(0x00) == -253820;
  }

  lemma Pow2Values()
    ensures Pow2(3) == 8 && Pow2(5) == 32 && Pow2(7) == 128
    ensures Pow2(10) == 1024 && Pow2(11) == 2048
  {
    assert Pow2(3) == 8;
    assert Pow2(5) == 32;
    assert Pow2(7) == 128;
    assert Pow2(10) == 1024;
  }

  /** A byte packed from a sign, an exponent and a mantissa yields those three fields back. */
  lemma PackedFields(s: nat, e: nat, m: nat)
    requires s < 2 && e < 8 && m < 16
    ensures SignBit(255 - (s * 128 + e * 16 + m)) <==> s == 1
    ensures Exponent(255 - (s * 128 + e * 16 + m)) == e
    ensures Mantissa(255 - (s * 128 + e * 16 + m)) == m
  {
    var t := s * 128 + e * 16 + m;
    assert t / 16 == s * 8 + e;
    assert t % 16 == m;
  }

  /**
   * The encoder writes exactly the fields that the decoder reads back; in
   * particular bit 7 of the output byte is clear exactly for negative samples.
   */
  lemma EncodeFields(v: Sample)
    ensures EncodeSample(v) < 0x80 <==> v < 0
    ensures SignBit(EncodeSample(v)) <==> v < 0
    ensures Exponent(EncodeSample(v)) == SegmentExponent(ClippedMagnitude(v))
    ensures Mantissa(EncodeSample(v)) == EncodeMantissa(ClippedMagnitude(v), SegmentExponent(ClippedMagnitude(v)))
  {
    var x := ClippedMagnitude(v);
    var e := SegmentExponent(x);
    var s := if v < 0 then 1 else 0;
    assert EncodeSample(v) == 255 - (s * 128 + e * 16 + EncodeMantissa(x, e));
    PackedFields(s, e, EncodeMantissa(x, e));
  }

  /**
   * In segments 1 to 6 the encoder's mantissa is always 2 or 3: the exponent
   * places x in [2^(e+4), 2^(e+5)) while the mantissa is x >> (e + 3).
   */
  lemma CoarseMantissa(x: nat)
    requires x <= Clip
    requires 1 <= SegmentExponent(x) <= 6
    ensures EncodeMantissa(x, SegmentExponent(x)) in {2, 3}
  {
    var e := SegmentExponent(x);
    var p := Pow2(e + 3);
    assert Pow2(e + 4) == 2 * p && Pow2(e + 5) == 4 * p;
    assert 2 * p <= x < 4 * p;
    DivBounds(x, p);
  }

  lemma DivBounds(x: nat, p: nat)
    requires p >= 1 && 2 * p <= x < 4 * p
    ensures 2 <= x / p < 4
  {
    var d := x / p;
    assert x == d * p + x % p;
    assert (d + 1) * p == d * p + p;
    MulMonotone(d + 1, 2, p);
    MulMonotone(4, d, p);
  }

  lemma MulMonotone(a: nat, b: nat, c: nat)
    ensures a <= b ==> a * c <= b * c
  {
  }

  /**
   * Decoding then encoding keeps the sign bit for every code whose decoded
   * value neither wraps nor has a negative magnitude.
   */
  lemma SignSurvivesRoundTrip(b: Byte)
    requires -0x8000 <= Expanded(b) < 0x8000
    requires Magnitude(b) > 0
    ensures SignBit(EncodeSample(DecodeSample(b))) == SignBit(b)
  {
    EncodeFields(DecodeSample(b));
  }

  /** Modulo 256 the shifted mantissa keeps only its two top bits, which depend on the exponent alone when it is 1 or more. */
  lemma ShiftedUint8(b: Byte)
    ensures ((Mantissa(b) * 16 + 8) * Pow2(Exponent(b) + 3)) % 256 ==
      if Exponent(b) >= 2 then 0
      else if Exponent(b) == 1 then 128
      else if Mantissa(b) % 2 == 0 then 64 else 192
  {
    if Exponent(b) >= 2 {
      ShiftedHigh(Mantissa(b), Exponent(b));
    } else {
      ShiftedLow(Mantissa(b));
    }
  }

  lemma ShiftedHigh(m: nat, e: nat)
    requires e >= 2
    ensures ((m * 16 + 8) * Pow2(e + 3)) % 256 == 0
  {
    var q := (2 * m + 1) * Pow2(e - 2);
    assert (m * 16 + 8) * Pow2(e + 3) == 256 * q by {
      Pow2Values();
      Pow2Add(5, e - 2);
    }
    ModMultiple(q, 0);
  }

  lemma ShiftedLow(m: nat)
    ensures ((m * 16 + 8) * Pow2(1 + 3)) % 256 == 128
    ensures ((m * 16 + 8) * Pow2(0 + 3)) % 256 == if m % 2 == 0 then 64 else 192
  {
    assert Pow2(4) == 16 && Pow2(3) == 8;
    ModMultiple(m, 128);
    assert (m * 16 + 8) * 8 == 256 * (m / 2) + 128 * (m % 2) + 64;
    ModMultiple(m / 2, 128 * (m % 2) + 64);
  }

  lemma ModMultiple(q: int, r: int)
    requires 0 <= r < 256
    ensures (256 * q + r) % 256 == r
  {
  }

  /** As evaluated in 8 bits, every code decodes to one of eight small non-negative values. */
  lemma DecodeUint8Values(b: Byte)
    ensures DecodeSampleUint8(b) in {4, 60, 68, 124, 132, 188, 196, 252}
  {
    ShiftedUint8(b);
  }

  /**
   * The code 0x30 (sign set, exponent 4, mantissa 15) decodes to -31612 at
   * full width, but to 132 when evaluated in 8 bits: sign and magnitude are
   * both lost.
   */
  lemma Uint8DecodeLosesSign()
    ensures SignBit(0x30) && Exponent(0x30) == 4 && Mantissa(0x30) == 15
    ensures DecodeSampleUint8(0x30) == 132
    ensures DecodeSample(0x30) == -31612
  {
    ShiftedUint8(0x30);
    Pow2Values();
    assert Magnitude(0x30) == 31612;
  }

  /** The loudest negative code 0x00 comes back from a decode/encode round trip with its sign bit clear. */
  lemma SignLostOnWrap()
    ensures SignBit(0x00) && !SignBit(EncodeSample(DecodeSample(0x00)))
  {
    DecodeLoudCodes();
    EncodeFields(8324);
  }
}
