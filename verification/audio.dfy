/** The integer PCM decoders of audio.h: `MemoryAudioDecoder`, a cursor over a buffer
    of interleaved `int16_t` values, and `RedistributeChannelsAudioDecoder`, which
    remixes each frame of a wrapped decoder to another channel count. A frame is one
    value per channel; `decodeAudioBlock(data, n)` counts in frames. */
module Audio {
  import opened Integers
  import opened Util

  const Int16Min: int := -0x8000
  const Int16Max: int := 0x7FFF

  function Min(a: nat, b: nat): nat
  {
    if a < b then a else b
  }

  /** Within the range of `int16_t`, so that narrowing keeps the value. */
  predicate InI16(v: int)
  {
    Int16Min <= v <= Int16Max
  }

  lemma MulCancelLe(a: nat, b: nat, c: nat)
    requires c > 0 && a * c <= b * c
    ensures a <= b
  {
  }

  lemma MulMonotone(a: nat, b: nat, c: nat)
    requires a <= b
    ensures a * c <= b * c
  {
    assert b * c == a * c + (b - a) * c;
  }

  /** Division is exact on a multiple. */
  lemma DivExact(x: nat, k: nat, c: nat)
    requires c > 0 && x == k * c
    ensures x / c == k && x % c == 0
  {
    var q, r := x / c, x % c;
    assert q * c + r == k * c;
    if q < k {
      assert (q + 1) * c == q * c + c;
      MulMonotone(q + 1, k, c);
    }
  }

  lemma MultipleAdd(a: nat, k: nat, c: nat)
    requires c > 0 && a % c == 0
    ensures (a + k * c) % c == 0
  {
    assert a + k * c == (a / c + k) * c;
    DivExact(a + k * c, a / c + k, c);
  }

  /** The distance between two multiples of `c` is a whole number of `c`s. */
  lemma FramesBetween(a: nat, b: nat, c: nat)
    requires c > 0 && a % c == 0 && b % c == 0 && a <= b
    ensures (b - a) % c == 0 && (b - a) / c * c == b - a
  {
    assert b - a == (b / c - a / c) * c;
    DivExact(b - a, b / c - a / c, c);
  }

  /** Two multiples of `c`, one below the other, are at least `c` apart. */
  lemma NextMultiple(a: nat, b: nat, c: nat)
    requires c > 0 && a % c == 0 && b % c == 0 && a < b
    ensures a + c <= b
  {
    var qa, qb := a / c, b / c;
    assert a == qa * c && b == qb * c;
    if qb <= qa {
      MulMonotone(qb, qa, c);
    }
    MulMonotone(qa + 1, qb, c);
  }

  /** `MemoryAudioDecoder`: the values of `samples`, `channels` to a frame, read from
      `currentLocation` on. */
  class MemoryAudioDecoder {
    const samples: seq<i16>
    const sampleRate: u32
    const channels: u32
    var currentLocation: nat

    ghost predicate Valid()
      reads this
    {
      && sampleRate > 0 && channels > 0
      && |samples| % channels == 0
      && currentLocation <= |samples| && currentLocation % channels == 0
    }

    /** The constructor asserts a positive rate, a positive channel count and whole
        frames. */
    constructor(data: seq<i16>, sampleRate: u32, channelCount: u32)
      requires sampleRate > 0 && channelCount > 0 && |data| % channelCount == 0
      ensures Valid() && currentLocation == 0
      ensures samples == data && this.sampleRate == sampleRate && channels == channelCount
    {
      samples := data;
      this.sampleRate := sampleRate;
      channels := channelCount;
      currentLocation := 0;
    }

    /** `samplesPerSecond()` and `channelCount()`: the constructor's arguments. */
    function SamplesPerSecond(): u32
    {
      sampleRate
    }

    function ChannelCount(): u32
    {
      channels
    }

    /** `numSamples()`: the number of frames in the buffer. */
    function NumSamples(): (r: nat)
      requires Valid()
      reads this
      ensures r * channels == |samples|
    {
      |samples| / channels
    }

    /** The number of frames after the cursor. */
    function Remaining(): (r: nat)
      requires Valid()
      reads this
      ensures r * channels == |samples| - currentLocation
    {
      FramesBetween(currentLocation, |samples|, channels);
      (|samples| - currentLocation) / channels
    }

    /** `decodeAudioBlock(data, samplesCount)`: copies whole frames from the cursor
        into `data`, at most `samplesCount` of them and no more than remain, and
        advances the cursor past them. The caller's buffer holds `samplesCount`
        frames. */
    method DecodeAudioBlock(data: array<i16>, samplesCount: nat) returns (retval: nat)
      requires Valid() && samplesCount * channels <= data.Length
      modifies this, data
      ensures Valid()
      ensures retval == Min(samplesCount, old(Remaining()))
      ensures currentLocation == old(currentLocation) + retval * channels
      ensures data[..retval * channels] == samples[old(currentLocation)..currentLocation]
      ensures data[retval * channels..] == old(data[retval * channels..])
    {
      ghost var start := currentLocation;
      ghost var remaining := Remaining();
      retval := 0;
      var di := 0;
      assert di == retval * channels;
      while retval < samplesCount && currentLocation < |samples|
        invariant Valid()
        invariant retval <= samplesCount
        invariant di == retval * channels && currentLocation == start + di
        invariant data[..di] == samples[start..currentLocation]
        invariant forall k :: di <= k < data.Length ==> data[k] == old(data[k])
        decreases |samples| - currentLocation
      {
        MulMonotone(retval + 1, samplesCount, channels);
        assert di + channels == (retval + 1) * channels <= data.Length;
        CopyFrame(data, di, start);
        di := di + channels;
        retval := retval + 1;
      }
      MulCancelLe(retval, remaining, channels);
      if retval < samplesCount {
        MulCancelLe(remaining, retval, channels);
      }
      assert data[di..] == old(data[di..]);
    }

    /** One turn of the decoding loop: the frame at the cursor, copied to `data` from
        `at` on. */
    method CopyFrame(data: array<i16>, at: nat, ghost start: nat)
      requires Valid() && currentLocation < |samples| && at + channels <= data.Length
      requires currentLocation == start + at && data[..at] == samples[start..currentLocation]
      modifies this, data
      ensures Valid() && currentLocation == old(currentLocation) + channels
      ensures data[..at + channels] == samples[start..currentLocation]
      ensures forall k :: at + channels <= k < data.Length ==> data[k] == old(data[k])
    {
      NextMultiple(currentLocation, |samples|, channels);
      var frame := samples[currentLocation..currentLocation + channels];
      WriteFrame(data, at, frame);
      assert samples[start..currentLocation + channels] == samples[start..currentLocation] + frame;
      MultipleAdd(currentLocation, 1, channels);
      currentLocation := currentLocation + channels;
    }

    /** `reset()`: back to the first frame. */
    method Reset()
      requires Valid()
      modifies this
      ensures Valid() && currentLocation == 0 && Remaining() == NumSamples()
    {
      currentLocation := 0;
    }
  }

  /** The sum of a frame's values. */
  function Sum(f: seq<int>): int
  {
    if |f| == 0 then 0 else Sum(f[..|f| - 1]) + f[|f| - 1]
  }

  /** Every value within the range of `int16_t`: a frame of `int16_t` values widened
      to `int`, as the remixing expressions do. */
  predicate AllI16(f: seq<int>)
  {
    forall i :: 0 <= i < |f| ==> InI16(f[i])
  }

  lemma {:induction false} SumBounds(f: seq<int>)
    requires AllI16(f)
    ensures |f| * Int16Min <= Sum(f) <= |f| * Int16Max
  {
    if |f| > 0 {
      SumBounds(f[..|f| - 1]);
    }
  }

  /** The truncated quotient of a total of `weight` values of `int16_t` by `weight`,
      which lies in the range of `int16_t` again. */
  function WeightedMean(total: int, weight: nat): (r: int)
    requires weight >= 1 && weight * Int16Min <= total <= weight * Int16Max
    ensures InI16(r)
    ensures total >= 0 ==> r >= 0
    ensures total <= 0 ==> r <= 0
  {
    var q := TDiv(total, weight);
    assert InI16(q) by {
      if q > Int16Max {
        MulMonotone(Int16Max + 1, q, weight);
      }
    }
    q
  }

  /** The mean of a frame, divided as signed integers: what the downmix to one
      channel and the fallback for channel counts outside 1 to 6 evidently intend. */
  function Mean(f: seq<int>): (r: int)
    requires |f| >= 1 && AllI16(f)
    ensures InI16(r)
  {
    SumBounds(f);
    WeightedMean(Sum(f), |f|)
  }

  /** `limit(v, int16_min, int16_max)`. */
  function Clamp(v: int): (r: int)
    ensures InI16(r)
  {
    Limit(v, Int16Min, Int16Max)
  }

  function Repeat(v: int, n: nat): (r: seq<int>)
    ensures |r| == n && forall i :: 0 <= i < n ==> r[i] == v
  {
    seq(n, _ => v)
  }

  /** The output frame of `channels` values that the remixing table gives for the
      source frame `f`. The target counts 2 to 6 each have a row for every source
      count 1 to 6; one output channel, and every count outside 1 to 6, repeats the
      frame's sum divided by the unsigned channel count, as written. */
  function Remix(f: seq<int>, channels: nat): (r: seq<int>)
    requires |f| >= 1 && AllI16(f)
    ensures |r| == channels
    ensures forall i :: 0 <= i < |r| ==> InI16(r[i])
  {
    if channels == 1 || channels > 6 || |f| > 6 then Repeat(MeanAsWritten(f), channels)
    else if channels == 2 then RemixTo2(f)
    else if channels == 3 then RemixTo3(f)
    else if channels == 4 then RemixTo4(f)
    else if channels == 5 then RemixTo5(f)
    else if channels == 6 then RemixTo6(f)
    else []
  }

  function RemixTo2(f: seq<int>): (r: seq<int>)
    requires 1 <= |f| <= 6 && AllI16(f)
    ensures |r| == 2 && InI16(r[0]) && InI16(r[1])
  {
    var c1 := f[0];
    match |f|
    case 1 => [c1, c1]
    case 2 => [c1, f[1]]
    case 3 => [WeightedMean(2 * c1 + f[1], 3), WeightedMean(f[1] + 2 * f[2], 3)]
    case 4 => [WeightedMean(c1 + f[2], 2), WeightedMean(f[1] + f[3], 2)]
    case 5 =>
      [WeightedMean(2 * c1 + f[1] + 2 * f[3], 5), WeightedMean(2 * f[2] + f[1] + 2 * f[4], 5)]
    case _ =>
      [Clamp(WeightedMean(2 * c1 + f[1] + 2 * f[3], 5) + f[5]),
       Clamp(WeightedMean(2 * f[2] + f[1] + 2 * f[4], 5) + f[5])]
  }

  /** The front left and right of two channels, spread by `limit((5 * a - b) / 4)`. */
  function Spread(a: int, b: int): (r: int)
    ensures InI16(r)
  {
    Clamp(TDiv(5 * a - b, 4))
  }

  function RemixTo3(f: seq<int>): (r: seq<int>)
    requires 1 <= |f| <= 6 && AllI16(f)
    ensures |r| == 3 && InI16(r[0]) && InI16(r[1]) && InI16(r[2])
  {
    var c1 := f[0];
    match |f|
    case 1 => [c1, c1, c1]
    case 2 => [Spread(c1, f[1]), WeightedMean(c1 + f[1], 2), Spread(f[1], c1)]
    case 3 => [c1, f[1], f[2]]
    case 4 =>
      [Clamp(TDiv(5 * (c1 + f[2]) - f[1] - f[3], 8)),
       WeightedMean(c1 + f[1] + f[2] + f[3], 4),
       Clamp(TDiv(5 * (f[1] + f[3]) - c1 - f[2], 8))]
    case 5 => [WeightedMean(c1 + f[3], 2), f[1], WeightedMean(f[2] + f[4], 2)]
    case _ =>
      [Clamp(WeightedMean(c1 + f[3], 2) + f[5]),
       Clamp(f[1] + f[5]),
       Clamp(WeightedMean(f[2] + f[4], 2) + f[5])]
  }

  function RemixTo4(f: seq<int>): (r: seq<int>)
    requires 1 <= |f| <= 6 && AllI16(f)
    ensures |r| == 4 && forall i :: 0 <= i < 4 ==> InI16(r[i])
  {
    var c1 := f[0];
    match |f|
    case 1 => [c1, c1, c1, c1]
    case 2 => [c1, f[1], c1, f[1]]
    case 3 =>
      var left, right := WeightedMean(2 * c1 + f[1], 3), WeightedMean(f[1] + 2 * f[2], 3);
      [left, right, left, right]
    case 4 => [c1, f[1], f[2], f[3]]
    case 5 => [WeightedMean(2 * c1 + f[1], 3), WeightedMean(2 * f[2] + f[1], 3), f[3], f[4]]
    case _ =>
      [Clamp(WeightedMean(2 * c1 + f[1], 3) + f[5]),
       Clamp(WeightedMean(2 * f[2] + f[1], 3) + f[5]),
       Clamp(f[3] + f[5]),
       Clamp(f[4] + f[5])]
  }

  function RemixTo5(f: seq<int>): (r: seq<int>)
    requires 1 <= |f| <= 6 && AllI16(f)
    ensures |r| == 5 && forall i :: 0 <= i < 5 ==> InI16(r[i])
  {
    var c1 := f[0];
    match |f|
    case 1 => [c1, c1, c1, c1, c1]
    case 2 =>
      [Spread(c1, f[1]), WeightedMean(c1 + f[1], 2), Spread(f[1], c1),
       Spread(c1, f[1]), Spread(f[1], c1)]
    case 3 => [c1, f[1], f[2], c1, f[2]]
    case 4 =>
      [Spread(c1, f[1]), WeightedMean(c1 + f[1] + f[2] + f[3], 4), Spread(f[1], c1),
       Spread(c1, f[1]), Spread(f[1], c1)]
    case 5 => [c1, f[1], f[2], f[3], f[4]]
    case _ =>
      [Clamp(c1 + f[5]), Clamp(f[1] + f[5]), Clamp(f[2] + f[5]),
       Clamp(f[3] + f[5]), Clamp(f[4] + f[5])]
  }

  function RemixTo6(f: seq<int>): (r: seq<int>)
    requires 1 <= |f| <= 6 && AllI16(f)
    ensures |r| == 6 && forall i :: 0 <= i < 6 ==> InI16(r[i])
  {
    var c1 := f[0];
    match |f|
    case 1 => [c1, c1, c1, c1, c1, c1]
    case 2 =>
      var center := WeightedMean(c1 + f[1], 2);
      [Spread(c1, f[1]), center, Spread(f[1], c1), Spread(c1, f[1]), Spread(f[1], c1), center]
    case 3 => [c1, f[1], f[2], c1, f[2], WeightedMean(c1 + f[1] + f[2], 3)]
    case 4 =>
      var center := WeightedMean(c1 + f[1] + f[2] + f[3], 4);
      [Spread(c1, f[1]), center, Spread(f[1], c1), Spread(c1, f[1]), Spread(f[1], c1), center]
    case 5 => [c1, f[1], f[2], f[3], f[4], WeightedMean(c1 + f[1] + f[2] + f[3] + f[4], 5)]
    case _ => [c1, f[1], f[2], f[3], f[4], f[5]]
  }

  /** A frame remixed to its own channel count, for 1 to 6 channels, is unchanged. */
  lemma RemixIdentity(f: seq<int>)
    requires 1 <= |f| <= 6 && AllI16(f)
    ensures Remix(f, |f|) == f
  {
    if |f| == 1 {
      assert Sum(f) == f[0] by {
        assert f[..0] == [];
      }
      NarrowWrapped(f[0]);
    }
  }

  /** The whole frames of `values`, `sc` values to a frame, each remixed to
      `channels` values, in order. Every value lies within the range of `int16_t`
      before it is narrowed. */
  function Remixed(values: seq<i16>, sc: nat, channels: nat): (r: seq<int>)
    requires sc >= 1
    ensures AllI16(r)
    decreases |values|
  {
    if |values| < sc then []
    else
      var frame, rest := Remix(values[..sc], channels), Remixed(values[sc..], sc, channels);
      assert forall i :: |frame| <= i < |frame| + |rest| ==> (frame + rest)[i] == rest[i - |frame|];
      frame + rest
  }

  /** `n` frames remix to `n * channels` values. */
  lemma {:induction false} RemixedLength(values: seq<i16>, sc: nat, channels: nat, n: nat)
    requires sc >= 1 && |values| == n * sc
    ensures |Remixed(values, sc, channels)| == n * channels
  {
    if n > 0 {
      assert |values[sc..]| == (n - 1) * sc;
      RemixedLength(values[sc..], sc, channels, n - 1);
      assert (n - 1) * channels + channels == n * channels;
    }
  }

  /** Remixing whole frames of 1 to 6 channels to the same count gives the values
      back. */
  lemma {:induction false} RemixedIdentity(values: seq<i16>, sc: nat, n: nat)
    requires 1 <= sc <= 6 && |values| == n * sc
    ensures Remixed(values, sc, sc) == values
  {
    if n > 0 {
      assert |values[sc..]| == (n - 1) * sc;
      RemixedIdentity(values[sc..], sc, n - 1);
      RemixIdentity(values[..sc]);
      assert values == values[..sc] + values[sc..];
    }
  }

  /** The innermost loops: the values of one frame written to `data` from `at` on. */
  method WriteFrame(data: array<i16>, at: nat, frame: seq<int>)
    requires at + |frame| <= data.Length && AllI16(frame)
    modifies data
    ensures data[..at + |frame|] == old(data[..at]) + frame
    ensures data[at + |frame|..] == old(data[at + |frame|..])
  {
    for j := 0 to |frame|
      invariant data[..at + j] == old(data[..at]) + frame[..j]
      invariant data[at + j..] == old(data[at + j..])
    {
      data[at + j] := frame[j];
    }
    assert frame[..|frame|] == frame;
  }

  /** `values` splits into whole frames of `sc` values. */
  predicate WholeFrames(values: seq<i16>, sc: nat)
    requires sc >= 1
    decreases |values|
  {
    |values| == 0 || (|values| >= sc && WholeFrames(values[sc..], sc))
  }

  lemma {:induction false} CountedFrames(values: seq<i16>, sc: nat, n: nat)
    requires sc >= 1 && |values| == n * sc
    ensures WholeFrames(values, sc)
  {
    if n > 0 {
      assert |values[sc..]| == (n - 1) * sc;
      CountedFrames(values[sc..], sc, n - 1);
    }
  }

  /** The remix of the whole frames from `start` on: the frame at `start`, then the
      rest. */
  lemma RemixedUnfold(values: seq<i16>, start: nat, sc: nat, channels: nat)
    requires sc >= 1 && start < |values| && WholeFrames(values[start..], sc)
    ensures start + sc <= |values| && WholeFrames(values[start + sc..], sc)
    ensures Remixed(values[start..], sc, channels)
      == Remix(values[start..start + sc], channels) + Remixed(values[start + sc..], sc, channels)
  {
    var rest := values[start..];
    assert rest[..sc] == values[start..start + sc];
    assert rest[sc..] == values[start + sc..];
  }

  /** The remixing loops: the output values, frame after frame, for the whole frames
      of `buffer`. */
  method RemixBlock(buffer: seq<i16>, sourceChannels: nat, channels: nat) returns (out: seq<int>)
    requires sourceChannels >= 1 && WholeFrames(buffer, sourceChannels)
    ensures out == Remixed(buffer, sourceChannels, channels)
  {
    out := [];
    var bufferIndex := 0;
    assert buffer[bufferIndex..] == buffer;
    while bufferIndex < |buffer|
      invariant bufferIndex <= |buffer| && WholeFrames(buffer[bufferIndex..], sourceChannels)
      invariant out + Remixed(buffer[bufferIndex..], sourceChannels, channels)
        == Remixed(buffer, sourceChannels, channels)
      decreases |buffer| - bufferIndex
    {
      out, bufferIndex := RemixNextFrame(out, buffer, bufferIndex, sourceChannels, channels);
    }
    assert out + [] == out;
  }

  /** One iteration of the remixing loop: the frame at `at`, remixed and appended to
      `out`. */
  method RemixNextFrame(out: seq<int>, buffer: seq<i16>, at: nat, sourceChannels: nat, channels: nat)
    returns (out': seq<int>, next: nat)
    requires sourceChannels >= 1 && at < |buffer| && WholeFrames(buffer[at..], sourceChannels)
    ensures next == at + sourceChannels <= |buffer| && WholeFrames(buffer[next..], sourceChannels)
    ensures out' + Remixed(buffer[next..], sourceChannels, channels)
      == out + Remixed(buffer[at..], sourceChannels, channels)
  {
    RemixedUnfold(buffer, at, sourceChannels, channels);
    var frame := Remix(buffer[at..at + sourceChannels], channels);
    out' := out + frame;
    next := at + sourceChannels;
  }

  /** `RedistributeChannelsAudioDecoder`: the frames of `decoder`, remixed to
      `channels` channels. */
  class RedistributeChannelsAudioDecoder {
    const decoder: MemoryAudioDecoder
    const channels: u32

    constructor(decoder: MemoryAudioDecoder, channelCountIn: u32)
      ensures this.decoder == decoder && channels == channelCountIn
    {
      this.decoder := decoder;
      channels := channelCountIn;
    }

    /** `samplesPerSecond()` and `numSamples()` are the wrapped decoder's;
        `channelCount()` is the target count. */
    function SamplesPerSecond(): u32
      reads this
    {
      decoder.sampleRate
    }

    function NumSamples(): (r: nat)
      requires decoder.Valid()
      reads this, decoder
      ensures r * decoder.channels == |decoder.samples|
    {
      decoder.NumSamples()
    }

    function ChannelCount(): u32
    {
      channels
    }

    /** `decodeAudioBlock(data, sampleCount)`: decodes up to `sampleCount` frames from
        the wrapped decoder and writes each, remixed, to `data`; the result is the
        wrapped decoder's frame count. */
    method DecodeAudioBlock(data: array<i16>, sampleCount: nat) returns (count: nat)
      requires decoder.Valid() && sampleCount * channels <= data.Length
      modifies decoder, data
      ensures decoder.Valid()
      ensures count == Min(sampleCount, old(decoder.Remaining()))
      ensures decoder.currentLocation == old(decoder.currentLocation) + count * decoder.channels
      ensures data[..count * channels] ==
        Remixed(decoder.samples[old(decoder.currentLocation)..decoder.currentLocation],
                decoder.channels, channels)
      ensures data[count * channels..] == old(data[count * channels..])
    {
      var sourceChannels := decoder.channels;
      var buffer := new i16[sampleCount * sourceChannels](_ => 0);
      count := decoder.DecodeAudioBlock(buffer, sampleCount);
      MulMonotone(count, sampleCount, sourceChannels);
      MulMonotone(count, sampleCount, channels);
      ghost var decoded := buffer[..count * sourceChannels];
      CountedFrames(decoded, sourceChannels, count);
      var out := RemixBlock(buffer[..count * sourceChannels], sourceChannels, channels);
      RemixedLength(decoded, sourceChannels, channels, count);
      WriteFrame(data, 0, out);
    }
  }

  /** The mono downmix and the fallbacks as written: `int sum` divided by the
      `unsigned` channel count, which converts the sum to `unsigned` (modulo 2^32)
      before dividing, then narrows the quotient to `int16_t`. */
  function MeanAsWritten(f: seq<int>): (r: i16)
    requires |f| >= 1 && AllI16(f)
    ensures Sum(f) >= 0 && |f| <= 0x1_0000 ==> r == Mean(f)
  {
    assert Sum(f) >= 0 && |f| <= 0x1_0000 ==> Sum(f) < Modulus32 by {
      SumBounds(f);
      if Sum(f) >= 0 && |f| <= 0x1_0000 {
        MulMonotone(|f|, 0x1_0000, Int16Max);
      }
    }
    NarrowI16((Sum(f) % Modulus32) / |f|)
  }

  /** Three channels of -1 mix down to 21844 as written, where their mean is -1; the
      remixing table writes that value for one output channel. */
  lemma MeanAsWrittenOnNegativeSum()
    ensures MeanAsWritten([-1, -1, -1]) == 21844
    ensures Mean([-1, -1, -1]) == -1
    ensures Remix([-1, -1, -1], 1) == [21844]
  {
    var f: seq<int> := [-1, -1, -1];
    assert Sum(f[..1]) == -1 by {
      assert f[..1][..0] == [];
    }
    assert Sum(f[..2]) == -2 by {
      assert f[..2][..1] == f[..1];
    }
    assert Sum(f) == -3 by {
      assert f[..2] == f[..|f| - 1];
    }
    assert (Sum(f) % Modulus32) / 3 == 0x5555_5554;
  }
}
