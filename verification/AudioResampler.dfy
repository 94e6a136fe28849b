/** The sample counts that rates and frame durations give rise to, in integer division. */
module FrameSizes {
  /** Frame duration of the WebRTC mixer, in milliseconds. */
  const MIXER_FRAME_MS := 10

  /** Samples per frame: rate / (1000 / duration), for the durations the mixer admits. */
  function SamplesPerFrame(rate: nat, durationMs: nat): nat
    requires 1 <= durationMs <= MIXER_FRAME_MS
  {
    rate / (1000 / durationMs)
  }

  /** report_output_samples_: what every frame handed to the mixer claims to hold. */
  function ReportedSamples(rate: nat): nat {
    SamplesPerFrame(rate, MIXER_FRAME_MS)
  }

  /** fifo_capacity_ of the file decoder. */
  function FifoCapacity(rate: nat): nat {
    10 * rate / (1000 / MIXER_FRAME_MS)
  }

  /** Bytes per sample of the output format. */
  const SAMPLE_SIZE := 2

  /** AVERROR(EINVAL). */
  const EINVAL := -22

  const INT_MAX := 0x7FFF_FFFF

  /** There is something to store, and its size in bytes is an int. */
  predicate HasSize(channels: int, samples: int, bytesPerSample: int) {
    0 < channels && 0 < samples && 0 < bytesPerSample && samples * channels * bytesPerSample <= INT_MAX
  }

  /** av_samples_get_buffer_size, unaligned: a buffer of nothing is an error, not an empty one. */
  function BufferSize(channels: int, samples: int, bytesPerSample: int): (size: int) {
    if HasSize(channels, samples, bytesPerSample) then samples * channels * bytesPerSample else EINVAL
  }

  lemma Scale(a: nat, x: nat, y: nat)
    requires x <= y
    ensures a * x <= a * y
  {
  }

  lemma NextMultiple(i: nat, n: nat)
    ensures (i + 1) * n == i * n + n
  {
  }

  /** a / b is the greatest z with z * b <= a. */
  lemma DivisionIsGreatest(a: nat, b: nat, z: nat)
    requires b > 0
    ensures z <= a / b <==> z * b <= a
  {
    var q := a / b;
    assert a == b * q + a % b;
    if z <= q {
      Scale(b, z, q);
    } else {
      Scale(b, q + 1, z);
    }
  }

  lemma DivisionIsAntitone(a: nat, j: nat, k: nat)
    requires 0 < j <= k
    ensures a / k <= a / j
  {
    var q := a / k;
    DivisionIsGreatest(a, k, q);
    Scale(q, j, k);
    DivisionIsGreatest(a, j, q);
  }

  lemma DivisionUndoes(x: nat, y: nat)
    requires y > 0
    ensures x * y / y == x
  {
    DivisionIsGreatest(x * y, y, x);
    DivisionIsGreatest(x * y, y, x + 1);
  }

  lemma FramesPerSecond(durationMs: nat)
    requires 1 <= durationMs <= MIXER_FRAME_MS
    ensures 1000 / durationMs >= 100
  {
    DivisionIsAntitone(1000, durationMs, MIXER_FRAME_MS);
  }

  /** The counts, as the greatest that fit: into a frame, into 10 ms, and into a tenth of a second. */
  lemma CountsAreGreatest(rate: nat, durationMs: nat, z: nat)
    requires 1 <= durationMs <= 10
    ensures z <= SamplesPerFrame(rate, durationMs) <==> z * (1000 / durationMs) <= rate
    ensures z <= ReportedSamples(rate) <==> z * 100 <= rate
    ensures z <= FifoCapacity(rate) <==> z * 10 <= rate
  {
    FramesPerSecond(durationMs);
    DivisionIsGreatest(rate, 1000 / durationMs, z);
    assert ReportedSamples(rate) == rate / 100 && FifoCapacity(rate) == 10 * rate / 100;
    DivisionIsGreatest(rate, 100, z);
    DivisionIsGreatest(10 * rate, 100, z);
  }

  /** The FIFO has room for ten reported frames, and not for an eleventh. */
  lemma FifoHoldsTenFrames(rate: nat)
    ensures 10 * ReportedSamples(rate) <= FifoCapacity(rate) < 10 * (ReportedSamples(rate) + 1)
  {
    var n := ReportedSamples(rate);
    CountsAreGreatest(rate, 10, n);
    CountsAreGreatest(rate, 10, n + 1);
    CountsAreGreatest(rate, 10, 10 * n);
    CountsAreGreatest(rate, 10, 10 * (n + 1));
  }

  /** A shorter frame never holds more than the reported one, and always fits the FIFO. */
  lemma FrameFits(rate: nat, durationMs: nat)
    requires 1 <= durationMs <= MIXER_FRAME_MS
    ensures SamplesPerFrame(rate, durationMs) <= ReportedSamples(rate) <= FifoCapacity(rate)
  {
    FramesPerSecond(durationMs);
    DivisionIsAntitone(rate, 100, 1000 / durationMs);
  }

  /** a / b rounded up, as av_rescale_rnd with AV_ROUND_UP. */
  function CeilDiv(a: nat, b: nat): nat
    requires b > 0
  {
    (a + b - 1) / b
  }

  /** CeilDiv(a, b) is the least z with a <= z * b. */
  lemma CeilDivIsLeast(a: nat, b: nat, z: nat)
    requires b > 0
    ensures CeilDiv(a, b) <= z <==> a <= z * b
  {
    var q := CeilDiv(a, b);
    assert q * b <= a + b - 1 < (q + 1) * b;
    if q <= z {
      assert q * b <= z * b;
    } else {
      assert (z + 1) * b <= q * b;
    }
  }
}

/** AudioResampler::Resample: the sizes it passes to the converter. */
module AudioResampler {
  import opened FrameSizes

  /** Sample count recovered from a byte count. */
  function InputSamples(inputSize: nat, channels: nat, bytesPerSample: nat): nat
    requires channels > 0 && bytesPerSample > 0
  {
    inputSize / channels / bytesPerSample
  }

  /** Output samples requested of the converter, which is the room it is told it has. */
  function RequestedSamples(inputSamples: nat, inRate: nat, outRate: nat): nat
    requires inRate > 0
  {
    CeilDiv(inputSamples * outRate, inRate)
  }

  function RoundedTo32(samples: int): int {
    (samples + 31) / 32 * 32
  }

  /**
    What Resample returns when swr_convert has returned `converted`: an error code is passed on,
    and so is that of the size computation, in which samples are rounded up to multiples of 32.
   */
  function ResampledSize(converted: int, outputChannels: nat): (size: int) {
    if converted < 0 then converted
    else BufferSize(outputChannels, RoundedTo32(converted), SAMPLE_SIZE)
  }

  /** z is the least multiple of 32 that holds the samples. */
  predicate IsRounded(samples: int, z: int) {
    z % 32 == 0 && samples <= z < samples + 32
  }

  lemma RoundedTo32IsRounded(samples: int)
    ensures IsRounded(samples, RoundedTo32(samples))
  {
  }

  /**
    The result for the rounding z of the samples: the bytes of z samples of all channels, or an
    error. No samples is an error too, not an empty success.
   */
  lemma ResampledSizeIs(converted: int, outputChannels: nat, z: int)
    requires IsRounded(converted, z)
    ensures ResampledSize(converted, outputChannels) ==
            if converted < 0 then converted
            else if converted > 0 && outputChannels > 0 && z * outputChannels * 2 <= 0x7FFF_FFFF then z * outputChannels * 2
            else -22
  {
    assert z == RoundedTo32(converted);
  }

  lemma ResampledSizeIsErrorIff(converted: int, outputChannels: nat, z: int)
    requires IsRounded(converted, z)
    ensures ResampledSize(converted, outputChannels) < 0
            <==> converted <= 0 || outputChannels == 0 || z * outputChannels * 2 > 0x7FFF_FFFF
  {
    hide ResampledSize;
    ResampledSizeIs(converted, outputChannels, z);
    if converted > 0 && outputChannels > 0 {
      Scale(z, 1, outputChannels);
    }
  }

  /** The request is the least number of samples that last as long as the input. */
  lemma RequestIsLeast(inputSamples: nat, inRate: nat, outRate: nat, z: nat)
    requires inRate > 0
    ensures RequestedSamples(inputSamples, inRate, outRate) <= z <==> inputSamples * outRate <= z * inRate
  {
    CeilDivIsLeast(inputSamples * outRate, inRate, z);
  }

  /** The sample count survives being turned into bytes and back. */
  lemma InputSamplesAreExact(samples: nat, channels: nat, bytesPerSample: nat)
    requires channels > 0 && bytesPerSample > 0
    ensures InputSamples(samples * channels * bytesPerSample, channels, bytesPerSample) == samples
  {
    var perChannel := samples * bytesPerSample;
    assert samples * channels * bytesPerSample == perChannel * channels;
    DivisionUndoes(perChannel, channels);
    DivisionUndoes(samples, bytesPerSample);
  }

  lemma Exchange(n: nat, k: nat, inRate: nat, z: nat, outRate: nat)
    requires n * k <= inRate && outRate <= z * k
    ensures n * outRate <= z * inRate
  {
    Scale(n, outRate, z * k);
    assert n * (z * k) == z * (n * k);
    Scale(z, n * k, inRate);
  }

  /** For one frame of input the request is at most one frame of output, rounded up. */
  lemma RequestIsBounded(inRate: nat, outRate: nat, durationMs: nat)
    requires inRate > 0 && 1 <= durationMs <= MIXER_FRAME_MS
    ensures 1000 / durationMs >= 100
    ensures RequestedSamples(SamplesPerFrame(inRate, durationMs), inRate, outRate)
            <= CeilDiv(outRate, 1000 / durationMs) <= CeilDiv(outRate, 100)
    ensures outRate % 100 == 0 ==>
              RequestedSamples(SamplesPerFrame(inRate, durationMs), inRate, outRate) <= ReportedSamples(outRate)
  {
    FramesPerSecond(durationMs);
    var k, n := 1000 / durationMs, SamplesPerFrame(inRate, durationMs);
    var z, w := CeilDiv(outRate, k), CeilDiv(outRate, 100);
    CeilDivIsLeast(outRate, k, z);
    CeilDivIsLeast(outRate, 100, w);
    DivisionIsGreatest(inRate, k, n);
    Exchange(n, k, inRate, z, outRate);
    CeilDivIsLeast(n * outRate, inRate, z);
    Scale(w, 100, k);
    CeilDivIsLeast(outRate, k, w);
  }

  /** When the request stays within the frame that was prepared for it, exactly. */
  lemma RequestFitsIff(inRate: nat, outRate: nat, durationMs: nat)
    requires inRate > 0 && 1 <= durationMs <= MIXER_FRAME_MS
    ensures RequestedSamples(SamplesPerFrame(inRate, durationMs), inRate, outRate) <= ReportedSamples(outRate)
            <==> SamplesPerFrame(inRate, durationMs) * outRate <= ReportedSamples(outRate) * inRate
  {
    CeilDivIsLeast(SamplesPerFrame(inRate, durationMs) * outRate, inRate, ReportedSamples(outRate));
  }

  /** 44100 Hz into 11025 Hz asks for 111 samples where 110 are reported. */
  lemma RequestCanExceedReport()
    ensures RequestedSamples(SamplesPerFrame(44100, 10), 44100, 11025) == 111
    ensures ReportedSamples(11025) == 110
  {
  }
}
