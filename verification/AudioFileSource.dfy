/** Fixed-size chunks pulled from a file: what AudioFileSource::Read delivers over a whole run. */
module FileChunks {
  import opened Sequences
  import opened DecoderPump
  import opened FrameSizes

  /** `samples` is the whole input buffer, which is what the resampler is told to convert. */
  datatype Chunk = Delivered(samples: seq<Sample>) | EndOfFile

  /**
    The size check of Read: bytes consumed, counted at two per sample, against the buffer size
    for n samples in the real format.
   */
  predicate SizeMatches(actual: nat, n: nat, channels: nat, bytesPerSample: nat) {
    actual * 2 * channels == BufferSize(channels, n, bytesPerSample)
  }

  /** A read into a buffer writes its front; what was behind stays. */
  function Overwrite(out: seq<Sample>, buffer: seq<Sample>): (r: seq<Sample>)
    requires |out| <= |buffer|
    ensures |r| == |buffer|
  {
    out + buffer[|out|..]
  }

  datatype Reading = Reading(decoder: Pump, buffer: seq<Sample>, chunk: Chunk)

  function Read(m: Media, s: Pump, buffer: seq<Sample>, channels: nat, bytesPerSample: nat): (r: Reading)
    requires s.pos <= |m.file|
    ensures r.decoder.pos <= |m.file| && |r.buffer| == |buffer|
  {
    var (s', out) := Consume(m, s, |buffer|);
    var filled := Overwrite(out, buffer);
    Reading(s', filled, if SizeMatches(|out|, |buffer|, channels, bytesPerSample) then Delivered(filled) else EndOfFile)
  }

  // Runs: the source is constructed, then read any number of times in chunks of n samples. The
  // constructor has allocated a buffer for one chunk, and checked that it has a size.

  /** What one read hands on to the next. */
  datatype Reader = Reader(decoder: Pump, buffer: seq<Sample>)

  /** A source opened on m, with a buffer of contents `blank`, and read i times. */
  function AfterReads(m: Media, blank: seq<Sample>, channels: nat, bytesPerSample: nat, i: nat): (r: Reader)
    ensures r.decoder.pos <= |m.file| && |r.buffer| == |blank|
  {
    if i == 0 then Reader(FillDecoder(m, OPENED), blank) else
    var before := AfterReads(m, blank, channels, bytesPerSample, i - 1);
    var r := Read(m, before.decoder, before.buffer, channels, bytesPerSample);
    Reader(r.decoder, r.buffer)
  }

  /** What read number i of a run returns. */
  function NthRead(m: Media, blank: seq<Sample>, channels: nat, bytesPerSample: nat, i: nat): (c: Chunk) {
    var before := AfterReads(m, blank, channels, bytesPerSample, i);
    Read(m, before.decoder, before.buffer, channels, bytesPerSample).chunk
  }

  // The same run in terms of the decoder alone, which is never aware of formats.

  /** The decoder before read number i. */
  function Before(m: Media, n: nat, i: nat): (s: Pump)
    ensures s.pos <= |m.file|
  {
    if i == 0 then FillDecoder(m, OPENED) else Consume(m, Before(m, n, i - 1), n).0
  }

  /** What read number i takes out of the decoder. */
  function Out(m: Media, n: nat, i: nat): (out: seq<Sample>)
    ensures |out| <= n
  {
    Consume(m, Before(m, n, i), n).1
  }

  /** Samples taken by the reads before read number i. */
  function Taken(m: Media, n: nat, i: nat): nat {
    if i == 0 then 0 else Taken(m, n, i - 1) + |Out(m, n, i - 1)|
  }

  /** Samples that the packets accepted by the time of read number i decode to. */
  function Available(m: Media, n: nat, i: nat): nat {
    Decodable(m, FillDecoder(m, Before(m, n, i)))
  }

  /** The input buffer before read number i; it is allocated once, with contents `blank`. */
  function Buffer(m: Media, blank: seq<Sample>, i: nat): (buffer: seq<Sample>)
    ensures |buffer| == |blank|
  {
    if i == 0 then blank else Overwrite(Out(m, |blank|, i - 1), Buffer(m, blank, i - 1))
  }

  /** A run takes one pull of the decoder per read, and keeps its buffer. */
  lemma {:induction false} ReadsPullOnce(m: Media, blank: seq<Sample>, channels: nat, bytesPerSample: nat, i: nat)
    ensures AfterReads(m, blank, channels, bytesPerSample, i) == Reader(Before(m, |blank|, i), Buffer(m, blank, i))
  {
    hide Consume, FillDecoder, SizeMatches;
    if i > 0 {
      ReadsPullOnce(m, blank, channels, bytesPerSample, i - 1);
    }
  }

  /** What the hardcoded two bytes make of the size check. */
  lemma SizeMatchesIff(actual: nat, n: nat, channels: nat, bytesPerSample: nat)
    requires HasSize(channels, n, bytesPerSample)
    ensures SizeMatches(actual, n, channels, bytesPerSample) <==> 2 * actual == n * bytesPerSample
  {
    var a, b := 2 * actual, n * bytesPerSample;
    assert actual * 2 * channels == channels * a && n * channels * bytesPerSample == channels * b;
    if a < b {
      Scale(channels, a + 1, b);
    } else if b < a {
      Scale(channels, b + 1, a);
    }
  }

  lemma {:induction false} AbortStays(m: Media, n: nat, i: nat, k: nat)
    requires i <= k && !Before(m, n, k).aborted
    ensures !Before(m, n, i).aborted
  {
    hide Consume, FillDecoder;
    if i < k {
      AbortStays(m, n, i, k - 1);
    }
  }

  // What is taken, with no assumption on frame sizes.

  lemma {:induction false} ReadsAreOk(m: Media, n: nat, i: nat)
    requires KeepsContract(m.codec)
    ensures var all := Flat(AllFrames(m));
            Taken(m, n, i) <= |all| && Ok(m, Before(m, n, i), all[..Taken(m, n, i)])
  {
    hide Ok, KeepsContract, Consume, FillDecoder;
    if i == 0 {
      OpenedIsOk(m);
      assert Flat(AllFrames(m))[..0] == [];
    } else {
      ReadsAreOk(m, n, i - 1);
      TakesNext(m, Before(m, n, i - 1), Taken(m, n, i - 1), n);
    }
  }

  lemma OpenedIsOk(m: Media)
    requires KeepsContract(m.codec)
    ensures Ok(m, FillDecoder(m, OPENED), [])
  {
    hide FillDecoder;
    FillDecoderKeepsOk(m, OPENED, []);
  }

  lemma TakesNext(m: Media, s: Pump, taken: nat, n: nat)
    requires KeepsContract(m.codec)
    requires taken <= |Flat(AllFrames(m))| && Ok(m, s, Flat(AllFrames(m))[..taken])
    ensures var all, (s', out) := Flat(AllFrames(m)), Consume(m, s, n);
            && taken + |out| <= |all| && out == all[taken..taken + |out|]
            && Ok(m, s', all[..taken + |out|])
  {
    hide Ok, KeepsContract, Consume;
    var all := Flat(AllFrames(m));
    InFile(m, s, all[..taken]);
    ConsumeKeepsOk(m, s, all[..taken], n);
    var (s', out) := Consume(m, s, n);
    ConsumedIsPrefix(m, s', all[..taken] + out);
    assert all[..taken] + out == all[..taken + |out|];
    assert out == (all[..taken] + out)[taken..];
  }

  /**
    Each read takes the samples that follow those already taken: n of them, or all that the
    packets accepted so far decode to.
   */
  lemma ReadTakes(m: Media, n: nat, i: nat)
    requires KeepsContract(m.codec)
    ensures var all, k := Flat(AllFrames(m)), Taken(m, n, i);
            k + |Out(m, n, i)| <= |all| && Out(m, n, i) == all[k..k + |Out(m, n, i)|]
    ensures !Before(m, n, i + 1).aborted && n <= m.capacity ==>
              |Out(m, n, i)| == Min(n, Available(m, n, i) - Taken(m, n, i))
  {
    hide Ok, KeepsContract, FillDecoder, Consume, Taken, AllFrames, Flat, Decodable;
    ReadsAreOk(m, n, i);
    var consumed := Flat(AllFrames(m))[..Taken(m, n, i)];
    TakesNext(m, Before(m, n, i), Taken(m, n, i), n);
    if !Before(m, n, i + 1).aborted && n <= m.capacity {
      ConsumeYields(m, Before(m, n, i), consumed, n);
    }
  }

  lemma {:induction false} TakenGrows(m: Media, n: nat, i: nat, k: nat)
    requires i <= k
    ensures Taken(m, n, i) <= Taken(m, n, k) && Taken(m, n, k) + i * n <= Taken(m, n, i) + k * n
  {
    hide Before, Out;
    if i < k {
      TakenGrows(m, n, i, k - 1);
      NextMultiple(k - 1, n);
    }
  }

  /** A read succeeds or not by how much it takes, in a format of any sample size. */
  lemma DeliversIff(m: Media, blank: seq<Sample>, channels: nat, bytesPerSample: nat, i: nat)
    requires blank != [] && HasSize(channels, |blank|, bytesPerSample)
    ensures var n := |blank|;
            NthRead(m, blank, channels, bytesPerSample, i) ==
            if 2 * |Out(m, n, i)| == n * bytesPerSample
            then Delivered(Overwrite(Out(m, n, i), Buffer(m, blank, i))) else EndOfFile
  {
    hide Consume, SizeMatches, AfterReads, Before, Buffer;
    ReadsPullOnce(m, blank, channels, bytesPerSample, i);
    SizeMatchesIff(|Out(m, |blank|, i)|, |blank|, channels, bytesPerSample);
  }

  /** In two-byte formats: n samples taken are delivered, fewer are an end of file. */
  lemma TwoByteRead(m: Media, blank: seq<Sample>, channels: nat, i: nat)
    requires KeepsContract(m.codec) && blank != [] && HasSize(channels, |blank|, 2)
    ensures var n, k := |blank|, Taken(m, |blank|, i);
            && k + |Out(m, n, i)| <= |Flat(AllFrames(m))|
            && NthRead(m, blank, channels, 2, i) ==
               if |Out(m, n, i)| == n then Delivered(Flat(AllFrames(m))[k..k + n]) else EndOfFile
  {
    hide Before, Out, Taken, Buffer, NthRead, KeepsContract, AllFrames, Flat;
    DeliversIff(m, blank, channels, 2, i);
    ReadTakes(m, |blank|, i);
    if |Out(m, |blank|, i)| == |blank| {
      assert Overwrite(Out(m, |blank|, i), Buffer(m, blank, i)) == Out(m, |blank|, i);
    }
  }

  // Exactly when the reads are the chunks of the file.

  /** Chunk i of a recording cut into chunks of n samples; a partial last chunk is not one. */
  function ChunkAt(all: seq<Sample>, n: nat, i: nat): Chunk {
    var k := i * n;
    if k + n <= |all| then Delivered(all[k..k + n]) else EndOfFile
  }

  ghost predicate AreChunks(m: Media, blank: seq<Sample>, channels: nat, bytesPerSample: nat, count: nat) {
    forall i | 0 <= i < count ::
      NthRead(m, blank, channels, bytesPerSample, i) == ChunkAt(Flat(AllFrames(m)), |blank|, i)
  }

  /**
    By each of the first `count` reads for which the file has a whole chunk, the codec has
    accepted the packets of that chunk.
   */
  ghost predicate KeepsUp(m: Media, n: nat, count: nat) {
    forall i | 0 <= i < count && (i + 1) * n <= |Flat(AllFrames(m))| :: (i + 1) * n <= Available(m, n, i)
  }

  /** Either every read so far took a whole chunk, or less than a chunk is left. */
  ghost predicate OnTrack(m: Media, n: nat, i: nat) {
    Taken(m, n, i) == i * n || |Flat(AllFrames(m))| - Taken(m, n, i) < n
  }

  lemma OnTrackStep(m: Media, n: nat, i: nat)
    requires KeepsContract(m.codec) && n <= m.capacity && !Before(m, n, i + 1).aborted
    requires OnTrack(m, n, i) && ((i + 1) * n <= |Flat(AllFrames(m))| ==> (i + 1) * n <= Available(m, n, i))
    ensures OnTrack(m, n, i + 1)
    ensures |Out(m, n, i)| == n <==> (i + 1) * n <= |Flat(AllFrames(m))|
    ensures |Out(m, n, i)| == n && n > 0 ==> Taken(m, n, i) == i * n
  {
    hide Before, Out, KeepsContract, AllFrames, Available;
    ReadTakes(m, n, i);
    TakenGrows(m, n, 0, i);
    NextMultiple(i, n);
  }

  lemma {:induction false} KeepingUp(m: Media, n: nat, count: nat, i: nat)
    requires KeepsContract(m.codec) && n <= m.capacity && !Before(m, n, count).aborted
    requires KeepsUp(m, n, count) && i <= count
    ensures OnTrack(m, n, i)
  {
    hide Before, Out, OnTrack, Available, AllFrames, Flat, KeepsContract;
    if i == 0 {
      NothingTaken(m, n);
    } else {
      KeepingUp(m, n, count, i - 1);
      AbortStays(m, n, i, count);
      OnTrackStep(m, n, i - 1);
    }
  }

  lemma NothingTaken(m: Media, n: nat)
    ensures OnTrack(m, n, 0)
  {
  }

  lemma {:induction false} ChunksTake(m: Media, blank: seq<Sample>, channels: nat, count: nat, i: nat)
    requires KeepsContract(m.codec) && blank != [] && HasSize(channels, |blank|, 2)
    requires AreChunks(m, blank, channels, 2, count)
    requires i <= count && i * |blank| <= |Flat(AllFrames(m))|
    ensures Taken(m, |blank|, i) == i * |blank|
  {
    hide Before, Out, KeepsContract, AllFrames, NthRead;
    if i > 0 {
      var n := |blank|;
      NextMultiple(i - 1, n);
      ChunksTake(m, blank, channels, count, i - 1);
      TwoByteRead(m, blank, channels, i - 1);
      assert ChunkAt(Flat(AllFrames(m)), n, i - 1).Delivered?;
    }
  }

  /**
    No early end of file, nothing skipped and nothing made up, for a codec with frames of any
    size: the reads deliver the whole chunks of the decoded file one by one, and then report
    end of file, if and only if the codec has each chunk's packets by the time of its read.
   */
  lemma ReadsAreChunksIff(m: Media, blank: seq<Sample>, channels: nat, count: nat)
    requires KeepsContract(m.codec) && !Before(m, |blank|, count).aborted
    requires 0 < |blank| <= m.capacity && HasSize(channels, |blank|, 2)
    ensures AreChunks(m, blank, channels, 2, count) <==> KeepsUp(m, |blank|, count)
  {
    hide Before, Out, KeepsContract, AllFrames, NthRead, Available;
    var n, all := |blank|, Flat(AllFrames(m));
    if KeepsUp(m, n, count) {
      forall i | 0 <= i < count ensures NthRead(m, blank, channels, 2, i) == ChunkAt(all, n, i) {
        KeepingUp(m, n, count, i);
        AbortStays(m, n, i + 1, count);
        OnTrackStep(m, n, i);
        NextMultiple(i, n);
        TwoByteRead(m, blank, channels, i);
      }
    }
    if AreChunks(m, blank, channels, 2, count) {
      forall i | 0 <= i < count && (i + 1) * n <= |all| ensures (i + 1) * n <= Available(m, n, i) {
        NextMultiple(i, n);
        ChunksTake(m, blank, channels, count, i);
        AbortStays(m, n, i + 1, count);
        ReadTakes(m, n, i);
        TwoByteRead(m, blank, channels, i);
        assert ChunkAt(all, n, i).Delivered?;
      }
    }
  }

  /**
    After an early end: what a failed read took is dropped for good. No read, before or after,
    delivers any of those samples.
   */
  lemma ShortReadIsDropped(m: Media, blank: seq<Sample>, channels: nat, i: nat, k: nat)
    requires KeepsContract(m.codec) && blank != [] && HasSize(channels, |blank|, 2)
    requires NthRead(m, blank, channels, 2, i) == EndOfFile && NthRead(m, blank, channels, 2, k).Delivered?
    ensures var n, all := |blank|, Flat(AllFrames(m));
            && 0 <= Taken(m, n, k) <= Taken(m, n, k) + n <= |all|
            && NthRead(m, blank, channels, 2, k).samples == all[Taken(m, n, k)..Taken(m, n, k) + n]
            && (k < i ==> Taken(m, n, k) + n <= Taken(m, n, i))
            && (i < k ==> Taken(m, n, i + 1) <= Taken(m, n, k) < k * n)
  {
    hide Before, Out, KeepsContract, AllFrames, NthRead;
    var n := |blank|;
    TwoByteRead(m, blank, channels, i);
    TwoByteRead(m, blank, channels, k);
    if k < i {
      TakenGrows(m, n, k + 1, i);
    } else if i < k {
      TakenGrows(m, n, 0, i);
      TakenGrows(m, n, i + 1, k);
      NextMultiple(i, n);
    }
  }

  /** A codec that holds one frame at a time, and whose first frame is a short one. */
  const SHORT_FIRST := Codec(
    (sent: seq<Packet>) => seq(|sent|, (k: nat) => if k == 0 then [[1]] else [[2], [3]]),
    (sent: seq<Packet>, n: nat, p: Packet) => if n < |sent| then Again else Accepted)

  const THREE_SAMPLES := Media(SHORT_FIRST, [AUDIO, AUDIO], 0, 100)

  const AFTER_SHORT_READ := AFTER_OPENING.(released := 1)

  /** The file 1, 2, 3 in chunks of two: first an end of file, and then 2, 3. */
  lemma EarlyEndThenMore(blank: seq<Sample>)
    requires |blank| == 2
    ensures KeepsContract(THREE_SAMPLES.codec)
    ensures NthRead(THREE_SAMPLES, blank, 1, 2, 0) == EndOfFile
    ensures NthRead(THREE_SAMPLES, blank, 1, 2, 1) == Delivered([[2], [3]])
  {
    ShortFirstKeepsContract();
    hide Before, Out, NthRead, Buffer, KeepsContract;
    ReadsOfThree();
    DeliversIff(THREE_SAMPLES, blank, 1, 2, 0);
    DeliversIff(THREE_SAMPLES, blank, 1, 2, 1);
    assert Overwrite([[2], [3]], Buffer(THREE_SAMPLES, blank, 1)) == [[2], [3]];
  }

  lemma ShortFirstKeepsContract()
    ensures KeepsContract(SHORT_FIRST)
  {
  }

  lemma ReadsOfThree()
    ensures Out(THREE_SAMPLES, 2, 0) == [[1]] && Out(THREE_SAMPLES, 2, 1) == [[2], [3]]
  {
    hide Consume, FillDecoder;
    OpenedOnThreeSamples();
    FirstOfThree();
    RestOfThree();
    assert Before(THREE_SAMPLES, 2, 0) == AFTER_OPENING;
    assert Before(THREE_SAMPLES, 2, 1) == AFTER_SHORT_READ;
  }

  lemma OpenedOnThreeSamples()
    ensures FillDecoder(THREE_SAMPLES, OPENED) == AFTER_OPENING
  {
    assert [] + [AUDIO] == [AUDIO];
    var read := OPENED.(pos := 1, packet := AUDIO, sent := [AUDIO]);
    assert Iterate(THREE_SAMPLES, OPENED) == (read, true);
    assert Iterate(THREE_SAMPLES, read) == (AFTER_OPENING, false);
  }

  lemma FirstOfThree()
    ensures Consume(THREE_SAMPLES, AFTER_OPENING, 2) == (AFTER_SHORT_READ, [[1]])
  {
    assert THREE_SAMPLES.codec.frames([AUDIO]) == [[[1]]];
    assert FillDecoder(THREE_SAMPLES, AFTER_OPENING) == AFTER_OPENING;
    assert [] + [[1]] == [[1]];
    assert FillFifo(THREE_SAMPLES, AFTER_OPENING) == AFTER_SHORT_READ.(fifo := [[1]]);
    assert [[1]][1..] == [] && [[1]][..1] == [[1]];
  }

  lemma RestOfThree()
    ensures Consume(THREE_SAMPLES, AFTER_SHORT_READ, 2).1 == [[2], [3]]
  {
    var both := AFTER_SHORT_READ.(sent := [AUDIO, AUDIO], packetConsumed := true);
    assert [AUDIO] + [AUDIO] == [AUDIO, AUDIO];
    assert Iterate(THREE_SAMPLES, AFTER_SHORT_READ) == (both, true);
    assert Iterate(THREE_SAMPLES, both) == (both, false);
    assert FillDecoder(THREE_SAMPLES, AFTER_SHORT_READ) == both;
    assert THREE_SAMPLES.codec.frames([AUDIO, AUDIO]) == [[[1]], [[2], [3]]];
    assert [] + [[2], [3]] == [[2], [3]];
    assert FillFifo(THREE_SAMPLES, both) == both.(fifo := [[2], [3]], released := 2);
  }

  // Frames at least a chunk long.

  /** If every frame but the last is at least a chunk long the codec always keeps up. */
  lemma LongFramesTake(m: Media, n: nat, i: nat)
    requires KeepsContract(m.codec) && !Before(m, n, i + 1).aborted
    requires n <= m.capacity && FramesAtLeast(AllFrames(m), n)
    ensures |Out(m, n, i)| == Min(n, |Flat(AllFrames(m))| - Taken(m, n, i))
  {
    hide Ok, KeepsContract, Consume, FillDecoder, Taken, FramesAtLeast, AllFrames, Flat;
    ReadsAreOk(m, n, i);
    ConsumeIsExact(m, Before(m, n, i), Flat(AllFrames(m))[..Taken(m, n, i)], n);
  }

  lemma {:induction false} LongFramesTaken(m: Media, n: nat, i: nat)
    requires KeepsContract(m.codec) && !Before(m, n, i).aborted
    requires n <= m.capacity && FramesAtLeast(AllFrames(m), n)
    ensures Taken(m, n, i) == Min(i * n, |Flat(AllFrames(m))|)
  {
    hide Before, Out, KeepsContract, FramesAtLeast, AllFrames;
    if i > 0 {
      AbortStays(m, n, i - 1, i);
      LongFramesTaken(m, n, i - 1);
      LongFramesTake(m, n, i - 1);
      NextMultiple(i - 1, n);
    }
  }

  /** Which reads succeed, in a format of any sample size. */
  lemma LongFramesDeliverIff(m: Media, blank: seq<Sample>, channels: nat, bytesPerSample: nat, i: nat)
    requires KeepsContract(m.codec) && !Before(m, |blank|, i + 1).aborted
    requires 0 < |blank| <= m.capacity && HasSize(channels, |blank|, bytesPerSample)
    requires FramesAtLeast(AllFrames(m), |blank|)
    ensures var n, all := |blank|, |Flat(AllFrames(m))|;
            NthRead(m, blank, channels, bytesPerSample, i).Delivered?
            <==> 2 * Min(n, all - Min(i * n, all)) == n * bytesPerSample
  {
    hide Before, Out, KeepsContract, FramesAtLeast, AllFrames, NthRead;
    AbortStays(m, |blank|, i, i + 1);
    LongFramesTaken(m, |blank|, i);
    LongFramesTake(m, |blank|, i);
    DeliversIff(m, blank, channels, bytesPerSample, i);
  }

  lemma LongFramesKeepUp(m: Media, n: nat, count: nat)
    requires KeepsContract(m.codec) && !Before(m, n, count).aborted
    requires n <= m.capacity && FramesAtLeast(AllFrames(m), n)
    ensures KeepsUp(m, n, count)
  {
    hide Before, Out, KeepsContract, FramesAtLeast, AllFrames, Available;
    forall i | 0 <= i < count && (i + 1) * n <= |Flat(AllFrames(m))|
      ensures (i + 1) * n <= Available(m, n, i)
    {
      AbortStays(m, n, i, count);
      AbortStays(m, n, i + 1, count);
      LongFramesTaken(m, n, i);
      LongFramesTake(m, n, i);
      ReadTakes(m, n, i);
      NextMultiple(i, n);
    }
  }

  /**
    For a file with at least one whole chunk the reads are the chunks if and only if the format
    has two bytes per sample. The codec may be any that keeps its contract and gives out frames
    at least a chunk long, as long as no fatal error ended the program.
   */
  lemma ReadsAreChunks(m: Media, blank: seq<Sample>, channels: nat, bytesPerSample: nat, count: nat)
    requires KeepsContract(m.codec) && !Before(m, |blank|, count).aborted
    requires 0 < |blank| <= m.capacity && HasSize(channels, |blank|, bytesPerSample)
    requires FramesAtLeast(AllFrames(m), |blank|)
    requires count > 0 && |blank| <= |Flat(AllFrames(m))|
    ensures AreChunks(m, blank, channels, bytesPerSample, count) <==> bytesPerSample == 2
  {
    hide Before, Out, KeepsContract, FramesAtLeast, AllFrames, NthRead, KeepsUp;
    var n := |blank|;
    LongFramesKeepUp(m, n, count);
    if bytesPerSample == 2 {
      ReadsAreChunksIff(m, blank, channels, count);
    }
    if AreChunks(m, blank, channels, bytesPerSample, count) {
      AbortStays(m, n, 1, count);
      LongFramesDeliverIff(m, blank, channels, bytesPerSample, 0);
      assert ChunkAt(Flat(AllFrames(m)), n, 0).Delivered?;
      assert 2 * n == n * bytesPerSample;
    }
  }

  /** The same for a source as AudioFileSource sets it up from rate and frame duration. */
  lemma SourceReadsChunks(m: Media, blank: seq<Sample>, rate: nat, durationMs: nat,
                          channels: nat, bytesPerSample: nat, count: nat)
    requires KeepsContract(m.codec) && HasSize(channels, |blank|, bytesPerSample)
    requires 1 <= durationMs <= MIXER_FRAME_MS && m.capacity == FifoCapacity(rate)
    requires |blank| == SamplesPerFrame(rate, durationMs) > 0
    requires FramesAtLeast(AllFrames(m), |blank|)
    requires count > 0 && !Before(m, |blank|, count).aborted && |blank| <= |Flat(AllFrames(m))|
    ensures AreChunks(m, blank, channels, bytesPerSample, count) <==> bytesPerSample == 2
  {
    hide AllFrames, AreChunks, Before;
    FrameFits(rate, durationMs);
    ReadsAreChunks(m, blank, channels, bytesPerSample, count);
  }

  // Other sample sizes.

  lemma NoSizeNoChunk(m: Media, blank: seq<Sample>, channels: nat, bytesPerSample: nat, i: nat)
    requires !HasSize(channels, |blank|, bytesPerSample)
    ensures NthRead(m, blank, channels, bytesPerSample, i) == EndOfFile
  {
    hide HasSize, Consume, AfterReads;
  }

  /** In a format of more than two bytes per sample not one read of any file succeeds. */
  lemma WideFormatsNeverRead(m: Media, blank: seq<Sample>, channels: nat, bytesPerSample: nat, i: nat)
    requires bytesPerSample > 2
    ensures NthRead(m, blank, channels, bytesPerSample, i) == EndOfFile
  {
    hide Before, Out, NthRead;
    if HasSize(channels, |blank|, bytesPerSample) {
      DeliversIff(m, blank, channels, bytesPerSample, i);
      Scale(|blank|, 3, bytesPerSample);
    } else {
      NoSizeNoChunk(m, blank, channels, bytesPerSample, i);
    }
  }

  /**
    In a one-byte format a whole chunk never arrives. A read that takes exactly half a chunk
    succeeds, and the other half of what it delivers is left over from before.
   */
  lemma OneByteReads(m: Media, blank: seq<Sample>, channels: nat, i: nat)
    requires KeepsContract(m.codec) && blank != [] && HasSize(channels, |blank|, 1)
    ensures var n, k, c := |blank|, Taken(m, |blank|, i), NthRead(m, blank, channels, 1, i);
            && (c.Delivered? <==> 2 * |Out(m, n, i)| == n)
            && (c.Delivered? ==>
                  && k + n / 2 <= |Flat(AllFrames(m))|
                  && c.samples == Flat(AllFrames(m))[k..k + n / 2] + Buffer(m, blank, i)[n / 2..])
  {
    hide Before, Out, Taken, Buffer, NthRead, KeepsContract, AllFrames, Flat;
    DeliversIff(m, blank, channels, 1, i);
    ReadTakes(m, |blank|, i);
  }

  const ONE_SAMPLE := Media(ONE_AT_A_TIME, [AUDIO], 0, 100)

  /** One packet, accepted; the file is at its end. */
  const ONE_SENT := Pump(1, AUDIO, true, [AUDIO], 0, [], false)

  /** A file of one sample, read in chunks of two in a one-byte format: the read succeeds. */
  lemma HalfAChunkPasses(blank: seq<Sample>)
    requires |blank| == 2
    ensures KeepsContract(ONE_SAMPLE.codec) && !Before(ONE_SAMPLE, 2, 1).aborted
    ensures NthRead(ONE_SAMPLE, blank, 1, 1, 0) == Delivered([[0], blank[1]])
  {
    OneSampleOut();
    hide Out, Before, NthRead, Consume, FillDecoder;
    DeliversIff(ONE_SAMPLE, blank, 1, 1, 0);
    assert Overwrite([[0]], blank) == [[0], blank[1]];
  }

  lemma OneSampleOut()
    ensures KeepsContract(ONE_SAMPLE.codec) && !Before(ONE_SAMPLE, 2, 1).aborted && Out(ONE_SAMPLE, 2, 0) == [[0]]
  {
    assert [] + [AUDIO] == [AUDIO] && [] + [[0]] == [[0]];
    assert Iterate(ONE_SAMPLE, OPENED) == (ONE_SENT, true);
    assert Iterate(ONE_SAMPLE, ONE_SENT) == (ONE_SENT, false);
    assert FillDecoder(ONE_SAMPLE, ONE_SENT) == ONE_SENT;
    assert Before(ONE_SAMPLE, 2, 0) == ONE_SENT;
    assert ONE_SAMPLE.codec.frames([AUDIO]) == [[[0]]];
    assert FillFifo(ONE_SAMPLE, ONE_SENT) == ONE_SENT.(fifo := [[0]], released := 1);
  }
}

/** AudioFileSource as code. */
module AudioFileSource {
  import opened AudioFrames
  import opened DecoderPump
  import opened FrameSizes
  import opened FileChunks
  import Decoder = AudioFileDecoder
  import AudioResampler

  const AVERROR_EOF := -541478725

  class AudioFileSource {
    const decoder: Decoder.AudioFileDecoder
    const inputRate: nat
    const bytesPerSample: nat
    const outputRate: nat
    const outputChannels: nat
    const durationMs: nat
    const inputSamples: nat
    var inputBuffer: seq<Sample>

    ghost predicate Valid()
      reads this, decoder
    {
      && decoder.Valid() && decoder.channels > 0 && bytesPerSample > 0 && inputRate > 0
      && 1 <= durationMs <= MIXER_FRAME_MS && inputSamples == SamplesPerFrame(inputRate, durationMs)
      && |inputBuffer| == inputSamples
    }

    constructor (decoder: Decoder.AudioFileDecoder, inputRate: nat, bytesPerSample: nat,
                 outputRate: nat, outputChannels: nat, durationMs: nat)
      requires decoder.Valid() && decoder.channels > 0 && bytesPerSample > 0 && inputRate > 0
      requires 1 <= durationMs <= MIXER_FRAME_MS
      ensures Valid() && this.decoder == decoder && this.inputRate == inputRate
      ensures this.bytesPerSample == bytesPerSample && this.outputRate == outputRate
      ensures this.outputChannels == outputChannels && this.durationMs == durationMs
    {
      this.decoder, this.inputRate, this.bytesPerSample := decoder, inputRate, bytesPerSample;
      this.outputRate, this.outputChannels, this.durationMs := outputRate, outputChannels, durationMs;
      inputSamples := inputRate / (1000 / durationMs);
      inputBuffer := seq(inputRate / (1000 / durationMs), (_: nat) => []);
    }

    /** What the specification of a run says of the next read. */
    ghost function NextRead(): (r: Reading)
      requires Valid()
      reads this, decoder
    {
      FileChunks.Read(decoder.media, decoder.State(), inputBuffer, decoder.channels, bytesPerSample)
    }

    /**
      Read, with `converted` standing for the answer of swr_convert, which is told that it has
      room for `requested` samples and that the input buffer holds `offered`.
     */
    method Read(converted: int) returns (result: int, offered: nat, requested: nat)
      requires Valid()
      modifies this, decoder
      ensures Valid()
      ensures var next := old(NextRead());
              && decoder.State() == next.decoder && inputBuffer == next.buffer
              && match next.chunk
                 case EndOfFile => result == -541478725
                 case Delivered(samples) =>
                   && inputBuffer == samples && offered == |samples|
                   && requested == AudioResampler.RequestedSamples(offered, inputRate, outputRate)
                   && requested <= CeilDiv(outputRate, 100)
                   && result == AudioResampler.ResampledSize(converted, outputChannels)
    {
      AudioResampler.RequestIsBounded(inputRate, outputRate, durationMs);
      var consumed, out := decoder.Consume(inputSamples);
      inputBuffer := Overwrite(out, inputBuffer);
      if consumed != BufferSize(decoder.channels, inputSamples, bytesPerSample) {
        return AVERROR_EOF, 0, 0;
      }
      AudioResampler.InputSamplesAreExact(inputSamples, decoder.channels, bytesPerSample);
      offered := AudioResampler.InputSamples(consumed, decoder.channels, bytesPerSample);
      requested := AudioResampler.RequestedSamples(offered, inputRate, outputRate);
      result := AudioResampler.ResampledSize(converted, outputChannels);
    }

    /** GetAudioFrameWithInfo: refuses a foreign rate without pulling anything. */
    method GetAudioFrameWithInfo(sampleRateHz: int, converted: int) returns (info: AudioFrameInfo)
      requires Valid()
      modifies this, decoder
      ensures Valid()
      ensures sampleRateHz != outputRate ==>
                info == Error && decoder.State() == old(decoder.State()) && inputBuffer == old(inputBuffer)
      ensures sampleRateHz == outputRate ==>
                var next := old(NextRead());
                && decoder.State() == next.decoder && inputBuffer == next.buffer
                && forall z | AudioResampler.IsRounded(converted, z) ::
                     info == if next.chunk.Delivered? && converted > 0 && outputChannels > 0
                                && z * outputChannels * 2 <= 0x7FFF_FFFF then Normal else Error
    {
      if sampleRateHz != outputRate {
        return Error;
      }
      forall z | AudioResampler.IsRounded(converted, z)
        ensures AudioResampler.ResampledSize(converted, outputChannels) < 0
                <==> converted <= 0 || outputChannels == 0 || z * outputChannels * 2 > 0x7FFF_FFFF
      {
        AudioResampler.ResampledSizeIsErrorIff(converted, outputChannels, z);
      }
      var result, offered, requested := Read(converted);
      return if result < 0 then Error else Normal;
    }
  }
}
