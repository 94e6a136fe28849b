/**
  Which frame sizes are safe: for which files the reads are the chunks of the file with every
  codec that keeps its contract, however reluctantly it takes packets.
 */
module ChunkTiming {
  import opened Sequences
  import opened DecoderPump
  import opened FrameSizes
  import opened FileChunks

  /** Samples in the first k frames, or in all of them if there are fewer. */
  function Held(frames: seq<Frame>, k: nat): nat {
    |Flat(frames[..Min(k, |frames|)])|
  }

  /**
    Frames released before read i by the codec that takes a packet only when it has no frame to
    give: one for each read that finds the FIFO below its capacity.
   */
  function Released(frames: seq<Frame>, n: nat, capacity: nat, i: nat): (r: nat)
    ensures r <= |frames| && r <= i
  {
    if i == 0 then 0 else
    var r := Released(frames, n, capacity, i - 1);
    if r < |frames| && Held(frames, r) < (i - 1) * n + capacity then r + 1 else r
  }

  /** The frames released by then, and the one after them, reach to the end of each chunk in time. */
  ghost predicate InTime(frames: seq<Frame>, n: nat, capacity: nat, count: nat) {
    forall i | 0 <= i < count && (i + 1) * n <= |Flat(frames)| ::
      (i + 1) * n <= Held(frames, Released(frames, n, capacity, i) + 1)
  }

  lemma HeldGrows(frames: seq<Frame>, j: nat, k: nat)
    requires j <= k
    ensures Held(frames, j) <= Held(frames, k) <= |Flat(frames)|
  {
    var j', k' := Min(j, |frames|), Min(k, |frames|);
    FlatSplit(frames[..k'], j');
    FlatSplit(frames, k');
    assert frames[..k'][..j'] == frames[..j'];
  }

  /** The frames of the packets sent are the first frames of the file. */
  lemma DecodableIsHeld(m: Media, s: Pump)
    requires KeepsContract(m.codec) && InOrder(m, s)
    ensures Decodable(m, s) == Held(AllFrames(m), |m.codec.frames(s.sent)|)
    ensures |m.codec.frames(s.sent)| <= |AllFrames(m)|
  {
    SentIsPrefix(m, s);
    var k := |m.codec.frames(s.sent)|;
    assert AllFrames(m)[..k] == m.codec.frames(s.sent);
  }

  // Every codec does at least as well.

  lemma FillFifoReleases(m: Media, s: Pump)
    requires |s.fifo| < m.capacity && s.released < |m.codec.frames(s.sent)|
    ensures FillFifo(m, s).released > s.released
  {
    FillFifoStops(m, WriteFrame(m, s));
  }

  /** Once the decoder is filled it has a frame to give, or has all of them. */
  lemma FilledHasFrame(m: Media, s: Pump, consumed: seq<Sample>)
    requires KeepsContract(m.codec) && Ok(m, s, consumed) && !FillDecoder(m, s).aborted
    ensures var filled := FillDecoder(m, s); var k := |m.codec.frames(filled.sent)|;
            && InOrder(m, filled) && filled.released == s.released <= k && filled.fifo == s.fifo
            && (k == |AllFrames(m)| || k > s.released)
  {
    hide FillDecoder;
    FillDecoderKeepsOk(m, s, consumed);
    FillDecoderStops(m, s);
    SentIsPrefix(m, FillDecoder(m, s));
  }

  lemma FifoHolds(m: Media, s: Pump, consumed: seq<Sample>)
    requires KeepsContract(m.codec) && Ok(m, s, consumed)
    ensures |s.fifo| == Held(AllFrames(m), s.released) - |consumed|
    ensures s.released <= |AllFrames(m)|
  {
    SentIsPrefix(m, s);
    assert AllFrames(m)[..s.released] == m.codec.frames(s.sent)[..s.released];
    assert |consumed + s.fifo| == |consumed| + |s.fifo|;
  }

  lemma PullReleases(m: Media, s: Pump, consumed: seq<Sample>, n: nat)
    requires KeepsContract(m.codec) && Ok(m, s, consumed) && !Consume(m, s, n).0.aborted
    ensures Consume(m, s, n).0.released >= s.released
    ensures s.released < |AllFrames(m)| && Held(AllFrames(m), s.released) < |consumed| + m.capacity ==>
              Consume(m, s, n).0.released > s.released
  {
    hide FillDecoder, FillFifo, KeepsContract, Held, AllFrames;
    InFile(m, s, consumed);
    FilledHasFrame(m, s, consumed);
    FifoHolds(m, s, consumed);
    var filled := FillDecoder(m, s);
    FillFifoStops(m, filled);
    if s.released < |m.codec.frames(filled.sent)| && |s.fifo| < m.capacity {
      FillFifoReleases(m, filled);
    }
  }

  /** At read i at least as many frames are released, and one more is there if any is left. */
  lemma AvailableIsHeld(m: Media, n: nat, i: nat)
    requires KeepsContract(m.codec) && !Before(m, n, i + 1).aborted
    ensures Available(m, n, i) >= Held(AllFrames(m), Before(m, n, i).released + 1)
  {
    hide FillDecoder, Held, AllFrames, KeepsContract, Taken;
    ReadsAreOk(m, n, i);
    var s := Before(m, n, i);
    FilledHasFrame(m, s, Flat(AllFrames(m))[..Taken(m, n, i)]);
    var filled := FillDecoder(m, s);
    DecodableIsHeld(m, filled);
    var k := |m.codec.frames(filled.sent)|;
    if k > s.released {
      HeldGrows(AllFrames(m), s.released + 1, k);
    } else {
      HeldAll(AllFrames(m), s.released + 1);
    }
  }

  lemma HeldAll(frames: seq<Frame>, k: nat)
    ensures Held(frames, k) <= Held(frames, |frames|) == |Flat(frames)|
  {
    HeldGrows(frames, Min(k, |frames|), |frames|);
    assert frames[..|frames|] == frames;
  }

  /** While the reads take whole chunks. */
  ghost predicate Ahead(m: Media, n: nat, i: nat) {
    Taken(m, n, i) == i * n && Before(m, n, i).released >= Released(AllFrames(m), n, m.capacity, i)
  }

  lemma AheadMeansInTime(m: Media, n: nat, count: nat, i: nat)
    requires KeepsContract(m.codec) && !Before(m, n, i + 1).aborted && i < count
    requires InTime(AllFrames(m), n, m.capacity, count) && (i + 1) * n <= |Flat(AllFrames(m))|
    requires Ahead(m, n, i)
    ensures (i + 1) * n <= Available(m, n, i)
  {
    hide Before, Available, Held, AllFrames, KeepsContract, Taken, Released;
    AvailableIsHeld(m, n, i);
    HeldGrows(AllFrames(m), Released(AllFrames(m), n, m.capacity, i) + 1, Before(m, n, i).released + 1);
  }

  lemma StaysAhead(m: Media, n: nat, count: nat, i: nat)
    requires KeepsContract(m.codec) && 0 < n <= m.capacity && !Before(m, n, i + 1).aborted && i < count
    requires InTime(AllFrames(m), n, m.capacity, count) && (i + 1) * n <= |Flat(AllFrames(m))|
    requires Ahead(m, n, i)
    ensures Ahead(m, n, i + 1)
  {
    hide Available, Held, AllFrames, KeepsContract, InTime, Consume, FillDecoder;
    AheadMeansInTime(m, n, count, i);
    ReadTakes(m, n, i);
    NextMultiple(i, n);
    ReadsAreOk(m, n, i);
    PullReleases(m, Before(m, n, i), Flat(AllFrames(m))[..Taken(m, n, i)], n);
  }

  lemma {:induction false} AlwaysAhead(m: Media, n: nat, count: nat, i: nat)
    requires KeepsContract(m.codec) && 0 < n <= m.capacity && !Before(m, n, count).aborted && i <= count
    requires InTime(AllFrames(m), n, m.capacity, count) && i * n <= |Flat(AllFrames(m))|
    ensures Ahead(m, n, i)
  {
    hide Available, Held, AllFrames, KeepsContract, InTime, Consume, FillDecoder;
    if i > 0 {
      NextMultiple(i - 1, n);
      AbortStays(m, n, i, count);
      AlwaysAhead(m, n, count, i - 1);
      StaysAhead(m, n, count, i - 1);
    }
  }

  lemma InTimeKeepsUp(m: Media, n: nat, count: nat)
    requires KeepsContract(m.codec) && 0 < n <= m.capacity && !Before(m, n, count).aborted
    requires InTime(AllFrames(m), n, m.capacity, count)
    ensures KeepsUp(m, n, count)
  {
    hide Before, Available, AllFrames, KeepsContract, InTime, Ahead, Flat;
    forall i | 0 <= i < count && (i + 1) * n <= |Flat(AllFrames(m))| ensures (i + 1) * n <= Available(m, n, i) {
      NextMultiple(i, n);
      AbortStays(m, n, i + 1, count);
      AlwaysAhead(m, n, count, i);
      AheadMeansInTime(m, n, count, i);
    }
  }

  // The most reluctant codec does no better.

  /** One frame for each packet, and no packet taken while there is a frame to give. */
  function Reluctant(frames: seq<Frame>): Codec {
    Codec(
      (sent: seq<Packet>) => frames[..Min(|sent|, |frames|)],
      (sent: seq<Packet>, k: nat, p: Packet) => if k < Min(|sent|, |frames|) then Again else Accepted)
  }

  function Packets(k: nat): seq<Packet> {
    seq(k, (_: nat) => AUDIO)
  }

  /** A file that decodes to the given frames. */
  function Recording(frames: seq<Frame>, capacity: nat): Media {
    Media(Reluctant(frames), Packets(|frames|), 0, capacity)
  }

  lemma ReluctantKeepsContract(frames: seq<Frame>)
    ensures KeepsContract(Reluctant(frames))
  {
    var c := Reluctant(frames);
    forall sent, p ensures c.frames(sent) <= c.frames(sent + [p]) {
      assert |sent + [p]| == |sent| + 1;
    }
  }

  lemma {:induction false} AllAreChosen(k: nat)
    ensures Chosen(Packets(k), 0) == Packets(k)
  {
    if k > 0 {
      AllAreChosen(k - 1);
      assert Packets(k)[..k - 1] == Packets(k - 1);
    }
  }

  lemma RecordingHolds(frames: seq<Frame>, capacity: nat)
    ensures AllFrames(Recording(frames, capacity)) == frames
  {
    AllAreChosen(|frames|);
    assert frames[..|frames|] == frames;
  }

  /** Only what has been released, and one frame more, has been sent; and nothing has failed. */
  ghost predicate NotAhead(s: Pump) {
    !s.aborted && |s.sent| <= s.released + 1
  }

  lemma SentFits(frames: seq<Frame>, capacity: nat, s: Pump)
    requires InOrder(Recording(frames, capacity), s)
    ensures |s.sent| + (if s.packetConsumed then 0 else 1) <= |frames|
  {
    var m := Recording(frames, capacity);
    AllAreChosen(|frames|);
    ChosenMonotone(m.file, 0, s.pos);
    assert |s.sent + (if s.packetConsumed then [] else [s.packet])| <= |frames|;
  }

  lemma SendStays(frames: seq<Frame>, capacity: nat, s: Pump)
    requires NotAhead(s) && |s.sent| < |frames|
    ensures NotAhead(Send(Recording(frames, capacity), s).0)
  {
  }

  lemma IterateStays(frames: seq<Frame>, capacity: nat, s: Pump, consumed: seq<Sample>)
    requires NotAhead(s) && Ok(Recording(frames, capacity), s, consumed)
    ensures NotAhead(Iterate(Recording(frames, capacity), s).0)
  {
    var m := Recording(frames, capacity);
    SentFits(frames, capacity, s);
    if !s.packetConsumed {
      SendStays(frames, capacity, s);
    } else if s.pos < |m.file| {
      var next := s.(pos := s.pos + 1, packet := m.file[s.pos], packetConsumed := false);
      var upTo := m.file[..next.pos];
      assert upTo[..|upTo| - 1] == m.file[..s.pos] && upTo[|upTo| - 1] == next.packet;
      assert s.sent + [] == s.sent;
      assert next.packet.streamIndex == 0;
      SentFits(frames, capacity, next);
      SendStays(frames, capacity, next);
    }
  }

  lemma {:induction false} FillDecoderStays(frames: seq<Frame>, capacity: nat, s: Pump, consumed: seq<Sample>)
    requires NotAhead(s) && Ok(Recording(frames, capacity), s, consumed)
    ensures NotAhead(FillDecoder(Recording(frames, capacity), s))
    decreases Fuel(Recording(frames, capacity), s)
  {
    hide Ok, Iterate, NotAhead, Fuel, Recording;
    var m := Recording(frames, capacity);
    InFile(m, s, consumed);
    IterateStays(frames, capacity, s, consumed);
    IsReluctant(frames, capacity);
    IterateKeepsOk(m, s, consumed);
    var (s', more) := Iterate(m, s);
    if more {
      FillDecoderStays(frames, capacity, s', consumed);
    }
  }

  lemma IsReluctant(frames: seq<Frame>, capacity: nat)
    ensures KeepsContract(Recording(frames, capacity).codec) && Recording(frames, capacity).capacity == capacity
    ensures forall sent :: |Recording(frames, capacity).codec.frames(sent)| == Min(|sent|, |frames|)
  {
    ReluctantKeepsContract(frames);
  }

  lemma FillFifoOne(m: Media, s: Pump)
    requires s.released <= |m.codec.frames(s.sent)| <= s.released + 1
    ensures FillFifo(m, s).released ==
            if |s.fifo| < m.capacity && s.released < |m.codec.frames(s.sent)| then s.released + 1 else s.released
  {
  }

  /** What a pull of the most reluctant codec releases, exactly. */
  lemma PullReleasesOne(frames: seq<Frame>, capacity: nat, s: Pump, consumed: seq<Sample>, n: nat)
    requires NotAhead(s) && Ok(Recording(frames, capacity), s, consumed)
    ensures var m := Recording(frames, capacity);
            var s' := Consume(m, s, n).0;
            && NotAhead(s')
            && Decodable(m, FillDecoder(m, s)) == Held(frames, s.released + 1)
            && s'.released == if s.released < |frames| && Held(frames, s.released) < |consumed| + capacity
                              then s.released + 1 else s.released
  {
    hide FillDecoder, FillFifo, Recording, Held, KeepsContract;
    var m := Recording(frames, capacity);
    IsReluctant(frames, capacity);
    RecordingHolds(frames, capacity);
    FillDecoderStays(frames, capacity, s, consumed);
    FilledHasFrame(m, s, consumed);
    FifoHolds(m, s, consumed);
    var filled := FillDecoder(m, s);
    DecodableIsHeld(m, filled);
    HeldCaps(frames, s.released + 1);
    FillFifoOne(m, filled);
    FillFifoStops(m, filled);
  }

  lemma HeldCaps(frames: seq<Frame>, k: nat)
    ensures Held(frames, k) == Held(frames, Min(k, |frames|))
  {
  }

  lemma {:induction false} ReluctantReleases(frames: seq<Frame>, n: nat, capacity: nat, i: nat)
    requires forall j | 0 <= j <= i :: Taken(Recording(frames, capacity), n, j) == j * n
    ensures var s := Before(Recording(frames, capacity), n, i);
            NotAhead(s) && s.released == Released(frames, n, capacity, i)
  {
    hide Taken, Consume, FillDecoder, Recording, Held, Ok, KeepsContract;
    var m := Recording(frames, capacity);
    IsReluctant(frames, capacity);
    RecordingHolds(frames, capacity);
    if i == 0 {
      OpenedStays(frames, capacity);
    } else {
      ReluctantReleases(frames, n, capacity, i - 1);
      ReadsAreOk(m, n, i - 1);
      assert Taken(m, n, i - 1) == (i - 1) * n;
      PullReleasesOne(frames, capacity, Before(m, n, i - 1), Flat(frames)[..Taken(m, n, i - 1)], n);
    }
  }

  lemma OpenedStays(frames: seq<Frame>, capacity: nat)
    ensures var s := FillDecoder(Recording(frames, capacity), OPENED); NotAhead(s) && s.released == 0
  {
    hide FillDecoder;
    var m := Recording(frames, capacity);
    ReluctantKeepsContract(frames);
    FillDecoderStops(m, OPENED);
    FillDecoderStays(frames, capacity, OPENED, []);
  }

  lemma {:induction false} ReluctantNeverFails(frames: seq<Frame>, n: nat, capacity: nat, i: nat)
    ensures NotAhead(Before(Recording(frames, capacity), n, i))
  {
    hide Taken, Consume, FillDecoder, Recording, Held, Ok, KeepsContract;
    var m := Recording(frames, capacity);
    IsReluctant(frames, capacity);
    RecordingHolds(frames, capacity);
    if i == 0 {
      OpenedStays(frames, capacity);
    } else {
      ReluctantNeverFails(frames, n, capacity, i - 1);
      ReadsAreOk(m, n, i - 1);
      PullReleasesOne(frames, capacity, Before(m, n, i - 1), Flat(frames)[..Taken(m, n, i - 1)], n);
    }
  }

  lemma ReluctantAvailable(frames: seq<Frame>, n: nat, capacity: nat, i: nat)
    requires forall j | 0 <= j <= i :: Taken(Recording(frames, capacity), n, j) == j * n
    ensures Available(Recording(frames, capacity), n, i) == Held(frames, Released(frames, n, capacity, i) + 1)
  {
    hide Taken, Consume, FillDecoder, Recording, Held, Ok, KeepsContract, Before, Released;
    var m := Recording(frames, capacity);
    IsReluctant(frames, capacity);
    RecordingHolds(frames, capacity);
    ReluctantReleases(frames, n, capacity, i);
    ReadsAreOk(m, n, i);
    PullReleasesOne(frames, capacity, Before(m, n, i), Flat(frames)[..Taken(m, n, i)], n);
  }

  lemma TakesWhole(m: Media, n: nat, count: nat, j: nat)
    requires KeepsContract(m.codec) && 0 < n <= m.capacity && !Before(m, n, count).aborted
    requires KeepsUp(m, n, count) && j < count && (j + 1) * n <= |Flat(AllFrames(m))|
    ensures Taken(m, n, j) == j * n
  {
    hide Before, Available, AllFrames, KeepsContract, Flat, Out;
    KeepingUp(m, n, count, j);
    TakenGrows(m, n, 0, j);
    NextMultiple(j, n);
  }

  lemma ReluctantKeepsUpInTime(frames: seq<Frame>, n: nat, capacity: nat, count: nat)
    requires 0 < n <= capacity && KeepsUp(Recording(frames, capacity), n, count)
    ensures InTime(frames, n, capacity, count)
  {
    hide Before, Available, Taken, Flat, Recording, Released, Held, AllFrames, KeepsContract;
    var m := Recording(frames, capacity);
    IsReluctant(frames, capacity);
    RecordingHolds(frames, capacity);
    ReluctantNeverFails(frames, n, capacity, count);
    forall i | 0 <= i < count && (i + 1) * n <= |Flat(frames)|
      ensures (i + 1) * n <= Held(frames, Released(frames, n, capacity, i) + 1)
    {
      forall j | 0 <= j <= i ensures Taken(m, n, j) == j * n {
        Scale(n, j + 1, i + 1);
        TakesWhole(m, n, count, j);
      }
      ReluctantAvailable(frames, n, capacity, i);
    }
  }

  /** A codec within the contract plays these frames, `count` reads long, without a fatal error. */
  ghost predicate Plays(m: Media, frames: seq<Frame>, n: nat, count: nat) {
    KeepsContract(m.codec) && AllFrames(m) == frames && !Before(m, n, count).aborted
  }

  /**
    Frame sizes are safe if and only if they are in time: the first reads are the chunks of the
    file with every codec that plays these frames, just if each chunk ends within the frames that
    the most reluctant codec has released before its read, and one more.
   */
  lemma SafeFramesIff(frames: seq<Frame>, blank: seq<Sample>, capacity: nat, channels: nat, count: nat)
    requires 0 < |blank| <= capacity && HasSize(channels, |blank|, 2)
    ensures (forall m: Media | m.capacity == capacity && Plays(m, frames, |blank|, count) ::
               AreChunks(m, blank, channels, 2, count))
            <==> InTime(frames, |blank|, capacity, count)
  {
    hide Before, AreChunks, KeepsUp, InTime, Recording, AllFrames, KeepsContract;
    var n := |blank|;
    if InTime(frames, n, capacity, count) {
      forall m: Media | m.capacity == capacity && Plays(m, frames, n, count)
        ensures AreChunks(m, blank, channels, 2, count)
      {
        InTimeKeepsUp(m, n, count);
        ReadsAreChunksIff(m, blank, channels, count);
      }
    }
    var m := Recording(frames, capacity);
    IsReluctant(frames, capacity);
    RecordingHolds(frames, capacity);
    ReluctantNeverFails(frames, n, capacity, count);
    assert Plays(m, frames, n, count);
    ReadsAreChunksIff(m, blank, channels, count);
    if KeepsUp(m, n, count) {
      ReluctantKeepsUpInTime(frames, n, capacity, count);
    }
  }

  /** It takes that the first i + 1 frames reach to the end of chunk i, for every chunk. */
  lemma InTimeNeedsFrames(frames: seq<Frame>, n: nat, capacity: nat, count: nat, i: nat)
    requires InTime(frames, n, capacity, count) && i < count && (i + 1) * n <= |Flat(frames)|
    ensures (i + 1) * n <= Held(frames, i + 1)
  {
    hide Held, Flat;
    HeldGrows(frames, Released(frames, n, capacity, i) + 1, i + 1);
  }

  const LONG_THEN_SHORT: seq<Frame> := [[[0], [0], [0], [0]], [[0]], [[0]]]

  /**
    But that is not enough, since a full FIFO holds the frames up: four samples, one and one, in
    chunks of two with room for two.
   */
  lemma FramesAloneAreNotEnough()
    ensures forall k | 1 <= k <= 3 :: k * 2 <= Held(LONG_THEN_SHORT, k)
    ensures !InTime(LONG_THEN_SHORT, 2, 2, 3)
  {
    HeldOfLong();
    hide Held;
    assert Released(LONG_THEN_SHORT, 2, 2, 0) == 0;
    assert Released(LONG_THEN_SHORT, 2, 2, 1) == 1;
    assert Released(LONG_THEN_SHORT, 2, 2, 2) == 1;
    HeldAll(LONG_THEN_SHORT, 3);
  }

  lemma HeldOfLong()
    ensures Held(LONG_THEN_SHORT, 0) == 0 && Held(LONG_THEN_SHORT, 1) == 4
    ensures Held(LONG_THEN_SHORT, 2) == 5 && Held(LONG_THEN_SHORT, 3) == 6
  {
    var frames := LONG_THEN_SHORT;
    FlatPrefix(frames, 0);
    FlatPrefix(frames, 1);
    FlatPrefix(frames, 2);
    assert frames[..0] == [];
  }
}
