/** Recorded audio on its way to the mixer, as a function on the buffer. */
module RecordBuffer {
  import opened Sequences
  import opened AudioFrames
  import opened FrameSizes

  type Int16 = x: int | -0x8000 <= x < 0x8000

  datatype Config = Config(rate: nat, channels: nat, durationMs: nat)
  {
    predicate Valid() {
      1 <= durationMs <= MIXER_FRAME_MS
    }

    /** real_buffer_num_elements_: what one pull removes. */
    function Elements(): nat
      requires Valid()
    {
      channels * rate / (1000 / durationMs)
    }

    /** What one frame claims to hold, and copies from the front of the buffer. */
    function Copied(): nat {
      ReportedSamples(rate) * channels
    }
  }

  /** `missing` elements of the frame were read from behind the recorded data. */
  datatype Pulled = Pulled(info: AudioFrameInfo, removed: seq<Int16>, frame: seq<Int16>, missing: nat)

  /** What memory holds at each index from the start of the buffer on, where it is not data. */
  type Memory = nat -> Int16

  /** n elements copied from a buffer with contents b, and from whatever is behind them. */
  function Copy(b: seq<Int16>, memory: Memory, n: nat): (r: seq<Int16>)
    ensures |r| == n && (n <= |b| ==> r == b[..n]) && (|b| <= n ==> r[..|b|] == b)
  {
    seq(n, k requires 0 <= k < n => if k < |b| then b[k] else memory(k))
  }

  /** One call of GetAudioFrameWithInfo on buffer b; the frame is before volume scaling. */
  function Pull(c: Config, b: seq<Int16>, memory: Memory, rateHz: int): (r: Pulled)
    requires c.Valid()
    ensures |r.removed| <= |b| && r.removed == b[..|r.removed|]
    ensures r.info == Normal ==> |r.frame| == c.Copied() && (r.missing == 0 ==> r.frame <= b)
  {
    if rateHz != c.rate then
      Pulled(Error, [], [], 0)
    else if |b| < c.Elements() then
      Pulled(Muted, [], [], 0)
    else
      Pulled(Normal, b[..c.Elements()], Copy(b, memory, c.Copied()), if c.Copied() <= |b| then 0 else c.Copied() - |b|)
  }

  datatype Event = Record(data: seq<Int16>) | Request(rateHz: int, memory: Memory)

  /**
    A run: the buffer now, everything ever recorded, the blocks and frames of good pulls, and
    how many elements were read from behind the recorded data.
   */
  datatype Log = Log(
    buffer: seq<Int16>,
    recorded: seq<Int16>,
    blocks: seq<seq<Int16>>,
    frames: seq<seq<Int16>>,
    missing: nat)

  function Run(c: Config, events: seq<Event>): (log: Log)
    requires c.Valid()
  {
    if |events| == 0 then
      Log([], [], [], [], 0)
    else
      var log := Run(c, events[..|events| - 1]);
      match events[|events| - 1]
      case Record(data) => log.(buffer := log.buffer + data, recorded := log.recorded + data)
      case Request(hz, memory) =>
        var r := Pull(c, log.buffer, memory, hz);
        if r.info != Normal then log else
        Log(log.buffer[|r.removed|..], log.recorded, log.blocks + [r.removed], log.frames + [r.frame],
            log.missing + r.missing)
  }

  /** Blocks removed, then the buffer, is everything ever recorded: nothing lost or repeated. */
  lemma {:induction false} NothingLost(c: Config, events: seq<Event>)
    requires c.Valid()
    ensures var log := Run(c, events); Flat(log.blocks) + log.buffer == log.recorded
  {
    if events != [] {
      var before := Run(c, events[..|events| - 1]);
      NothingLost(c, events[..|events| - 1]);
      match events[|events| - 1]
      case Record(data) =>
        assert Flat(before.blocks) + (before.buffer + data) == before.recorded + data;
      case Request(hz, memory) =>
        var r := Pull(c, before.buffer, memory, hz);
        if r.info == Normal {
          FlatAppend(before.blocks, r.removed);
          assert r.removed + before.buffer[|r.removed|..] == before.buffer;
        }
    }
  }

  /** At 10 ms a pull removes what the frame copies, exactly when the remainders add to no element. */
  lemma RemovesWhatItCopiesIff(c: Config)
    requires c.durationMs == MIXER_FRAME_MS
    ensures c.Elements() == c.Copied() <==> c.channels * (c.rate % 100) < 100
    ensures c.Elements() >= c.Copied()
  {
    var q, r := c.rate / 100, c.rate % 100;
    assert c.channels * c.rate == c.channels * q * 100 + c.channels * r by {
      assert c.rate == q * 100 + r;
    }
    var base := c.channels * q;
    DivisionIsGreatest(c.channels * c.rate, 100, base);
    DivisionIsGreatest(c.channels * c.rate, 100, base + 1);
  }

  lemma {:induction false} NothingMissing(c: Config, events: seq<Event>)
    requires c.Valid() && c.Copied() <= c.Elements()
    ensures Run(c, events).missing == 0
  {
    if events != [] {
      NothingMissing(c, events[..|events| - 1]);
    }
  }

  const SILENT: Memory := _ => 0

  function Silence(n: nat): seq<Int16> {
    seq(n, (_: nat) => 0)
  }

  /** Record n elements, and pull once. */
  function OnePull(c: Config, n: nat): seq<Event> {
    [Record(Silence(n)), Request(c.rate, SILENT)]
  }

  lemma OnePullDoes(c: Config, n: nat)
    requires c.Valid() && n >= c.Elements()
    ensures var log, r := Run(c, OnePull(c, n)), Pull(c, Silence(n), SILENT, c.rate);
            log == Log(Silence(n)[c.Elements()..], Silence(n), [r.removed], [r.frame], r.missing)
  {
    var events, data := OnePull(c, n), Silence(n);
    assert events[..1] == [Record(data)] && [Record(data)][..0] == [];
    assert Run(c, []) == Log([], [], [], [], 0);
    assert [] + data == data;
    assert Run(c, [Record(data)]) == Log(data, data, [], [], 0);
  }

  /**
    No run ever reads behind the recorded data if and only if a frame copies no more than a
    pull removes, which is so at 10 ms.
   */
  lemma NeverOverreadsIff(c: Config)
    requires c.Valid()
    ensures (forall events :: Run(c, events).missing == 0) <==> c.Copied() <= c.Elements()
    ensures c.durationMs == MIXER_FRAME_MS ==> c.Copied() <= c.Elements()
  {
    if c.Copied() <= c.Elements() {
      forall events ensures Run(c, events).missing == 0 {
        NothingMissing(c, events);
      }
    } else {
      OnePullDoes(c, c.Elements());
    }
    if c.durationMs == MIXER_FRAME_MS {
      RemovesWhatItCopiesIff(c);
    }
  }

  /** Mono at 48 kHz in frames of 5 ms: 240 elements recorded, one pull, 240 read too far. */
  lemma FiveMillisecondsOverread()
    ensures var c := Config(48000, 1, 5); Run(c, OnePull(c, 240)).missing == 240
  {
    OnePullDoes(Config(48000, 1, 5), 240);
  }

  lemma {:induction false} BlocksAreWhole(c: Config, events: seq<Event>)
    requires c.Valid()
    ensures forall i | 0 <= i < |Run(c, events).blocks| :: |Run(c, events).blocks[i]| == c.Elements()
  {
    if events != [] {
      BlocksAreWhole(c, events[..|events| - 1]);
    }
  }

  /**
    What a pull answers after any history: an error for a foreign rate, muted if no other whole
    block was recorded, and a frame otherwise. Only a frame changes anything.
   */
  lemma PullAnswers(c: Config, events: seq<Event>, memory: Memory, rateHz: int)
    requires c.Valid()
    ensures var log, log' := Run(c, events), Run(c, events + [Request(rateHz, memory)]);
            var info := Pull(c, log.buffer, memory, rateHz).info;
            && (info == Error <==> rateHz != c.rate)
            && (info == Muted <==> rateHz == c.rate && |log.recorded| < (|log.blocks| + 1) * c.Elements())
            && (info == Normal <==> rateHz == c.rate && (|log.blocks| + 1) * c.Elements() <= |log.recorded|)
            && (info != Normal ==> log' == log)
            && (info == Normal ==> |log'.blocks| == |log.blocks| + 1 && log'.recorded == log.recorded)
  {
    var log, n := Run(c, events), c.Elements();
    BlocksAreWhole(c, events);
    FlatSize(log.blocks, n);
    NothingLost(c, events);
    NextMultiple(|log.blocks|, n);
    assert |Flat(log.blocks) + log.buffer| == |log.recorded|;
    RunStep(c, events, Request(rateHz, memory));
  }

  lemma RunStep(c: Config, events: seq<Event>, event: Event)
    requires c.Valid()
    ensures var log, log' := Run(c, events), Run(c, events + [event]);
            match event
            case Record(data) => log' == log.(buffer := log.buffer + data, recorded := log.recorded + data)
            case Request(hz, memory) =>
              var r := Pull(c, log.buffer, memory, hz);
              log' == if r.info != Normal then log else
                      Log(log.buffer[|r.removed|..], log.recorded, log.blocks + [r.removed], log.frames + [r.frame],
                          log.missing + r.missing)
  {
    var longer := events + [event];
    assert longer[..|longer| - 1] == events;
  }

  /** What has been recorded is the data of all recordings, in order. */
  lemma {:induction false} RecordedIsAll(c: Config, events: seq<Event>)
    requires c.Valid()
    ensures Run(c, events).recorded == Flat(Recordings(events))
  {
    if |events| > 0 {
      var before, last := events[..|events| - 1], events[|events| - 1];
      RecordedIsAll(c, before);
      FlatAppend(Recordings(before), if last.Record? then last.data else []);
    }
  }

  /** Element i is the data of event i, or nothing if it is no recording. */
  function Recordings(events: seq<Event>): seq<seq<Int16>> {
    if |events| == 0 then [] else
    var last := events[|events| - 1];
    Recordings(events[..|events| - 1]) + [if last.Record? then last.data else []]
  }

  /** The sizes of a pull, as the greatest that fit. */
  lemma SizesAreGreatest(c: Config, z: nat, n: nat)
    requires c.Valid() && n * 100 <= c.rate < (n + 1) * 100
    ensures z <= c.Elements() <==> z * (1000 / c.durationMs) <= c.channels * c.rate
    ensures c.Copied() == n * c.channels
  {
    FramesPerSecond(c.durationMs);
    DivisionIsGreatest(c.channels * c.rate, 1000 / c.durationMs, z);
    CountsAreGreatest(c.rate, 10, n);
    CountsAreGreatest(c.rate, 10, n + 1);
  }

  /** A frame is what its block starts with, as long as it copies no more than the block. */
  lemma {:induction false} FramesStartBlocks(c: Config, events: seq<Event>)
    requires c.Valid() && c.Copied() <= c.Elements()
    ensures var log := Run(c, events);
            && |log.frames| == |log.blocks|
            && forall i | 0 <= i < |log.frames| ::
                 |log.blocks[i]| == c.Elements() && log.frames[i] == log.blocks[i][..c.Copied()]
  {
    if events != [] {
      FramesStartBlocks(c, events[..|events| - 1]);
    }
  }

  lemma {:induction false} FlatSize(blocks: seq<seq<Int16>>, size: nat)
    requires forall k | 0 <= k < |blocks| :: |blocks[k]| == size
    ensures |Flat(blocks)| == |blocks| * size
  {
    if blocks != [] {
      FlatSize(blocks[1..], size);
      NextMultiple(|blocks| - 1, size);
    }
  }

  lemma FlatAt(blocks: seq<seq<Int16>>, size: nat, i: nat)
    requires i < |blocks| && forall k | 0 <= k < |blocks| :: |blocks[k]| == size
    ensures 0 <= i * size <= (i + 1) * size <= |Flat(blocks)|
    ensures Flat(blocks)[i * size..(i + 1) * size] == blocks[i]
  {
    hide Flat;
    FlatSize(blocks[..i], size);
    FlatPrefix(blocks, i);
    FlatSplit(blocks, i + 1);
    NextMultiple(i, size);
    assert Flat(blocks)[i * size..(i + 1) * size] == (Flat(blocks[..i]) + blocks[i])[i * size..];
  }

  /** Where frame i comes from: the start of the i-th run of as many elements as a pull removes. */
  lemma FrameIsAt(c: Config, events: seq<Event>, i: nat)
    requires c.Valid() && c.Copied() <= c.Elements() && i < |Run(c, events).frames|
    ensures var log, start := Run(c, events), i * c.Elements();
            start + c.Copied() <= |log.recorded| && log.frames[i] == log.recorded[start..start + c.Copied()]
  {
    hide Run, Flat, Config.Elements, Config.Copied;
    FramesStartBlocks(c, events);
    NothingLost(c, events);
    var log, size := Run(c, events), c.Elements();
    var start, flat := i * size, Flat(log.blocks);
    FlatAt(log.blocks, size, i);
    NextMultiple(i, size);
    assert log.recorded[start..start + c.Copied()] == flat[start..start + size][..c.Copied()];
  }

  /** The frames handed to the mixer and what is left make up the recording. */
  ghost predicate Partitions(c: Config, events: seq<Event>)
    requires c.Valid()
  {
    var log := Run(c, events);
    Flat(log.frames) + log.buffer == log.recorded
  }

  lemma OnePullPartitionsIff(c: Config, n: nat)
    requires c.Valid() && n >= c.Elements() && n >= c.Copied()
    ensures Partitions(c, OnePull(c, n)) ==> c.Elements() == c.Copied()
  {
    OnePullDoes(c, n);
    var log := Run(c, OnePull(c, n));
    var frame := Pull(c, Silence(n), SILENT, c.rate).frame;
    assert Flat([frame]) == frame + Flat([]);
    assert |Flat(log.frames) + log.buffer| == c.Copied() + (n - c.Elements());
  }

  lemma WholeFramesPartition(c: Config, events: seq<Event>)
    requires c.Valid() && c.Elements() == c.Copied()
    ensures Partitions(c, events)
  {
    hide Run, Flat, Config.Elements, Config.Copied;
    FramesStartBlocks(c, events);
    NothingLost(c, events);
    var log, size := Run(c, events), c.Copied();
    forall i | 0 <= i < |log.frames| ensures log.frames[i] == log.blocks[i] {
      assert log.blocks[i][..size] == log.blocks[i];
    }
    assert log.frames == log.blocks;
  }

  /**
    No run drops, repeats or reorders an element on the way to the mixer if and only if a pull
    removes what the frame copies; at 10 ms, if and only if the remainders of the rate add up to
    no element.
   */
  lemma FramesPartitionIff(c: Config)
    requires c.Valid()
    ensures (forall events :: Partitions(c, events)) <==> c.Elements() == c.Copied()
    ensures c.durationMs == MIXER_FRAME_MS ==>
              ((forall events :: Partitions(c, events)) <==> c.channels * (c.rate % 100) < 100)
  {
    hide Partitions, Config.Elements, Config.Copied;
    if c.Elements() == c.Copied() {
      forall events ensures Partitions(c, events) {
        WholeFramesPartition(c, events);
      }
    } else {
      OnePullPartitionsIff(c, if c.Elements() < c.Copied() then c.Copied() else c.Elements());
    }
    if c.durationMs == MIXER_FRAME_MS {
      RemovesWhatItCopiesIff(c);
    }
  }

  /** Then each frame starts on a channel boundary, and frame i is the i-th run of its size. */
  lemma FramesPartitionRecording(c: Config, events: seq<Event>, i: nat)
    requires c.durationMs == MIXER_FRAME_MS && c.channels * (c.rate % 100) < 100
    requires i < |Run(c, events).frames|
    ensures var log, size := Run(c, events), ReportedSamples(c.rate) * c.channels;
            && 0 <= i * size <= (i + 1) * size <= |log.recorded|
            && log.frames[i] == log.recorded[i * size..(i + 1) * size]
            && Flat(log.frames) + log.buffer == log.recorded
  {
    RemovesWhatItCopiesIff(c);
    hide Run, Flat, Config.Elements;
    FrameIsAt(c, events, i);
    WholeFramesPartition(c, events);
    NextMultiple(i, c.Copied());
  }

  /**
    22050 Hz stereo in frames of 10 ms: each pull removes 441 elements and copies 440. One is
    lost, and every other frame starts with the wrong channel.
   */
  lemma StereoDrifts(events: seq<Event>)
    requires |Run(Config(22050, 2, 10), events).frames| >= 2
    ensures var log := Run(Config(22050, 2, 10), events);
            && |log.recorded| >= 881 && 441 % 2 == 1
            && log.frames[0] == log.recorded[0..440] && log.frames[1] == log.recorded[441..881]
    ensures !Partitions(Config(22050, 2, 10), OnePull(Config(22050, 2, 10), 441))
  {
    var c := Config(22050, 2, 10);
    hide Run, Partitions;
    FrameIsAt(c, events, 0);
    FrameIsAt(c, events, 1);
    OnePullPartitionsIff(c, 441);
  }
}

/** AudioRecordSource as code, on a growable array that is shifted in place. */
module AudioRecordSource {
  import opened AudioFrames
  import opened FrameSizes
  import opened RecordBuffer

  class AudioRecordSource {
    const config: Config
    var data: array<Int16>  // buffer_
    var size: nat

    ghost predicate Valid()
      reads this
    {
      size <= data.Length && config.Valid()
    }

    ghost function Contents(): seq<Int16>
      reads this, data
      requires Valid()
    {
      data[..size]
    }

    constructor (rate: nat, channels: nat, durationMs: nat)
      requires 1 <= durationMs <= MIXER_FRAME_MS
      ensures Valid() && Contents() == [] && config == Config(rate, channels, durationMs) && fresh(data)
    {
      config := Config(rate, channels, durationMs);
      data := new Int16[0];
      size := 0;
    }

    /** OnAudioRecorded: a trailing odd byte is dropped; existing contents survive growth. */
    method OnAudioRecorded(recorded: seq<Int16>, bytes: nat)
      requires Valid() && bytes / 2 <= |recorded|
      modifies this, data
      ensures Valid() && Contents() == old(Contents()) + recorded[..bytes / 2]
      ensures data == old(data) || fresh(data)
    {
      var n := bytes / 2;
      if size + n > data.Length {
        var headroom := data.Length + data.Length / 2;
        var bigger := new Int16[if headroom < size + n then size + n else headroom];
        forall i | 0 <= i < size {
          bigger[i] := data[i];
        }
        data := bigger;
      }
      forall i | 0 <= i < n {
        data[size + i] := recorded[i];
      }
      size := size + n;
    }

    /** The memmove: everything from element n on moves to the front, within the same array. */
    method ShiftLeft(n: nat)
      requires Valid() && n <= size
      modifies data
      ensures data[..size - n] == old(data[n..size])
    {
      var i := 0;
      while i < size - n
        invariant 0 <= i <= size - n
        invariant forall k | 0 <= k < i :: data[k] == old(data[k + n])
        invariant forall k | i <= k < data.Length :: data[k] == old(data[k])
      {
        data[i] := data[i + n];
        i := i + 1;
      }
    }

    /**
      GetAudioFrameWithInfo: copy a frame out, then memmove the rest to the front. `memory` is what
      there is behind the data, in the allocation and past it; `missing` counts the elements of
      the frame that come from there.
     */
    method GetAudioFrameWithInfo(rateHz: int, memory: Memory)
      returns (info: AudioFrameInfo, frame: seq<Int16>, missing: nat)
      requires Valid() && forall k | size <= k < data.Length :: memory(k) == data[k]
      modifies this, data
      ensures Valid() && data == old(data)
      ensures var r := Pull(config, old(Contents()), memory, rateHz);
              && info == r.info && frame == r.frame && missing == r.missing
              && Contents() == old(Contents())[|r.removed|..]
    {
      if rateHz != config.rate {
        return Error, [], 0;
      }
      var n := config.Elements();
      if size < n {
        return Muted, [], 0;
      }
      var copied := config.Copied();
      missing := if copied <= size then 0 else copied - size;
      frame := UpdateFrame(copied, memory);
      ShiftLeft(n);
      size := size - n;
      info := Normal;
    }

    /** The copy into the frame, which goes by its length and not by the size of the buffer. */
    method UpdateFrame(length: nat, memory: Memory) returns (frame: seq<Int16>)
      requires Valid() && forall k | size <= k < data.Length :: memory(k) == data[k]
      ensures frame == Copy(Contents(), memory, length)
    {
      frame := [];
      while |frame| < length
        invariant |frame| <= length && frame == Copy(Contents(), memory, length)[..|frame|]
      {
        var k := |frame|;
        frame := frame + [if k < data.Length then data[k] else memory(k)];
      }
    }
  }
}
