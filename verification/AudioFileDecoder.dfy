/**
  The pump between a demuxer, a decoder and a sample FIFO, as a function on its state, for
  every file and every codec that keeps libavcodec's send/receive contract.
 */
module DecoderPump {
  import opened Sequences

  /** One sample of every channel. */
  type Sample = seq<int>

  type Frame = seq<Sample>

  datatype Packet = Packet(streamIndex: int, data: seq<int>)

  /** What avcodec_send_packet returns: 0, AVERROR(EAGAIN), AVERROR_EOF or any other error. */
  datatype SendResult = Accepted | Again | Eof | Failed

  /**
    A codec is a strict state machine: what it does depends only on the packets it has accepted
    and the number of frames it has given out. `frames` are all frames it can give out for the
    packets accepted so far without being flushed; receiving fails only when all are out.
   */
  datatype Codec = Codec(
    frames: seq<Packet> -> seq<Frame>,
    send: (seq<Packet>, nat, Packet) -> SendResult)

  /**
    Accepting a packet never takes back a frame; send says EAGAIN only if receive would not; and
    end of file is reported only after a flush, which nobody here sends.
   */
  ghost predicate KeepsContract(c: Codec) {
    && (forall sent, p :: c.frames(sent) <= c.frames(sent + [p]))
    && (forall sent, n: nat, p :: c.send(sent, n, p) == Again ==> n < |c.frames(sent)|)
    && (forall sent, n: nat, p :: c.send(sent, n, p) != Eof)
  }

  /** What one AudioFileDecoder is opened on. */
  datatype Media = Media(codec: Codec, file: seq<Packet>, streamNo: int, capacity: nat)

  datatype Pump = Pump(
    pos: nat,               // packets read from the file
    packet: Packet,         // packet_
    packetConsumed: bool,   // packet_consumed_
    sent: seq<Packet>,      // packets the codec has accepted
    released: nat,          // frames the codec has given out
    fifo: seq<Sample>,      // fifo_
    aborted: bool)          // RTC_CHECK(false) was reached

  const NO_PACKET := Packet(-1, [])

  const OPENED := Pump(0, NO_PACKET, true, [], 0, [], false)

  /** One iteration of the loop in FillDecoder; `more` is false where the loop breaks. */
  function Iterate(m: Media, s: Pump): (r: (Pump, bool))
    requires s.pos <= |m.file|
    ensures r.0.pos <= |m.file|
    ensures r.1 ==> Fuel(m, r.0) < Fuel(m, s)
    ensures s.aborted ==> r.0.aborted
  {
    if s.packetConsumed then
      if s.pos == |m.file| then
        (s, false)
      else
        var next := s.(pos := s.pos + 1, packet := m.file[s.pos]);
        if next.packet.streamIndex != m.streamNo then
          (next, true)
        else
          Send(m, next.(packetConsumed := false))
    else
      Send(m, s)
  }

  function Send(m: Media, s: Pump): (r: (Pump, bool)) {
    match m.codec.send(s.sent, s.released, s.packet)
    case Accepted => (s.(sent := s.sent + [s.packet], packetConsumed := true), true)
    case Again => (s, false)
    case Eof => (s, false)
    case Failed => (s.(aborted := true), false)
  }

  /** What is left to do before FillDecoder must stop. */
  function Fuel(m: Media, s: Pump): nat
    requires s.pos <= |m.file|
  {
    2 * (|m.file| - s.pos) + if s.packetConsumed then 0 else 1
  }

  function FillDecoder(m: Media, s: Pump): (r: Pump)
    requires s.pos <= |m.file|
    ensures r.pos <= |m.file| && (s.aborted ==> r.aborted)
    decreases Fuel(m, s)
  {
    var (s', more) := Iterate(m, s);
    if more then FillDecoder(m, s') else s'
  }

  /** One iteration of the loop in FillFifo: receive a frame and write it to the FIFO. */
  function WriteFrame(m: Media, s: Pump): (r: Pump)
    requires s.released < |m.codec.frames(s.sent)|
  {
    s.(fifo := s.fifo + m.codec.frames(s.sent)[s.released], released := s.released + 1)
  }

  function FillFifo(m: Media, s: Pump): (r: Pump)
    ensures r.pos == s.pos && r.aborted == s.aborted
    decreases |m.codec.frames(s.sent)| - s.released
  {
    if |s.fifo| < m.capacity && s.released < |m.codec.frames(s.sent)| then
      FillFifo(m, WriteFrame(m, s))
    else
      s
  }

  /** Consume: at most `samples` samples, taken from the FIFO after topping everything up. */
  function Consume(m: Media, s: Pump, samples: nat): (r: (Pump, seq<Sample>))
    requires s.pos <= |m.file|
    ensures r.0.pos <= |m.file| && r.0.aborted == FillDecoder(m, s).aborted
    ensures |r.1| <= samples
  {
    var filled := FillDecoder(m, s);
    if filled.aborted then (filled, []) else
    var full := FillFifo(m, filled);
    var n := if |full.fifo| < samples then |full.fifo| else samples;
    (full.(fifo := full.fifo[n..]), full.fifo[..n])
  }

  // Bookkeeping.

  /** The packets of the chosen stream, in file order. */
  function Chosen(file: seq<Packet>, streamNo: int): (packets: seq<Packet>)
    ensures forall k | 0 <= k < |packets| :: packets[k].streamIndex == streamNo
  {
    if file == [] then []
    else
      var last := file[|file| - 1];
      Chosen(file[..|file| - 1], streamNo) + if last.streamIndex == streamNo then [last] else []
  }

  /** Exactly the packets of the stream are chosen, one by one. */
  lemma ChosenIsAll(file: seq<Packet>, streamNo: int, k: nat)
    requires k < |file|
    ensures Chosen(file[..0], streamNo) == []
    ensures Chosen(file[..k + 1], streamNo) ==
            Chosen(file[..k], streamNo) + if file[k].streamIndex == streamNo then [file[k]] else []
  {
    assert file[..k + 1][..k] == file[..k];
  }

  /**
    Every packet of the chosen stream read so far was accepted exactly once and in file order,
    but for a refused one, which is kept and is the next to be offered.
   */
  ghost predicate InOrder(m: Media, s: Pump) {
    && s.pos <= |m.file|
    && s.sent + (if s.packetConsumed then [] else [s.packet]) == Chosen(m.file[..s.pos], m.streamNo)
  }

  /** `consumed` and the FIFO are exactly what the codec has given out. */
  ghost predicate Accounts(m: Media, s: Pump, consumed: seq<Sample>) {
    && s.released <= |m.codec.frames(s.sent)|
    && consumed + s.fifo == Flat(m.codec.frames(s.sent)[..s.released])
  }

  ghost predicate Ok(m: Media, s: Pump, consumed: seq<Sample>) {
    InOrder(m, s) && Accounts(m, s, consumed)
  }

  lemma FramesGrow(c: Codec, sent: seq<Packet>, p: Packet)
    requires KeepsContract(c)
    ensures c.frames(sent) <= c.frames(sent + [p])
  {
  }

  lemma SendKeepsOk(m: Media, s: Pump, consumed: seq<Sample>)
    requires KeepsContract(m.codec) && Ok(m, s, consumed) && !s.packetConsumed
    ensures Ok(m, Send(m, s).0, consumed)
  {
    FramesGrow(m.codec, s.sent, s.packet);
    var old', new' := m.codec.frames(s.sent), m.codec.frames(s.sent + [s.packet]);
    assert old'[..s.released] == new'[..s.released];
  }

  lemma IterateKeepsOk(m: Media, s: Pump, consumed: seq<Sample>)
    requires KeepsContract(m.codec) && Ok(m, s, consumed)
    ensures Ok(m, Iterate(m, s).0, consumed)
  {
    if s.packetConsumed && s.pos < |m.file| {
      var next := s.(pos := s.pos + 1, packet := m.file[s.pos]);
      var upTo := m.file[..next.pos];
      assert upTo[..|upTo| - 1] == m.file[..s.pos] && upTo[|upTo| - 1] == next.packet;
      if next.packet.streamIndex == m.streamNo {
        SendKeepsOk(m, next.(packetConsumed := false), consumed);
      }
    } else if !s.packetConsumed {
      SendKeepsOk(m, s, consumed);
    }
  }

  /** Where FillDecoder stops: at the end of the file, at a refusal, or at a fatal error. */
  ghost predicate Stuck(m: Media, s: Pump) {
    || s.aborted
    || (s.packetConsumed && s.pos == |m.file|)
    || (!s.packetConsumed && s.released < |m.codec.frames(s.sent)|)
  }

  lemma {:induction false} FillDecoderKeepsOk(m: Media, s: Pump, consumed: seq<Sample>)
    requires KeepsContract(m.codec) && Ok(m, s, consumed)
    ensures Ok(m, FillDecoder(m, s), consumed)
    decreases Fuel(m, s)
  {
    hide Ok, KeepsContract, Iterate, Fuel;
    InFile(m, s, consumed);
    IterateKeepsOk(m, s, consumed);
    var (s', more) := Iterate(m, s);
    if more {
      FillDecoderKeepsOk(m, s', consumed);
    }
  }

  lemma InFile(m: Media, s: Pump, consumed: seq<Sample>)
    requires Ok(m, s, consumed)
    ensures s.pos <= |m.file| && s.released <= |m.codec.frames(s.sent)|
  {
  }

  /** FillDecoder stops for one of three reasons, and leaves the FIFO and the frames alone. */
  lemma {:induction false} FillDecoderStops(m: Media, s: Pump)
    requires KeepsContract(m.codec) && s.pos <= |m.file|
    ensures var r := FillDecoder(m, s); Stuck(m, r) && r.fifo == s.fifo && r.released == s.released
    decreases Fuel(m, s)
  {
    hide KeepsContract, Iterate, Fuel, Stuck;
    IterateStops(m, s);
    var (s', more) := Iterate(m, s);
    if more {
      FillDecoderStops(m, s');
    }
  }

  lemma IterateStops(m: Media, s: Pump)
    requires KeepsContract(m.codec) && s.pos <= |m.file|
    ensures var (s', more) := Iterate(m, s);
            (more || Stuck(m, s')) && s'.fifo == s.fifo && s'.released == s.released
  {
  }

  lemma WriteKeepsOk(m: Media, s: Pump, consumed: seq<Sample>)
    requires Ok(m, s, consumed) && s.released < |m.codec.frames(s.sent)|
    ensures Ok(m, WriteFrame(m, s), consumed)
  {
    var frames := m.codec.frames(s.sent);
    FlatPrefix(frames, s.released);
    assert consumed + (s.fifo + frames[s.released]) == consumed + s.fifo + frames[s.released];
  }

  lemma {:induction false} FillFifoKeepsOk(m: Media, s: Pump, consumed: seq<Sample>)
    requires Ok(m, s, consumed)
    ensures Ok(m, FillFifo(m, s), consumed)
    decreases |m.codec.frames(s.sent)| - s.released
  {
    hide Ok;
    if |s.fifo| < m.capacity && s.released < |m.codec.frames(s.sent)| {
      WriteKeepsOk(m, s, consumed);
      FillFifoKeepsOk(m, WriteFrame(m, s), consumed);
    }
  }

  /** FillFifo stops when the FIFO is full or the codec has no more, and touches nothing else. */
  lemma {:induction false} FillFifoStops(m: Media, s: Pump)
    requires s.released <= |m.codec.frames(s.sent)|
    ensures var r := FillFifo(m, s);
            && r == s.(fifo := r.fifo, released := r.released)
            && s.released <= r.released <= |m.codec.frames(s.sent)|
            && (|r.fifo| >= m.capacity || r.released == |m.codec.frames(s.sent)|)
            && (s.released < r.released ==> |r.fifo| >= |m.codec.frames(s.sent)[r.released - 1]|)
    decreases |m.codec.frames(s.sent)| - s.released
  {
    if |s.fifo| < m.capacity && s.released < |m.codec.frames(s.sent)| {
      FillFifoStops(m, WriteFrame(m, s));
    }
  }

  lemma TakeKeepsOk(m: Media, s: Pump, consumed: seq<Sample>, n: nat)
    requires Ok(m, s, consumed) && n <= |s.fifo|
    ensures Ok(m, s.(fifo := s.fifo[n..]), consumed + s.fifo[..n])
  {
    assert s.fifo[..n] + s.fifo[n..] == s.fifo;
    assert consumed + s.fifo[..n] + s.fifo[n..] == consumed + s.fifo;
  }

  /** One pull: packets stay in order and no sample is lost, repeated or reordered. */
  lemma ConsumeKeepsOk(m: Media, s: Pump, consumed: seq<Sample>, samples: nat)
    requires KeepsContract(m.codec) && Ok(m, s, consumed)
    ensures var (s', out) := Consume(m, s, samples);
            Ok(m, s', consumed + out)
  {
    hide FillDecoder, FillFifo, Ok, KeepsContract;
    InFile(m, s, consumed);
    FillDecoderKeepsOk(m, s, consumed);
    var filled := FillDecoder(m, s);
    if filled.aborted {
      assert consumed + [] == consumed;
    } else {
      FillFifoKeepsOk(m, filled, consumed);
      TakeKeepsOk(m, FillFifo(m, filled), consumed, |Consume(m, s, samples).1|);
    }
  }

  // What is sent and what ends the program, for any codec at all.

  /**
    FillDecoder from s: every packet it got rid of was accepted when offered, in the order sent;
    then the file was at its end, or the codec refused the packet still at hand, or it failed on
    that packet, and only then the program ends.
   */
  lemma {:induction false} FillDecoderSends(m: Media, s: Pump)
    requires s.pos <= |m.file| && !s.aborted
    ensures var r := FillDecoder(m, s);
            var answer := m.codec.send(r.sent, s.released, r.packet);
            && s.sent <= r.sent && r.released == s.released
            && (forall k | |s.sent| <= k < |r.sent| :: m.codec.send(r.sent[..k], s.released, r.sent[k]) == Accepted)
            && (if r.packetConsumed then r.pos == |m.file| else answer != Accepted)
            && (r.aborted <==> !r.packetConsumed && answer == Failed)
    decreases Fuel(m, s)
  {
    hide FillDecoder, Fuel;
    IterateSends(m, s);
    FillDecoderUnfolds(m, s);
    var (s', more) := Iterate(m, s);
    if more {
      FillDecoderSends(m, s');
      var r := FillDecoder(m, s');
      forall k | |s.sent| <= k < |r.sent| ensures m.codec.send(r.sent[..k], s.released, r.sent[k]) == Accepted {
        if k < |s'.sent| {
          assert r.sent[..k] == s'.sent[..k] && r.sent[k] == s'.sent[k];
        }
      }
    }
  }

  lemma FillDecoderUnfolds(m: Media, s: Pump)
    requires s.pos <= |m.file|
    ensures var (s', more) := Iterate(m, s);
            FillDecoder(m, s) == (if more then FillDecoder(m, s') else s') && (more ==> Fuel(m, s') < Fuel(m, s))
  {
  }

  lemma IterateSends(m: Media, s: Pump)
    requires s.pos <= |m.file| && !s.aborted
    ensures var (s', more) := Iterate(m, s);
            var answer := m.codec.send(s.sent, s.released, s'.packet);
            && s'.released == s.released
            && (s'.sent == s.sent || (s'.sent == s.sent + [s'.packet] && answer == Accepted))
            && (more ==> !s'.aborted)
            && (!more ==> s'.sent == s.sent && (if s'.packetConsumed then s'.pos == |m.file| else answer != Accepted))
            && (!more ==> (s'.aborted <==> !s'.packetConsumed && answer == Failed))
  {
  }

  // Whole runs: the constructor, then one Consume per request.

  function Run(m: Media, requests: seq<nat>): (r: (Pump, seq<seq<Sample>>))
    ensures r.0.pos <= |m.file|
  {
    if requests == [] then
      (FillDecoder(m, OPENED), [])
    else
      var last := |requests| - 1;
      var (s, outs) := Run(m, requests[..last]);
      if s.aborted then
        (s, outs)
      else
        var (s', out) := Consume(m, s, requests[last]);
        (s', outs + [out])
  }

  /** The decoder as call number i, or the constructor for i = 0, has filled it. */
  function FilledBy(m: Media, requests: seq<nat>, i: nat): (s: Pump)
    requires i <= |requests|
    ensures s.pos <= |m.file|
  {
    if i == 0 then FillDecoder(m, OPENED) else FillDecoder(m, Run(m, requests[..i - 1]).0)
  }

  /** The codec fails on the packet it is last offered by call number i. */
  ghost predicate FailsIn(m: Media, requests: seq<nat>, i: nat)
    requires i <= |requests|
  {
    var s := FilledBy(m, requests, i);
    !s.packetConsumed && m.codec.send(s.sent, s.released, s.packet) == Failed
  }

  /** A run ends the program if and only if the codec failed on a packet it was offered. */
  lemma {:induction false} RunAbortsIff(m: Media, requests: seq<nat>)
    ensures Run(m, requests).0.aborted <==> exists i :: 0 <= i <= |requests| && FailsIn(m, requests, i)
  {
    hide FillDecoder, FillFifo;
    if requests == [] {
      FillDecoderSends(m, OPENED);
      assert FailsIn(m, requests, 0) <==> FillDecoder(m, OPENED).aborted;
    } else {
      var n := |requests| - 1;
      var before := requests[..n];
      RunAbortsIff(m, before);
      forall i | 0 <= i <= n ensures FailsIn(m, before, i) <==> FailsIn(m, requests, i) {
        assert i > 0 ==> before[..i - 1] == requests[..i - 1];
      }
      var s := Run(m, before).0;
      if s.aborted {
        var i :| 0 <= i <= n && FailsIn(m, before, i);
        assert FailsIn(m, requests, i);
      } else {
        FillDecoderSends(m, s);
        assert FailsIn(m, requests, n + 1) <==> FillDecoder(m, s).aborted;
      }
    }
  }

  lemma {:induction false} RunIsOk(m: Media, requests: seq<nat>)
    requires KeepsContract(m.codec)
    ensures var (s, outs) := Run(m, requests); Ok(m, s, Flat(outs))
  {
    if requests == [] {
      FillDecoderKeepsOk(m, OPENED, []);
    } else {
      var last := |requests| - 1;
      RunIsOk(m, requests[..last]);
      var (s, outs) := Run(m, requests[..last]);
      if !s.aborted {
        ConsumeKeepsOk(m, s, Flat(outs), requests[last]);
        FlatAppend(outs, Consume(m, s, requests[last]).1);
      }
    }
  }

  /**
    Between any two calls of every run: what was consumed, then the FIFO, then what the codec has yet
    to give out, is the decoding of the packets sent; and these are the packets of the chosen
    stream in file order, each accepted once, save a refused one that is next.
   */
  lemma NothingIsLost(m: Media, requests: seq<nat>)
    requires KeepsContract(m.codec)
    ensures var (s, outs) := Run(m, requests);
            && InOrder(m, s)
            && s.released <= |m.codec.frames(s.sent)|
            && Flat(outs) + s.fifo + Flat(m.codec.frames(s.sent)[s.released..]) == Flat(m.codec.frames(s.sent))
  {
    RunIsOk(m, requests);
    var s := Run(m, requests).0;
    FlatSplit(m.codec.frames(s.sent), s.released);
  }

  /** No packet of another stream is ever sent. */
  lemma OnlyChosenStream(m: Media, requests: seq<nat>, k: nat)
    requires KeepsContract(m.codec) && k < |Run(m, requests).0.sent|
    ensures Run(m, requests).0.sent[k].streamIndex == m.streamNo
  {
    NothingIsLost(m, requests);
    var s := Run(m, requests).0;
    assert s.sent[k] == Chosen(m.file[..s.pos], m.streamNo)[k];
  }

  ghost predicate FramesAtMost(c: Codec, max: nat) {
    forall sent, k | 0 <= k < |c.frames(sent)| :: |c.frames(sent)[k]| <= max
  }

  lemma {:induction false} FillFifoBound(m: Media, s: Pump, max: nat)
    requires FramesAtMost(m.codec, max) && m.capacity > 0
    requires |s.fifo| <= m.capacity - 1 + max
    ensures |FillFifo(m, s).fifo| <= m.capacity - 1 + max
    decreases |m.codec.frames(s.sent)| - s.released
  {
    var frames := m.codec.frames(s.sent);
    if |s.fifo| < m.capacity && s.released < |frames| {
      FillFifoBound(m, WriteFrame(m, s), max);
    }
  }

  /** The FIFO never holds more than one frame beyond its capacity. */
  lemma {:induction false} FifoBound(m: Media, requests: seq<nat>, max: nat)
    requires KeepsContract(m.codec) && FramesAtMost(m.codec, max) && m.capacity > 0
    ensures |Run(m, requests).0.fifo| <= m.capacity - 1 + max
  {
    hide FillDecoder, FillFifo;
    if requests == [] {
      FillDecoderStops(m, OPENED);
    } else {
      var before := requests[..|requests| - 1];
      FifoBound(m, before, max);
      var s := Run(m, before).0;
      FillDecoderStops(m, s);
      FillFifoBound(m, FillDecoder(m, s), max);
    }
  }

  // No early end of file.

  /** All frames of the file that the codec can give out without a flush. */
  function AllFrames(m: Media): (frames: seq<Frame>) {
    m.codec.frames(Chosen(m.file, m.streamNo))
  }

  lemma {:induction false} FramesMonotone(c: Codec, a: seq<Packet>, b: seq<Packet>)
    requires KeepsContract(c) && a <= b
    ensures c.frames(a) <= c.frames(b)
    decreases |b|
  {
    if a != b {
      var c' := b[..|b| - 1];
      FramesMonotone(c, a, c');
      FramesGrow(c, c', b[|b| - 1]);
      assert b == c' + [b[|b| - 1]];
    }
  }

  lemma {:induction false} ChosenMonotone(file: seq<Packet>, streamNo: int, pos: nat)
    requires pos <= |file|
    ensures Chosen(file[..pos], streamNo) <= Chosen(file, streamNo)
    decreases |file|
  {
    if pos < |file| {
      var shorter := file[..|file| - 1];
      ChosenMonotone(shorter, streamNo, pos);
      assert shorter[..pos] == file[..pos];
    } else {
      assert file[..pos] == file;
    }
  }

  lemma SentIsPrefix(m: Media, s: Pump)
    requires KeepsContract(m.codec) && InOrder(m, s)
    ensures m.codec.frames(s.sent) <= AllFrames(m)
    ensures s.packetConsumed && s.pos == |m.file| ==> m.codec.frames(s.sent) == AllFrames(m)
  {
    ChosenMonotone(m.file, m.streamNo, s.pos);
    FramesMonotone(m.codec, s.sent, Chosen(m.file, m.streamNo));
    if s.pos == |m.file| {
      assert m.file[..s.pos] == m.file && s.sent + [] == s.sent;
    }
  }

  /** Every frame but the last has at least n samples. */
  ghost predicate FramesAtLeast(frames: seq<Frame>, n: nat) {
    forall k | 0 <= k < |frames| - 1 :: |frames[k]| >= n
  }

  /** When the FIFO runs short after topping up, nothing is left anywhere. */
  lemma ShortMeansEnd(m: Media, filled: Pump, consumed: seq<Sample>, n: nat)
    requires KeepsContract(m.codec) && Ok(m, filled, consumed) && Stuck(m, filled) && !filled.aborted
    requires n <= m.capacity && FramesAtLeast(AllFrames(m), n)
    requires |FillFifo(m, filled).fifo| < n
    ensures FillFifo(m, filled).released == |AllFrames(m)|
    ensures m.codec.frames(filled.sent) == AllFrames(m)
  {
    hide FillFifo;
    SentIsPrefix(m, filled);
    FillFifoStops(m, filled);
    var full, frames := FillFifo(m, filled), m.codec.frames(filled.sent);
    assert full.released == |frames|;
    if !filled.packetConsumed {
      assert frames[full.released - 1] == AllFrames(m)[full.released - 1];
      assert |frames| == |AllFrames(m)|;
    }
  }

  function Min(a: int, b: int): int {
    if a < b then a else b
  }

  /** Samples that the packets sent so far decode to. */
  function Decodable(m: Media, s: Pump): nat {
    |Flat(m.codec.frames(s.sent))|
  }

  /** What has been consumed is the beginning of the decoded file. */
  lemma ConsumedIsPrefix(m: Media, s: Pump, consumed: seq<Sample>)
    requires KeepsContract(m.codec) && Ok(m, s, consumed)
    ensures consumed + s.fifo <= Flat(AllFrames(m))
    ensures |consumed + s.fifo| <= Decodable(m, s) <= |Flat(AllFrames(m))|
  {
    var frames, all := m.codec.frames(s.sent), AllFrames(m);
    SentIsPrefix(m, s);
    FlatSplit(frames, s.released);
    FlatSplit(all, s.released);
    FlatSplit(all, |frames|);
    assert frames[..s.released] == all[..s.released] && all[..|frames|] == frames;
  }

  /**
    How much a pull yields, with no assumption on frame sizes: n samples, or all that the
    packets accepted by then decode to and nobody has taken yet.
   */
  lemma ConsumeYields(m: Media, s: Pump, consumed: seq<Sample>, n: nat)
    requires KeepsContract(m.codec) && Ok(m, s, consumed) && n <= m.capacity
    requires !FillDecoder(m, s).aborted
    ensures |Consume(m, s, n).1| == Min(n, Decodable(m, FillDecoder(m, s)) - |consumed|)
  {
    hide FillDecoder, FillFifo, KeepsContract;
    var filled := FillDecoder(m, s);
    FillDecoderKeepsOk(m, s, consumed);
    FillFifoKeepsOk(m, filled, consumed);
    FillFifoStops(m, filled);
    var full, frames := FillFifo(m, filled), m.codec.frames(filled.sent);
    assert |consumed + full.fifo| == |Flat(frames[..full.released])|;
    FlatSplit(frames, full.released);
    if full.released == |frames| {
      assert frames[full.released..] == [];
    }
  }

  /** With long enough frames a pull stops short only where the decoded file ends. */
  lemma AllDecodable(m: Media, s: Pump, consumed: seq<Sample>, n: nat)
    requires KeepsContract(m.codec) && Ok(m, s, consumed) && n <= m.capacity
    requires !FillDecoder(m, s).aborted && FramesAtLeast(AllFrames(m), n)
    ensures var all, decodable := |Flat(AllFrames(m))|, Decodable(m, FillDecoder(m, s));
            decodable == all || decodable >= |consumed| + n
  {
    hide FillDecoder, FillFifo, FramesAtLeast;
    var filled := FillDecoder(m, s);
    FillDecoderKeepsOk(m, s, consumed);
    FillDecoderStops(m, s);
    var full := FillFifo(m, filled);
    FillFifoStops(m, filled);
    FillFifoKeepsOk(m, filled, consumed);
    ConsumedIsPrefix(m, full, consumed);
    if |full.fifo| < n {
      ShortMeansEnd(m, filled, consumed, n);
    }
  }

  /** A pull of n samples falls short only when fewer than n samples of the file are left. */
  lemma ConsumeIsExact(m: Media, s: Pump, consumed: seq<Sample>, n: nat)
    requires KeepsContract(m.codec) && Ok(m, s, consumed) && !Consume(m, s, n).0.aborted
    requires n <= m.capacity && FramesAtLeast(AllFrames(m), n)
    ensures var (s', out) := Consume(m, s, n);
            var all := Flat(AllFrames(m));
            && Ok(m, s', consumed + out)
            && consumed + out <= all
            && |out| == Min(n, |all| - |consumed|)
  {
    hide Consume, FillDecoder, Ok, KeepsContract, FramesAtLeast;
    InFile(m, s, consumed);
    ConsumeKeepsOk(m, s, consumed, n);
    var (s', out) := Consume(m, s, n);
    ConsumedIsPrefix(m, s', consumed + out);
    ConsumeYields(m, s, consumed, n);
    AllDecodable(m, s, consumed, n);
    FillDecoderKeepsOk(m, s, consumed);
    ConsumedIsPrefix(m, FillDecoder(m, s), consumed);
  }

  /** One-sample frames from a codec that holds one frame at a time. */
  const ONE_AT_A_TIME := Codec(
    (sent: seq<Packet>) => seq(|sent|, (_: nat) => [[0]]),
    (sent: seq<Packet>, n: nat, p: Packet) => if n < |sent| then Again else Accepted)

  const AUDIO := Packet(0, [])

  const TWO_SAMPLES := Media(ONE_AT_A_TIME, [AUDIO, AUDIO], 0, 100)

  /** Two samples in the file, yet the first pull of two samples yields one. */
  lemma EarlyEnd()
    ensures KeepsContract(TWO_SAMPLES.codec) && !Run(TWO_SAMPLES, [2]).0.aborted
    ensures |Flat(AllFrames(TWO_SAMPLES))| == 2 && Run(TWO_SAMPLES, [2]).1 == [[[0]]]
  {
    TwoSamplesInFile();
    OpenedOnTwoSamples();
    FirstPull();
    assert [2][..0] == [];
    assert Run(TWO_SAMPLES, []) == (AFTER_OPENING, []);
  }

  /** One packet accepted, the second refused and kept. */
  const AFTER_OPENING := Pump(2, AUDIO, false, [AUDIO], 0, [], false)

  lemma FirstPull()
    ensures var (s, out) := Consume(TWO_SAMPLES, AFTER_OPENING, 2); !s.aborted && out == [[0]]
  {
    assert TWO_SAMPLES.codec.frames([AUDIO]) == [[[0]]];
    assert FillDecoder(TWO_SAMPLES, AFTER_OPENING) == AFTER_OPENING;
    assert [] + [[0]] == [[0]];
    assert FillFifo(TWO_SAMPLES, AFTER_OPENING) == AFTER_OPENING.(fifo := [[0]], released := 1);
  }

  lemma TwoSamplesInFile()
    ensures |Flat(AllFrames(TWO_SAMPLES))| == 2
  {
    var file := [AUDIO, AUDIO];
    assert file[..1] == [AUDIO] && [AUDIO][..0] == [];
    assert Chosen([AUDIO], 0) == [AUDIO] && Chosen(file, 0) == file;
    var frames := AllFrames(TWO_SAMPLES);
    assert frames == [[[0]], [[0]]];
    assert Flat(frames[1..]) == [[0]] + Flat([]);
  }

  lemma OpenedOnTwoSamples()
    ensures FillDecoder(TWO_SAMPLES, OPENED) == AFTER_OPENING
  {
    assert [] + [AUDIO] == [AUDIO];
    var read := OPENED.(pos := 1, packet := AUDIO, sent := [AUDIO]);
    assert Iterate(TWO_SAMPLES, OPENED) == (read, true);
    assert Iterate(TWO_SAMPLES, read) == (AFTER_OPENING, false);
  }
}

/** AudioFileDecoder as code: the loops over the codec, the demuxer and the FIFO. */
module AudioFileDecoder {
  import opened DecoderPump

  class AudioFileDecoder {
    const media: Media
    const channels: nat
    var pos: nat
    var packet: Packet
    var packetConsumed: bool
    var sent: seq<Packet>
    var released: nat
    var fifo: seq<Sample>
    var aborted: bool

    ghost function State(): Pump
      reads this
    {
      Pump(pos, packet, packetConsumed, sent, released, fifo, aborted)
    }

    ghost predicate Valid()
      reads this
    {
      pos <= |media.file|
    }

    constructor (media: Media, channels: nat)
      ensures Valid() && this.media == media && this.channels == channels
      ensures State() == DecoderPump.FillDecoder(media, OPENED)
    {
      this.media, this.channels := media, channels;
      pos, packet, packetConsumed, sent, released, fifo, aborted := 0, NO_PACKET, true, [], 0, [], false;
      new;
      FillDecoder();
    }

    method FillDecoder()
      requires Valid()
      modifies this
      ensures Valid() && State() == DecoderPump.FillDecoder(media, old(State()))
    {
      while true
        invariant Valid()
        invariant DecoderPump.FillDecoder(media, State()) == DecoderPump.FillDecoder(media, old(State()))
        decreases Fuel(media, State())
      {
        if packetConsumed {
          if pos == |media.file| {
            break;
          }
          packet, pos := media.file[pos], pos + 1;
          if packet.streamIndex != media.streamNo {
            continue;
          }
          packetConsumed := false;
        }
        var error := media.codec.send(sent, released, packet);
        if error == Accepted {
          sent := sent + [packet];
          packetConsumed := true;
          continue;
        }
        if error == Again || error == Eof {
          break;
        }
        aborted := true;
        break;
      }
    }

    method FillFifo()
      requires Valid()
      modifies this
      ensures Valid() && State() == DecoderPump.FillFifo(media, old(State()))
    {
      while |fifo| < media.capacity && released < |media.codec.frames(sent)|
        invariant Valid() && sent == old(sent)
        invariant DecoderPump.FillFifo(media, State()) == DecoderPump.FillFifo(media, old(State()))
        decreases |media.codec.frames(sent)| - released
      {
        fifo := fifo + media.codec.frames(sent)[released];
        released := released + 1;
      }
    }

    /** Returns the byte count, which assumes samples of two bytes whatever the format is. */
    method Consume(samples: nat) returns (bytes: int, buffer: seq<Sample>)
      requires Valid()
      modifies this
      ensures Valid() && (State(), buffer) == DecoderPump.Consume(media, old(State()), samples)
      ensures bytes == |buffer| * 2 * channels
    {
      FillDecoder();
      if aborted {
        return 0, [];
      }
      FillFifo();
      var target := if |fifo| < samples then |fifo| else samples;
      buffer, fifo := fifo[..target], fifo[target..];
      bytes := |buffer| * 2 * channels;
    }
  }
}
