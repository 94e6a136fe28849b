/** Which source objects the WebRTC mixer points to, and which the audio mixer keeps alive. */
module SourceRegistry {
  import opened FrameSizes

  type Int32 = x: int | -0x8000_0000 <= x < 0x8000_0000

  /** A MixerSource record; the volume and path play no part here. */
  datatype MixerSource = MixerSource(isRecord: bool, ssrc: Int32, rate: Int32, channels: Int32)

  /** A source object, by identity. */
  datatype Source = Source(id: nat, ssrc: Int32)

  datatype Output = Output(rate: Int32, channels: Int32)

  datatype Registry = Registry(
    sources: map<Int32, Source>,  // sources_: the objects kept alive
    registered: set<Source>,    // the pointers held by the WebRTC mixer
    made: nat,                  // source objects constructed so far
    aborted: bool)              // an RTC_CHECK failed

  const EMPTY := Registry(map[], {}, 0, false)

  /** The objects a map of shared pointers keeps alive. */
  function Owned(sources: map<Int32, Source>): set<Source> {
    set k | k in sources :: sources[k]
  }

  /** DoAddSource: construct the object and insert it, unless the ssrc is taken. */
  function DoAddSource(o: Output, s: Registry, spec: MixerSource): (r: (Registry, Source)) {
    var source := Source(s.made, spec.ssrc);
    if spec.isRecord && (spec.rate != o.rate || spec.channels != o.channels) then
      (s.(aborted := true), source)
    else
      (s.(sources := if spec.ssrc in s.sources then s.sources else s.sources[spec.ssrc := source],
          made := s.made + 1), source)
  }

  function AddSource(o: Output, s: Registry, spec: MixerSource): (r: Registry) {
    var (added, source) := DoAddSource(o, s, spec);
    if added.aborted then added else added.(registered := s.registered + {source})
  }

  function RemoveSource(s: Registry, ssrc: Int32): (r: Registry) {
    if ssrc in s.sources then
      s.(sources := s.sources - {ssrc}, registered := s.registered - {s.sources[ssrc]})
    else
      s
  }

  /** The loop of the constructor over the configured sources. */
  function InsertAll(o: Output, specs: seq<MixerSource>): (r: Registry) {
    if specs == [] then EMPTY else
    var s := InsertAll(o, specs[..|specs| - 1]);
    if s.aborted then s else DoAddSource(o, s, specs[|specs| - 1]).0
  }

  /** The constructor: insert all sources, then register what was kept. */
  function Open(o: Output, specs: seq<MixerSource>): (r: Registry) {
    var s := InsertAll(o, specs);
    if s.aborted then s else s.(registered := Owned(s.sources))
  }

  /** The destructor: unregister and drop every source. */
  function Close(s: Registry): (r: Registry) {
    s.(registered := s.registered - Owned(s.sources), sources := map[])
  }

  datatype Call = Add(spec: MixerSource) | Remove(ssrc: Int32)

  function Run(o: Output, specs: seq<MixerSource>, calls: seq<Call>): (r: Registry) {
    if calls == [] then Open(o, specs) else
    var s := Run(o, specs, calls[..|calls| - 1]);
    if s.aborted then s else
    match calls[|calls| - 1]
    case Add(spec) => AddSource(o, s, spec)
    case Remove(ssrc) => RemoveSource(s, ssrc)
  }

  /** Every AddSource of the run got an ssrc that was not present. */
  ghost predicate AllFresh(o: Output, specs: seq<MixerSource>, calls: seq<Call>) {
    forall i | 0 <= i < |calls| && calls[i].Add? :: calls[i].spec.ssrc !in Run(o, specs, calls[..i]).sources
  }

  /** The mixer points to exactly the objects that are kept, each under its own ssrc. */
  ghost predicate Exact(s: Registry) {
    && s.registered == Owned(s.sources)
    && forall k | k in s.sources :: s.sources[k].ssrc == k
  }

  /** Identities handed out are below `made`. */
  ghost predicate Numbered(s: Registry) {
    && (forall k | k in s.sources :: s.sources[k].id < s.made && s.sources[k].ssrc == k)
    && (forall x | x in s.registered :: x.id < s.made)
  }

  /** The mixer holds a pointer to an object that nothing keeps alive. */
  ghost predicate Dangles(s: Registry) {
    exists x :: x in s.registered && x !in Owned(s.sources)
  }

  lemma {:induction false} InsertAllIsNumbered(o: Output, specs: seq<MixerSource>)
    ensures Numbered(InsertAll(o, specs)) && InsertAll(o, specs).registered == {}
  {
    if specs != [] {
      InsertAllIsNumbered(o, specs[..|specs| - 1]);
    }
  }

  /** The constructor is exact for every configuration, duplicate ssrcs included. */
  lemma OpenIsExact(o: Output, specs: seq<MixerSource>)
    ensures Numbered(Open(o, specs))
    ensures !Open(o, specs).aborted ==> Exact(Open(o, specs))
  {
    InsertAllIsNumbered(o, specs);
  }

  lemma AddFresh(o: Output, s: Registry, spec: MixerSource)
    requires Exact(s) && Numbered(s) && !s.aborted && spec.ssrc !in s.sources
    ensures var s' := AddSource(o, s, spec); Numbered(s') && (!s'.aborted ==> Exact(s'))
  {
    var s' := AddSource(o, s, spec);
    if !s'.aborted {
      var source := Source(s.made, spec.ssrc);
      assert s'.sources == s.sources[spec.ssrc := source];
      assert forall k | k in s.sources :: s'.sources[k] == s.sources[k];
      assert s'.sources[spec.ssrc] == source;
      assert Owned(s'.sources) == Owned(s.sources) + {source};
    }
  }

  /** A taken ssrc leaves the new object registered and owned by no one. */
  lemma AddTaken(o: Output, s: Registry, spec: MixerSource)
    requires Numbered(s) && !s.aborted && spec.ssrc in s.sources
    ensures var s' := AddSource(o, s, spec); Numbered(s') && (!s'.aborted ==> Dangles(s'))
  {
    var s' := AddSource(o, s, spec);
    if !s'.aborted {
      var source := Source(s.made, spec.ssrc);
      assert source in s'.registered && source !in Owned(s'.sources);
    }
  }

  lemma RemoveKeepsExact(s: Registry, ssrc: Int32)
    requires Exact(s) && Numbered(s)
    ensures Exact(RemoveSource(s, ssrc)) && Numbered(RemoveSource(s, ssrc))
  {
    var s' := RemoveSource(s, ssrc);
    if ssrc in s.sources {
      assert forall k | k in s'.sources :: s'.sources[k] == s.sources[k] && s'.sources[k].ssrc == k != ssrc;
      assert Owned(s'.sources) == Owned(s.sources) - {s.sources[ssrc]};
    }
  }

  /**
    Nothing the mixer can still be asked to do gets rid of a pointer to an object that is gone.
    Sources are told apart by identity here. Should a later source be put where that object was,
    the pointer is also one to the later source, and goes when the later source is removed.
   */
  lemma DanglingStays(o: Output, s: Registry, call: Call)
    requires Dangles(s) && Numbered(s) && !s.aborted
    ensures var s' := if call.Add? then AddSource(o, s, call.spec) else RemoveSource(s, call.ssrc);
            Dangles(s') && Numbered(s')
  {
    var s' := if call.Add? then AddSource(o, s, call.spec) else RemoveSource(s, call.ssrc);
    var x :| x in s.registered && x !in Owned(s.sources);
    assert x in s'.registered && x !in Owned(s'.sources);
  }

  lemma {:induction false} RunCases(o: Output, specs: seq<MixerSource>, calls: seq<Call>)
    requires !Run(o, specs, calls).aborted
    ensures var s := Run(o, specs, calls);
            Numbered(s) && if AllFresh(o, specs, calls) then Exact(s) else Dangles(s)
  {
    if calls == [] {
      OpenIsExact(o, specs);
    } else {
      var n := |calls| - 1;
      var before, s := calls[..n], Run(o, specs, calls[..n]);
      RunCases(o, specs, before);
      assert forall i | 0 <= i < n :: before[i] == calls[i] && before[..i] == calls[..i];
      if !AllFresh(o, specs, before) {
        DanglingStays(o, s, calls[n]);
      } else if calls[n].Remove? {
        RemoveKeepsExact(s, calls[n].ssrc);
      } else if calls[n].spec.ssrc in s.sources {
        AddTaken(o, s, calls[n].spec);
      } else {
        AddFresh(o, s, calls[n].spec);
      }
    }
  }

  /**
    Over every run: the registered sources are exactly the ones kept, each under its own ssrc,
    if and only if no AddSource was given an ssrc that was present; and destroying the mixer
    unregisters everything under that same condition.
   */
  lemma ExactIffFresh(o: Output, specs: seq<MixerSource>, calls: seq<Call>)
    requires !Run(o, specs, calls).aborted
    ensures Exact(Run(o, specs, calls)) <==> AllFresh(o, specs, calls)
    ensures Close(Run(o, specs, calls)).registered == {} <==> AllFresh(o, specs, calls)
  {
    RunCases(o, specs, calls);
    var s := Run(o, specs, calls);
    if Dangles(s) {
      var x :| x in s.registered && x !in Owned(s.sources);
      assert x in Close(s).registered;
    }
  }

  // What the calls so far say about who is kept.

  /** The configuration, as the calls it amounts to. */
  function Configured(specs: seq<MixerSource>): (calls: seq<Call>)
    ensures |calls| == |specs| && forall i | 0 <= i < |specs| :: calls[i] == Add(specs[i])
  {
    seq(|specs|, i requires 0 <= i < |specs| => Add(specs[i]))
  }

  /** Call f brings a source for the ssrc, and none after it removes the ssrc. */
  ghost predicate Provides(h: seq<Call>, ssrc: Int32, f: nat) {
    && f < |h| && h[f].Add? && h[f].spec.ssrc == ssrc
    && forall j | f < j < |h| :: h[j] != Remove(ssrc)
  }

  ghost predicate ProvidesFirst(h: seq<Call>, ssrc: Int32, f: nat) {
    Provides(h, ssrc, f) && forall i: nat | i < f :: !Provides(h, ssrc, i)
  }

  /** How many source objects the calls make. */
  function Made(h: seq<Call>): nat {
    if h == [] then 0 else Made(h[..|h| - 1]) + if h[|h| - 1].Add? then 1 else 0
  }

  /** The RTC_CHECKs on record sources. */
  predicate IsForeign(o: Output, call: Call) {
    call.Add? && call.spec.isRecord && (call.spec.rate != o.rate || call.spec.channels != o.channels)
  }

  datatype Provider = Nobody | CallNumber(f: nat)

  function ProviderOf(h: seq<Call>, ssrc: Int32): (p: Provider)
    ensures p.CallNumber? ==> p.f < |h|
  {
    if h == [] then Nobody else
    var p, last := ProviderOf(h[..|h| - 1], ssrc), h[|h| - 1];
    if last.Add? && last.spec.ssrc == ssrc && p.Nobody? then CallNumber(|h| - 1)
    else if last == Remove(ssrc) then Nobody
    else p
  }

  lemma ProvidesAfter(h: seq<Call>, ssrc: Int32, i: nat)
    requires h != []
    ensures var n := |h| - 1;
            Provides(h, ssrc, i) <==>
            h[n] != Remove(ssrc) && (Provides(h[..n], ssrc, i) || (i == n && h[n].Add? && h[n].spec.ssrc == ssrc))
  {
    var front := h[..|h| - 1];
    assert forall j | 0 <= j < |front| :: front[j] == h[j];
  }

  lemma {:induction false} ProviderIsFirst(h: seq<Call>, ssrc: Int32)
    ensures var p := ProviderOf(h, ssrc);
            if p.Nobody? then forall i: nat :: !Provides(h, ssrc, i) else ProvidesFirst(h, ssrc, p.f)
  {
    if h != [] {
      var front := h[..|h| - 1];
      ProviderIsFirst(front, ssrc);
      hide Provides;
      forall i: nat ensures Provides(h, ssrc, i) <==>
                              h[|front|] != Remove(ssrc) && (Provides(front, ssrc, i)
                              || (i == |front| && h[|front|].Add? && h[|front|].spec.ssrc == ssrc))
      {
        ProvidesAfter(h, ssrc, i);
      }
    }
  }

  /** One entry per provider, with the object that the provider made. */
  ghost predicate KeptBy(s: Registry, h: seq<Call>, ssrc: Int32) {
    var p := ProviderOf(h, ssrc);
    && s.made == Made(h) && (ssrc in s.sources <==> p.CallNumber?)
    && (p.CallNumber? ==> ssrc in s.sources && s.sources[ssrc] == Source(Made(h[..p.f]), ssrc))
  }

  lemma KeptAfter(o: Output, s: Registry, s': Registry, h: seq<Call>, ssrc: Int32)
    requires h != [] && KeptBy(s, h[..|h| - 1], ssrc) && !s'.aborted && s'.made == Made(h)
    requires var call := h[|h| - 1];
             s'.sources == if call.Add? then DoAddSource(o, s, call.spec).0.sources else RemoveSource(s, call.ssrc).sources
    requires h[|h| - 1].Add? ==> !DoAddSource(o, s, h[|h| - 1].spec).0.aborted
    ensures KeptBy(s', h, ssrc)
  {
    var front := h[..|h| - 1];
    var p := ProviderOf(front, ssrc);
    if p.CallNumber? {
      assert h[..p.f] == front[..p.f];
    }
  }

  lemma {:induction false} InsertAllKeeps(o: Output, specs: seq<MixerSource>, ssrc: Int32)
    requires !InsertAll(o, specs).aborted
    ensures KeptBy(InsertAll(o, specs), Configured(specs), ssrc)
  {
    if specs != [] {
      var shorter, h := specs[..|specs| - 1], Configured(specs);
      InsertAllKeeps(o, shorter, ssrc);
      assert h[..|h| - 1] == Configured(shorter);
      KeptAfter(o, InsertAll(o, shorter), InsertAll(o, specs), h, ssrc);
    }
  }

  lemma {:induction false} RunKeepsBy(o: Output, specs: seq<MixerSource>, calls: seq<Call>, ssrc: Int32)
    requires !Run(o, specs, calls).aborted
    ensures KeptBy(Run(o, specs, calls), Configured(specs) + calls, ssrc)
  {
    if calls == [] {
      InsertAllKeeps(o, specs, ssrc);
      assert Configured(specs) + [] == Configured(specs);
    } else {
      var before, h := calls[..|calls| - 1], Configured(specs) + calls;
      RunKeepsBy(o, specs, before, ssrc);
      assert h[..|h| - 1] == Configured(specs) + before;
      KeptAfter(o, Run(o, specs, before), Run(o, specs, calls), h, ssrc);
    }
  }

  /**
    Over every run: an ssrc is kept if and only if some source was configured or added for it and
    the ssrc has not been removed since, and what is kept is the object of the first such call.
   */
  lemma KeptIff(o: Output, specs: seq<MixerSource>, calls: seq<Call>, ssrc: Int32)
    requires !Run(o, specs, calls).aborted
    ensures var sources, h := Run(o, specs, calls).sources, Configured(specs) + calls;
            && (ssrc in sources <==> exists f: nat :: Provides(h, ssrc, f))
            && forall f: nat | ProvidesFirst(h, ssrc, f) ::
                 ssrc in sources && sources[ssrc] == Source(Made(h[..f]), ssrc)
  {
    hide Run, Made, Provides;
    RunKeepsBy(o, specs, calls, ssrc);
    var h := Configured(specs) + calls;
    ProviderIsFirst(h, ssrc);
    var p := ProviderOf(h, ssrc);
    forall f: nat | ProvidesFirst(h, ssrc, f) ensures p == CallNumber(f) {
      assert Provides(h, ssrc, f);
    }
  }

  lemma {:induction false} InsertAllAbortsIff(o: Output, specs: seq<MixerSource>)
    ensures InsertAll(o, specs).aborted
            <==> exists i :: 0 <= i < |specs| && IsForeign(o, Configured(specs)[i])
  {
    if specs != [] {
      var n := |specs| - 1;
      var shorter, all := Configured(specs[..n]), Configured(specs);
      InsertAllAbortsIff(o, specs[..n]);
      assert forall i | 0 <= i < n :: shorter[i] == all[i];
      assert IsForeign(o, all[n]) || !IsForeign(o, all[n]);
    }
  }

  /** The program ends if and only if a record source is brought with a foreign rate or channel count. */
  lemma {:induction false} RunAbortsIff(o: Output, specs: seq<MixerSource>, calls: seq<Call>)
    ensures var h := Configured(specs) + calls;
            Run(o, specs, calls).aborted <==> exists i :: 0 <= i < |h| && IsForeign(o, h[i])
  {
    var h := Configured(specs) + calls;
    if calls == [] {
      InsertAllAbortsIff(o, specs);
      assert h == Configured(specs);
    } else {
      var n := |h| - 1;
      var before := Configured(specs) + calls[..|calls| - 1];
      RunAbortsIff(o, specs, calls[..|calls| - 1]);
      assert forall i | 0 <= i < n :: before[i] == h[i];
      assert IsForeign(o, h[n]) || !IsForeign(o, h[n]);
    }
  }

  // Mix.

  const MAX_BUF_SIZE := 7680

  /** static_cast<size_t>. */
  function AsSize(x: int): (size: nat) {
    x % 0x1_0000_0000_0000_0000
  }

  /** What Mix returns. */
  function MixedSize(rate: nat, channels: nat, durationMs: nat): (size: int)
    requires 1 <= durationMs <= MIXER_FRAME_MS
  {
    BufferSize(channels, SamplesPerFrame(rate, durationMs), SAMPLE_SIZE)
  }

  /** Bytes of the frame that Mix has prepared. */
  function FrameBytes(rate: nat, channels: nat): nat {
    ReportedSamples(rate) * channels * SAMPLE_SIZE
  }

  /** No 32-bit rate and channel count gives rise to a frame that large. */
  lemma FrameBytesFit(rate: nat, channels: nat)
    requires rate < 0x8000_0000 && channels < 0x8000_0000
    ensures FrameBytes(rate, channels) < 0xFFFF_FFFF_FFFF_FFEA
  {
    Scale(ReportedSamples(rate), channels, 0x8000_0000);
  }

  lemma PublishedSizeFits(rate: nat, channels: nat)
    requires rate <= 48000 && channels <= 8
    ensures FrameBytes(rate, channels) <= 7680 == MAX_BUF_SIZE
  {
    Scale(channels, ReportedSamples(rate), 480);
  }

  /**
    A channel, at least one sample per frame, and a size in bytes that is an int; n is the number
    of samples per frame.
   */
  predicate CanMix(rate: nat, channels: nat, durationMs: nat, n: nat)
    requires 1 <= durationMs <= 10
  {
    channels > 0 && 1000 / durationMs <= rate && n * channels * 2 <= 0x7FFF_FFFF
  }

  /** n is the greatest number of samples that fit into a frame. */
  predicate IsFrameLength(rate: nat, durationMs: nat, n: nat)
    requires 1 <= durationMs <= 10
  {
    n * (1000 / durationMs) <= rate < (n + 1) * (1000 / durationMs)
  }

  lemma FrameLengthIs(rate: nat, durationMs: nat, n: nat)
    requires 1 <= durationMs <= 10 && IsFrameLength(rate, durationMs, n)
    ensures SamplesPerFrame(rate, durationMs) == n
  {
    FramesPerSecond(durationMs);
    DivisionIsGreatest(rate, 1000 / durationMs, n);
    DivisionIsGreatest(rate, 1000 / durationMs, n + 1);
  }

  /** What Mix returns, and so copies: the bytes of all samples of all channels, or an error. */
  lemma MixedSizeIs(rate: nat, channels: nat, durationMs: nat, n: nat)
    requires 1 <= durationMs <= 10 && IsFrameLength(rate, durationMs, n)
    ensures MixedSize(rate, channels, durationMs) ==
            if CanMix(rate, channels, durationMs, n) then channels * n * 2 else -22
  {
    FrameLengthIs(rate, durationMs, n);
    FramesPerSecond(durationMs);
    DivisionIsGreatest(rate, 1000 / durationMs, 1);
    assert n * channels * 2 == channels * n * 2;
  }

  /** At 10 ms that is the whole frame. */
  lemma WholeFrameIsMixed(rate: nat, channels: nat, n: nat)
    requires n * 100 <= rate < (n + 1) * 100
    ensures FrameBytes(rate, channels) == channels * n * 2
    ensures CanMix(rate, channels, 10, n) ==> MixedSize(rate, channels, 10) == FrameBytes(rate, channels)
  {
    assert 1000 / 10 == 100;
    FrameLengthIs(rate, 10, n);
    MixedSizeIs(rate, channels, 10, n);
    assert n * channels * 2 == channels * n * 2;
  }

  lemma MixedSizeFits(rate: nat, channels: nat, durationMs: nat, n: nat)
    requires 1 <= durationMs <= 10 && IsFrameLength(rate, durationMs, n)
    ensures if CanMix(rate, channels, durationMs, n)
            then 0 <= MixedSize(rate, channels, durationMs) <= FrameBytes(rate, channels)
            else MixedSize(rate, channels, durationMs) == -22
  {
    hide MixedSize;
    FrameFits(rate, durationMs);
    FrameLengthIs(rate, durationMs, n);
    MixedSizeIs(rate, channels, durationMs, n);
    Scale(channels, n, ReportedSamples(rate));
  }

  /**
    The copy out of the mixed frame stays within the frame if and only if there is something to
    copy and its size is an int. Otherwise the size is an error code, which memcpy takes for a
    huge size. Up to 48 kHz and 8 channels what is copied then fits the published buffer size.
   */
  lemma MixStaysInFrameIff(rate: nat, channels: nat, durationMs: nat, n: nat)
    requires 1 <= durationMs <= 10 && IsFrameLength(rate, durationMs, n)
    requires rate < 0x8000_0000 && channels < 0x8000_0000
    ensures AsSize(MixedSize(rate, channels, durationMs)) <= FrameBytes(rate, channels)
            <==> CanMix(rate, channels, durationMs, n)
    ensures rate <= 48000 && channels <= 8 ==> MixedSize(rate, channels, durationMs) <= 7680
  {
    hide MixedSize, FrameBytes, CanMix, IsFrameLength;
    MixedSizeFits(rate, channels, durationMs, n);
    FrameBytesFit(rate, channels);
    if rate <= 48000 && channels <= 8 {
      PublishedSizeFits(rate, channels);
    }
  }

  /** 99 Hz in frames of 10 ms passes the constructor's check, and no frame holds what is copied. */
  lemma MixOverrunsAt99Hz(channels: nat)
    ensures AsSize(MixedSize(99, channels, 10)) == 0xFFFF_FFFF_FFFF_FFEA && FrameBytes(99, channels) == 0
  {
    assert MixedSize(99, channels, 10) == EINVAL;
  }
}

/** AudioMixer as code. */
module AudioMixer {
  import opened SourceRegistry

  class AudioMixer {
    const output: Output
    var sources: map<Int32, Source>
    var registered: set<Source>
    var made: nat
    var aborted: bool

    ghost function State(): Registry
      reads this
    {
      Registry(sources, registered, made, aborted)
    }

    constructor (output: Output, specs: seq<MixerSource>)
      ensures this.output == output && State() == Open(output, specs)
    {
      this.output := output;
      sources, registered, made, aborted := map[], {}, 0, false;
      new;
      var i := 0;
      while i < |specs| && !aborted
        invariant 0 <= i <= |specs|
        invariant this.output == output && registered == {}
        invariant State() == InsertAll(output, specs[..i])
      {
        var source := DoAddSource(specs[i]);
        assert specs[..i + 1][..i] == specs[..i];
        i := i + 1;
      }
      if aborted {
        AbortSticks(output, specs, i);
        return;
      }
      assert specs[..i] == specs;
      RegisterAll();
    }

    /** The second loop of the constructor. */
    method RegisterAll()
      requires registered == {}
      modifies this`registered
      ensures registered == Owned(sources)
    {
      var todo: set<Int32> := sources.Keys;
      while todo != {}
        invariant todo <= sources.Keys
        invariant registered == set k | k in sources.Keys - todo :: sources[k]
      {
        var ssrc :| ssrc in todo;
        registered := registered + {sources[ssrc]};
        todo := todo - {ssrc};
      }
    }

    method DoAddSource(spec: MixerSource) returns (source: Source)
      modifies this
      ensures (State(), source) == SourceRegistry.DoAddSource(output, old(State()), spec)
    {
      source := Source(made, spec.ssrc);
      if spec.isRecord && (spec.rate != output.rate || spec.channels != output.channels) {
        aborted := true;
        return;
      }
      made := made + 1;
      if spec.ssrc !in sources {
        sources := sources[spec.ssrc := source];
      }
    }

    /**
      With a new ssrc what the mixer points to stays exactly what is kept; with one that is
      present it does not.
     */
    method AddSource(spec: MixerSource) returns (added: bool)
      modifies this
      ensures State() == SourceRegistry.AddSource(output, old(State()), spec)
      ensures added == !aborted
      ensures aborted <==> old(aborted) || IsForeign(output, Add(spec))
      ensures forall k | k in old(sources) :: k in sources && sources[k] == old(sources)[k]
      ensures sources.Keys == old(sources).Keys + if IsForeign(output, Add(spec)) then {} else {spec.ssrc}
      ensures registered == old(registered) + if added then {Source(old(made), spec.ssrc)} else {}
      ensures old(Exact(State()) && Numbered(State()) && !aborted) ==> Numbered(State())
      ensures old(Exact(State()) && Numbered(State()) && !aborted) && added ==>
                if spec.ssrc in old(sources) then Dangles(State()) else Exact(State())
    {
      ghost var before := State();
      if Exact(before) && Numbered(before) && !aborted {
        if spec.ssrc in sources {
          AddTaken(output, before, spec);
        } else {
          AddFresh(output, before, spec);
        }
      }
      var source := DoAddSource(spec);
      if aborted {
        return false;
      }
      registered := registered + {source};
      return true;
    }

    method RemoveSource(ssrc: Int32) returns (found: bool)
      modifies this
      ensures State() == SourceRegistry.RemoveSource(old(State()), ssrc)
      ensures found == (ssrc in old(sources)) && sources.Keys == old(sources).Keys - {ssrc}
      ensures forall k | k in sources :: sources[k] == old(sources)[k]
      ensures registered == old(registered) - if found then {old(sources)[ssrc]} else {}
      ensures made == old(made) && aborted == old(aborted)
      ensures old(Exact(State()) && Numbered(State())) ==> Exact(State()) && Numbered(State())
    {
      ghost var before := State();
      if Exact(before) && Numbered(before) {
        RemoveKeepsExact(before, ssrc);
      }
      if ssrc in sources {
        registered := registered - {sources[ssrc]};
        sources := sources - {ssrc};
        return true;
      }
      return false;
    }

    /** The destructor. */
    method Destroy()
      modifies this
      ensures State() == Close(old(State())) && sources == map[]
      ensures forall x :: x in registered <==> x in old(registered) && forall k | k in old(sources) :: old(sources)[k] != x
    {
      var todo: set<Int32> := sources.Keys;
      while todo != {}
        invariant todo <= sources.Keys && sources == old(sources) && made == old(made) && aborted == old(aborted)
        invariant registered == old(registered) - set k | k in sources.Keys - todo :: sources[k]
      {
        var ssrc :| ssrc in todo;
        registered := registered - {sources[ssrc]};
        todo := todo - {ssrc};
      }
      assert Owned(sources) == set k | k in sources.Keys :: sources[k];
      sources := map[];
    }
  }

  lemma {:induction false} AbortSticks(o: Output, specs: seq<MixerSource>, i: nat)
    requires i <= |specs| && InsertAll(o, specs[..i]).aborted
    ensures InsertAll(o, specs) == InsertAll(o, specs[..i])
    decreases |specs|
  {
    if i == |specs| {
      assert specs[..i] == specs;
    } else {
      var shorter := specs[..|specs| - 1];
      assert shorter[..i] == specs[..i];
      AbortSticks(o, shorter, i);
    }
  }
}
