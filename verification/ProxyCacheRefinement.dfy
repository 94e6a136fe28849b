/** Identities and references are numbers; there is always an unused one. */
module Identities {
  lemma FreshExists(used: set<nat>) returns (n: nat)
    ensures n !in used && forall u | u in used :: u < n
  {
    if used == {} {
      n := 0;
    } else {
      var u :| u in used;
      var m := FreshExists(used - {u});
      n := if m <= u then u + 1 else m;
      assert forall v | v in used :: v == u || v in used - {u};
    }
  }
}

/** What a proxy cache is for, said without maps, weak references, locks or addresses. */
module ProxyCacheSpec {
  import opened ProxyCacheProtocol

  datatype Key = Key(tag: Tag, obj: Obj)

  datatype Spec = Spec(live: map<Proxy, Key>, used: set<Proxy>)

  datatype Event =
    | Internal
    | Created(key: Key, proxy: Proxy)
    | Returned(key: Key, proxy: Proxy)
    | Died(proxy: Proxy)

  /** p is the one and only live proxy for key. */
  ghost predicate IsTheProxy(a: Spec, key: Key, p: Proxy) {
    p in a.live && a.live[p] == key && forall q | q in a.live && a.live[q] == key :: q == p
  }

  /** get() returns the live proxy; one is created, fresh, only if there is none. */
  ghost predicate SpecNext(a: Spec, a': Spec, event: Event) {
    match event
    case Internal => a' == a
    case Created(key, p) =>
      && p !in a.used && (forall q | q in a.live :: a.live[q] != key)
      && a' == Spec(a.live[p := key], a.used + {p})
    case Returned(key, p) => IsTheProxy(a, key, p) && a' == a
    case Died(p) => p in a.live && a' == a.(live := a.live - {p})
  }
}

/**
  A run of the protocol is a run of the specification as long as no ~Handle finds its own proxy
  live, which is exactly as long as no key loses its owner.
 */
module ProxyCacheRefinement {
  import opened ProxyCacheProtocol
  import opened ProxyCacheSpec
  import opened Identities

  function Abs(s: State): Spec {
    Spec(map p | p in s.proxies && s.IsLive(p) :: Key(s.proxies[p].tag, s.proxies[p].obj), s.proxies.Keys)
  }

  /** The key a call of get() was made for. */
  function CallKey(s: State): Key
    requires s.pc.GetAlloc? || s.pc.GetReturn?
    requires s.pc.ref in s.refs
  {
    Key(s.pc.tag, s.refs[s.pc.ref])
  }

  ghost function EventOf(s: State, step: Step): Event
    requires Inv(s) && Enabled(s, step)
  {
    match step
    case Alloc(p, _) => Created(CallKey(s), p)
    case Return => Returned(CallKey(s), s.pc.proxy)
    case Expire(p) => Died(p)
    case _ => Internal
  }

  /** At most one live proxy per tag and object. */
  lemma LiveIsUnique(s: State, p: Proxy, q: Proxy)
    requires Inv(s) && s.IsLive(p) && s.IsLive(q)
    requires s.proxies[p].tag == s.proxies[q].tag && s.proxies[p].obj == s.proxies[q].obj
    ensures p == q
  {
    var e := Entry(s.proxies[p].tag, s.proxies[p].ref, p);
    var f := Entry(s.proxies[q].tag, s.proxies[q].ref, q);
    if e in s.mapping && f in s.mapping {
      assert s.KeyMatches(e, f.tag, f.ref);
    } else if p != q {
      var cached := if e in s.mapping then e else f;
      assert s.KeyMatches(cached, s.pc.tag, s.pc.ref);
    }
  }

  /** A call that is about to return holds the one live proxy of its object. */
  lemma ReturnIsRight(s: State)
    requires Inv(s) && s.pc.GetReturn?
    ensures s.pc.ref in s.refs && IsTheProxy(Abs(s), CallKey(s), s.pc.proxy)
  {
    forall q | q in Abs(s).live && Abs(s).live[q] == CallKey(s) ensures q == s.pc.proxy {
      LiveIsUnique(s, q, s.pc.proxy);
    }
  }

  /** A call that is about to allocate has established that no live proxy exists. */
  lemma AllocIsRight(s: State)
    requires Inv(s) && s.pc.GetAlloc?
    ensures s.pc.ref in s.refs && forall q | q in Abs(s).live :: Abs(s).live[q] != CallKey(s)
  {
    forall q | s.IsLive(q) ensures Abs(s).live[q] != CallKey(s) {
      var e := Entry(s.proxies[q].tag, s.proxies[q].ref, q);
      assert e in s.mapping && !s.KeyMatches(e, s.pc.tag, s.pc.ref);
    }
  }

  /**
    Whatever exists keeps its identity, whatever is not live is never live again, and whatever
    stays live keeps its entry.
   */
  ghost predicate Kept(s: State, s': State) {
    && s.proxies.Keys <= s'.proxies.Keys
    && (forall p | p in s.proxies :: SameProxy(s.proxies[p], s'.proxies[p]))
    && (forall p | p in s.proxies && s'.IsLive(p) :: s.IsLive(p))
    && (forall e | e in s.mapping && s'.IsLive(e.proxy) :: e in s'.mapping)
  }

  predicate SameProxy(info: ProxyInfo, info': ProxyInfo) {
    info'.tag == info.tag && info'.ref == info.ref && info'.obj == info.obj
  }

  lemma EnvironmentKeeps(s: State, step: Step)
    requires Base(s) && Enabled(s, step) && step.IsEnvironment()
    ensures Kept(s, Apply(s, step))
  {
  }

  lemma StepKeeps(s: State, step: Step)
    requires Base(s) && Enabled(s, step)
    ensures Kept(s, Apply(s, step))
  {
    if step.IsEnvironment() {
      EnvironmentKeeps(s, step);
    }
  }

  lemma ProxiesAfterAlloc(s: State, p: Proxy, h: Ref)
    requires Enabled(s, Alloc(p, h))
    ensures var s' := Apply(s, Alloc(p, h));
            && p !in s.proxies && s.pc.IsGet() && s.pc.ref in s.refs
            && s'.proxies == s.proxies[p := ProxyInfo(s.pc.tag, h, s.refs[s.pc.ref], true, Held)]
  {
  }

  /** Only allocations add proxies. */
  lemma ProxiesAfter(s: State, step: Step)
    requires Base(s) && Enabled(s, step) && !step.Alloc?
    ensures Apply(s, step).proxies.Keys == s.proxies.Keys
  {
  }

  lemma LiveAfter(s: State, step: Step)
    requires Base(s) && Enabled(s, step)
    ensures forall p | s.IsLive(p) && step != Expire(p) :: Apply(s, step).IsLive(p)
  {
  }

  /** While the invariant holds, what is live has its Handle. */
  lemma LiveHasHandle(s: State, p: Proxy)
    requires Inv(s) && s.IsLive(p)
    ensures s.HoldsHandle(p)
  {
  }

  /** Between its first and last step a call of get() keeps its tag and its object. */
  lemma GetGoesOn(s: State, step: Step)
    requires Base(s) && Enabled(s, step) && !step.BeginGet? && !step.Return?
    ensures var s' := Apply(s, step);
            && (s'.pc.IsGet() <==> s.pc.IsGet())
            && (s.pc.IsGet() ==>
                  && s'.pc.tag == s.pc.tag && s'.pc.ref == s.pc.ref
                  && s.pc.ref in s.refs && s.pc.ref in s'.refs && s'.refs[s.pc.ref] == s.refs[s.pc.ref])
  {
  }

  lemma KeptIsTransitive(s: State, s': State, s'': State)
    requires Base(s) && Kept(s, s') && Kept(s', s'')
    ensures Kept(s, s'')
  {
  }

  lemma AllocRefines(s: State, p: Proxy, h: Ref)
    requires Inv(s) && Enabled(s, Alloc(p, h))
    ensures SpecNext(Abs(s), Abs(Apply(s, Alloc(p, h))), EventOf(s, Alloc(p, h)))
  {
    AllocIsRight(s);
    var s' := Apply(s, Alloc(p, h));
    assert Abs(s').live == Abs(s).live[p := CallKey(s)];
  }

  lemma ReturnRefines(s: State)
    requires Inv(s) && Enabled(s, Return)
    ensures SpecNext(Abs(s), Abs(Apply(s, Return)), EventOf(s, Return))
  {
    ReturnIsRight(s);
  }

  lemma ExpireRefines(s: State, p: Proxy)
    requires Inv(s) && Enabled(s, Expire(p))
    ensures SpecNext(Abs(s), Abs(Apply(s, Expire(p))), EventOf(s, Expire(p)))
  {
    var s' := Apply(s, Expire(p));
    assert Abs(s').live == Abs(s).live - {p};
  }

  lemma QuietStepKeepsLive(s: State, step: Step)
    requires Inv(s) && Enabled(s, step) && !step.Alloc? && !step.Return? && !step.Expire?
    ensures Apply(s, step).proxies.Keys == s.proxies.Keys
    ensures forall p :: Apply(s, step).IsLive(p) <==> s.IsLive(p)
  {
    hide Apply, Enabled, Base;
    ProxiesAfter(s, step);
    LiveAfter(s, step);
    StepKeeps(s, step);
  }

  lemma QuietStepRefines(s: State, step: Step)
    requires Inv(s) && Enabled(s, step) && !step.Alloc? && !step.Return? && !step.Expire?
    ensures SpecNext(Abs(s), Abs(Apply(s, step)), EventOf(s, step))
  {
    QuietStepKeepsLive(s, step);
    StepKeeps(s, step);
    SameLiveSameAbs(s, Apply(s, step));
  }

  lemma SameLiveSameAbs(s: State, s': State)
    requires s'.proxies.Keys == s.proxies.Keys && forall p :: s'.IsLive(p) <==> s.IsLive(p)
    requires Kept(s, s')
    ensures Abs(s') == Abs(s)
  {
    assert Abs(s').live == Abs(s).live;
  }

  /** Every step of the cache is a step of the specification. */
  lemma StepRefines(s: State, step: Step)
    requires Inv(s) && Enabled(s, step)
    ensures SpecNext(Abs(s), Abs(Apply(s, step)), EventOf(s, step))
  {
    if step.Alloc? {
      AllocRefines(s, step.proxy, step.ref);
    } else if step.Return? {
      ReturnRefines(s);
    } else if step.Expire? {
      ExpireRefines(s, step.proxy);
    } else {
      QuietStepRefines(s, step);
    }
  }

  // Runs.

  ghost predicate IsPath(ss: seq<State>, steps: seq<Step>) {
    && |ss| == |steps| + 1
    && forall i | 0 <= i < |steps| :: Enabled(ss[i], steps[i]) && ss[i + 1] == Apply(ss[i], steps[i])
  }

  ghost predicate IsRun(ss: seq<State>, steps: seq<Step>) {
    IsPath(ss, steps) && Init(ss[0])
  }

  lemma {:induction false} RunKeepsBase(ss: seq<State>, steps: seq<Step>, i: nat)
    requires IsRun(ss, steps) && i < |ss|
    ensures Base(ss[i])
  {
    hide Base, Apply, Enabled, Inv, Init;
    if i == 0 {
      InitBase(ss[0]);
    } else {
      RunKeepsBase(ss, steps, i - 1);
      StepKeepsBase(ss[i - 1], steps[i - 1]);
    }
  }

  lemma InitBase(s: State)
    requires Init(s)
    ensures Base(s)
  {
  }

  /** Until state i no ~Handle has found its own proxy live. */
  ghost predicate Orderly(ss: seq<State>, steps: seq<Step>, i: nat)
    requires IsRun(ss, steps) && i < |ss|
  {
    forall j | 0 <= j < i :: !FindsItselfLive(ss[j], steps[j])
  }

  lemma {:induction false} RunKeepsInv(ss: seq<State>, steps: seq<Step>, i: nat)
    requires IsRun(ss, steps) && i < |ss| && Orderly(ss, steps, i)
    ensures Inv(ss[i])
  {
    hide Inv, Apply, Enabled, Init, FindsItselfLive;
    if i == 0 {
      InitInv(ss[0]);
    } else {
      RunKeepsInv(ss, steps, i - 1);
      StepKeepsInv(ss[i - 1], steps[i - 1]);
    }
  }

  lemma {:induction false} OwnedIsOrderly(ss: seq<State>, steps: seq<Step>, i: nat)
    requires IsRun(ss, steps) && i < |ss| && forall k | 0 <= k <= i :: KeysOwned(ss[k])
    ensures Orderly(ss, steps, i)
  {
    hide Inv, Apply, Enabled, Init, FindsItselfLive, KeysOwned;
    if i > 0 {
      OwnedIsOrderly(ss, steps, i - 1);
      RunKeepsInv(ss, steps, i - 1);
      assert KeysOwned(ss[i]);
      if FindsItselfLive(ss[i - 1], steps[i - 1]) {
        FindingItselfLiveLosesKey(ss[i - 1], steps[i - 1]);
      }
    }
  }

  lemma InvOwns(s: State)
    requires Inv(s)
    ensures KeysOwned(s)
  {
  }

  /**
    Over every run, the exact condition: all keys have had their owners throughout if and only if
    no ~Handle has found its own proxy live.
   */
  lemma KeysOwnedIff(ss: seq<State>, steps: seq<Step>, i: nat)
    requires IsRun(ss, steps) && i < |ss|
    ensures (forall k | 0 <= k <= i :: KeysOwned(ss[k])) <==> Orderly(ss, steps, i)
  {
    hide Inv, Apply, Enabled, Init, FindsItselfLive, KeysOwned;
    if Orderly(ss, steps, i) {
      forall k | 0 <= k <= i ensures KeysOwned(ss[k]) {
        RunKeepsInv(ss, steps, k);
        InvOwns(ss[k]);
      }
    } else if forall k | 0 <= k <= i :: KeysOwned(ss[k]) {
      OwnedIsOrderly(ss, steps, i);
    }
  }

  /**
    In every interleaving, every step of the cache is a step of the specification, up to and
    including the first ~Handle that finds its own proxy live.
   */
  lemma RunRefines(ss: seq<State>, steps: seq<Step>, i: nat)
    requires IsRun(ss, steps) && i < |ss| && Orderly(ss, steps, i)
    ensures Inv(ss[i])
    ensures i < |steps| ==> SpecNext(Abs(ss[i]), Abs(ss[i + 1]), EventOf(ss[i], steps[i]))
  {
    hide Inv, Apply, Enabled, Init, FindsItselfLive;
    RunKeepsInv(ss, steps, i);
    if i < |steps| {
      StepRefines(ss[i], steps[i]);
    }
  }

  lemma RunStepKeeps(ss: seq<State>, steps: seq<Step>, i: nat)
    requires IsRun(ss, steps) && i < |steps|
    ensures Base(ss[i]) && Kept(ss[i], ss[i + 1])
  {
    hide Base, Apply, Enabled, Init;
    RunKeepsBase(ss, steps, i);
    StepKeeps(ss[i], steps[i]);
  }

  lemma {:induction false} StepsCompose(ss: seq<State>, i: nat, j: nat)
    requires i <= j < |ss|
    requires forall k | i <= k < j :: Base(ss[k]) && Kept(ss[k], ss[k + 1])
    ensures Kept(ss[i], ss[j])
    decreases j
  {
    if i < j {
      StepsCompose(ss, i, j - 1);
      KeptIsTransitive(ss[i], ss[j - 1], ss[j]);
    }
  }

  /** Over any stretch of a run: live only turns to expired, and proxies keep their identity. */
  lemma RunKeeps(ss: seq<State>, steps: seq<Step>, i: nat, j: nat)
    requires IsRun(ss, steps) && i <= j < |ss|
    ensures Kept(ss[i], ss[j])
  {
    forall k | i <= k < j ensures Base(ss[k]) && Kept(ss[k], ss[k + 1]) {
      RunStepKeeps(ss, steps, k);
    }
    StepsCompose(ss, i, j);
  }

  /**
    Identity across the run: two calls for the same tag and object return the same proxy if the
    first result is still live when the second call returns. Whatever happened in between —
    other calls, late cleanups, references freed and reused — does not matter.
   */
  lemma SameProxyWhileLive(ss: seq<State>, steps: seq<Step>, i: nat, j: nat)
    requires IsRun(ss, steps) && i < |steps| && j < |steps|
    requires steps[i].Return? && steps[j].Return?
    requires ss[i].pc.ref in ss[i].refs && ss[j].pc.ref in ss[j].refs
    requires CallKey(ss[i]) == CallKey(ss[j])
    requires i <= j && Orderly(ss, steps, j) && ss[j].IsLive(ss[i].pc.proxy)
    ensures ss[j].pc.proxy == ss[i].pc.proxy
  {
    RunKeepsInv(ss, steps, i);
    RunKeepsInv(ss, steps, j);
    RunKeeps(ss, steps, i, j);
    LiveIsUnique(ss[j], ss[i].pc.proxy, ss[j].pc.proxy);
  }

  /** A cleanup, however late, never takes away the entry of a proxy that is live. */
  lemma LiveEntriesStay(ss: seq<State>, steps: seq<Step>, i: nat, j: nat, e: Entry)
    requires IsRun(ss, steps) && i <= j < |ss|
    requires e in ss[i].mapping && ss[j].IsLive(e.proxy)
    ensures e in ss[j].mapping
  {
    RunKeeps(ss, steps, i, j);
  }

  /** No key dangles: it is owned by the Handle of its own proxy and denotes its object. */
  lemma KeysNeverDangle(ss: seq<State>, steps: seq<Step>, i: nat, e: Entry)
    requires IsRun(ss, steps) && i < |ss| && Orderly(ss, steps, i) && e in ss[i].mapping
    ensures e.ref in ss[i].refs && e.proxy in ss[i].proxies
    ensures var info := ss[i].proxies[e.proxy];
            info.ref == e.ref && info.tag == e.tag && ss[i].refs[e.ref] == info.obj && info.handle == Held
  {
    RunKeepsInv(ss, steps, i);
  }

  /** With no cleanup outstanding the map is empty: nothing leaks. */
  lemma QuiescentIsEmpty(ss: seq<State>, steps: seq<Step>, i: nat)
    requires IsRun(ss, steps) && i < |ss| && Orderly(ss, steps, i)
    requires forall p | p in ss[i].proxies :: ss[i].proxies[p].handle != Held
    ensures ss[i].mapping == {}
  {
    RunKeepsInv(ss, steps, i);
  }

  // Progress under the lock.

  function Remaining(pc: Pc): nat {
    match pc
    case Idle => 0
    case GetFind(_, _) => 6
    case GetUpgrade(_, _, _) => 5
    case GetErase(_, _, _) => 4
    case GetAlloc(_, _) => 3
    case GetEmplace(_, _, _) => 2
    case GetReturn(_, _, _) => 1
    case RemoveFind(_) => 4
    case RemoveCheck(_, _) => 3
    case RemoveErase(_, _) => 2
    case RemoveDone(_) => 1
  }

  /** The mutex is held for at most six steps of its holder, whatever others do meanwhile. */
  lemma LockIsReleased(s: State, step: Step)
    requires Base(s) && Enabled(s, step) && !s.pc.Idle?
    ensures if step.IsEnvironment() then Apply(s, step).pc == s.pc
            else Remaining(Apply(s, step).pc) < Remaining(s.pc) <= 6
  {
  }

  /** The holder of the mutex is never stuck. */
  lemma HolderCanStep(s: State) returns (step: Step)
    requires Base(s) && !s.pc.Idle?
    ensures Enabled(s, step) && !step.IsEnvironment()
  {
    match s.pc
    case GetFind(t, r) =>
      if e :| e in s.mapping && s.KeyMatches(e, t, r) {
        step := Find(Found(e));
      } else {
        step := Find(Miss);
      }
    case GetUpgrade(_, _, _) => step := UpgradeWeak;
    case GetErase(_, _, _) => step := EraseExpired;
    case GetAlloc(_, r) =>
      var p := FreshExists(s.proxies.Keys);
      step := Alloc(p, r);
    case GetEmplace(_, _, _) => step := Emplace;
    case GetReturn(_, _, _) => step := Return;
    case RemoveFind(p) =>
      var info := s.proxies[p];
      if e :| e in s.mapping && s.KeyMatches(e, info.tag, info.ref) {
        step := FindOwn(Found(e));
      } else {
        step := FindOwn(Miss);
      }
    case RemoveCheck(_, _) => step := CheckExpired;
    case RemoveErase(_, _) => step := EraseEntry;
    case RemoveDone(_) => step := EndRemove;
  }
}
