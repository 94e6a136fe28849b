/**
  The djinni proxy cache as a state machine. Threads call get() and remove() under one mutex;
  weak references expire, references are copied, dropped and reused at any moment, also in the
  middle of a call. A Handle is destroyed once its proxy has expired, or before that by whoever
  destroys the proxy explicitly.
 */
module ProxyCacheProtocol {
  /** Identity of a wrapped object. */
  type Obj = nat

  /** A reference value: an address, or a JNI reference. Reused once released. */
  type Ref = nat

  /** Identity of a proxy object together with its Handle. */
  type Proxy = nat

  /** The type_index a proxy is cached under. */
  type Tag = nat

  /**
    Held: ~Handle has yet to run cleanup, or is running it. Cleaned: cleanup has run and m_obj is
    about to be released. Released: it has been, and the Handle is gone.
   */
  datatype Handle = Held | Cleaned | Released

  /**
    A proxy and what its Handle owns: m_obj is `ref`, which denoted `obj` when it was taken. The
    proxy is live while the weak reference to it can be upgraded, whatever became of its Handle.
   */
  datatype ProxyInfo = ProxyInfo(tag: Tag, ref: Ref, obj: Obj, live: bool, handle: Handle)

  /** An entry of m_mapping: the key (tag, ref) and the weak reference to the proxy. */
  datatype Entry = Entry(tag: Tag, ref: Ref, proxy: Proxy)

  /** Where the holder of m_mutex stands. */
  datatype Pc =
    | Idle
    | GetFind(tag: Tag, ref: Ref)
    | GetUpgrade(tag: Tag, ref: Ref, entry: Entry)
    | GetErase(tag: Tag, ref: Ref, entry: Entry)
    | GetAlloc(tag: Tag, ref: Ref)
    | GetEmplace(tag: Tag, ref: Ref, proxy: Proxy)
    | GetReturn(tag: Tag, ref: Ref, proxy: Proxy)
    | RemoveFind(proxy: Proxy)
    | RemoveCheck(proxy: Proxy, entry: Entry)
    | RemoveErase(proxy: Proxy, entry: Entry)
    | RemoveDone(proxy: Proxy)
  {
    predicate IsGet() {
      GetFind? || GetUpgrade? || GetErase? || GetAlloc? || GetEmplace? || GetReturn?
    }

    predicate UsesRef(r: Ref) {
      IsGet() && ref == r
    }

    predicate Removes(p: Proxy) {
      (RemoveFind? || RemoveCheck? || RemoveErase? || RemoveDone?) && proxy == p
    }

    /** The call holds a strong pointer to p, so p cannot expire yet. */
    predicate Pins(p: Proxy) {
      (GetEmplace? || GetReturn?) && proxy == p
    }
  }

  datatype State = State(
    refs: map<Ref, Obj>,             // valid references and what they denote
    user: set<Ref>,                  // references owned by code outside the cache
    proxies: map<Proxy, ProxyInfo>,  // every proxy there ever was
    mapping: set<Entry>,             // m_mapping
    pc: Pc)
  {
    predicate IsLive(p: Proxy) {
      p in proxies && proxies[p].live
    }

    predicate HoldsHandle(p: Proxy) {
      p in proxies && proxies[p].handle == Held
    }

    /** KeyEqual: same tag and, through the references as they now stand, the same object. */
    predicate KeyMatches(e: Entry, tag: Tag, r: Ref) {
      e.tag == tag && e.ref in refs && r in refs && refs[e.ref] == refs[r]
    }

    predicate IsOwned(r: Ref) {
      r in user || exists p :: p in proxies && proxies[p].ref == r && proxies[p].handle != Released
    }
  }

  datatype Hit = Miss | Found(entry: Entry)

  datatype Step =
    // Anyone, at any time.
    | NewRef(ref: Ref, obj: Obj)
    | CopyRef(ref: Ref, copy: Ref)
    | Unwrap(proxy: Proxy)
    | DropRef(ref: Ref)
    | FreeRef(ref: Ref)
    | Expire(proxy: Proxy)
    | ReleaseHandle(proxy: Proxy)
    // get(), under the mutex.
    | BeginGet(tag: Tag, ref: Ref)
    | Find(hit: Hit)
    | UpgradeWeak
    | EraseExpired
    | Alloc(proxy: Proxy, ref: Ref)
    | Emplace
    | Return
    // remove(), called by ~Handle, under the mutex.
    | BeginRemove(proxy: Proxy)
    | FindOwn(hit: Hit)
    | CheckExpired
    | EraseEntry
    | EndRemove
  {
    predicate IsEnvironment() {
      NewRef? || CopyRef? || Unwrap? || DropRef? || FreeRef? || Expire? || ReleaseHandle?
    }
  }

  predicate HitIsRight(s: State, hit: Hit, tag: Tag, r: Ref) {
    match hit
    case Found(e) => e in s.mapping && s.KeyMatches(e, tag, r)
    case Miss => forall e | e in s.mapping :: !s.KeyMatches(e, tag, r)
  }

  predicate Enabled(s: State, step: Step) {
    match step
    case NewRef(r, _) => r !in s.refs
    case CopyRef(r, copy) => r in s.user && r in s.refs && copy !in s.refs
    case Unwrap(p) => s.IsLive(p) && s.proxies[p].handle != Released
    case DropRef(r) => r in s.user && !s.pc.UsesRef(r)
    case FreeRef(r) => r in s.refs && !s.IsOwned(r)
    case Expire(p) => s.IsLive(p) && !s.pc.Pins(p)
    case ReleaseHandle(p) => p in s.proxies && s.proxies[p].handle == Cleaned
    case BeginGet(_, r) => s.pc.Idle? && r in s.user
    case Find(hit) => s.pc.GetFind? && HitIsRight(s, hit, s.pc.tag, s.pc.ref)
    case UpgradeWeak => s.pc.GetUpgrade?
    case EraseExpired => s.pc.GetErase?
    case Alloc(p, h) =>
      && s.pc.GetAlloc? && s.pc.ref in s.refs && p !in s.proxies
      && (h == s.pc.ref || h !in s.refs)
    case Emplace => s.pc.GetEmplace? && s.pc.proxy in s.proxies
    case Return => s.pc.GetReturn?
    case BeginRemove(p) => s.pc.Idle? && s.HoldsHandle(p)
    case FindOwn(hit) =>
      && s.pc.RemoveFind? && s.pc.proxy in s.proxies
      && HitIsRight(s, hit, s.proxies[s.pc.proxy].tag, s.proxies[s.pc.proxy].ref)
    case CheckExpired => s.pc.RemoveCheck?
    case EraseEntry => s.pc.RemoveErase?
    case EndRemove => s.pc.RemoveDone? && s.pc.proxy in s.proxies
  }

  function Apply(s: State, step: Step): State
    requires Enabled(s, step)
  {
    match step
    case NewRef(r, o) => s.(refs := s.refs[r := o], user := s.user + {r})
    case CopyRef(r, copy) => s.(refs := s.refs[copy := s.refs[r]], user := s.user + {copy})
    case Unwrap(p) => s.(user := s.user + {s.proxies[p].ref})
    case DropRef(r) => s.(user := s.user - {r})
    case FreeRef(r) => s.(refs := s.refs - {r})
    case Expire(p) => s.(proxies := s.proxies[p := s.proxies[p].(live := false)])
    case ReleaseHandle(p) => s.(proxies := s.proxies[p := s.proxies[p].(handle := Released)])
    case BeginGet(tag, r) => s.(pc := GetFind(tag, r))
    case Find(Found(e)) => s.(pc := GetUpgrade(s.pc.tag, s.pc.ref, e))
    case Find(Miss) => s.(pc := GetAlloc(s.pc.tag, s.pc.ref))
    case UpgradeWeak =>
      if s.IsLive(s.pc.entry.proxy) then
        s.(pc := GetReturn(s.pc.tag, s.pc.ref, s.pc.entry.proxy))
      else
        s.(pc := GetErase(s.pc.tag, s.pc.ref, s.pc.entry))
    case EraseExpired =>
      s.(mapping := s.mapping - {s.pc.entry}, pc := GetAlloc(s.pc.tag, s.pc.ref))
    case Alloc(p, h) =>
      var obj := s.refs[s.pc.ref];
      s.(refs := s.refs[h := obj],
         proxies := s.proxies[p := ProxyInfo(s.pc.tag, h, obj, true, Held)],
         pc := GetEmplace(s.pc.tag, s.pc.ref, p))
    case Emplace =>
      // emplace() inserts nothing when an equal key is present.
      var h := s.proxies[s.pc.proxy].ref;
      var present := exists e :: e in s.mapping && s.KeyMatches(e, s.pc.tag, h);
      s.(mapping := if present then s.mapping else s.mapping + {Entry(s.pc.tag, h, s.pc.proxy)},
         pc := GetReturn(s.pc.tag, s.pc.ref, s.pc.proxy))
    case Return => s.(pc := Idle)
    case BeginRemove(p) => s.(pc := RemoveFind(p))
    case FindOwn(Found(e)) => s.(pc := RemoveCheck(s.pc.proxy, e))
    case FindOwn(Miss) => s.(pc := RemoveDone(s.pc.proxy))
    case CheckExpired =>
      if s.IsLive(s.pc.entry.proxy) then
        s.(pc := RemoveDone(s.pc.proxy))
      else
        s.(pc := RemoveErase(s.pc.proxy, s.pc.entry))
    case EraseEntry => s.(mapping := s.mapping - {s.pc.entry}, pc := RemoveDone(s.pc.proxy))
    case EndRemove =>
      s.(proxies := s.proxies[s.pc.proxy := s.proxies[s.pc.proxy].(handle := Cleaned)], pc := Idle)
  }

  /** A ~Handle whose is_expired test finds its own proxy live, and which so keeps the entry. */
  predicate FindsItselfLive(s: State, step: Step) {
    step.CheckExpired? && s.pc.RemoveCheck? && s.pc.entry.proxy == s.pc.proxy && s.IsLive(s.pc.proxy)
  }

  // What every step keeps, whoever destroys which Handle when.

  /** A Handle that exists owns a valid reference to the object its proxy was made for. */
  ghost predicate HandlesOwn(s: State) {
    forall p | p in s.proxies && s.proxies[p].handle != Released ::
      s.proxies[p].ref in s.refs && s.refs[s.proxies[p].ref] == s.proxies[p].obj
  }

  /** A call keeps the reference it was given, the proxy it has pinned and the Handle it is for. */
  ghost predicate PcBase(s: State) {
    match s.pc
    case Idle => true
    case GetFind(_, r) => r in s.user
    case GetUpgrade(_, r, _) => r in s.user
    case GetErase(_, r, e) => r in s.user && !s.IsLive(e.proxy)
    case GetAlloc(_, r) => r in s.user
    case GetEmplace(_, r, p) => r in s.user && s.IsLive(p)
    case GetReturn(_, r, p) => r in s.user && s.IsLive(p)
    case RemoveFind(p) => s.HoldsHandle(p)
    case RemoveCheck(p, _) => s.HoldsHandle(p)
    case RemoveErase(p, e) => s.HoldsHandle(p) && !s.IsLive(e.proxy)
    case RemoveDone(p) => s.HoldsHandle(p)
  }

  ghost predicate Base(s: State) {
    && s.user <= s.refs.Keys && HandlesOwn(s) && PcBase(s)
    && forall e | e in s.mapping :: e.proxy in s.proxies
  }

  // The invariant, which needs that no ~Handle finds its own proxy live.

  /**
    No key is without an owner: each key is the reference in the Handle of the entry's own proxy,
    and the cleanup that is to remove the entry is not past doing so.
   */
  ghost predicate KeysOwned(s: State) {
    forall e | e in s.mapping ::
      && s.HoldsHandle(e.proxy) && s.pc != RemoveDone(e.proxy)
      && s.proxies[e.proxy].tag == e.tag && s.proxies[e.proxy].ref == e.ref
  }

  ghost predicate KeysDistinct(s: State) {
    forall e, f | e in s.mapping && f in s.mapping && s.KeyMatches(e, f.tag, f.ref) :: e == f
  }

  /** Every live proxy is in the map, but for the one that get() is about to put there. */
  ghost predicate LiveIsCached(s: State) {
    forall p | s.IsLive(p) ::
      (s.pc.GetEmplace? && s.pc.proxy == p) || Entry(s.proxies[p].tag, s.proxies[p].ref, p) in s.mapping
  }

  /** No entry answers for (tag, obj). */
  ghost predicate Absent(s: State, tag: Tag, r: Ref) {
    forall e | e in s.mapping :: !s.KeyMatches(e, tag, r)
  }

  ghost predicate ReturnsFor(s: State, tag: Tag, r: Ref, p: Proxy) {
    r in s.refs && s.IsLive(p) && s.HoldsHandle(p) && s.proxies[p].tag == tag && s.proxies[p].obj == s.refs[r]
  }

  ghost predicate PcOk(s: State) {
    match s.pc
    case GetUpgrade(t, r, e) => e in s.mapping && s.KeyMatches(e, t, r)
    case GetErase(t, r, e) => e in s.mapping && s.KeyMatches(e, t, r)
    case GetAlloc(t, r) => Absent(s, t, r)
    case GetEmplace(t, r, p) => ReturnsFor(s, t, r, p) && Absent(s, t, r)
    case GetReturn(t, r, p) => ReturnsFor(s, t, r, p)
    case RemoveCheck(p, e) =>
      p in s.proxies && e in s.mapping && s.KeyMatches(e, s.proxies[p].tag, s.proxies[p].ref)
    case RemoveErase(p, e) =>
      p in s.proxies && e in s.mapping && s.KeyMatches(e, s.proxies[p].tag, s.proxies[p].ref)
    case RemoveDone(p) => !s.IsLive(p)
    case _ => true
  }

  ghost predicate Inv(s: State) {
    Base(s) && KeysOwned(s) && KeysDistinct(s) && LiveIsCached(s) && PcOk(s)
  }

  ghost predicate Init(s: State) {
    s == State(map[], {}, map[], {}, Idle)
  }

  lemma InitInv(s: State)
    requires Init(s)
    ensures Inv(s)
  {
  }

  // Every step keeps the base.

  lemma EnvironmentKeepsBase(s: State, step: Step)
    requires Base(s) && Enabled(s, step) && step.IsEnvironment()
    ensures Base(Apply(s, step))
  {
  }

  lemma GetKeepsBase(s: State, step: Step)
    requires Base(s) && Enabled(s, step)
    requires step.BeginGet? || step.Find? || step.UpgradeWeak? || step.EraseExpired?
             || step.Alloc? || step.Emplace? || step.Return?
    ensures Base(Apply(s, step))
  {
  }

  lemma RemoveKeepsBase(s: State, step: Step)
    requires Base(s) && Enabled(s, step)
    requires step.BeginRemove? || step.FindOwn? || step.CheckExpired? || step.EraseEntry? || step.EndRemove?
    ensures Base(Apply(s, step))
  {
  }

  lemma StepKeepsBase(s: State, step: Step)
    requires Base(s) && Enabled(s, step)
    ensures Base(Apply(s, step))
  {
    hide Base, Apply, Enabled;
    if step.IsEnvironment() {
      EnvironmentKeepsBase(s, step);
    } else if step.BeginRemove? || step.FindOwn? || step.CheckExpired? || step.EraseEntry? || step.EndRemove? {
      RemoveKeepsBase(s, step);
    } else {
      GetKeepsBase(s, step);
    }
  }

  // Every step keeps the invariant, if it is not a ~Handle that finds its own proxy live.

  lemma RefStepKeepsInv(s: State, step: Step)
    requires Inv(s) && Enabled(s, step)
    requires step.NewRef? || step.CopyRef? || step.Unwrap? || step.DropRef? || step.FreeRef?
    ensures Inv(Apply(s, step))
  {
    StepKeepsBase(s, step);
  }

  lemma ExpireKeepsInv(s: State, p: Proxy)
    requires Inv(s) && Enabled(s, Expire(p))
    ensures Inv(Apply(s, Expire(p)))
  {
    StepKeepsBase(s, Expire(p));
  }

  lemma ReleaseKeepsInv(s: State, p: Proxy)
    requires Inv(s) && Enabled(s, ReleaseHandle(p))
    ensures Inv(Apply(s, ReleaseHandle(p)))
  {
    StepKeepsBase(s, ReleaseHandle(p));
  }

  lemma GetStepKeepsInv(s: State, step: Step)
    requires Inv(s) && Enabled(s, step)
    requires step.BeginGet? || step.Find? || step.UpgradeWeak? || step.EraseExpired? || step.Return?
    ensures Inv(Apply(s, step))
  {
    StepKeepsBase(s, step);
  }

  lemma AllocKeepsInv(s: State, p: Proxy, h: Ref)
    requires Inv(s) && Enabled(s, Alloc(p, h))
    ensures Inv(Apply(s, Alloc(p, h)))
  {
    StepKeepsBase(s, Alloc(p, h));
  }

  lemma EmplaceKeepsInv(s: State)
    requires Inv(s) && Enabled(s, Emplace)
    ensures Inv(Apply(s, Emplace))
  {
    StepKeepsBase(s, Emplace);
  }

  lemma RemoveStepKeepsInv(s: State, step: Step)
    requires Inv(s) && Enabled(s, step) && (step.BeginRemove? || step.EraseEntry?)
    ensures Inv(Apply(s, step))
  {
    StepKeepsBase(s, step);
  }

  lemma FindOwnKeepsInv(s: State, hit: Hit)
    requires Inv(s) && Enabled(s, FindOwn(hit))
    ensures Inv(Apply(s, FindOwn(hit)))
  {
    StepKeepsBase(s, FindOwn(hit));
  }

  /** The test finds the entry of another, live proxy, or an expired one. */
  lemma CheckKeepsInv(s: State)
    requires Inv(s) && Enabled(s, CheckExpired) && !FindsItselfLive(s, CheckExpired)
    ensures Inv(Apply(s, CheckExpired))
  {
    StepKeepsBase(s, CheckExpired);
  }

  lemma EndRemoveKeepsInv(s: State)
    requires Inv(s) && Enabled(s, EndRemove)
    ensures Inv(Apply(s, EndRemove))
  {
    StepKeepsBase(s, EndRemove);
  }

  /** Every step but one keeps the invariant. */
  lemma StepKeepsInv(s: State, step: Step)
    requires Inv(s) && Enabled(s, step) && !FindsItselfLive(s, step)
    ensures Inv(Apply(s, step))
  {
    hide Inv, Apply, Enabled, FindsItselfLive;
    match step
    case Expire(p) => ExpireKeepsInv(s, p);
    case ReleaseHandle(p) => ReleaseKeepsInv(s, p);
    case Alloc(p, h) => AllocKeepsInv(s, p, h);
    case Emplace => EmplaceKeepsInv(s);
    case BeginGet(_, _) => GetStepKeepsInv(s, step);
    case Find(_) => GetStepKeepsInv(s, step);
    case UpgradeWeak => GetStepKeepsInv(s, step);
    case EraseExpired => GetStepKeepsInv(s, step);
    case Return => GetStepKeepsInv(s, step);
    case BeginRemove(_) => RemoveStepKeepsInv(s, step);
    case FindOwn(hit) => FindOwnKeepsInv(s, hit);
    case CheckExpired => CheckKeepsInv(s);
    case EraseEntry => RemoveStepKeepsInv(s, step);
    case EndRemove => EndRemoveKeepsInv(s);
    case _ => RefStepKeepsInv(s, step);
  }

  /** And that one breaks it: the cleanup is over and the entry is still there. */
  lemma FindingItselfLiveLosesKey(s: State, step: Step)
    requires Inv(s) && Enabled(s, step) && FindsItselfLive(s, step)
    ensures !KeysOwned(Apply(s, step))
  {
    assert s.pc.entry in Apply(s, step).mapping;
  }
}
