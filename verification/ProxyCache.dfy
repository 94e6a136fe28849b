/**
  ProxyCache::Pimpl as code: get() and remove() statement by statement, with the rest of the
  world allowed to act between any two statements. Each statement is shown to be a step of the
  protocol, so the calls inherit what the protocol promises.
 */
module ProxyCache {
  import opened ProxyCacheProtocol
  import opened ProxyCacheSpec
  import opened ProxyCacheRefinement
  import opened Identities

  class Pimpl {
    var mapping: set<Entry>  // m_mapping
    var pc: Pc               // who holds m_mutex, and where that call stands
    var refs: map<Ref, Obj>
    var user: set<Ref>
    var proxies: map<Proxy, ProxyInfo>

    function Now(): State
      reads this
    {
      State(refs, user, proxies, mapping, pc)
    }

    constructor ()
      ensures Init(Now())
    {
      mapping, pc, refs, user, proxies := {}, Idle, map[], {}, map[];
    }

    /** A call that began in state `start` is under way; the references it was given are intact. */
    ghost predicate UnderWay(start: State, given: set<Ref>)
      reads this
    {
      && Base(start) && Base(Now()) && Kept(start, Now())
      && forall r | r in given && r in start.user :: r in user && r in refs && refs[r] == start.refs[r]
    }

    /** The Handles of the proxies in `dying` are there, and no one is removing them. */
    ghost predicate Awaiting(dying: set<Proxy>)
      reads this
    {
      forall p | p in dying :: Now().HoldsHandle(p) && !pc.Removes(p)
    }

    /** One step of the protocol, taken by someone else. */
    method Take(step: Step)
      requires Enabled(Now(), step)
      modifies this
      ensures Now() == Apply(old(Now()), step)
    {
      var s := Apply(Now(), step);
      mapping, pc, refs, user, proxies := s.mapping, s.pc, s.refs, s.user, s.proxies;
    }

    /**
      Blocked on m_mutex. Others take any steps, whole calls of get() and remove() among them,
      and in the end the holder, if there is one, finishes. The caller keeps the references it
      passed, and a Handle is destroyed only once. `orderly`: no ~Handle found its own proxy live.
     */
    method Wait(ghost start: State, given: set<Ref>, dying: set<Proxy>) returns (ghost orderly: bool)
      requires UnderWay(start, given) && Awaiting(dying)
      modifies this
      ensures UnderWay(start, given) && Awaiting(dying) && pc.Idle?
      ensures old(Inv(Now())) && orderly ==> Inv(Now())
    {
      orderly := true;
      var n: nat := *;
      while n > 0
        invariant UnderWay(start, given) && Awaiting(dying)
        invariant old(Inv(Now())) && orderly ==> Inv(Now())
      {
        var step: Step := *;
        if Enabled(Now(), step) && IsOthers(step, given, dying) {
          ghost var s := Now();
          Take(step);
          Took(start, s, step, Now());
          OthersLeave(s, step, given, dying);
          orderly := orderly && !FindsItselfLive(s, step);
        }
        n := n - 1;
      }
      while !pc.Idle?
        invariant UnderWay(start, given) && Awaiting(dying)
        invariant old(Inv(Now())) && orderly ==> Inv(Now())
        decreases Remaining(pc)
      {
        ghost var s := Now();
        ghost var possible := HolderCanStep(s);
        var step :| Enabled(Now(), step) && !step.IsEnvironment();
        Take(step);
        Took(start, s, step, Now());
        LockIsReleased(s, step);
        OthersLeave(s, step, given, dying);
        orderly := orderly && !FindsItselfLive(s, step);
      }
    }

    /** Any number of steps of everyone else; holding the mutex does not stop them. */
    method Interfere(ghost start: State, ghost given: set<Ref>)
      requires UnderWay(start, given) && forall r | r in given :: pc.UsesRef(r)
      modifies this`refs, this`user, this`proxies
      ensures UnderWay(start, given) && (old(Inv(Now())) ==> Inv(Now()))
    {
      var n: nat := *;
      while n > 0
        invariant UnderWay(start, given) && (old(Inv(Now())) ==> Inv(Now()))
      {
        var step: Step := *;
        if step.IsEnvironment() && Enabled(Now(), step) {
          ghost var s := Now();
          EnvironmentIsBounded(s, step);
          var s' := Apply(Now(), step);
          Took(start, s, step, s');
          refs, user, proxies := s'.refs, s'.user, s'.proxies;
        }
        n := n - 1;
      }
    }

    /** m_mapping.find: the entry whose key is equal, if any. */
    method FindKey(tag: Tag, r: Ref) returns (hit: Hit)
      ensures HitIsRight(Now(), hit, tag, r)
    {
      if e :| e in mapping && Now().KeyMatches(e, tag, r) {
        hit := Found(e);
      } else {
        hit := Miss;
      }
    }

    // The statements of get(), each followed by whatever happens before the next one.

    method Lock(ghost start: State, tag: Tag, impl: Ref) returns (ghost orderly: bool)
      requires UnderWay(start, {impl}) && impl in start.user
      modifies this
      ensures UnderWay(start, {impl}) && (old(Inv(Now())) && orderly ==> Inv(Now()))
      ensures pc == GetFind(tag, impl)
    {
      orderly := Wait(start, {impl}, {});
      ghost var s := Now();
      pc := GetFind(tag, impl);
      Took(start, s, BeginGet(tag, impl), Now());
      Interfere(start, {impl});
    }

    method Lookup(ghost start: State, tag: Tag, impl: Ref) returns (hit: Hit)
      requires UnderWay(start, {impl}) && pc == GetFind(tag, impl)
      modifies this
      ensures UnderWay(start, {impl}) && (old(Inv(Now())) ==> Inv(Now()))
      ensures pc == if hit.Found? then GetUpgrade(tag, impl, hit.entry) else GetAlloc(tag, impl)
    {
      ghost var s := Now();
      hit := FindKey(tag, impl);
      pc := if hit.Found? then GetUpgrade(tag, impl, hit.entry) else GetAlloc(tag, impl);
      Took(start, s, Find(hit), Now());
      Interfere(start, {impl});
    }

    /** upgrade_weak: a strong pointer if the proxy is live at this moment. */
    method Upgrade(ghost start: State, tag: Tag, impl: Ref, entry: Entry) returns (alive: bool)
      requires UnderWay(start, {impl}) && pc == GetUpgrade(tag, impl, entry)
      modifies this
      ensures UnderWay(start, {impl}) && (old(Inv(Now())) ==> Inv(Now()))
      ensures pc == if alive then GetReturn(tag, impl, entry.proxy) else GetErase(tag, impl, entry)
    {
      ghost var s := Now();
      alive := Now().IsLive(entry.proxy);
      pc := if alive then GetReturn(tag, impl, entry.proxy) else GetErase(tag, impl, entry);
      Took(start, s, UpgradeWeak, Now());
      Interfere(start, {impl});
    }

    method Prune(ghost start: State, tag: Tag, impl: Ref, entry: Entry)
      requires UnderWay(start, {impl}) && pc == GetErase(tag, impl, entry)
      modifies this
      ensures UnderWay(start, {impl}) && (old(Inv(Now())) ==> Inv(Now()))
      ensures pc == GetAlloc(tag, impl) && mapping == old(mapping) - {entry}
    {
      ghost var s := Now();
      mapping := mapping - {entry};
      pc := GetAlloc(tag, impl);
      Took(start, s, EraseExpired, Now());
      Interfere(start, {impl});
    }

    /** The allocator: a new proxy, whose Handle owns impl's address or a reference of its own. */
    method Allocate(ghost start: State, tag: Tag, impl: Ref) returns (p: Proxy)
      requires UnderWay(start, {impl}) && pc == GetAlloc(tag, impl)
      modifies this
      ensures UnderWay(start, {impl}) && (old(Inv(Now())) ==> Inv(Now()))
      ensures pc == GetEmplace(tag, impl, p) && p !in start.proxies
    {
      ghost var s := Now();
      ghost var candidate := FreshExists(proxies.Keys);
      p :| p !in proxies;
      var h := impl;
      if * {
        ghost var unused := FreshExists(refs.Keys);
        h :| h !in refs;
      }
      proxies := proxies[p := ProxyInfo(tag, h, refs[impl], true, Held)];
      refs := refs[h := refs[impl]];
      pc := GetEmplace(tag, impl, p);
      Took(start, s, Alloc(p, h), Now());
      Interfere(start, {impl});
    }

    /** m_mapping.emplace, which leaves the map alone when an equal key is present. */
    method Insert(ghost start: State, tag: Tag, impl: Ref, p: Proxy)
      requires UnderWay(start, {impl}) && pc == GetEmplace(tag, impl, p)
      modifies this
      ensures UnderWay(start, {impl}) && (old(Inv(Now())) ==> Inv(Now()))
      ensures pc == GetReturn(tag, impl, p)
      ensures var key := old(proxies)[p].ref;
              mapping == if exists e :: e in old(mapping) && old(Now()).KeyMatches(e, tag, key)
                         then old(mapping) else old(mapping) + {Entry(tag, key, p)}
    {
      ghost var s := Now();
      var h := proxies[p].ref;
      var present := FindKey(tag, h);
      if present.Miss? {
        mapping := mapping + {Entry(tag, h, p)};
      }
      pc := GetReturn(tag, impl, p);
      Took(start, s, Emplace, Now());
      Interfere(start, {impl});
    }

    method Unlock(ghost start: State, tag: Tag, impl: Ref, p: Proxy)
      requires UnderWay(start, {impl}) && pc == GetReturn(tag, impl, p)
      modifies this
      ensures UnderWay(start, {impl}) && (old(Inv(Now())) ==> Inv(Now()))
      ensures pc.Idle? && impl in refs && Now().IsLive(p)
      ensures old(Inv(Now())) ==> IsTheProxy(Abs(Now()), Key(tag, refs[impl]), p)
    {
      ghost var s := Now();
      if Inv(s) {
        ReturnIsRight(s);
      }
      pc := Idle;
      assert Abs(Now()) == Abs(s);
      Took(start, s, Return, Now());
    }

    /**
      get(), from the moment it is called, whoever holds the mutex then. The result is live; it was
      live already when the call began, or it did not exist then. If all keys had their owners and
      no ~Handle found its own proxy live, it is the one live proxy for the tag and object.
     */
    method Get(tag: Tag, impl: Ref) returns (result: Proxy, ghost orderly: bool)
      requires Base(Now()) && impl in user
      modifies this
      ensures Base(Now()) && pc.Idle? && Kept(old(Now()), Now())
      ensures impl in refs && refs[impl] == old(refs[impl])
      ensures Now().IsLive(result) && (old(Now()).IsLive(result) || result !in old(proxies))
      ensures old(Inv(Now())) && orderly ==> Inv(Now()) && IsTheProxy(Abs(Now()), Key(tag, refs[impl]), result)
    {
      ghost var start := Now();
      orderly := Lock(start, tag, impl);
      var hit := Lookup(start, tag, impl);
      if hit.Found? {
        var alive := Upgrade(start, tag, impl, hit.entry);
        if alive {
          Unlock(start, tag, impl, hit.entry.proxy);
          result := hit.entry.proxy;
          return;
        }
        Prune(start, tag, impl, hit.entry);
      }
      result := Allocate(start, tag, impl);
      Insert(start, tag, impl, result);
      Unlock(start, tag, impl, result);
    }

    // The statements of remove().

    method LockToRemove(ghost start: State, p: Proxy) returns (ghost orderly: bool)
      requires UnderWay(start, {}) && Awaiting({p})
      modifies this
      ensures UnderWay(start, {}) && (old(Inv(Now())) && orderly ==> Inv(Now()))
      ensures pc == RemoveFind(p)
    {
      orderly := Wait(start, {}, {p});
      ghost var s := Now();
      pc := RemoveFind(p);
      Took(start, s, BeginRemove(p), Now());
      Interfere(start, {});
    }

    method FindOwnEntry(ghost start: State, p: Proxy) returns (hit: Hit)
      requires UnderWay(start, {}) && pc == RemoveFind(p)
      modifies this
      ensures UnderWay(start, {}) && (old(Inv(Now())) ==> Inv(Now()))
      ensures pc == if hit.Found? then RemoveCheck(p, hit.entry) else RemoveDone(p)
      ensures hit.Found? ==> hit.entry in mapping
    {
      ghost var s := Now();
      hit := FindKey(proxies[p].tag, proxies[p].ref);
      pc := if hit.Found? then RemoveCheck(p, hit.entry) else RemoveDone(p);
      Took(start, s, FindOwn(hit), Now());
      Interfere(start, {});
    }

    /** is_expired. A ~Handle that finds its own proxy live leaves its entry behind. */
    method Check(ghost start: State, p: Proxy, entry: Entry) returns (expired: bool)
      requires UnderWay(start, {}) && pc == RemoveCheck(p, entry) && entry in mapping
      modifies this
      ensures UnderWay(start, {}) && entry in mapping
      ensures old(Inv(Now())) && (expired || entry.proxy != p) ==> Inv(Now())
      ensures !expired ==> old(Now()).IsLive(entry.proxy)
      ensures pc == if expired then RemoveErase(p, entry) else RemoveDone(p)
    {
      ghost var s := Now();
      expired := !Now().IsLive(entry.proxy);
      pc := if expired then RemoveErase(p, entry) else RemoveDone(p);
      Took(start, s, CheckExpired, Now());
      Interfere(start, {});
    }

    method Erase(ghost start: State, p: Proxy, entry: Entry)
      requires UnderWay(start, {}) && pc == RemoveErase(p, entry)
      modifies this
      ensures UnderWay(start, {}) && (old(Inv(Now())) ==> Inv(Now()))
      ensures pc == RemoveDone(p) && mapping == old(mapping) - {entry}
    {
      ghost var s := Now();
      mapping := mapping - {entry};
      pc := RemoveDone(p);
      Took(start, s, EraseEntry, Now());
      Interfere(start, {});
    }

    method UnlockAfterRemove(ghost start: State, p: Proxy)
      requires UnderWay(start, {}) && pc == RemoveDone(p)
      modifies this
      ensures UnderWay(start, {}) && (old(Inv(Now())) ==> Inv(Now()))
      ensures pc.Idle? && mapping == old(mapping) && p in proxies && proxies[p].handle == Cleaned
    {
      ghost var s := Now();
      proxies := proxies[p := proxies[p].(handle := Cleaned)];
      pc := Idle;
      Took(start, s, EndRemove, Now());
    }

    /**
      remove(), as ~Handle of proxy p calls it, whoever holds the mutex, and whether or not p has
      expired. Only entries of proxies that were no longer live are gone. If p was live and its
      entry is a `stray` now, its key has lost its owner; otherwise p has no entry any more.
     */
    method Remove(p: Proxy) returns (stray: bool, ghost orderly: bool)
      requires Base(Now()) && Now().HoldsHandle(p) && !pc.Removes(p)
      modifies this
      ensures Base(Now()) && pc.Idle? && Kept(old(Now()), Now())
      ensures p in proxies && proxies[p].handle == Cleaned
      ensures stray ==> old(Now()).IsLive(p) && !KeysOwned(Now()) && exists e :: e in mapping && e.proxy == p
      ensures old(Inv(Now())) && orderly && !stray ==> Inv(Now()) && forall e | e in mapping :: e.proxy != p
    {
      ghost var start := Now();
      orderly := LockToRemove(start, p);
      var hit := FindOwnEntry(start, p);
      stray := false;
      if hit.Found? {
        var expired := Check(start, p, hit.entry);
        if expired {
          Erase(start, p, hit.entry);
        } else {
          stray := hit.entry.proxy == p;
        }
      }
      UnlockAfterRemove(start, p);
      assert stray ==> hit.entry in mapping;
    }
  }

  /** A step that is neither the caller's own nor against its rules. */
  predicate IsOthers(step: Step, given: set<Ref>, dying: set<Proxy>) {
    !(step.DropRef? && step.ref in given) && !(step.BeginRemove? && step.proxy in dying)
  }

  lemma OthersLeave(s: State, step: Step, given: set<Ref>, dying: set<Proxy>)
    requires Base(s) && Enabled(s, step) && IsOthers(step, given, dying)
    ensures var s' := Apply(s, step);
            && (forall r | r in given && r in s.user :: r in s'.user && r in s'.refs && s'.refs[r] == s.refs[r])
            && (forall p | p in dying && s.HoldsHandle(p) && !s.pc.Removes(p) ::
                  s'.HoldsHandle(p) && !s'.pc.Removes(p))
  {
  }

  /** The reference a call was given stays valid and denotes the same object. */
  lemma EnvironmentIsBounded(s: State, step: Step)
    requires Base(s) && Enabled(s, step) && step.IsEnvironment()
    ensures var s' := Apply(s, step);
            && s'.mapping == s.mapping && s'.pc == s.pc
            && forall r | s.pc.UsesRef(r) && r in s.user ::
                 r in s'.user && r in s'.refs && s'.refs[r] == s.refs[r]
  {
  }

  /** A statement that acts as one step of the protocol does what that step does. */
  lemma Took(start: State, s: State, step: Step, s': State)
    requires Base(start) && Kept(start, s)
    requires Base(s) && Enabled(s, step) && s' == Apply(s, step)
    ensures Base(s') && Kept(start, s')
    ensures Inv(s) && !FindsItselfLive(s, step) ==> Inv(s')
  {
    hide Base, Inv, Enabled, Apply, Kept, FindsItselfLive;
    StepKeepsBase(s, step);
    StepKeeps(s, step);
    KeptIsTransitive(start, s, s');
    if Inv(s) && !FindsItselfLive(s, step) {
      StepKeepsInv(s, step);
    }
  }
}
