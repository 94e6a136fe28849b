/**
  What becomes of the cache when a Handle is destroyed while its proxy is still live, as
  AudioMixer.destroy() does with the Java proxy it goes on holding.
 */
module ExplicitDestroy {
  import opened ProxyCacheProtocol
  import opened ProxyCacheSpec
  import opened ProxyCacheRefinement

  /** A state, and how it was reached. */
  datatype Path = Path(ss: seq<State>, steps: seq<Step>)
  {
    ghost predicate Valid() {
      IsPath(ss, steps)
    }

    ghost function First(): State
      requires Valid()
    {
      ss[0]
    }

    ghost function Last(): State
      requires Valid()
    {
      ss[|steps|]
    }
  }

  lemma Extend(path: Path, step: Step) returns (longer: Path)
    requires path.Valid() && Enabled(path.Last(), step)
    ensures longer.Valid() && longer.First() == path.First() && longer.Last() == Apply(path.Last(), step)
    ensures longer.steps == path.steps + [step] && path.ss <= longer.ss
  {
    hide Enabled, Apply;
    longer := Path(path.ss + [Apply(path.Last(), step)], path.steps + [step]);
  }

  function WithoutHandle(s: State, p: Proxy): State
    requires p in s.proxies
  {
    s.(proxies := s.proxies[p := s.proxies[p].(handle := Released)])
  }

  function OwnEntry(s: State, p: Proxy): Entry
    requires p in s.proxies
  {
    Entry(s.proxies[p].tag, s.proxies[p].ref, p)
  }

  /** The steps of a ~Handle whose proxy is live. */
  function Destruction(s: State, p: Proxy): seq<Step>
    requires p in s.proxies
  {
    [BeginRemove(p), FindOwn(Found(OwnEntry(s, p))), CheckExpired, EndRemove, ReleaseHandle(p)]
  }

  lemma FindsOwn(s: State, p: Proxy)
    requires Inv(s) && s.pc.Idle? && s.IsLive(p)
    ensures var e := OwnEntry(s, p);
            s.HoldsHandle(p) && e in s.mapping && s.KeyMatches(e, s.proxies[p].tag, s.proxies[p].ref)
  {
    LiveHasHandle(s, p);
  }

  lemma LiveIsRemoved(s: State, p: Proxy)
    requires s.pc.Idle? && s.IsLive(p) && s.HoldsHandle(p)
    requires OwnEntry(s, p) in s.mapping && s.KeyMatches(OwnEntry(s, p), s.proxies[p].tag, s.proxies[p].ref)
    ensures var e := OwnEntry(s, p);
            && Enabled(s, BeginRemove(p)) && Apply(s, BeginRemove(p)) == s.(pc := RemoveFind(p))
            && Enabled(s.(pc := RemoveFind(p)), FindOwn(Found(e)))
            && Apply(s.(pc := RemoveFind(p)), FindOwn(Found(e))) == s.(pc := RemoveCheck(p, e))
            && Enabled(s.(pc := RemoveCheck(p, e)), CheckExpired)
            && Apply(s.(pc := RemoveCheck(p, e)), CheckExpired) == s.(pc := RemoveDone(p))
  {
  }

  lemma RemovedIsReleased(s: State, p: Proxy)
    requires s.pc.Idle? && s.HoldsHandle(p)
    ensures var done := s.(pc := RemoveDone(p));
            && Enabled(done, EndRemove)
            && Enabled(Apply(done, EndRemove), ReleaseHandle(p))
            && Apply(Apply(done, EndRemove), ReleaseHandle(p)) == WithoutHandle(s, p)
  {
    var done := s.(pc := RemoveDone(p));
    assert Apply(Apply(done, EndRemove), ReleaseHandle(p)).proxies == WithoutHandle(s, p).proxies;
  }

  /**
    Whatever else is going on: destroying the Handle of a live proxy leaves the proxy's entry in
    the map and its key without an owner.
   */
  lemma DestroyLiveLeavesKey(path: Path, p: Proxy) returns (longer: Path)
    requires path.Valid() && Inv(path.Last()) && path.Last().pc.Idle? && path.Last().IsLive(p)
    ensures longer.Valid() && longer.First() == path.First() && path.ss <= longer.ss
    ensures longer.Last() == WithoutHandle(path.Last(), p)
    ensures OwnEntry(path.Last(), p) in longer.Last().mapping && !KeysOwned(longer.Last())
    ensures longer.steps == path.steps + Destruction(path.Last(), p)
  {
    hide Inv, Enabled, Apply, IsPath;
    var s := path.Last();
    FindsOwn(s, p);
    LiveIsRemoved(s, p);
    RemovedIsReleased(s, p);
    longer := Extend(path, BeginRemove(p));
    longer := Extend(longer, FindOwn(Found(OwnEntry(s, p))));
    longer := Extend(longer, CheckExpired);
    longer := Extend(longer, EndRemove);
    longer := Extend(longer, ReleaseHandle(p));
  }

  /** A key that is there although the reference it is made of is not valid. */
  ghost predicate Dangles(s: State, e: Entry) {
    e in s.mapping && e.ref !in s.refs
  }

  /**
    Once nobody else owns the reference of such a key it dangles, and when the reference is used
    again, for any object at all, get() answers with the proxy that was destroyed.
   */
  lemma ReuseFindsDestroyed(path: Path, e: Entry, o: Obj) returns (longer: Path)
    requires path.Valid() && path.Last().pc.Idle? && e in path.Last().mapping && path.Last().IsLive(e.proxy)
    requires e.ref in path.Last().refs && !path.Last().IsOwned(e.ref)
    ensures longer.Valid() && longer.First() == path.First() && path.ss <= longer.ss
    ensures |longer.ss| > |path.ss| && Dangles(longer.ss[|path.ss|], e)
    ensures longer.Last().pc == GetReturn(e.tag, e.ref, e.proxy)
    ensures longer.Last().refs == path.Last().refs[e.ref := o] && longer.Last().proxies == path.Last().proxies
  {
    var s := path.Last();
    longer := Extend(path, FreeRef(e.ref));
    assert longer.Last() == s.(refs := s.refs - {e.ref}) && longer.ss[|path.ss|] == longer.Last();
    longer := Extend(longer, NewRef(e.ref, o));
    var reused := s.(refs := s.refs[e.ref := o], user := s.user + {e.ref});
    assert (s.refs - {e.ref})[e.ref := o] == s.refs[e.ref := o];
    assert longer.Last() == reused;
    longer := Extend(longer, BeginGet(e.tag, e.ref));
    assert longer.Last() == reused.(pc := GetFind(e.tag, e.ref));
    longer := Extend(longer, Find(Found(e)));
    assert longer.Last() == reused.(pc := GetUpgrade(e.tag, e.ref, e));
    longer := Extend(longer, UpgradeWeak);
  }

  const CACHED := State(map[7 := 1], {}, map[0 := ProxyInfo(0, 7, 1, true, Held)], {Entry(0, 7, 0)}, Idle)

  /** Proxy 0 is made for object 1 at address 7, and is then all that keeps the object alive. */
  lemma MakeProxy() returns (path: Path)
    ensures path.Valid() && Init(path.First()) && path.Last() == CACHED && Inv(CACHED)
  {
    var empty := State(map[], {}, map[], {}, Idle);
    var held := empty.(refs := map[7 := 1], user := {7});
    path := Path([empty], []);
    path := Extend(path, NewRef(7, 1));
    assert path.Last() == held;
    path := Extend(path, BeginGet(0, 7));
    assert path.Last() == held.(pc := GetFind(0, 7));
    path := Extend(path, Find(Miss));
    assert path.Last() == held.(pc := GetAlloc(0, 7));
    path := Extend(path, Alloc(0, 7));
    assert map[7 := 1][7 := 1] == map[7 := 1];
    assert path.Last() == held.(proxies := CACHED.proxies, pc := GetEmplace(0, 7, 0));
    path := Extend(path, Emplace);
    assert path.Last() == held.(proxies := CACHED.proxies, mapping := {Entry(0, 7, 0)}, pc := GetReturn(0, 7, 0));
    path := Extend(path, Step.Return);
    assert path.Last() == CACHED.(user := {7});
    path := Extend(path, DropRef(7));
    assert path.Last() == CACHED;
  }

  /**
    A run of the program: a proxy for object 1 is made and destroyed while live. At moment k no
    Handle is left, yet the map is not empty; then the key dangles; and in the end a call for
    object 2, at the address object 1 had, is about to return the destroyed proxy of object 1.
   */
  lemma DestroyedProxyComesBack() returns (path: Path, k: nat)
    ensures path.Valid() && Init(path.First()) && k + 1 < |path.ss|
    ensures path.ss[k].mapping != {} && forall p | p in path.ss[k].proxies :: path.ss[k].proxies[p].handle != Held
    ensures Dangles(path.ss[k + 1], Entry(0, 7, 0))
    ensures var end := path.Last();
            && end.pc == GetReturn(0, 7, 0) && end.refs == map[7 := 2]
            && end.proxies == map[0 := ProxyInfo(0, 7, 1, true, Released)]
            && !IsTheProxy(Abs(end), Key(0, 2), 0)
  {
    hide Inv, Enabled, Apply, IsPath;
    var made := MakeProxy();
    var destroyed := DestroyLiveLeavesKey(made, 0);
    PathIsWhole(destroyed);
    k := |destroyed.ss| - 1;
    var s := destroyed.Last();
    assert s == WithoutHandle(CACHED, 0) && !s.IsOwned(7);
    assert map[7 := 1][7 := 2] == map[7 := 2];
    assert s.proxies == map[0 := ProxyInfo(0, 7, 1, true, Released)];
    path := ReuseFindsDestroyed(destroyed, Entry(0, 7, 0), 2);
    assert path.ss[k] == destroyed.ss[k] == s;
  }

  lemma PathIsWhole(path: Path)
    requires path.Valid()
    ensures |path.ss| == |path.steps| + 1
  {
  }
}
