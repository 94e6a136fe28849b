/**
  JniInterface: passing objects of one interface between C++ and Java, through two proxy caches
  that run the protocol, with calls on any number of threads in both directions. The two
  directions mirror each other, so the model has a near and a far side: _toJava is a call with
  C++ near, _fromJava a call with Java near.
 */
module LanguageBoundary {
  import opened ProxyCacheProtocol
  import opened ProxyCacheSpec
  import opened ProxyCacheRefinement
  import opened ExplicitDestroy
  import opened Identities

  /** A possibly null pointer to an object, by identity. */
  datatype Ptr = Null | To(id: nat)

  /**
    Where a call that passes x to the other side stands: before the tests for null and for a
    proxy; after them, with the object to look up; under the mutex of the cache; or back with
    the result y. The caller holds x throughout and y from then on. A call that is passed a
    proxy whose Handle is gone reads freed memory and has failed.
   */
  datatype Call = Testing(x: Ptr) | Looking(id: nat) | Inside(id: nat) | Done(x: Ptr, y: Ptr) | Failed(x: Ptr)

  type CallId = nat

  /**
    One side of the boundary: all objects that ever lived on it; the cache of those among them
    that are proxies for objects of the other side; and the calls that pass its objects over.
   */
  datatype Side = Side(objects: set<nat>, cache: State, calls: map<CallId, Call>)
  {
    /** The object's class is the proxy class, whether or not the proxy is still live. */
    predicate IsProxy(id: nat) {
      id in cache.proxies
    }

    /** Something can still reach the object: it is no proxy, or a proxy that has not expired. */
    predicate IsReachable(id: nat) {
      id in objects && (IsProxy(id) ==> cache.IsLive(id))
    }
  }

  datatype World = World(near: Side, far: Side)

  function Mirror(w: World): World {
    World(w.far, w.near)
  }

  /** The tag under which proxies of the interface are cached. */
  const TAG: Tag := 0

  datatype Change =
    | Create(id: nat)
    | Enter(call: CallId, x: Ptr)
    | Test(call: CallId)
    | Lock(call: CallId, ref: Ref)
    | CacheStep(step: Step)
    | Return(call: CallId)
    | Leave(call: CallId)
    | Mirrored(change: Change)

  /** A call is holding p: as what is passed to the near side, or as the result on the far side. */
  ghost predicate HeldByCall(w: World, p: Proxy) {
    || (exists t :: t in w.far.calls && (w.far.calls[t].Testing? || w.far.calls[t].Done?) && w.far.calls[t].x == To(p))
    || (exists t :: t in w.near.calls && w.near.calls[t].Done? && w.near.calls[t].y == To(p))
  }

  /** What the tests before the lock make of x: null stays null, a proxy is unwrapped. */
  ghost predicate IsTested(near: Side, x: Ptr, after: Call) {
    match x
    case Null => after == Done(Null, Null)
    case To(id) =>
      if !near.IsProxy(id) then after == Looking(id)
      else if near.cache.proxies[id].handle == Released then after == Failed(x)
      else after == Done(x, To(near.cache.proxies[id].obj))
  }

  /**
    A step of the far side's cache other than entering and leaving get(). A new proxy is a new
    object, and a proxy that a call holds does not expire. Nothing is asked of the object that
    a new proxy is for.
   */
  ghost predicate CacheMoves(w: World, far': Side, step: Step) {
    && Enabled(w.far.cache, step) && !step.BeginGet? && !step.Return?
    && (step.Expire? ==> !HeldByCall(w, step.proxy))
    && (step.Alloc? ==> step.proxy !in w.far.objects)
    && far' == Side(if step.Alloc? then w.far.objects + {step.proxy} else w.far.objects,
                    Apply(w.far.cache, step), w.far.calls)
  }

  ghost predicate Next(w: World, w': World, change: Change)
    decreases change
  {
    var near, far := w.near, w.far;
    match change
    case Create(id) => id !in near.objects && w' == w.(near := near.(objects := near.objects + {id}))
    case Enter(t, x) =>
      && t !in near.calls && (x.To? ==> near.IsReachable(x.id))
      && w' == w.(near := near.(calls := near.calls[t := Testing(x)]))
    case Test(t) =>
      && t in near.calls && near.calls[t].Testing? && w'.far == far && t in w'.near.calls
      && IsTested(near, near.calls[t].x, w'.near.calls[t])
      && w'.near == near.(calls := near.calls[t := w'.near.calls[t]])
    case Lock(t, r) =>
      && t in near.calls && near.calls[t].Looking? && r in far.cache.refs && far.cache.refs[r] == near.calls[t].id
      && Enabled(far.cache, BeginGet(TAG, r))
      && w' == World(near.(calls := near.calls[t := Inside(near.calls[t].id)]),
                     far.(cache := Apply(far.cache, BeginGet(TAG, r))))
    case CacheStep(step) => w'.near == near && CacheMoves(w, w'.far, step)
    case Return(t) =>
      && t in near.calls && near.calls[t].Inside? && Enabled(far.cache, Step.Return)
      && w' == World(near.(calls := near.calls[t := Done(To(near.calls[t].id), To(far.cache.pc.proxy))]),
                     far.(cache := Apply(far.cache, Step.Return)))
    case Leave(t) =>
      && t in near.calls && near.calls[t].Done?
      && w' == w.(near := near.(calls := near.calls - {t}))
    case Mirrored(c) => Next(Mirror(w), Mirror(w'), c)
  }

  /** The change is not a ~Handle that finds its own proxy live. */
  ghost predicate IsOrderly(w: World, change: Change)
    decreases change
  {
    match change
    case CacheStep(step) => !FindsItselfLive(w.far.cache, step)
    case Mirrored(c) => IsOrderly(Mirror(w), c)
    case _ => true
  }

  ghost predicate Start(w: World) {
    && w.near.objects == {} && w.near.calls == map[] && Init(w.near.cache)
    && w.far.objects == {} && w.far.calls == map[] && Init(w.far.cache)
  }

  // The invariant.

  /** An object of the side that is not a proxy. */
  predicate IsPlain(side: Side, id: nat) {
    id in side.objects && !side.IsProxy(id)
  }

  /** The cache of `side` has made, and is making, proxies for plain objects only. */
  ghost predicate SideOk(side: Side, other: Side) {
    && Inv(side.cache) && side.cache.proxies.Keys <= side.objects
    && (forall p | p in side.cache.proxies ::
          side.cache.proxies[p].tag == TAG && IsPlain(other, side.cache.proxies[p].obj))
    && (side.cache.pc.IsGet() ==> exists t :: t in other.calls && other.calls[t].Inside?)
  }

  /** The result y of passing x to `to` is right: the object x stands for, or x's live proxy. */
  ghost predicate Crosses(from: Side, to: Side, x: Ptr, y: Ptr) {
    match x
    case Null => y == Null
    case To(id) =>
      && y.To? && from.IsReachable(id)
      && if from.IsProxy(id) then y.id == from.cache.proxies[id].obj
         else to.cache.IsLive(y.id) && to.cache.proxies[y.id].obj == id
  }

  ghost predicate CallOk(from: Side, to: Side, call: Call) {
    match call
    case Testing(x) => x.To? ==> from.IsReachable(x.id)
    case Looking(id) => IsPlain(from, id)
    case Inside(id) =>
      && IsPlain(from, id)
      && to.cache.pc.IsGet() && to.cache.pc.tag == TAG
      && to.cache.pc.ref in to.cache.refs && to.cache.refs[to.cache.pc.ref] == id
    case Done(x, y) => Crosses(from, to, x, y)
    case Failed(_) => false
  }

  ghost predicate CallsOk(from: Side, to: Side) {
    && (forall t | t in from.calls :: CallOk(from, to, from.calls[t]))
    && (forall t, u | t in from.calls && u in from.calls && from.calls[t].Inside? && from.calls[u].Inside? :: t == u)
  }

  ghost predicate Ok(w: World) {
    SideOk(w.near, w.far) && SideOk(w.far, w.near) && CallsOk(w.near, w.far) && CallsOk(w.far, w.near)
  }

  /** What a side keeps: objects, classes, and what each proxy stands for. */
  ghost predicate SideKept(side: Side, side': Side) {
    && side.objects <= side'.objects
    && (forall id | id in side.objects :: side'.IsProxy(id) <==> side.IsProxy(id))
    && (forall p | side.IsProxy(p) :: side'.IsProxy(p) && SameProxy(side.cache.proxies[p], side'.cache.proxies[p]))
    && (forall p | side.IsProxy(p) && side'.cache.IsLive(p) :: side.cache.IsLive(p))
  }

  ghost predicate WorldKept(w: World, w': World) {
    SideKept(w.near, w'.near) && SideKept(w.far, w'.far)
  }

  // Steps of the cache.

  lemma CacheStepKeepsSides(w: World, w': World, step: Step)
    requires Ok(w) && w'.near == w.near && CacheMoves(w, w'.far, step) && !FindsItselfLive(w.far.cache, step)
    ensures SideOk(w'.near, w'.far) && SideOk(w'.far, w'.near) && SideKept(w.far, w'.far)
  {
    hide Inv, Base, Enabled, Apply, CallOk;
    var s := w.far.cache;
    InvIsBase(s);
    StepKeepsInv(s, step);
    GetGoesOn(s, step);
    StepKeeps(s, step);
    if step.Alloc? {
      ProxiesAfterAlloc(s, step.proxy, step.ref);
      NewProxyIsForPlain(w);
    } else {
      ProxiesAfter(s, step);
    }
  }

  /** What get() is at work on was found to be no proxy before the lock was taken. */
  lemma NewProxyIsForPlain(w: World)
    requires Ok(w) && w.far.cache.pc.IsGet()
    ensures var s := w.far.cache; s.pc.tag == TAG && s.pc.ref in s.refs && IsPlain(w.near, s.refs[s.pc.ref])
  {
    var t :| t in w.near.calls && w.near.calls[t].Inside?;
    assert CallOk(w.near, w.far, w.near.calls[t]);
  }

  lemma InvIsBase(s: State)
    requires Inv(s)
    ensures Base(s)
  {
  }

  lemma CacheStepKeepsOut(w: World, w': World, step: Step)
    requires Ok(w) && w'.near == w.near && CacheMoves(w, w'.far, step)
    ensures CallsOk(w'.near, w'.far)
  {
    hide Inv, Base, Enabled, Apply;
    var s := w.far.cache;
    InvIsBase(s);
    GetGoesOn(s, step);
    LiveAfter(s, step);
    StepKeeps(s, step);
    forall t | t in w.near.calls ensures CallOk(w'.near, w'.far, w.near.calls[t]) {
      assert CallOk(w.near, w.far, w.near.calls[t]);
    }
  }

  lemma CacheStepKeepsIn(w: World, w': World, step: Step)
    requires Ok(w) && w'.near == w.near && CacheMoves(w, w'.far, step)
    ensures CallsOk(w'.far, w'.near)
  {
    hide Inv, Base, Enabled, Apply;
    var s := w.far.cache;
    InvIsBase(s);
    LiveAfter(s, step);
    StepKeeps(s, step);
    if step.Alloc? {
      ProxiesAfterAlloc(s, step.proxy, step.ref);
    } else {
      ProxiesAfter(s, step);
    }
    forall t | t in w.far.calls ensures CallOk(w'.far, w'.near, w.far.calls[t]) {
      assert CallOk(w.far, w.near, w.far.calls[t]);
    }
  }

  // The other changes.

  ghost predicate SameProxies(s: State, s': State) {
    s'.proxies == s.proxies
  }

  /** What is right of a call stays right while the proxies on both sides stay what they are. */
  lemma CallOkStays(from: Side, to: Side, from': Side, to': Side, call: Call)
    requires CallOk(from, to, call) && from.objects <= from'.objects
    requires SameProxies(from.cache, from'.cache) && SameProxies(to.cache, to'.cache)
    requires call.Inside? ==> to'.cache == to.cache
    ensures CallOk(from', to', call)
  {
  }

  lemma SideOkStays(side: Side, other: Side, other': Side)
    requires SideOk(side, other) && other.objects <= other'.objects && other'.cache.proxies == other.cache.proxies
    requires forall t | t in other.calls && other.calls[t].Inside? :: t in other'.calls && other'.calls[t].Inside?
    ensures SideOk(side, other')
  {
    hide Inv;
  }

  lemma CallsOkStay(from: Side, to: Side, from': Side, to': Side)
    requires CallsOk(from, to) && from'.calls == from.calls && from.objects <= from'.objects
    requires SameProxies(from.cache, from'.cache) && SameProxies(to.cache, to'.cache)
    requires to'.cache == to.cache
    ensures CallsOk(from', to')
  {
    hide CallOk;
    forall t | t in from'.calls ensures CallOk(from', to', from'.calls[t]) {
      CallOkStays(from, to, from', to', from.calls[t]);
    }
  }

  /** The calls stay right when one of them changes, if that one is right. */
  lemma CallsOkAfter(from: Side, to: Side, from': Side, to': Side, t: CallId)
    requires CallsOk(from, to) && from.objects <= from'.objects
    requires SameProxies(from.cache, from'.cache) && SameProxies(to.cache, to'.cache)
    requires from'.calls.Keys <= from.calls.Keys + {t}
    requires forall u | u in from'.calls && u != t :: from'.calls[u] == from.calls[u]
    requires t in from'.calls ==> CallOk(from', to', from'.calls[t])
    requires (exists u :: u in from.calls && u != t && from.calls[u].Inside?)
               ==> to'.cache == to.cache && !(t in from'.calls && from'.calls[t].Inside?)
    ensures CallsOk(from', to')
  {
    hide CallOk, SameProxies;
    forall u | u in from'.calls ensures CallOk(from', to', from'.calls[u]) {
      if u != t {
        CallOkStays(from, to, from', to', from.calls[u]);
      }
    }
  }

  lemma CreateKeepsOk(w: World, w': World, id: nat)
    requires Ok(w) && Next(w, w', Create(id))
    ensures Ok(w') && WorldKept(w, w')
  {
    hide Inv, CallOk;
    SideOkStays(w.far, w.near, w'.near);
    CallsOkStay(w.near, w.far, w'.near, w'.far);
    CallsOkStay(w.far, w.near, w'.far, w'.near);
  }

  lemma CallChangeKeepsOk(w: World, w': World, change: Change)
    requires Ok(w) && Next(w, w', change) && (change.Enter? || change.Test? || change.Leave?)
    ensures Ok(w') && WorldKept(w, w')
  {
    hide Inv;
    var t := change.call;
    assert t in w.near.calls ==> CallOk(w.near, w.far, w.near.calls[t]);
    LiveHaveHandles(w.near.cache);
    assert t in w'.near.calls ==> CallOk(w'.near, w'.far, w'.near.calls[t]);
    hide CallOk;
    SideOkStays(w.far, w.near, w'.near);
    CallsOkAfter(w.near, w.far, w'.near, w'.far, t);
    CallsOkStay(w.far, w.near, w'.far, w'.near);
  }

  lemma LiveHaveHandles(s: State)
    requires Inv(s)
    ensures forall p | s.IsLive(p) :: s.HoldsHandle(p)
  {
    forall p | s.IsLive(p) ensures s.HoldsHandle(p) {
      LiveHasHandle(s, p);
    }
  }

  lemma LockKeepsOk(w: World, w': World, t: CallId, r: Ref)
    requires Ok(w) && Next(w, w', Lock(t, r))
    ensures Ok(w') && WorldKept(w, w')
  {
    StepKeepsInv(w.far.cache, BeginGet(TAG, r));
    assert w.far.cache.pc.Idle? && w'.far.cache == w.far.cache.(pc := GetFind(TAG, r));
    hide Inv, Enabled, Apply;
    assert CallOk(w.near, w.far, w.near.calls[t]);
    assert CallOk(w'.near, w'.far, w'.near.calls[t]);
    SideOkStays(w.near, w.far, w'.far);
    NoneInside(w);
    CallsOkAfter(w.near, w.far, w'.near, w'.far, t);
    CallsOkStay(w.far, w.near, w'.far, w'.near);
  }

  lemma NoneInside(w: World)
    requires CallsOk(w.near, w.far) && !w.far.cache.pc.IsGet()
    ensures forall t | t in w.near.calls :: !w.near.calls[t].Inside?
  {
    forall t | t in w.near.calls ensures !w.near.calls[t].Inside? {
      assert CallOk(w.near, w.far, w.near.calls[t]);
    }
  }

  lemma ReturnHolds(s: State)
    requires Inv(s) && Enabled(s, Step.Return)
    ensures s.pc.GetReturn? && s.pc.ref in s.refs && s.IsLive(s.pc.proxy)
    ensures s.proxies[s.pc.proxy].obj == s.refs[s.pc.ref]
    ensures Apply(s, Step.Return) == s.(pc := Idle)
  {
  }

  lemma ReturnKeepsOk(w: World, w': World, t: CallId)
    requires Ok(w) && Next(w, w', Change.Return(t))
    ensures Ok(w') && WorldKept(w, w')
  {
    hide Inv, Enabled, Apply;
    StepKeepsInv(w.far.cache, Step.Return);
    ReturnHolds(w.far.cache);
    assert CallOk(w.near, w.far, w.near.calls[t]);
    assert CallOk(w'.near, w'.far, w'.near.calls[t]);
    hide CallOk;
    SideOkStays(w.near, w.far, w'.far);
    CallsOkAfter(w.near, w.far, w'.near, w'.far, t);
    CallsOkStay(w.far, w.near, w'.far, w'.near);
  }

  lemma {:induction false} NextKeepsOk(w: World, w': World, change: Change)
    requires Ok(w) && Next(w, w', change) && IsOrderly(w, change)
    ensures Ok(w') && WorldKept(w, w')
    decreases change
  {
    hide Inv, Enabled, Apply, CallOk, FindsItselfLive;
    match change
    case Lock(t, r) => LockKeepsOk(w, w', t, r);
    case Return(t) => ReturnKeepsOk(w, w', t);
    case CacheStep(step) =>
      CacheStepKeepsSides(w, w', step);
      CacheStepKeepsOut(w, w', step);
      CacheStepKeepsIn(w, w', step);
    case Mirrored(c) => NextKeepsOk(Mirror(w), Mirror(w'), c);
    case Create(id) => CreateKeepsOk(w, w', id);
    case _ => CallChangeKeepsOk(w, w', change);
  }

  // Histories.

  ghost predicate Follows(ws: seq<World>, changes: seq<Change>) {
    |ws| == |changes| + 1 && forall i | 0 <= i < |changes| :: Next(ws[i], ws[i + 1], changes[i])
  }

  /** From the start, and with no ~Handle that finds its own proxy live. */
  ghost predicate IsHistory(ws: seq<World>, changes: seq<Change>) {
    && Follows(ws, changes) && Start(ws[0])
    && forall i | 0 <= i < |changes| :: IsOrderly(ws[i], changes[i])
  }

  lemma StartIsOk(w: World)
    requires Start(w)
    ensures Ok(w)
  {
    InitInv(w.near.cache);
    InitInv(w.far.cache);
  }

  lemma {:induction false} HistoryIsOk(ws: seq<World>, changes: seq<Change>, i: nat)
    requires IsHistory(ws, changes) && i < |ws|
    ensures Ok(ws[i])
  {
    hide Ok, Next, Start, IsOrderly;
    if i == 0 {
      StartIsOk(ws[0]);
    } else {
      HistoryIsOk(ws, changes, i - 1);
      NextKeepsOk(ws[i - 1], ws[i], changes[i - 1]);
    }
  }

  lemma KeptComposes(w: World, w': World, w'': World)
    requires Ok(w) && WorldKept(w, w') && WorldKept(w', w'')
    ensures WorldKept(w, w'')
  {
    hide Inv, CallsOk;
  }

  lemma {:induction false} HistoryKeeps(ws: seq<World>, changes: seq<Change>, i: nat, k: nat)
    requires IsHistory(ws, changes) && i <= k < |ws|
    ensures WorldKept(ws[i], ws[k])
    decreases k
  {
    hide Ok, Next, Start, IsOrderly, SideKept;
    if i == k {
      KeptAtOnce(ws[i]);
    } else {
      HistoryIsOk(ws, changes, i);
      HistoryIsOk(ws, changes, k - 1);
      HistoryKeeps(ws, changes, i, k - 1);
      NextKeepsOk(ws[k - 1], ws[k], changes[k - 1]);
      KeptComposes(ws[i], ws[k - 1], ws[k]);
    }
  }

  lemma KeptAtOnce(w: World)
    ensures WorldKept(w, w)
  {
  }

  /**
    No proxy of a proxy is ever made, in either direction, although the test for a proxy comes
    before the lock and other threads run between the two.
   */
  lemma NoProxyOfProxy(ws: seq<World>, changes: seq<Change>, i: nat, p: Proxy)
    requires IsHistory(ws, changes) && i < |ws|
    ensures p in ws[i].far.cache.proxies ==> IsPlain(ws[i].near, ws[i].far.cache.proxies[p].obj)
    ensures p in ws[i].near.cache.proxies ==> IsPlain(ws[i].far, ws[i].near.cache.proxies[p].obj)
  {
    HistoryIsOk(ws, changes, i);
  }

  /** The result of a call, from the moment it is there and for as long as it is held, is right. */
  lemma DoneIsRight(ws: seq<World>, changes: seq<Change>, i: nat, t: CallId)
    requires IsHistory(ws, changes) && i < |ws|
    ensures t in ws[i].near.calls && ws[i].near.calls[t].Done? ==>
              Crosses(ws[i].near, ws[i].far, ws[i].near.calls[t].x, ws[i].near.calls[t].y)
    ensures t in ws[i].far.calls && ws[i].far.calls[t].Done? ==>
              Crosses(ws[i].far, ws[i].near, ws[i].far.calls[t].x, ws[i].far.calls[t].y)
  {
    HistoryIsOk(ws, changes, i);
    hide Crosses, SideOk;
    var w := ws[i];
    assert t in w.near.calls ==> CallOk(w.near, w.far, w.near.calls[t]);
    assert t in w.far.calls ==> CallOk(w.far, w.near, w.far.calls[t]);
  }

  /** And no call ever reads a Handle that is gone. */
  lemma NoCallFails(ws: seq<World>, changes: seq<Change>, i: nat, t: CallId)
    requires IsHistory(ws, changes) && i < |ws|
    ensures t in ws[i].near.calls ==> !ws[i].near.calls[t].Failed?
    ensures t in ws[i].far.calls ==> !ws[i].far.calls[t].Failed?
  {
    HistoryIsOk(ws, changes, i);
    hide Crosses, SideOk;
    var w := ws[i];
    assert t in w.near.calls ==> CallOk(w.near, w.far, w.near.calls[t]);
    assert t in w.far.calls ==> CallOk(w.far, w.near, w.far.calls[t]);
  }

  /** What a call was made for. */
  function Argument(call: Call): Ptr {
    match call
    case Testing(x) => x
    case Looking(id) => To(id)
    case Inside(id) => To(id)
    case Done(x, _) => x
    case Failed(x) => x
  }

  /** The change is call t, of the near side or of the far side, returning to its caller. */
  predicate IsLeave(change: Change, t: CallId, near: bool) {
    match change
    case Leave(u) => near && u == t
    case Mirrored(c) => IsLeave(c, t, !near)
    case _ => false
  }

  lemma {:induction false} ArgumentsStay(w: World, w': World, change: Change, t: CallId)
    requires Next(w, w', change)
    ensures t in w.near.calls && !IsLeave(change, t, true) ==>
              t in w'.near.calls && Argument(w'.near.calls[t]) == Argument(w.near.calls[t])
    ensures t in w.far.calls && !IsLeave(change, t, false) ==>
              t in w'.far.calls && Argument(w'.far.calls[t]) == Argument(w.far.calls[t])
    decreases change
  {
    hide Enabled, Apply;
    if change.Mirrored? {
      ArgumentsStay(Mirror(w), Mirror(w'), change.change, t);
    }
  }

  /** Until it returns to its caller a call is for the object it was entered with. */
  lemma {:induction false} EnteredFor(ws: seq<World>, changes: seq<Change>, i: nat, k: nat, t: CallId, x: Ptr)
    requires Follows(ws, changes) && i < k < |ws| && changes[i] == Enter(t, x)
    requires forall j | i < j < k :: !IsLeave(changes[j], t, true)
    ensures t in ws[k].near.calls && Argument(ws[k].near.calls[t]) == x
  {
    if k == i + 1 {
      assert Next(ws[i], ws[k], Enter(t, x));
    } else {
      hide Next;
      EnteredFor(ws, changes, i, k - 1, t, x);
      ArgumentsStay(ws[k - 1], ws[k], changes[k - 1], t);
    }
  }

  lemma OneProxy(side: Side, other: Side, p: Proxy, q: Proxy)
    requires SideOk(side, other) && side.cache.IsLive(p) && side.cache.IsLive(q)
    requires side.cache.proxies[p].obj == side.cache.proxies[q].obj
    ensures p == q
  {
    LiveIsUnique(side.cache, p, q);
  }

  /** Crossing over and back gives the same object. */
  lemma BackAgain(w: World, w': World, x: Ptr, y: Ptr, x': Ptr)
    requires Ok(w) && Ok(w') && WorldKept(w, w')
    requires x.To? ==> w'.near.IsReachable(x.id)
    requires Crosses(w.near, w.far, x, y) && Crosses(w'.far, w'.near, y, x')
    ensures x' == x
  {
    hide Inv, CallsOk;
    if x.To? {
      if w.near.IsProxy(x.id) {
        assert LiveIn(w.near, x.id) && IsPlain(w.far, y.id) && !w'.far.IsProxy(y.id);
        OneProxy(w'.near, w'.far, x'.id, x.id);
      } else {
        assert w.far.IsProxy(y.id);
      }
    }
  }

  predicate LiveIn(side: Side, p: Proxy) {
    p in side.cache.proxies && side.cache.IsLive(p)
  }

  /**
    _fromJava(_toJava(c)) is c: for every c and every history, whatever all threads did between
    the two calls, provided something kept c reachable.
   */
  lemma FromJavaOfToJava(ws: seq<World>, changes: seq<Change>, i: nat, k: nat,
                         t: CallId, u: CallId, c: Ptr, j: Ptr, c': Ptr)
    requires IsHistory(ws, changes) && i <= k < |ws|
    requires t in ws[i].near.calls && ws[i].near.calls[t] == Done(c, j)
    requires u in ws[k].far.calls && ws[k].far.calls[u] == Done(j, c')
    requires c.To? ==> ws[k].near.IsReachable(c.id)
    ensures c' == c
  {
    hide Ok, WorldKept, Crosses;
    HistoryIsOk(ws, changes, i);
    HistoryIsOk(ws, changes, k);
    HistoryKeeps(ws, changes, i, k);
    DoneIsRight(ws, changes, i, t);
    DoneIsRight(ws, changes, k, u);
    BackAgain(ws[i], ws[k], c, j, c');
  }

  /** _toJava(_fromJava(j)) is the same Java object as j. */
  lemma ToJavaOfFromJava(ws: seq<World>, changes: seq<Change>, i: nat, k: nat,
                         t: CallId, u: CallId, j: Ptr, c: Ptr, j': Ptr)
    requires IsHistory(ws, changes) && i <= k < |ws|
    requires t in ws[i].far.calls && ws[i].far.calls[t] == Done(j, c)
    requires u in ws[k].near.calls && ws[k].near.calls[u] == Done(c, j')
    requires j.To? ==> ws[k].far.IsReachable(j.id)
    ensures j' == j
  {
    hide Crosses;
    HistoryIsOk(ws, changes, i);
    HistoryIsOk(ws, changes, k);
    HistoryKeeps(ws, changes, i, k);
    DoneIsRight(ws, changes, i, t);
    DoneIsRight(ws, changes, k, u);
    hide SideOk, CallsOk, SideKept;
    BackAgain(Mirror(ws[i]), Mirror(ws[k]), j, c, j');
  }

  /** Passing the same object again gives the same result while the first one is reachable. */
  lemma SameResultWhileReachable(ws: seq<World>, changes: seq<Change>, i: nat, k: nat,
                                 t: CallId, u: CallId, x: Ptr, y: Ptr, y': Ptr)
    requires IsHistory(ws, changes) && i <= k < |ws|
    requires t in ws[i].near.calls && ws[i].near.calls[t] == Done(x, y)
    requires u in ws[k].near.calls && ws[k].near.calls[u] == Done(x, y')
    requires y.To? ==> ws[k].far.IsReachable(y.id)
    ensures y' == y
  {
    HistoryIsOk(ws, changes, i);
    HistoryIsOk(ws, changes, k);
    HistoryKeeps(ws, changes, i, k);
    DoneIsRight(ws, changes, i, t);
    DoneIsRight(ws, changes, k, u);
    hide Inv, CallsOk;
    if x.To? && !ws[i].near.IsProxy(x.id) {
      assert ws[i].far.IsProxy(y.id);
      OneProxy(ws[k].far, ws[k].near, y.id, y'.id);
    }
  }

  // The caches of a history are the refined ones.

  lemma CacheRefines(s: State, s': State, step: Step)
    requires Inv(s) && Enabled(s, step) && s' == Apply(s, step)
    ensures exists e :: SpecNext(Abs(s), Abs(s'), e)
  {
    StepRefines(s, step);
  }

  /** Whatever changes, each of the two caches takes a step of its specification. */
  lemma {:induction false} CachesRefine(w: World, w': World, change: Change)
    requires Ok(w) && Next(w, w', change)
    ensures exists e :: SpecNext(Abs(w.far.cache), Abs(w'.far.cache), e)
    ensures exists e :: SpecNext(Abs(w.near.cache), Abs(w'.near.cache), e)
    decreases change
  {
    hide Inv, Enabled, Apply, Abs, CallOk;
    assert SpecNext(Abs(w.far.cache), Abs(w.far.cache), Internal);
    assert SpecNext(Abs(w.near.cache), Abs(w.near.cache), Internal);
    match change
    case Lock(_, r) => CacheRefines(w.far.cache, w'.far.cache, BeginGet(TAG, r));
    case CacheStep(step) => CacheRefines(w.far.cache, w'.far.cache, step);
    case Return(_) => CacheRefines(w.far.cache, w'.far.cache, Step.Return);
    case Mirrored(c) => CachesRefine(Mirror(w), Mirror(w'), c);
    case _ =>
  }

  // Every call can be completed, orderly or not.

  /** Exactly the call that is inside holds the mutex for get(). */
  ghost predicate Going(w: World) {
    && Base(w.far.cache) && w.far.cache.proxies.Keys <= w.far.objects
    && (w.far.cache.pc.IsGet() ==> exists t :: t in w.near.calls && w.near.calls[t].Inside?)
    && (forall t | t in w.near.calls && w.near.calls[t].Inside? :: w.far.cache.pc.IsGet())
    && (forall t, u | t in w.near.calls && u in w.near.calls && w.near.calls[t].Inside? && w.near.calls[u].Inside? ::
          t == u)
  }

  lemma CacheStepKeepsGoing(w: World, w': World, step: Step)
    requires Going(w) && w'.near == w.near && CacheMoves(w, w'.far, step)
    ensures Going(w')
  {
    hide Base, Enabled, Apply;
    StepKeepsBase(w.far.cache, step);
    GetGoesOn(w.far.cache, step);
    if step.Alloc? {
      ProxiesAfterAlloc(w.far.cache, step.proxy, step.ref);
    } else {
      ProxiesAfter(w.far.cache, step);
    }
  }

  /** The other changes make no proxies, and enter or leave get() together with the call. */
  lemma CallStepKeepsGoing(w: World, w': World, change: Change)
    requires Going(w) && Next(w, w', change) && !change.CacheStep? && !change.Mirrored?
    ensures Going(w')
  {
    if change.Lock? {
      StepKeepsBase(w.far.cache, BeginGet(TAG, change.ref));
      assert w'.near.calls[change.call].Inside?;
    } else if change.Return? {
      StepKeepsBase(w.far.cache, Step.Return);
    } else if w.far.cache.pc.IsGet() {
      hide Base;
      var u :| u in w.near.calls && w.near.calls[u].Inside?;
      assert u in w'.near.calls && w'.near.calls[u].Inside?;
    }
  }

  lemma {:induction false} NextKeepsGoing(w: World, w': World, change: Change)
    requires Going(w) && Going(Mirror(w)) && Next(w, w', change)
    ensures Going(w') && Going(Mirror(w'))
    decreases change
  {
    hide Base, Enabled, Apply;
    match change
    case CacheStep(step) => CacheStepKeepsGoing(w, w', step);
    case Mirrored(c) => NextKeepsGoing(Mirror(w), Mirror(w'), c);
    case _ => CallStepKeepsGoing(w, w', change);
  }

  lemma StartIsGoing(w: World)
    requires Start(w)
    ensures Going(w) && Going(Mirror(w))
  {
    InitBase(w.near.cache);
    InitBase(w.far.cache);
  }

  lemma {:induction false} AlwaysGoing(ws: seq<World>, changes: seq<Change>, i: nat)
    requires Follows(ws, changes) && Start(ws[0]) && i < |ws|
    ensures Going(ws[i]) && Going(Mirror(ws[i]))
  {
    hide Going, Next, Start;
    if i == 0 {
      StartIsGoing(ws[0]);
    } else {
      AlwaysGoing(ws, changes, i - 1);
      NextKeepsGoing(ws[i - 1], ws[i], changes[i - 1]);
    }
  }

  ghost predicate HasRef(s: State, id: nat) {
    exists r :: r in s.user && r in s.refs && s.refs[r] == id
  }

  /** How many changes a call still needs if the others cooperate. */
  ghost function Rank(w: World, t: CallId): nat
    requires t in w.near.calls
  {
    match w.near.calls[t]
    case Testing(_) => 20
    case Looking(id) => 8 + Remaining(w.far.cache.pc) + if HasRef(w.far.cache, id) then 0 else 1
    case Inside(_) => Remaining(w.far.cache.pc)
    case _ => 0
  }

  /** The holder of the mutex can go on, be it a call of get() or of remove(). */
  lemma HolderHasStep(s: State, objects: set<nat>) returns (step: Step)
    requires Base(s) && !s.pc.Idle? && s.proxies.Keys <= objects
    ensures Enabled(s, step) && !step.IsEnvironment() && !step.BeginGet? && (step.Alloc? ==> step.proxy !in objects)
    ensures Remaining(Apply(s, step).pc) < Remaining(s.pc) && (step.Return? ==> s.pc.GetReturn?)
    ensures forall id | HasRef(s, id) :: HasRef(Apply(s, step), id)
  {
    step := HolderCanStep(s);
    if step.Alloc? {
      var p := FreshExists(objects);
      step := Alloc(p, s.pc.ref);
    }
    LockIsReleased(s, step);
    HolderKeepsRefs(s, step);
  }

  lemma HolderKeepsRefs(s: State, step: Step)
    requires Base(s) && Enabled(s, step) && !step.IsEnvironment()
    ensures forall id | HasRef(s, id) :: HasRef(Apply(s, step), id)
  {
    var s' := Apply(s, step);
    forall id | HasRef(s, id) ensures HasRef(s', id) {
      var r :| r in s.user && r in s.refs && s.refs[r] == id;
      assert r in s'.user && r in s'.refs && s'.refs[r] == id;
    }
  }

  lemma HolderAdvances(w: World) returns (w': World, change: Change)
    requires Going(w) && !w.far.cache.pc.Idle?
    ensures Next(w, w', change) && Remaining(w'.far.cache.pc) < Remaining(w.far.cache.pc)
    ensures forall id | HasRef(w.far.cache, id) :: HasRef(w'.far.cache, id)
    ensures forall t | t in w.near.calls :: t in w'.near.calls &&
              (w'.near.calls[t] == w.near.calls[t] || (w.near.calls[t].Inside? && w'.near.calls[t].Done?))
  {
    hide Base, Enabled, Apply, Remaining, HasRef;
    var s := w.far.cache;
    var step := HolderHasStep(s, w.far.objects);
    var s' := Apply(s, step);
    if step.Return? {
      var u :| u in w.near.calls && w.near.calls[u].Inside?;
      change := Change.Return(u);
      var done := Done(To(w.near.calls[u].id), To(s.pc.proxy));
      w' := World(w.near.(calls := w.near.calls[u := done]), w.far.(cache := s'));
    } else {
      change := CacheStep(step);
      var objects := if step.Alloc? then w.far.objects + {step.proxy} else w.far.objects;
      w' := w.(far := Side(objects, s', w.far.calls));
      assert CacheMoves(w, w'.far, step);
    }
  }

  lemma RemainingIsBounded(pc: Pc)
    ensures Remaining(pc) <= 6 && (Remaining(pc) == 0 <==> pc.Idle?)
  {
  }

  predicate IsOver(call: Call) {
    call.Done? || call.Failed?
  }

  /** A call that is not over has, or waits for someone who has, a change to make. */
  lemma CallAdvances(w: World, t: CallId) returns (w': World, change: Change)
    requires Going(w) && t in w.near.calls && !IsOver(w.near.calls[t])
    ensures Next(w, w', change) && t in w'.near.calls && Rank(w', t) < Rank(w, t)
  {
    hide Base, Remaining;
    var s := w.far.cache;
    RemainingIsBounded(s.pc);
    if w.near.calls[t].Testing? {
      w', change := TestAdvances(w, t);
    } else if !s.pc.Idle? {
      w', change := HolderAdvances(w);
    } else if HasRef(s, w.near.calls[t].id) {
      w', change := LockAdvances(w, t, w.near.calls[t].id);
    } else {
      w', change := RefAdvances(w, t, w.near.calls[t].id);
    }
  }

  lemma TestAdvances(w: World, t: CallId) returns (w': World, change: Change)
    requires t in w.near.calls && w.near.calls[t].Testing?
    ensures Next(w, w', change) && t in w'.near.calls && Rank(w', t) < Rank(w, t)
  {
    hide Remaining, HasRef;
    RemainingIsBounded(w.far.cache.pc);
    var x := w.near.calls[t].x;
    var after := if x.Null? then Done(Null, Null)
                 else if !w.near.IsProxy(x.id) then Looking(x.id)
                 else if w.near.cache.proxies[x.id].handle == Released then Failed(x)
                 else Done(x, To(w.near.cache.proxies[x.id].obj));
    change := Test(t);
    w' := w.(near := w.near.(calls := w.near.calls[t := after]));
  }

  lemma LockAdvances(w: World, t: CallId, id: nat) returns (w': World, change: Change)
    requires t in w.near.calls && w.near.calls[t] == Looking(id)
    requires w.far.cache.pc.Idle? && HasRef(w.far.cache, id)
    ensures Next(w, w', change) && t in w'.near.calls && Rank(w', t) < Rank(w, t)
  {
    var s := w.far.cache;
    var r :| r in s.user && r in s.refs && s.refs[r] == id;
    change := Lock(t, r);
    w' := World(w.near.(calls := w.near.calls[t := Inside(id)]), w.far.(cache := Apply(s, BeginGet(TAG, r))));
    RemainingIsBounded(w'.far.cache.pc);
  }

  lemma RefAdvances(w: World, t: CallId, id: nat) returns (w': World, change: Change)
    requires t in w.near.calls && w.near.calls[t] == Looking(id)
    requires !HasRef(w.far.cache, id)
    ensures Next(w, w', change) && t in w'.near.calls && Rank(w', t) < Rank(w, t)
  {
    var s := w.far.cache;
    var r := FreshExists(s.refs.Keys);
    var s' := Apply(s, NewRef(r, id));
    assert r in s'.user && r in s'.refs && s'.refs[r] == id;
    change := CacheStep(NewRef(r, id));
    w' := w.(far := w.far.(cache := s'));
    assert CacheMoves(w, w'.far, NewRef(r, id));
  }

  /**
    No call is ever stuck: from any world that can arise, whatever other calls and cleanups are
    under way and whoever holds the mutex, at most twenty changes bring it to its end.
   */
  lemma {:induction false} CallCompletes(w: World, t: CallId) returns (ws: seq<World>, changes: seq<Change>)
    requires Going(w) && Going(Mirror(w)) && t in w.near.calls
    ensures Follows(ws, changes) && ws[0] == w && |changes| <= Rank(w, t) <= 20
    ensures var end := ws[|changes|]; t in end.near.calls && IsOver(end.near.calls[t])
    decreases Rank(w, t)
  {
    hide Going, Next, Remaining, HasRef;
    RemainingIsBounded(w.far.cache.pc);
    if IsOver(w.near.calls[t]) {
      ws, changes := [w], [];
    } else {
      var w', change := CallAdvances(w, t);
      NextKeepsGoing(w, w', change);
      var ws', changes' := CallCompletes(w', t);
      ws, changes := [w] + ws', [change] + changes';
    }
  }

  // What happens to a proxy that is destroyed while it is live.

  /** Following the changes, then one more. */
  lemma Then(ws: seq<World>, changes: seq<Change>, w': World, change: Change)
    requires Follows(ws, changes) && Next(ws[|changes|], w', change)
    ensures Follows(ws + [w'], changes + [change])
  {
    hide Next;
  }

  lemma CacheThen(ws: seq<World>, changes: seq<Change>, s': State, step: Step)
    returns (ws': seq<World>, changes': seq<Change>)
    requires Follows(ws, changes) && !step.BeginGet? && !step.Return? && !step.Expire? && !step.Alloc?
    requires Enabled(ws[|changes|].far.cache, step) && s' == Apply(ws[|changes|].far.cache, step)
    ensures Follows(ws', changes') && ws'[0] == ws[0] && |changes'| == |changes| + 1
    ensures ws'[|changes'|] == ws[|changes|].(far := ws[|changes|].far.(cache := s'))
  {
    hide Enabled, Apply;
    var w := ws[|changes|];
    var w' := w.(far := w.far.(cache := s'));
    assert CacheMoves(w, w'.far, step);
    Then(ws, changes, w', CacheStep(step));
    ws', changes' := ws + [w'], changes + [CacheStep(step)];
  }

  /**
    In any world where all has been orderly so far: destroy the Handle of a live proxy, then pass
    the proxy back, and the call fails.
   */
  lemma DestroyedProxyFails(w: World, p: Proxy, t: CallId) returns (ws: seq<World>, changes: seq<Change>)
    requires Ok(w) && w.far.cache.pc.Idle? && w.far.cache.IsLive(p) && t !in w.far.calls
    ensures Follows(ws, changes) && ws[0] == w
    ensures var end := ws[|changes|]; t in end.far.calls && end.far.calls[t] == Failed(To(p))
  {
    hide Enabled, Apply, Inv, Next, CallsOk;
    var s := w.far.cache;
    FindsOwn(s, p);
    LiveIsRemoved(s, p);
    RemovedIsReleased(s, p);
    var e := OwnEntry(s, p);
    ws, changes := [w], [];
    ws, changes := CacheThen(ws, changes, s.(pc := RemoveFind(p)), BeginRemove(p));
    ws, changes := CacheThen(ws, changes, s.(pc := RemoveCheck(p, e)), FindOwn(Found(e)));
    ws, changes := CacheThen(ws, changes, s.(pc := RemoveDone(p)), CheckExpired);
    ws, changes := CacheThen(ws, changes, Apply(s.(pc := RemoveDone(p)), EndRemove), EndRemove);
    ws, changes := CacheThen(ws, changes, WithoutHandle(s, p), ReleaseHandle(p));
    var gone := w.(far := w.far.(cache := WithoutHandle(s, p)));
    assert ws[|changes|] == gone;
    var asked, failed := PassDestroyed(gone, p, t);
    Then(ws, changes, asked, Mirrored(Enter(t, To(p))));
    ws, changes := ws + [asked], changes + [Mirrored(Enter(t, To(p)))];
    Then(ws, changes, failed, Mirrored(Test(t)));
    ws, changes := ws + [failed], changes + [Mirrored(Test(t))];
  }

  lemma PassDestroyed(w: World, p: Proxy, t: CallId) returns (asked: World, failed: World)
    requires w.far.cache.IsLive(p) && w.far.cache.proxies[p].handle == Released
    requires p in w.far.objects && t !in w.far.calls
    ensures Next(w, asked, Mirrored(Enter(t, To(p)))) && Next(asked, failed, Mirrored(Test(t)))
    ensures t in failed.far.calls && failed.far.calls[t] == Failed(To(p))
  {
    asked := w.(far := w.far.(calls := w.far.calls[t := Testing(To(p))]));
    failed := w.(far := w.far.(calls := w.far.calls[t := Failed(To(p))]));
    assert Next(Mirror(w), Mirror(asked), Enter(t, To(p)));
    assert failed.far.calls == asked.far.calls[t := Failed(To(p))];
    assert Next(Mirror(asked), Mirror(failed), Test(t));
  }
}
