/** Concurrent calls of Tree and InvalidateTrees as a system of atomic steps: one step for each
    lock region of collector/trees.go, and one for each thing that happens between them. */
module TreeProtocol {
  import opened Wrappers
  import opened MapSums
  import opened TreeIndex
  import opened TreeCache
  import Paths

  /** Where a call of Tree is. */
  datatype Pc =
    | Entered                             // before the first lock region
    | Waiting(loader: nat)                // in wg.Wait of another call's wait group
    | Awake                               // woken, before the second look
    | Fetching                            // registered as loader, remote call under way
    | Failed                              // remote call failed, deferred function still to run
    | Fetched(tree: Tree)                 // remote call succeeded, before the publishing region
    | Shared(tree: Tree)                  // published, deferred function still to run
    | Releasing(result: Option<Tree>)     // unregistered, wg.Done still to come
    | Returned(result: Option<Tree>)

  datatype Call = Call(host: string, snap: string, pc: Pc)

  datatype System = System(store: Store, calls: map<nat, Call>, clock: int)

  /** The configured hosts, and what each host holds for a snapshot. */
  datatype Env = Env(hosts: set<string>, remote: (string, string) -> seq<Node>)

  datatype Step =
    | Enter(id: nat, host: string, snap: string)
    | Look(id: nat, now: int)
    | Wake(id: nat)
    | LookAgain(id: nat)
    | FetchOk(id: nat, tree: Tree)
    | FetchError(id: nat)
    | Publish(id: nat, now: int)
    | Finish(id: nat)
    | Done(id: nat)
    | Invalidate(host: string)

  function KeyOf(c: Call): string {
    Key(c.host, c.snap)
  }

  /** A named snapshot never changes; "" and "latest" name whatever is newest. */
  predicate Immutable(snap: string) {
    snap != "" && snap != "latest"
  }

  /** `t` is an index of what `host` holds for `snap`. */
  ghost predicate TreeOf(env: Env, host: string, snap: string, t: Tree) {
    t.snapshot == Wanted(snap) && IsIndex(t, env.remote(host, snap))
  }

  ghost predicate At(s: System, id: nat, pc: Pc) {
    id in s.calls && s.calls[id].pc == pc
  }

  function Move(s: System, id: nat, pc: Pc): map<nat, Call>
    requires id in s.calls
  {
    s.calls[id := s.calls[id].(pc := pc)]
  }

  ghost predicate Init(s: System) {
    s.store == EMPTY && s.calls == map[]
  }

  ghost predicate Next(env: Env, s: System, step: Step, s': System) {
    match step
    case Enter(id, host, snap) =>
      && id !in s.calls
      && s' == s.(calls := s.calls[id := Call(host, snap, if host in env.hosts then Entered else Returned(None))])
    case Look(id, now) =>
      && At(s, id, Entered) && now >= s.clock
      && var (st, r) := LookupStep(s.store, KeyOf(s.calls[id]), now, id);
         var pc := match r { case Hit(t) => Returned(Some(t)) case Wait(l) => Waiting(l) case Load => Fetching };
         s' == System(st, Move(s, id, pc), now)
    case Wake(id) =>
      && id in s.calls && s.calls[id].pc.Waiting?
      && var l := s.calls[id].pc.loader;
         l in s.calls && s.calls[l].pc.Returned? && s' == s.(calls := Move(s, id, Awake))
    case LookAgain(id) =>
      && At(s, id, Awake)
      && var k := KeyOf(s.calls[id]);
         s' == s.(calls := Move(s, id, Returned(if k in s.store.trees then Some(s.store.trees[k]) else None)))
    case FetchOk(id, t) =>
      && At(s, id, Fetching)
      && (Immutable(s.calls[id].snap) ==> TreeOf(env, s.calls[id].host, s.calls[id].snap, t))
      && s' == s.(calls := Move(s, id, Fetched(t)))
    case FetchError(id) =>
      && At(s, id, Fetching)
      && s' == s.(calls := Move(s, id, Failed))
    case Publish(id, now) =>
      && id in s.calls && s.calls[id].pc.Fetched? && now >= s.clock
      && Consistent(s.store)
      && PublishStep(s.store, KeyOf(s.calls[id]), s.calls[id].pc.tree, now, s'.store)
      && s'.calls == Move(s, id, Shared(s.calls[id].pc.tree)) && s'.clock == now
    case Finish(id) =>
      && id in s.calls && (s.calls[id].pc.Failed? || s.calls[id].pc.Shared?)
      && s' == System(FinishStep(s.store, KeyOf(s.calls[id])), Move(s, id, Releasing(Outcome(s.calls[id].pc))), s.clock)
    case Done(id) =>
      && id in s.calls && s.calls[id].pc.Releasing?
      && s' == s.(calls := Move(s, id, Returned(s.calls[id].pc.result)))
    case Invalidate(host) =>
      s' == s.(store := InvalidateStep(s.store, host))
  }

  function Outcome(pc: Pc): Option<Tree> {
    if pc.Shared? then Some(pc.tree) else None
  }

  /** A loader, from the region that registers it to the region that removes it. */
  predicate IsLoader(pc: Pc) {
    pc.Fetching? || pc.Failed? || pc.Fetched? || pc.Shared?
  }

  // ---- The invariants ----

  ghost predicate Counted(s: System) {
    Consistent(s.store) && Bounded(s.store)
  }

  /** `loading` names, for each of its keys, a call that is loading that key. */
  ghost predicate LoadersExist(s: System) {
    forall k :: k in s.store.loading ==>
      var id := s.store.loading[k];
      id in s.calls && IsLoader(s.calls[id].pc) && KeyOf(s.calls[id]) == k
  }

  /** Every loader is the registered one for its key: two loads of a key never overlap. */
  ghost predicate SingleFlight(s: System) {
    forall id :: id in s.calls && IsLoader(s.calls[id].pc) ==>
      KeyOf(s.calls[id]) in s.store.loading && s.store.loading[KeyOf(s.calls[id])] == id
  }

  /** Until a loader has published, its key is absent: a publish never overwrites. */
  ghost predicate NoOverwrite(s: System) {
    forall id :: id in s.calls && IsLoader(s.calls[id].pc) && !s.calls[id].pc.Shared? ==>
      KeyOf(s.calls[id]) !in s.store.trees
  }

  /** Whoever waits, waits for a call that is loading the same key, is about to release, or has returned. */
  ghost predicate WaitsForLoader(s: System) {
    forall id :: id in s.calls && s.calls[id].pc.Waiting? ==>
      var l := s.calls[id].pc.loader;
      && l in s.calls && KeyOf(s.calls[l]) == KeyOf(s.calls[id])
      && (IsLoader(s.calls[l].pc) || s.calls[l].pc.Releasing? || s.calls[l].pc.Returned?)
  }

  ghost predicate Inv(s: System) {
    Counted(s) && LoadersExist(s) && SingleFlight(s) && NoOverwrite(s) && WaitsForLoader(s)
  }

  lemma InitHolds(s: System)
    requires Init(s)
    ensures Inv(s)
  {
  }

  lemma StepKeepsCounted(env: Env, s: System, step: Step, s': System)
    requires Inv(s) && Next(env, s, step, s')
    ensures Counted(s')
  {
    hide Consistent, Bounded, PublishStep, InvalidateStep, TreeOf;
    match step
    case Look(id, now) =>
      TouchKeepsCounted(s.store, KeyOf(s.calls[id]), now, id);
    case Publish(id, now) =>
      var c := s.calls[id];
      PublishKeepsConsistent(s.store, KeyOf(c), c.pc.tree, now, s'.store);
    case Finish(id) =>
      FinishKeepsCounted(s.store, KeyOf(s.calls[id]));
    case Invalidate(host) =>
      InvalidateKeepsConsistent(s.store, host);
    case _ =>
  }

  lemma TouchKeepsCounted(st: Store, k: string, now: int, id: nat)
    requires Consistent(st) && Bounded(st)
    ensures var st' := LookupStep(st, k, now, id).0; Consistent(st') && Bounded(st')
  {
    hide Weight;
  }

  lemma FinishKeepsCounted(st: Store, k: string)
    requires Consistent(st) && Bounded(st)
    ensures Consistent(FinishStep(st, k)) && Bounded(FinishStep(st, k))
  {
    hide Weight;
  }

  lemma StepKeepsLoadersExist(env: Env, s: System, step: Step, s': System)
    requires Inv(s) && Next(env, s, step, s')
    ensures LoadersExist(s')
  {
    hide Consistent, Bounded, TreeOf, PublishStep, InvalidateStep, Key, WaitsForLoader, NoOverwrite, SingleFlight;
    StoreAfter(env, s, step, s');
  }

  lemma StepKeepsSingleFlight(env: Env, s: System, step: Step, s': System)
    requires Inv(s) && Next(env, s, step, s')
    ensures SingleFlight(s')
  {
    hide Consistent, Bounded, TreeOf, PublishStep, InvalidateStep, Key, WaitsForLoader, NoOverwrite;
    StoreAfter(env, s, step, s');
  }

  /** How a step changes the tables of the store. */
  lemma StoreAfter(env: Env, s: System, step: Step, s': System)
    requires Next(env, s, step, s')
    ensures match step
            case Look(id, _) =>
              s'.store.trees == s.store.trees
            case Publish(id, _) =>
              s'.store.loading == s.store.loading
              && s'.store.trees.Keys <= s.store.trees.Keys + {KeyOf(s.calls[id])}
            case Finish(id) =>
              s'.store.loading == s.store.loading - {KeyOf(s.calls[id])} && s'.store.trees == s.store.trees
            case Invalidate(_) =>
              s'.store.loading == s.store.loading && s'.store.trees.Keys <= s.store.trees.Keys
            case _ => s'.store == s.store
  {
    hide Consistent, Evicts, TreeOf, Weight, OfHost;
  }

  lemma StepKeepsAbsence(env: Env, s: System, step: Step, s': System)
    requires Inv(s) && Next(env, s, step, s')
    ensures NoOverwrite(s')
  {
    hide Consistent, Bounded, TreeOf, PublishStep, InvalidateStep, Key, WaitsForLoader;
    StoreAfter(env, s, step, s');
  }

  lemma StepKeepsWaits(env: Env, s: System, step: Step, s': System)
    requires Inv(s) && Next(env, s, step, s')
    ensures WaitsForLoader(s')
  {
    hide Consistent, Bounded, TreeOf, PublishStep, InvalidateStep, Key, NoOverwrite, SingleFlight;
  }

  lemma StepKeepsInv(env: Env, s: System, step: Step, s': System)
    requires Inv(s) && Next(env, s, step, s')
    ensures Inv(s')
  {
    hide Next, Counted, LoadersExist, SingleFlight, NoOverwrite, WaitsForLoader;
    StepKeepsCounted(env, s, step, s');
    StepKeepsLoadersExist(env, s, step, s');
    StepKeepsSingleFlight(env, s, step, s');
    StepKeepsAbsence(env, s, step, s');
    StepKeepsWaits(env, s, step, s');
  }

  // ---- Runs ----

  /** A run: every state follows from the one before by some step. */
  ghost predicate Run(env: Env, trace: seq<System>) {
    && trace != [] && Init(trace[0])
    && forall i :: 0 < i < |trace| ==> Steps(env, trace[i - 1], trace[i])
  }

  ghost predicate Steps(env: Env, s: System, s': System) {
    exists step :: Next(env, s, step, s')
  }

  /** In every reachable state the counter is exact, memory is bounded, loads of a key never overlap,
      no publish overwrites, and every wait is for a load that ends. */
  lemma {:induction false} ReachableStatesAreSound(env: Env, trace: seq<System>, i: nat)
    requires Run(env, trace) && i < |trace|
    ensures Inv(trace[i])
  {
    hide Inv, Next, Init;
    if i == 0 {
      InitHolds(trace[0]);
    } else {
      ReachableStatesAreSound(env, trace, i - 1);
      assert Steps(env, trace[i - 1], trace[i]);
      var step :| Next(env, trace[i - 1], step, trace[i]);
      StepKeepsInv(env, trace[i - 1], step, trace[i]);
    }
  }

  /** Two calls are never loading the same key at once. */
  lemma OneLoaderPerKey(env: Env, trace: seq<System>, i: nat, a: nat, b: nat)
    requires Run(env, trace) && i < |trace|
    requires a in trace[i].calls && b in trace[i].calls
    requires IsLoader(trace[i].calls[a].pc) && IsLoader(trace[i].calls[b].pc)
    ensures KeyOf(trace[i].calls[a]) == KeyOf(trace[i].calls[b]) ==> a == b
  {
    hide Run, Key;
    ReachableStatesAreSound(env, trace, i);
  }

  // ---- Progress ----

  /** No deadlock: as long as a call has not returned, some call can take a step. */
  lemma SomeCallCanStep(env: Env, trace: seq<System>, i: nat, id: nat) returns (step: Step, s': System)
    requires Run(env, trace) && i < |trace|
    requires id in trace[i].calls && !trace[i].calls[id].pc.Returned?
    ensures Next(env, trace[i], step, s') && !step.Enter? && !step.Invalidate?
  {
    hide Run, Next;
    ReachableStatesAreSound(env, trace, i);
    var s := trace[i];
    if s.calls[id].pc.Waiting? && !s.calls[s.calls[id].pc.loader].pc.Returned? {
      step, s' := CallCanStep(env, s, s.calls[id].pc.loader);
    } else {
      step, s' := CallCanStep(env, s, id);
    }
  }

  lemma CallCanStep(env: Env, s: System, id: nat) returns (step: Step, s': System)
    requires Inv(s) && id in s.calls && !s.calls[id].pc.Returned?
    requires s.calls[id].pc.Waiting? ==> s.calls[s.calls[id].pc.loader].pc.Returned?
    ensures Next(env, s, step, s') && !step.Enter? && !step.Invalidate?
  {
    hide Consistent, Bounded, TreeOf, Evicts, Key, OfHost, LoadersExist, SingleFlight, NoOverwrite;
    var c := s.calls[id];
    match c.pc
    case Entered =>
      var (st, r) := LookupStep(s.store, KeyOf(c), s.clock, id);
      var pc := match r { case Hit(t) => Returned(Some(t)) case Wait(l) => Waiting(l) case Load => Fetching };
      step, s' := Look(id, s.clock), System(st, Move(s, id, pc), s.clock);
    case Waiting(_) =>
      step, s' := Wake(id), s.(calls := Move(s, id, Awake));
    case Awake =>
      var k := KeyOf(c);
      step := LookAgain(id);
      s' := s.(calls := Move(s, id, Returned(if k in s.store.trees then Some(s.store.trees[k]) else None)));
    case Fetching =>
      step, s' := FetchError(id), s.(calls := Move(s, id, Failed));
    case Fetched(t) =>
      var gone := EvictionExists(s.store, t.count);
      step := Publish(id, s.clock);
      s' := System(Published(s.store, KeyOf(c), t, s.clock, gone), Move(s, id, Shared(t)), s.clock);
      assert PublishStep(s.store, KeyOf(c), t, s.clock, s'.store);
    case Releasing(r) =>
      step, s' := Done(id), s.(calls := Move(s, id, Returned(r)));
    case Failed =>
      step := Finish(id);
      s' := System(FinishStep(s.store, KeyOf(c)), Move(s, id, Releasing(None)), s.clock);
    case Shared(t) =>
      step := Finish(id);
      s' := System(FinishStep(s.store, KeyOf(c)), Move(s, id, Releasing(Some(t))), s.clock);
  }

  /** A waiter may be told that the load failed although it succeeded: it suffices that the tree is invalidated (or
      evicted) before the waiter looks again. TreeWaiters says exactly when. */
  lemma WaiterMayMissGoodLoad(env: Env, host: string, snap: string, t: Tree) returns (trace: seq<System>)
    requires host in env.hosts && (Immutable(snap) ==> TreeOf(env, host, snap, t))
    ensures Run(env, trace)
    ensures var calls := trace[|trace| - 1].calls;
            && calls.Keys == {0, 1} && calls[0] == Call(host, snap, Returned(Some(t)))
            && calls[1] == Call(host, snap, Returned(None))
  {
    hide Run, Next;
    var k := Key(host, snap);
    var loading := Store(map[], map[], map[k := 0], 0);
    var full := Store(map[k := t], map[k := 0], map[k := 0], t.count);
    trace := [System(EMPTY, map[], 0)];
    assert Run(env, trace) by { FirstState(env); }
    trace := Extend(env, trace, Enter(0, host, snap), System(EMPTY, map[0 := Call(host, snap, Entered)], 0))
      by { EnterBoth(env, host, snap); }
    trace := Extend(env, trace, Enter(1, host, snap), Two(EMPTY, host, snap, Entered, Entered))
      by { EnterBoth(env, host, snap); }
    trace := Extend(env, trace, Look(0, 0), Two(loading, host, snap, Fetching, Entered))
      by { LoadAndWait(env, host, snap, t); }
    trace := Extend(env, trace, Look(1, 0), Two(loading, host, snap, Fetching, Waiting(0)))
      by { LoadAndWait(env, host, snap, t); }
    trace := Extend(env, trace, FetchOk(0, t), Two(loading, host, snap, Fetched(t), Waiting(0)))
      by { LoadAndWait(env, host, snap, t); }
    trace := Extend(env, trace, Publish(0, 0), Two(full, host, snap, Shared(t), Waiting(0)))
      by { PublishAndInvalidate(env, host, snap, t); }
    trace := Extend(env, trace, Invalidate(host), Two(loading, host, snap, Shared(t), Waiting(0)))
      by { PublishAndInvalidate(env, host, snap, t); }
    trace := Extend(env, trace, Finish(0), Two(EMPTY, host, snap, Releasing(Some(t)), Waiting(0)))
      by { FinishAndRelease(env, host, snap, t); }
    trace := Extend(env, trace, Done(0), Two(EMPTY, host, snap, Returned(Some(t)), Waiting(0)))
      by { FinishAndRelease(env, host, snap, t); }
    trace := Extend(env, trace, Wake(1), Two(EMPTY, host, snap, Returned(Some(t)), Awake))
      by { WakeAndMiss(env, host, snap, t); }
    trace := Extend(env, trace, LookAgain(1), Two(EMPTY, host, snap, Returned(Some(t)), Returned(None)))
      by { WakeAndMiss(env, host, snap, t); }
  }

  /** Two calls for the same snapshot. */
  function Two(st: Store, host: string, snap: string, a: Pc, b: Pc): System {
    System(st, map[0 := Call(host, snap, a), 1 := Call(host, snap, b)], 0)
  }

  lemma FirstState(env: Env)
    ensures Run(env, [System(EMPTY, map[], 0)])
  {
  }

  lemma Extend(env: Env, trace: seq<System>, step: Step, s': System) returns (longer: seq<System>)
    requires Run(env, trace) && Next(env, trace[|trace| - 1], step, s')
    ensures Run(env, longer) && longer != [] && longer[|longer| - 1] == s'
  {
    hide Next;
    longer := trace + [s'];
    assert Steps(env, trace[|trace| - 1], s');
    forall i | 0 < i < |longer| ensures Steps(env, longer[i - 1], longer[i]) {
      assert i < |trace| ==> Steps(env, trace[i - 1], trace[i]);
    }
  }

  lemma EnterBoth(env: Env, host: string, snap: string)
    requires host in env.hosts
    ensures var one := System(EMPTY, map[0 := Call(host, snap, Entered)], 0);
            && Next(env, System(EMPTY, map[], 0), Enter(0, host, snap), one)
            && Next(env, one, Enter(1, host, snap), Two(EMPTY, host, snap, Entered, Entered))
  {
  }

  lemma LoadAndWait(env: Env, host: string, snap: string, t: Tree)
    requires Immutable(snap) ==> TreeOf(env, host, snap, t)
    ensures var loading := Store(map[], map[], map[Key(host, snap) := 0], 0);
            && Next(env, Two(EMPTY, host, snap, Entered, Entered), Look(0, 0),
                    Two(loading, host, snap, Fetching, Entered))
            && Next(env, Two(loading, host, snap, Fetching, Entered), Look(1, 0),
                    Two(loading, host, snap, Fetching, Waiting(0)))
            && Next(env, Two(loading, host, snap, Fetching, Waiting(0)), FetchOk(0, t),
                    Two(loading, host, snap, Fetched(t), Waiting(0)))
  {
    hide TreeOf, Immutable, Key;
  }

  lemma PublishAndInvalidate(env: Env, host: string, snap: string, t: Tree)
    ensures var k := Key(host, snap);
            var loading := Store(map[], map[], map[k := 0], 0);
            var full := Store(map[k := t], map[k := 0], map[k := 0], t.count);
            && Next(env, Two(loading, host, snap, Fetched(t), Waiting(0)), Publish(0, 0),
                    Two(full, host, snap, Shared(t), Waiting(0)))
            && Next(env, Two(full, host, snap, Shared(t), Waiting(0)), Invalidate(host),
                    Two(loading, host, snap, Shared(t), Waiting(0)))
  {
    hide Consistent, PublishStep, InvalidateStep, Key;
    PublishIntoEmpty(Key(host, snap), t);
    InvalidateOnly(host, snap, t);
  }

  lemma FinishAndRelease(env: Env, host: string, snap: string, t: Tree)
    ensures var loading := Store(map[], map[], map[Key(host, snap) := 0], 0);
            && Next(env, Two(loading, host, snap, Shared(t), Waiting(0)), Finish(0),
                    Two(EMPTY, host, snap, Releasing(Some(t)), Waiting(0)))
            && Next(env, Two(EMPTY, host, snap, Releasing(Some(t)), Waiting(0)), Done(0),
                    Two(EMPTY, host, snap, Returned(Some(t)), Waiting(0)))
  {
    hide Key;
    assert map[Key(host, snap) := 0] - {Key(host, snap)} == map[];
  }

  lemma WakeAndMiss(env: Env, host: string, snap: string, t: Tree)
    ensures Next(env, Two(EMPTY, host, snap, Returned(Some(t)), Waiting(0)), Wake(1),
                 Two(EMPTY, host, snap, Returned(Some(t)), Awake))
    ensures Next(env, Two(EMPTY, host, snap, Returned(Some(t)), Awake), LookAgain(1),
                 Two(EMPTY, host, snap, Returned(Some(t)), Returned(None)))
  {
    hide Key;
  }

  lemma PublishIntoEmpty(k: string, t: Tree)
    ensures var st := Store(map[], map[], map[k := 0], 0);
            && Consistent(st)
            && PublishStep(st, k, t, 0, Store(map[k := t], map[k := 0], map[k := 0], t.count))
  {
    var st := Store(map[], map[], map[k := 0], 0);
    assert Counts(map[]) == map[];
    RemoveNone(st.trees);
    RemoveNone(st.used);
    assert Evicts(st, t.count, {});
    assert Published(st, k, t, 0, {}) == Store(map[k := t], map[k := 0], map[k := 0], t.count);
  }

  lemma InvalidateOnly(host: string, snap: string, t: Tree)
    ensures var k := Key(host, snap);
            InvalidateStep(Store(map[k := t], map[k := 0], map[k := 0], t.count), host)
            == Store(map[], map[], map[k := 0], 0)
  {
    var k := Key(host, snap);
    KeyPrefix(host, snap);
    var st := Store(map[k := t], map[k := 0], map[k := 0], t.count);
    var gone := set l | l in st.trees && OfHost(l, host);
    assert gone == {k};
    assert st.trees - gone == map[] && st.used - gone == map[];
    assert Counts(map[]) == map[];
  }

  // ---- Transparency ----

  /** The tree a call has in hand. */
  function InHand(pc: Pc): Option<Tree> {
    match pc
    case Fetched(t) => Some(t)
    case Shared(t) => Some(t)
    case Releasing(r) => r
    case Returned(r) => r
    case _ => None
  }

  /** Calls hold trees of their own host and snapshot. */
  ghost predicate CallsFaithful(env: Env, s: System) {
    forall id :: id in s.calls ==>
      var c := s.calls[id];
      && (c.pc != Returned(None) ==> c.host in env.hosts)
      && (InHand(c.pc).Some? && Immutable(c.snap) ==> TreeOf(env, c.host, c.snap, InHand(c.pc).value))
  }

  /** So does the store, whichever host and snapshot a key is read as. */
  ghost predicate StoreFaithful(env: Env, s: System) {
    forall host, snap :: host in env.hosts && Immutable(snap) && Key(host, snap) in s.store.trees ==>
      TreeOf(env, host, snap, s.store.trees[Key(host, snap)])
  }

  lemma StepKeepsCallsFaithful(env: Env, s: System, step: Step, s': System)
    requires Next(env, s, step, s') && CallsFaithful(env, s) && StoreFaithful(env, s)
    ensures CallsFaithful(env, s')
  {
    hide Consistent, TreeOf, PublishStep, InvalidateStep, Key, Immutable;
  }

  /** An entry keeps its value for as long as it stays; only an eviction or an invalidation removes it. */
  lemma EntriesStay(env: Env, s: System, step: Step, s': System, k: string)
    requires Inv(s) && Next(env, s, step, s') && k in s.store.trees
    ensures k in s'.store.trees ==> s'.store.trees[k] == s.store.trees[k]
    ensures k !in s'.store.trees ==>
              || (step.Invalidate? && OfHost(k, step.host))
              || (step.Publish? && s.store.nodes + s.calls[step.id].pc.tree.count > MAX_NODES)
  {
    hide TreeOf, Key, OfHost, LastEvicted, WaitsForLoader, LoadersExist, SingleFlight, Weight, Bounded;
    if step.Publish? && k !in s'.store.trees {
      var t := s.calls[step.id].pc.tree;
      var gone :| Evicts(s.store, t.count, gone)
               && s'.store == Published(s.store, KeyOf(s.calls[step.id]), t, step.now, gone);
      assert k in gone;
      EvictionWasNeeded(s.store, t.count, gone);
    }
  }

  /** Nothing is evicted when there is room already. */
  lemma EvictionWasNeeded(st: Store, incoming: nat, gone: set<string>)
    requires Consistent(st) && Evicts(st, incoming, gone) && gone != {}
    ensures st.nodes + incoming > MAX_NODES
  {
    hide Weight;
    var last :| LastEvicted(st, gone, last) && Weight(st.trees - gone) + st.trees[last].count + incoming > MAX_NODES;
    var rest := st.trees - (gone - {last});
    assert rest - {last} == st.trees - gone;
    WeightRemove(rest, last);
    WeightShrinks(st.trees, gone - {last});
  }

  lemma PublishedKey(env: Env, s: System, step: Step, s': System, k: string)
    requires Next(env, s, step, s') && k in s'.store.trees && k !in s.store.trees
    ensures step.Publish? && k == KeyOf(s.calls[step.id]) && s'.store.trees[k] == s.calls[step.id].pc.tree
  {
    hide Consistent, Evicts, TreeOf, Weight, OfHost, Key;
  }

  lemma StepKeepsStoreFaithful(env: Env, s: System, step: Step, s': System)
    requires Inv(s) && Next(env, s, step, s') && Separate(env.hosts)
    requires CallsFaithful(env, s) && StoreFaithful(env, s)
    ensures StoreFaithful(env, s')
  {
    hide Next, Inv, TreeOf, Key, Separate, Immutable;
    forall host, snap | host in env.hosts && Immutable(snap) && Key(host, snap) in s'.store.trees
      ensures TreeOf(env, host, snap, s'.store.trees[Key(host, snap)])
    {
      var k := Key(host, snap);
      if k in s.store.trees {
        EntriesStay(env, s, step, s', k);
      } else {
        PublishedKey(env, s, step, s', k);
        PublisherIsKnown(env, s, step, s');
        var c := s.calls[step.id];
        KeyIsInjective(env.hosts);
        assert c.host == host && c.snap == snap;
      }
    }
  }

  lemma PublisherIsKnown(env: Env, s: System, step: Step, s': System)
    requires step.Publish? && Next(env, s, step, s') && CallsFaithful(env, s)
    ensures step.id in s.calls && s.calls[step.id].pc.Fetched? && s.calls[step.id].host in env.hosts
  {
    hide TreeOf, Key, PublishStep, Consistent;
  }

  lemma {:induction false} ReachableStatesAreFaithful(env: Env, trace: seq<System>, i: nat)
    requires Run(env, trace) && i < |trace| && Separate(env.hosts)
    ensures CallsFaithful(env, trace[i]) && StoreFaithful(env, trace[i])
  {
    hide Next, Inv, TreeOf, Separate, Immutable;
    if i > 0 {
      ReachableStatesAreFaithful(env, trace, i - 1);
      ReachableStatesAreSound(env, trace, i - 1);
      assert Steps(env, trace[i - 1], trace[i]);
      var step :| Next(env, trace[i - 1], step, trace[i]);
      StepKeepsCallsFaithful(env, trace[i - 1], step, trace[i]);
      StepKeepsStoreFaithful(env, trace[i - 1], step, trace[i]);
    }
  }

  /** The cache is transparent: whatever calls, evictions and invalidations came before, a tree that Tree
      returns for a named snapshot lists every directory as the host itself would: the entries whose
      parent it is, directories first. */
  lemma CacheIsTransparent(env: Env, trace: seq<System>, i: nat, id: nat, dir: string)
    requires Run(env, trace) && i < |trace| && Separate(env.hosts)
    requires id in trace[i].calls && Immutable(trace[i].calls[id].snap)
    requires trace[i].calls[id].pc.Returned? && trace[i].calls[id].pc.result.Some?
    ensures var c := trace[i].calls[id];
            && TreeOf(env, c.host, c.snap, c.pc.result.value)
            && SortOf(Children(c.pc.result.value, dir), Bucket(env.remote(c.host, c.snap), Paths.Clean(dir)))
  {
    hide Run, Separate, Immutable, SortOf, Children, IsIndex, Bucket, Paths.Clean;
    var c := trace[i].calls[id];
    ReachableStatesAreFaithful(env, trace, i);
    ChildrenIsSortedFilter(c.pc.result.value, env.remote(c.host, c.snap), dir);
  }
}
