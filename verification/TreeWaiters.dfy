/** What a call that waited for another one's load gets (collector/trees.go:66-75): over runs with their steps named,
    the exact condition under which the second look finds the tree that was loaded. */
module TreeWaiters {
  import opened Wrappers
  import opened TreeIndex
  import opened TreeCache
  import opened TreeProtocol

  /** A run together with the step taken in each of its states but the last. */
  ghost predicate RunBy(env: Env, trace: seq<System>, steps: seq<Step>) {
    && |trace| == |steps| + 1 && Init(trace[0])
    && forall n :: 0 <= n < |steps| ==> NextAt(env, trace, steps, n)
  }

  ghost predicate NextAt(env: Env, trace: seq<System>, steps: seq<Step>, n: nat)
    requires n < |steps| < |trace|
  {
    Next(env, trace[n], steps[n], trace[n + 1])
  }

  /** Naming the steps restricts nothing: the runs are the same. */
  lemma EveryRunHasSteps(env: Env, trace: seq<System>)
    ensures Run(env, trace) <==> exists steps :: RunBy(env, trace, steps)
  {
    hide Next, Init;
    if Run(env, trace) {
      var steps := StepsOf(env, trace);
    }
    forall steps | RunBy(env, trace, steps) ensures Run(env, trace) {
      StepsRun(env, trace, steps);
    }
  }

  lemma StepsRun(env: Env, trace: seq<System>, steps: seq<Step>)
    requires RunBy(env, trace, steps)
    ensures Run(env, trace)
  {
    hide Next, Init;
    forall i | 0 < i < |trace| ensures Steps(env, trace[i - 1], trace[i]) {
      assert NextAt(env, trace, steps, i - 1);
    }
  }

  lemma StepsOf(env: Env, trace: seq<System>) returns (steps: seq<Step>)
    requires Run(env, trace)
    ensures RunBy(env, trace, steps)
  {
    hide Next, Init;
    steps := [];
    for n := 0 to |trace| - 1
      invariant |steps| == n && forall m :: 0 <= m < n ==> Next(env, trace[m], steps[m], trace[m + 1])
    {
      assert Steps(env, trace[n + 1 - 1], trace[n + 1]);
      var step :| Next(env, trace[n], step, trace[n + 1]);
      steps := steps + [step];
    }
  }

  // ---- The life of a key ----

  /** Step n publishes a tree under k. */
  predicate PublishedAt(trace: seq<System>, steps: seq<Step>, n: nat, k: string) {
    && n < |steps| && n < |trace| && steps[n].Publish?
    && steps[n].id in trace[n].calls && trace[n].calls[steps[n].id].pc.Fetched?
    && KeyOf(trace[n].calls[steps[n].id]) == k
  }

  function TreeAt(trace: seq<System>, steps: seq<Step>, n: nat, k: string): Tree
    requires PublishedAt(trace, steps, n, k)
  {
    trace[n].calls[steps[n].id].pc.tree
  }

  /** Step n removes k. */
  predicate RemovedAt(trace: seq<System>, n: nat, k: string) {
    n + 1 < |trace| && k in trace[n].store.trees && k !in trace[n + 1].store.trees
  }

  /** What can be told before the step: an invalidation of a host of the key, or a publication without room. */
  predicate Threatens(trace: seq<System>, steps: seq<Step>, n: nat, k: string) {
    && n < |steps| && n < |trace|
    && match steps[n]
       case Invalidate(host) => OfHost(k, host)
       case Publish(id, _) =>
         && id in trace[n].calls && trace[n].calls[id].pc.Fetched?
         && trace[n].store.nodes + trace[n].calls[id].pc.tree.count > MAX_NODES
       case _ => false
  }

  /** A step publishes k where there was nothing, or removes it, or leaves it as it is; only a threat removes it, and
      an invalidation always does. */
  lemma KeyAfterStep(env: Env, trace: seq<System>, steps: seq<Step>, n: nat, k: string)
    requires RunBy(env, trace, steps) && n < |steps|
    ensures PublishedAt(trace, steps, n, k) ==>
              && k !in trace[n].store.trees && k in trace[n + 1].store.trees
              && trace[n + 1].store.trees[k] == TreeAt(trace, steps, n, k)
    ensures !PublishedAt(trace, steps, n, k) && k !in trace[n].store.trees ==> k !in trace[n + 1].store.trees
    ensures k in trace[n].store.trees && !RemovedAt(trace, n, k) ==>
              k in trace[n + 1].store.trees && trace[n + 1].store.trees[k] == trace[n].store.trees[k]
    ensures RemovedAt(trace, n, k) ==> Threatens(trace, steps, n, k)
    ensures k in trace[n].store.trees && steps[n].Invalidate? ==>
              (RemovedAt(trace, n, k) <==> OfHost(k, steps[n].host))
  {
    hide Run, Next, Inv, Key, OfHost;
    StepsRun(env, trace, steps);
    ReachableStatesAreSound(env, trace, n);
    assert NextAt(env, trace, steps, n);
    StepOnKey(env, trace[n], steps[n], trace[n + 1], k);
  }

  lemma StepOnKey(env: Env, s: System, step: Step, s': System, k: string)
    requires Inv(s) && Next(env, s, step, s')
    ensures step.Publish? ==>
              && step.id in s.calls && s.calls[step.id].pc.Fetched?
              && (KeyOf(s.calls[step.id]) == k ==>
                    k !in s.store.trees && k in s'.store.trees && s'.store.trees[k] == s.calls[step.id].pc.tree)
    ensures k !in s.store.trees && k in s'.store.trees ==> step.Publish? && k == KeyOf(s.calls[step.id])
    ensures k in s.store.trees && k in s'.store.trees ==> s'.store.trees[k] == s.store.trees[k]
    ensures k in s.store.trees && k !in s'.store.trees ==>
              || (step.Invalidate? && OfHost(k, step.host))
              || (step.Publish? && s.store.nodes + s.calls[step.id].pc.tree.count > MAX_NODES)
    ensures step.Invalidate? && OfHost(k, step.host) ==> k !in s'.store.trees
  {
    hide Next, Inv, OfHost, Key;
    if k in s.store.trees {
      EntriesStay(env, s, step, s', k);
    } else if k in s'.store.trees {
      PublishedKey(env, s, step, s', k);
    }
    PublishAndInvalidateOnKey(env, s, step, s', k);
  }

  lemma PublishAndInvalidateOnKey(env: Env, s: System, step: Step, s': System, k: string)
    requires Inv(s) && Next(env, s, step, s')
    ensures step.Publish? ==>
              && step.id in s.calls && s.calls[step.id].pc.Fetched?
              && (KeyOf(s.calls[step.id]) == k ==>
                    k !in s.store.trees && k in s'.store.trees && s'.store.trees[k] == s.calls[step.id].pc.tree)
    ensures step.Invalidate? && OfHost(k, step.host) ==> k !in s'.store.trees
  {
    hide Consistent, Evicts, TreeOf, Weight, OfHost, Key, Bounded, LoadersExist, SingleFlight, WaitsForLoader;
  }

  /** After a publication of k, the last one so far decides: k holds its tree until it is removed, and nothing after
      that. */
  lemma {:induction false} LastPublication(env: Env, trace: seq<System>, steps: seq<Step>, j: nat, i: nat, k: string)
    returns (m: nat)
    requires RunBy(env, trace, steps) && j < i < |trace| && PublishedAt(trace, steps, j, k)
    ensures j <= m < i && PublishedAt(trace, steps, m, k)
    ensures forall n :: m < n < i ==> !PublishedAt(trace, steps, n, k)
    ensures k in trace[i].store.trees ==> trace[i].store.trees[k] == TreeAt(trace, steps, m, k)
    ensures k !in trace[i].store.trees <==> exists n :: m < n < i && RemovedAt(trace, n, k)
    decreases i
  {
    hide RunBy;
    assert i - 1 < |steps| by { LastState(env, trace, steps); }
    KeyAfterStep(env, trace, steps, i - 1, k);
    if PublishedAt(trace, steps, i - 1, k) {
      m := i - 1;
    } else {
      m := LastPublication(env, trace, steps, j, i - 1, k);
      if k in trace[i - 1].store.trees && k !in trace[i].store.trees {
        assert RemovedAt(trace, i - 1, k);
      }
    }
  }

  lemma LastState(env: Env, trace: seq<System>, steps: seq<Step>)
    requires RunBy(env, trace, steps)
    ensures |trace| == |steps| + 1
  {
  }

  // ---- The second look ----

  /** What a call that looks again for k at state i finds, k having been published at j. */
  ghost predicate Finds(trace: seq<System>, steps: seq<Step>, j: nat, i: nat, k: string, result: Option<Tree>) {
    // nothing, exactly if k was removed and not published again since
    && (result.None? <==>
          exists n :: j < n < i && RemovedAt(trace, n, k) && forall m :: n < m < i ==> !PublishedAt(trace, steps, m, k))
    // otherwise the tree of the last publication
    && (result.Some? ==>
          exists m :: && j <= m < i && PublishedAt(trace, steps, m, k) && result.value == TreeAt(trace, steps, m, k)
                      && forall n :: m < n < i ==> !PublishedAt(trace, steps, n, k))
    // which is the tree published at j if nothing threatened k in between
    && (PublishedAt(trace, steps, j, k) && (forall n :: j < n < i ==> !Threatens(trace, steps, n, k)) ==>
          result == Some(TreeAt(trace, steps, j, k)))
  }

  /** The second look of any call on a key that has been published. */
  lemma SecondLook(env: Env, trace: seq<System>, steps: seq<Step>, j: nat, i: nat, w: nat, s': System)
    requires RunBy(env, trace, steps) && j < i < |trace| && w in trace[i].calls
    requires PublishedAt(trace, steps, j, KeyOf(trace[i].calls[w]))
    requires Next(env, trace[i], LookAgain(w), s')
    ensures w in s'.calls && s'.calls[w].pc.Returned?
    ensures Finds(trace, steps, j, i, KeyOf(trace[i].calls[w]), s'.calls[w].pc.result)
  {
    hide Next, RunBy, Key;
    var k := KeyOf(trace[i].calls[w]);
    LookAgainReads(env, trace[i], w, s');
    StoreFinds(env, trace, steps, j, i, k);
  }

  lemma LookAgainReads(env: Env, s: System, w: nat, s': System)
    requires Next(env, s, LookAgain(w), s')
    ensures w in s.calls && w in s'.calls
    ensures var k := KeyOf(s.calls[w]);
            s'.calls[w].pc == Returned(if k in s.store.trees then Some(s.store.trees[k]) else None)
  {
    hide Key;
  }

  lemma StoreFinds(env: Env, trace: seq<System>, steps: seq<Step>, j: nat, i: nat, k: string)
    requires RunBy(env, trace, steps) && j < i < |trace| && PublishedAt(trace, steps, j, k)
    ensures var trees := trace[i].store.trees; Finds(trace, steps, j, i, k, if k in trees then Some(trees[k]) else None)
  {
    hide RunBy, PublishedAt, Threatens, TreeAt;
    LastState(env, trace, steps);
    var m := LastPublication(env, trace, steps, j, i, k);
    KeyAfterStep(env, trace, steps, m, k);
    if k !in trace[i].store.trees {
      var n :| m < n < i && RemovedAt(trace, n, k);
      assert forall l :: n < l < i ==> !PublishedAt(trace, steps, l, k);
    }
    forall n | j < n < i && RemovedAt(trace, n, k) && forall l :: n < l < i ==> !PublishedAt(trace, steps, l, k)
      ensures k !in trace[i].store.trees
    {
      assert n > m;
    }
    if forall n :: j < n < i ==> !Threatens(trace, steps, n, k) {
      NotRepublished(env, trace, steps, j, i, k);
    }
  }

  /** As long as nothing threatens k, it stays, and so cannot be published again. */
  lemma {:induction false} NotRepublished(env: Env, trace: seq<System>, steps: seq<Step>, j: nat, i: nat, k: string)
    requires RunBy(env, trace, steps) && j < i < |trace| && PublishedAt(trace, steps, j, k)
    requires forall n :: j < n < i ==> !Threatens(trace, steps, n, k)
    ensures k in trace[i].store.trees && trace[i].store.trees[k] == TreeAt(trace, steps, j, k)
    ensures forall n :: j < n < i ==> !PublishedAt(trace, steps, n, k)
    decreases i
  {
    hide RunBy, PublishedAt, RemovedAt, Threatens, TreeAt;
    LastState(env, trace, steps);
    KeyAfterStep(env, trace, steps, i - 1, k);
    if j < i - 1 {
      NotRepublished(env, trace, steps, j, i - 1, k);
    }
  }

  // ---- A waiter whose loader succeeded ----

  /** Call l has published t under its key, before state i. */
  ghost predicate HasPublished(trace: seq<System>, steps: seq<Step>, i: nat, l: nat, k: string, t: Tree) {
    exists j: nat :: j < i && PublishedAt(trace, steps, j, k) && steps[j].id == l && TreeAt(trace, steps, j, k) == t
  }

  /** The tree a loader is about to return, or, if somebody waits for it, has returned. */
  predicate HasLoaded(s: System, l: nat, t: Tree) {
    && l in s.calls
    && match s.calls[l].pc
       case Shared(u) => u == t
       case Releasing(r) => r == Some(t)
       case Returned(r) => r == Some(t) && WaitedFor(s, l)
       case _ => false
  }

  predicate WaitedFor(s: System, l: nat) {
    exists w :: w in s.calls && s.calls[w].pc == Waiting(l)
  }

  /** Where a tree in a loader's hands comes from, one step back. */
  lemma LoadedBefore(env: Env, s: System, step: Step, s': System, l: nat, t: Tree)
    requires Inv(s) && Next(env, s, step, s') && HasLoaded(s', l, t)
    ensures l in s.calls && l in s'.calls && KeyOf(s'.calls[l]) == KeyOf(s.calls[l])
    ensures HasLoaded(s, l, t) || (step.Publish? && step.id == l && s.calls[l].pc == Fetched(t))
  {
    hide Counted, SingleFlight, NoOverwrite, TreeOf, PublishStep, InvalidateStep, Key, WaitedFor;
    if s'.calls[l].pc.Returned? {
      WaitedForBefore(env, s, step, s', l);
    }
  }

  /** Whoever is waited for after a step was waited for before, or is loading. */
  lemma WaitedForBefore(env: Env, s: System, step: Step, s': System, l: nat)
    requires Inv(s) && Next(env, s, step, s') && WaitedFor(s', l)
    ensures l in s.calls
    ensures IsLoader(s.calls[l].pc) || s.calls[l].pc.Releasing? || (s.calls[l].pc.Returned? && WaitedFor(s, l))
    ensures IsLoader(s.calls[l].pc) ==> WaitedFor(s, l) || s'.calls[l] == s.calls[l]
  {
    hide Counted, SingleFlight, NoOverwrite, TreeOf, PublishStep, InvalidateStep, Key;
    var w :| w in s'.calls && s'.calls[w].pc == Waiting(l);
    if w in s.calls && s.calls[w].pc == Waiting(l) {
      assert WaitedFor(s, l);
    }
  }

  /** A tree that a loader shares, or that a call waited for has returned, has been published by it. */
  lemma {:induction false} LoadedIsPublished(env: Env, trace: seq<System>, steps: seq<Step>, i: nat, l: nat, t: Tree)
    requires RunBy(env, trace, steps) && i < |trace| && HasLoaded(trace[i], l, t)
    ensures HasPublished(trace, steps, i, l, KeyOf(trace[i].calls[l]), t)
  {
    hide Next, Inv, HasLoaded, Key, Run;
    if i == 0 {
      NothingLoadedAtFirst(env, trace, steps, l, t);
    } else {
      StepsRun(env, trace, steps);
      ReachableStatesAreSound(env, trace, i - 1);
      assert NextAt(env, trace, steps, i - 1);
      LoadedBefore(env, trace[i - 1], steps[i - 1], trace[i], l, t);
      var k := KeyOf(trace[i].calls[l]);
      if HasLoaded(trace[i - 1], l, t) {
        LoadedIsPublished(env, trace, steps, i - 1, l, t);
      } else {
        assert PublishedAt(trace, steps, i - 1, k);
      }
    }
  }

  lemma NothingLoadedAtFirst(env: Env, trace: seq<System>, steps: seq<Step>, l: nat, t: Tree)
    requires RunBy(env, trace, steps)
    ensures !HasLoaded(trace[0], l, t)
  {
  }

  lemma {:induction false} CallsKeepTheirKey(env: Env, trace: seq<System>, steps: seq<Step>, a: nat, i: nat, id: nat)
    requires RunBy(env, trace, steps) && a <= i < |trace| && id in trace[a].calls
    ensures id in trace[i].calls && KeyOf(trace[i].calls[id]) == KeyOf(trace[a].calls[id])
    decreases i
  {
    hide Next, Key;
    if a < i {
      CallsKeepTheirKey(env, trace, steps, a, i - 1, id);
      assert NextAt(env, trace, steps, i - 1);
      CallKeepsItsKey(env, trace[i - 1], steps[i - 1], trace[i], id);
    }
  }

  lemma CallKeepsItsKey(env: Env, s: System, step: Step, s': System, id: nat)
    requires Next(env, s, step, s') && id in s.calls
    ensures id in s'.calls && s'.calls[id].host == s.calls[id].host && s'.calls[id].snap == s.calls[id].snap
  {
    hide Consistent, TreeOf, PublishStep, InvalidateStep, Key;
  }

  /** Call w wakes at a from its wait for l, which returned a tree, and looks again at i. The tree was published before
      the wake, and w fails exactly if it has been removed and not published again since; in particular w gets l's tree
      if since its publication the key's host was not invalidated and every publication found room. */
  lemma WaiterOfGoodLoad(env: Env, trace: seq<System>, steps: seq<Step>, a: nat, i: nat, w: nat, l: nat, s': System)
    returns (j: nat)
    requires RunBy(env, trace, steps) && a < i < |trace| && steps[a] == Wake(w)
    requires w in trace[a].calls && trace[a].calls[w].pc == Waiting(l)
    requires l in trace[a].calls && trace[a].calls[l].pc.Returned? && trace[a].calls[l].pc.result.Some?
    requires Next(env, trace[i], LookAgain(w), s')
    ensures var k := KeyOf(trace[a].calls[w]);
            && j < a && PublishedAt(trace, steps, j, k)
            && steps[j].id == l && TreeAt(trace, steps, j, k) == trace[a].calls[l].pc.result.value
            && w in s'.calls && s'.calls[w].pc.Returned? && Finds(trace, steps, j, i, k, s'.calls[w].pc.result)
  {
    hide RunBy, Next, Key, Finds, Run;
    var t := trace[a].calls[l].pc.result.value;
    assert WaitedFor(trace[a], l);
    LoadedIsPublished(env, trace, steps, a, l, t);
    StepsRun(env, trace, steps);
    ReachableStatesAreSound(env, trace, a);
    var k := KeyOf(trace[a].calls[w]);
    assert KeyOf(trace[a].calls[l]) == k;
    j :| j < a && PublishedAt(trace, steps, j, k) && steps[j].id == l && TreeAt(trace, steps, j, k) == t;
    CallsKeepTheirKey(env, trace, steps, a, i, w);
    SecondLook(env, trace, steps, j, i, w, s');
  }

  // ---- What the other calls get ----

  ghost predicate NobodyLoads(s: System, k: string) {
    forall l :: l in s.calls && IsLoader(s.calls[l].pc) ==> KeyOf(s.calls[l]) != k
  }

  /** The first look at a key returns the entry if there is one, waits for the call that is loading the key if there is
      one, and otherwise starts loading. */
  lemma LookTells(env: Env, trace: seq<System>, i: nat, id: nat, now: int, s': System)
    requires Run(env, trace) && i < |trace| && Next(env, trace[i], Look(id, now), s')
    ensures id in trace[i].calls && id in s'.calls
    ensures var s := trace[i];
            var k, pc := KeyOf(s.calls[id]), s'.calls[id].pc;
            && (k in s.store.trees ==> pc == Returned(Some(s.store.trees[k])))
            && (forall l :: k !in s.store.trees && l in s.calls && IsLoader(s.calls[l].pc) && KeyOf(s.calls[l]) == k ==>
                  pc == Waiting(l))
            && (k !in s.store.trees && NobodyLoads(s, k) ==> pc == Fetching)
  {
    hide Run, Key, Consistent, Bounded, NoOverwrite, WaitsForLoader;
    ReachableStatesAreSound(env, trace, i);
    var s := trace[i];
    var k := KeyOf(s.calls[id]);
    if k in s.store.loading {
      var l := s.store.loading[k];
      assert l in s.calls && IsLoader(s.calls[l].pc) && KeyOf(s.calls[l]) == k;
    }
  }

  /** The result a loading call is bound to return. */
  predicate BoundTo(pc: Pc, r: Option<Tree>) {
    match pc
    case Fetched(t) => r == Some(t)
    case Shared(t) => r == Some(t)
    case Failed => r == None
    case Releasing(x) => r == x
    case Returned(x) => r == x
    case _ => false
  }

  /** A call whose fetch succeeded returns that very tree, whatever happens to the cache, and one whose fetch failed
      returns an error. */
  lemma {:induction false} FetchedIsReturned(env: Env, trace: seq<System>, steps: seq<Step>, a: nat, i: nat, id: nat,
                                             r: Option<Tree>)
    requires RunBy(env, trace, steps) && a <= i < |trace| && id in trace[a].calls && BoundTo(trace[a].calls[id].pc, r)
    ensures id in trace[i].calls && BoundTo(trace[i].calls[id].pc, r)
    decreases i
  {
    hide Next;
    if a < i {
      FetchedIsReturned(env, trace, steps, a, i - 1, id, r);
      assert NextAt(env, trace, steps, i - 1);
      BoundStays(env, trace[i - 1], steps[i - 1], trace[i], id, r);
    }
  }

  lemma BoundStays(env: Env, s: System, step: Step, s': System, id: nat, r: Option<Tree>)
    requires Next(env, s, step, s') && id in s.calls && BoundTo(s.calls[id].pc, r)
    ensures id in s'.calls && BoundTo(s'.calls[id].pc, r)
  {
    hide Consistent, TreeOf, PublishStep, InvalidateStep, Key;
  }
}
