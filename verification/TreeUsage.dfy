/** What "recently used" means (collector/trees.go:60 and :96-125): over runs with their steps named, the times the
    eviction compares are those of the last hit or publication of each entry. */
module TreeUsage {
  import opened Wrappers
  import opened TreeIndex
  import opened TreeCache
  import opened TreeProtocol
  import opened TreeWaiters

  /** Step m consults the entry k, which is there, or publishes it. */
  predicate UsedAt(trace: seq<System>, steps: seq<Step>, m: nat, k: string) {
    && m < |steps| && m < |trace|
    && match steps[m]
       case Look(id, _) => id in trace[m].calls && KeyOf(trace[m].calls[id]) == k && k in trace[m].store.trees
       case Publish(id, _) => id in trace[m].calls && KeyOf(trace[m].calls[id]) == k
       case _ => false
  }

  /** Of the steps before state i, m is the last to consult or publish k, and does so at time t. */
  ghost predicate LastUse(trace: seq<System>, steps: seq<Step>, i: nat, k: string, m: nat, t: int) {
    && m < i && UsedAt(trace, steps, m, k) && t == steps[m].now
    && forall n :: m < n < i ==> !UsedAt(trace, steps, n, k)
  }

  /** In every reachable state the time kept for an entry is that of its last hit or publication. */
  lemma {:induction false} UsedIsLastUse(env: Env, trace: seq<System>, steps: seq<Step>, i: nat, k: string)
    returns (m: nat)
    requires RunBy(env, trace, steps) && i < |trace| && k in trace[i].store.trees
    ensures k in trace[i].store.used && LastUse(trace, steps, i, k, m, trace[i].store.used[k])
  {
    hide Next, Inv, Key, Run;
    m := 0;
    if i > 0 {
      StepsRun(env, trace, steps);
      ReachableStatesAreSound(env, trace, i - 1);
      assert NextAt(env, trace, steps, i - 1);
      UsedAfterStep(env, trace[i - 1], steps[i - 1], trace[i], k);
      if UsedAt(trace, steps, i - 1, k) {
        m := i - 1;
      } else {
        m := UsedIsLastUse(env, trace, steps, i - 1, k);
      }
    }
  }

  lemma UsedAfterStep(env: Env, s: System, step: Step, s': System, k: string)
    requires Inv(s) && Next(env, s, step, s') && k in s'.store.trees
    ensures k in s'.store.used
    ensures (step.Look? || step.Publish?) && step.id in s.calls && KeyOf(s.calls[step.id]) == k ==>
              s'.store.used[k] == step.now
    ensures !(step.Look? || step.Publish?) || step.id !in s.calls || KeyOf(s.calls[step.id]) != k ==>
              k in s.store.trees && k in s.store.used && s'.store.used[k] == s.store.used[k]
    ensures step.Look? ==> k in s.store.trees
  {
    hide TreeOf, Key, OfHost, Evicts, WaitsForLoader, LoadersExist, SingleFlight, NoOverwrite, Weight, Bounded;
  }

  /** The cache is an LRU: of the entries there when a publication makes room, one that goes was last consulted or
      published no later than one that stays. */
  lemma EvictsLeastRecentlyUsed(env: Env, trace: seq<System>, steps: seq<Step>, n: nat, gone: string, kept: string,
                                m: nat, t: int, l: nat, u: int)
    requires RunBy(env, trace, steps) && n < |steps| && steps[n].Publish?
    requires RemovedAt(trace, n, gone) && kept in trace[n].store.trees && kept in trace[n + 1].store.trees
    requires LastUse(trace, steps, n, gone, m, t) && LastUse(trace, steps, n, kept, l, u)
    ensures t <= u
  {
    hide Next, Inv, Key, Run, UsedAt;
    StepsRun(env, trace, steps);
    ReachableStatesAreSound(env, trace, n);
    assert NextAt(env, trace, steps, n);
    var a := UsedIsLastUse(env, trace, steps, n, gone);
    var b := UsedIsLastUse(env, trace, steps, n, kept);
    assert a == m && b == l;
    EvictedIsOlder(env, trace[n], steps[n], trace[n + 1], gone, kept);
  }

  lemma EvictedIsOlder(env: Env, s: System, step: Step, s': System, gone: string, kept: string)
    requires Inv(s) && Next(env, s, step, s') && step.Publish?
    requires gone in s.store.trees && gone !in s'.store.trees && kept in s.store.trees && kept in s'.store.trees
    ensures gone in s.store.used && kept in s.store.used && s.store.used[gone] <= s.store.used[kept]
  {
    hide TreeOf, Key, OfHost, LastEvicted, WaitsForLoader, LoadersExist, SingleFlight, Weight, Bounded;
    var t := s.calls[step.id].pc.tree;
    var out :| Evicts(s.store, t.count, out)
            && s'.store == Published(s.store, KeyOf(s.calls[step.id]), t, step.now, out);
    assert KeyOf(s.calls[step.id]) !in s.store.trees;
    assert gone in out && kept in s.store.trees - out;
  }

  /** Times of use follow the order of the steps: later steps have later times. */
  lemma ClockIsMonotone(env: Env, trace: seq<System>, steps: seq<Step>, m: nat, n: nat)
    requires RunBy(env, trace, steps) && m < n < |steps|
    requires (steps[m].Look? || steps[m].Publish?) && (steps[n].Look? || steps[n].Publish?)
    ensures steps[m].now <= steps[n].now
  {
    hide RunBy;
    ClockAt(env, trace, steps, m);
    ClockAt(env, trace, steps, n);
    ClockGrows(env, trace, steps, m + 1, n);
  }

  lemma ClockAt(env: Env, trace: seq<System>, steps: seq<Step>, n: nat)
    requires RunBy(env, trace, steps) && n < |steps| && (steps[n].Look? || steps[n].Publish?)
    ensures n + 1 < |trace| && trace[n].clock <= steps[n].now == trace[n + 1].clock
  {
    hide TreeOf, Key, PublishStep, Consistent;
    assert NextAt(env, trace, steps, n);
  }

  lemma {:induction false} ClockGrows(env: Env, trace: seq<System>, steps: seq<Step>, a: nat, b: nat)
    requires RunBy(env, trace, steps) && a <= b < |trace|
    ensures trace[a].clock <= trace[b].clock
    decreases b
  {
    hide Next;
    if a < b {
      ClockGrows(env, trace, steps, a, b - 1);
      assert NextAt(env, trace, steps, b - 1);
      ClockStep(env, trace[b - 1], steps[b - 1], trace[b]);
    }
  }

  lemma ClockStep(env: Env, s: System, step: Step, s': System)
    requires Next(env, s, step, s')
    ensures s.clock <= s'.clock
  {
    hide TreeOf, Key, PublishStep, Consistent, LookupStep;
  }

  /** Nothing goes that could have stayed: had the eviction stopped one entry earlier, the nodes kept would exceed the
      limit. */
  lemma EvictsNoMoreThanNeeded(env: Env, trace: seq<System>, steps: seq<Step>, n: nat, gone: string)
    returns (last: string)
    requires RunBy(env, trace, steps) && n < |steps| && steps[n].Publish? && RemovedAt(trace, n, gone)
    ensures RemovedAt(trace, n, last)
    ensures trace[n + 1].store.nodes + trace[n].store.trees[last].count > 800_000
    ensures forall k :: RemovedAt(trace, n, k) ==>
              k in trace[n].store.used && last in trace[n].store.used
              && trace[n].store.used[k] <= trace[n].store.used[last]
  {
    hide Next, Inv, Key, Run;
    StepsRun(env, trace, steps);
    ReachableStatesAreSound(env, trace, n);
    assert NextAt(env, trace, steps, n);
    last := LastGone(env, trace[n], steps[n], trace[n + 1], gone);
  }

  lemma LastGone(env: Env, s: System, step: Step, s': System, gone: string) returns (last: string)
    requires Inv(s) && Next(env, s, step, s') && step.Publish?
    requires gone in s.store.trees && gone !in s'.store.trees
    ensures last in s.store.trees && last !in s'.store.trees
    ensures s'.store.nodes + s.store.trees[last].count > MAX_NODES
    ensures forall k :: k in s.store.trees && k !in s'.store.trees ==>
              k in s.store.used && last in s.store.used && s.store.used[k] <= s.store.used[last]
  {
    hide TreeOf, Key, OfHost, WaitsForLoader, LoadersExist, SingleFlight, Weight, Bounded;
    var t := s.calls[step.id].pc.tree;
    var k := KeyOf(s.calls[step.id]);
    var out :| Evicts(s.store, t.count, out) && s'.store == Published(s.store, k, t, step.now, out);
    assert k !in s.store.trees;
    assert gone in out;
    last :| LastEvicted(s.store, out, last)
            && Weight(s.store.trees - out) + s.store.trees[last].count + t.count > MAX_NODES;
  }
}
