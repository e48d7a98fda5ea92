/** What get, drop, reap and Close do to the table (fleet/pool.go), told from the table and the dead marks alone, in
    every reachable state and over runs. */
module PoolGets {
  import opened Wrappers
  import opened Pool
  import opened PoolProtocol

  /** A step of get that may hand out a connection. */
  predicate IsGet(step: Step) {
    step.Find? || step.Install?
  }

  /** Call id goes on with connection c. */
  predicate HandedOut(s: System, id: nat, c: nat) {
    && id in s.calls
    && (s.calls[id].pc == Acquiring(c)
        || (s.calls[id].pc.Opening? && s.calls[id].pc.on == c && s.calls[id].pc.retried))
  }

  // ---- One step of get ----

  /** The first region sends the call to dial exactly if the key has no entry or a dead one, and otherwise hands out
      that entry. */
  lemma FindHandsOutTheLiveEntry(trace: seq<System>, i: nat, id: nat, now: int, s': System)
    requires Run(trace) && i < |trace| && Next(trace[i], Find(id, now), s')
    ensures id in trace[i].calls && id in s'.calls
    ensures var s := trace[i];
            var key := s.calls[id].key;
            && (s'.calls[id].pc.Dialling? <==> key !in s.st.conns || s.st.conns[key] in s.st.dead)
            && (!s'.calls[id].pc.Dialling? ==> HandedOut(s', id, s.st.conns[key]))
            && s'.st.conns == s.st.conns && s'.st.dead == s.st.dead && s'.st.up == s.st.up
  {
    hide Run;
  }

  /** The second region keeps a live entry that appeared meanwhile, and closes the new client; over an absent or dead
      entry it makes the new client the entry, with no token out. */
  lemma InstallKeepsOrReplaces(trace: seq<System>, i: nat, id: nat, now: int, s': System)
    requires Run(trace) && i < |trace| && Next(trace[i], Install(id, now), s')
    ensures id in trace[i].calls && trace[i].calls[id].pc.Dialled? && id in s'.calls
    ensures var s := trace[i];
            var key, client := s.calls[id].key, s.calls[id].pc.client;
            if key in s.st.conns && s.st.conns[key] !in s.st.dead then
              && HandedOut(s', id, s.st.conns[key]) && s'.st.conns == s.st.conns && s'.keyOf == s.keyOf
              && s'.st.up == s.st.up - {client}
            else
              && HandedOut(s', id, client) && s'.st.conns == s.st.conns[key := client]
              && s'.keyOf == s.keyOf[client := key] && s'.st.up == s.st.up
              && client in s'.st.sem && s'.st.sem[client] == 0
  {
    hide Run;
  }

  /** Whatever get hands out is the entry of its key, is not marked dead, and bears the time of this very get. */
  lemma OnlyLiveConnectionsAreHandedOut(trace: seq<System>, i: nat, step: Step, s': System, c: nat)
    requires Run(trace) && i < |trace| && IsGet(step) && Next(trace[i], step, s') && HandedOut(s', step.id, c)
    ensures c !in trace[i].st.dead && c !in s'.st.dead
    ensures var key := s'.calls[step.id].key; key in s'.st.conns && s'.st.conns[key] == c
    ensures c in s'.st.last && s'.st.last[c] == step.now
  {
    hide Run, Installed, HeldInstalled, UsesOwnKey, Tokens, Owned;
    ReachableStatesAreSound(trace, i);
  }

  // ---- A dead connection is never handed out again ----

  lemma DeadStaysDead(s: System, step: Step, s': System)
    requires Next(s, step, s')
    ensures s.st.dead <= s'.st.dead
  {
    hide Stale;
  }

  lemma {:induction false} DeadForGood(trace: seq<System>, a: nat, b: nat, c: nat)
    requires Run(trace) && a <= b < |trace| && c in trace[a].st.dead
    ensures c in trace[b].st.dead
    decreases b
  {
    hide Next;
    if a < b {
      DeadForGood(trace, a, b - 1, c);
      assert Steps(trace[b - 1], trace[b]);
      var step :| Next(trace[b - 1], step, trace[b]);
      DeadStaysDead(trace[b - 1], step, trace[b]);
    }
  }

  /** Once the watcher has marked a connection, or drop has, no later get hands it out. */
  lemma MarkedIsNeverHandedOut(trace: seq<System>, a: nat, mark: Step, i: nat, step: Step, s': System, c: nat)
    requires Run(trace) && a < i < |trace| && Next(trace[a], mark, trace[a + 1])
    requires mark == Watch(c)
             || (mark.Drop? && trace[a].calls[mark.id].key in trace[a].st.conns
                 && trace[a].st.conns[trace[a].calls[mark.id].key] == c)
    requires IsGet(step) && Next(trace[i], step, s')
    ensures step.id in s'.calls && !HandedOut(s', step.id, c)
  {
    hide Run, Next, HandedOut;
    MarkMarks(trace[a], mark, trace[a + 1], c);
    DeadForGood(trace, a + 1, i, c);
    GetKeepsCall(trace[i], step, s');
    if HandedOut(s', step.id, c) {
      OnlyLiveConnectionsAreHandedOut(trace, i, step, s', c);
    }
  }

  lemma MarkMarks(s: System, mark: Step, s': System, c: nat)
    requires Next(s, mark, s')
    requires mark == Watch(c)
             || (mark.Drop? && s.calls[mark.id].key in s.st.conns && s.st.conns[s.calls[mark.id].key] == c)
    ensures c in s'.st.dead
  {
  }

  lemma GetKeepsCall(s: System, step: Step, s': System)
    requires Next(s, step, s') && IsGet(step)
    ensures step.id in s'.calls
  {
    hide FindStep, InstallStep;
  }

  // ---- What "last used" means ----

  /** A run together with its steps. */
  ghost predicate RunBy(trace: seq<System>, steps: seq<Step>) {
    && |trace| == |steps| + 1 && trace[0] == INIT
    && forall n :: 0 <= n < |steps| ==> NextAt(trace, steps, n)
  }

  ghost predicate NextAt(trace: seq<System>, steps: seq<Step>, n: nat)
    requires n < |steps| < |trace|
  {
    Next(trace[n], steps[n], trace[n + 1])
  }

  lemma StepsRun(trace: seq<System>, steps: seq<Step>)
    requires RunBy(trace, steps)
    ensures Run(trace)
  {
    hide Next;
    forall i | 0 < i < |trace| ensures Steps(trace[i - 1], trace[i]) {
      assert NextAt(trace, steps, i - 1);
    }
  }

  /** Step m is a get that hands out c. */
  predicate GotAt(trace: seq<System>, steps: seq<Step>, m: nat, c: nat) {
    m < |steps| && m + 1 < |trace| && IsGet(steps[m]) && HandedOut(trace[m + 1], steps[m].id, c)
  }

  ghost predicate LastGot(trace: seq<System>, steps: seq<Step>, i: nat, c: nat, m: nat, t: int) {
    && m < i && GotAt(trace, steps, m, c) && t == steps[m].now
    && forall n :: m < n < i ==> !GotAt(trace, steps, n, c)
  }

  /** The time by which reap judges a connection is that of the last get that handed it out. */
  lemma {:induction false} LastIsLastGet(trace: seq<System>, steps: seq<Step>, i: nat, c: nat) returns (m: nat)
    requires RunBy(trace, steps) && i < |trace| && c in trace[i].keyOf
    ensures c in trace[i].st.last && LastGot(trace, steps, i, c, m, trace[i].st.last[c])
  {
    hide Next, Inv, Run, HandedOut;
    m := 0;
    if i > 0 {
      StepsRun(trace, steps);
      ReachableStatesAreSound(trace, i - 1);
      assert NextAt(trace, steps, i - 1);
      LastAfterStep(trace[i - 1], steps[i - 1], trace[i], c);
      if GotAt(trace, steps, i - 1, c) {
        m := i - 1;
      } else {
        m := LastIsLastGet(trace, steps, i - 1, c);
      }
    }
  }

  lemma LastAfterStep(s: System, step: Step, s': System, c: nat)
    requires Inv(s) && Next(s, step, s') && c in s'.keyOf
    ensures c in s'.st.last
    ensures IsGet(step) && HandedOut(s', step.id, c) ==> s'.st.last[c] == step.now
    ensures !IsGet(step) || !HandedOut(s', step.id, c) ==>
              c in s.keyOf && c in s.st.last && s'.st.last[c] == s.st.last[c]
  {
    if IsGet(step) {
      LastAfterGet(s, step, s', c);
    } else {
      hide Owned, Tokens, HeldInstalled, UsesOwnKey, DeadIsDown, Next, HandedOut, ReapStep, CloseStep;
      KeysStay(s, step, s');
    }
  }

  lemma KeysStay(s: System, step: Step, s': System)
    requires Inv(s) && Next(s, step, s') && !IsGet(step)
    ensures s'.keyOf == s.keyOf && s'.st.last == s.st.last
  {
    hide ReapStep, CloseStep, Owned, Tokens, HeldInstalled, UsesOwnKey, DeadIsDown;
    if step.Reap? {
      ReapKeepsTables(s.st, step.now);
    } else if step.Close? {
      ReapKeepsTables(s.st, 0);
    } else {
      TablesStay(s, step, s');
    }
  }

  lemma LastAfterGet(s: System, step: Step, s': System, c: nat)
    requires Inv(s) && Next(s, step, s') && c in s'.keyOf && IsGet(step)
    ensures c in s'.st.last
    ensures HandedOut(s', step.id, c) ==> s'.st.last[c] == step.now
    ensures !HandedOut(s', step.id, c) ==> c in s.keyOf && c in s.st.last && s'.st.last[c] == s.st.last[c]
  {
    hide Owned, Tokens, HeldInstalled, UsesOwnKey, DeadIsDown;
  }

  // ---- drop, reap and Close ----

  /** After a drop the key has no entry; the one it had is dead and down, and nothing else changes. */
  lemma DropForgets(trace: seq<System>, i: nat, id: nat, s': System)
    requires Run(trace) && i < |trace| && Next(trace[i], Drop(id), s')
    ensures id in trace[i].calls
    ensures var s := trace[i];
            var key := s.calls[id].key;
            && key !in s'.st.conns
            && (forall k :: k != key ==> (k in s'.st.conns <==> k in s.st.conns)
                                         && (k in s.st.conns ==> s'.st.conns[k] == s.st.conns[k]))
            && (forall c :: c in s'.st.dead <==> c in s.st.dead || (key in s.st.conns && s.st.conns[key] == c))
            && (forall c :: c in s'.st.up <==> c in s.st.up && !(key in s.st.conns && s.st.conns[key] == c))
  {
    hide Run;
  }

  /** reap keeps an entry exactly if it is not dead and its last get is at most ten minutes old. */
  lemma ReapKeepsTheFresh(trace: seq<System>, i: nat, now: int, s': System, key: string)
    requires Run(trace) && i < |trace| && Next(trace[i], Reap(now), s')
    ensures var s := trace[i];
            && (key in s'.st.conns ==> key in s.st.conns && s'.st.conns[key] == s.st.conns[key])
            && (key in s.st.conns ==>
                  var c := s.st.conns[key];
                  && c in s.st.last
                  && (key in s'.st.conns <==> c !in s.st.dead && now - s.st.last[c] <= 600_000_000_000)
                  && (key !in s'.st.conns ==> c !in s'.st.up))
  {
    hide Run, HeldInstalled, Tokens, Pending, Owned, UsesOwnKey;
    ReachableStatesAreSound(trace, i);
  }

  /** After Close the table is empty and every connection ever installed is down; a client still in the hands of the
      call that dialled it is left to that call. */
  lemma CloseEmptiesTheTable(trace: seq<System>, i: nat, s': System)
    requires Run(trace) && i < |trace| && Next(trace[i], Close, s')
    ensures s'.st.conns == map[]
    ensures forall c :: c in s'.keyOf ==> c !in s'.st.up
    ensures forall c :: c in trace[i].st.up && c !in trace[i].keyOf ==> c in s'.st.up
  {
    hide Run, HeldInstalled, Tokens, Pending, UsesOwnKey, DeadIsDown;
    ReachableStatesAreSound(trace, i);
    var s := trace[i];
    assert s.st.conns - s.st.conns.Keys == map[];
    forall c | c in s'.keyOf && c in s.st.up ensures c !in s'.st.up {
      assert s.keyOf[c] in s.st.conns.Keys && s.st.conns[s.keyOf[c]] == c;
    }
  }
}
