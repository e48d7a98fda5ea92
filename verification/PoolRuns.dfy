/** Runs of the pool that show its bounds are reached and its surprises happen. */
module PoolRuns {
  import opened Wrappers
  import opened Pool
  import opened PoolProtocol
  import opened PoolSessions

  lemma FirstState()
    ensures Run([INIT])
  {
  }

  lemma Extend(trace: seq<System>, step: Step, s': System) returns (longer: seq<System>)
    requires Run(trace) && trace != [] && Next(trace[|trace| - 1], step, s')
    ensures Run(longer) && longer == trace + [s']
  {
    hide Next;
    longer := trace + [s'];
    assert Steps(trace[|trace| - 1], s');
    forall i | 0 < i < |longer| ensures Steps(longer[i - 1], longer[i]) {
      assert i < |trace| ==> Steps(trace[i - 1], trace[i]);
    }
  }

  /** A call that finds no connection dials one, installs it and takes a token. */
  lemma Connect(trace: seq<System>, id: nat, key: string, client: nat) returns (longer: seq<System>)
    requires Run(trace) && trace != []
    requires var s := trace[|trace| - 1];
             id !in s.calls && key !in s.st.conns && client !in s.maker
    ensures Run(longer) && longer != []
    ensures var s, t := trace[|trace| - 1], longer[|longer| - 1];
            && t.calls == s.calls[id := Call(key, Opening(client, client, false))]
            && t.maker == s.maker[client := id] && t.keyOf == s.keyOf[client := key]
            && t.st == State(s.st.conns[key := client], s.st.dead, s.st.last[client := 0], s.st.sem[client := 1],
                             s.st.up + {client})
  {
    hide Run, Next;
    var s := trace[|trace| - 1];
    longer := Extend(trace, Enter(id, key), With(s, id, key, Getting(None)))
      by { EnterAndMiss(s, id, key); }
    longer := Extend(longer, Find(id, 0), With(s, id, key, Dialling(None)))
      by { EnterAndMiss(s, id, key); }
    var dialled := s.(st := s.st.(up := s.st.up + {client}), maker := s.maker[client := id]);
    longer := Extend(longer, DialOk(id, client), With(dialled, id, key, Dialled(None, client)))
      by { DialOnce(s, id, key, client); }
    var added := dialled.(st := InstallStep(dialled.st, key, client, 0).0, keyOf := s.keyOf[client := key]);
    longer := Extend(longer, Install(id, 0), With(added, id, key, Acquiring(client)))
      by { InstallOnce(dialled, id, key, client); }
    var taken := added.(st := added.st.(sem := added.st.sem[client := 1]));
    longer := Extend(longer, Acquire(id), With(taken, id, key, Opening(client, client, false)))
      by { TakeToken(added, id, key, client); }
  }

  function With(s: System, id: nat, key: string, pc: Pc): System {
    s.(calls := s.calls[id := Call(key, pc)])
  }

  lemma EnterAndMiss(s: System, id: nat, key: string)
    requires id !in s.calls && key !in s.st.conns
    ensures Next(s, Enter(id, key), With(s, id, key, Getting(None)))
    ensures Next(With(s, id, key, Getting(None)), Find(id, 0), With(s, id, key, Dialling(None)))
  {
  }

  lemma DialOnce(s: System, id: nat, key: string, client: nat)
    requires id !in s.calls && client !in s.maker
    ensures var dialled := s.(st := s.st.(up := s.st.up + {client}), maker := s.maker[client := id]);
            Next(With(s, id, key, Dialling(None)), DialOk(id, client), With(dialled, id, key, Dialled(None, client)))
  {
    hide FindStep, InstallStep, DropStep;
  }

  lemma InstallOnce(s: System, id: nat, key: string, client: nat)
    requires id !in s.calls && key !in s.st.conns
    ensures var added := s.(st := InstallStep(s.st, key, client, 0).0, keyOf := s.keyOf[client := key]);
            Next(With(s, id, key, Dialled(None, client)), Install(id, 0), With(added, id, key, Acquiring(client)))
  {
    hide DropStep, GiveBack;
  }

  lemma TakeToken(s: System, id: nat, key: string, c: nat)
    requires c in s.st.sem && s.st.sem[c] < MAX_SESSIONS
    ensures var taken := s.(st := s.st.(sem := s.st.sem[c := s.st.sem[c] + 1]));
            Next(With(s, id, key, Acquiring(c)), Acquire(id), With(taken, id, key, Opening(c, c, false)))
  {
  }

  /** A call that finds a connection takes a token of it. */
  lemma Attempt(trace: seq<System>, id: nat, key: string, c: nat) returns (longer: seq<System>)
    requires Run(trace) && trace != []
    requires var s := trace[|trace| - 1];
             && id !in s.calls && Alive(s.st, key) == Some(c)
             && c in s.st.sem && s.st.sem[c] < MAX_SESSIONS
    ensures Run(longer) && longer != []
    ensures var s, t := trace[|trace| - 1], longer[|longer| - 1];
            t == s.(calls := s.calls[id := Call(key, Opening(c, c, false))],
                    st := s.st.(last := s.st.last[c := 0], sem := s.st.sem[c := s.st.sem[c] + 1]))
  {
    hide Run, Next;
    var s := trace[|trace| - 1];
    var found := s.(st := s.st.(last := s.st.last[c := 0]));
    var taken := found.(st := found.st.(sem := found.st.sem[c := found.st.sem[c] + 1]));
    longer := Extend(trace, Enter(id, key), With(s, id, key, Getting(None)))
      by { EnterAndHit(s, id, key, c); }
    longer := Extend(longer, Find(id, 0), With(found, id, key, Acquiring(c)))
      by { EnterAndHit(s, id, key, c); }
    longer := Extend(longer, Acquire(id), With(taken, id, key, Opening(c, c, false)))
      by { TakeToken(found, id, key, c); }
  }

  /** ... and opens a session on it. */
  lemma OpenOn(trace: seq<System>, id: nat, key: string, c: nat) returns (longer: seq<System>)
    requires Run(trace) && trace != []
    requires var s := trace[|trace| - 1];
             && id !in s.calls && Alive(s.st, key) == Some(c) && c in s.st.up
             && c in s.st.sem && s.st.sem[c] < MAX_SESSIONS
    ensures Run(longer) && longer != []
    ensures var s, t := trace[|trace| - 1], longer[|longer| - 1];
            t == s.(calls := s.calls[id := Call(key, Running(c, c))],
                    st := s.st.(last := s.st.last[c := 0], sem := s.st.sem[c := s.st.sem[c] + 1]))
  {
    hide Run, Next;
    longer := Attempt(trace, id, key, c);
    var t := longer[|longer| - 1];
    longer := Extend(longer, SessionOk(id), t.(calls := Move(t, id, Running(c, c))))
      by { Open(t, id, c, c); }
    assert Move(t, id, Running(c, c)) == trace[|trace| - 1].calls[id := Call(key, Running(c, c))];
  }

  lemma EnterAndHit(s: System, id: nat, key: string, c: nat)
    requires id !in s.calls && Alive(s.st, key) == Some(c)
    ensures var found := s.(st := s.st.(last := s.st.last[c := 0]));
            && Next(s, Enter(id, key), With(s, id, key, Getting(None)))
            && Next(With(s, id, key, Getting(None)), Find(id, 0), With(found, id, key, Acquiring(c)))
  {
  }

  // ---- Any number of retries on top of MAX_SESSIONS ----

  ghost predicate AreFirst(ids: set<nat>, n: nat) {
    forall q: nat :: q in ids <==> q < n
  }

  lemma {:induction false} FirstCount(ids: set<nat>, n: nat)
    requires AreFirst(ids, n)
    ensures |ids| == n
    decreases n
  {
    if n == 0 {
      assert ids == {};
    } else {
      FirstCount(ids - {n - 1}, n - 1);
    }
  }

  /** Calls 0 to n-1 have each been refused a session by a connection of their own, dropped it, and are about to look
      for another one with its token in hand. */
  ghost predicate Stranded(s: System, n: nat) {
    && AreFirst(s.calls.Keys, n) && AreFirst(s.maker.Keys, n) && s.st.conns == map[]
    && forall q :: q in s.calls ==> s.calls[q] == Call("k", Getting(Some(q)))
  }

  lemma {:induction false} Strand(n: nat) returns (trace: seq<System>)
    ensures Run(trace) && trace != [] && Stranded(trace[|trace| - 1], n)
  {
    hide Run, Next;
    if n == 0 {
      trace := [INIT];
      assert Run(trace) by { FirstState(); }
    } else {
      trace := Strand(n - 1);
      ghost var before := trace[|trace| - 1];
      trace := Connect(trace, n - 1, "k", n - 1);
      trace := RefuseAndDrop(trace, n - 1, n - 1);
      assert before.st.conns["k" := n - 1] - {"k"} == map[];
    }
  }

  /** A call that its connection refuses a session drops what the table holds for its key. */
  lemma RefuseAndDrop(trace: seq<System>, id: nat, held: nat) returns (longer: seq<System>)
    requires Run(trace) && trace != []
    requires var s := trace[|trace| - 1]; id in s.calls && s.calls[id].pc == Opening(held, held, false)
    ensures Run(longer) && longer != []
    ensures var s, t := trace[|trace| - 1], longer[|longer| - 1];
            && t.calls == Move(s, id, Getting(Some(held))) && t.st == DropStep(s.st, s.calls[id].key)
            && t.maker == s.maker && t.keyOf == s.keyOf
  {
    hide Run, Next, DropStep;
    var s := trace[|trace| - 1];
    var refused := s.(calls := Move(s, id, Dropping(held)));
    longer := Extend(trace, SessionRefused(id), refused) by { RefuseOnce(s, id, held); }
    var moved := Move(s, id, Getting(Some(held)));
    assert Move(refused, id, Getting(Some(held))) == moved;
    longer := Extend(longer, Drop(id), s.(calls := moved, st := DropStep(s.st, s.calls[id].key)))
      by { DropOnce(refused, id, held); }
  }

  lemma RefuseOnce(s: System, id: nat, held: nat)
    requires id in s.calls && s.calls[id].pc == Opening(held, held, false)
    ensures Next(s, SessionRefused(id), s.(calls := Move(s, id, Dropping(held))))
  {
  }

  lemma DropOnce(s: System, id: nat, held: nat)
    requires id in s.calls && s.calls[id].pc == Dropping(held)
    ensures Next(s, Drop(id), s.(calls := Move(s, id, Getting(Some(held))), st := DropStep(s.st, s.calls[id].key)))
  {
  }

  /** Connection c serves calls, those from n on with a token of its own; the first n have joined as far as `joined`. */
  ghost predicate Serving(s: System, c: nat, n: nat, joined: nat, m: nat) {
    && AreFirst(s.calls.Keys, n + m) && joined <= n && c in s.keyOf
    && Alive(s.st, "k") == Some(c) && c in s.st.up && c in s.st.sem && s.st.sem[c] == m
    && (forall q :: q in s.calls && q < joined ==> s.calls[q] == Call("k", Running(q, c)))
    && (forall q :: q in s.calls && joined <= q < n ==> s.calls[q] == Call("k", Getting(Some(q))))
    && (forall q :: q in s.calls && n <= q ==> s.calls[q] == Call("k", Running(c, c)))
  }

  /** Connection n, installed for call n, which opens a session on it. */
  lemma FirstServed(before: seq<System>, n: nat) returns (trace: seq<System>)
    requires Run(before) && before != [] && Stranded(before[|before| - 1], n)
    ensures Run(trace) && trace != [] && Serving(trace[|trace| - 1], n, n, 0, 1)
  {
    hide Run, Next;
    var s := before[|before| - 1];
    assert n !in s.st.dead by { NotDead(before, n); }
    trace := Connect(before, n, "k", n);
    var t := trace[|trace| - 1];
    trace := Extend(trace, SessionOk(n), t.(calls := Move(t, n, Running(n, n)))) by { Open(t, n, n, n); }
  }

  lemma NotDead(trace: seq<System>, c: nat)
    requires Run(trace) && trace != [] && c !in trace[|trace| - 1].maker
    ensures c !in trace[|trace| - 1].st.dead
  {
    hide Run, Tokens, Owned, HeldInstalled, UsesOwnKey;
    ReachableStatesAreSound(trace, |trace| - 1);
  }

  lemma Open(s: System, id: nat, held: nat, on: nat)
    requires id in s.calls && s.calls[id].pc.Opening? && s.calls[id].pc.held == held && s.calls[id].pc.on == on
    requires on in s.st.up
    ensures Next(s, SessionOk(id), s.(calls := Move(s, id, Running(held, on))))
  {
  }

  /** Four calls take the four tokens. */
  lemma AllServed(before: seq<System>, n: nat) returns (trace: seq<System>)
    requires Run(before) && before != [] && Serving(before[|before| - 1], n, n, 0, 1)
    ensures Run(trace) && trace != [] && Serving(trace[|trace| - 1], n, n, 0, MAX_SESSIONS)
  {
    hide Run, Next, Serving;
    trace := before;
    for m := 1 to MAX_SESSIONS
      invariant Run(trace) && trace != [] && Serving(trace[|trace| - 1], n, n, 0, m)
    {
      OneMoreServed(trace[|trace| - 1], n, m);
      trace := OpenOn(trace, n + m, "k", n);
    }
  }

  lemma OneMoreServed(s: System, n: nat, m: nat)
    requires Serving(s, n, n, 0, m)
    ensures n + m !in s.calls && Alive(s.st, "k") == Some(n) && n in s.st.up && n in s.st.sem && s.st.sem[n] == m
    ensures Serving(s.(calls := s.calls[n + m := Call("k", Running(n, n))],
                       st := s.st.(last := s.st.last[n := 0], sem := s.st.sem[n := m + 1])), n, n, 0, m + 1)
  {
  }

  /** The stranded calls retry, one after the other, and take no token. */
  lemma AllJoin(before: seq<System>, n: nat) returns (trace: seq<System>)
    requires Run(before) && before != [] && Serving(before[|before| - 1], n, n, 0, MAX_SESSIONS)
    ensures Run(trace) && trace != [] && Serving(trace[|trace| - 1], n, n, n, MAX_SESSIONS)
  {
    hide Run, Next, Serving;
    trace := before;
    for q := 0 to n
      invariant Run(trace) && trace != [] && Serving(trace[|trace| - 1], n, n, q, MAX_SESSIONS)
    {
      trace := Join(trace, n, q);
    }
  }

  lemma Join(before: seq<System>, n: nat, q: nat) returns (trace: seq<System>)
    requires q < n && Run(before) && before != [] && Serving(before[|before| - 1], n, n, q, MAX_SESSIONS)
    ensures Run(trace) && trace != [] && Serving(trace[|trace| - 1], n, n, q + 1, MAX_SESSIONS)
  {
    hide Run, Next;
    var s := before[|before| - 1];
    var found := s.(st := s.st.(last := s.st.last[n := 0]), calls := Move(s, q, Opening(q, n, true)));
    trace := Extend(before, Find(q, 0), found) by { FindAgain(s, q, n); }
    trace := Extend(trace, SessionOk(q), found.(calls := Move(found, q, Running(q, n)))) by { Open(found, q, q, n); }
  }

  lemma FindAgain(s: System, q: nat, c: nat)
    requires q in s.calls && s.calls[q] == Call("k", Getting(Some(q))) && Alive(s.st, "k") == Some(c)
    ensures Next(s, Find(q, 0), s.(st := s.st.(last := s.st.last[c := 0]), calls := Move(s, q, Opening(q, c, true))))
  {
  }

  /** The bound of four sessions and the retries is reached, whatever their number. */
  lemma SessionsReachBound(r: nat) returns (trace: seq<System>)
    ensures Run(trace) && trace != []
    ensures var s := trace[|trace| - 1];
            r in s.keyOf && |Sessions(s, r)| == MAX_SESSIONS + r && |Retries(s, r)| == r
  {
    hide Run, Next;
    trace := Strand(r);
    trace := FirstServed(trace, r);
    trace := AllServed(trace, r);
    trace := AllJoin(trace, r);
    var s := trace[|trace| - 1];
    FirstCount(Sessions(s, r), r + MAX_SESSIONS);
    FirstCount(Retries(s, r), r);
  }

  /** In particular four sessions are not a bound. */
  lemma FiveSessionsOnOneConnection() returns (trace: seq<System>)
    ensures Run(trace) && trace != [] && |Sessions(trace[|trace| - 1], 1)| == 5
  {
    trace := SessionsReachBound(1);
  }

  // ---- Connections closed while in use ----

  /** A command that runs for more than ten minutes without another get on its key loses its connection to reap. */
  lemma ReapClosesBusyConnection() returns (trace: seq<System>)
    ensures Run(trace) && |trace| >= 2
    ensures var s, s' := trace[|trace| - 2], trace[|trace| - 1];
            && Next(s, Reap(IDLE_TTL + 1), s') && s.calls == s'.calls == map[0 := Call("k", Running(0, 0))]
            && 0 in s.st.up && 0 !in s'.st.up
  {
    hide Run, Next;
    trace := [INIT];
    assert Run(trace) by { FirstState(); }
    trace := Connect(trace, 0, "k", 0);
    var t := trace[|trace| - 1];
    var s := t.(calls := Move(t, 0, Running(0, 0)));
    trace := Extend(trace, SessionOk(0), s) by { Open(t, 0, 0, 0); }
    var s' := s.(st := ReapStep(s.st, IDLE_TTL + 1));
    assert Next(s, Reap(IDLE_TTL + 1), s') by { ReapOnce(s); }
    ReapsIdle(s.st);
    trace := Extend(trace, Reap(IDLE_TTL + 1), s');
    assert trace[|trace| - 2] == s;
  }

  lemma ReapOnce(s: System)
    ensures Next(s, Reap(IDLE_TTL + 1), s.(st := ReapStep(s.st, IDLE_TTL + 1)))
  {
  }

  lemma ReapsIdle(st: State)
    requires "k" in st.conns && st.conns["k"] == 0 && 0 in st.last && st.last[0] == 0
    ensures 0 !in ReapStep(st, IDLE_TTL + 1).up
  {
    assert Stale(st, IDLE_TTL + 1, "k");
  }

  /** Calls 0 and 1 are refused by connection 0. The first drops it; call 2 connects again and runs on connection 1;
      the drop of call 1 then takes connection 1 down under it. */
  lemma DropTakesDownHealthy() returns (trace: seq<System>)
    ensures Run(trace) && |trace| >= 2
    ensures var s, s' := trace[|trace| - 2], trace[|trace| - 1];
            && Next(s, Drop(1), s') && 1 in s.calls && s.calls[1].pc == Dropping(0)
            && 2 in s.calls && s.calls[2] == s'.calls[2] == Call("k", Running(1, 1))
            && 1 in s.st.up && 1 !in s'.st.up
  {
    hide Run, Next;
    trace := [INIT];
    assert Run(trace) by { FirstState(); }
    trace := Connect(trace, 0, "k", 0);
    trace := Attempt(trace, 1, "k", 0);
    var s := trace[|trace| - 1];
    trace := Extend(trace, SessionRefused(1), s.(calls := Move(s, 1, Dropping(0)))) by { RefuseOnce(s, 1, 0); }
    trace := RefuseAndDrop(trace, 0, 0);
    s := trace[|trace| - 1];
    assert s.st.conns == map[] by { assert map["k" := 0] - {"k"} == map[]; }
    trace := Connect(trace, 2, "k", 1);
    s := trace[|trace| - 1];
    trace := Extend(trace, SessionOk(2), s.(calls := Move(s, 2, Running(1, 1)))) by { Open(s, 2, 1, 1); }
    s := trace[|trace| - 1];
    var s' := s.(calls := Move(s, 1, Getting(Some(0))), st := DropStep(s.st, "k"));
    assert Next(s, Drop(1), s') by { DropOnce(s, 1, 0); }
    trace := Extend(trace, Drop(1), s');
    assert trace[|trace| - 2] == s;
  }
}
