/** Concurrent calls of `run` (fleet/fleet.go) on the connection pool, as a system of atomic steps:
    the pool's lock regions, the dial outside them, the semaphore, the retry, the watcher goroutine,
    reap, Close, and loss of the transport. */
module PoolProtocol {
  import opened Wrappers
  import opened Pool

  /** Where a call of run is. `token` is the connection whose semaphore it holds, if any;
      with a token in hand, get is being called for the retry. */
  datatype Pc =
    | Getting(token: Option<nat>)                  // before get's first region
    | Dialling(token: Option<nat>)                 // get dials, outside the mutex
    | Dialled(token: Option<nat>, client: nat)     // before get's second region
    | Acquiring(on: nat)                           // waiting to send on the semaphore
    | Opening(held: nat, on: nat, retried: bool)   // about to open a session on `on`
    | Dropping(held: nat)                          // session refused: about to drop the key
    | Running(held: nat, on: nat)                  // session open
    | Over

  datatype Call = Call(key: string, pc: Pc)

  /** `maker` names the call that dialled each client; `keyOf` the key each connection was installed under. */
  datatype System = System(st: State, calls: map<nat, Call>, maker: map<nat, nat>, keyOf: map<nat, string>)

  datatype Step =
    | Enter(id: nat, key: string)
    | Find(id: nat, now: int)
    | DialError(id: nat)
    | DialOk(id: nat, client: nat)
    | Install(id: nat, now: int)
    | Acquire(id: nat)
    | GiveUp(id: nat)
    | SessionOk(id: nat)
    | SessionRefused(id: nat)
    | Drop(id: nat)
    | End(id: nat)
    | Lose(client: nat)
    | Watch(conn: nat)
    | Reap(now: int)
    | Close

  const INIT := System(EMPTY, map[], map[], map[])

  function Move(s: System, id: nat, pc: Pc): map<nat, Call>
    requires id in s.calls
  {
    s.calls[id := s.calls[id].(pc := pc)]
  }

  /** What a call does with the connection that get returned. */
  function GotConn(token: Option<nat>, c: nat): Pc {
    match token
    case None => Acquiring(c)
    case Some(h) => Opening(h, c, true)
  }

  /** The deferred receive: a call that ends gives its token back. */
  function GiveBack(sem: map<nat, nat>, token: Option<nat>): map<nat, nat> {
    if token.Some? && token.value in sem && sem[token.value] > 0
    then sem[token.value := sem[token.value] - 1] else sem
  }

  function Quit(s: System, id: nat, token: Option<nat>): System
    requires id in s.calls
  {
    s.(calls := Move(s, id, Over), st := s.st.(sem := GiveBack(s.st.sem, token)))
  }

  ghost predicate Next(s: System, step: Step, s': System) {
    match step
    case Enter(id, key) =>
      id !in s.calls && s' == s.(calls := s.calls[id := Call(key, Getting(None))])
    case Find(id, now) =>
      && id in s.calls && s.calls[id].pc.Getting?
      && var (st, r) := FindStep(s.st, s.calls[id].key, now);
         var token := s.calls[id].pc.token;
         s' == s.(st := st, calls := Move(s, id, if r.Some? then GotConn(token, r.value) else Dialling(token)))
    case DialError(id) =>
      && id in s.calls && s.calls[id].pc.Dialling?
      && s' == Quit(s, id, s.calls[id].pc.token)
    case DialOk(id, client) =>
      && id in s.calls && s.calls[id].pc.Dialling? && client !in s.maker
      && s' == s.(calls := Move(s, id, Dialled(s.calls[id].pc.token, client)),
                  maker := s.maker[client := id], st := s.st.(up := s.st.up + {client}))
    case Install(id, now) =>
      && id in s.calls && s.calls[id].pc.Dialled?
      && var c := s.calls[id];
         var (st, conn) := InstallStep(s.st, c.key, c.pc.client, now);
         s' == s.(st := st, calls := Move(s, id, GotConn(c.pc.token, conn)),
                  keyOf := if Alive(s.st, c.key).Some? then s.keyOf else s.keyOf[c.pc.client := c.key])
    case Acquire(id) =>
      && id in s.calls && s.calls[id].pc.Acquiring?
      && var c := s.calls[id].pc.on;
         && c in s.st.sem && s.st.sem[c] < MAX_SESSIONS
         && s' == s.(calls := Move(s, id, Opening(c, c, false)), st := s.st.(sem := s.st.sem[c := s.st.sem[c] + 1]))
    case GiveUp(id) =>
      && id in s.calls && s.calls[id].pc.Acquiring?
      && s' == Quit(s, id, None)
    case SessionOk(id) =>
      && id in s.calls && s.calls[id].pc.Opening? && s.calls[id].pc.on in s.st.up
      && s' == s.(calls := Move(s, id, Running(s.calls[id].pc.held, s.calls[id].pc.on)))
    case SessionRefused(id) =>
      && id in s.calls && s.calls[id].pc.Opening?
      && var pc := s.calls[id].pc;
         s' == if pc.retried then Quit(s, id, Some(pc.held)) else s.(calls := Move(s, id, Dropping(pc.held)))
    case Drop(id) =>
      && id in s.calls && s.calls[id].pc.Dropping?
      && s' == s.(st := DropStep(s.st, s.calls[id].key), calls := Move(s, id, Getting(Some(s.calls[id].pc.held))))
    case End(id) =>
      && id in s.calls && s.calls[id].pc.Running?
      && s' == Quit(s, id, Some(s.calls[id].pc.held))
    case Lose(client) =>
      s' == s.(st := s.st.(up := s.st.up - {client}))
    case Watch(conn) =>
      && conn in s.keyOf && conn !in s.st.up
      && s' == s.(st := s.st.(dead := s.st.dead + {conn}))
    case Reap(now) =>
      s' == s.(st := ReapStep(s.st, now))
    case Close =>
      s' == s.(st := CloseStep(s.st))
  }

  // ---- Ownership ----

  /** Connections are known under the key they were installed for. */
  ghost predicate Installed(s: System) {
    forall k :: k in s.st.conns ==> s.st.conns[k] in s.keyOf && s.keyOf[s.st.conns[k]] == k
  }

  ghost predicate Tabled(s: System) {
    s.keyOf.Keys <= s.maker.Keys && s.st.last.Keys == s.st.sem.Keys == s.keyOf.Keys
  }

  /** A connection marked dead is down, and only clients that were dialled are up. */
  ghost predicate DeadIsDown(s: System) {
    && (forall c :: c in s.st.dead ==> c in s.keyOf && c !in s.st.up)
    && s.st.up <= s.maker.Keys
  }

  /** A client that is up is in the map if it was installed, and otherwise in the hands of the call that dialled it. */
  ghost predicate Owned(s: System) {
    forall c :: c in s.st.up ==>
      if c in s.keyOf then s.keyOf[c] in s.st.conns && s.st.conns[s.keyOf[c]] == c
      else c in s.maker && s.maker[c] in s.calls
           && s.calls[s.maker[c]].pc.Dialled? && s.calls[s.maker[c]].pc.client == c
  }

  /** A client in a call's hands is that call's own, and not installed. */
  ghost predicate Pending(s: System) {
    forall id :: id in s.calls && s.calls[id].pc.Dialled? ==>
      var c := s.calls[id].pc.client;
      c in s.maker && s.maker[c] == id && c !in s.keyOf
  }

  /** Tokens are held on installed connections. */
  ghost predicate HeldInstalled(s: System) {
    forall id :: id in s.calls && Held(s.calls[id].pc).Some? ==> Held(s.calls[id].pc).value in s.keyOf
  }

  /** Calls use connections installed under their own key. */
  ghost predicate UsesOwnKey(s: System) {
    forall id :: id in s.calls && On(s.calls[id].pc).Some? ==>
      On(s.calls[id].pc).value in s.keyOf && s.keyOf[On(s.calls[id].pc).value] == s.calls[id].key
  }

  /** The token a call holds: from the send on the semaphore to the deferred receive. */
  function Held(pc: Pc): Option<nat> {
    match pc
    case Getting(t) => t
    case Dialling(t) => t
    case Dialled(t, _) => t
    case Opening(h, _, _) => Some(h)
    case Dropping(h) => Some(h)
    case Running(h, _) => Some(h)
    case _ => None
  }

  function On(pc: Pc): Option<nat> {
    match pc
    case Acquiring(c) => Some(c)
    case Opening(_, c, _) => Some(c)
    case Running(_, c) => Some(c)
    case _ => None
  }

  ghost function Holders(s: System, c: nat): set<nat> {
    set id | id in s.calls && Held(s.calls[id].pc) == Some(c)
  }

  /** A semaphore counts the calls that hold its tokens, and never more than MAX_SESSIONS of them. */
  ghost predicate Tokens(s: System) {
    forall c :: c in s.keyOf ==> c in s.st.sem && s.st.sem[c] == |Holders(s, c)| <= MAX_SESSIONS
  }

  ghost predicate Inv(s: System) {
    && Installed(s) && Tabled(s) && DeadIsDown(s) && Owned(s) && Pending(s)
    && HeldInstalled(s) && UsesOwnKey(s) && Tokens(s)
  }

  lemma InitHolds()
    ensures Inv(INIT)
  {
  }

  lemma StepKeepsInstalled(s: System, step: Step, s': System)
    requires Inv(s) && Next(s, step, s')
    ensures Installed(s')
  {
    hide Tokens, Stale, HeldInstalled, UsesOwnKey, Owned, Tabled, DeadIsDown;
  }

  lemma StepKeepsTabled(s: System, step: Step, s': System)
    requires Inv(s) && Next(s, step, s')
    ensures Tabled(s')
  {
    hide HeldInstalled, Owned, DeadIsDown, ReapStep, CloseStep;
    match step
    case Find(id, now) =>
    case Install(id, now) =>
    case Reap(now) =>
      ReapKeepsTables(s.st, now);
    case Close =>
      ReapKeepsTables(s.st, 0);
    case _ =>
      TablesStay(s, step, s');
  }

  lemma ReapKeepsTables(st: State, now: int)
    ensures ReapStep(st, now).last == st.last && ReapStep(st, now).sem == st.sem
    ensures CloseStep(st).last == st.last && CloseStep(st).sem == st.sem
  {
  }

  lemma TablesStay(s: System, step: Step, s': System)
    requires Inv(s) && Next(s, step, s')
    requires !step.Find? && !step.Install? && !step.Reap? && !step.Close?
    ensures s'.keyOf == s.keyOf && s.maker.Keys <= s'.maker.Keys
    ensures s'.st.last == s.st.last && s'.st.sem.Keys == s.st.sem.Keys
  {
    hide HeldInstalled, Owned, DeadIsDown, Installed, Tokens, FindStep, InstallStep;
  }

  lemma StepKeepsDeadDown(s: System, step: Step, s': System)
    requires Inv(s) && Next(s, step, s')
    ensures DeadIsDown(s')
  {
    hide Tokens, Stale, HeldInstalled, UsesOwnKey, Owned;
  }

  lemma StepKeepsOwned(s: System, step: Step, s': System)
    requires Inv(s) && Next(s, step, s')
    ensures Owned(s')
  {
    hide Tokens, HeldInstalled, UsesOwnKey, Stale;
  }

  lemma StepKeepsPending(s: System, step: Step, s': System)
    requires Inv(s) && Next(s, step, s')
    ensures Pending(s')
  {
    hide Tokens, HeldInstalled, UsesOwnKey, Stale, Owned, DeadIsDown;
  }

  lemma StepKeepsHeld(s: System, step: Step, s': System)
    requires Inv(s) && Next(s, step, s')
    ensures HeldInstalled(s')
  {
    hide Tokens, Owned, Stale, Pending, DeadIsDown;
  }

  lemma StepKeepsOwnKey(s: System, step: Step, s': System)
    requires Inv(s) && Next(s, step, s')
    ensures UsesOwnKey(s')
  {
    hide Tokens, Owned, Stale, HeldInstalled, DeadIsDown;
  }

  // ---- Tokens ----

  /** Moving one call changes the number of holders of a connection by what that call held and holds. */
  lemma HoldersAfterMove(s: System, id: nat, pc: Pc, s': System, c: nat)
    requires id in s.calls && s'.calls == Move(s, id, pc)
    ensures |Holders(s', c)| == |Holders(s, c)|
              - (if Held(s.calls[id].pc) == Some(c) then 1 else 0) + (if Held(pc) == Some(c) then 1 else 0)
  {
    hide Held;
    var others := Holders(s, c) - {id};
    assert Holders(s, c) == if Held(s.calls[id].pc) == Some(c) then others + {id} else others;
    assert Holders(s', c) == if Held(pc) == Some(c) then others + {id} else others;
  }

  lemma HoldersAfterEnter(s: System, id: nat, key: string, s': System, c: nat)
    requires id !in s.calls && s'.calls == s.calls[id := Call(key, Getting(None))]
    ensures Holders(s', c) == Holders(s, c)
  {
  }

  lemma NoHolders(s: System, c: nat)
    requires HeldInstalled(s) && c !in s.keyOf
    ensures |Holders(s, c)| == 0
  {
    hide Held;
    assert Holders(s, c) == {};
  }

  /** The call that a step moves. */
  function Mover(step: Step): Option<nat> {
    match step
    case Enter(_, _) => None
    case Lose(_) => None
    case Watch(_) => None
    case Reap(_) => None
    case Close => None
    case _ => Some(step.id)
  }

  /** A step of a call moves that call alone. */
  lemma MoverMoves(s: System, step: Step, s': System)
    requires Next(s, step, s') && Mover(step).Some?
    ensures step.id in s.calls && step.id in s'.calls && s'.calls == Move(s, step.id, s'.calls[step.id].pc)
  {
    hide FindStep, InstallStep, DropStep, Alive, GiveBack;
  }

  /** Without a moving call no semaphore changes. */
  lemma OthersKeepSem(s: System, step: Step, s': System)
    requires Next(s, step, s') && Mover(step).None?
    ensures s'.st.sem == s.st.sem && s'.keyOf == s.keyOf
  {
    hide Stale;
  }

  /** The semaphores change with what the moving call holds. */
  lemma SemFollowsHeld(s: System, step: Step, s': System, c: nat)
    requires Inv(s) && Next(s, step, s') && c in s.keyOf && Mover(step).Some?
    requires step.id in s.calls && step.id in s'.calls
    ensures c in s'.st.sem && c in s.st.sem
    ensures s'.st.sem[c] + (if Held(s.calls[step.id].pc) == Some(c) then 1 else 0)
         == s.st.sem[c] + (if Held(s'.calls[step.id].pc) == Some(c) then 1 else 0)
  {
    hide Owned, DeadIsDown, Holders, Installed, HeldInstalled;
    if Held(s.calls[step.id].pc) == Some(c) {
      HolderCounts(s, step.id, c);
    }
  }

  lemma HolderCounts(s: System, id: nat, c: nat)
    requires id in s.calls && Held(s.calls[id].pc) == Some(c)
    ensures |Holders(s, c)| > 0
  {
    assert id in Holders(s, c);
  }

  /** Only an installation adds a connection; its semaphore starts empty, and nobody holds its tokens. */
  lemma NewConnection(s: System, step: Step, s': System, c: nat)
    requires Inv(s) && Next(s, step, s') && c in s'.keyOf && c !in s.keyOf
    ensures c in s'.st.sem && s'.st.sem[c] == 0 && |Holders(s', c)| == 0
    ensures step.Install? && s'.keyOf[c] == s.calls[step.id].key
  {
    hide Tokens, UsesOwnKey, Owned, Stale, DeadIsDown, Holders;
    HoldersAfterMove(s, step.id, s'.calls[step.id].pc, s', c);
    NoHolders(s, c);
  }

  lemma StepKeepsTokens(s: System, step: Step, s': System)
    requires Inv(s) && Next(s, step, s')
    ensures Tokens(s')
  {
    hide Next, Held, Holders, Installed, Tabled, DeadIsDown, Owned, Pending, HeldInstalled, UsesOwnKey;
    forall c | c in s'.keyOf ensures c in s'.st.sem && s'.st.sem[c] == |Holders(s', c)| <= MAX_SESSIONS {
      if c !in s.keyOf {
        NewConnection(s, step, s', c);
      } else {
        if Mover(step).Some? {
          MoverMoves(s, step, s');
          SemFollowsHeld(s, step, s', c);
          HoldersAfterMove(s, step.id, s'.calls[step.id].pc, s', c);
          if Held(s'.calls[step.id].pc) == Some(c) && Held(s.calls[step.id].pc) != Some(c) {
            TokenFree(s, step, s', c);
          }
        } else {
          OthersKeepSem(s, step, s');
          HoldersStay(s, step, s', c);
        }
      }
    }
  }

  lemma HoldersStay(s: System, step: Step, s': System, c: nat)
    requires Next(s, step, s') && Mover(step).None?
    ensures Holders(s', c) == Holders(s, c)
  {
    if step.Enter? {
      HoldersAfterEnter(s, step.id, step.key, s', c);
    } else {
      assert s'.calls == s.calls;
    }
  }

  /** A token is taken only while one is free. */
  lemma TokenFree(s: System, step: Step, s': System, c: nat)
    requires Inv(s) && Next(s, step, s') && c in s.keyOf
    requires Mover(step).Some? && step.id in s'.calls && step.id in s.calls
    requires Held(s'.calls[step.id].pc) == Some(c) && Held(s.calls[step.id].pc) != Some(c)
    ensures s.st.sem[c] < MAX_SESSIONS
  {
    hide Owned, Stale, DeadIsDown, Holders, Installed, Tokens;
  }

  lemma StepKeepsInv(s: System, step: Step, s': System)
    requires Inv(s) && Next(s, step, s')
    ensures Inv(s')
  {
    hide Next, Installed, Tabled, DeadIsDown, Owned, Pending, HeldInstalled, UsesOwnKey, Tokens;
    StepKeepsInstalled(s, step, s');
    StepKeepsTabled(s, step, s');
    StepKeepsDeadDown(s, step, s');
    StepKeepsOwned(s, step, s');
    StepKeepsPending(s, step, s');
    StepKeepsHeld(s, step, s');
    StepKeepsOwnKey(s, step, s');
    StepKeepsTokens(s, step, s');
  }

  // ---- Runs ----

  ghost predicate Steps(s: System, s': System) {
    exists step :: Next(s, step, s')
  }

  ghost predicate Run(trace: seq<System>) {
    && trace != [] && trace[0] == INIT
    && forall i :: 0 < i < |trace| ==> Steps(trace[i - 1], trace[i])
  }

  lemma {:induction false} ReachableStatesAreSound(trace: seq<System>, i: nat)
    requires Run(trace) && i < |trace|
    ensures Inv(trace[i])
  {
    hide Next, Inv;
    if i == 0 {
      InitHolds();
    } else {
      ReachableStatesAreSound(trace, i - 1);
      assert Steps(trace[i - 1], trace[i]);
      var step :| Next(trace[i - 1], step, trace[i]);
      StepKeepsInv(trace[i - 1], step, trace[i]);
    }
  }

  /** No leak: a client that was dialled and is still up is in the map under its key, or in the hands of
      the one call that dialled it and is about to install it. */
  lemma EveryOpenClientIsOwned(trace: seq<System>, i: nat, c: nat)
    requires Run(trace) && i < |trace| && c in trace[i].st.up
    ensures var s := trace[i];
            && c in s.maker
            && if c in s.keyOf then s.keyOf[c] in s.st.conns && s.st.conns[s.keyOf[c]] == c && c !in s.st.dead
               else && s.maker[c] in s.calls && s.calls[s.maker[c]].pc.Dialled? && s.calls[s.maker[c]].pc.client == c
                    && forall id :: id in s.calls && s.calls[id].pc.Dialled? && s.calls[id].pc.client == c ==>
                         id == s.maker[c]
  {
    hide Run, Installed, HeldInstalled, UsesOwnKey, Tokens;
    ReachableStatesAreSound(trace, i);
  }

  /** A key never has two open connections. */
  lemma OneOpenConnectionPerKey(trace: seq<System>, i: nat, c: nat, d: nat)
    requires Run(trace) && i < |trace|
    requires c in trace[i].st.up && d in trace[i].st.up && c in trace[i].keyOf && d in trace[i].keyOf
    ensures trace[i].keyOf[c] == trace[i].keyOf[d] ==> c == d
  {
    hide Run, Installed, HeldInstalled, UsesOwnKey, Tokens, Pending, DeadIsDown;
    ReachableStatesAreSound(trace, i);
  }
}
