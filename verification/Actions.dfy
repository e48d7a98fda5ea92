/** Operations launched from the console (collector/collector.go, Action and Busy): at most one per host,
    each leaving a pair of entries in the audit log. */
module Actions {
  import opened Wrappers

  datatype Outcome = Requested | Succeeded | Failed(error: string)

  /** An audit entry written by Action: who, which operation, on which host. */
  datatype Entry = Entry(actor: string, verb: string, host: string, outcome: Outcome)

  const VERBS := {"check", "backup", "unlock", "refresh"}

  datatype Refusal = UnknownHost | UnknownVerb | Busy(verb: string)

  /** What the mutex and the log hold. */
  datatype Desk = Desk(running: map<string, string>, audit: seq<Entry>)

  /** The validation and the lock region at the start of Action. */
  function ClaimStep(desk: Desk, hosts: set<string>, host: string, verb: string): (Desk, Option<Refusal>) {
    if host !in hosts then (desk, Some(UnknownHost))
    else if verb !in VERBS then (desk, Some(UnknownVerb))
    else if host in desk.running then (desk, Some(Busy(desk.running[host])))
    else (desk.(running := desk.running[host := verb]), None)
  }

  function LogStep(desk: Desk, e: Entry): Desk {
    desk.(audit := desk.audit + [e])
  }

  function ClearStep(desk: Desk, host: string): Desk {
    desk.(running := desk.running - {host})
  }

  /** What Busy reports. */
  function InProgress(desk: Desk, host: string): Option<string> {
    if host in desk.running then Some(desk.running[host]) else None
  }

  class ActionDesk {
    const hosts: set<string>
    var running: map<string, string>
    var audit: seq<Entry>

    function View(): Desk
      reads this
    {
      Desk(running, audit)
    }

    constructor (hosts: set<string>)
      ensures this.hosts == hosts && View() == Desk(map[], [])
    {
      this.hosts, running, audit := hosts, map[], [];
    }

    method Claim(host: string, verb: string) returns (refused: Option<Refusal>)
      modifies this
      ensures (View(), refused) == ClaimStep(old(View()), hosts, host, verb)
    {
      if host !in hosts {
        return Some(UnknownHost);
      }
      if verb !in VERBS {
        return Some(UnknownVerb);
      }
      if host in running {
        return Some(Busy(running[host]));
      }
      running := running[host := verb];
      return None;
    }

    method Log(e: Entry)
      modifies this
      ensures View() == LogStep(old(View()), e)
    {
      audit := audit + [e];
    }

    /** The worker's deferred function. */
    method Clear(host: string)
      modifies this
      ensures View() == ClearStep(old(View()), host)
    {
      running := running - {host};
    }

    method BusyWith(host: string) returns (verb: Option<string>)
      ensures verb == InProgress(View(), host)
    {
      verb := if host in running then Some(running[host]) else None;
    }
  }

  // ---- Interleaved calls and workers ----

  /** Where a call of Action, and then its worker, is. */
  datatype Pc =
    | Entered                      // before the lock region
    | Refused(why: Refusal)
    | Claimed                      // running is set, nothing logged yet
    | Working                      // logged as requested, worker started, operation under way
    | Reporting(outcome: Outcome)  // operation over, outcome not logged yet
    | Closing                      // outcome logged, deferred function still to run
    | Over

  datatype Call = Call(actor: string, host: string, verb: string, pc: Pc)

  /** `owner` names the call that set each entry of `running`. */
  datatype System = System(desk: Desk, calls: map<nat, Call>, owner: map<string, nat>)

  datatype Step =
    | Enter(id: nat, actor: string, host: string, verb: string)
    | Claim(id: nat)
    | Announce(id: nat)
    | Finish(id: nat, outcome: Outcome)
    | Report(id: nat)
    | Clear(id: nat)

  const INIT := System(Desk(map[], []), map[], map[])

  function Move(s: System, id: nat, pc: Pc): map<nat, Call>
    requires id in s.calls
  {
    s.calls[id := s.calls[id].(pc := pc)]
  }

  function EntryOf(c: Call, outcome: Outcome): Entry {
    Entry(c.actor, c.verb, c.host, outcome)
  }

  ghost predicate Next(hosts: set<string>, s: System, step: Step, s': System) {
    match step
    case Enter(id, actor, host, verb) =>
      id !in s.calls && s' == s.(calls := s.calls[id := Call(actor, host, verb, Entered)])
    case Claim(id) =>
      && id in s.calls && s.calls[id].pc.Entered?
      && var c := s.calls[id];
         var (desk, refused) := ClaimStep(s.desk, hosts, c.host, c.verb);
         s' == if refused.Some? then s.(calls := Move(s, id, Refused(refused.value)))
               else System(desk, Move(s, id, Claimed), s.owner[c.host := id])
    case Announce(id) =>
      && id in s.calls && s.calls[id].pc.Claimed?
      && s' == s.(desk := LogStep(s.desk, EntryOf(s.calls[id], Requested)), calls := Move(s, id, Working))
    case Finish(id, outcome) =>
      && id in s.calls && s.calls[id].pc.Working? && !outcome.Requested?
      && (s.calls[id].verb == "refresh" ==> outcome.Succeeded?)
      && s' == s.(calls := Move(s, id, Reporting(outcome)))
    case Report(id) =>
      && id in s.calls && s.calls[id].pc.Reporting?
      && s' == s.(desk := LogStep(s.desk, EntryOf(s.calls[id], s.calls[id].pc.outcome)), calls := Move(s, id, Closing))
    case Clear(id) =>
      && id in s.calls && s.calls[id].pc.Closing?
      && s' == System(ClearStep(s.desk, s.calls[id].host), Move(s, id, Over), s.owner - {s.calls[id].host})
  }

  /** A call that has claimed its host and not released it. */
  predicate Active(pc: Pc) {
    pc.Claimed? || pc.Working? || pc.Reporting? || pc.Closing?
  }

  /** The entries about one host, in order. */
  function Trail(audit: seq<Entry>, host: string): seq<Entry> {
    if audit == [] then []
    else
      var e := audit[|audit| - 1];
      Trail(audit[..|audit| - 1], host) + (if e.host == host then [e] else [])
  }

  /** Entry `b` is the outcome of what entry `a` requested. */
  predicate Answers(a: Entry, b: Entry) {
    a.outcome.Requested? && !b.outcome.Requested? && a.actor == b.actor && a.verb == b.verb && a.host == b.host
  }

  /** Requests and outcomes alternate, each outcome answering the request just before it; `open` if
      the last request has none yet. */
  ghost predicate Alternates(t: seq<Entry>, open: bool) {
    && |t| % 2 == (if open then 1 else 0)
    && (forall i :: 0 <= i < |t| && i % 2 == 0 ==> t[i].outcome.Requested?)
    && (forall i :: 0 <= i < |t| && i % 2 == 1 ==> Answers(t[i - 1], t[i]))
  }

  /** `running` names, for each of its hosts, the verb of one active call on it. */
  ghost predicate RunningIsOwned(s: System) {
    && s.desk.running.Keys == s.owner.Keys
    && forall h :: h in s.owner ==>
         && s.owner[h] in s.calls && Active(s.calls[s.owner[h]].pc)
         && s.calls[s.owner[h]].host == h && s.desk.running[h] == s.calls[s.owner[h]].verb
  }

  /** Every active call is the registered one for its host. */
  ghost predicate OneActive(s: System) {
    forall id :: id in s.calls && Active(s.calls[id].pc) ==>
      s.calls[id].host in s.owner && s.owner[s.calls[id].host] == id
  }

  /** The audit trail of a host is complete, but for the call that is at work on it. */
  ghost predicate TrailOk(s: System, h: string)
    requires RunningIsOwned(s)
  {
    var t := Trail(s.desk.audit, h);
    if h !in s.owner then Alternates(t, false)
    else
      var c := s.calls[s.owner[h]];
      if c.pc.Working? || c.pc.Reporting?
      then Alternates(t, true) && t[|t| - 1] == EntryOf(c, Requested)
      else Alternates(t, false)
  }

  ghost predicate OutcomesAreOutcomes(s: System) {
    forall id :: id in s.calls && s.calls[id].pc.Reporting? ==> !s.calls[id].pc.outcome.Requested?
  }

  ghost predicate Inv(s: System) {
    RunningIsOwned(s) && OneActive(s) && OutcomesAreOutcomes(s) && forall h :: TrailOk(s, h)
  }

  lemma InitHolds()
    ensures Inv(INIT)
  {
  }

  lemma TrailExtend(audit: seq<Entry>, e: Entry, h: string)
    ensures Trail(audit + [e], h) == if e.host == h then Trail(audit, h) + [e] else Trail(audit, h)
  {
    assert (audit + [e])[..|audit|] == audit;
  }

  lemma StepKeepsRunning(hosts: set<string>, s: System, step: Step, s': System)
    requires RunningIsOwned(s) && OneActive(s) && Next(hosts, s, step, s')
    ensures RunningIsOwned(s')
  {
    hide Trail;
  }

  lemma StepKeepsOneActive(hosts: set<string>, s: System, step: Step, s': System)
    requires RunningIsOwned(s) && OneActive(s) && Next(hosts, s, step, s')
    ensures OneActive(s')
  {
    hide Trail;
  }

  lemma StepKeepsOutcomes(hosts: set<string>, s: System, step: Step, s': System)
    requires OutcomesAreOutcomes(s) && Next(hosts, s, step, s')
    ensures OutcomesAreOutcomes(s')
  {
    hide Trail, ClaimStep;
  }

  lemma AlternatesExtend(t: seq<Entry>, e: Entry)
    ensures Alternates(t, false) && e.outcome.Requested? ==> Alternates(t + [e], true)
    ensures Alternates(t, true) && Answers(t[|t| - 1], e) ==> Alternates(t + [e], false)
  {
    hide Answers;
  }

  lemma StepKeepsTrail(hosts: set<string>, s: System, step: Step, s': System, h: string)
    requires Inv(s) && Next(hosts, s, step, s') && RunningIsOwned(s')
    ensures TrailOk(s', h)
  {
    hide Trail, Alternates;
    assert TrailOk(s, h);
    OpenIsNotEmpty(Trail(s.desk.audit, h));
    match step
    case Announce(id) =>
      var e := EntryOf(s.calls[id], Requested);
      TrailExtend(s.desk.audit, e, h);
      AlternatesExtend(Trail(s.desk.audit, h), e);
    case Report(id) =>
      var e := EntryOf(s.calls[id], s.calls[id].pc.outcome);
      TrailExtend(s.desk.audit, e, h);
      AlternatesExtend(Trail(s.desk.audit, h), e);
    case _ =>
  }

  lemma OpenIsNotEmpty(t: seq<Entry>)
    ensures Alternates(t, true) ==> t != []
  {
  }

  lemma StepKeepsInv(hosts: set<string>, s: System, step: Step, s': System)
    requires Inv(s) && Next(hosts, s, step, s')
    ensures Inv(s')
  {
    hide Next, TrailOk;
    StepKeepsRunning(hosts, s, step, s');
    StepKeepsOneActive(hosts, s, step, s');
    StepKeepsOutcomes(hosts, s, step, s');
    forall h ensures TrailOk(s', h) {
      StepKeepsTrail(hosts, s, step, s', h);
    }
  }

  ghost predicate Steps(hosts: set<string>, s: System, s': System) {
    exists step :: Next(hosts, s, step, s')
  }

  ghost predicate Run(hosts: set<string>, trace: seq<System>) {
    && trace != [] && trace[0] == INIT
    && forall i :: 0 < i < |trace| ==> Steps(hosts, trace[i - 1], trace[i])
  }

  lemma {:induction false} ReachableStatesAreSound(hosts: set<string>, trace: seq<System>, i: nat)
    requires Run(hosts, trace) && i < |trace|
    ensures Inv(trace[i])
  {
    hide Next, Inv;
    if i == 0 {
      InitHolds();
    } else {
      ReachableStatesAreSound(hosts, trace, i - 1);
      assert Steps(hosts, trace[i - 1], trace[i]);
      var step :| Next(hosts, trace[i - 1], step, trace[i]);
      StepKeepsInv(hosts, trace[i - 1], step, trace[i]);
    }
  }

  /** In every interleaving a host has at most one operation under way, and `running` names its verb. */
  lemma OneOperationPerHost(hosts: set<string>, trace: seq<System>, i: nat, a: nat, b: nat)
    requires Run(hosts, trace) && i < |trace|
    requires a in trace[i].calls && b in trace[i].calls
    requires Active(trace[i].calls[a].pc) && Active(trace[i].calls[b].pc)
    ensures trace[i].calls[a].host == trace[i].calls[b].host ==> a == b
    ensures trace[i].calls[a].host in trace[i].desk.running
    ensures trace[i].desk.running[trace[i].calls[a].host] == trace[i].calls[a].verb
  {
    hide Run, TrailOk;
    ReachableStatesAreSound(hosts, trace, i);
  }

  /** The one call that is at work on a host. */
  ghost predicate IsAtWork(s: System, id: nat, host: string) {
    && id in s.calls && Active(s.calls[id].pc) && s.calls[id].host == host
    && forall other :: other in s.calls && Active(s.calls[other].pc) && s.calls[other].host == host ==> other == id
  }

  /** In every reachable state Busy reports a verb exactly when one call, and only one, is at work on the host, and then
      that call's verb; it reports none exactly when no call is. */
  lemma BusyReportsTheOneAtWork(hosts: set<string>, trace: seq<System>, i: nat, host: string)
    requires Run(hosts, trace) && i < |trace|
    ensures var s := trace[i];
            && (InProgress(s.desk, host).Some? <==> exists id :: IsAtWork(s, id, host))
            && (InProgress(s.desk, host).None? <==>
                  forall id :: id in s.calls && Active(s.calls[id].pc) ==> s.calls[id].host != host)
            && forall id :: IsAtWork(s, id, host) ==> InProgress(s.desk, host) == Some(s.calls[id].verb)
  {
    hide Run, TrailOk;
    ReachableStatesAreSound(hosts, trace, i);
    var s := trace[i];
    if host in s.owner {
      assert IsAtWork(s, s.owner[host], host);
    }
  }

  function Count(t: seq<Entry>, requests: bool): nat {
    if t == [] then 0
    else Count(t[..|t| - 1], requests) + (if t[|t| - 1].outcome.Requested? == requests then 1 else 0)
  }

  lemma {:induction false} AlternationBalances(t: seq<Entry>, open: bool)
    requires Alternates(t, open)
    ensures Count(t, true) == Count(t, false) + if open then 1 else 0
  {
    if t != [] {
      AlternationBalances(t[..|t| - 1], !open);
    }
  }

  /** The audit trail of every host alternates between a request and its outcome by the same actor for the
      same verb; when the host is idle every request has its outcome. */
  lemma AuditTrailMatches(hosts: set<string>, trace: seq<System>, i: nat, h: string)
    requires Run(hosts, trace) && i < |trace|
    ensures var s := trace[i]; var t := Trail(s.desk.audit, h);
            && (forall k :: 0 <= k < |t| && k % 2 == 0 ==> t[k].outcome.Requested?)
            && (forall k :: 0 <= k < |t| && k % 2 == 1 ==> Answers(t[k - 1], t[k]))
            && (h !in s.desk.running ==> |t| % 2 == 0 && Count(t, true) == Count(t, false))
  {
    hide Run, Trail, Count, Answers;
    ReachableStatesAreSound(hosts, trace, i);
    var s := trace[i];
    assert TrailOk(s, h);
    if h !in s.owner {
      AlternationBalances(Trail(s.desk.audit, h), false);
    }
  }

  /** A request is refused as busy only while another call is at work on that very host. */
  lemma BusyMeansBusy(hosts: set<string>, trace: seq<System>, i: nat, id: nat, s': System)
    requires Run(hosts, trace) && i < |trace| && Next(hosts, trace[i], Claim(id), s')
    ensures id in s'.calls
    ensures s'.calls[id].pc.Refused? && s'.calls[id].pc.why.Busy? ==>
              exists other :: && other in trace[i].calls && other != id && Active(trace[i].calls[other].pc)
                              && trace[i].calls[other].host == s'.calls[id].host
                              && trace[i].calls[other].verb == s'.calls[id].pc.why.verb
  {
    hide Run, TrailOk;
    ReachableStatesAreSound(hosts, trace, i);
    var s := trace[i];
    if s'.calls[id].pc.Refused? && s'.calls[id].pc.why.Busy? {
      var other := s.owner[s.calls[id].host];
      assert other in s.calls && Active(s.calls[other].pc);
    }
  }

  /** A request is taken exactly if its host is known, its verb is one of the four, and no call is at work on the host;
      otherwise it is refused, for the first of these reasons that applies. */
  lemma ClaimedIff(hosts: set<string>, trace: seq<System>, i: nat, id: nat, s': System)
    requires Run(hosts, trace) && i < |trace| && Next(hosts, trace[i], Claim(id), s')
    ensures id in trace[i].calls && id in s'.calls
    ensures var c, pc := trace[i].calls[id], s'.calls[id].pc;
            var known, verb := c.host in hosts, c.verb in {"check", "backup", "unlock", "refresh"};
            var idle := forall other :: other in trace[i].calls && Active(trace[i].calls[other].pc) ==>
                          trace[i].calls[other].host != c.host;
            && (pc.Claimed? <==> known && verb && idle)
            && (pc == Refused(UnknownHost) <==> !known)
            && (pc == Refused(UnknownVerb) <==> known && !verb)
            && (!pc.Claimed? ==> s'.desk == trace[i].desk)
  {
    hide Run, TrailOk;
    ReachableStatesAreSound(hosts, trace, i);
    var s := trace[i];
    var host := s.calls[id].host;
    if host in s.owner {
      assert s.owner[host] in s.calls && Active(s.calls[s.owner[host]].pc) && s.calls[s.owner[host]].host == host;
    }
  }

  // ---- The outcome that is logged ----

  /** Between the end of an operation and its entry in the log the call keeps its outcome. */
  lemma {:induction false} OutcomeIsKept(hosts: set<string>, trace: seq<System>, a: nat, b: nat, id: nat)
    requires Run(hosts, trace) && a <= b < |trace| && id in trace[a].calls && trace[a].calls[id].pc.Reporting?
    ensures id in trace[b].calls
    ensures trace[b].calls[id].pc.Reporting? ==> trace[b].calls[id] == trace[a].calls[id]
    ensures trace[b].calls[id].pc.Reporting? || trace[b].calls[id].pc.Closing? || trace[b].calls[id].pc.Over?
    decreases b
  {
    hide Next;
    if a < b {
      OutcomeIsKept(hosts, trace, a, b - 1, id);
      assert Steps(hosts, trace[b - 1], trace[b]);
      var step :| Next(hosts, trace[b - 1], step, trace[b]);
      CallAfterOutcome(hosts, trace[b - 1], step, trace[b], id);
    }
  }

  lemma CallAfterOutcome(hosts: set<string>, s: System, step: Step, s': System, id: nat)
    requires Next(hosts, s, step, s') && id in s.calls
    requires s.calls[id].pc.Reporting? || s.calls[id].pc.Closing? || s.calls[id].pc.Over?
    ensures id in s'.calls
    ensures s'.calls[id].pc.Reporting? ==> s'.calls[id] == s.calls[id]
    ensures s'.calls[id].pc.Reporting? || s'.calls[id].pc.Closing? || s'.calls[id].pc.Over?
  {
    hide ClaimStep;
  }

  /** What the worker logs is what its operation came to, in the name of who asked for it. */
  lemma OutcomeIsLogged(hosts: set<string>, trace: seq<System>, a: nat, b: nat, id: nat, outcome: Outcome, s': System)
    requires Run(hosts, trace) && a < b < |trace|
    requires Next(hosts, trace[a], Finish(id, outcome), trace[a + 1]) && Next(hosts, trace[b], Report(id), s')
    ensures id in trace[a].calls
    ensures var c := trace[a].calls[id];
            s'.desk.audit == trace[b].desk.audit + [Entry(c.actor, c.verb, c.host, outcome)]
  {
    hide Run;
    OutcomeIsKept(hosts, trace, a + 1, b, id);
  }
}
