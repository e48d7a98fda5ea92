/** Health of the fleet (collector/sante.go; Fleet and RecordHealthSnapshot of collector/collector.go). */
module Sante {
  import opened Wrappers
  import opened Config
  import opened History

  /** The last collection of a host; no snapshot when the repository has none. */
  datatype Check = Check(host: string, reachable: bool, snapshotAt: Option<int>)

  datatype View = View(name: string, state: string)

  // ---- The fleet view ----

  /** The last check listed for a host. */
  function CheckOf(checks: seq<Check>, host: string): Option<Check> {
    if checks == [] then None
    else
      var last := checks[|checks| - 1];
      if last.host == host then Some(last) else CheckOf(checks[..|checks| - 1], host)
  }

  /** Fresh: reachable, and its last snapshot is no older than what the host promises. */
  predicate IsFresh(h: HostConfig, check: Option<Check>, now: int) {
    check.Some? && check.value.reachable && check.value.snapshotAt.Some?
    && now - check.value.snapshotAt.value <= h.within
  }

  predicate Unseen(check: Option<Check>) {
    check.None? || !check.value.reachable
  }

  /** One view per configured host, disabled or not: ok if fresh, unknown if unseen, and otherwise late or empty. */
  ghost predicate AreViews(views: seq<View>, hosts: seq<HostConfig>, checks: seq<Check>, now: int) {
    && |views| == |hosts|
    && forall k :: 0 <= k < |hosts| ==> IsView(views[k], hosts[k], CheckOf(checks, hosts[k].name), now)
  }

  ghost predicate IsView(v: View, h: HostConfig, check: Option<Check>, now: int) {
    && v.name == h.name && v.state in {"ok", "overdue", "unknown", "nobackup"}
    && (v.state == "ok" <==> IsFresh(h, check, now))
    && (v.state == "unknown" <==> Unseen(check))
    && (v.state == "nobackup" <==> !Unseen(check) && check.value.snapshotAt.None?)
  }

  method Fleet(hosts: seq<HostConfig>, checks: seq<Check>, now: int) returns (views: seq<View>)
    ensures AreViews(views, hosts, checks, now)
  {
    var byHost: map<string, Check> := map[];
    for k := 0 to |checks|
      invariant forall h :: CheckOf(checks[..k], h) == if h in byHost then Some(byHost[h]) else None
    {
      assert checks[..k + 1][..k] == checks[..k];
      byHost := byHost[checks[k].host := checks[k]];
    }
    assert checks[..|checks|] == checks;
    views := [];
    for k := 0 to |hosts|
      invariant AreViews(views, hosts[..k], checks, now)
    {
      var h := hosts[k];
      var state := "";
      assert CheckOf(checks, h.name) == if h.name in byHost then Some(byHost[h.name]) else None;
      if h.name !in byHost {
        state := "unknown";
      } else if !byHost[h.name].reachable {
        state := "unknown";
      } else if byHost[h.name].snapshotAt.None? {
        state := "nobackup";
      } else if now - byHost[h.name].snapshotAt.value > h.within {
        state := "overdue";
      } else {
        state := "ok";
      }
      views := views + [View(h.name, state)];
    }
  }

  // ---- The alerts of a host ----

  datatype Alert = Alert(level: string, subject: string)

  /** The alert that the state of the backups alone calls for. */
  function ViewAlerts(state: string): seq<Alert> {
    if state == "overdue" then [Alert("crit", "Sauvegarde en retard")]
    else if state == "nobackup" then [Alert("crit", "Aucune sauvegarde")]
    else if state == "unknown" then [Alert("crit", "H\U{00F4}te injoignable")]
    else []
  }

  function Crits(alerts: seq<Alert>): (n: nat)
    ensures n <= |alerts|
  {
    if alerts == [] then 0
    else Crits(alerts[..|alerts| - 1]) + if alerts[|alerts| - 1].level == "crit" then 1 else 0
  }

  lemma {:induction false} CritsCount(alerts: seq<Alert>)
    ensures Crits(alerts) > 0 <==> exists i :: 0 <= i < |alerts| && alerts[i].level == "crit"
  {
    if alerts != [] {
      var before := alerts[..|alerts| - 1];
      CritsCount(before);
      assert forall i :: 0 <= i < |before| ==> before[i] == alerts[i];
    }
  }

  function Join(subjects: seq<string>): string {
    if subjects == [] then ""
    else if |subjects| == 1 then subjects[0]
    else subjects[0] + " \U{00B7} " + Join(subjects[1..])
  }

  function Subjects(alerts: seq<Alert>): seq<string> {
    seq(|alerts|, i requires 0 <= i < |alerts| => alerts[i].subject)
  }

  function SummaryOf(alerts: seq<Alert>): string {
    Join(Subjects(if |alerts| > 3 then alerts[..3] else alerts))
  }

  class Sante {
    const view: View
    var alerts: seq<Alert>
    var crit: nat
    var warn: nat

    constructor (view: View)
      ensures this.view == view && alerts == [] && crit == 0 && warn == 0
    {
      this.view := view;
      alerts, crit, warn := [], 0, 0;
    }

    /** `found` are the alerts of the host's own report and of the site probe, in order. */
    method Evaluate(found: seq<Alert>)
      modifies this`alerts
      ensures alerts == old(alerts) + ViewAlerts(view.state) + found
    {
      if view.state == "overdue" {
        alerts := alerts + [Alert("crit", "Sauvegarde en retard")];
      } else if view.state == "nobackup" {
        alerts := alerts + [Alert("crit", "Aucune sauvegarde")];
      } else if view.state == "unknown" {
        alerts := alerts + [Alert("crit", "H\U{00F4}te injoignable")];
      }
      for k := 0 to |found|
        invariant alerts == old(alerts) + ViewAlerts(view.state) + found[..k]
      {
        alerts := alerts + [found[k]];
      }
    }

    /** The counting loop of SanteFleet. */
    method Tally()
      requires crit == 0 && warn == 0
      modifies this`crit, this`warn
      ensures crit == Crits(alerts) && crit + warn == |alerts|
    {
      for k := 0 to |alerts|
        invariant crit == Crits(alerts[..k]) && crit + warn == k
      {
        assert alerts[..k + 1][..k] == alerts[..k];
        if alerts[k].level == "crit" {
          crit := crit + 1;
        } else {
          warn := warn + 1;
        }
      }
      assert alerts[..|alerts|] == alerts;
    }

    function State(): (s: string)
      reads this
    {
      if crit > 0 then "crit" else if warn > 0 then "warn" else "ok"
    }

    method Summary() returns (s: string)
      ensures s == SummaryOf(alerts)
    {
      if |alerts| == 0 {
        return "";
      }
      var parts: seq<string> := [];
      for k := 0 to |alerts|
        invariant parts == Subjects(alerts[..k])
      {
        parts := parts + [alerts[k].subject];
      }
      assert alerts[..|alerts|] == alerts;
      if |parts| > 3 {
        parts := parts[..3];
        assert parts == Subjects(alerts[..3]);
      }
      s := Join(parts);
    }

    ghost predicate Is(view: View, found: seq<Alert>)
      reads this
    {
      && this.view == view && alerts == ViewAlerts(view.state) + found
      && crit == Crits(alerts) && crit + warn == |alerts|
    }
  }

  /** The state that colours the fleet page. */
  function Combined(view: View, s: Sante, known: bool): string
    reads s
  {
    if view.state in {"overdue", "nobackup", "unknown"} then "crit"
    else if !known then "ok"
    else if s.crit > 0 then "crit"
    else if s.warn > 0 then "warn"
    else "ok"
  }

  /** The fleet page and the history agree on every host, and both are critical when the backups are. */
  lemma CombinedIsState(s: Sante, found: seq<Alert>)
    requires s.Is(s.view, found)
    ensures Combined(s.view, s, true) == s.State()
    ensures s.view.state in {"overdue", "nobackup", "unknown"} ==> s.State() == "crit"
    ensures s.State() == "crit" <==>
              s.view.state in {"overdue", "nobackup", "unknown"} || exists a :: a in found && a.level == "crit"
    ensures s.State() == "ok" <==> ViewAlerts(s.view.state) + found == []
  {
    var alerts := ViewAlerts(s.view.state) + found;
    CritsCount(alerts);
    if s.view.state in {"overdue", "nobackup", "unknown"} {
      assert alerts[0].level == "crit";
    } else {
      assert alerts == found;
    }
  }

  /** For a host without a health record the fleet page looks at the backups only: it misses what the alerts say. */
  lemma UnknownHealthHides(s: Sante, found: seq<Alert>)
    requires s.Is(s.view, found) && s.view.state in {"ok", "overdue", "unknown", "nobackup"}
    ensures Combined(s.view, s, false) != s.State() <==> s.view.state == "ok" && found != []
  {
    CombinedIsState(s, found);
  }

  /** The alerts found in each host's own report and probe. */
  type Findings = string -> seq<Alert>

  /** Display order is not modelled. */
  method SanteFleet(views: seq<View>, findings: Findings) returns (out: seq<Sante>)
    ensures |out| == |views|
    ensures forall k :: 0 <= k < |views| ==> fresh(out[k]) && out[k].Is(views[k], findings(views[k].name))
  {
    out := [];
    for k := 0 to |views|
      invariant |out| == k
      invariant forall j :: 0 <= j < k ==> fresh(out[j]) && out[j].Is(views[j], findings(views[j].name))
    {
      var s := new Sante(views[k]);
      s.Evaluate(findings(views[k].name));
      s.Tally();
      out := out + [s];
    }
  }

  // ---- The row of the history ----

  function StateOf(alerts: seq<Alert>): string {
    if Crits(alerts) > 0 then "crit" else if |alerts| > 0 then "warn" else "ok"
  }

  function RecordOf(view: View, found: seq<Alert>): Record {
    var alerts := ViewAlerts(view.state) + found;
    Record(StateOf(alerts), Crits(alerts), |alerts| - Crits(alerts), SummaryOf(alerts))
  }

  /** The table after the first hosts have been recorded. */
  function Recorded(rows: Table, views: seq<View>, findings: Findings, at: int): Table {
    if views == [] then rows
    else
      var v := views[|views| - 1];
      RecordStep(Recorded(rows, views[..|views| - 1], findings, at), v.name, at, RecordOf(v, findings(v.name)))
  }

  lemma NobodyRecorded(rows: Table, findings: Findings, at: int)
    ensures Recorded(rows, [], findings, at) == rows
  {
  }

  lemma OneMoreRecorded(rows: Table, views: seq<View>, k: nat, findings: Findings, at: int)
    requires k < |views|
    ensures var v := views[k];
            Recorded(rows, views[..k + 1], findings, at) ==
            RecordStep(Recorded(rows, views[..k], findings, at), v.name, at, RecordOf(v, findings(v.name)))
  {
    assert views[..k + 1][..k] == views[..k];
  }

  lemma ItsRecord(s: Sante, found: seq<Alert>)
    requires s.Is(s.view, found)
    ensures Record(s.State(), s.crit, s.warn, SummaryOf(s.alerts)) == RecordOf(s.view, found)
  {
  }

  /** Fleet reads the clock (`seen`) before the rows are dated (`now`). */
  method RecordHealthSnapshot(store: HealthStore, hosts: seq<HostConfig>, checks: seq<Check>, findings: Findings,
                              seen: int, now: int)
    returns (ghost views: seq<View>)
    modifies store
    ensures AreViews(views, hosts, checks, seen)
    ensures store.rows == Recorded(old(store.rows), views, findings, now)
  {
    hide AreViews, RecordOf, Recorded;
    var fleet := Fleet(hosts, checks, seen);
    views := fleet;
    var sante := SanteFleet(fleet, findings);
    NobodyRecorded(store.rows, findings, now);
    for k := 0 to |sante|
      invariant forall j :: 0 <= j < |sante| ==> sante[j].Is(views[j], findings(views[j].name))
      invariant store.rows == Recorded(old(store.rows), views[..k], findings, now)
    {
      var s := sante[k];
      var summary := s.Summary();
      OneMoreRecorded(old(store.rows), views, k, findings, now);
      ItsRecord(s, findings(views[k].name));
      store.RecordHealth(s.view.name, now, Record(s.State(), s.crit, s.warn, summary));
    }
    assert views[..|views|] == views;
  }

  ghost predicate DistinctNames(views: seq<View>) {
    forall i, j :: 0 <= i < j < |views| ==> views[i].name != views[j].name
  }

  /** One pass writes one row per host, that host's, and leaves the other rows alone. */
  lemma {:induction false} OneRowPerHost(rows: Table, views: seq<View>, findings: Findings, at: int)
    requires DistinctNames(views)
    ensures var after := Recorded(rows, views, findings, at);
            && (forall k :: 0 <= k < |views| ==>
                  (views[k].name, at) in after
                  && after[(views[k].name, at)] == RecordOf(views[k], findings(views[k].name)))
            && (forall key: (string, int) ::
                  (key.1 != at || forall k :: 0 <= k < |views| ==> views[k].name != key.0) ==>
                  (key in after <==> key in rows) && (key in rows ==> after[key] == rows[key]))
  {
    hide RecordOf;
    if views != [] {
      var before := views[..|views| - 1];
      OneRowPerHost(rows, before, findings, at);
      assert forall k :: 0 <= k < |before| ==> before[k] == views[k];
    }
  }

  // ---- Checks, counts and summaries, told without the recursion ----

  /** A host's check is the last one listed for it. */
  lemma {:induction false} CheckOfIsLast(checks: seq<Check>, host: string)
    ensures match CheckOf(checks, host)
            case None => forall i :: 0 <= i < |checks| ==> checks[i].host != host
            case Some(check) =>
              exists i :: && 0 <= i < |checks| && checks[i] == check && check.host == host
                          && forall j :: i < j < |checks| ==> checks[j].host != host
  {
    if checks != [] {
      var n := |checks| - 1;
      CheckOfIsLast(checks[..n], host);
      assert forall i :: 0 <= i < n ==> checks[..n][i] == checks[i];
      if checks[n].host != host && CheckOf(checks[..n], host).Some? {
        var i :| 0 <= i < n && checks[i] == CheckOf(checks[..n], host).value
                 && forall j :: i < j < n ==> checks[j].host != host;
        assert forall j :: i < j < |checks| ==> checks[j].host != host;
      }
    }
  }

  ghost function CritIndices(alerts: seq<Alert>, n: nat): set<nat>
    requires n <= |alerts|
  {
    set i: nat | i < n && alerts[i].level == "crit"
  }

  /** The critical alerts are counted one by one. */
  lemma {:induction false} CritsUpTo(alerts: seq<Alert>, n: nat)
    requires n <= |alerts|
    ensures Crits(alerts[..n]) == |CritIndices(alerts, n)|
  {
    if n == 0 {
      assert CritIndices(alerts, n) == {};
    } else {
      CritsUpTo(alerts, n - 1);
      assert alerts[..n][..n - 1] == alerts[..n - 1];
      var before := CritIndices(alerts, n - 1);
      assert CritIndices(alerts, n) == if alerts[n - 1].level == "crit" then before + {n - 1} else before;
    }
  }

  /** The summary is made of the first three subjects. */
  lemma SummaryTells(alerts: seq<Alert>)
    ensures SummaryOf(alerts) ==
            if |alerts| == 0 then ""
            else if |alerts| == 1 then alerts[0].subject
            else if |alerts| == 2 then alerts[0].subject + " \U{00B7} " + alerts[1].subject
            else alerts[0].subject + " \U{00B7} " + (alerts[1].subject + " \U{00B7} " + alerts[2].subject)
  {
    var subjects := Subjects(if |alerts| > 3 then alerts[..3] else alerts);
    if |alerts| == 2 {
      assert subjects == [alerts[0].subject, alerts[1].subject];
      JoinTwo(alerts[0].subject, alerts[1].subject);
    } else if |alerts| > 2 {
      assert subjects == [alerts[0].subject] + [alerts[1].subject, alerts[2].subject];
      assert subjects[1..] == [alerts[1].subject, alerts[2].subject];
      JoinTwo(alerts[1].subject, alerts[2].subject);
    }
  }

  lemma JoinTwo(a: string, b: string)
    ensures Join([a, b]) == a + " \U{00B7} " + b
  {
    assert [a, b][1..] == [b];
    assert Join([b]) == b;
  }

  /** The state of a view: a host never reached is unknown, one without snapshot has no backup, and otherwise the age of
      its last snapshot decides. */
  lemma ViewTells(v: View, h: HostConfig, check: Option<Check>, now: int)
    requires IsView(v, h, check, now)
    ensures v.name == h.name
    ensures v.state == match check
                       case None => "unknown"
                       case Some(Check(_, reachable, snapshotAt)) =>
                         if !reachable then "unknown"
                         else if snapshotAt.None? then "nobackup"
                         else if now > snapshotAt.value + h.within then "overdue" else "ok"
  {
  }
}
