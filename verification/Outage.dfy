/** No missed outage: from the fleet view to the history page, through the table and its purges. */
module Outage {
  import opened Config
  import opened History
  import opened Frieze
  import opened Episodes
  import opened Bars
  import opened HistoryPage
  import opened Display
  import opened PageLaws
  import opened Sante

  /** The table after more writes and purges. */
  function Resume(rows: Table, ops: seq<Op>, keep: int): Table {
    if ops == [] then rows
    else
      var before := Resume(rows, ops[..|ops| - 1], keep);
      match ops[|ops| - 1]
      case Write(host, at, r) => RecordStep(before, host, at, r)
      case Purge(at) => PurgeStep(before, at, keep)
  }

  ghost predicate NotRewritten(ops: seq<Op>, host: string, at: int) {
    forall i :: 0 <= i < |ops| ==> !(ops[i].Write? && ops[i].host == host && ops[i].at == at)
  }

  /** A row younger than the horizon stays until it is written again. */
  lemma {:induction false} RowSurvives(rows: Table, ops: seq<Op>, keep: int, now: int, host: string, at: int)
    requires (host, at) in rows && Before(ops, now) && NotRewritten(ops, host, at) && at >= now - keep
    ensures (host, at) in Resume(rows, ops, keep) && Resume(rows, ops, keep)[(host, at)] == rows[(host, at)]
  {
    if ops != [] {
      RowSurvives(rows, ops[..|ops| - 1], keep, now, host, at);
      assert ops[|ops| - 1].at <= now;
    }
  }

  /** An episode around the row (host, at), critical if the row is and no milder if all states are known. */
  ghost predicate Covers(e: Episode, host: string, at: int, state: string, pts: seq<Point>) {
    && e.host == host && Spans(e, at) && (state == "crit" ==> e.state == "crit")
    && (KnownStates(pts) ==> e.state == "crit" || e.state == state)
  }

  /** A row in the window of a page: its cell and its hourly slot are at least as bad as it is, and if it is out of the
      normal it lies inside an episode as severe. */
  lemma RowShows(rows: Table, host: string, at: int, w: Window, now: int) returns (i: nat, s: nat)
    requires w in WINDOWS && WindowStart(w, now) <= at <= now
    requires (host, at) in rows
    ensures var start, pts := WindowStart(w, now), Series(rows, host, WindowStart(w, now));
            && i < Buckets(w) && start + i * w.bucket <= at < start + i * w.bucket + w.bucket
            && Rank(rows[(host, at)].state) <= Rank(CellAt(pts, start, w.bucket, i).state)
    ensures s < TOTAL && HourAt(now, s) <= at < HourAt(now, s) + HOUR
    ensures Rank(rows[(host, at)].state) <= Rank(SlotAt(Series(rows, host, BarsStart(now)), BarsStart(now), s))
    ensures !Sane(PointAt(rows, host, at)) ==>
              var pts := Series(rows, host, WindowStart(w, now));
              forall out: seq<Episode> :: AreEpisodesOf(out, host, pts, now) ==>
                exists e: Episode :: e in out && Covers(e, host, at, rows[(host, at)].state, pts)
  {
    hide Series, SlotAt, CellAt, WindowStart, BarsStart, AreEpisodesOf, Covers;
    WindowBounds(w, now);
    var p := PointAt(rows, host, at);
    var pts := Series(rows, host, WindowStart(w, now));
    SeriesHoldsRows(rows, host, WindowStart(w, now), p);
    SeriesHoldsRows(rows, host, BarsStart(now), p);
    i := CellShows(pts, p, w, now);
    SeriesStarts(rows, host, WindowStart(w, now));
    SeriesStarts(rows, host, BarsStart(now));
    CellIsWorst(pts, WindowStart(w, now), w.bucket, i);
    s := SlotOf(at, now);
    SlotIsWorst(Series(rows, host, BarsStart(now)), BarsStart(now), s);
    if !Sane(p) {
      forall out: seq<Episode> | AreEpisodesOf(out, host, pts, now)
        ensures exists e: Episode :: e in out && Covers(e, host, at, p.state, pts)
      {
        EpisodeShows(rows, host, WindowStart(w, now), p, out, now);
      }
    }
  }

  lemma CellShows(pts: seq<Point>, p: Point, w: Window, now: int) returns (i: nat)
    requires w in WINDOWS && WindowStart(w, now) <= p.at <= now
    ensures var start := WindowStart(w, now);
            i < Buckets(w) && start + i * w.bucket <= p.at < start + i * w.bucket + w.bucket
    ensures CellAt(pts, WindowStart(w, now), w.bucket, i).from == WindowStart(w, now) + i * w.bucket
  {
    WindowBounds(w, now);
    var start := WindowStart(w, now);
    i := (p.at - start) / w.bucket;
    DivIs(p.at - start, w.bucket, i);
    CancelFactor(i + 1, Buckets(w), w.bucket);
  }

  lemma EpisodeShows(rows: Table, host: string, since: int, p: Point, out: seq<Episode>, now: int)
    requires p in Series(rows, host, since) && !Sane(p)
    ensures AreEpisodesOf(out, host, Series(rows, host, since), now) ==>
              exists e: Episode :: e in out && Covers(e, host, p.at, p.state, Series(rows, host, since))
  {
    hide AreTheRuns, AreEpisodes, Spans;
    var pts := Series(rows, host, since);
    if AreEpisodesOf(out, host, pts, now) {
      var runs :| AreTheRuns(pts, runs) && AreEpisodes(out, host, pts, runs, now);
      var k :| 0 <= k < |pts| && pts[k] == p;
      PointIsInEpisode(out, host, pts, runs, now, k);
      var e :| e in out && Surrounds(e, host, pts, k);
      assert Covers(e, host, p.at, p.state, pts);
    }
  }

  /** If the backups of a host were not fine when its row was written at `at`, then the fleet page coloured it critical,
      whether or not it had a health record, and the row is critical; and whatever was written and purged since (that
      second excepted), every page whose window still holds `at` shows a critical cell and a critical hour there, and
      an episode of critical level around it. */
  lemma NoMissedOutage(rows: Table, hosts: seq<HostConfig>, checks: seq<Check>, views: seq<View>, findings: Findings,
                       seen: int, at: int, ops: seq<Op>, now: int, w: Window, k: nat, record: Sante, known: bool)
    returns (i: nat, s: nat)
    requires AreViews(views, hosts, checks, seen) && DistinctNames(views) && k < |hosts|
    requires !IsFresh(hosts[k], CheckOf(checks, hosts[k].name), seen)
    requires Before(ops, now) && NotRewritten(ops, hosts[k].name, at)
    requires w in WINDOWS && WindowStart(w, now) <= at <= now
    ensures Combined(views[k], record, known) == RecordOf(views[k], findings(views[k].name)).state == "crit"
    ensures var host := hosts[k].name;
            var after := Resume(Recorded(rows, views, findings, at), ops, KEEP);
            var start := WindowStart(w, now);
            && (host, at) in after && after[(host, at)] == RecordOf(views[k], findings(host))
            && i < Buckets(w) && start + i * w.bucket <= at < start + i * w.bucket + w.bucket
            && CellAt(Series(after, host, start), start, w.bucket, i).state == "crit"
            && s < TOTAL && HourAt(now, s) <= at < HourAt(now, s) + HOUR
            && SlotAt(Series(after, host, BarsStart(now)), BarsStart(now), s) == "crit"
            && forall out: seq<Episode> :: AreEpisodesOf(out, host, Series(after, host, start), now) ==>
                 exists e: Episode :: e in out && e.host == host && Spans(e, at) && e.state == "crit"
  {
    hide Series, SlotAt, CellAt, BarsStart, AreEpisodesOf, Spans, Recorded, Resume, RecordOf, WindowStart, HourAt;
    hide KnownStates;
    assert IsView(views[k], hosts[k], CheckOf(checks, hosts[k].name), seen);
    CritRecord(views[k], findings(views[k].name));
    OneRowPerHost(rows, views, findings, at);
    WindowBounds(w, now);
    var written := Recorded(rows, views, findings, at);
    RowSurvives(written, ops, KEEP, now, hosts[k].name, at);
    i, s := RowShows(Resume(written, ops, KEEP), hosts[k].name, at, w, now);
  }

  lemma CritRecord(view: View, found: seq<Alert>)
    requires view.state in {"overdue", "nobackup", "unknown"}
    ensures RecordOf(view, found).state == "crit"
  {
    var alerts := ViewAlerts(view.state) + found;
    CritsCount(alerts);
    assert alerts[0].level == "crit";
  }

  /** The row, the bar and an episode of the page itself, for an enabled host. */
  lemma PageShowsOutage(after: Table, hosts: seq<HostConfig>, w: Window, now: int, at: int, host: HostConfig,
                        rows: seq<Row>, episodes: seq<Episode>, bars: seq<Bar>, fl: real -> real)
    requires host in hosts && !host.disabled
    requires w in WINDOWS && WindowStart(w, now) <= at <= now
    requires (host.name, at) in after && after[(host.name, at)].state == "crit"
    ensures ShownRows(rows, Enabled(hosts), Reading(after), w, now) ==>
              exists r :: r in rows && r.name == host.name && r.crits > 0
    ensures ShownBars(bars, Enabled(hosts), Reading(after), now, fl) ==>
              exists b :: b in bars && b.host == host.name && b.durCrit > 0
    ensures ShownEpisodes(episodes, Enabled(hosts), Reading(after), w, now) ==>
              exists e :: e in episodes && e.host == host.name && Spans(e, at) && e.state == "crit"
  {
    hide Series, WindowStart, ShownRows, ShownBars, ShownEpisodes, Spans, Enabled;
    var names := Enabled(hosts);
    EnabledHas(hosts, host.name);
    var k :| 0 <= k < |names| && names[k] == host.name;
    if ShownRows(rows, names, Reading(after), w, now) {
      RowShown(after, names, w, now, at, k, rows);
    }
    BarShown(after, names, w, now, at, k, bars, fl);
    if ShownEpisodes(episodes, names, Reading(after), w, now) {
      EpisodeShown(after, names, w, now, at, k, episodes);
    }
  }

  lemma RowShown(after: Table, names: seq<string>, w: Window, now: int, at: int, k: nat, rows: seq<Row>)
    requires k < |names| && w in WINDOWS && WindowStart(w, now) <= at <= now
    requires (names[k], at) in after && after[(names[k], at)].state == "crit"
    requires ShownRows(rows, names, Reading(after), w, now)
    ensures exists r :: r in rows && r.name == names[k] && r.crits > 0
  {
    hide Series, SlotAt, CellAt, WindowStart, BarsStart, AreEpisodesOf, Covers, Count, Ties;
    var plain: seq<Row> :| AreRows(plain, names, Reading(after), w, now) && IsStableSort(rows, plain, RowBefore);
    var i, s := RowShows(after, names[k], at, w, now);
    CountSees(plain[k].cells, i);
    assert plain[k] in multiset(plain) && plain[k] in rows;
  }

  lemma BarShown(after: Table, names: seq<string>, w: Window, now: int, at: int, k: nat, bars: seq<Bar>,
                 fl: real -> real)
    requires k < |names| && w in WINDOWS && WindowStart(w, now) <= at <= now
    requires (names[k], at) in after && after[(names[k], at)].state == "crit"
    ensures ShownBars(bars, names, Reading(after), now, fl) ==>
              exists b :: b in bars && b.host == names[k] && b.durCrit > 0
  {
    hide Series, SlotAt, CellAt, WindowStart, BarsStart, AreEpisodesOf, Covers, CountOf, ArePercentages, Percent, Ties;
    if ShownBars(bars, names, Reading(after), now, fl) {
      var plain: seq<Bar> :| AreBars(plain, names, Reading(after), now, fl) && IsStableSort(bars, plain, BarBefore);
      var i, s := RowShows(after, names[k], at, w, now);
      var slots :| AreSlots(slots, Series(after, names[k], BarsStart(now)), now) && IsBar(plain[k], slots, fl);
      CountOfSees(slots, s);
      assert plain[k] in multiset(plain) && plain[k] in bars;
    }
  }

  lemma EpisodeShown(after: Table, names: seq<string>, w: Window, now: int, at: int, k: nat, episodes: seq<Episode>)
    requires k < |names| && w in WINDOWS && WindowStart(w, now) <= at <= now
    requires (names[k], at) in after && after[(names[k], at)].state == "crit"
    requires ShownEpisodes(episodes, names, Reading(after), w, now)
    ensures exists e :: e in episodes && e.host == names[k] && Spans(e, at) && e.state == "crit"
  {
    hide Series, SlotAt, CellAt, WindowStart, BarsStart, AreEpisodesOf, Spans, KnownStates, Concat;
    var plain: seq<Episode> :|
      AreHostEpisodes(plain, names, Reading(after), w, now) && IsSort(episodes, plain, EpisodeBefore);
    var groups :| AreGroups(groups, names, Reading(after), w, now) && plain == Concat(groups);
    var i, s := RowShows(after, names[k], at, w, now);
    var e: Episode :| e in groups[k] && Covers(e, names[k], at, "crit", Series(after, names[k], WindowStart(w, now)));
    ConcatHas(groups, e);
    assert e in multiset(plain) && e in episodes;
  }

  lemma {:induction false} CountSees(cells: seq<Cell>, i: nat)
    requires i < |cells|
    ensures Count(cells, Rank(cells[i].state)) > 0
  {
    if i < |cells| - 1 {
      CountSees(cells[..|cells| - 1], i);
    }
  }

  lemma {:induction false} CountOfSees(slots: seq<string>, i: nat)
    requires i < |slots|
    ensures CountOf(slots, slots[i]) > 0
  {
    if i < |slots| - 1 {
      CountOfSees(slots[..|slots| - 1], i);
    }
  }
}
