/** The periods out of the normal (collector/timeline.go, episodes). */
module Episodes {
  import opened Wrappers
  import opened History

  datatype Episode = Episode(host: string, start: int, end: int, ongoing: bool, state: string, cause: string,
                             duration: int)

  predicate Sane(p: Point) {
    p.state == "ok" || p.state == "unknown"
  }

  // ---- The maximal runs, declaratively ----

  /** A half-open interval of indices. */
  type Run = (nat, nat)

  ghost predicate IsMaximalRun(pts: seq<Point>, r: Run) {
    && r.0 < r.1 <= |pts|
    && (forall k :: r.0 <= k < r.1 ==> !Sane(pts[k]))
    && (r.0 > 0 ==> Sane(pts[r.0 - 1]))
    && (r.1 < |pts| ==> Sane(pts[r.1]))
  }

  ghost predicate Covered(runs: seq<Run>, k: int) {
    exists a :: 0 <= a < |runs| && runs[a].0 <= k < runs[a].1
  }

  /** All the maximal runs, in order; two of them are separated by a sane point. */
  ghost predicate AreTheRuns(pts: seq<Point>, runs: seq<Run>) {
    && (forall a :: 0 <= a < |runs| ==> IsMaximalRun(pts, runs[a]))
    && (forall a, b :: 0 <= a < b < |runs| ==> runs[a].1 < runs[b].0)
    && (forall k :: 0 <= k < |pts| && !Sane(pts[k]) ==> Covered(runs, k))
  }

  /** The first critical point of an interval, its end if there is none. */
  function FirstCrit(pts: seq<Point>, i: nat, j: nat): (k: nat)
    requires i <= j <= |pts|
    ensures i <= k <= j
    decreases j - i
  {
    if i == j || pts[i].state == "crit" then i else FirstCrit(pts, i + 1, j)
  }

  lemma {:induction false} FirstCritIs(pts: seq<Point>, i: nat, j: nat)
    requires i <= j <= |pts|
    ensures var k := FirstCrit(pts, i, j);
            && (forall q :: i <= q < k ==> pts[q].state != "crit")
            && (k < j ==> pts[k].state == "crit")
    decreases j - i
  {
    if i < j && pts[i].state != "crit" {
      FirstCritIs(pts, i + 1, j);
    }
  }

  /** The first non-empty summary of an interval, "" if there is none. */
  function FirstText(pts: seq<Point>, i: nat, j: nat): string
    requires i <= j <= |pts|
    decreases j - i
  {
    if i == j then "" else if pts[i].summary != "" then pts[i].summary else FirstText(pts, i + 1, j)
  }

  lemma {:induction false} FirstTextIs(pts: seq<Point>, i: nat, j: nat) returns (k: nat)
    requires i <= j <= |pts|
    ensures i <= k <= j && forall q :: i <= q < k ==> pts[q].summary == ""
    ensures FirstText(pts, i, j) == if k < j then pts[k].summary else ""
    ensures k < j ==> pts[k].summary != ""
    decreases j - i
  {
    k := i;
    if i < j && pts[i].summary == "" {
      k := FirstTextIs(pts, i + 1, j);
    }
  }

  function Level(pts: seq<Point>, r: Run): string
    requires r.0 < r.1 <= |pts|
  {
    if FirstCrit(pts, r.0, r.1) < r.1 then "crit" else pts[r.0].state
  }

  /** From the first critical point on, or from the start if there is none. */
  function CauseOf(pts: seq<Point>, r: Run): string
    requires r.0 < r.1 <= |pts|
  {
    var k := FirstCrit(pts, r.0, r.1);
    FirstText(pts, if k < r.1 then k else r.0, r.1)
  }

  /** The episode of a run: it ends at the next sane point, or is still going on. */
  function EpisodeOf(host: string, pts: seq<Point>, r: Run, now: int): Episode
    requires r.0 < r.1 <= |pts|
  {
    var end := if r.1 < |pts| then pts[r.1].at else now;
    Episode(host, pts[r.0].at, end, r.1 == |pts|, Level(pts, r), CauseOf(pts, r), end - pts[r.0].at)
  }

  ghost predicate AreEpisodes(out: seq<Episode>, host: string, pts: seq<Point>, runs: seq<Run>, now: int) {
    && |out| == |runs|
    && forall a :: 0 <= a < |runs| ==> runs[a].0 < runs[a].1 <= |pts| && out[a] == EpisodeOf(host, pts, runs[a], now)
  }

  /** The episodes of a series, whatever the list of its runs is called. */
  ghost predicate AreEpisodesOf(out: seq<Episode>, host: string, pts: seq<Point>, now: int) {
    exists runs :: AreTheRuns(pts, runs) && AreEpisodes(out, host, pts, runs, now)
  }

  // ---- The loop ----

  lemma {:induction false} FirstCritGrows(pts: seq<Point>, i: nat, j: nat)
    requires i <= j < |pts|
    ensures FirstCrit(pts, i, j + 1) ==
            if FirstCrit(pts, i, j) < j then FirstCrit(pts, i, j) else if pts[j].state == "crit" then j else j + 1
    decreases j - i
  {
    if i < j && pts[i].state != "crit" {
      FirstCritGrows(pts, i + 1, j);
    }
  }

  lemma {:induction false} FirstTextGrows(pts: seq<Point>, i: nat, j: nat)
    requires i <= j < |pts|
    ensures FirstText(pts, i, j + 1) == if FirstText(pts, i, j) != "" then FirstText(pts, i, j) else pts[j].summary
    decreases j - i
  {
    if i < j && pts[i].summary == "" {
      FirstTextGrows(pts, i + 1, j);
    }
  }

  /** One more point out of the normal: an episode that worsens keeps its start but changes level. */
  lemma RunGrows(pts: seq<Point>, i: nat, j: nat)
    requires i < j < |pts|
    ensures var worsens := pts[j].state == "crit" && Level(pts, (i, j)) != "crit";
            var cause := if worsens then pts[j].summary else CauseOf(pts, (i, j));
            && Level(pts, (i, j + 1)) == (if worsens then "crit" else Level(pts, (i, j)))
            && CauseOf(pts, (i, j + 1)) == if cause == "" then pts[j].summary else cause
  {
    hide FirstCrit, FirstText;
    FirstCritGrows(pts, i, j);
    FirstCritIs(pts, i, j);
    var k := FirstCrit(pts, i, j);
    FirstTextGrows(pts, if k < j then k else i, j);
    FirstTextGrows(pts, j, j);
    assert FirstText(pts, j, j) == "" by { var e := FirstTextIs(pts, j, j); }
  }

  /** What the loop has seen: the closed runs, and the run still open. */
  ghost predicate SoFar(pts: seq<Point>, k: nat, runs: seq<Run>, open: Option<nat>)
    requires k <= |pts|
  {
    && (forall a :: 0 <= a < |runs| ==> IsMaximalRun(pts, runs[a]) && runs[a].1 < k)
    && (forall a, b :: 0 <= a < b < |runs| ==> runs[a].1 < runs[b].0)
    && (forall q :: 0 <= q < k && !Sane(pts[q]) ==>
          Covered(runs, q) || (open.Some? && open.value <= q))
    && match open
       case None => k > 0 ==> Sane(pts[k - 1])
       case Some(i) =>
         && i < k && (forall q :: i <= q < k ==> !Sane(pts[q])) && (i > 0 ==> Sane(pts[i - 1]))
         && forall a :: 0 <= a < |runs| ==> runs[a].1 < i
  }

  lemma CoveredByMore(runs: seq<Run>, r: Run, q: int)
    ensures Covered(runs, q) || r.0 <= q < r.1 ==> Covered(runs + [r], q)
  {
    var more := runs + [r];
    if r.0 <= q < r.1 {
      assert more[|runs|].0 <= q < more[|runs|].1;
    } else if Covered(runs, q) {
      var a :| 0 <= a < |runs| && runs[a].0 <= q < runs[a].1;
      assert more[a] == runs[a];
    }
  }

  lemma SaneStep(pts: seq<Point>, k: nat, runs: seq<Run>, open: Option<nat>)
    requires k < |pts| && SoFar(pts, k, runs, open) && Sane(pts[k])
    ensures SoFar(pts, k + 1, if open.Some? then runs + [(open.value, k)] else runs, None)
  {
    hide Covered;
    if open.Some? {
      var next := runs + [(open.value, k)];
      forall q | 0 <= q < k + 1 && !Sane(pts[q]) ensures Covered(next, q) {
        CoveredByMore(runs, (open.value, k), q);
      }
    }
  }

  lemma BadStep(pts: seq<Point>, k: nat, runs: seq<Run>, open: Option<nat>)
    requires k < |pts| && SoFar(pts, k, runs, open) && !Sane(pts[k])
    ensures SoFar(pts, k + 1, runs, if open.Some? then open else Some(k))
  {
    if open.None? {
      forall a | 0 <= a < |runs| ensures runs[a].1 < k {
        assert IsMaximalRun(pts, runs[a]) && runs[a].1 < k;
      }
    }
  }

  lemma AddEpisode(out: seq<Episode>, host: string, pts: seq<Point>, runs: seq<Run>, now: int, e: Episode, r: Run)
    requires AreEpisodes(out, host, pts, runs, now)
    requires r.0 < r.1 <= |pts| && e == EpisodeOf(host, pts, r, now)
    ensures AreEpisodes(out + [e], host, pts, runs + [r], now)
  {
    hide EpisodeOf;
  }

  lemma AllSeen(pts: seq<Point>, runs: seq<Run>, open: Option<nat>)
    requires SoFar(pts, |pts|, runs, open)
    ensures AreTheRuns(pts, if open.Some? then runs + [(open.value, |pts|)] else runs)
  {
    hide Covered;
    if open.Some? {
      var next := runs + [(open.value, |pts|)];
      forall q | 0 <= q < |pts| && !Sane(pts[q]) ensures Covered(next, q) {
        CoveredByMore(runs, (open.value, |pts|), q);
      }
    }
  }

  method Extract(host: string, pts: seq<Point>, now: int) returns (out: seq<Episode>)
    ensures AreEpisodesOf(out, host, pts, now)
  {
    hide Level, CauseOf, SoFar, AreTheRuns, AreEpisodes, IsMaximalRun;
    out := [];
    ghost var runs: seq<Run> := [];
    var cur: Option<Episode> := None;
    ghost var open: Option<nat> := None;
    NothingSeen(host, pts, now);
    for k := 0 to |pts|
      invariant SoFar(pts, k, runs, open)
      invariant AreEpisodes(out, host, pts, runs, now)
      invariant cur.Some? <==> open.Some?
      invariant open.Some? ==> open.value < k
      invariant open.Some? ==>
                  && cur.value.host == host && cur.value.start == pts[open.value].at && !cur.value.ongoing
                  && cur.value.state == Level(pts, (open.value, k)) && cur.value.cause == CauseOf(pts, (open.value, k))
    {
      var p := pts[k];
      if p.state == "ok" || p.state == "unknown" {
        SaneStep(pts, k, runs, open);
        if cur.Some? {
          var done := cur.value.(end := p.at, duration := p.at - cur.value.start);
          AddEpisode(out, host, pts, runs, now, done, (open.value, k));
          out := out + [done];
          runs := runs + [(open.value, k)];
          cur, open := None, None;
        }
        continue;
      }
      BadStep(pts, k, runs, open);
      if cur.None? {
        cur := Some(Episode(host, p.at, 0, false, p.state, p.summary, 0));
        open := Some(k);
        OnePointRun(pts, k);
        continue;
      }
      RunGrows(pts, open.value, k);
      if p.state == "crit" && cur.value.state != "crit" {
        cur := Some(cur.value.(state := "crit", cause := p.summary));
      }
      if cur.value.cause == "" {
        cur := Some(cur.value.(cause := p.summary));
      }
    }
    AllSeen(pts, runs, open);
    if cur.Some? {
      var last := cur.value.(end := now, duration := now - cur.value.start, ongoing := true);
      AddEpisode(out, host, pts, runs, now, last, (open.value, |pts|));
      out := out + [last];
      runs := runs + [(open.value, |pts|)];
    }
  }

  lemma NothingSeen(host: string, pts: seq<Point>, now: int)
    ensures SoFar(pts, 0, [], None) && AreEpisodes([], host, pts, [], now)
  {
  }

  lemma OnePointRun(pts: seq<Point>, k: nat)
    requires k < |pts|
    ensures Level(pts, (k, k + 1)) == pts[k].state && CauseOf(pts, (k, k + 1)) == pts[k].summary
  {
    assert FirstText(pts, k, k + 1) == pts[k].summary;
  }

  // ---- Consequences ----

  /** No maximal run is missing from the list. */
  lemma MaximalRunIsListed(pts: seq<Point>, runs: seq<Run>, r: Run)
    requires AreTheRuns(pts, runs) && IsMaximalRun(pts, r)
    ensures r in runs
  {
    assert Covered(runs, r.0);
    var a :| 0 <= a < |runs| && runs[a].0 <= r.0 < runs[a].1;
    assert IsMaximalRun(pts, runs[a]);
    assert runs[a] == r;
  }

  /** The list of runs, hence the list of episodes, is determined by the points. */
  lemma {:induction false} RunsAreDetermined(pts: seq<Point>, a: seq<Run>, b: seq<Run>)
    requires AreTheRuns(pts, a) && AreTheRuns(pts, b)
    ensures a == b
  {
    forall k | 0 <= k < |a| && k < |b| ensures a[k] == b[k] {
      SameRun(pts, a, b, k);
    }
    if |a| > |b| {
      NoExtraRun(pts, a, b);
    } else if |b| > |a| {
      NoExtraRun(pts, b, a);
    }
  }

  lemma {:induction false} SameRun(pts: seq<Point>, a: seq<Run>, b: seq<Run>, k: nat)
    requires AreTheRuns(pts, a) && AreTheRuns(pts, b) && k < |a| && k < |b|
    ensures a[k] == b[k]
  {
    hide IsMaximalRun;
    forall j | 0 <= j < k ensures a[j] == b[j] {
      SameRun(pts, a, b, j);
    }
    MaximalRunIsListed(pts, b, a[k]);
    MaximalRunIsListed(pts, a, b[k]);
    var i :| 0 <= i < |b| && b[i] == a[k];
    var j :| 0 <= j < |a| && a[j] == b[k];
    Nonempty(pts, a);
    Nonempty(pts, b);
    assert i >= k && j >= k;
  }

  lemma Nonempty(pts: seq<Point>, runs: seq<Run>)
    requires AreTheRuns(pts, runs)
    ensures forall k :: 0 <= k < |runs| ==> runs[k].0 < runs[k].1
  {
    assert forall k :: 0 <= k < |runs| ==> IsMaximalRun(pts, runs[k]);
  }

  lemma NoExtraRun(pts: seq<Point>, a: seq<Run>, b: seq<Run>)
    requires AreTheRuns(pts, a) && AreTheRuns(pts, b)
    ensures |a| <= |b|
  {
    hide IsMaximalRun;
    if |a| > |b| {
      var r := a[|b|];
      MaximalRunIsListed(pts, b, r);
      var i :| 0 <= i < |b| && b[i] == r;
      SameRun(pts, a, b, i);
      Nonempty(pts, a);
    }
  }

  ghost predicate Ascend(pts: seq<Point>) {
    forall i, j :: 0 <= i < j < |pts| ==> pts[i].at < pts[j].at
  }

  /** Over a series, episodes come in order of time, do not overlap, and only the last one may be going on. */
  lemma EpisodesAreDisjoint(out: seq<Episode>, host: string, pts: seq<Point>, runs: seq<Run>, now: int, a: nat, b: nat)
    requires Ascend(pts) && AreTheRuns(pts, runs) && AreEpisodes(out, host, pts, runs, now)
    requires a < b < |out|
    ensures out[a].start < out[a].end < out[b].start && !out[a].ongoing
  {
    assert IsMaximalRun(pts, runs[a]) && IsMaximalRun(pts, runs[b]);
    assert runs[a].1 < runs[b].0;
  }

  ghost predicate Spans(e: Episode, at: int) {
    e.start <= at && (at < e.end || e.ongoing)
  }

  /** Only the states that RecordHealth writes. */
  ghost predicate KnownStates(pts: seq<Point>) {
    forall p :: p in pts ==> p.state in {"ok", "warn", "crit"}
  }

  /** The episode lies around point k and is critical if the point is; if states are known, it is no milder. */
  ghost predicate Surrounds(e: Episode, host: string, pts: seq<Point>, k: nat)
    requires k < |pts|
  {
    && e.host == host && Spans(e, pts[k].at) && (pts[k].state == "crit" ==> e.state == "crit")
    && (KnownStates(pts) ==> e.state == "crit" || e.state == pts[k].state)
  }

  /** Every point out of the normal lies inside an episode as severe as itself. */
  lemma PointIsInEpisode(out: seq<Episode>, host: string, pts: seq<Point>, runs: seq<Run>, now: int, k: nat)
    requires Ascend(pts) && AreTheRuns(pts, runs) && AreEpisodes(out, host, pts, runs, now)
    requires k < |pts| && !Sane(pts[k])
    ensures exists e :: e in out && Surrounds(e, host, pts, k)
  {
    hide Surrounds, EpisodeOf, IsMaximalRun;
    assert Covered(runs, k);
    assert forall q :: 0 <= q < |runs| ==> IsMaximalRun(pts, runs[q]);
    var a :| 0 <= a < |runs| && runs[a].0 <= k < runs[a].1;
    RunIsOut(pts, runs[a]);
    EpisodeSurrounds(host, pts, runs[a], now, k);
    assert out[a] in out && out[a] == EpisodeOf(host, pts, runs[a], now);
  }

  lemma RunIsOut(pts: seq<Point>, r: Run)
    requires IsMaximalRun(pts, r)
    ensures r.0 < r.1 <= |pts| && forall q :: r.0 <= q < r.1 ==> !Sane(pts[q])
  {
  }

  lemma EpisodeSurrounds(host: string, pts: seq<Point>, r: Run, now: int, k: nat)
    requires Ascend(pts) && r.0 <= k < r.1 <= |pts| && forall q :: r.0 <= q < r.1 ==> !Sane(pts[q])
    ensures Surrounds(EpisodeOf(host, pts, r, now), host, pts, k)
  {
    FirstCritIs(pts, r.0, r.1);
    if KnownStates(pts) {
      assert pts[k] in pts && pts[r.0] in pts;
      assert !Sane(pts[k]) && !Sane(pts[r.0]);
    }
  }

  /** Conversely an episode is of level crit only if one of its points is. */
  lemma CritEpisodeHasCrit(pts: seq<Point>, r: Run)
    requires r.0 < r.1 <= |pts|
    ensures Level(pts, r) == "crit" <==> exists k :: r.0 <= k < r.1 && pts[k].state == "crit"
  {
    FirstCritIs(pts, r.0, r.1);
  }

  /** An episode quotes the first non-empty summary from its first critical point on, or from its start. */
  lemma CauseIsFirstText(pts: seq<Point>, r: Run) returns (from: nat, k: nat)
    requires r.0 < r.1 <= |pts|
    ensures r.0 <= from < r.1 && from <= k <= r.1
    ensures forall q :: r.0 <= q < from ==> pts[q].state != "crit"
    ensures pts[from].state == "crit" || (from == r.0 && forall q :: r.0 <= q < r.1 ==> pts[q].state != "crit")
    ensures forall q :: from <= q < k ==> pts[q].summary == ""
    ensures k < r.1 ==> pts[k].summary != ""
    ensures CauseOf(pts, r) == if k < r.1 then pts[k].summary else ""
  {
    FirstCritIs(pts, r.0, r.1);
    var c := FirstCrit(pts, r.0, r.1);
    from := if c < r.1 then c else r.0;
    k := FirstTextIs(pts, from, r.1);
  }

  lemma EpisodesAreDetermined(a: seq<Episode>, b: seq<Episode>, host: string, pts: seq<Point>, now: int)
    requires AreEpisodesOf(a, host, pts, now) && AreEpisodesOf(b, host, pts, now)
    ensures a == b
  {
    hide AreTheRuns, EpisodeOf;
    var x :| AreTheRuns(pts, x) && AreEpisodes(a, host, pts, x, now);
    var y :| AreTheRuns(pts, y) && AreEpisodes(b, host, pts, y, now);
    RunsAreDetermined(pts, x, y);
  }

  // ---- The episodes themselves, told from the points alone ----

  /** Point i is at this time, out of the normal, and the one before it, if any, is not. */
  ghost predicate StartsAt(pts: seq<Point>, i: nat, at: int) {
    && i < |pts| && pts[i].at == at && pts[i].state !in {"ok", "unknown"}
    && (i > 0 ==> pts[i - 1].state in {"ok", "unknown"})
  }

  /** The first sane point after `start` is at `end`. */
  ghost predicate EndsAt(pts: seq<Point>, start: int, end: int) {
    && start < end && (exists j :: 0 <= j < |pts| && pts[j].at == end && pts[j].state in {"ok", "unknown"})
    && forall j :: 0 <= j < |pts| && start <= pts[j].at < end ==> pts[j].state !in {"ok", "unknown"}
  }

  /** Every episode starts at the first point out of the normal; a past one ends at the next sane point, and the last
      one, if no sane point follows, goes on until now. Without a critical point its level is that of its first one. */
  lemma EpisodeBounds(out: seq<Episode>, host: string, pts: seq<Point>, now: int, a: nat) returns (i: nat)
    requires Ascend(pts) && a < |out| && AreEpisodesOf(out, host, pts, now)
    ensures var e := out[a];
            && e.host == host && e.duration == e.end - e.start
            && StartsAt(pts, i, e.start)
            && (!e.ongoing ==> EndsAt(pts, e.start, e.end))
            && (e.ongoing ==> e.end == now && a == |out| - 1
                              && forall j :: 0 <= j < |pts| && pts[j].at >= e.start ==>
                                   pts[j].state !in {"ok", "unknown"})
            && (e.state == "crit" <==>
                  exists k :: 0 <= k < |pts| && Spans(e, pts[k].at) && pts[k].state == "crit")
            && (e.state == "crit" || e.state == pts[i].state)
  {
    hide Level, CauseOf, AreTheRuns;
    var runs: seq<Run> :| AreTheRuns(pts, runs) && AreEpisodes(out, host, pts, runs, now);
    i := runs[a].0;
    IsRunAt(pts, runs, a);
    OnlyLastReachesEnd(pts, runs, a);
    RunBounds(host, pts, runs[a], now);
  }

  lemma IsRunAt(pts: seq<Point>, runs: seq<Run>, a: nat)
    requires AreTheRuns(pts, runs) && a < |runs|
    ensures IsMaximalRun(pts, runs[a])
  {
  }

  lemma OnlyLastReachesEnd(pts: seq<Point>, runs: seq<Run>, a: nat)
    requires AreTheRuns(pts, runs) && a < |runs|
    ensures a < |runs| - 1 ==> runs[a].1 < |pts|
  {
    if a < |runs| - 1 {
      assert IsMaximalRun(pts, runs[a + 1]);
    }
  }

  lemma RunBounds(host: string, pts: seq<Point>, r: Run, now: int)
    requires Ascend(pts) && IsMaximalRun(pts, r)
    ensures var e := EpisodeOf(host, pts, r, now);
            && StartsAt(pts, r.0, e.start)
            && (!e.ongoing ==> EndsAt(pts, e.start, e.end))
            && (e.ongoing ==> e.end == now && forall j :: 0 <= j < |pts| && pts[j].at >= e.start ==>
                                                pts[j].state !in {"ok", "unknown"})
            && (e.state == "crit" <==>
                  exists k :: 0 <= k < |pts| && Spans(e, pts[k].at) && pts[k].state == "crit")
            && (e.state == "crit" || e.state == pts[r.0].state)
  {
    hide CauseOf;
    var e := EpisodeOf(host, pts, r, now);
    FirstCritIs(pts, r.0, r.1);
    forall j | 0 <= j < |pts| ensures pts[j].at >= e.start <==> j >= r.0 {
    }
    if r.1 < |pts| {
      assert pts[r.1].at == e.end && Sane(pts[r.1]);
      forall j | 0 <= j < |pts| ensures pts[j].at < e.end <==> j < r.1 {
      }
    }
  }

  /** Conversely every start of a run of points out of the normal is the start of an episode. */
  lemma EveryStartIsListed(out: seq<Episode>, host: string, pts: seq<Point>, now: int, i: nat)
    requires i < |pts| && StartsAt(pts, i, pts[i].at)
    ensures AreEpisodesOf(out, host, pts, now) ==> exists e :: e in out && e.start == pts[i].at
  {
    hide Level, CauseOf;
    if AreEpisodesOf(out, host, pts, now) {
      var runs: seq<Run> :| AreTheRuns(pts, runs) && AreEpisodes(out, host, pts, runs, now);
      assert Covered(runs, i);
      var a :| 0 <= a < |runs| && runs[a].0 <= i < runs[a].1;
      assert IsMaximalRun(pts, runs[a]);
      assert runs[a].0 == i && out[a].start == pts[i].at && out[a] in out;
    }
  }
}
