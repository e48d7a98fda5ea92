/** The history page as a whole (collector/timeline.go, Timeline and bars): one row, one bar and the episodes of every
    host that is not disabled, in display order. */
module HistoryPage {
  import opened Config
  import opened History
  import opened Frieze
  import opened Episodes
  import opened Bars
  import opened Display
  import Ordering

  function Concat(groups: seq<seq<Episode>>): seq<Episode> {
    if groups == [] then [] else Concat(groups[..|groups| - 1]) + groups[|groups| - 1]
  }

  function WindowStart(w: Window, now: int): int
    requires w.bucket > 0
  {
    Start(now, w.bucket, w.duration)
  }

  /** What HealthSeries answers to (host, since). */
  type Reader = (string, int) -> seq<Point>

  ghost predicate AreRows(rows: seq<Row>, names: seq<string>, read: Reader, w: Window, now: int)
    requires w.bucket > 0
  {
    var start := WindowStart(w, now);
    && |rows| == |names|
    && forall k :: 0 <= k < |names| ==>
         rows[k].name == names[k] && IsRow(rows[k], read(names[k], start), start, w.bucket, Buckets(w))
  }

  function Buckets(w: Window): nat
    requires w.bucket > 0
  {
    if w.duration < 0 then 0 else w.duration / w.bucket
  }

  ghost predicate AreGroups(groups: seq<seq<Episode>>, names: seq<string>, read: Reader, w: Window, now: int)
    requires w.bucket > 0
  {
    && |groups| == |names|
    && forall k :: 0 <= k < |names| ==> AreEpisodesOf(groups[k], names[k], read(names[k], WindowStart(w, now)), now)
  }

  /** The page's episodes are those of its hosts, one host after the other. */
  ghost predicate AreHostEpisodes(episodes: seq<Episode>, names: seq<string>, read: Reader, w: Window, now: int)
    requires w.bucket > 0
  {
    exists groups :: AreGroups(groups, names, read, w, now) && episodes == Concat(groups)
  }

  ghost predicate AreSlots(slots: seq<string>, pts: seq<Point>, now: int) {
    |slots| == TOTAL && forall i :: 0 <= i < TOTAL ==> slots[i] == SlotAt(pts, BarsStart(now), i)
  }

  ghost predicate IsBarOf(b: Bar, pts: seq<Point>, now: int, fl: real -> real) {
    exists slots :: AreSlots(slots, pts, now) && IsBar(b, slots, fl)
  }

  ghost predicate AreBars(bars: seq<Bar>, names: seq<string>, read: Reader, now: int, fl: real -> real) {
    && |bars| == |names|
    && forall k :: 0 <= k < |names| ==>
         bars[k].host == names[k] && IsBarOf(bars[k], read(names[k], BarsStart(now)), now, fl)
  }

  // ---- Display order ----

  /** The most critical first, then the one to watch most, then by name. */
  predicate RowBefore(a: Row, b: Row) {
    if a.crits != b.crits then a.crits > b.crits
    else if a.warns != b.warns then a.warns > b.warns
    else Ordering.Less(a.name, b.name)
  }

  predicate BarBefore(a: Bar, b: Bar) {
    if a.pctCrit != b.pctCrit then a.pctCrit > b.pctCrit else a.pctWarn > b.pctWarn
  }

  /** The most recent first. */
  predicate EpisodeBefore(a: Episode, b: Episode) {
    a.start > b.start
  }

  lemma OrdersAreWeak()
    ensures IsWeakOrder(RowBefore) && IsWeakOrder(BarBefore) && IsWeakOrder(EpisodeBefore)
  {
    forall a, b ensures RowBefore(a, b) ==> !RowBefore(b, a) {
      Ordering.LessTotal(a.name, b.name);
    }
    forall a, b, c ensures RowBefore(a, b) && !RowBefore(c, b) ==> RowBefore(a, c) {
      Ordering.LessTotal(b.name, c.name);
      if Ordering.Less(a.name, b.name) && Ordering.Less(b.name, c.name) {
        Ordering.LessTransitive(a.name, b.name, c.name);
      }
    }
  }

  /** The rows of the page: those of the hosts, sorted stably. */
  ghost predicate ShownRows(rows: seq<Row>, names: seq<string>, read: Reader, w: Window, now: int)
    requires w.bucket > 0
  {
    exists plain :: AreRows(plain, names, read, w, now) && IsStableSort(rows, plain, RowBefore)
  }

  /** Its episodes: those of the hosts, in some order of time. */
  ghost predicate ShownEpisodes(episodes: seq<Episode>, names: seq<string>, read: Reader, w: Window, now: int)
    requires w.bucket > 0
  {
    exists plain :: AreHostEpisodes(plain, names, read, w, now) && IsSort(episodes, plain, EpisodeBefore)
  }

  ghost predicate ShownBars(bars: seq<Bar>, names: seq<string>, read: Reader, now: int, fl: real -> real) {
    exists plain :: AreBars(plain, names, read, now, fl) && IsStableSort(bars, plain, BarBefore)
  }

  // ---- The page ----

  /** Timeline over the configured hosts: disabled ones are skipped. */
  method Timeline(hosts: seq<HostConfig>, read: Reader, w: Window, now: int)
    returns (rows: seq<Row>, episodes: seq<Episode>)
    requires w.bucket > 0
    ensures ShownRows(rows, Enabled(hosts), read, w, now)
    ensures ShownEpisodes(episodes, Enabled(hosts), read, w, now)
  {
    hide IsRow, AreEpisodesOf, IsWeakOrder, IsStableSort, IsSort;
    rows, episodes := [], [];
    ghost var groups: seq<seq<Episode>> := [];
    var start := WindowStart(w, now);
    for k := 0 to |hosts|
      invariant AreRows(rows, Enabled(hosts[..k]), read, w, now)
      invariant AreGroups(groups, Enabled(hosts[..k]), read, w, now) && episodes == Concat(groups)
    {
      assert hosts[..k + 1][..k] == hosts[..k];
      if hosts[k].disabled {
        continue;
      }
      var pts := read(hosts[k].name, start);
      var row := MakeRow(hosts[k].name, pts, start, w.bucket, Buckets(w));
      rows := rows + [row];
      var found := Extract(hosts[k].name, pts, now);
      episodes := episodes + found;
      assert (groups + [found])[..|groups|] == groups;
      groups := groups + [found];
    }
    assert hosts[..|hosts|] == hosts;
    OrdersAreWeak();
    ghost var plain := episodes;
    episodes := SortStable(episodes, EpisodeBefore);
    assert IsSort(episodes, plain, EpisodeBefore) by { StableSortSorts(episodes, plain, EpisodeBefore); }
    rows := SortStable(rows, RowBefore);
  }

  lemma StableSortSorts<T(!new)>(r: seq<T>, s: seq<T>, before: (T, T) -> bool)
    requires IsStableSort(r, s, before)
    ensures IsSort(r, s, before)
  {
  }

  method HostBars(hosts: seq<HostConfig>, read: Reader, now: int, fl: real -> real) returns (bars: seq<Bar>)
    requires IsRounding(fl)
    ensures ShownBars(bars, Enabled(hosts), read, now, fl)
  {
    hide IsBar, IsRounding, IsBarOf, IsWeakOrder, IsStableSort;
    bars := [];
    for k := 0 to |hosts|
      invariant AreBars(bars, Enabled(hosts[..k]), read, now, fl)
    {
      assert hosts[..k + 1][..k] == hosts[..k];
      if hosts[k].disabled {
        continue;
      }
      var pts := read(hosts[k].name, BarsStart(now));
      var bar, slots := BarOf(hosts[k].name, pts, now, fl);
      ItsBar(bar, slots, pts, now, fl);
      bars := bars + [bar];
    }
    assert hosts[..|hosts|] == hosts;
    OrdersAreWeak();
    bars := SortStable(bars, BarBefore);
  }

  lemma ItsBar(b: Bar, slots: seq<string>, pts: seq<Point>, now: int, fl: real -> real)
    requires |slots| == TOTAL && forall i :: 0 <= i < TOTAL ==> slots[i] == SlotAt(pts, BarsStart(now), i)
    requires IsBar(b, slots, fl)
    ensures IsBarOf(b, pts, now, fl)
  {
    hide IsBar;
    assert AreSlots(slots, pts, now);
  }

  // ---- The order of the page, told without its comparisons ----

  /** Rows come by falling number of critical cells, then of cells to watch, then by name. */
  lemma RowsInOrder(rows: seq<Row>, plain: seq<Row>, i: nat, j: nat)
    requires IsSort(rows, plain, RowBefore) && i < j < |rows|
    ensures var a, b := rows[i], rows[j];
            || a.crits > b.crits
            || (a.crits == b.crits && a.warns > b.warns)
            || (a.crits == b.crits && a.warns == b.warns && (a.name == b.name || Ordering.Less(a.name, b.name)))
  {
    assert !RowBefore(rows[j], rows[i]);
    Ordering.LessTotal(rows[i].name, rows[j].name);
  }

  /** Bars come by falling critical share, then by falling share to watch. */
  lemma BarsInOrder(bars: seq<Bar>, plain: seq<Bar>, i: nat, j: nat)
    requires IsSort(bars, plain, BarBefore) && i < j < |bars|
    ensures var a, b := bars[i], bars[j];
            a.pctCrit > b.pctCrit || (a.pctCrit == b.pctCrit && a.pctWarn >= b.pctWarn)
  {
    assert !BarBefore(bars[j], bars[i]);
  }

  /** Episodes come with the most recent first. */
  lemma EpisodesInOrder(episodes: seq<Episode>, plain: seq<Episode>, i: nat, j: nat)
    requires IsSort(episodes, plain, EpisodeBefore) && i < j < |episodes|
    ensures episodes[i].start >= episodes[j].start
  {
    assert !EpisodeBefore(episodes[j], episodes[i]);
  }

  /** The page's episodes are those of its hosts, no more and no less. */
  lemma {:induction false} ConcatHas(groups: seq<seq<Episode>>, e: Episode)
    ensures e in Concat(groups) <==> exists k :: 0 <= k < |groups| && e in groups[k]
  {
    if groups != [] {
      var n := |groups| - 1;
      ConcatHas(groups[..n], e);
      assert groups == groups[..n] + [groups[n]];
      assert forall k :: 0 <= k < n ==> groups[..n][k] == groups[k];
    }
  }
}
