/** Laws of the history page: the frieze, the bars and the store's hourly query tell the same story, and the
    purge of old rows cannot be seen. */
module PageLaws {
  import opened Wrappers
  import opened History
  import opened Frieze
  import opened Episodes
  import opened Bars
  import opened Display
  import opened HistoryPage

  // ---- Where the windows lie ----

  /** Every window is a whole number of steps, starts on an hour, within the period of the bars, less than its
      own duration ago, and ends after the current hour; the current instant is in its last interval, and in the last
      hour of the bars. */
  lemma WindowBounds(w: Window, now: int)
    requires w in WINDOWS
    ensures IsStep(w.bucket) && Buckets(w) * w.bucket == w.duration <= BAR_DAYS * DAY
    ensures WindowStart(w, now) % HOUR == 0 && BarsStart(now) % HOUR == 0
    ensures now - w.duration < WindowStart(w, now) && BarsStart(now) <= WindowStart(w, now)
    ensures BarsStart(now) <= now < BarsStart(now) + TOTAL * HOUR <= WindowStart(w, now) + w.duration
    ensures BarsStart(now) + (TOTAL - 1) * HOUR <= now && WindowStart(w, now) + w.duration - w.bucket <= now
  {
    IntervalsFallOnHours(now, w.bucket);
    IntervalsFallOnHours(now, HOUR);
    assert w.duration % HOUR == 0;
    var a, b := End(now, HOUR), End(now, w.bucket);
    SubtractHours(b, w.duration);
    SubtractHours(a, BAR_DAYS * DAY);
    NextMultiple(a, b, now);
  }

  lemma SubtractHours(a: int, b: int)
    requires a % HOUR == 0 && b % HOUR == 0
    ensures (a - b) % HOUR == 0
  {
  }

  /** The end of the current hour is the least multiple of an hour after now. */
  lemma NextMultiple(a: int, b: int, now: int)
    requires a % HOUR == 0 && b % HOUR == 0 && a - HOUR <= now < a && now < b
    ensures a <= b
  {
  }

  // ---- The series ----

  lemma SeriesStarts(rows: Table, host: string, since: int)
    ensures From(Series(rows, host, since), since)
  {
    hide Series;
    forall p | p in Series(rows, host, since) ensures p.at >= since {
      SeriesHoldsRows(rows, host, since, p);
    }
  }

  /** A point is in every series that starts early enough. */
  lemma SeriesShare(rows: Table, host: string, a: int, b: int, p: Point)
    requires p in Series(rows, host, a) && p.at >= b
    ensures p in Series(rows, host, b)
  {
    hide Series;
    SeriesHoldsRows(rows, host, a, p);
    SeriesHoldsRows(rows, host, b, p);
  }

  // ---- A cell is the worst of the hourly slots it covers ----

  function HourAt(now: int, s: nat): int {
    BarsStart(now) + s * HOUR
  }

  /** Like a cell, a slot is at least as bad as every point of its hour and takes its state from one of them. */
  lemma SlotIsWorst(pts: seq<Point>, start: int, s: nat)
    requires From(pts, start)
    ensures var slot, from := SlotAt(pts, start, s), start + s * HOUR;
            && (forall p :: p in pts && from <= p.at < from + HOUR ==> Rank(p.state) <= Rank(slot))
            && (slot == "" || exists p :: p in pts && from <= p.at < from + HOUR && p.state == slot)
            && (slot == "" <==> Rank(slot) == 0)
  {
    hide Within, Worst;
    var from := start + s * HOUR;
    if s == 0 {
      WithinSame(pts, Low(start, HOUR, 0), start, start + HOUR);
    }
    var inside := Within(pts, from, from + HOUR);
    WorstIs(inside);
    RankOfSlot(Worst(inside));
    forall p: Point ensures p in inside <==> p in pts && from <= p.at < from + HOUR {
      WithinHas(pts, from, from + HOUR, p);
    }
    if Worst(inside) > 0 {
      var p :| p in inside && Rank(p.state) == Worst(inside);
      NameOfSlot(p.state);
    }
  }

  ghost predicate NothingAfter(rows: Table, now: int) {
    forall k :: k in rows ==> k.1 <= now
  }

  /** The second of an instant's hour slot. */
  lemma SlotOf(at: int, now: int) returns (s: nat)
    requires BarsStart(now) <= at < BarsStart(now) + TOTAL * HOUR
    ensures s < TOTAL && HourAt(now, s) <= at < HourAt(now, s) + HOUR
  {
    s := (at - BarsStart(now)) / HOUR;
  }

  lemma HourInsideCell(hour: int, from: int, bucket: int, at: int)
    requires hour % HOUR == 0 && from % HOUR == 0 && bucket % HOUR == 0
    ensures from <= hour < from + bucket ==> hour + HOUR <= from + bucket
    ensures hour <= at < hour + HOUR && from <= at < from + bucket ==> from <= hour
  {
  }

  /** The cell of the window starting at `start`, against slot s. */
  lemma SlotNoWorseThanCell(rows: Table, host: string, w: Window, now: int, i: nat, s: nat)
    requires w in WINDOWS && i < Buckets(w) && s < TOTAL
    ensures var start := WindowStart(w, now);
            var cell := CellAt(Series(rows, host, start), start, w.bucket, i);
            var slot := SlotAt(Series(rows, host, BarsStart(now)), BarsStart(now), s);
            cell.from <= HourAt(now, s) < cell.from + w.bucket ==> Rank(slot) <= Rank(cell.state)
  {
    hide Series, SlotAt, WindowStart, BarsStart, Rank, CellAt;
    WindowBounds(w, now);
    var start, first := WindowStart(w, now), BarsStart(now);
    var ours, theirs := Series(rows, host, start), Series(rows, host, first);
    SeriesStarts(rows, host, start);
    SeriesStarts(rows, host, first);
    CellIsWorst(ours, start, w.bucket, i);
    SlotIsWorst(theirs, first, s);
    var cell, slot := CellAt(ours, start, w.bucket, i), SlotAt(theirs, first, s);
    var hour := HourAt(now, s);
    CellFrom(ours, start, w, i);
    if cell.from <= hour < cell.from + w.bucket && slot != "" {
      var p :| p in theirs && hour <= p.at < hour + HOUR && p.state == slot;
      HourInsideCell(hour, cell.from, w.bucket, p.at);
      SeriesShare(rows, host, first, start, p);
    }
  }

  /** Cells start on hours, not before the window. */
  lemma CellFrom(pts: seq<Point>, start: int, w: Window, i: nat)
    requires w in WINDOWS && start % HOUR == 0
    ensures var cell := CellAt(pts, start, w.bucket, i); cell.from % HOUR == 0 && cell.from >= start
    ensures w.bucket % HOUR == 0
  {
    var hours := w.bucket / HOUR;
    assert i * w.bucket == i * hours * HOUR;
    assert (start + i * hours * HOUR) % HOUR == 0;
  }

  /** Whatever the window, a cell takes its state from one of the hourly slots it covers, and is at least as bad as
      all of them. */
  lemma CellIsWorstOfSlots(rows: Table, host: string, w: Window, now: int, i: nat)
    requires w in WINDOWS && i < Buckets(w) && NothingAfter(rows, now)
    ensures var start := WindowStart(w, now);
            var cell := CellAt(Series(rows, host, start), start, w.bucket, i);
            var pts := Series(rows, host, BarsStart(now));
            && (forall s :: 0 <= s < TOTAL && cell.from <= HourAt(now, s) < cell.from + w.bucket ==>
                  Rank(SlotAt(pts, BarsStart(now), s)) <= Rank(cell.state))
            && (cell.state == "unknown" ||
                exists s :: 0 <= s < TOTAL && cell.from <= HourAt(now, s) < cell.from + w.bucket
                            && SlotAt(pts, BarsStart(now), s) == cell.state)
  {
    hide Series, SlotAt, WindowStart, BarsStart, CellAt, HourAt;
    WindowBounds(w, now);
    var start, first := WindowStart(w, now), BarsStart(now);
    var ours, theirs := Series(rows, host, start), Series(rows, host, first);
    var cell := CellAt(ours, start, w.bucket, i);
    forall s | 0 <= s < TOTAL
      ensures cell.from <= HourAt(now, s) < cell.from + w.bucket ==> Rank(SlotAt(theirs, first, s)) <= Rank(cell.state)
    {
      SlotNoWorseThanCell(rows, host, w, now, i, s);
    }
    if cell.state != "unknown" {
      var s := SlotOfCell(rows, host, w, now, i);
    }
  }

  lemma SlotOfCell(rows: Table, host: string, w: Window, now: int, i: nat) returns (s: nat)
    requires w in WINDOWS && i < Buckets(w) && NothingAfter(rows, now)
    requires CellAt(Series(rows, host, WindowStart(w, now)), WindowStart(w, now), w.bucket, i).state != "unknown"
    ensures var cell := CellAt(Series(rows, host, WindowStart(w, now)), WindowStart(w, now), w.bucket, i);
            && s < TOTAL && cell.from <= HourAt(now, s) < cell.from + w.bucket
            && SlotAt(Series(rows, host, BarsStart(now)), BarsStart(now), s) == cell.state
  {
    hide Series, SlotAt, WindowStart, BarsStart, CellAt;
    WindowBounds(w, now);
    var start, first := WindowStart(w, now), BarsStart(now);
    var ours, theirs := Series(rows, host, start), Series(rows, host, first);
    SeriesStarts(rows, host, start);
    SeriesStarts(rows, host, first);
    CellIsWorst(ours, start, w.bucket, i);
    var cell := CellAt(ours, start, w.bucket, i);
    CellFrom(ours, start, w, i);
    var p :| p in ours && cell.from <= p.at < cell.from + w.bucket && p.state == cell.state;
    SeriesShare(rows, host, start, first, p);
    SeriesHoldsRows(rows, host, start, p);
    s := SlotOf(p.at, now);
    HourInsideCell(HourAt(now, s), cell.from, w.bucket, p.at);
    SlotIsWorst(theirs, first, s);
    SlotNoWorseThanCell(rows, host, w, now, i, s);
    CellIsNamed(ours, start, w.bucket, i);
    SlotIsNamed(theirs, first, s);
  }

  /** The state of a slot is empty or one of the three names. */
  lemma SlotIsNamed(pts: seq<Point>, start: int, s: nat)
    ensures var slot := SlotAt(pts, start, s); slot == "" || slot == StateName(Rank(slot))
  {
    WorstIs(Within(pts, Low(start, HOUR, s), start + s * HOUR + HOUR));
  }

  // ---- The store's hourly query ----

  datatype HourlyState = HourlyState(state: string, samples: nat)

  /** (at / 3600) * 3600: SQLite truncates as Go does. */
  function HourKey(at: int): int {
    Quot(at, HOUR) * HOUR
  }

  /** That is the start of the hour, except before 1970. */
  lemma HourKeyIsFloor(at: int)
    ensures HourKey(at) == at - at % HOUR <==> at >= 0 || at % HOUR == 0
  {
    if at < 0 {
      var q := -at / HOUR;
      assert -at == q * HOUR + -at % HOUR;
    }
  }

  function Group(pts: seq<Point>, hour: int): seq<Point> {
    if pts == [] then []
    else
      var last := pts[|pts| - 1];
      Group(pts[..|pts| - 1], hour) + if HourKey(last.at) == hour then [last] else []
  }

  lemma {:induction false} GroupHas(pts: seq<Point>, hour: int, p: Point)
    ensures p in Group(pts, hour) <==> p in pts && HourKey(p.at) == hour
  {
    if pts != [] {
      GroupHas(pts[..|pts| - 1], hour, p);
      assert pts == pts[..|pts| - 1] + [pts[|pts| - 1]];
    }
  }

  /** HourlyHistory's answer for an hour: absent if it has no row. */
  function HourlyAt(pts: seq<Point>, hour: int): Option<HourlyState> {
    var group := Group(pts, hour);
    if group == [] then None else Some(HourlyState(StateName(Worst(group)), |group|))
  }

  /** The slot of an hour has the state of the hourly query, with "" for both a missing row and "unknown". */
  lemma SlotAgreesWithHourly(rows: Table, host: string, now: int, s: nat, since: int)
    requires s < TOTAL && since <= HourAt(now, s) && (since >= 0 || HourAt(now, s) > 0)
    ensures var slot := SlotAt(Series(rows, host, BarsStart(now)), BarsStart(now), s);
            match HourlyAt(Series(rows, host, since), HourAt(now, s))
            case None => slot == ""
            case Some(hourly) => if hourly.state == "unknown" then slot == "" else slot == hourly.state
  {
    hide Series, SlotAt, BarsStart, HourAt, HourKey, Worst, Group;
    var first, hour := BarsStart(now), HourAt(now, s);
    var ours, theirs := Series(rows, host, first), Series(rows, host, since);
    var slot, group := SlotAt(ours, first, s), Group(theirs, hour);
    SeriesStarts(rows, host, first);
    HourBounds(now, s);
    SlotIsWorst(ours, first, s);
    SlotIsNamed(ours, first, s);
    WorstIs(group);
    forall p: Point ensures p in group <==> p in ours && hour <= p.at < hour + HOUR {
      GroupHas(theirs, hour, p);
      SeriesHoldsRows(rows, host, first, p);
      SeriesHoldsRows(rows, host, since, p);
      HourKeyIs(p.at, hour, since);
    }
    assert Worst(group) <= Rank(slot) by {
      if Worst(group) > 0 {
        var p :| p in group && Rank(p.state) == Worst(group);
      }
    }
    assert Rank(slot) <= Worst(group) by {
      if slot != "" {
        var p :| p in ours && hour <= p.at < hour + HOUR && p.state == slot;
        assert p in group;
      }
    }
  }

  lemma HourBounds(now: int, s: nat)
    ensures HourAt(now, s) == BarsStart(now) + s * HOUR && HourAt(now, s) % HOUR == 0
    ensures BarsStart(now) <= HourAt(now, s)
  {
    IntervalsFallOnHours(now, HOUR);
  }

  lemma HourKeyIs(at: int, hour: int, since: int)
    requires hour % HOUR == 0 && (since >= 0 || hour > 0) && since <= hour
    ensures at >= since ==> (HourKey(at) == hour <==> hour <= at < hour + HOUR)
  {
  }

  // ---- Retention ----

  /** What Run keeps: fifteen days. */
  const KEEP := 15 * DAY

  ghost function Reading(rows: Table): Reader {
    (host, since) => Series(rows, host, since)
  }

  /** Whatever was recorded and purged, and whenever, the page of any window is that of the history that was never
      purged: the same rows and the same bars in the same order, and the same episodes, in the same order as far as the
      unstable sort determines it. */
  lemma RetentionIsInvisible(ops: seq<Op>, now: int, w: Window, names: seq<string>, fl: real -> real,
                             rows: (seq<Row>, seq<Row>), episodes: (seq<Episode>, seq<Episode>),
                             bars: (seq<Bar>, seq<Bar>))
    requires Before(ops, now) && w in WINDOWS
    ensures var (kept, full) := Replay(ops, KEEP);
            && SameRows(rows.0, rows.1, names, kept, full, w, now)
            && SameEpisodes(episodes.0, episodes.1, names, kept, full, w, now)
            && SameBars(bars.0, bars.1, names, kept, full, now, fl)
  {
    hide Series, Replay, WindowStart, BarsStart, SameRows, SameEpisodes, SameBars;
    WindowBounds(w, now);
    var (kept, full) := Replay(ops, KEEP);
    forall k | 0 <= k < |names|
      ensures Series(kept, names[k], WindowStart(w, now)) == Series(full, names[k], WindowStart(w, now))
      ensures Series(kept, names[k], BarsStart(now)) == Series(full, names[k], BarsStart(now))
    {
      RetainedSeriesIsFull(ops, KEEP, now, names[k], WindowStart(w, now));
      RetainedSeriesIsFull(ops, KEEP, now, names[k], BarsStart(now));
    }
    RowsAreSame(rows.0, rows.1, names, kept, full, w, now);
    EpisodesAreSame(episodes.0, episodes.1, names, kept, full, w, now);
    BarsAreSame(bars.0, bars.1, names, kept, full, now, fl);
  }

  ghost predicate SameRows(a: seq<Row>, b: seq<Row>, names: seq<string>, kept: Table, full: Table, w: Window, now: int)
    requires w in WINDOWS
  {
    ShownRows(a, names, Reading(kept), w, now) && ShownRows(b, names, Reading(full), w, now) ==> a == b
  }

  ghost predicate SameBars(a: seq<Bar>, b: seq<Bar>, names: seq<string>, kept: Table, full: Table, now: int,
                           fl: real -> real)
  {
    ShownBars(a, names, Reading(kept), now, fl) && ShownBars(b, names, Reading(full), now, fl) ==> a == b
  }

  ghost predicate DistinctStarts(episodes: seq<Episode>) {
    forall x, y :: x in episodes && y in episodes && x.start == y.start ==> x == y
  }

  ghost predicate SameEpisodes(a: seq<Episode>, b: seq<Episode>, names: seq<string>, kept: Table, full: Table,
                               w: Window, now: int)
    requires w in WINDOWS
  {
    ShownEpisodes(a, names, Reading(kept), w, now) && ShownEpisodes(b, names, Reading(full), w, now) ==>
      multiset(a) == multiset(b) && (DistinctStarts(b) ==> a == b)
  }

  lemma RowsAreSame(a: seq<Row>, b: seq<Row>, names: seq<string>, kept: Table, full: Table, w: Window, now: int)
    requires w in WINDOWS
    requires forall k :: 0 <= k < |names| ==>
               Series(kept, names[k], WindowStart(w, now)) == Series(full, names[k], WindowStart(w, now))
    ensures SameRows(a, b, names, kept, full, w, now)
  {
    hide Series, WindowStart, IsRow, IsWeakOrder, IsStableSort;
    if ShownRows(a, names, Reading(kept), w, now) && ShownRows(b, names, Reading(full), w, now) {
      var x :| AreRows(x, names, Reading(kept), w, now) && IsStableSort(a, x, RowBefore);
      var y :| AreRows(y, names, Reading(full), w, now) && IsStableSort(b, y, RowBefore);
      forall k | 0 <= k < |names| ensures x[k] == y[k] {
        var start := WindowStart(w, now);
        RowsAreDetermined(x[k], y[k], Series(kept, names[k], start), start, w.bucket, Buckets(w));
      }
      assert x == y;
      OrdersAreWeak();
      StableSortsAgree(a, b, x, RowBefore);
    }
  }

  lemma EpisodesAreSame(a: seq<Episode>, b: seq<Episode>, names: seq<string>, kept: Table, full: Table, w: Window,
                        now: int)
    requires w in WINDOWS
    requires forall k :: 0 <= k < |names| ==>
               Series(kept, names[k], WindowStart(w, now)) == Series(full, names[k], WindowStart(w, now))
    ensures SameEpisodes(a, b, names, kept, full, w, now)
  {
    hide Series, WindowStart, AreHostEpisodes, IsWeakOrder;
    if ShownEpisodes(a, names, Reading(kept), w, now) && ShownEpisodes(b, names, Reading(full), w, now) {
      var x :| AreHostEpisodes(x, names, Reading(kept), w, now) && IsSort(a, x, EpisodeBefore);
      var y :| AreHostEpisodes(y, names, Reading(full), w, now) && IsSort(b, y, EpisodeBefore);
      HostEpisodesAreSame(x, y, names, kept, full, w, now);
      OrdersAreWeak();
      if DistinctStarts(b) {
        SortIsUnique(a, b, EpisodeBefore);
      }
    }
  }

  lemma HostEpisodesAreSame(a: seq<Episode>, b: seq<Episode>, names: seq<string>, kept: Table, full: Table, w: Window,
                            now: int)
    requires w in WINDOWS
    requires forall k :: 0 <= k < |names| ==>
               Series(kept, names[k], WindowStart(w, now)) == Series(full, names[k], WindowStart(w, now))
    requires AreHostEpisodes(a, names, Reading(kept), w, now) && AreHostEpisodes(b, names, Reading(full), w, now)
    ensures a == b
  {
    hide Series, WindowStart, AreEpisodesOf, Concat;
    var x :| AreGroups(x, names, Reading(kept), w, now) && a == Concat(x);
    var y :| AreGroups(y, names, Reading(full), w, now) && b == Concat(y);
    forall k | 0 <= k < |names| ensures x[k] == y[k] {
      EpisodesAreDetermined(x[k], y[k], names[k], Series(kept, names[k], WindowStart(w, now)), now);
    }
    assert x == y;
  }

  lemma BarsAreSame(a: seq<Bar>, b: seq<Bar>, names: seq<string>, kept: Table, full: Table, now: int, fl: real -> real)
    requires forall k :: 0 <= k < |names| ==>
               Series(kept, names[k], BarsStart(now)) == Series(full, names[k], BarsStart(now))
    ensures SameBars(a, b, names, kept, full, now, fl)
  {
    hide Series, BarsStart, IsBarOf, IsWeakOrder, IsStableSort;
    if ShownBars(a, names, Reading(kept), now, fl) && ShownBars(b, names, Reading(full), now, fl) {
      var x :| AreBars(x, names, Reading(kept), now, fl) && IsStableSort(a, x, BarBefore);
      var y :| AreBars(y, names, Reading(full), now, fl) && IsStableSort(b, y, BarBefore);
      forall k | 0 <= k < |names| ensures x[k] == y[k] {
        BarsAreDetermined(x[k], y[k], Series(kept, names[k], BarsStart(now)), now, fl);
      }
      assert x == y;
      OrdersAreWeak();
      StableSortsAgree(a, b, x, BarBefore);
    }
  }

  lemma RowsAreDetermined(a: Row, b: Row, pts: seq<Point>, start: int, step: int, buckets: nat)
    requires a.name == b.name && IsRow(a, pts, start, step, buckets) && IsRow(b, pts, start, step, buckets)
    ensures a == b
  {
    hide CellAt;
    assert a.cells == b.cells;
  }

  lemma BarsAreDetermined(a: Bar, b: Bar, pts: seq<Point>, now: int, fl: real -> real)
    ensures a.host == b.host && IsBarOf(a, pts, now, fl) && IsBarOf(b, pts, now, fl) ==> a == b
  {
    hide SlotAt, IsBar;
    if a.host == b.host && IsBarOf(a, pts, now, fl) && IsBarOf(b, pts, now, fl) {
      var x :| AreSlots(x, pts, now) && IsBar(a, x, fl);
      var y :| AreSlots(y, pts, now) && IsBar(b, y, fl);
      assert x == y;
      BarIsDetermined(a, b, x, fl);
    }
  }

  lemma BarIsDetermined(a: Bar, b: Bar, slots: seq<string>, fl: real -> real)
    requires a.host == b.host && IsBar(a, slots, fl) && IsBar(b, slots, fl)
    ensures a == b
  {
    hide CountOf, Percent;
  }

  /** Retention cannot be seen in a window exactly when it keeps at least the window's duration less a second: kept
      any shorter, a point of the first second is lost when `now` is the last second of its interval. */
  lemma ShorterRetentionShows(w: Window, keep: int, host: string, r: Record) returns (ops: seq<Op>, now: int)
    requires w in WINDOWS
    ensures keep >= w.duration - 1 ==>
              forall o, t, h :: Before(o, t) ==>
                Series(Replay(o, keep).0, h, WindowStart(w, t)) == Series(Replay(o, keep).1, h, WindowStart(w, t))
    ensures keep < w.duration - 1 ==>
              && Before(ops, now)
              && Series(Replay(ops, keep).0, host, WindowStart(w, now))
                 != Series(Replay(ops, keep).1, host, WindowStart(w, now))
  {
    hide Series, WindowStart, Replay;
    if keep >= w.duration - 1 {
      forall o, t, h | Before(o, t)
        ensures Series(Replay(o, keep).0, h, WindowStart(w, t)) == Series(Replay(o, keep).1, h, WindowStart(w, t))
      {
        WindowBounds(w, t);
        RetainedSeriesIsFull(o, keep, t, h, WindowStart(w, t));
      }
    }
    now := w.bucket - 1;
    var start := WindowStart(w, now);
    LastSecond(w);
    ops := [Write(host, start, r), Purge(now)];
    if keep < w.duration - 1 {
      WrittenThenPurged(host, start, r, now, keep);
      var p := Point(start, r.state, r.crit, r.warn, r.summary);
      SeriesHoldsRows(Replay(ops, keep).0, host, start, p);
      SeriesHoldsRows(Replay(ops, keep).1, host, start, p);
    }
  }

  lemma LastSecond(w: Window)
    requires w in WINDOWS
    ensures WindowStart(w, w.bucket - 1) == w.bucket - w.duration
  {
  }

  lemma WrittenThenPurged(host: string, at: int, r: Record, now: int, keep: int)
    requires at < now - keep
    ensures var (kept, full) := Replay([Write(host, at, r), Purge(now)], keep);
            (host, at) !in kept && (host, at) in full && full[(host, at)] == r
  {
    var ops := [Write(host, at, r), Purge(now)];
    assert ops[..1] == [Write(host, at, r)];
    assert ops[..1][..0] == [];
    assert Replay(ops[..1], keep) == (map[(host, at) := r], map[(host, at) := r]);
  }

  // ---- Slots, bars and hours, told from the points alone ----

  /** Slot s is critical if its hour has a critical point, and so on; it is empty if its hour has none of the three. */
  lemma SlotTells(pts: seq<Point>, start: int, s: nat)
    requires From(pts, start)
    ensures var lo, hi := start + s * HOUR, start + s * HOUR + HOUR;
            SlotAt(pts, start, s) == if Sees(pts, lo, hi, "crit") then "crit"
                                     else if Sees(pts, lo, hi, "warn") then "warn"
                                     else if Sees(pts, lo, hi, "ok") then "ok" else ""
  {
    hide SlotAt;
    SlotIsWorst(pts, start, s);
    SlotIsNamed(pts, start, s);
  }

  ghost function SlotsIn(slots: seq<string>, n: nat, state: string): set<nat>
    requires n <= |slots|
  {
    set i: nat | i < n && slots[i] == state
  }

  lemma {:induction false} CountOfUpTo(slots: seq<string>, n: nat, state: string)
    requires n <= |slots|
    ensures CountOf(slots[..n], state) == |SlotsIn(slots, n, state)|
  {
    if n == 0 {
      assert SlotsIn(slots, n, state) == {};
    } else {
      CountOfUpTo(slots, n - 1, state);
      assert slots[..n][..n - 1] == slots[..n - 1];
      var before := SlotsIn(slots, n - 1, state);
      assert SlotsIn(slots, n, state) == if slots[n - 1] == state then before + {n - 1} else before;
    }
  }

  /** The durations of a bar are its hours in each state, in seconds, and what it measured is their number. */
  lemma BarCounts(b: Bar, slots: seq<string>, fl: real -> real)
    requires IsBar(b, slots, fl)
    ensures b.durOK == 3600 * |SlotsIn(slots, |slots|, "ok")| && b.durWarn == 3600 * |SlotsIn(slots, |slots|, "warn")|
    ensures b.durCrit == 3600 * |SlotsIn(slots, |slots|, "crit")|
    ensures 3600 * b.measured == b.durOK + b.durWarn + b.durCrit
  {
    hide CountOf, Percent;
    assert slots[..|slots|] == slots;
    CountOfUpTo(slots, |slots|, "ok");
    CountOfUpTo(slots, |slots|, "warn");
    CountOfUpTo(slots, |slots|, "crit");
  }

  ghost function PointsOfHour(pts: seq<Point>, n: nat, hour: int): set<nat>
    requires n <= |pts|
  {
    set k: nat | k < n && HourKey(pts[k].at) == hour
  }

  lemma {:induction false} GroupSize(pts: seq<Point>, n: nat, hour: int)
    requires n <= |pts|
    ensures |Group(pts[..n], hour)| == |PointsOfHour(pts, n, hour)|
  {
    if n == 0 {
      assert PointsOfHour(pts, n, hour) == {};
    } else {
      hide HourKey;
      GroupSize(pts, n - 1, hour);
      assert pts[..n][..n - 1] == pts[..n - 1];
      var before := PointsOfHour(pts, n - 1, hour);
      assert PointsOfHour(pts, n, hour) == if HourKey(pts[n - 1].at) == hour then before + {n - 1} else before;
    }
  }

  /** The hourly query answers for the hours that have a row, with the number of their rows. */
  lemma HourlySamples(pts: seq<Point>, hour: int)
    ensures var n := |PointsOfHour(pts, |pts|, hour)|;
            match HourlyAt(pts, hour)
            case None => n == 0
            case Some(hourly) => n > 0 && hourly.samples == n
  {
    assert pts[..|pts|] == pts;
    GroupSize(pts, |pts|, hour);
  }
}
