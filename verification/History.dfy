/** The health_history table (store/store.go): one row per host and second. Times are Unix seconds. */
module History {
  import opened Ascents

  datatype Record = Record(state: string, crit: nat, warn: nat, summary: string)

  /** Primary key (host, at). */
  type Table = map<(string, int), Record>

  datatype Point = Point(at: int, state: string, crit: nat, warn: nat, summary: string)

  function RecordStep(rows: Table, host: string, at: int, r: Record): Table {
    rows[(host, at) := r]
  }

  function PurgeStep(rows: Table, now: int, keep: int): Table {
    map k | k in rows && k.1 >= now - keep :: rows[k]
  }

  class HealthStore {
    var rows: Table

    constructor ()
      ensures rows == map[]
    {
      rows := map[];
    }

    /** INSERT ... ON CONFLICT(host, at) DO UPDATE */
    method RecordHealth(host: string, at: int, r: Record)
      modifies this
      ensures rows == RecordStep(old(rows), host, at, r)
    {
      rows := rows[(host, at) := r];
    }

    /** DELETE ... WHERE at < now - keep */
    method PurgeHealthHistory(now: int, keep: int)
      modifies this
      ensures rows == PurgeStep(old(rows), now, keep)
    {
      var gone := set k | k in rows && k.1 < now - keep;
      rows := rows - gone;
    }
  }

  // ---- HealthSeries: the rows of a host from `since` on, oldest first ----

  function Times(rows: Table, host: string, since: int): set<int> {
    set k | k in rows && k.0 == host && k.1 >= since :: k.1
  }

  function PointAt(rows: Table, host: string, at: int): Point
    requires (host, at) in rows
  {
    var r := rows[(host, at)];
    Point(at, r.state, r.crit, r.warn, r.summary)
  }

  ghost function Series(rows: Table, host: string, since: int): (r: seq<Point>)
    ensures forall i, j :: 0 <= i < j < |r| ==> r[i].at < r[j].at
    ensures forall i :: 0 <= i < |r| ==> r[i].at >= since
  {
    var ats := Ascending(Times(rows, host, since));
    assert forall i :: 0 <= i < |ats| ==> ats[i] in Times(rows, host, since);
    seq(|ats|, i requires 0 <= i < |ats| =>
      assert ats[i] in Times(rows, host, since);
      PointAt(rows, host, ats[i]))
  }

  /** The series holds exactly the host's rows in the window. */
  lemma SeriesHoldsRows(rows: Table, host: string, since: int, p: Point)
    ensures p in Series(rows, host, since) <==>
              && p.at >= since && (host, p.at) in rows
              && rows[(host, p.at)] == Record(p.state, p.crit, p.warn, p.summary)
  {
    var ats := Ascending(Times(rows, host, since));
    var series := Series(rows, host, since);
    if p in series {
      var i :| 0 <= i < |series| && series[i] == p;
      assert ats[i] in Times(rows, host, since);
    }
    if p.at >= since && (host, p.at) in rows && p == PointAt(rows, host, p.at) {
      assert (host, p.at).1 in Times(rows, host, since);
      assert p.at in ats;
      var i :| 0 <= i < |ats| && ats[i] == p.at;
      assert series[i] == p;
    }
  }

  /** Two tables that agree on a host from `since` on give the same series. */
  ghost predicate AgreeFrom(a: Table, b: Table, host: string, since: int) {
    forall at {:trigger (host, at)} :: at >= since ==>
      ((host, at) in a <==> (host, at) in b) && ((host, at) in a && (host, at) in b ==> a[(host, at)] == b[(host, at)])
  }

  lemma SeriesDependsOnWindow(a: Table, b: Table, host: string, since: int)
    requires AgreeFrom(a, b, host, since)
    ensures Series(a, host, since) == Series(b, host, since)
  {
    forall t ensures t in Times(a, host, since) <==> t in Times(b, host, since) {
      assert t in Times(a, host, since) ==> (host, t) in a;
      assert t in Times(b, host, since) ==> (host, t) in b;
      if t >= since && (host, t) in a {
        assert (host, t) in b;
      }
    }
    assert Times(a, host, since) == Times(b, host, since);
    var ats := Ascending(Times(a, host, since));
    forall i | 0 <= i < |ats| ensures (host, ats[i]) in a && (host, ats[i]) in b
                                      && PointAt(a, host, ats[i]) == PointAt(b, host, ats[i]) {
      assert ats[i] in Times(a, host, since);
    }
  }

  // ---- Retention ----

  datatype Op = Write(host: string, at: int, record: Record) | Purge(at: int)

  /** The table with its purges, and the one that forgets nothing. */
  function Replay(ops: seq<Op>, keep: int): (Table, Table) {
    if ops == [] then (map[], map[])
    else
      var (kept, full) := Replay(ops[..|ops| - 1], keep);
      match ops[|ops| - 1]
      case Write(host, at, r) => (RecordStep(kept, host, at, r), RecordStep(full, host, at, r))
      case Purge(at) => (PurgeStep(kept, at, keep), full)
  }

  /** The clock has not passed `now`. */
  ghost predicate Before(ops: seq<Op>, now: int) {
    forall i :: 0 <= i < |ops| ==> ops[i].at <= now
  }

  /** A purge is invisible from its horizon on. */
  lemma {:induction false} PurgeInvisible(ops: seq<Op>, keep: int, now: int, host: string, at: int)
    requires Before(ops, now) && at >= now - keep
    ensures var (kept, full) := Replay(ops, keep);
            && ((host, at) in kept <==> (host, at) in full)
            && ((host, at) in kept && (host, at) in full ==> kept[(host, at)] == full[(host, at)])
  {
    if ops != [] {
      PurgeInvisible(ops[..|ops| - 1], keep, now, host, at);
      assert ops[|ops| - 1].at <= now;
    }
  }

  /** A series whose window starts after the horizon is that of the never-purged history. */
  lemma RetainedSeriesIsFull(ops: seq<Op>, keep: int, now: int, host: string, since: int)
    requires Before(ops, now) && since >= now - keep
    ensures Series(Replay(ops, keep).0, host, since) == Series(Replay(ops, keep).1, host, since)
  {
    hide Series;
    var (kept, full) := Replay(ops, keep);
    forall at | at >= since
      ensures ((host, at) in kept <==> (host, at) in full)
      ensures (host, at) in kept && (host, at) in full ==> kept[(host, at)] == full[(host, at)]
    {
      PurgeInvisible(ops, keep, now, host, at);
    }
    assert AgreeFrom(kept, full, host, since);
    SeriesDependsOnWindow(kept, full, host, since);
  }
}
