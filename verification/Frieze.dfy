/** The frieze of the history page (collector/timeline.go): windows, cells and their counts.
    Times are Unix seconds; `now` is one reading of the clock. */
module Frieze {
  import opened History

  const HOUR := 3600
  const DAY := 86400

  // ---- Windows ----

  datatype Window = Window(key: string, duration: int, bucket: int)

  const WINDOWS := [Window("24h", DAY, HOUR), Window("7j", 7 * DAY, 4 * HOUR), Window("14j", 14 * DAY, 6 * HOUR)]

  /** An unknown key falls back on the first window. */
  method WindowByKey(key: string) returns (w: Window)
    ensures w in WINDOWS
    ensures (exists v :: v in WINDOWS && v.key == key) <==> w.key == key
    ensures w.key != key ==> w.duration == DAY
  {
    for i := 0 to |WINDOWS|
      invariant forall j :: 0 <= j < i ==> WINDOWS[j].key != key
    {
      if WINDOWS[i].key == key {
        return WINDOWS[i];
      }
    }
    return WINDOWS[0];
  }

  /** January 1, year 1: where time.Truncate counts from. */
  const YEAR_ONE := -62135596800

  function Truncate(t: int, d: int): int
    requires d > 0
  {
    t - (t - YEAR_ONE) % d
  }

  function End(now: int, step: int): int
    requires step > 0
  {
    Truncate(now, step) + step
  }

  function Start(now: int, step: int, duration: int): int
    requires step > 0
  {
    End(now, step) - duration
  }

  predicate IsStep(step: int) {
    step == HOUR || step == 4 * HOUR || step == 6 * HOUR
  }

  /** Year 1 is a whole number of steps before 1970, so that intervals fall on the hours of the Unix clock,
      and the current instant is in the last one. */
  lemma IntervalsFallOnHours(now: int, step: int)
    requires IsStep(step)
    ensures End(now, step) % step == 0 && End(now, step) % HOUR == 0
    ensures End(now, step) - step <= now < End(now, step)
  {
    var years := YEAR_ONE / step;
    var q := (now - YEAR_ONE) / step + years + 1;
    assert YEAR_ONE == step * years;
    assert End(now, step) == q * step by {
      assert now - YEAR_ONE == step * (q - years - 1) + (now - YEAR_ONE) % step;
      assert step * (q - years - 1) == q * step - step * years - step;
    }
    MultipleOf(q, step);
    MultipleOf(q * (step / HOUR), HOUR);
    assert q * (step / HOUR) * HOUR == q * step;
  }

  lemma MultipleOf(q: int, d: int)
    requires d > 0
    ensures q * d % d == 0
  {
    DivIs(q * d, d, q);
  }

  // ---- Ranks ----

  /** A missing key of the rank table reads 0. */
  function Rank(state: string): (r: nat)
    ensures r <= 3
  {
    if state == "crit" then 3 else if state == "warn" then 2 else if state == "ok" then 1 else 0
  }

  function StateName(rank: nat): string {
    if rank == 3 then "crit" else if rank == 2 then "warn" else if rank == 1 then "ok" else "unknown"
  }

  /** The worst rank among some points. */
  function Worst(pts: seq<Point>): nat {
    if pts == [] then 0
    else
      var before := Worst(pts[..|pts| - 1]);
      var rank := Rank(pts[|pts| - 1].state);
      if rank > before then rank else before
  }

  lemma {:induction false} WorstIs(pts: seq<Point>)
    ensures Worst(pts) <= 3
    ensures forall p :: p in pts ==> Rank(p.state) <= Worst(pts)
    ensures Worst(pts) > 0 ==> exists p :: p in pts && Rank(p.state) == Worst(pts)
  {
    if pts != [] {
      var last := pts[|pts| - 1];
      WorstIs(pts[..|pts| - 1]);
      assert forall p :: p in pts <==> p in pts[..|pts| - 1] || p == last;
    }
  }

  /** What the cell's title quotes. */
  function Cause(pts: seq<Point>): string {
    if pts == [] then ""
    else
      var before := pts[..|pts| - 1];
      if Rank(pts[|pts| - 1].state) > Worst(before) then pts[|pts| - 1].summary else Cause(before)
  }

  /** ... is the summary of the first point that reached the worst rank. */
  lemma {:induction false} CauseIs(pts: seq<Point>) returns (i: nat)
    ensures Worst(pts) == 0 ==> Cause(pts) == ""
    ensures Worst(pts) > 0 ==>
              && i < |pts| && Rank(pts[i].state) == Worst(pts) && Cause(pts) == pts[i].summary
              && forall j :: 0 <= j < i ==> Rank(pts[j].state) < Worst(pts)
  {
    i := 0;
    if pts != [] {
      var before := pts[..|pts| - 1];
      if Rank(pts[|pts| - 1].state) > Worst(before) {
        i := |pts| - 1;
        WorstIs(before);
        assert forall j :: 0 <= j < i ==> pts[j] in before;
      } else {
        i := CauseIs(before);
        assert forall j :: 0 <= j < i && i < |before| ==> before[j] == pts[j];
      }
    }
  }

  /** The points of [lo, hi), in order. */
  function Within(pts: seq<Point>, lo: int, hi: int): seq<Point> {
    if pts == [] then []
    else
      var last := pts[|pts| - 1];
      Within(pts[..|pts| - 1], lo, hi) + if lo <= last.at < hi then [last] else []
  }

  lemma {:induction false} WithinHas(pts: seq<Point>, lo: int, hi: int, p: Point)
    ensures p in Within(pts, lo, hi) <==> p in pts && lo <= p.at < hi
  {
    if pts != [] {
      WithinHas(pts[..|pts| - 1], lo, hi, p);
      assert pts == pts[..|pts| - 1] + [pts[|pts| - 1]];
    }
  }

  /** Go's integer division truncates toward zero. */
  function Quot(a: int, b: int): int
    requires b > 0
  {
    if a >= 0 then a / b else -(-a / b)
  }

  /** The first second of interval i: truncation makes the first one reach almost a whole step before `start`. */
  function Low(start: int, step: int, i: nat): int {
    if i == 0 then start - step + 1 else start + i * step
  }

  lemma QuotInterval(at: int, start: int, step: int, i: nat)
    requires step > 0
    ensures Quot(at - start, step) == i <==> Low(start, step, i) <= at < start + i * step + step
  {
    var a := at - start;
    if a >= 0 {
      DivIs(a, step, i);
    } else {
      assert i * step >= 0;
      DivIs(-a, step, 0);
      assert Quot(a, step) <= 0;
    }
  }

  lemma DivIs(a: int, step: int, i: int)
    requires step > 0
    ensures a / step == i <==> i * step <= a < i * step + step
  {
    var q := a / step;
    assert a == q * step + a % step;
    if q < i {
      assert (q + 1) * step <= i * step;
    } else if q > i {
      assert (i + 1) * step <= q * step;
    }
  }

  // ---- The frieze ----

  datatype Cell = Cell(from: int, state: string, samples: nat, cause: string)

  datatype Row = Row(name: string, cells: seq<Cell>, oks: nat, warns: nat, crits: nat, gaps: nat, coverage: nat)

  function CellOf(pts: seq<Point>, from: int, lo: int, hi: int): Cell {
    var inside := Within(pts, lo, hi);
    Cell(from, StateName(Worst(inside)), |inside|, Cause(inside))
  }

  function CellAt(pts: seq<Point>, start: int, step: int, i: nat): Cell {
    CellOf(pts, start + i * step, Low(start, step, i), start + i * step + step)
  }

  /** What the loop body does to the cell the point falls in. */
  function Darken(cell: Cell, p: Point): Cell {
    if Rank(p.state) > Rank(cell.state) then Cell(cell.from, p.state, cell.samples + 1, p.summary)
    else cell.(samples := cell.samples + 1)
  }

  lemma WorstOfOneMore(pts: seq<Point>, p: Point)
    ensures Worst(pts + [p]) == if Rank(p.state) > Worst(pts) then Rank(p.state) else Worst(pts)
    ensures Cause(pts + [p]) == if Rank(p.state) > Worst(pts) then p.summary else Cause(pts)
  {
    assert (pts + [p])[..|pts|] == pts;
  }

  lemma WithinOneMore(pts: seq<Point>, p: Point, lo: int, hi: int)
    ensures Within(pts + [p], lo, hi) == if lo <= p.at < hi then Within(pts, lo, hi) + [p] else Within(pts, lo, hi)
  {
    assert (pts + [p])[..|pts|] == pts;
  }

  lemma RankOfName(rank: nat)
    requires rank <= 3
    ensures Rank(StateName(rank)) == rank
  {
  }

  lemma NameOfRank(state: string)
    requires Rank(state) > 0
    ensures StateName(Rank(state)) == state
  {
  }

  /** One more point changes its own interval's cell, as the loop does, and no other. */
  lemma OneMorePoint(pts: seq<Point>, p: Point, start: int, step: int, i: nat)
    requires step > 0
    ensures var cell := CellAt(pts, start, step, i);
            CellAt(pts + [p], start, step, i) ==
            if Quot(p.at - start, step) == i then Darken(cell, p) else cell
  {
    hide Worst, Cause, Within, Quot, Low, Rank, StateName;
    QuotInterval(p.at, start, step, i);
    var lo, hi := Low(start, step, i), start + i * step + step;
    WithinOneMore(pts, p, lo, hi);
    var inside := Within(pts, lo, hi);
    WorstOfOneMore(inside, p);
    WorstIs(inside);
    RankOfName(Worst(inside));
    if Rank(p.state) > Worst(inside) {
      NameOfRank(p.state);
    }
  }

  method FillCells(pts: seq<Point>, start: int, step: int, buckets: nat) returns (cells: array<Cell>)
    requires step > 0
    ensures fresh(cells) && cells.Length == buckets
    ensures forall i :: 0 <= i < buckets ==> cells[i] == CellAt(pts, start, step, i)
  {
    cells := new Cell[buckets];
    for i := 0 to buckets
      invariant forall j :: 0 <= j < i ==> cells[j] == CellAt([], start, step, j)
    {
      cells[i] := Cell(start + i * step, "unknown", 0, "");
    }
    hide CellAt, Quot;
    for k := 0 to |pts|
      invariant forall i :: 0 <= i < buckets ==> cells[i] == CellAt(pts[..k], start, step, i)
    {
      var p := pts[k];
      var i := Quot(p.at - start, step);
      assert pts[..k + 1] == pts[..k] + [p];
      forall j: nat
        ensures CellAt(pts[..k + 1], start, step, j) ==
                if i == j then Darken(CellAt(pts[..k], start, step, j), p) else CellAt(pts[..k], start, step, j)
      {
        OneMorePoint(pts[..k], p, start, step, j);
      }
      if i < 0 || i >= buckets {
        continue;
      }
      cells[i] := cells[i].(samples := cells[i].samples + 1);
      if Rank(p.state) > Rank(cells[i].state) {
        cells[i] := cells[i].(state := p.state, cause := p.summary);
      }
    }
    assert pts[..|pts|] == pts;
  }

  ghost predicate AreCells(cells: seq<Cell>, pts: seq<Point>, start: int, step: int) {
    forall i :: 0 <= i < |cells| ==> cells[i] == CellAt(pts, start, step, i)
  }

  /** How many cells have a given rank. */
  function Count(cells: seq<Cell>, rank: nat): nat {
    if cells == [] then 0
    else Count(cells[..|cells| - 1], rank) + if Rank(cells[|cells| - 1].state) == rank then 1 else 0
  }

  /** The row a host's points deserve. */
  ghost predicate IsRow(r: Row, pts: seq<Point>, start: int, step: int, buckets: nat) {
    && |r.cells| == buckets && AreCells(r.cells, pts, start, step)
    && r.crits == Count(r.cells, 3) && r.warns == Count(r.cells, 2) && r.oks == Count(r.cells, 1)
    && r.oks + r.warns + r.crits + r.gaps == buckets
    && r.coverage == if buckets > 0 then (buckets - r.gaps) * 100 / buckets else 0
  }

  /** The four counts, in one pass over the cells. */
  method Tally(cells: seq<Cell>) returns (oks: nat, warns: nat, crits: nat, gaps: nat)
    ensures oks == Count(cells, 1) && warns == Count(cells, 2) && crits == Count(cells, 3)
    ensures oks + warns + crits + gaps == |cells|
  {
    oks, warns, crits, gaps := 0, 0, 0, 0;
    for k := 0 to |cells|
      invariant oks == Count(cells[..k], 1) && warns == Count(cells[..k], 2) && crits == Count(cells[..k], 3)
      invariant oks + warns + crits + gaps == k
    {
      assert cells[..k + 1][..k] == cells[..k];
      if cells[k].state == "ok" {
        oks := oks + 1;
      } else if cells[k].state == "warn" {
        warns := warns + 1;
      } else if cells[k].state == "crit" {
        crits := crits + 1;
      } else {
        gaps := gaps + 1;
      }
    }
    assert cells[..|cells|] == cells;
  }

  lemma CancelFactor(a: int, b: int, w: int)
    requires w > 0 && a * w <= b * w
    ensures a <= b
  {
    var d := a - b;
    assert d * w == a * w - b * w;
    assert d >= 1 ==> d * w >= 1 * w;
  }

  lemma ShareIsPercentage(part: nat, whole: nat)
    requires part <= whole && whole > 0
    ensures 0 <= part * 100 / whole <= 100
  {
    var q := part * 100 / whole;
    assert q * whole <= part * 100 < (q + 1) * whole by { DivIs(part * 100, whole, q); }
    CancelFactor(q, 100, whole);
    CancelFactor(0, q + 1, whole);
  }

  method MakeRow(name: string, pts: seq<Point>, start: int, step: int, buckets: nat) returns (r: Row)
    requires step > 0
    ensures r.name == name && IsRow(r, pts, start, step, buckets)
    ensures 0 <= r.coverage <= 100
  {
    hide CellAt, Count;
    var cells := FillCells(pts, start, step, buckets);
    var oks, warns, crits, gaps := Tally(cells[..]);
    var coverage := 0;
    if buckets > 0 {
      ShareIsPercentage(buckets - gaps, buckets);
      coverage := (buckets - gaps) * 100 / buckets;
    }
    r := Row(name, cells[..], oks, warns, crits, gaps, coverage);
  }

  // ---- What the cells mean ----

  /** HealthSeries returns nothing older than the start of the window. */
  ghost predicate From(pts: seq<Point>, start: int) {
    forall p :: p in pts ==> p.at >= start
  }

  lemma {:induction false} WithinSame(pts: seq<Point>, lo: int, from: int, hi: int)
    requires From(pts, from) && lo <= from
    ensures Within(pts, lo, hi) == Within(pts, from, hi)
  {
    if pts != [] {
      var before := pts[..|pts| - 1];
      assert forall p :: p in before ==> p in pts;
      assert pts[|pts| - 1] in pts;
      WithinSame(before, lo, from, hi);
    }
  }

  /** The first interval is exact only because the series starts at `start`. */
  lemma CellCoversInterval(pts: seq<Point>, start: int, step: int, i: nat)
    requires step > 0 && From(pts, start)
    ensures CellAt(pts, start, step, i) == CellOf(pts, start + i * step, start + i * step, start + i * step + step)
  {
    if i == 0 {
      WithinSame(pts, Low(start, step, 0), start, start + step);
    }
  }

  /** A cell is at least as bad as every point of its interval, and takes its state from one of them. */
  lemma CellIsWorst(pts: seq<Point>, start: int, step: int, i: nat)
    requires step > 0 && From(pts, start)
    ensures var cell := CellAt(pts, start, step, i);
            && (forall p :: p in pts && cell.from <= p.at < cell.from + step ==> Rank(p.state) <= Rank(cell.state))
            && (cell.state != "unknown" ==>
                  exists p :: p in pts && cell.from <= p.at < cell.from + step && p.state == cell.state)
  {
    hide Within, Worst, Cause, Low;
    CellCoversInterval(pts, start, step, i);
    var from := start + i * step;
    var inside := Within(pts, from, from + step);
    WorstIs(inside);
    RankOfName(Worst(inside));
    forall p: Point ensures p in inside <==> p in pts && from <= p.at < from + step {
      WithinHas(pts, from, from + step, p);
    }
    if Worst(inside) > 0 {
      var p :| p in inside && Rank(p.state) == Worst(inside);
      NameOfRank(p.state);
    }
  }

  lemma {:induction false} WithinCounts(pts: seq<Point>, lo: int, hi: int, p: Point)
    ensures multiset(Within(pts, lo, hi))[p] == if lo <= p.at < hi then multiset(pts)[p] else 0
  {
    if pts != [] {
      WithinCounts(pts[..|pts| - 1], lo, hi, p);
      assert pts == pts[..|pts| - 1] + [pts[|pts| - 1]];
    }
  }

  lemma WorstOfSame(a: seq<Point>, b: seq<Point>)
    requires forall p :: p in a <==> p in b
    ensures Worst(a) == Worst(b)
  {
    WorstIs(a);
    WorstIs(b);
  }

  /** Neither the state nor the number of samples of a cell depends on the order of the points. */
  lemma CellIgnoresOrder(a: seq<Point>, b: seq<Point>, start: int, step: int, i: nat)
    requires step > 0 && multiset(a) == multiset(b)
    ensures CellAt(a, start, step, i).state == CellAt(b, start, step, i).state
    ensures CellAt(a, start, step, i).samples == CellAt(b, start, step, i).samples
  {
    hide Within, Worst, Cause, Low;
    var lo, hi := Low(start, step, i), start + i * step + step;
    var x, y := Within(a, lo, hi), Within(b, lo, hi);
    forall p: Point ensures multiset(x)[p] == multiset(y)[p] {
      WithinCounts(a, lo, hi, p);
      WithinCounts(b, lo, hi, p);
    }
    assert multiset(x) == multiset(y);
    assert |x| == |multiset(x)| && |y| == |multiset(y)|;
    forall p: Point ensures p in x <==> p in y {
      assert p in x <==> multiset(x)[p] > 0;
      assert p in y <==> multiset(y)[p] > 0;
    }
    WorstOfSame(x, y);
  }

  function Samples(cells: seq<Cell>): nat {
    if cells == [] then 0 else Samples(cells[..|cells| - 1]) + cells[|cells| - 1].samples
  }

  lemma {:induction false} WithinSplits(pts: seq<Point>, a: int, b: int, c: int)
    requires a <= b <= c
    ensures |Within(pts, a, b)| + |Within(pts, b, c)| == |Within(pts, a, c)|
  {
    if pts != [] {
      WithinSplits(pts[..|pts| - 1], a, b, c);
    }
  }

  /** The samples of a row are the points of its window: none is lost, none is counted twice. */
  lemma {:induction false} SamplesAreConserved(cells: seq<Cell>, pts: seq<Point>, start: int, step: int)
    requires step > 0 && From(pts, start) && AreCells(cells, pts, start, step)
    ensures Samples(cells) == |Within(pts, start, start + |cells| * step)|
    decreases |cells|
  {
    hide CellAt, Within;
    if cells == [] {
      NothingWithin(pts, start);
    } else {
      var n := |cells| - 1;
      SamplesAreConserved(cells[..n], pts, start, step);
      SamplesOfCell(pts, start, step, n);
      var from := start + n * step;
      assert start + |cells| * step == from + step && from >= start by { Distribute(n, step); }
      WithinSplits(pts, start, from, from + step);
    }
  }

  lemma Distribute(n: nat, step: nat)
    ensures (n + 1) * step == n * step + step && n * step >= 0
  {
  }

  lemma SamplesOfCell(pts: seq<Point>, start: int, step: int, i: nat)
    requires step > 0 && From(pts, start)
    ensures CellAt(pts, start, step, i).samples == |Within(pts, start + i * step, start + i * step + step)|
  {
    CellCoversInterval(pts, start, step, i);
  }

  lemma {:induction false} NothingWithin(pts: seq<Point>, at: int)
    ensures Within(pts, at, at) == []
  {
    if pts != [] {
      NothingWithin(pts[..|pts| - 1], at);
    }
  }

  // ---- Cells and counts, told from the points alone ----

  /** Some point of [lo, hi) has this state. */
  ghost predicate Sees(pts: seq<Point>, lo: int, hi: int, state: string) {
    exists p :: p in pts && lo <= p.at < hi && p.state == state
  }

  ghost function PointsIn(pts: seq<Point>, n: nat, lo: int, hi: int): set<nat>
    requires n <= |pts|
  {
    set k: nat | k < n && lo <= pts[k].at < hi
  }

  /** Cell i is critical if its interval has a critical point, otherwise to watch if it has a point to watch, otherwise
      ok if it has an ok point, otherwise unknown; and it counts the points of its interval. */
  lemma CellTells(pts: seq<Point>, start: int, step: int, i: nat)
    requires step > 0 && From(pts, start)
    ensures var cell, lo, hi := CellAt(pts, start, step, i), start + i * step, start + i * step + step;
            && cell.from == lo && cell.samples == |PointsIn(pts, |pts|, lo, hi)|
            && cell.state == if Sees(pts, lo, hi, "crit") then "crit"
                             else if Sees(pts, lo, hi, "warn") then "warn"
                             else if Sees(pts, lo, hi, "ok") then "ok" else "unknown"
  {
    hide Within, Worst, Cause, Low;
    var lo, hi := start + i * step, start + i * step + step;
    CellIsWorst(pts, start, step, i);
    SamplesOfCell(pts, start, step, i);
    WithinSize(pts, |pts|, lo, hi);
    assert pts[..|pts|] == pts;
    CellIsNamed(pts, start, step, i);
  }

  /** The state of a cell is one of the four names. */
  lemma CellIsNamed(pts: seq<Point>, start: int, step: int, i: nat)
    requires step > 0
    ensures var state := CellAt(pts, start, step, i).state; state == StateName(Rank(state))
  {
    WorstIs(Within(pts, Low(start, step, i), start + i * step + step));
  }

  lemma PointsInStep(pts: seq<Point>, n: nat, lo: int, hi: int)
    requires n < |pts|
    ensures |PointsIn(pts, 0, lo, hi)| == 0
    ensures |PointsIn(pts, n + 1, lo, hi)| == |PointsIn(pts, n, lo, hi)| + if lo <= pts[n].at < hi then 1 else 0
  {
    var before := PointsIn(pts, n, lo, hi);
    assert PointsIn(pts, 0, lo, hi) == {};
    assert PointsIn(pts, n + 1, lo, hi) == if lo <= pts[n].at < hi then before + {n} else before;
  }

  lemma {:induction false} WithinSize(pts: seq<Point>, n: nat, lo: int, hi: int)
    requires n <= |pts|
    ensures |Within(pts[..n], lo, hi)| == |PointsIn(pts, n, lo, hi)|
  {
    if n > 0 {
      hide Within, PointsIn;
      WithinSize(pts, n - 1, lo, hi);
      assert pts[..n] == pts[..n - 1] + [pts[n - 1]];
      WithinOneMore(pts[..n - 1], pts[n - 1], lo, hi);
      PointsInStep(pts, n - 1, lo, hi);
    } else {
      assert PointsIn(pts, n, lo, hi) == {};
    }
  }

  /** The cells before n that are in a state. */
  ghost function CellsIn(cells: seq<Cell>, n: nat, state: string): set<nat>
    requires n <= |cells|
  {
    set i: nat | i < n && cells[i].state == state
  }

  lemma {:induction false} CountUpTo(cells: seq<Cell>, n: nat, state: string)
    requires n <= |cells| && Rank(state) > 0
    ensures Count(cells[..n], Rank(state)) == |CellsIn(cells, n, state)|
  {
    if n == 0 {
      assert CellsIn(cells, n, state) == {};
    } else {
      CountUpTo(cells, n - 1, state);
      assert cells[..n][..n - 1] == cells[..n - 1];
      var before := CellsIn(cells, n - 1, state);
      assert CellsIn(cells, n, state) == if cells[n - 1].state == state then before + {n - 1} else before;
    }
  }

  /** The counts of a row are numbers of cells; the gaps are the others, and the coverage is the share of cells that are
      not gaps. */
  lemma RowCounts(r: Row, pts: seq<Point>, start: int, step: int, buckets: nat)
    requires step > 0 && IsRow(r, pts, start, step, buckets)
    ensures r.oks == |CellsIn(r.cells, buckets, "ok")| && r.warns == |CellsIn(r.cells, buckets, "warn")|
    ensures r.crits == |CellsIn(r.cells, buckets, "crit")|
    ensures r.gaps == buckets - r.oks - r.warns - r.crits
    ensures buckets > 0 ==> r.coverage == (r.oks + r.warns + r.crits) * 100 / buckets
  {
    hide AreCells;
    assert r.cells[..buckets] == r.cells;
    CountUpTo(r.cells, buckets, "ok");
    CountUpTo(r.cells, buckets, "warn");
    CountUpTo(r.cells, buckets, "crit");
  }
}
