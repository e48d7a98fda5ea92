/** The share of time a host spent in each state over fourteen days (collector/timeline.go, bars). */
module Bars {
  import opened History
  import opened Frieze

  const BAR_DAYS := 14

  /** Hours of the period. */
  const TOTAL := 24 * BAR_DAYS

  function BarsStart(now: int): int {
    Start(now, HOUR, BAR_DAYS * DAY)
  }

  // ---- Hourly slots: "" where nothing was measured ----

  function SlotName(rank: nat): string {
    if rank == 0 then "" else StateName(rank)
  }

  function SlotAt(pts: seq<Point>, start: int, i: nat): string {
    SlotName(Worst(Within(pts, Low(start, HOUR, i), start + i * HOUR + HOUR)))
  }

  lemma RankOfSlot(rank: nat)
    requires rank <= 3
    ensures Rank(SlotName(rank)) == rank
  {
  }

  lemma OneMoreInSlot(pts: seq<Point>, p: Point, start: int, i: nat)
    ensures var slot := SlotAt(pts, start, i);
            SlotAt(pts + [p], start, i) ==
            if Quot(p.at - start, HOUR) == i && Rank(p.state) > Rank(slot) then p.state else slot
  {
    hide Worst, Within, Quot, Low, Rank, SlotName, StateName;
    QuotInterval(p.at, start, HOUR, i);
    var lo, hi := Low(start, HOUR, i), start + i * HOUR + HOUR;
    WithinOneMore(pts, p, lo, hi);
    var inside := Within(pts, lo, hi);
    WorstOfOneMore(inside, p);
    WorstIs(inside);
    RankOfSlot(Worst(inside));
    if Rank(p.state) > Worst(inside) {
      NameOfRank(p.state);
      assert SlotName(Rank(p.state)) == p.state by { NameOfSlot(p.state); }
    }
  }

  lemma NameOfSlot(state: string)
    requires Rank(state) > 0
    ensures SlotName(Rank(state)) == state
  {
  }

  method FillSlots(pts: seq<Point>, start: int, total: nat) returns (slots: array<string>)
    ensures fresh(slots) && slots.Length == total
    ensures forall i :: 0 <= i < total ==> slots[i] == SlotAt(pts, start, i)
  {
    slots := new string[total];
    for i := 0 to total
      invariant forall j :: 0 <= j < i ==> slots[j] == SlotAt([], start, j)
    {
      slots[i] := "";
    }
    hide SlotAt, Quot;
    for k := 0 to |pts|
      invariant forall i :: 0 <= i < total ==> slots[i] == SlotAt(pts[..k], start, i)
    {
      var p := pts[k];
      var i := Quot(p.at - start, HOUR);
      assert pts[..k + 1] == pts[..k] + [p];
      forall j: nat
        ensures SlotAt(pts[..k + 1], start, j) ==
                if i == j && Rank(p.state) > Rank(SlotAt(pts[..k], start, j)) then p.state
                else SlotAt(pts[..k], start, j)
      {
        OneMoreInSlot(pts[..k], p, start, j);
      }
      if i < 0 || i >= total {
        continue;
      }
      if Rank(p.state) > Rank(slots[i]) {
        slots[i] := p.state;
      }
    }
    assert pts[..|pts|] == pts;
  }

  // ---- Percentages in binary64 ----

  const EPSILON := 1.0 / 9007199254740992.0

  /** What round-to-nearest promises on the range used here: a relative error of at most 2^-53, none on integers. */
  ghost predicate IsRounding(fl: real -> real) {
    forall x: real :: x == 0.0 || 0.000000001 <= x <= 1000000.0 ==>
      && x - x * EPSILON <= fl(x) <= x + x * EPSILON
      && (x.Floor as real == x ==> fl(x) == x)
  }

  /** int(float64(part) / float64(whole) * 100) */
  function Percent(fl: real -> real, part: nat, whole: nat): int
    requires whole > 0
  {
    fl(fl(part as real / whole as real) * 100.0).Floor
  }

  lemma Scales(x: real, y: real, w: real)
    requires w > 0.0
    ensures x * w <= y * w <==> x <= y
  {
    if x <= y {
      assert (y - x) * w >= 0.0;
    } else {
      assert (x - y) * w > 0.0;
    }
  }

  /** a <= x * w and so on, told from the quotient x = part / w. */
  lemma QuotientIs(c: real, part: real, w: real)
    requires w > 0.0
    ensures part / w * w == part
    ensures c * w <= part <==> c <= part / w
    ensures part <= c * w <==> part / w <= c
  {
    Scales(c, part / w, w);
    Scales(part / w, c, w);
  }

  lemma QuotientBounds(part: nat, whole: nat)
    requires part <= whole && 0 < whole <= 100000000
    ensures var x := part as real / whole as real;
            && x * whole as real == part as real
            && (part == 0 ==> x == 0.0) && (part == whole ==> x == 1.0)
            && (part > 0 ==> 0.00000001 <= x <= 1.0)
  {
    var p, w := part as real, whole as real;
    QuotientIs(0.0, p, w);
    QuotientIs(1.0, p, w);
    QuotientIs(0.00000001, p, w);
  }

  /** Two roundings move a percentage by very little. */
  lemma TwoRoundings(fl: real -> real, x: real)
    requires IsRounding(fl) && (x == 0.0 || 0.00000001 <= x <= 1.0)
    ensures var r := fl(fl(x) * 100.0);
            && x * 100.0 - 201.0 * EPSILON <= r <= x * 100.0 + 201.0 * EPSILON
            && (x == 0.0 ==> r == 0.0) && (x == 1.0 ==> r == 100.0)
  {
    assert x * EPSILON <= EPSILON;
    var y := fl(x) * 100.0;
    assert y * EPSILON <= 101.0 * EPSILON;
    assert (0.0).Floor as real == 0.0 && (1.0).Floor as real == 1.0 && (100.0).Floor as real == 100.0;
  }

  /** A percentage is the exact one rounded down, except that an exact whole percentage may lose one. */
  lemma PercentBracket(fl: real -> real, part: nat, whole: nat)
    requires IsRounding(fl) && part <= whole && 0 < whole <= 100000000
    ensures var p := Percent(fl, part, whole);
            0 <= p <= 100 && p * whole <= 100 * part <= (p + 1) * whole
    ensures part == 0 ==> Percent(fl, part, whole) == 0
    ensures part == whole ==> Percent(fl, part, whole) == 100
  {
    hide IsRounding;
    var x := part as real / whole as real;
    QuotientBounds(part, whole);
    TwoRoundings(fl, x);
    FloorBracket(fl(fl(x) * 100.0), x, part, whole);
  }

  lemma FloorBracket(r: real, x: real, part: nat, whole: nat)
    requires part <= whole && 0 < whole <= 100000000 && x * whole as real == part as real
    requires x * 100.0 - 201.0 * EPSILON <= r <= x * 100.0 + 201.0 * EPSILON
    ensures var p := r.Floor; p * whole <= 100 * part <= (p + 1) * whole
  {
    var p := r.Floor;
    var w := whole as real;
    var slack := 201.0 * EPSILON;
    Between(p as real, (p + 1) as real, r, x, slack, part as real, w);
    assert slack * w < 0.5 by { Scales(w, 100000000.0, slack); }
    Times(p, whole);
    Times(p + 1, whole);
    Nearly(p * whole, 100 * part, slack * w);
    Nearly(100 * part, (p + 1) * whole, slack * w);
  }

  lemma Times(a: int, b: int)
    ensures a as real * b as real == (a * b) as real
  {
  }

  lemma Nearly(a: int, b: int, e: real)
    requires a as real <= b as real + e && e < 1.0
    ensures a <= b
  {
  }

  lemma Between(p: real, q: real, r: real, x: real, slack: real, part: real, w: real)
    requires w > 0.0 && p <= r < q && x * 100.0 - slack <= r <= x * 100.0 + slack && x * w == part
    ensures p * w <= 100.0 * part + slack * w
    ensures 100.0 * part <= q * w + slack * w
  {
    Scales(p, x * 100.0 + slack, w);
    Scales(x * 100.0 - slack, q, w);
    assert (x * 100.0 + slack) * w == 100.0 * (x * w) + slack * w;
    assert (x * 100.0 - slack) * w == 100.0 * (x * w) - slack * w;
  }

  // ---- The bar ----

  datatype Bar = Bar(host: string, pctOK: int, pctWarn: int, pctCrit: int, measured: nat, total: nat, coverage: nat,
                     durOK: nat, durWarn: nat, durCrit: nat)

  function CountOf(slots: seq<string>, state: string): nat {
    if slots == [] then 0
    else CountOf(slots[..|slots| - 1], state) + if slots[|slots| - 1] == state then 1 else 0
  }

  /** The durations count the slots; the percentages are those of the measured hours, rounded so as to sum to 100. */
  ghost predicate IsBar(b: Bar, slots: seq<string>, fl: real -> real) {
    && b.total == |slots|
    && b.durOK == HOUR * CountOf(slots, "ok")
    && b.durWarn == HOUR * CountOf(slots, "warn")
    && b.durCrit == HOUR * CountOf(slots, "crit")
    && b.measured == CountOf(slots, "ok") + CountOf(slots, "warn") + CountOf(slots, "crit") <= b.total
    && 0 <= b.coverage <= 100
    && b.coverage == (if b.total > 0 then b.measured * 100 / b.total else 0)
    && (b.measured == 0 ==> b.pctOK == b.pctWarn == b.pctCrit == 0)
    && (b.measured > 0 ==>
          && b.pctCrit == Percent(fl, b.durCrit, b.durOK + b.durWarn + b.durCrit)
          && b.pctWarn == Percent(fl, b.durWarn, b.durOK + b.durWarn + b.durCrit)
          && ArePercentages(b, CountOf(slots, "ok"), CountOf(slots, "warn"), CountOf(slots, "crit")))
  }

  ghost predicate ArePercentages(b: Bar, oks: nat, warns: nat, crits: nat) {
    var n := oks + warns + crits;
    && 0 <= b.pctOK <= 100 && 0 <= b.pctWarn <= 100 && 0 <= b.pctCrit <= 100
    && b.pctOK + b.pctWarn + b.pctCrit == 100
    && b.pctCrit * n <= 100 * crits <= (b.pctCrit + 1) * n
    && b.pctWarn * n <= 100 * warns <= (b.pctWarn + 1) * n
    && b.pctOK * n - 2 * n <= 100 * oks <= b.pctOK * n
  }

  /** The durations in the quotient stand for the numbers of slots. */
  lemma SameQuotient(part: nat, whole: nat)
    requires whole > 0
    ensures (HOUR * part) as real / (HOUR * whole) as real == part as real / whole as real
  {
    var x, w := part as real / whole as real, (HOUR * whole) as real;
    assert x * whole as real == part as real;
    assert x * w == (HOUR * part) as real;
    var y := (HOUR * part) as real / w;
    assert y * w == (HOUR * part) as real;
    Scales(x, y, w);
    Scales(y, x, w);
  }

  /** The healthy share takes what the two roundings leave. */
  lemma SharesSumTo100(pctWarn: int, pctCrit: int, oks: nat, warns: nat, crits: nat)
    requires pctWarn >= 0 && pctCrit >= 0
    requires var n := oks + warns + crits;
             && n > 0
             && pctCrit * n <= 100 * crits <= (pctCrit + 1) * n
             && pctWarn * n <= 100 * warns <= (pctWarn + 1) * n
    ensures var n := oks + warns + crits;
            && pctWarn + pctCrit <= 100
            && (100 - pctCrit - pctWarn) * n - 2 * n <= 100 * oks <= (100 - pctCrit - pctWarn) * n
  {
    var n := oks + warns + crits;
    assert (pctWarn + pctCrit) * n == pctWarn * n + pctCrit * n;
    assert (pctWarn + 1) * n == pctWarn * n + n && (pctCrit + 1) * n == pctCrit * n + n;
    assert (100 - pctCrit - pctWarn) * n == 100 * n - pctCrit * n - pctWarn * n;
    CancelFactor(pctWarn + pctCrit, 100, n);
  }

  /** The loop over the slots. */
  method Durations(slots: seq<string>) returns (durOK: nat, durWarn: nat, durCrit: nat)
    ensures durOK == HOUR * CountOf(slots, "ok") && durWarn == HOUR * CountOf(slots, "warn")
    ensures durCrit == HOUR * CountOf(slots, "crit")
    ensures CountOf(slots, "ok") + CountOf(slots, "warn") + CountOf(slots, "crit") <= |slots|
  {
    durOK, durWarn, durCrit := 0, 0, 0;
    for k := 0 to |slots|
      invariant durOK == HOUR * CountOf(slots[..k], "ok") && durWarn == HOUR * CountOf(slots[..k], "warn")
      invariant durCrit == HOUR * CountOf(slots[..k], "crit")
      invariant CountOf(slots[..k], "ok") + CountOf(slots[..k], "warn") + CountOf(slots[..k], "crit") <= k
    {
      assert slots[..k + 1][..k] == slots[..k];
      if slots[k] == "ok" {
        durOK := durOK + HOUR;
      } else if slots[k] == "warn" {
        durWarn := durWarn + HOUR;
      } else if slots[k] == "crit" {
        durCrit := durCrit + HOUR;
      }
    }
    assert slots[..|slots|] == slots;
  }

  /** `fl` is the rounding of the machine. */
  method MakeBar(host: string, slots: seq<string>, fl: real -> real) returns (b: Bar)
    requires IsRounding(fl) && |slots| <= 100000000
    ensures b.host == host && IsBar(b, slots, fl)
  {
    hide CountOf, IsRounding, Percent;
    var durOK, durWarn, durCrit := Durations(slots);
    var dur := durOK + durWarn + durCrit;
    var measured := dur / HOUR;
    ghost var oks, warns, crits := CountOf(slots, "ok"), CountOf(slots, "warn"), CountOf(slots, "crit");
    assert measured == oks + warns + crits && dur == HOUR * measured;
    var pctOK, pctWarn, pctCrit, coverage := 0, 0, 0, 0;
    if measured > 0 {
      pctCrit := Percent(fl, durCrit, dur);
      pctWarn := Percent(fl, durWarn, dur);
      pctOK := 100 - pctCrit - pctWarn;
      PercentOfDurations(fl, crits, measured);
      PercentOfDurations(fl, warns, measured);
      SharesSumTo100(pctWarn, pctCrit, oks, warns, crits);
    }
    if |slots| > 0 {
      ShareIsPercentage(measured, |slots|);
      coverage := measured * 100 / |slots|;
    }
    b := Bar(host, pctOK, pctWarn, pctCrit, measured, |slots|, coverage, durOK, durWarn, durCrit);
  }

  lemma PercentOfDurations(fl: real -> real, part: nat, whole: nat)
    requires IsRounding(fl) && part <= whole && 0 < whole <= 100000000
    ensures var p := Percent(fl, HOUR * part, HOUR * whole);
            0 <= p <= 100 && p * whole <= 100 * part <= (p + 1) * whole
  {
    SameQuotient(part, whole);
    PercentBracket(fl, part, whole);
  }

  /** A host's bar, from its points. */
  method BarOf(host: string, pts: seq<Point>, now: int, fl: real -> real) returns (b: Bar, slots: seq<string>)
    requires IsRounding(fl)
    ensures |slots| == TOTAL && forall i :: 0 <= i < TOTAL ==> slots[i] == SlotAt(pts, BarsStart(now), i)
    ensures b.host == host && IsBar(b, slots, fl)
  {
    hide SlotAt, IsRounding, IsBar;
    var cells := FillSlots(pts, BarsStart(now), TOTAL);
    slots := cells[..];
    b := MakeBar(host, slots, fl);
  }
}
