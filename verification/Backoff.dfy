/** The spacing of collection attempts on a host that fails (collector/collector.go).
    Times and durations are 64-bit counts of nanoseconds. */
module Backoff {
  import opened Ascents

  /** Six hours. */
  const MAX_BACKOFF := 21_600_000_000_000
  const TWO63 := 0x8000_0000_0000_0000
  const TWO64 := 0x1_0000_0000_0000_0000

  datatype Entry = Entry(fails: nat, nextTry: int)

  function Power2(k: nat): nat {
    if k == 0 then 1 else 2 * Power2(k - 1)
  }

  function Wrap64(v: int): int {
    (v + TWO63) % TWO64 - TWO63
  }

  function Min(a: nat, b: nat): nat {
    if a < b then a else b
  }

  /** interval << min(fails, 8), capped: what noteFailure computes, on 64 bits. */
  function Delay(interval: int, fails: nat): int {
    var d := Wrap64(interval * Power2(Min(fails, 8)));
    if d > MAX_BACKOFF then MAX_BACKOFF else d
  }

  /** The intended delay. */
  function Capped(interval: int, fails: nat): int {
    var d := interval * Power2(Min(fails, 8));
    if d > MAX_BACKOFF then MAX_BACKOFF else d
  }

  predicate DueAt(bo: map<string, Entry>, host: string, now: int) {
    host !in bo || now > bo[host].nextTry
  }

  function FailStep(bo: map<string, Entry>, interval: int, host: string, now: int): map<string, Entry> {
    var fails := (if host in bo then bo[host].fails else 0) + 1;
    bo[host := Entry(fails, now + Delay(interval, fails))]
  }

  function SucceedStep(bo: map<string, Entry>, host: string): map<string, Entry> {
    bo - {host}
  }

  class BackoffTable {
    const interval: int
    var bo: map<string, Entry>

    constructor (interval: int)
      ensures this.interval == interval && bo == map[]
    {
      this.interval, bo := interval, map[];
    }

    method Due(host: string, now: int) returns (due: bool)
      ensures due == DueAt(bo, host, now)
    {
      if host !in bo {
        return true;
      }
      due := now > bo[host].nextTry;
    }

    method NoteFailure(host: string, now: int) returns (d: int)
      modifies this
      ensures bo == FailStep(old(bo), interval, host, now)
      ensures d == Delay(interval, bo[host].fails)
    {
      var b := if host in bo then bo[host] else Entry(0, 0);
      b := b.(fails := b.fails + 1);
      d := Wrap64(interval * Power2(Min(b.fails, 8)));
      if d > MAX_BACKOFF {
        d := MAX_BACKOFF;
      }
      b := b.(nextTry := now + d);
      bo := bo[host := b];
    }

    method NoteSuccess(host: string)
      modifies this
      ensures bo == SucceedStep(old(bo), host)
    {
      bo := bo - {host};
    }
  }

  // ---- The delays ----

  lemma {:induction false} Power2Bounds(k: nat)
    requires k <= 8
    ensures 1 <= Power2(k) <= 256
    ensures k > 0 ==> Power2(k) == 2 * Power2(k - 1)
  {
    if k > 0 {
      Power2Bounds(k - 1);
      Power2AtMost(k, 8);
    }
  }

  lemma {:induction false} Power2AtMost(k: nat, n: nat)
    requires k <= n
    ensures 1 <= Power2(k) <= Power2(n) && Power2(8) == 256
    decreases n
  {
    assert Power2(4) == 16;
    if k < n {
      Power2AtMost(k, n - 1);
    } else if k > 0 {
      Power2AtMost(k - 1, k - 1);
    }
  }

  lemma WrapIsIdentity(v: int)
    requires -TWO63 <= v < TWO63
    ensures Wrap64(v) == v
  {
  }

  /** The delay is the intended one exactly when the shift does not overflow, or overflows to something
      the cap still catches. */
  lemma DelayIsCapped(interval: int, fails: nat)
    requires 0 < interval < TWO63
    ensures var product := interval * Power2(Min(fails, 8));
            Delay(interval, fails) == Capped(interval, fails) <==> (product < TWO63 || Wrap64(product) >= MAX_BACKOFF)
  {
    var m := Min(fails, 8);
    Power2Bounds(m);
    ScaleUp(interval, 1, Power2(m));
    var product := interval * Power2(m);
    if product < TWO63 {
      WrapIsIdentity(product);
    }
  }

  lemma ScaleUp(a: int, p: int, q: int)
    requires a > 0 && p <= q
    ensures a * p <= a * q
  {
    assert a * q == a * p + a * (q - p);
  }

  /** An interval of 2^55 ns (about 417 days) is the first that overflows; the delay is then negative. */
  lemma OverflowingInterval()
    ensures Delay(0x80_0000_0000_0000, 8) == -TWO63 && Capped(0x80_0000_0000_0000, 8) == MAX_BACKOFF
  {
    assert Power2(4) == 16;
    assert Power2(8) == 256;
  }

  predicate Reasonable(interval: int) {
    0 < interval < 0x80_0000_0000_0000
  }

  /** For every shorter interval the delays are min(interval * 2^min(k, 8), 6h), and do not decrease. */
  lemma DelaysGrow(interval: int, j: nat, k: nat)
    requires Reasonable(interval) && j <= k
    ensures Delay(interval, k) == Capped(interval, k)
    ensures 0 < Delay(interval, j) <= Delay(interval, k) <= MAX_BACKOFF
  {
    hide Power2, Wrap64;
    NoOverflow(interval, Min(j, 8));
    NoOverflow(interval, Min(k, 8));
    Power2AtMost(Min(j, 8), Min(k, 8));
    ScaleUp(interval, Power2(Min(j, 8)), Power2(Min(k, 8)));
  }

  lemma NoOverflow(interval: int, m: nat)
    requires Reasonable(interval) && m <= 8
    ensures 0 < interval * Power2(m) < TWO63
    ensures Wrap64(interval * Power2(m)) == interval * Power2(m)
  {
    hide Power2, Wrap64;
    Power2AtMost(m, 8);
    ScaleUp(interval, 1, Power2(m));
    ScaleUp(interval, Power2(m), 256);
    WrapIsIdentity(interval * Power2(m));
  }

  // ---- Runs of collection cycles ----

  /** CollectAll looks at `host` at time `at`; if it tries, the attempt is over at `done`. */
  datatype Visit = Visit(host: string, at: int, done: int, ok: bool)

  /** The table after the visits, and the attempts that were made, in order. */
  function Run(visits: seq<Visit>, interval: int): (map<string, Entry>, seq<Visit>) {
    if visits == [] then (map[], [])
    else
      var v := visits[|visits| - 1];
      var (bo, tried) := Run(visits[..|visits| - 1], interval);
      if !DueAt(bo, v.host, v.at) then (bo, tried)
      else if v.ok then (SucceedStep(bo, v.host), tried + [v])
      else (FailStep(bo, interval, v.host, v.done), tried + [v])
  }

  /** The attempts on one host. */
  function On(tried: seq<Visit>, host: string): seq<Visit> {
    if tried == [] then []
    else
      var v := tried[|tried| - 1];
      On(tried[..|tried| - 1], host) + (if v.host == host then [v] else [])
  }

  function Attempts(visits: seq<Visit>, interval: int, host: string): seq<Visit> {
    On(Run(visits, interval).1, host)
  }

  /** An attempt takes time, and CollectAll waits for all of them before it returns. */
  ghost predicate Cycles(visits: seq<Visit>) {
    && (forall i :: 0 <= i < |visits| ==> visits[i].at <= visits[i].done)
    && (forall i, j :: 0 <= i < j < |visits| && visits[i].host == visits[j].host ==> visits[i].done <= visits[j].at)
  }

  ghost predicate AlwaysFails(visits: seq<Visit>, host: string) {
    forall i :: 0 <= i < |visits| && visits[i].host == host ==> !visits[i].ok
  }

  /** On a host that always fails the table is determined by the attempts: their number, and the last one's end. */
  ghost predicate Tracks(bo: map<string, Entry>, interval: int, host: string, tried: seq<Visit>) {
    if tried == [] then host !in bo
    else host in bo && bo[host] == Entry(|tried|, tried[|tried| - 1].done + Delay(interval, |tried|))
  }

  /** Attempt number i + 1 (counting from 1) leaves a gap of its delay before the next one. */
  ghost predicate Spaced(interval: int, tried: seq<Visit>) {
    forall i :: 0 <= i < |tried| - 1 ==> tried[i + 1].at > tried[i].done + Delay(interval, i + 1)
  }

  lemma {:induction false} FailingHostIsTracked(visits: seq<Visit>, interval: int, host: string)
    requires AlwaysFails(visits, host)
    ensures Tracks(Run(visits, interval).0, interval, host, Attempts(visits, interval, host))
    ensures Spaced(interval, Attempts(visits, interval, host))
    ensures forall v :: v in Attempts(visits, interval, host) ==> v in visits
  {
    hide Delay, On;
    if visits != [] {
      var n := |visits| - 1;
      var v := visits[n];
      FailingHostIsTracked(visits[..n], interval, host);
      var (bo, tried) := Run(visits[..n], interval);
      OnExtend(tried, v, host);
      assert v.host == host && DueAt(bo, host, v.at) ==> Attempts(visits, interval, host) == On(tried, host) + [v];
    } else {
      OnEmpty(host);
    }
  }

  lemma OnExtend(tried: seq<Visit>, v: Visit, host: string)
    ensures On(tried + [v], host) == if v.host == host then On(tried, host) + [v] else On(tried, host)
  {
    assert (tried + [v])[..|tried|] == tried;
  }

  lemma OnEmpty(host: string)
    ensures On([], host) == []
  {
  }

  /** The sum of the delays after failures `from`, ..., `from + n - 1`. */
  function DelaySum(interval: int, from: nat, n: nat): int {
    if n == 0 then 0 else DelaySum(interval, from, n - 1) + Delay(interval, from + n - 1)
  }

  /** Attempt j comes after attempt i by more than all the delays between them. */
  lemma {:induction false} AttemptsAreSpaced(visits: seq<Visit>, interval: int, host: string, i: nat, j: nat)
    requires Cycles(visits) && AlwaysFails(visits, host)
    requires i < j < |Attempts(visits, interval, host)|
    ensures var tried := Attempts(visits, interval, host);
            tried[j].at > tried[i].at + DelaySum(interval, i + 1, j - i)
    decreases j
  {
    hide Delay;
    var tried := Attempts(visits, interval, host);
    FailingHostIsTracked(visits, interval, host);
    assert tried[j - 1] in visits && tried[j - 1].at <= tried[j - 1].done;
    assert tried[j - 1 + 1].at > tried[j - 1].done + Delay(interval, j - 1 + 1);
    if i + 1 < j {
      AttemptsAreSpaced(visits, interval, host, i, j - 1);
    }
    assert DelaySum(interval, i + 1, j - i) == DelaySum(interval, i + 1, j - i - 1) + Delay(interval, j);
  }

  lemma {:induction false} LaterDelaysAreLonger(interval: int, from: nat, n: nat)
    requires Reasonable(interval) && from >= 1
    ensures DelaySum(interval, from, n) >= DelaySum(interval, 1, n)
  {
    if n > 0 {
      LaterDelaysAreLonger(interval, from, n - 1);
      DelaysGrow(interval, n, from + n - 1);
    }
  }

  /** Any n + 1 attempts, wherever they fall, span more than the first n delays. */
  lemma AnyAttemptsSpan(visits: seq<Visit>, interval: int, host: string, i: nat, n: nat)
    requires Cycles(visits) && AlwaysFails(visits, host) && Reasonable(interval)
    requires n >= 1 && i + n < |Attempts(visits, interval, host)|
    ensures var tried := Attempts(visits, interval, host);
            tried[i + n].at - tried[i].at > DelaySum(interval, 1, n)
  {
    AttemptsAreSpaced(visits, interval, host, i, i + n);
    LaterDelaysAreLonger(interval, i + 1, n);
  }

  /** Hence, in any window of length w, the number of attempts is bounded: n of them after the first fit
      only if n first delays do. */
  lemma AttemptsInWindow(visits: seq<Visit>, interval: int, host: string, i: nat, n: nat, w: int)
    requires Cycles(visits) && AlwaysFails(visits, host) && Reasonable(interval)
    requires n >= 1 && i + n < |Attempts(visits, interval, host)|
    requires var tried := Attempts(visits, interval, host); tried[i + n].at - tried[i].at <= w
    ensures n * Delay(interval, 1) < w
  {
    AnyAttemptsSpan(visits, interval, host, i, n);
    SumAtLeast(interval, n);
  }

  lemma {:induction false} SumAtLeast(interval: int, n: nat)
    requires Reasonable(interval)
    ensures DelaySum(interval, 1, n) >= n * Delay(interval, 1)
  {
    if n > 0 {
      SumAtLeast(interval, n - 1);
      DelaysGrow(interval, 1, n);
      assert n * Delay(interval, 1) == (n - 1) * Delay(interval, 1) + Delay(interval, 1);
    }
  }

  /** Fifteen minutes, the default interval. */
  const DEFAULT_INTERVAL := 900_000_000_000

  /** With the default interval a failing host never sees five attempts within six hours. */
  lemma FewAttemptsInSixHours(visits: seq<Visit>, host: string, i: nat)
    requires Cycles(visits) && AlwaysFails(visits, host)
    ensures var tried := Attempts(visits, DEFAULT_INTERVAL, host);
            i + 4 < |tried| ==> tried[i + 4].at - tried[i].at > MAX_BACKOFF
  {
    if i + 4 < |Attempts(visits, DEFAULT_INTERVAL, host)| {
      AnyAttemptsSpan(visits, DEFAULT_INTERVAL, host, i, 4);
      DefaultDelays();
    }
  }

  lemma DefaultDelays()
    ensures DelaySum(DEFAULT_INTERVAL, 1, 4) == 30 * DEFAULT_INTERVAL
  {
    assert Power2(1) == 2 && Power2(2) == 4;
    assert Power2(3) == 8 && Power2(4) == 16;
    assert DelaySum(DEFAULT_INTERVAL, 1, 2) == Delay(DEFAULT_INTERVAL, 1) + Delay(DEFAULT_INTERVAL, 2);
  }

  /** A failing host is never given up: it is due at every time later than six hours after its last failure,
      whatever the interval. */
  lemma DueAgainAfterCap(visits: seq<Visit>, interval: int, host: string, now: int)
    requires AlwaysFails(visits, host)
    requires var tried := Attempts(visits, interval, host);
             tried != [] && now > tried[|tried| - 1].done + MAX_BACKOFF
    ensures DueAt(Run(visits, interval).0, host, now)
  {
    FailingHostIsTracked(visits, interval, host);
  }

  // ---- Every host, told from the visits and their outcomes alone ----

  /** Visit n is an attempt: it lengthens the list of attempts. */
  ghost predicate Attempted(visits: seq<Visit>, interval: int, n: nat)
    requires n < |visits|
  {
    |Run(visits[..n + 1], interval).1| > |Run(visits[..n], interval).1|
  }

  /** Visit m is a failed attempt on the host, and no attempt on it has succeeded between m and n. */
  ghost predicate FailedAt(visits: seq<Visit>, interval: int, host: string, n: nat, m: nat)
    requires n <= |visits|
  {
    && m < n && visits[m].host == host && Attempted(visits, interval, m) && !visits[m].ok
    && forall l: nat :: m < l < n && visits[l].host == host && visits[l].ok ==> !Attempted(visits, interval, l)
  }

  /** The failures of a host before visit n and since its last success. */
  ghost function FailuresSince(visits: seq<Visit>, interval: int, host: string, n: nat): set<nat>
    requires n <= |visits|
  {
    set m: nat | m < n && FailedAt(visits, interval, host, n, m)
  }

  ghost predicate IsLast(ms: set<nat>, m: nat) {
    m in ms && forall l :: l in ms ==> l <= m
  }

  lemma RunStep(visits: seq<Visit>, interval: int, n: nat)
    requires n < |visits|
    ensures var (bo, tried) := Run(visits[..n], interval);
            var v := visits[n];
            && (Attempted(visits, interval, n) <==> DueAt(bo, v.host, v.at))
            && Run(visits[..n + 1], interval) ==
               if !DueAt(bo, v.host, v.at) then (bo, tried)
               else if v.ok then (SucceedStep(bo, v.host), tried + [v])
               else (FailStep(bo, interval, v.host, v.done), tried + [v])
  {
    assert visits[..n + 1][..n] == visits[..n];
  }

  lemma FailuresStep(visits: seq<Visit>, interval: int, host: string, n: nat)
    requires n < |visits|
    ensures FailuresSince(visits, interval, host, n + 1) ==
            if visits[n].host != host || !Attempted(visits, interval, n) then FailuresSince(visits, interval, host, n)
            else if visits[n].ok then {} else FailuresSince(visits, interval, host, n) + {n}
  {
    hide Attempted;
    forall m: nat | m < n
      ensures FailedAt(visits, interval, host, n + 1, m) <==>
                && FailedAt(visits, interval, host, n, m)
                && !(visits[n].host == host && visits[n].ok && Attempted(visits, interval, n))
    {
    }
  }

  /** The entry of a host that has failed `failures` since its last success: their number, and the last one's end. */
  ghost predicate Remembers(bo: map<string, Entry>, visits: seq<Visit>, interval: int, host: string,
                            failures: set<nat>)
  {
    && (host in bo <==> failures != {})
    && forall m: nat :: IsLast(failures, m) ==>
         m < |visits| && host in bo && bo[host] == Entry(|failures|, visits[m].done + Delay(interval, |failures|))
  }

  lemma {:induction false} TableRemembers(visits: seq<Visit>, interval: int, host: string, n: nat)
    requires n <= |visits|
    ensures Remembers(Run(visits[..n], interval).0, visits, interval, host, FailuresSince(visits, interval, host, n))
  {
    if n == 0 {
      assert FailuresSince(visits, interval, host, n) == {};
    } else {
      hide Attempted, Run, DueAt, FailuresSince, Remembers;
      TableRemembers(visits, interval, host, n - 1);
      RunStep(visits, interval, n - 1);
      FailuresStep(visits, interval, host, n - 1);
      FailuresAreEarlier(visits, interval, host, n - 1);
      RememberStep(Run(visits[..n - 1], interval).0, visits, interval, host,
                   FailuresSince(visits, interval, host, n - 1), n - 1);
    }
  }

  lemma RememberStep(bo: map<string, Entry>, visits: seq<Visit>, interval: int, host: string, failures: set<nat>,
                     n: nat)
    requires n < |visits| && Remembers(bo, visits, interval, host, failures)
    requires forall m :: m in failures ==> m < n
    ensures var v := visits[n];
            && (v.host != host ==>
                  && Remembers(SucceedStep(bo, v.host), visits, interval, host, failures)
                  && Remembers(FailStep(bo, interval, v.host, v.done), visits, interval, host, failures))
            && (v.host == host ==>
                  && Remembers(SucceedStep(bo, v.host), visits, interval, host, {})
                  && Remembers(FailStep(bo, interval, v.host, v.done), visits, interval, host, failures + {n}))
  {
    hide Delay;
    LastExists(failures);
    assert n !in failures;
    assert forall m: nat :: IsLast(failures + {n}, m) ==> m == n by {
      assert n in failures + {n};
    }
  }

  lemma FailuresAreEarlier(visits: seq<Visit>, interval: int, host: string, n: nat)
    requires n <= |visits|
    ensures forall m :: m in FailuresSince(visits, interval, host, n) ==> m < n
  {
    hide Attempted, FailedAt;
  }

  lemma {:induction false} LastExists(ms: set<nat>)
    ensures ms != {} ==> exists m: nat :: IsLast(ms, m)
    decreases |ms|
  {
    if ms != {} {
      var x := Pick(ms);
      if ms == {x} {
        assert IsLast(ms, x);
      } else {
        LastExists(ms - {x});
        var y: nat :| IsLast(ms - {x}, y);
        var z := if x < y then y else x;
        forall l | l in ms ensures l <= z {
          assert l == x || l in ms - {x};
        }
        assert IsLast(ms, z);
      }
    }
  }

  /** A visit is an attempt exactly if the host has not failed since its last success, or if it comes later than the
      end of the last failure by more than the delay of the number of failures since that success. */
  lemma AttemptedIff(visits: seq<Visit>, interval: int, n: nat)
    requires n < |visits|
    ensures var v := visits[n];
            var failures := FailuresSince(visits, interval, v.host, n);
            && (failures == {} ==> Attempted(visits, interval, n))
            && (forall m: nat :: IsLast(failures, m) ==>
                  m < n
                  && (Attempted(visits, interval, n) <==> v.at > visits[m].done + Delay(interval, |failures|)))
            && (failures != {} ==> exists m: nat :: IsLast(failures, m))
  {
    hide Attempted, Delay, Run, FailuresSince;
    TableRemembers(visits, interval, visits[n].host, n);
    FailuresAreEarlier(visits, interval, visits[n].host, n);
    RunStep(visits, interval, n);
    LastExists(FailuresSince(visits, interval, visits[n].host, n));
  }

  /** In particular the first visit of every host is an attempt, ... */
  lemma FirstVisitIsAttempt(visits: seq<Visit>, interval: int, n: nat)
    requires n < |visits| && forall m :: 0 <= m < n ==> visits[m].host != visits[n].host
    ensures Attempted(visits, interval, n) && visits[n] in Attempts(visits, interval, visits[n].host)
  {
    hide Attempted, Delay, Run;
    AttemptedIff(visits, interval, n);
    assert FailuresSince(visits, interval, visits[n].host, n) == {};
    AttemptIsListed(visits, interval, n, |visits|);
    assert visits[..|visits|] == visits;
  }

  /** ... and so is the first visit after a success. */
  lemma VisitAfterSuccessIsAttempt(visits: seq<Visit>, interval: int, m: nat, n: nat)
    requires m < n < |visits| && visits[m].host == visits[n].host && visits[m].ok && Attempted(visits, interval, m)
    requires forall l :: m < l < n ==> visits[l].host != visits[n].host
    ensures Attempted(visits, interval, n)
  {
    hide Attempted, Delay, Run;
    AttemptedIff(visits, interval, n);
    assert FailuresSince(visits, interval, visits[n].host, n) == {};
  }

  lemma {:induction false} AttemptIsListed(visits: seq<Visit>, interval: int, n: nat, i: nat)
    requires n < i <= |visits| && Attempted(visits, interval, n)
    ensures visits[n] in On(Run(visits[..i], interval).1, visits[n].host)
    decreases i
  {
    hide Attempted, DueAt, Run, On;
    RunStep(visits, interval, i - 1);
    OnExtend(Run(visits[..i - 1], interval).1, visits[i - 1], visits[n].host);
    if n < i - 1 {
      AttemptIsListed(visits, interval, n, i - 1);
    }
  }
}
