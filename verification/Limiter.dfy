/** The login limiter: per key, at most `max` accepted attempts in a sliding window.
    Times are integers (nanoseconds in the program); `now` is a parameter. */
module Limiter {

  /** The elements of `ts` strictly after `cutoff`, in order. */
  function After(ts: seq<int>, cutoff: int): seq<int> {
    if ts == [] then []
    else
      var t := ts[|ts| - 1];
      After(ts[..|ts| - 1], cutoff) + (if t > cutoff then [t] else [])
  }

  function Lookup(st: map<string, seq<int>>, key: string): seq<int> {
    if key in st then st[key] else []
  }

  /** One Allow on the pruned lists. */
  function AllowStep(st: map<string, seq<int>>, max: int, window: int, key: string, now: int)
    : (r: (map<string, seq<int>>, bool))
  {
    var kept := After(Lookup(st, key), now - window);
    if |kept| >= max then (st[key := kept], false) else (st[key := kept + [now]], true)
  }

  function ResetStep(st: map<string, seq<int>>, key: string): map<string, seq<int>> {
    st - {key}
  }

  /** A Go slice: the first `len` cells of a backing array. */
  datatype Slice = Slice(buf: array<int>, len: nat)

  class AttemptLimiter {
    const max: int
    const window: int
    var attempts: map<string, Slice>
    ghost var contents: map<string, seq<int>>
    ghost var owner: map<array<int>, string>

    /** The slice of `k` fits its backing array, which it shares with no other key. */
    ghost predicate Sound(k: string)
      requires k in attempts
      reads this, attempts[k].buf
    {
      && attempts[k].buf in owner && owner[attempts[k].buf] == k
      && k in contents && Holds(attempts[k], contents[k])
    }

    /** `contents` is what the slices hold; one key may be set aside while its slice is being rewritten. */
    ghost predicate ValidBut(aside: set<string>)
      reads this, owner.Keys, set k | k in attempts :: attempts[k].buf
    {
      && attempts.Keys == contents.Keys
      && forall k :: k in attempts && k !in aside ==> Sound(k)
    }

    ghost predicate Valid()
      reads this, owner.Keys, set k | k in attempts :: attempts[k].buf
    {
      ValidBut({})
    }

    constructor (max: int, window: int)
      ensures Valid() && contents == map[] && owner == map[]
      ensures this.max == max && this.window == window
    {
      this.max := max;
      this.window := window;
      attempts := map[];
      contents := map[];
      owner := map[];
    }

    method Allow(key: string, now: int) returns (ok: bool)
      requires Valid()
      modifies this, owner.Keys
      ensures Valid() && fresh(owner.Keys - old(owner.Keys))
      ensures contents == AllowStep(old(contents), max, window, key, now).0
      ensures ok == AllowStep(old(contents), max, window, key, now).1
    {
      var s := SliceOf(key);
      ghost var next := AllowStep(contents, max, window, key, now).0;
      var kept;
      kept, ok := PruneAndAppend(s, max, window, now);
      assert ValidBut({key});
      Put(key, kept, next[key]);
    }

    /** attempts[key] = kept */
    method Put(key: string, kept: Slice, ghost ts: seq<int>)
      requires ValidBut({key}) && Holds(kept, ts)
      requires kept.buf in owner ==> owner[kept.buf] == key
      modifies this
      ensures Valid() && owner == old(owner)[kept.buf := key]
      ensures contents == old(contents)[key := ts]
    {
      attempts := attempts[key := kept];
      contents := contents[key := ts];
      owner := owner[kept.buf := key];
      forall k | k in attempts ensures Sound(k) {
        assert k != key ==> old(Sound(k));
      }
    }

    /** The current slice of a key; an absent key has a nil slice, with no array behind it. */
    method SliceOf(key: string) returns (s: Slice)
      requires Valid()
      ensures Holds(s, Lookup(contents, key))
      ensures if key in attempts then s == attempts[key] else fresh(s.buf)
    {
      if key in attempts {
        s := attempts[key];
      } else {
        var empty := new int[0];
        s := Slice(empty, 0);
      }
    }

    method Reset(key: string)
      requires Valid()
      modifies this
      ensures Valid() && owner == old(owner)
      ensures contents == ResetStep(old(contents), key)
    {
      attempts := attempts - {key};
      contents := contents - {key};
    }
  }

  ghost predicate Holds(s: Slice, ts: seq<int>)
    reads s.buf
  {
    s.len <= s.buf.Length && s.buf[..s.len] == ts
  }

  /** The body of Allow on one slice: forget what is too old, then add `now` if there is room. */
  method PruneAndAppend(s: Slice, max: int, window: int, now: int) returns (kept: Slice, ok: bool)
    requires s.len <= s.buf.Length
    modifies s.buf
    ensures kept.buf == s.buf || fresh(kept.buf)
    ensures kept.len <= kept.buf.Length
    ensures var recent := After(old(s.buf[..s.len]), now - window);
            && ok == (|recent| < max)
            && kept.buf[..kept.len] == recent + if ok then [now] else []
  {
    var w := PruneInPlace(s.buf, s.len, now - window);
    kept, ok := Slice(s.buf, w), w < max;
    if ok {
      kept := Append(s.buf, w, now);
    }
  }

  /** The filter `kept := s[:0]; for t in s { if t.After(cutoff) { kept = append(kept, t) } }`:
      it writes into the array it is reading. The invariant on a[i..n] says that the cells still
      to be read have not been overwritten. */
  method PruneInPlace(a: array<int>, n: nat, cutoff: int) returns (w: nat)
    requires n <= a.Length
    modifies a
    ensures w <= n
    ensures a[..w] == After(old(a[..n]), cutoff)
  {
    w := 0;
    for i := 0 to n
      invariant w <= i
      invariant a[..w] == After(old(a[..n])[..i], cutoff)
      invariant a[i..n] == old(a[i..n])
    {
      ghost var was := old(a[..n]);
      var t := a[i];
      assert t == a[i..n][0] == was[i];
      assert was[..i + 1][..i] == was[..i];
      if t > cutoff {
        a[w] := t;
        w := w + 1;
        assert a[..w] == a[..w - 1] + [t];
      }
      assert a[i + 1..n] == old(a[i..n])[1..];
    }
    assert old(a[..n])[..n] == old(a[..n]);
  }

  /** Go's append: in place while the backing array has room, otherwise into a new one. */
  method Append(a: array<int>, w: nat, t: int) returns (s: Slice)
    requires w <= a.Length
    modifies a
    ensures s.buf == a || fresh(s.buf)
    ensures s.len == w + 1 <= s.buf.Length
    ensures s.buf[..s.len] == old(a[..w]) + [t]
  {
    if w < a.Length {
      a[w] := t;
      s := Slice(a, w + 1);
    } else {
      var b := new int[2 * w + 1];
      for i := 0 to w
        invariant forall j :: 0 <= j < i ==> b[j] == a[j]
        invariant a[..w] == old(a[..w])
      {
        b[i] := a[i];
      }
      b[w] := t;
      s := Slice(b, w + 1);
    }
  }

  // ---- Runs of operations, and the full history they should be judged by ----

  datatype Op = Allow(key: string, now: int) | Reset(key: string)

  /** The lists after `ops`, and one answer per operation (true for a Reset). */
  function Run(ops: seq<Op>, max: int, window: int): (r: (map<string, seq<int>>, seq<bool>))
    ensures |r.1| == |ops|
  {
    if ops == [] then (map[], [])
    else
      var (st, answers) := Run(ops[..|ops| - 1], max, window);
      match ops[|ops| - 1]
      case Allow(key, now) =>
        var (st', ok) := AllowStep(st, max, window, key, now);
        (st', answers + [ok])
      case Reset(key) => (ResetStep(st, key), answers + [true])
  }

  /** Times of every attempt on `key` that was answered true since its last Reset; nothing is forgotten. */
  function Accepted(ops: seq<Op>, answers: seq<bool>, key: string): seq<int>
    requires |ops| == |answers|
  {
    if ops == [] then []
    else
      var n := |ops| - 1;
      var before := Accepted(ops[..n], answers[..n], key);
      if ops[n].key != key then before
      else if ops[n].Reset? then []
      else if answers[n] then before + [ops[n].now] else before
  }

  /** The clock does not go back. */
  ghost predicate Clocked(ops: seq<Op>) {
    forall i, j :: 0 <= i < j < |ops| && ops[i].Allow? && ops[j].Allow? ==> ops[i].now <= ops[j].now
  }

  ghost predicate UpTo(ops: seq<Op>, now: int) {
    forall i :: 0 <= i < |ops| && ops[i].Allow? ==> ops[i].now <= now
  }

  lemma {:induction false} AfterAppend(a: seq<int>, b: seq<int>, c: int)
    ensures After(a + b, c) == After(a, c) + After(b, c)
  {
    if b == [] {
      assert a + b == a;
    } else {
      var n := |b| - 1;
      assert (a + b)[..|a + b| - 1] == a + b[..n];
      AfterAppend(a, b[..n], c);
    }
  }

  lemma {:induction false} AfterTwice(ts: seq<int>, c: int, d: int)
    requires c <= d
    ensures After(After(ts, c), d) == After(ts, d)
  {
    if ts != [] {
      var n := |ts| - 1;
      AfterTwice(ts[..n], c, d);
      AfterAppend(After(ts[..n], c), if ts[n] > c then [ts[n]] else [], d);
    }
  }

  /** The pruned list and the full history agree on every cutoff that can still be asked about. */
  lemma {:induction false} PrunedAgrees(ops: seq<Op>, max: int, window: int, key: string, now: int, c: int)
    requires Clocked(ops) && UpTo(ops, now) && c >= now - window
    ensures After(Lookup(Run(ops, max, window).0, key), c)
         == After(Accepted(ops, Run(ops, max, window).1, key), c)
    decreases |ops|
  {
    if ops != [] {
      var n := |ops| - 1;
      var (st, answers) := Run(ops[..n], max, window);
      var all := Run(ops, max, window).1;
      assert all[..n] == answers;
      if ops[n].key != key || ops[n].Reset? {
        PrunedAgrees(ops[..n], max, window, key, now, c);
      } else {
        var t := ops[n].now;
        var cut := t - window;
        var full := Accepted(ops[..n], answers, key);
        var kept := After(Lookup(st, key), cut);
        PrunedAgrees(ops[..n], max, window, key, t, cut);
        AfterTwice(full, cut, c);
        AfterAppend(kept, [t], c);
        AfterAppend(full, [t], c);
      }
    }
  }

  /** The limiter's answers are those of the full history: attempt number i is allowed exactly when
      fewer than `max` of the attempts accepted since the key's last Reset lie after now - window. */
  lemma AllowDecidesByFullHistory(ops: seq<Op>, max: int, window: int, i: nat)
    requires Clocked(ops) && i < |ops| && ops[i].Allow?
    ensures var answers := Run(ops, max, window).1;
            answers[i] == (|After(Accepted(ops[..i], answers[..i], ops[i].key), ops[i].now - window)| < max)
  {
    RunPrefix(ops, max, window, i);
    RunPrefix(ops, max, window, i + 1);
    assert ops[..i + 1][..i] == ops[..i];
    PrunedAgrees(ops[..i], max, window, ops[i].key, ops[i].now, ops[i].now - window);
  }

  lemma {:induction false} RunPrefix(ops: seq<Op>, max: int, window: int, i: nat)
    requires i <= |ops|
    ensures Run(ops, max, window).1[..i] == Run(ops[..i], max, window).1
  {
    if i == |ops| {
      assert ops[..i] == ops;
      assert Run(ops, max, window).1[..i] == Run(ops, max, window).1;
    } else {
      var n := |ops| - 1;
      RunPrefix(ops[..n], max, window, i);
      assert ops[..n][..i] == ops[..i];
    }
  }

  /** Attempts of `ts` inside the half-open interval (from, to]. */
  function Within(ts: seq<int>, from: int, to: int): nat {
    if ts == [] then 0
    else
      var t := ts[|ts| - 1];
      Within(ts[..|ts| - 1], from, to) + (if from < t <= to then 1 else 0)
  }

  lemma {:induction false} WithinBounded(ts: seq<int>, from: int, to: int)
    ensures Within(ts, from, to) <= |After(ts, from)|
  {
    if ts != [] {
      WithinBounded(ts[..|ts| - 1], from, to);
    }
  }

  lemma {:induction false} AfterMonotone(ts: seq<int>, c: int, d: int)
    requires c <= d
    ensures |After(ts, d)| <= |After(ts, c)|
  {
    if ts != [] {
      AfterMonotone(ts[..|ts| - 1], c, d);
    }
  }

  /** One more accepted time keeps every window within its bound, if the filter found room for it. */
  lemma WithinStep(before: seq<int>, t: int, max: nat, window: nat, from: int)
    requires Within(before, from, from + window) <= max
    requires |After(before, t - window)| < max
    ensures Within(before + [t], from, from + window) <= max
  {
    assert (before + [t])[..|before|] == before;
    if t <= from + window {
      AfterMonotone(before, t - window, from);
      WithinBounded(before, from, from + window);
    }
  }

  /** Between two Resets, no interval (from, from + window] holds more than `max` accepted attempts. */
  lemma {:induction false} WindowNeverOverfull(ops: seq<Op>, max: nat, window: nat, key: string, from: int)
    requires Clocked(ops)
    ensures Within(Accepted(ops, Run(ops, max, window).1, key), from, from + window) <= max
    decreases |ops|
  {
    if ops != [] {
      var n := |ops| - 1;
      var answers := Run(ops, max, window).1;
      var before := Accepted(ops[..n], answers[..n], key);
      assert Within(before, from, from + window) <= max by {
        RunPrefix(ops, max, window, n);
        WindowNeverOverfull(ops[..n], max, window, key, from);
      }
      if ops[n].Allow? && ops[n].key == key && answers[n] {
        assert |After(before, ops[n].now - window)| < max by {
          AllowDecidesByFullHistory(ops, max, window, n);
        }
        WithinStep(before, ops[n].now, max, window, from);
      }
    }
  }

  // ---- The same decision, told without the filter ----

  /** The filter keeps the times strictly after the cutoff, each as often as it occurs, ... */
  lemma {:induction false} AfterKeeps(ts: seq<int>, c: int, t: int)
    ensures multiset(After(ts, c))[t] == if t > c then multiset(ts)[t] else 0
  {
    if ts != [] {
      AfterKeeps(ts[..|ts| - 1], c, t);
      assert ts == ts[..|ts| - 1] + [ts[|ts| - 1]];
    }
  }

  /** ... in their order. */
  lemma AfterKeepsOrder(a: seq<int>, t: int, b: seq<int>, c: int)
    ensures After(a + [t] + b, c) == After(a, c) + (if t > c then [t] else []) + After(b, c)
  {
    AfterAppend(a + [t], b, c);
    AfterAppend(a, [t], c);
    assert [t][..0] == [];
  }

  /** Attempt n was accepted for the key after time c, and the key has not been reset before operation i. */
  ghost predicate Counts(ops: seq<Op>, answers: seq<bool>, i: nat, key: string, c: int, n: nat)
    requires |ops| == |answers| && i <= |ops|
  {
    && n < i && ops[n].Allow? && ops[n].key == key && answers[n] && ops[n].now > c
    && forall m :: n < m < i ==> ops[m] != Reset(key)
  }

  ghost function Recent(ops: seq<Op>, answers: seq<bool>, i: nat, key: string, c: int): set<nat>
    requires |ops| == |answers| && i <= |ops|
  {
    set n: nat | n < i && Counts(ops, answers, i, key, c, n)
  }

  lemma RecentStep(ops: seq<Op>, answers: seq<bool>, i: nat, key: string, c: int)
    requires |ops| == |answers| && i < |ops|
    ensures var before, op := Recent(ops, answers, i, key, c), ops[i];
            Recent(ops, answers, i + 1, key, c) ==
            if op == Reset(key) then {}
            else if op.Allow? && op.key == key && answers[i] && op.now > c then before + {i} else before
  {
    var before, after := Recent(ops, answers, i, key, c), Recent(ops, answers, i + 1, key, c);
    forall n: nat | n < i
      ensures Counts(ops, answers, i + 1, key, c, n) <==> Counts(ops, answers, i, key, c, n) && ops[i] != Reset(key)
    {
    }
  }

  lemma AcceptedStep(ops: seq<Op>, answers: seq<bool>, i: nat, key: string)
    requires |ops| == |answers| && i < |ops|
    ensures var before, op := Accepted(ops[..i], answers[..i], key), ops[i];
            Accepted(ops[..i + 1], answers[..i + 1], key) ==
            if op == Reset(key) then []
            else if op.Allow? && op.key == key && answers[i] then before + [op.now] else before
  {
    assert ops[..i + 1][..i] == ops[..i] && answers[..i + 1][..i] == answers[..i];
  }

  lemma {:induction false} RecentIsAfter(ops: seq<Op>, answers: seq<bool>, i: nat, key: string, c: int)
    requires |ops| == |answers| && i <= |ops|
    ensures |Recent(ops, answers, i, key, c)| == |After(Accepted(ops[..i], answers[..i], key), c)|
  {
    if i == 0 {
      assert Recent(ops, answers, i, key, c) == {};
    } else {
      hide Recent, Accepted, After;
      var n := i - 1;
      RecentIsAfter(ops, answers, n, key, c);
      RecentStep(ops, answers, n, key, c);
      AcceptedStep(ops, answers, n, key);
      AfterNothing(c);
      RecentAreEarlier(ops, answers, n, key, c);
      AfterOneMore(Accepted(ops[..n], answers[..n], key), if ops[n].Allow? then ops[n].now else 0, c);
    }
  }

  lemma RecentAreEarlier(ops: seq<Op>, answers: seq<bool>, i: nat, key: string, c: int)
    requires |ops| == |answers| && i <= |ops|
    ensures i !in Recent(ops, answers, i, key, c)
  {
  }

  lemma AfterNothing(c: int)
    ensures After([], c) == []
  {
  }

  lemma AfterOneMore(ts: seq<int>, t: int, c: int)
    ensures After(ts + [t], c) == if t > c then After(ts, c) + [t] else After(ts, c)
  {
    assert (ts + [t])[..|ts|] == ts;
  }

  /** Allow answers yes exactly when fewer than `max` operations before it were attempts on its key that were accepted,
      that lie strictly after now - window, and that no reset of the key follows. */
  lemma AllowCountsRecentAttempts(ops: seq<Op>, max: int, window: int, i: nat)
    requires Clocked(ops) && i < |ops| && ops[i].Allow?
    ensures var answers := Run(ops, max, window).1;
            answers[i] <==> |Recent(ops, answers, i, ops[i].key, ops[i].now - window)| < max
  {
    AllowDecidesByFullHistory(ops, max, window, i);
    RecentIsAfter(ops, Run(ops, max, window).1, i, ops[i].key, ops[i].now - window);
  }

  lemma {:induction false} WithinIs(ts: seq<int>, from: int, to: int)
    ensures Within(ts, from, to) == |set k: nat | k < |ts| && from < ts[k] <= to|
  {
    var all := set k: nat | k < |ts| && from < ts[k] <= to;
    if ts == [] {
      assert all == {};
    } else {
      var n := |ts| - 1;
      WithinIs(ts[..n], from, to);
      var before := set k: nat | k < |ts[..n]| && from < ts[..n][k] <= to;
      assert all == if from < ts[n] <= to then before + {n} else before;
    }
  }

  lemma {:induction false} AcceptedUpTo(ops: seq<Op>, answers: seq<bool>, key: string, now: int)
    requires |ops| == |answers| && UpTo(ops, now)
    ensures var ts := Accepted(ops, answers, key); forall k :: 0 <= k < |ts| ==> ts[k] <= now
  {
    if ops != [] {
      var n := |ops| - 1;
      AcceptedUpTo(ops[..n], answers[..n], key, now);
      assert ops[..n + 1] == ops && answers[..n + 1] == answers;
      AcceptedStep(ops, answers, n, key);
      assert ops[n].Allow? ==> ops[n].now <= now;
    }
  }

  lemma {:induction false} AfterIsWithin(ts: seq<int>, c: int, now: int)
    requires forall k :: 0 <= k < |ts| ==> ts[k] <= now
    ensures |After(ts, c)| == Within(ts, c, now)
  {
    if ts != [] {
      AfterIsWithin(ts[..|ts| - 1], c, now);
    }
  }

  /** ... that is, when fewer than `max` accepted attempts lie in (now - window, now]: the window that
      WindowNeverOverfull bounds is full whenever an attempt is refused. */
  lemma RefusedOnlyWhenFull(ops: seq<Op>, max: int, window: int, i: nat)
    requires Clocked(ops) && i < |ops| && ops[i].Allow?
    ensures var answers, now := Run(ops, max, window).1, ops[i].now;
            answers[i] <==> Within(Accepted(ops[..i], answers[..i], ops[i].key), now - window, now) < max
  {
    var answers, now := Run(ops, max, window).1, ops[i].now;
    AllowDecidesByFullHistory(ops, max, window, i);
    AcceptedUpTo(ops[..i], answers[..i], ops[i].key, now);
    AfterIsWithin(Accepted(ops[..i], answers[..i], ops[i].key), now - window, now);
  }
}
