/** Display order: what sort.Slice and sort.SliceStable promise, whatever is sorted. */
module Display {

  /** The order is strict, and being unordered is an equivalence: what both sorts demand of their comparison. */
  ghost predicate IsWeakOrder<T(!new)>(before: (T, T) -> bool) {
    && (forall a, b :: before(a, b) ==> !before(b, a))
    && (forall a, b, c :: before(a, b) && !before(c, b) ==> before(a, c))
  }

  /** No element comes after one it should precede. */
  ghost predicate Ordered<T>(r: seq<T>, before: (T, T) -> bool) {
    forall i, j :: 0 <= i < j < |r| ==> !before(r[j], r[i])
  }

  /** sort.Slice: some ordered permutation. */
  ghost predicate IsSort<T(!new)>(r: seq<T>, s: seq<T>, before: (T, T) -> bool) {
    Ordered(r, before) && multiset(r) == multiset(s)
  }

  /** The elements that tie with x, in order. */
  function Ties<T>(s: seq<T>, x: T, before: (T, T) -> bool): seq<T> {
    if s == [] then []
    else Ties(s[..|s| - 1], x, before)
         + if !before(s[|s| - 1], x) && !before(x, s[|s| - 1]) then [s[|s| - 1]] else []
  }

  /** sort.SliceStable: an ordered permutation that keeps the order of ties. */
  ghost predicate IsStableSort<T(!new)>(r: seq<T>, s: seq<T>, before: (T, T) -> bool) {
    IsSort(r, s, before) && forall x :: Ties(r, x, before) == Ties(s, x, before)
  }

  // ---- A stand-in for the library's sorts; callers know only IsStableSort ----

  /** The number of leading elements that x does not precede. */
  method Slot<T(!new)>(r: seq<T>, x: T, before: (T, T) -> bool) returns (k: nat)
    requires IsWeakOrder(before) && Ordered(r, before)
    ensures k <= |r|
    ensures forall i :: 0 <= i < k ==> !before(x, r[i])
    ensures forall i :: k <= i < |r| ==> before(x, r[i])
  {
    k := |r|;
    while k > 0 && before(x, r[k - 1])
      invariant k <= |r| && forall i :: k <= i < |r| ==> before(x, r[i])
    {
      k := k - 1;
    }
    if k > 0 {
      forall i | 0 <= i < k ensures !before(x, r[i]) {
        assert i < k - 1 ==> !before(r[k - 1], r[i]);
      }
    }
  }

  method SortStable<T(!new)>(s: seq<T>, before: (T, T) -> bool) returns (r: seq<T>)
    requires IsWeakOrder(before)
    ensures IsStableSort(r, s, before)
  {
    hide IsWeakOrder, Ties;
    r := [];
    for n := 0 to |s|
      invariant IsStableSort(r, s[..n], before)
    {
      var x := s[n];
      var k := Slot(r, x, before);
      SlidesIn(r, s[..n], x, k, before);
      assert s[..n] + [x] == s[..n + 1];
      r := r[..k] + [x] + r[k..];
    }
    assert s[..|s|] == s;
  }

  lemma SlidesIn<T(!new)>(r: seq<T>, s: seq<T>, x: T, k: nat, before: (T, T) -> bool)
    requires IsWeakOrder(before) && IsStableSort(r, s, before) && k <= |r|
    requires forall i :: 0 <= i < k ==> !before(x, r[i])
    requires forall i :: k <= i < |r| ==> before(x, r[i])
    ensures IsStableSort(r[..k] + [x] + r[k..], s + [x], before)
  {
    hide Ties, Ordered, IsWeakOrder;
    var q := r[..k] + [x] + r[k..];
    assert r == r[..k] + r[k..];
    assert multiset(q) == multiset(s + [x]);
    StaysOrdered(r, x, k, before);
    forall y ensures Ties(q, y, before) == Ties(s + [x], y, before) {
      assert Ties(r, y, before) == Ties(s, y, before);
      TiesAfter(r, x, k, y, before);
      TiesConcat(s, [x], y, before);
    }
  }

  lemma StaysOrdered<T(!new)>(r: seq<T>, x: T, k: nat, before: (T, T) -> bool)
    requires IsWeakOrder(before) && Ordered(r, before) && k <= |r|
    requires forall i :: 0 <= i < k ==> !before(x, r[i])
    requires forall i :: k <= i < |r| ==> before(x, r[i])
    ensures Ordered(r[..k] + [x] + r[k..], before)
  {
    var q := r[..k] + [x] + r[k..];
    forall i, j | 0 <= i < j < |q| ensures !before(q[j], q[i]) {
      var a := if i < k then i else i - 1;
      var b := if j < k then j else j - 1;
      if i != k && j != k {
        assert q[i] == r[a] && q[j] == r[b];
      }
    }
  }

  /** x goes after its ties. */
  lemma TiesAfter<T(!new)>(r: seq<T>, x: T, k: nat, y: T, before: (T, T) -> bool)
    requires IsWeakOrder(before) && k <= |r|
    requires forall i :: k <= i < |r| ==> before(x, r[i])
    ensures Ties(r[..k] + [x] + r[k..], y, before) == Ties(r, y, before) + Ties([x], y, before)
  {
    hide Ties, IsWeakOrder;
    assert r == r[..k] + r[k..];
    TiesConcat(r[..k] + [x], r[k..], y, before);
    TiesConcat(r[..k], [x], y, before);
    TiesConcat(r[..k], r[k..], y, before);
    TiesOfOne(x, y, before);
    if !before(x, y) && !before(y, x) {
      NoTies(r[k..], y, x, before);
    }
  }

  lemma TiesOfOne<T>(x: T, y: T, before: (T, T) -> bool)
    ensures Ties([x], y, before) == if !before(x, y) && !before(y, x) then [x] else []
  {
    assert [x][..0] == [];
  }

  lemma {:induction false} TiesConcat<T>(a: seq<T>, b: seq<T>, x: T, before: (T, T) -> bool)
    ensures Ties(a + b, x, before) == Ties(a, x, before) + Ties(b, x, before)
  {
    if b == [] {
      assert a + b == a;
    } else {
      TiesConcat(a, b[..|b| - 1], x, before);
      assert (a + b)[..|a + b| - 1] == a + b[..|b| - 1];
    }
  }

  /** What x precedes does not tie with what ties with x. */
  lemma {:induction false} NoTies<T(!new)>(r: seq<T>, y: T, x: T, before: (T, T) -> bool)
    requires IsWeakOrder(before) && !before(x, y) && !before(y, x)
    requires forall i :: 0 <= i < |r| ==> before(x, r[i])
    ensures Ties(r, y, before) == []
  {
    if r != [] {
      NoTies(r[..|r| - 1], y, x, before);
      assert before(x, r[|r| - 1]);
    }
  }

  // ---- A stable sort has one result ----

  lemma {:induction false} StableSortIsUnique<T(!new)>(a: seq<T>, b: seq<T>, before: (T, T) -> bool)
    requires IsWeakOrder(before) && IsStableSort(a, b, before) && Ordered(b, before)
    ensures a == b
    decreases |a|
  {
    hide Ties, IsWeakOrder;
    assert |a| == |multiset(a)| == |multiset(b)| == |b|;
    if a != [] {
      SameHead(a, b, before);
      TailsTie(a, b, before);
      StableSortIsUnique(a[1..], b[1..], before);
      assert a == [a[0]] + a[1..] && b == [b[0]] + b[1..];
    }
  }

  lemma TailsTie<T(!new)>(a: seq<T>, b: seq<T>, before: (T, T) -> bool)
    requires IsStableSort(a, b, before) && Ordered(b, before) && a != [] && b != [] && a[0] == b[0]
    ensures IsStableSort(a[1..], b[1..], before) && Ordered(b[1..], before)
  {
    hide Ties;
    TailsSort(a, b, before);
    forall x ensures Ties(a[1..], x, before) == Ties(b[1..], x, before) {
      assert Ties(a, x, before) == Ties(b, x, before);
      TiesOfTail(a, x, before);
      TiesOfTail(b, x, before);
      CancelHead(Ties([a[0]], x, before), Ties(a[1..], x, before), Ties(b[1..], x, before));
    }
  }

  lemma TiesOfTail<T>(a: seq<T>, x: T, before: (T, T) -> bool)
    requires a != []
    ensures Ties(a, x, before) == Ties([a[0]], x, before) + Ties(a[1..], x, before)
  {
    assert a == [a[0]] + a[1..];
    TiesConcat([a[0]], a[1..], x, before);
  }

  lemma CancelHead<T>(h: seq<T>, a: seq<T>, b: seq<T>)
    requires h + a == h + b
    ensures a == b
  {
    assert a == (h + a)[|h|..] && b == (h + b)[|h|..];
  }

  /** Both begin with the first of the ties of the least elements. */
  lemma SameHead<T(!new)>(a: seq<T>, b: seq<T>, before: (T, T) -> bool)
    requires IsWeakOrder(before) && IsStableSort(a, b, before) && Ordered(b, before) && a != [] && b != []
    ensures a[0] == b[0]
  {
    hide Ties;
    var x := a[0];
    HeadsTie(a, b, before);
    TiesOfTail(a, x, before);
    TiesOfTail(b, x, before);
    TiesOfOne(a[0], x, before);
    TiesOfOne(b[0], x, before);
    assert Ties(a, x, before)[0] == a[0] && Ties(b, x, before)[0] == b[0];
  }

  /** Two stable sorts of the same elements are the same. */
  lemma StableSortsAgree<T(!new)>(a: seq<T>, b: seq<T>, s: seq<T>, before: (T, T) -> bool)
    requires IsWeakOrder(before) && IsStableSort(a, s, before) && IsStableSort(b, s, before)
    ensures a == b
  {
    hide Ties, IsWeakOrder;
    assert forall x :: Ties(a, x, before) == Ties(s, x, before) == Ties(b, x, before);
    StableSortIsUnique(a, b, before);
  }

  /** An unstable sort has one result if ties are equal elements. */
  lemma {:induction false} SortIsUnique<T(!new)>(a: seq<T>, b: seq<T>, before: (T, T) -> bool)
    requires IsWeakOrder(before) && IsSort(a, b, before) && Ordered(b, before)
    requires forall x, y :: x in b && y in b && !before(x, y) && !before(y, x) ==> x == y
    ensures a == b
    decreases |a|
  {
    hide IsWeakOrder;
    assert |a| == |multiset(a)| == |multiset(b)| == |b|;
    if a != [] {
      HeadsTie(a, b, before);
      TailsSort(a, b, before);
      assert forall x :: x in b[1..] ==> x in b;
      SortIsUnique(a[1..], b[1..], before);
      assert a == [a[0]] + a[1..] && b == [b[0]] + b[1..];
    }
  }

  lemma HeadsTie<T(!new)>(a: seq<T>, b: seq<T>, before: (T, T) -> bool)
    requires IsWeakOrder(before) && IsSort(a, b, before) && Ordered(b, before) && a != [] && b != []
    ensures a[0] in b && !before(a[0], b[0]) && !before(b[0], a[0])
  {
    assert a[0] in multiset(a) && a[0] in b;
    assert b[0] in multiset(b) && b[0] in multiset(a) && b[0] in a;
  }

  lemma TailsSort<T(!new)>(a: seq<T>, b: seq<T>, before: (T, T) -> bool)
    requires IsSort(a, b, before) && Ordered(b, before) && a != [] && b != [] && a[0] == b[0]
    ensures IsSort(a[1..], b[1..], before) && Ordered(b[1..], before)
  {
    assert a == [a[0]] + a[1..] && b == [b[0]] + b[1..];
    assert multiset(a[1..]) == multiset(a) - multiset{a[0]} && multiset(b[1..]) == multiset(b) - multiset{b[0]};
  }
}
