/** The elements of a finite set of integers, least first: the meaning of ORDER BY on a key. */
module Ascents {

  predicate Rising(r: seq<int>) {
    forall i, j :: 0 <= i < j < |r| ==> r[i] < r[j]
  }

  function Insert(r: seq<int>, x: int): (q: seq<int>)
    requires Rising(r) && x !in r
    ensures Rising(q)
    ensures forall y :: y in q <==> y == x || y in r
  {
    if r == [] || x < r[0] then [x] + r
    else
      var rest := Insert(r[1..], x);
      assert forall y :: y in r <==> y == r[0] || y in r[1..];
      assert forall j :: 0 <= j < |rest| ==> rest[j] in rest;
      [r[0]] + rest
  }

  ghost function Pick<T>(s: set<T>): (x: T)
    requires s != {}
    ensures x in s
  {
    var x :| x in s;
    x
  }

  ghost function Ascending(s: set<int>): (r: seq<int>)
    ensures Rising(r)
    ensures forall x :: x in r <==> x in s
    decreases |s|
  {
    if s == {} then []
    else
      var x := Pick(s);
      Insert(Ascending(s - {x}), x)
  }
}
