/** A snapshot's tree indexed by directory (fleet/tree.go), the one-level listing
    (fleet/fleet.go, List), and the two paths of Browse. */
module TreeIndex {
  import opened Wrappers
  import opened MapSums
  import Ordering
  import Paths

  datatype Node = Node(name: string, kind: string, path: string, size: nat, structType: string) {
    predicate IsDir() { kind == "dir" }
  }

  /** One line of the remote answer, once trimmed and decoded. */
  datatype Line = Blank | Malformed | Decoded(node: Node)

  datatype Tree = Tree(snapshot: string, dirs: map<string, seq<Node>>, count: nat)

  /** Directories first, then by name. */
  predicate Before(a: Node, b: Node) {
    if a.IsDir() != b.IsDir() then a.IsDir() else Ordering.Less(a.name, b.name)
  }

  predicate SameKey(a: Node, b: Node) {
    a.IsDir() == b.IsDir() && a.name == b.name
  }

  ghost predicate Sorted(s: seq<Node>) {
    forall i, j :: 0 <= i < j < |s| ==> !Before(s[j], s[i])
  }

  /** What sort.Slice promises with this order: some ordered permutation. */
  ghost predicate SortOf(r: seq<Node>, s: seq<Node>) {
    Sorted(r) && multiset(r) == multiset(s)
  }

  /** The entries both readers keep: decoded lines that describe a node. */
  function Nodes(lines: seq<Line>): seq<Node> {
    if lines == [] then []
    else
      var l := lines[|lines| - 1];
      Nodes(lines[..|lines| - 1]) + (if l.Decoded? && l.node.structType == "node" then [l.node] else [])
  }

  /** The nodes whose parent directory is d, in the order they came. */
  function Bucket(nodes: seq<Node>, d: string): seq<Node> {
    if nodes == [] then []
    else
      var n := nodes[|nodes| - 1];
      Bucket(nodes[..|nodes| - 1], d) + (if Paths.Dir(n.path) == d then [n] else [])
  }

  function Parents(nodes: seq<Node>): set<string> {
    set n | n in nodes :: Paths.Dir(n.path)
  }

  /** `tree` is an index of `nodes`. */
  ghost predicate IsIndex(tree: Tree, nodes: seq<Node>) {
    && tree.count == |nodes|
    && tree.dirs.Keys == Parents(nodes)
    && forall d :: d in tree.dirs ==> SortOf(tree.dirs[d], Bucket(nodes, d))
  }

  /** An empty snapshot name means the latest one. */
  function Wanted(snapshot: string): string {
    if snapshot == "" then "latest" else snapshot
  }

  /** What a remote command yields: an error, or output that the scanner may not have read to its end. */
  datatype Answer = Refused | Output(lines: seq<Line>, unreadable: bool)

  /** `remote` answers "tree <snapshot>". */
  method FetchTree(remote: string -> Answer, snapshot: string) returns (r: Option<Tree>)
    ensures var name := if snapshot == "" then "latest" else snapshot;
            match remote(name)
            case Refused => r == None
            case Output(lines, unreadable) =>
              if unreadable then r == None
              else r.Some? && r.value.snapshot == name && IsIndex(r.value, Nodes(lines))
  {
    var out := remote(Wanted(snapshot));
    if out.Refused? {
      return None;
    }
    var dirs, count := Collect(out.lines);
    if out.unreadable {
      return None;
    }
    dirs := SortAll(dirs);
    return Some(Tree(Wanted(snapshot), dirs, count));
  }

  /** The scanning loop of FetchTree. */
  method Collect(lines: seq<Line>) returns (dirs: map<string, seq<Node>>, count: nat)
    ensures count == |Nodes(lines)|
    ensures BucketsOf(dirs, Nodes(lines))
  {
    hide Nodes, Bucket, Paths.Dir;
    dirs, count := map[], 0;
    NoBuckets();
    assert lines[..0] == [];
    for i := 0 to |lines|
      invariant count == |Nodes(lines[..i])|
      invariant BucketsOf(dirs, Nodes(lines[..i]))
    {
      NodesExtend(lines, i);
      var line := lines[i];
      if line.Decoded? && line.node.structType == "node" {
        var n := line.node;
        BucketsExtend(Nodes(lines[..i]), n, dirs);
        var parent := Paths.Dir(n.path);
        dirs := dirs[parent := (if parent in dirs then dirs[parent] else []) + [n]];
        count := count + 1;
      }
    }
    assert lines[..|lines|] == lines;
  }

  /** The sorting loop of FetchTree: each directory's children, whatever the order of the map. */
  method SortAll(unsorted: map<string, seq<Node>>) returns (dirs: map<string, seq<Node>>)
    ensures dirs.Keys == unsorted.Keys
    ensures forall d :: d in dirs ==> SortOf(dirs[d], unsorted[d])
  {
    hide SortOf;
    dirs := unsorted;
    var todo := dirs.Keys;
    while todo != {}
      invariant todo <= dirs.Keys == unsorted.Keys
      invariant forall d :: d in todo ==> dirs[d] == unsorted[d]
      invariant forall d :: d in dirs && d !in todo ==> SortOf(dirs[d], unsorted[d])
    {
      var d :| d in todo;
      var kids := SortNodes(dirs[d]);
      dirs := dirs[d := kids];
      todo := todo - {d};
    }
  }

  /** Go's zero value for an absent key is the nil slice. */
  function Children(tree: Tree, dir: string): seq<Node> {
    var d := if dir != "/" then Paths.Clean(dir) else dir;
    if d in tree.dirs then tree.dirs[d] else []
  }

  /** An empty path means the root. */
  function AskedPath(path: string): string {
    if path == "" then "/" else path
  }

  /** The same filter and the same sort on the one-level answer to "ls <snapshot> <path>"; what was read before a
      scanner error is returned with it. */
  method List(remote: (string, string) -> Answer, snapshot: string, path: string)
    returns (nodes: seq<Node>, failed: bool)
    ensures match remote(if snapshot == "" then "latest" else snapshot, if path == "" then "/" else path)
            case Refused => failed && nodes == []
            case Output(lines, unreadable) => failed == unreadable && SortOf(nodes, Nodes(lines))
  {
    nodes := [];
    var out := remote(Wanted(snapshot), AskedPath(path));
    if out.Refused? {
      return [], true;
    }
    var lines := out.lines;
    for i := 0 to |lines|
      invariant nodes == Nodes(lines[..i])
    {
      NodesExtend(lines, i);
      if lines[i].Decoded? && lines[i].node.structType == "node" {
        nodes := nodes + [lines[i].node];
      }
    }
    assert lines[..|lines|] == lines;
    nodes := SortNodes(nodes);
    failed := out.unreadable;
  }

  /** A stand-in for sort.Slice; callers know only SortOf. */
  method SortNodes(s: seq<Node>) returns (r: seq<Node>)
    ensures SortOf(r, s)
  {
    hide Before;
    r := [];
    for i := 0 to |s|
      invariant SortOf(r, s[..i])
    {
      InsertKeepsOrder(r, s[i]);
      r := Insert(r, s[i]);
      assert s[..i + 1] == s[..i] + [s[i]];
    }
    assert s[..|s|] == s;
  }

  function Insert(r: seq<Node>, n: Node): (t: seq<Node>)
    ensures multiset(t) == multiset(r) + multiset{n}
  {
    if r == [] || Before(n, r[0]) then [n] + r
    else
      assert r == [r[0]] + r[1..];
      [r[0]] + Insert(r[1..], n)
  }

  // ---- The order is a strict weak order ----

  lemma BeforeTransitive(a: Node, b: Node, c: Node)
    ensures Before(a, b) && Before(b, c) ==> Before(a, c)
    ensures Before(a, c) ==> Before(a, b) || Before(b, c)
    ensures !(Before(a, b) && Before(b, a))
    ensures !Before(a, b) && !Before(b, a) <==> SameKey(a, b)
  {
    Ordering.LessTotal(a.name, b.name);
    Ordering.LessTotal(b.name, c.name);
    Ordering.LessTotal(a.name, c.name);
    if Ordering.Less(a.name, b.name) && Ordering.Less(b.name, c.name) {
      Ordering.LessTransitive(a.name, b.name, c.name);
    }
    if Ordering.Less(c.name, b.name) && Ordering.Less(b.name, a.name) {
      Ordering.LessTransitive(c.name, b.name, a.name);
    }
  }

  lemma {:induction false} InsertKeepsOrder(r: seq<Node>, n: Node)
    requires Sorted(r)
    ensures Sorted(Insert(r, n))
  {
    hide Before;
    var t := Insert(r, n);
    if r == [] {
    } else if Before(n, r[0]) {
      forall j | 0 <= j < |r| ensures !Before(r[j], n) {
        BeforeTransitive(r[j], n, r[0]);
        BeforeTransitive(n, r[0], n);
      }
    } else {
      var rest := Insert(r[1..], n);
      InsertKeepsOrder(r[1..], n);
      forall j | 0 <= j < |rest| ensures !Before(rest[j], r[0]) {
        assert rest[j] in multiset(rest);
        assert rest[j] == n || rest[j] in r[1..];
      }
      assert t == [r[0]] + rest;
    }
  }

  // ---- Filling the buckets ----

  lemma NodesExtend(lines: seq<Line>, i: nat)
    requires i < |lines|
    ensures var l, kept := lines[i], Nodes(lines[..i]);
            Nodes(lines[..i + 1]) == if l.Decoded? && l.node.structType == "node" then kept + [l.node] else kept
  {
    assert lines[..i + 1][..i] == lines[..i];
  }

  /** `dirs` holds the unsorted buckets of `nodes`. */
  ghost predicate BucketsOf(dirs: map<string, seq<Node>>, nodes: seq<Node>) {
    && dirs.Keys == Parents(nodes)
    && forall d :: d in dirs ==> dirs[d] == Bucket(nodes, d)
  }

  lemma NoBuckets()
    ensures Nodes([]) == [] && BucketsOf(map[], [])
  {
  }

  lemma ParentsExtend(kept: seq<Node>, n: Node)
    ensures Parents(kept + [n]) == Parents(kept) + {Paths.Dir(n.path)}
  {
    hide Paths.Dir;
  }

  lemma BucketExtend(kept: seq<Node>, n: Node, d: string)
    ensures Bucket(kept + [n], d) == Bucket(kept, d) + (if Paths.Dir(n.path) == d then [n] else [])
  {
    hide Paths.Dir;
    assert (kept + [n])[..|kept|] == kept;
  }

  lemma BucketsExtend(kept: seq<Node>, n: Node, dirs: map<string, seq<Node>>)
    requires BucketsOf(dirs, kept)
    ensures var p := Paths.Dir(n.path);
            BucketsOf(dirs[p := (if p in dirs then dirs[p] else []) + [n]], kept + [n])
  {
    hide Paths.Dir, Bucket;
    var p := Paths.Dir(n.path);
    ParentsExtend(kept, n);
    if p !in dirs {
      EmptyBucket(kept, p);
    }
    forall d | d in dirs || d == p
      ensures Bucket(kept + [n], d) == Bucket(kept, d) + (if d == p then [n] else [])
    {
      BucketExtend(kept, n, d);
    }
  }

  lemma {:induction false} EmptyBucket(nodes: seq<Node>, d: string)
    ensures Bucket(nodes, d) == [] <==> d !in Parents(nodes)
  {
    hide Paths.Dir;
    if nodes != [] {
      var rest := nodes[..|nodes| - 1];
      EmptyBucket(rest, d);
      assert nodes == rest + [nodes[|nodes| - 1]];
    }
  }

  // ---- Conservation ----

  lemma {:induction false} BucketCount(nodes: seq<Node>, d: string, n: Node)
    ensures multiset(Bucket(nodes, d))[n] == if Paths.Dir(n.path) == d then multiset(nodes)[n] else 0
  {
    hide Paths.Dir;
    if nodes != [] {
      var rest := nodes[..|nodes| - 1];
      BucketCount(rest, d, n);
      assert nodes == rest + [nodes[|nodes| - 1]];
    }
  }

  /** Every node is in exactly one bucket, its parent's, as many times as it was received. */
  lemma EveryNodeInOneBucket(tree: Tree, nodes: seq<Node>, n: Node, d: string)
    requires IsIndex(tree, nodes)
    ensures d in tree.dirs ==>
              multiset(tree.dirs[d])[n] == if Paths.Dir(n.path) == d then multiset(nodes)[n] else 0
    ensures n in nodes ==> Paths.Dir(n.path) in tree.dirs
  {
    hide Paths.Dir;
    BucketCount(nodes, d, n);
  }

  ghost function Sizes(dirs: map<string, seq<Node>>): map<string, nat> {
    map d | d in dirs :: |dirs[d]|
  }

  lemma {:induction false} SizesSum(dirs: map<string, seq<Node>>, nodes: seq<Node>)
    requires BucketsOf(dirs, nodes)
    ensures Sum(Sizes(dirs)) == |nodes|
    decreases |nodes|
  {
    hide Paths.Dir, Bucket, Sizes;
    if nodes != [] {
      var rest, n := nodes[..|nodes| - 1], nodes[|nodes| - 1];
      var before := map d | d in Parents(rest) :: Bucket(rest, d);
      var p := Paths.Dir(n.path);
      assert nodes == rest + [n];
      SizesSum(before, rest);
      BucketsExtend(rest, n, before);
      SameBuckets(dirs, before[p := (if p in before then before[p] else []) + [n]], nodes);
      SizesGrow(before, p, n);
    } else {
      NoBuckets();
      SameBuckets(dirs, map[], nodes);
      NoSizes();
    }
  }

  lemma NoSizes()
    ensures Sum(Sizes(map[])) == 0
  {
    assert Sizes(map[]) == map[];
  }

  lemma SameBuckets(a: map<string, seq<Node>>, b: map<string, seq<Node>>, nodes: seq<Node>)
    requires BucketsOf(a, nodes) && BucketsOf(b, nodes)
    ensures a == b
  {
  }

  lemma SizesGrow(dirs: map<string, seq<Node>>, p: string, n: Node)
    ensures Sum(Sizes(dirs[p := (if p in dirs then dirs[p] else []) + [n]])) == Sum(Sizes(dirs)) + 1
  {
    var was := Sizes(dirs);
    if p in dirs {
      SumUpdate(was, p, was[p] + 1);
      assert Sizes(dirs[p := dirs[p] + [n]]) == was[p := was[p] + 1];
    } else {
      SumInsert(was, p, 1);
      assert Sizes(dirs[p := [] + [n]]) == was[p := 1];
    }
  }

  /** The bucket sizes add up to Count. */
  lemma SizesSumToCount(tree: Tree, nodes: seq<Node>)
    requires IsIndex(tree, nodes)
    ensures Sum(Sizes(tree.dirs)) == tree.count
  {
    hide Paths.Dir, Bucket, Sorted;
    var unsorted := map d | d in Parents(nodes) :: Bucket(nodes, d);
    SizesSum(unsorted, nodes);
    forall d | d in tree.dirs ensures |tree.dirs[d]| == |unsorted[d]| {
      assert |multiset(tree.dirs[d])| == |multiset(unsorted[d])|;
    }
    assert Sizes(tree.dirs) == Sizes(unsorted);
  }

  // ---- The index against the listing ----

  /** Children is the ordered filter of the flat node list by parent directory. */
  lemma ChildrenIsSortedFilter(tree: Tree, nodes: seq<Node>, dir: string)
    requires IsIndex(tree, nodes)
    ensures SortOf(Children(tree, dir), Bucket(nodes, Paths.Clean(dir)))
  {
    hide Paths.Dir, Paths.Clean;
    CleanRoot();
    EmptyBucket(nodes, Paths.Clean(dir));
  }

  lemma CleanRoot()
    ensures Paths.Clean("/") == "/"
  {
    Paths.CleanOfRooted([]);
  }

  /** The directory whose one-level listing List asks for. */
  function ListedDir(path: string): string {
    Paths.Clean(AskedPath(path))
  }

  /** Both paths of Browse look at the same directory exactly when the path is not empty:
      Children cleans "" to ".", whereas List replaces it by "/". */
  lemma SameDirectoryUnlessEmpty(path: string)
    ensures (forall nodes :: Bucket(nodes, Paths.Clean(path)) == Bucket(nodes, ListedDir(path))) <==> path != ""
  {
    hide Paths.Dir, Paths.Clean;
    if path == "" {
      CleanRoot();
      var n := Node("etc", "dir", "/etc", 0, "node");
      DirOfEtc();
      assert n in [n];
      assert Parents([n]) == {"/"};
      EmptyBucket([n], "/");
      EmptyBucket([n], ".");
      assert Bucket([n], Paths.Clean(path)) != Bucket([n], ListedDir(path));
    }
  }

  lemma DirOfEtc()
    ensures Paths.Dir("/etc") == "/" && Paths.Clean("") == "."
  {
    hide Paths.Dir, Paths.Clean;
    assert Paths.Dir("/etc") == "/" by {
      Paths.DirOfRooted([], "etc");
      assert [] + ["etc"] == ["etc"] && ["etc"][..0] == [];
      assert Paths.Cat(["etc"]) == Paths.Cat([]) + "/" + "etc";
      assert "" + "/" + "etc" == "/etc";
    }
    CleanEmpty();
  }

  lemma CleanEmpty()
    ensures Paths.Clean("") == "."
  {
    Paths.EmptySegment();
  }

  /** Two ordered permutations of the same nodes are equal if equal keys mean equal nodes. */
  lemma {:induction false} SortIsUnique(a: seq<Node>, b: seq<Node>)
    requires Sorted(a) && Sorted(b) && multiset(a) == multiset(b)
    requires forall x, y :: x in a && y in a && SameKey(x, y) ==> x == y
    ensures a == b
  {
    hide Before, SameKey;
    assert |a| == |multiset(a)| == |multiset(b)| == |b|;
    if a != [] {
      SameFirst(a, b);
      assert a == [a[0]] + a[1..] && b == [b[0]] + b[1..];
      assert multiset(a[1..]) == multiset(a) - multiset{a[0]};
      assert multiset(b[1..]) == multiset(b) - multiset{b[0]};
      SortIsUnique(a[1..], b[1..]);
    }
  }

  lemma SameFirst(a: seq<Node>, b: seq<Node>)
    requires a != [] && b != [] && Sorted(a) && Sorted(b) && multiset(a) == multiset(b)
    requires forall x, y :: x in a && y in a && SameKey(x, y) ==> x == y
    ensures a[0] == b[0]
  {
    hide Before, SameKey;
    assert a[0] in multiset(b) && b[0] in multiset(a);
    BeforeTransitive(a[0], b[0], a[0]);
    assert SameKey(a[0], b[0]);
  }

  /** Swapping two different nodes with equal keys gives another ordered permutation. */
  lemma SwapKeepsOrder(a: seq<Node>, p: nat, q: nat) returns (b: seq<Node>)
    requires Sorted(a) && p < q < |a| && SameKey(a[p], a[q]) && a[p] != a[q]
    ensures SortOf(b, a) && b != a
  {
    b := a[p := a[q]][q := a[p]];
    forall i, j | 0 <= i < j < |b| ensures !Before(b[j], b[i]) {
      BeforeTransitive(a[p], a[q], b[i]);
      BeforeTransitive(a[q], a[p], b[i]);
      BeforeTransitive(b[j], a[p], a[q]);
      BeforeTransitive(b[j], a[q], a[p]);
      BeforeTransitive(b[j], b[i], b[j]);
    }
    assert a == a[..p] + [a[p]] + a[p + 1..q] + [a[q]] + a[q + 1..];
    assert b == a[..p] + [a[q]] + a[p + 1..q] + [a[p]] + a[q + 1..];
  }

  /** The listing of a directory is determined exactly when no two different entries share kind and name. */
  lemma ListingIsDetermined(s: seq<Node>)
    ensures (forall a, b :: SortOf(a, s) && SortOf(b, s) ==> a == b)
       <==> (forall x, y :: x in s && y in s && SameKey(x, y) ==> x == y)
  {
    hide SortOf, SameKey;
    if forall x, y :: x in s && y in s && SameKey(x, y) ==> x == y {
      forall a, b | SortOf(a, s) && SortOf(b, s) ensures a == b {
        DistinctKeysDetermine(a, b, s);
      }
    } else {
      var x, y :| x in s && y in s && SameKey(x, y) && x != y;
      var a, b := SharedKeyLeavesChoice(s, x, y);
    }
  }

  lemma DistinctKeysDetermine(a: seq<Node>, b: seq<Node>, s: seq<Node>)
    requires SortOf(a, s) && SortOf(b, s)
    requires forall x, y :: x in s && y in s && SameKey(x, y) ==> x == y
    ensures a == b
  {
    hide Before, SameKey, Sorted;
    forall x, y | x in a && y in a && SameKey(x, y) ensures x == y {
      assert x in multiset(a) && y in multiset(a);
      assert x in multiset(s) && y in multiset(s);
    }
    SortIsUnique(a, b);
  }

  lemma SharedKeyLeavesChoice(s: seq<Node>, x: Node, y: Node) returns (a: seq<Node>, b: seq<Node>)
    requires x in s && y in s && SameKey(x, y) && x != y
    ensures SortOf(a, s) && SortOf(b, s) && a != b
  {
    hide Before, Sorted;
    a := SomeSort(s);
    assert x in multiset(s) && y in multiset(s);
    assert x in multiset(a) && y in multiset(a);
    var p :| 0 <= p < |a| && a[p] == x;
    var q :| 0 <= q < |a| && a[q] == y;
    b := SwapKeepsOrder(a, if p < q then p else q, if p < q then q else p);
  }

  lemma {:induction false} SomeSort(s: seq<Node>) returns (r: seq<Node>)
    ensures SortOf(r, s)
  {
    hide Before;
    if s == [] {
      r := [];
    } else {
      var t := SomeSort(s[..|s| - 1]);
      InsertKeepsOrder(t, s[|s| - 1]);
      r := Insert(t, s[|s| - 1]);
      assert s == s[..|s| - 1] + [s[|s| - 1]];
    }
  }

  /** Browse gives the same listing from the cached tree and from the one-level fallback.
      `answer` is what the host lists for the directory: its entries, in any order. */
  lemma BrowsePathsAgree(tree: Tree, nodes: seq<Node>, path: string, answer: seq<Node>, listing: seq<Node>)
    requires IsIndex(tree, nodes) && path != ""
    requires multiset(answer) == multiset(Bucket(nodes, ListedDir(path)))
    requires SortOf(listing, answer)
    requires forall x, y :: x in answer && y in answer && SameKey(x, y) ==> x == y
    ensures listing == Children(tree, path)
  {
    hide Paths.Dir, Paths.Clean, Sorted, SameKey, Bucket;
    ChildrenIsSortedFilter(tree, nodes, path);
    DistinctKeysDetermine(listing, Children(tree, path), answer);
  }

  // ---- Told without Before and Nodes ----

  /** In a sorted directory every sub-directory precedes every other entry, and the names of each kind ascend. */
  lemma DirectoriesFirstThenNames(r: seq<Node>, s: seq<Node>, i: nat, j: nat)
    requires SortOf(r, s) && i < j < |r|
    ensures r[j].kind == "dir" ==> r[i].kind == "dir"
    ensures (r[i].kind == "dir" <==> r[j].kind == "dir") ==>
              r[i].name == r[j].name || Ordering.Less(r[i].name, r[j].name)
  {
    Ordering.LessTotal(r[i].name, r[j].name);
    assert !Before(r[j], r[i]);
  }

  /** The lines before k that decode to the node n. */
  ghost function LinesOf(lines: seq<Line>, k: nat, n: Node): set<nat>
    requires k <= |lines|
  {
    set i: nat | i < k && lines[i] == Decoded(n)
  }

  /** What is kept of an answer is each of its lines that decodes to a node, as often as it comes. */
  lemma NodesAreTheNodeLines(lines: seq<Line>, n: Node)
    ensures multiset(Nodes(lines))[n] == if n.structType == "node" then |LinesOf(lines, |lines|, n)| else 0
  {
    NodesUpTo(lines, |lines|, n);
    assert lines[..|lines|] == lines;
  }

  lemma {:induction false} NodesUpTo(lines: seq<Line>, k: nat, n: Node)
    requires k <= |lines|
    ensures multiset(Nodes(lines[..k]))[n] == if n.structType == "node" then |LinesOf(lines, k, n)| else 0
  {
    hide Nodes, LinesOf;
    LinesStep(lines, k, n);
    if k == 0 {
      NoBuckets();
      assert lines[..k] == [];
    } else {
      NodesUpTo(lines, k - 1, n);
      NodesExtend(lines, k - 1);
      OneMoreNode(Nodes(lines[..k - 1]), lines[k - 1], n);
    }
  }

  lemma LinesStep(lines: seq<Line>, k: nat, n: Node)
    requires k <= |lines|
    ensures k == 0 ==> LinesOf(lines, k, n) == {}
    ensures k > 0 ==>
              |LinesOf(lines, k, n)| == |LinesOf(lines, k - 1, n)| + if lines[k - 1] == Decoded(n) then 1 else 0
  {
    if k > 0 {
      var before := LinesOf(lines, k - 1, n);
      assert LinesOf(lines, k, n) == if lines[k - 1] == Decoded(n) then before + {k - 1} else before;
    }
  }

  lemma OneMoreNode(kept: seq<Node>, l: Line, n: Node)
    ensures l.Decoded? && l.node.structType == "node" ==>
              multiset(kept + [l.node])[n] == multiset(kept)[n] + if l == Decoded(n) then 1 else 0
  {
  }
}
