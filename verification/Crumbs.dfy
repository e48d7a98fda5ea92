/** The breadcrumb trail of the explorer (web/server.go, crumbs). */
module Crumbs {
  import opened Paths
  import TreeIndex

  datatype Crumb = Crumb(name: string, path: string)

  /** Crumb number i: the root, then one per segment. */
  function CrumbAt(segs: seq<string>, i: nat): Crumb
    requires i <= |segs|
  {
    if i == 0 then Crumb("/", "/") else Crumb(segs[i - 1], Cat(segs[..i]))
  }

  function Trail(segs: seq<string>): seq<Crumb> {
    seq(|segs| + 1, i requires 0 <= i <= |segs| => CrumbAt(segs, i))
  }

  method Crumbs(p: string) returns (out: seq<Crumb>)
    ensures out == Trail(Segs(p))
  {
    hide Cat, NonEmpty, Trail, CrumbAt;
    out := [Crumb("/", "/")];
    var cur := "";
    TrailEmpty();
    var parts := Split(Trim(p));
    for i := 0 to |parts|
      invariant cur == Cat(NonEmpty(parts[..i]))
      invariant out == Trail(NonEmpty(parts[..i]))
    {
      var seg := parts[i];
      ghost var before := NonEmpty(parts[..i]);
      NonEmptyExtend(parts, i);
      if seg != "" {
        TrailExtend(before, seg);
        cur := cur + ("/" + seg);
        out := out + [Crumb(seg, cur)];
      }
    }
    assert parts[..|parts|] == parts;
    SegsOfTrimLeft(p);
    SegsOfTrimRight(TrimLeft(p));
  }

  lemma TrailEmpty()
    ensures Cat(NonEmpty([])) == "" && Trail(NonEmpty([])) == [Crumb("/", "/")]
  {
  }

  lemma NonEmptyExtend(parts: seq<string>, i: nat)
    requires i < |parts|
    ensures NonEmpty(parts[..i + 1]) ==
      if parts[i] == "" then NonEmpty(parts[..i]) else NonEmpty(parts[..i]) + [parts[i]]
  {
    assert parts[..i + 1][..i] == parts[..i];
  }

  lemma TrailExtend(segs: seq<string>, seg: string)
    ensures Cat(segs + [seg]) == Cat(segs) + ("/" + seg)
    ensures Trail(segs + [seg]) == Trail(segs) + [Crumb(seg, Cat(segs) + ("/" + seg))]
  {
    var longer := segs + [seg];
    assert longer[..|segs|] == segs && longer[..|longer|] == longer;
    forall i | 0 <= i <= |segs| ensures CrumbAt(longer, i) == CrumbAt(segs, i) {
      assert longer[..i] == segs[..i];
    }
  }

  /** Without dot segments each crumb is the parent directory of the next one. */
  lemma EachCrumbIsParentOfNext(p: string, i: nat)
    requires NoDots(Segs(p)) && i < |Segs(p)|
    ensures Trail(Segs(p))[i].path == Dir(Trail(Segs(p))[i + 1].path)
  {
    var segs := Segs(p);
    SegsArePlain(p);
    DirOfRooted(segs[..i], segs[i]);
    assert segs[..i + 1] == segs[..i] + [segs[i]];
  }

  /** The last crumb is the cleaned absolute path exactly when no segment is "." or "..". */
  lemma LastCrumbIsCleanPath(p: string)
    ensures Trail(Segs(p))[|Segs(p)|].path == Clean("/" + p) <==> NoDots(Segs(p))
  {
    var segs := Segs(p);
    SegsArePlain(p);
    assert segs[..|segs|] == segs;
    assert "" + "/" + p == "/" + p;
    SegsConcat("", p);
    EmptySegment();
    assert Segs("/" + p) == segs;
    if NoDots(segs) {
      ResolveOfResolved(segs, true);
    } else if Clean("/" + p) == Cat(segs) {
      var clean := Resolve(segs, true);
      ResolveResolves(segs, true);
      ResolveKeepsPlain(segs, true);
      SegsOfCat(segs);
      SegsOfSlashes(clean);
      assert clean == segs;
      assert NoDots(segs);
    }
  }

  /** Every directory above an entry is an entry itself. */
  ghost predicate ParentClosed(nodes: seq<TreeIndex.Node>) {
    forall n :: n in nodes && Dir(n.path) != "/" ==> exists m :: m in nodes && m.path == Dir(n.path)
  }

  ghost predicate Has(nodes: seq<TreeIndex.Node>, path: string) {
    exists n :: n in nodes && n.path == path
  }

  /** In a parent-closed tree that contains p, every crumb is listed under the previous one. */
  lemma EachCrumbIsListed(tree: TreeIndex.Tree, nodes: seq<TreeIndex.Node>, p: string, i: nat)
    returns (n: TreeIndex.Node)
    requires NoDots(Segs(p)) && i < |Segs(p)|
    requires TreeIndex.IsIndex(tree, nodes) && ParentClosed(nodes) && Has(nodes, Clean("/" + p))
    ensures n.path == Trail(Segs(p))[i + 1].path
    ensures n in TreeIndex.Children(tree, Trail(Segs(p))[i].path)
  {
    hide Dir, Clean, Trail, Segs, NoDots, TreeIndex.IsIndex, TreeIndex.Children;
    n := CrumbIsEntry(nodes, p, i);
    EachCrumbIsParentOfNext(p, i);
    ListedInParent(tree, nodes, n);
  }

  lemma {:induction false} CrumbIsEntry(nodes: seq<TreeIndex.Node>, p: string, i: nat)
    returns (n: TreeIndex.Node)
    requires NoDots(Segs(p)) && i < |Segs(p)|
    requires ParentClosed(nodes) && Has(nodes, Clean("/" + p))
    ensures n in nodes && n.path == Trail(Segs(p))[i + 1].path
    decreases |Segs(p)| - i
  {
    hide Dir, Clean, Trail, CrumbAt, Segs, NoDots;
    if i + 1 == |Segs(p)| {
      LastCrumbIsCleanPath(p);
      n :| n in nodes && n.path == Clean("/" + p);
    } else {
      var below := CrumbIsEntry(nodes, p, i + 1);
      EachCrumbIsParentOfNext(p, i + 1);
      CrumbIsNotRoot(p, i + 1);
      n :| n in nodes && n.path == Dir(below.path);
    }
  }

  /** An entry is among the children of its parent directory. */
  lemma ListedInParent(tree: TreeIndex.Tree, nodes: seq<TreeIndex.Node>, n: TreeIndex.Node)
    requires TreeIndex.IsIndex(tree, nodes) && n in nodes
    ensures n in TreeIndex.Children(tree, Dir(n.path))
  {
    hide Dir, Clean, TreeIndex.Children;
    assert Clean(Dir(n.path)) == Dir(n.path) by {
      DirIsClean(n.path);
    }
    TreeIndex.ChildrenIsSortedFilter(tree, nodes, Dir(n.path));
    TreeIndex.BucketCount(nodes, Dir(n.path), n);
    assert n in multiset(TreeIndex.Children(tree, Dir(n.path)));
  }

  lemma DirIsClean(p: string)
    ensures Clean(Dir(p)) == Dir(p)
  {
    hide Clean;
    CleanTwice(UpToSlash(p));
  }

  lemma CrumbIsNotRoot(p: string, i: nat)
    requires 0 < i <= |Segs(p)|
    ensures Trail(Segs(p))[i].path != "/"
  {
    SegsArePlain(p);
    CatStarts(Segs(p)[..i]);
  }

  /** The trail starts at "/", and each further crumb is named after its segment and lies under the one before. */
  lemma TrailTells(p: string, i: nat)
    requires i < |Segs(p)|
    ensures var trail := Trail(Segs(p));
            && |trail| == |Segs(p)| + 1 && trail[0] == Crumb("/", "/")
            && trail[i + 1].name == Segs(p)[i]
            && trail[i + 1].path == (if i == 0 then "" else trail[i].path) + "/" + Segs(p)[i]
  {
    var segs := Segs(p);
    assert segs[..i + 1][..i] == segs[..i] && segs[..i + 1][i] == segs[i];
    assert Cat(segs[..i + 1]) == Cat(segs[..i]) + "/" + segs[i];
    if i == 0 {
      assert segs[..i] == [] && Cat(segs[..i]) == "";
    }
  }
}
