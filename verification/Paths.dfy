/** Slash-separated paths, as Go's packages `strings` and `path` treat them. */
module Paths {

  /** strings.Split(p, "/") */
  function Split(p: string): (r: seq<string>)
    ensures r != []
  {
    if p == "" then [""] else Extend(p[0], Split(p[1..]))
  }

  /** One more character in front of a split path. */
  function Extend(c: char, rest: seq<string>): (r: seq<string>)
    requires rest != []
    ensures r != []
  {
    if c == '/' then [""] + rest else [[c] + rest[0]] + rest[1..]
  }

  function NonEmpty(segs: seq<string>): seq<string> {
    if segs == [] then []
    else NonEmpty(segs[..|segs| - 1]) + (if segs[|segs| - 1] == "" then [] else [segs[|segs| - 1]])
  }

  /** The segments of a path. */
  function Segs(p: string): seq<string> {
    NonEmpty(Split(p))
  }

  /** strings.Trim(p, "/") */
  function Trim(p: string): string {
    TrimRight(TrimLeft(p))
  }

  function TrimLeft(p: string): string {
    if p != "" && p[0] == '/' then TrimLeft(p[1..]) else p
  }

  function TrimRight(p: string): string {
    if p != "" && p[|p| - 1] == '/' then TrimRight(p[..|p| - 1]) else p
  }

  /** "/a/b" for ["a", "b"]; nothing for no segment. */
  function Cat(segs: seq<string>): string {
    if segs == [] then "" else Cat(segs[..|segs| - 1]) + "/" + segs[|segs| - 1]
  }

  function Rooted(segs: seq<string>): string {
    if segs == [] then "/" else Cat(segs)
  }

  /** "." disappears; ".." removes a segment, and is kept only where nothing is left to remove in a relative path. */
  function Resolve(segs: seq<string>, rooted: bool): seq<string> {
    if segs == [] then []
    else ResolveStep(Resolve(segs[..|segs| - 1], rooted), segs[|segs| - 1], rooted)
  }

  function ResolveStep(acc: seq<string>, seg: string, rooted: bool): seq<string> {
    if seg == "." then acc
    else if seg != ".." then acc + [seg]
    else if acc != [] && acc[|acc| - 1] != ".." then acc[..|acc| - 1]
    else if rooted then acc
    else acc + [seg]
  }

  predicate IsRooted(p: string) {
    p != "" && p[0] == '/'
  }

  /** path.Clean */
  function Clean(p: string): (r: string)
    ensures IsRooted(r) <==> IsRooted(p)
    ensures r != ""
  {
    var segs := Resolve(Segs(p), IsRooted(p));
    SegsArePlain(p);
    ResolveKeepsPlain(Segs(p), IsRooted(p));
    CatStarts(segs);
    if IsRooted(p) then Rooted(segs)
    else if segs == [] then "."
    else Cat(segs)[1..]
  }

  /** The part of p up to and including its last slash. */
  function UpToSlash(p: string): string {
    if p == "" || p[|p| - 1] == '/' then p else UpToSlash(p[..|p| - 1])
  }

  /** path.Dir */
  function Dir(p: string): string {
    Clean(UpToSlash(p))
  }

  // ---- Splitting and joining ----

  /** A segment: not empty, no slash. */
  predicate Plain(seg: string) {
    seg != "" && '/' !in seg
  }

  predicate AllPlain(segs: seq<string>) {
    forall i :: 0 <= i < |segs| ==> Plain(segs[i])
  }

  lemma {:induction false} SplitHasNoSlash(p: string)
    ensures forall i :: 0 <= i < |Split(p)| ==> '/' !in Split(p)[i]
  {
    if p != "" {
      SplitHasNoSlash(p[1..]);
    }
  }

  lemma {:induction false} NonEmptyIsPlain(segs: seq<string>)
    requires forall i :: 0 <= i < |segs| ==> '/' !in segs[i]
    ensures AllPlain(NonEmpty(segs))
  {
    if segs != [] {
      NonEmptyIsPlain(segs[..|segs| - 1]);
    }
  }

  lemma SegsArePlain(p: string)
    ensures AllPlain(Segs(p))
  {
    SplitHasNoSlash(p);
    NonEmptyIsPlain(Split(p));
  }

  lemma ExtendConcat(c: char, a: seq<string>, b: seq<string>)
    requires a != []
    ensures Extend(c, a + b) == Extend(c, a) + b
  {
    assert (a + b)[1..] == a[1..] + b;
  }

  lemma {:induction false} SplitConcat(a: string, b: string)
    ensures Split(a + "/" + b) == Split(a) + Split(b)
  {
    var whole := a + "/" + b;
    if a == "" {
      assert whole[0] == '/' && whole[1..] == b;
    } else {
      assert whole[0] == a[0] && whole[1..] == a[1..] + "/" + b;
      SplitConcat(a[1..], b);
      ExtendConcat(a[0], Split(a[1..]), Split(b));
    }
  }

  lemma {:induction false} SplitPlain(seg: string)
    requires '/' !in seg
    ensures Split(seg) == [seg]
  {
    if seg != "" {
      SplitPlain(seg[1..]);
      assert [seg[0]] + seg[1..] == seg;
    }
  }

  lemma {:induction false} SplitCat(segs: seq<string>)
    requires AllPlain(segs)
    ensures Split(Cat(segs)) == [""] + segs
  {
    if segs != [] {
      var n := |segs| - 1;
      SplitCat(segs[..n]);
      SplitConcat(Cat(segs[..n]), segs[n]);
      SplitPlain(segs[n]);
    }
  }

  lemma {:induction false} NonEmptyConcat(a: seq<string>, b: seq<string>)
    ensures NonEmpty(a + b) == NonEmpty(a) + NonEmpty(b)
  {
    if b == [] {
      assert a + b == a;
    } else {
      var n := |b| - 1;
      assert (a + b)[..|a + b| - 1] == a + b[..n];
      NonEmptyConcat(a, b[..n]);
    }
  }

  lemma {:induction false} NonEmptyOfPlain(segs: seq<string>)
    requires AllPlain(segs)
    ensures NonEmpty(segs) == segs
  {
    if segs != [] {
      NonEmptyOfPlain(segs[..|segs| - 1]);
    }
  }

  lemma EmptySegment()
    ensures NonEmpty([""]) == []
  {
    assert [""][..0] == [];
  }

  lemma SegsConcat(a: string, b: string)
    ensures Segs(a + "/" + b) == Segs(a) + Segs(b)
  {
    SplitConcat(a, b);
    NonEmptyConcat(Split(a), Split(b));
  }

  /** The segments of a joined path are the segments it was joined from. */
  lemma SegsOfCat(segs: seq<string>)
    requires AllPlain(segs)
    ensures Segs(Cat(segs)) == segs
  {
    SplitCat(segs);
    NonEmptyConcat([""], segs);
    NonEmptyOfPlain(segs);
    EmptySegment();
  }

  lemma CatStarts(segs: seq<string>)
    requires AllPlain(segs)
    ensures segs != [] ==> |Cat(segs)| > 1 && Cat(segs)[0] == '/' && Cat(segs)[1] != '/'
    decreases |segs|
  {
    if |segs| > 1 {
      CatStarts(segs[..|segs| - 1]);
    } else if |segs| == 1 {
      assert Cat(segs[..0]) == "";
    }
  }

  // ---- Clean paths ----

  /** Segments that need no cleaning: no ".", and ".." only at the start of a relative path. */
  predicate Resolved(segs: seq<string>, rooted: bool) {
    && (forall i :: 0 <= i < |segs| ==> segs[i] != ".")
    && (forall i :: 0 <= i < |segs| && segs[i] == ".." ==>
          !rooted && forall j :: 0 <= j <= i ==> segs[j] == "..")
  }

  predicate NoDots(segs: seq<string>) {
    forall i :: 0 <= i < |segs| ==> segs[i] != "." && segs[i] != ".."
  }

  lemma {:induction false} ResolveKeepsPlain(segs: seq<string>, rooted: bool)
    requires AllPlain(segs)
    ensures AllPlain(Resolve(segs, rooted))
    decreases |segs|
  {
    if segs != [] {
      ResolveKeepsPlain(segs[..|segs| - 1], rooted);
    }
  }

  lemma {:induction false} ResolveResolves(segs: seq<string>, rooted: bool)
    ensures Resolved(Resolve(segs, rooted), rooted)
  {
    if segs != [] {
      ResolveResolves(segs[..|segs| - 1], rooted);
    }
  }

  lemma {:induction false} ResolveOfResolved(segs: seq<string>, rooted: bool)
    requires Resolved(segs, rooted)
    ensures Resolve(segs, rooted) == segs
  {
    if segs != [] {
      var n := |segs| - 1;
      ResolveOfResolved(segs[..n], rooted);
      assert segs[n] == ".." && n > 0 ==> segs[n - 1] == "..";
    }
  }

  lemma SegsOfSlashes(segs: seq<string>)
    requires AllPlain(segs)
    ensures Segs(Rooted(segs)) == segs
    ensures Segs(Cat(segs) + "/") == segs
  {
    SegsOfCat(segs);
    SegsConcat(Cat(segs), "");
    assert Cat(segs) + "/" + "" == Cat(segs) + "/";
    EmptySegment();
    if segs == [] {
      assert Rooted(segs) == Cat(segs) + "/";
    }
  }

  lemma CleanOfRooted(segs: seq<string>)
    requires AllPlain(segs) && NoDots(segs)
    ensures Clean(Rooted(segs)) == Rooted(segs)
    ensures Clean(Cat(segs) + "/") == Rooted(segs)
  {
    SegsOfSlashes(segs);
    CatStarts(segs);
    ResolveOfResolved(segs, true);
  }

  lemma SegsOfRelative(segs: seq<string>)
    requires AllPlain(segs) && segs != []
    ensures Segs(Cat(segs)[1..]) == segs
  {
    CatStarts(segs);
    SplitCat(segs);
    var tail := Split(Cat(segs)[1..]);
    assert Split(Cat(segs)) == [""] + tail;
    assert tail == ([""] + tail)[1..] == ([""] + segs)[1..] == segs;
    NonEmptyOfPlain(segs);
  }

  /** Cleaning is idempotent. */
  lemma CleanTwice(p: string)
    ensures Clean(Clean(p)) == Clean(p)
  {
    var rooted := IsRooted(p);
    var segs := Resolve(Segs(p), rooted);
    SegsArePlain(p);
    ResolveKeepsPlain(Segs(p), rooted);
    ResolveResolves(Segs(p), rooted);
    if rooted {
      CleanOfRooted(segs);
    } else if segs == [] {
      DotIsClean();
    } else {
      SegsOfRelative(segs);
      ResolveOfResolved(segs, false);
    }
  }

  lemma DotIsClean()
    ensures Clean(".") == "."
  {
    SplitPlain(".");
    NonEmptyOfPlain(["."]);
    assert ["."][..0] == [];
    assert Resolve(["."], false) == ResolveStep(Resolve([], false), ".", false);
  }

  lemma {:induction false} UpToSlashOfPlain(prefix: string, seg: string)
    requires '/' !in seg
    ensures UpToSlash(prefix + "/" + seg) == prefix + "/"
  {
    var p := prefix + "/" + seg;
    if seg == "" {
      assert p == prefix + "/";
    } else {
      var n := |seg| - 1;
      assert p[..|p| - 1] == prefix + "/" + seg[..n];
      assert p[|p| - 1] == seg[n];
      UpToSlashOfPlain(prefix, seg[..n]);
    }
  }

  /** The parent of "/a/b/c" is "/a/b", and the parent of "/a" is "/". */
  lemma DirOfRooted(segs: seq<string>, last: string)
    requires AllPlain(segs) && NoDots(segs) && Plain(last)
    ensures Dir(Cat(segs + [last])) == Rooted(segs)
  {
    assert (segs + [last])[..|segs|] == segs;
    UpToSlashOfPlain(Cat(segs), last);
    CleanOfRooted(segs);
  }

  // ---- Trimming ----

  lemma {:induction false} SegsOfTrimLeft(p: string)
    ensures Segs(TrimLeft(p)) == Segs(p)
  {
    if p != "" && p[0] == '/' {
      SegsOfTrimLeft(p[1..]);
      assert p == "" + "/" + p[1..];
      SegsConcat("", p[1..]);
      EmptySegment();
    }
  }

  lemma {:induction false} SegsOfTrimRight(p: string)
    ensures Segs(TrimRight(p)) == Segs(p)
  {
    if p != "" && p[|p| - 1] == '/' {
      var q := p[..|p| - 1];
      SegsOfTrimRight(q);
      assert p == q + "/" + "";
      SegsConcat(q, "");
      EmptySegment();
    }
  }

  // ---- What cleaning does, told on paths ----

  lemma SegsOfOne(seg: string)
    requires Plain(seg)
    ensures Segs(seg) == [seg]
  {
    SplitPlain(seg);
    NonEmptyOfPlain([seg]);
  }

  lemma ResolveMore(segs: seq<string>, seg: string, rooted: bool)
    ensures Resolve(segs + [seg], rooted) == ResolveStep(Resolve(segs, rooted), seg, rooted)
  {
    assert (segs + [seg])[..|segs|] == segs;
  }

  lemma CleanByResolve(p: string, q: string)
    requires IsRooted(p) == IsRooted(q) && Resolve(Segs(p), IsRooted(p)) == Resolve(Segs(q), IsRooted(q))
    ensures Clean(p) == Clean(q)
  {
  }

  /** "." and trailing slashes disappear, ... */
  lemma DotsDisappear(p: string)
    requires p != ""
    ensures Clean(p + "/" + ".") == Clean(p) && Clean(p + "/" + "") == Clean(p)
  {
    hide Clean, Resolve;
    SegsConcat(p, ".");
    SegsOfOne(".");
    ResolveMore(Segs(p), ".", IsRooted(p));
    CleanByResolve(p + "/" + ".", p);
    SegsConcat(p, "");
    EmptySegment();
    assert Segs(p) + [] == Segs(p);
    CleanByResolve(p + "/" + "", p);
  }

  /** ... and ".." takes back the segment before it. */
  lemma UpTakesBack(p: string, seg: string)
    requires p != "" && Plain(seg) && seg != "." && seg != ".."
    ensures Clean(p + "/" + seg + "/" + "..") == Clean(p)
  {
    hide Clean, Resolve, Segs;
    var rooted, acc := IsRooted(p), Resolve(Segs(p), IsRooted(p));
    SegsConcat(p + "/" + seg, "..");
    SegsConcat(p, seg);
    SegsOfOne("..");
    SegsOfOne(seg);
    ResolveMore(Segs(p), seg, rooted);
    ResolveMore(Segs(p) + [seg], "..", rooted);
    assert (acc + [seg])[..|acc|] == acc && (acc + [seg])[|acc|] == seg;
    CleanByResolve(p + "/" + seg + "/" + "..", p);
  }

  /** Above the root there is nothing; in a relative path ".." is kept. */
  lemma UpFromNothing()
    ensures Clean("/" + "..") == "/" && Clean("..") == ".."
  {
    SegsConcat("", "..");
    EmptySegment();
    SegsOfOne("..");
    assert "" + "/" + ".." == "/" + "..";
    assert [] + [".."] == [".."];
    ResolveMore([], "..", true);
    ResolveMore([], "..", false);
    assert Cat([".."]) == Cat([]) + "/" + ".." by { assert [".."][..0] == []; }
    assert ("/" + "..")[1..] == "..";
    assert Cat([".."]) == "/" + "..";
  }
}
