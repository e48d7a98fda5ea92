/** The in-memory store of snapshot trees (collector/trees.go): its four lock regions as methods
    of a class, each proved equal to a step on values. */
module TreeCache {
  import opened Wrappers
  import opened MapSums
  import opened TreeIndex

  const MAX_NODES := 800_000

  function Key(host: string, snap: string): string {
    host + "|" + snap
  }

  /** The test by which InvalidateTrees recognises the keys of a host. */
  predicate OfHost(k: string, host: string) {
    |k| > |host| && k[..|host| + 1] == host + "|"
  }

  /** What the mutex guards. A wait group is named by the call that created it. */
  datatype Store = Store(trees: map<string, Tree>, used: map<string, int>, loading: map<string, nat>, nodes: int)

  /** What the first lock region decides. */
  datatype Looked = Hit(tree: Tree) | Wait(loader: nat) | Load

  const EMPTY := Store(map[], map[], map[], 0)

  function LookupStep(st: Store, k: string, now: int, call: nat): (Store, Looked) {
    if k in st.trees then (st.(used := st.used[k := now]), Hit(st.trees[k]))
    else if k in st.loading then (st, Wait(st.loading[k]))
    else (st.(loading := st.loading[k := call]), Load)
  }

  function FinishStep(st: Store, k: string): Store {
    st.(loading := st.loading - {k})
  }

  ghost function Counts(trees: map<string, Tree>): map<string, nat> {
    map k | k in trees :: trees[k].count
  }

  ghost function Weight(trees: map<string, Tree>): nat {
    Sum(Counts(trees))
  }

  /** The running counter is the true total, and every tree has a time of last use.
      The empty string, which the eviction loop uses for "none yet", is not a key. */
  ghost predicate Consistent(st: Store) {
    st.nodes == Weight(st.trees) && st.used.Keys == st.trees.Keys && "" !in st.trees
  }

  ghost predicate Bounded(st: Store) {
    st.nodes <= MAX_NODES || |st.trees| <= 1
  }

  function Without(st: Store, gone: set<string>, nodes: int): Store {
    st.(trees := st.trees - gone, used := st.used - gone, nodes := nodes)
  }

  /** Among `gone`, the key evicted last. */
  ghost predicate LastEvicted(st: Store, gone: set<string>, last: string) {
    last in gone && gone <= st.used.Keys && forall k :: k in gone ==> st.used[k] <= st.used[last]
  }

  /** Eviction to make room for `incoming` nodes removed exactly `gone`: nothing used later than a survivor,
      enough (or everything), and not one entry too many. */
  ghost predicate Evicts(st: Store, incoming: nat, gone: set<string>)
    requires Consistent(st)
  {
    var left := st.trees - gone;
    && gone <= st.trees.Keys
    && (forall k, l :: k in gone && l in left ==> st.used[k] <= st.used[l])
    && (Weight(left) + incoming <= MAX_NODES || left == map[])
    && (gone != {} ==> exists last :: LastEvicted(st, gone, last)
                         && Weight(left) + st.trees[last].count + incoming > MAX_NODES)
  }

  ghost predicate PublishStep(st: Store, k: string, t: Tree, now: int, st': Store)
    requires Consistent(st)
  {
    exists gone :: Evicts(st, t.count, gone) && st' == Published(st, k, t, now, gone)
  }

  ghost function Published(st: Store, k: string, t: Tree, now: int, gone: set<string>): Store {
    var left := st.trees - gone;
    Store(left[k := t], (st.used - gone)[k := now], st.loading, Weight(left) + t.count)
  }

  ghost function InvalidateStep(st: Store, host: string): Store {
    var gone := set k | k in st.trees && OfHost(k, host);
    Without(st, gone, Weight(st.trees - gone))
  }

  // ---- Lemmas about the counter ----

  lemma WeightRemove(trees: map<string, Tree>, k: string)
    requires k in trees
    ensures Weight(trees) == trees[k].count + Weight(trees - {k})
  {
    SumRemove(Counts(trees), k);
    assert Counts(trees - {k}) == Counts(trees) - {k};
  }

  lemma WeightInsert(trees: map<string, Tree>, k: string, t: Tree)
    requires k !in trees
    ensures Weight(trees[k := t]) == Weight(trees) + t.count
  {
    SumInsert(Counts(trees), k, t.count);
    assert Counts(trees[k := t]) == Counts(trees)[k := t.count];
  }

  // ---- The eviction loop on values ----

  /** The loop started in `st` and has removed `gone`, `last` at the end. */
  ghost predicate Evicting(st: Store, gone: set<string>, last: string, incoming: nat)
    requires Consistent(st)
  {
    && gone <= st.trees.Keys
    && (forall k, l :: k in gone && l in st.trees - gone ==> st.used[k] <= st.used[l])
    && (gone != {} ==>
          LastEvicted(st, gone, last) && Weight(st.trees - gone) + st.trees[last].count + incoming > MAX_NODES)
  }

  lemma EvictNothing(st: Store, incoming: nat)
    requires Consistent(st)
    ensures Evicting(st, {}, "", incoming) && Without(st, {}, st.nodes) == st
  {
    assert st.trees - {} == st.trees && st.used - {} == st.used;
  }

  /** What is left of `st` once `gone` is evicted. */
  ghost function Left(st: Store, gone: set<string>): Store {
    Without(st, gone, Weight(st.trees - gone))
  }

  lemma LeftIsConsistent(st: Store, gone: set<string>)
    requires Consistent(st)
    ensures Consistent(Left(st, gone)) && Left(st, {}) == st
  {
    assert st.trees - {} == st.trees && st.used - {} == st.used;
  }

  /** `oldest` is a least recently used entry among those still there. */
  ghost predicate LeastUsed(st: Store, oldest: string) {
    oldest in st.used && forall k :: k in st.used ==> st.used[oldest] <= st.used[k]
  }

  lemma EvictOneMore(st: Store, gone: set<string>, last: string, incoming: nat, oldest: string)
    requires Consistent(st) && Evicting(st, gone, last, incoming)
    requires Left(st, gone).nodes + incoming > MAX_NODES && LeastUsed(Left(st, gone), oldest)
    ensures Evicting(st, gone + {oldest}, oldest, incoming)
  {
    hide Weight;
    var more := gone + {oldest};
    var left := Left(st, gone);
    RemoveOneMore(st.trees, gone, oldest);
    WeightRemove(left.trees, oldest);
    assert LastEvicted(st, more, oldest) by {
      forall k | k in more ensures st.used[k] <= st.used[oldest] {
        assert oldest in left.trees;
      }
    }
    forall k, l | k in more && l in st.trees - more ensures st.used[k] <= st.used[l] {
      assert left.used[oldest] <= left.used[l];
    }
  }

  lemma LeftAfterOneMore(st: Store, gone: set<string>, oldest: string)
    requires Consistent(st) && oldest in Left(st, gone).used
    ensures var left := Left(st, gone);
            && oldest in left.trees
            && |left.trees - {oldest}| < |left.trees|
            && Left(st, gone + {oldest})
               == Store(left.trees - {oldest}, left.used - {oldest}, left.loading,
                        left.nodes - left.trees[oldest].count)
  {
    hide Weight;
    var left := Left(st, gone);
    RemoveOneMore(st.trees, gone, oldest);
    RemoveOneMore(st.used, gone, oldest);
    RemoveShrinks(left.trees, oldest);
    WeightRemove(left.trees, oldest);
  }

  lemma EvictEnough(st: Store, gone: set<string>, last: string, incoming: nat)
    requires Consistent(st) && Evicting(st, gone, last, incoming)
    requires Left(st, gone).nodes + incoming <= MAX_NODES || |Left(st, gone).trees| == 0
    ensures Evicts(st, incoming, gone)
  {
    hide Weight;
  }

  lemma {:induction false} LeastUsedExists(st: Store) returns (oldest: string)
    requires st.used != map[]
    ensures LeastUsed(st, oldest)
    decreases |st.used|
  {
    var first :| first in st.used;
    var rest := st.(used := st.used - {first});
    oldest := first;
    if rest.used != map[] {
      RemoveShrinks(st.used, first);
      var other := LeastUsedExists(rest);
      oldest := if st.used[other] <= st.used[first] then other else first;
      forall k | k in st.used ensures st.used[oldest] <= st.used[k] {
        assert k == first || k in rest.used;
      }
    } else {
      forall k | k in st.used ensures k == first {
        assert k != first ==> k in rest.used;
      }
    }
  }

  /** The eviction loop always reaches its goal. */
  lemma EvictionExists(st: Store, incoming: nat) returns (gone: set<string>)
    requires Consistent(st)
    ensures Evicts(st, incoming, gone)
  {
    hide Weight, Evicting, Left, Consistent, LeastUsed;
    var last := "";
    gone := {};
    EvictNothing(st, incoming);
    LeftIsConsistent(st, gone);
    while Left(st, gone).nodes + incoming > MAX_NODES && |Left(st, gone).trees| > 0
      invariant Evicting(st, gone, last, incoming)
      decreases |Left(st, gone).trees|
    {
      LeftIsConsistent(st, gone);
      NotEmpty(Left(st, gone));
      var oldest := LeastUsedExists(Left(st, gone));
      IsUsed(Left(st, gone), oldest);
      EvictOneMore(st, gone, last, incoming, oldest);
      LeftAfterOneMore(st, gone, oldest);
      gone, last := gone + {oldest}, oldest;
    }
    EvictEnough(st, gone, last, incoming);
  }

  lemma NotEmpty(st: Store)
    requires Consistent(st) && |st.trees| > 0
    ensures st.used != map[]
  {
    hide Weight;
    var k :| k in st.trees;
    assert k in st.used;
  }

  lemma IsUsed(st: Store, oldest: string)
    requires LeastUsed(st, oldest)
    ensures oldest in st.used
  {
  }

  class TreeStore {
    var trees: map<string, Tree>
    var used: map<string, int>
    var loading: map<string, nat>
    var nodes: int

    function View(): Store
      reads this
    {
      Store(trees, used, loading, nodes)
    }

    constructor ()
      ensures View() == EMPTY
    {
      trees, used, loading, nodes := map[], map[], map[], 0;
    }

    /** First region of Tree. */
    method Lookup(k: string, now: int, call: nat) returns (r: Looked)
      modifies this
      ensures (View(), r) == LookupStep(old(View()), k, now, call)
    {
      if k in trees {
        used := used[k := now];
        return Hit(trees[k]);
      }
      if k in loading {
        return Wait(loading[k]);
      }
      loading := loading[k := call];
      return Load;
    }

    /** The region a waiter enters once the load it waited for is over. */
    method Recheck(k: string) returns (r: Option<Tree>)
      ensures r == if k in trees then Some(trees[k]) else None
    {
      if k in trees {
        return Some(trees[k]);
      }
      return None;
    }

    /** The region of a successful loader. */
    method Publish(k: string, t: Tree, now: int)
      requires Consistent(View()) && k !in trees
      modifies this
      ensures PublishStep(old(View()), k, t, now, View())
    {
      ghost var st := View();
      ghost var gone := EvictLocked(t.count);
      trees := trees[k := t];
      used := used[k := now];
      nodes := nodes + t.count;
      assert View() == Published(st, k, t, now, gone);
    }

    /** The deferred region of every loader. */
    method Finish(k: string)
      modifies this
      ensures View() == FinishStep(old(View()), k)
    {
      loading := loading - {k};
    }

    method EvictLocked(incoming: nat) returns (ghost gone: set<string>)
      requires Consistent(View())
      modifies this
      ensures Evicts(old(View()), incoming, gone)
      ensures View() == Left(old(View()), gone)
    {
      hide Weight, Evicting, Left, Consistent;
      ghost var st := View();
      ghost var last := "";
      gone := {};
      EvictNothing(st, incoming);
      LeftIsConsistent(st, gone);
      while nodes + incoming > MAX_NODES && |trees| > 0
        invariant View() == Left(st, gone)
        invariant Evicting(st, gone, last, incoming)
        decreases |trees|
      {
        LeftIsConsistent(st, gone);
        var oldest := Oldest();
        EvictOneMore(st, gone, last, incoming, oldest);
        LeftAfterOneMore(st, gone, oldest);
        ghost var next := Left(st, gone + {oldest});
        assert next.trees == trees - {oldest} && next.used == used - {oldest};
        if oldest in trees {
          nodes := nodes - trees[oldest].count;
        }
        trees := trees - {oldest};
        used := used - {oldest};
        gone := gone + {oldest};
        last := oldest;
      }
      EvictEnough(st, gone, last, incoming);
    }

    /** The scan for the least recently used entry, in whatever order the map is walked. */
    method Oldest() returns (oldest: string)
      requires Consistent(View()) && trees != map[]
      ensures LeastUsed(View(), oldest)
    {
      oldest := "";
      var oldestAt := 0;
      var todo := used.Keys;
      while todo != {}
        invariant todo <= used.Keys
        invariant oldest == "" ==> todo == used.Keys
        invariant oldest != "" ==> oldest in used && oldestAt == used[oldest]
        invariant oldest != "" ==> forall k :: k in used.Keys - todo ==> oldestAt <= used[k]
      {
        var k :| k in todo;
        var at := used[k];
        if oldest == "" || at < oldestAt {
          oldest, oldestAt := k, at;
        }
        todo := todo - {k};
      }
      assert used.Keys != {};
    }

    method InvalidateTrees(host: string)
      requires Consistent(View())
      modifies this
      ensures View() == InvalidateStep(old(View()), host)
    {
      hide Weight, OfHost;
      ghost var st := View();
      ghost var gone := {};
      var todo := trees.Keys;
      while todo != {}
        invariant todo <= trees.Keys && gone !! todo
        invariant gone == set k | k in st.trees && k !in todo && OfHost(k, host)
        invariant View() == Without(st, gone, Weight(trees))
      {
        var k :| k in todo;
        if OfHost(k, host) {
          WeightRemove(trees, k);
          nodes := nodes - trees[k].count;
          trees := trees - {k};
          used := used - {k};
          gone := gone + {k};
          assert trees == st.trees - gone && used == st.used - gone;
        }
        todo := todo - {k};
      }
      assert gone == set k | k in st.trees && OfHost(k, host);
    }
  }

  // ---- What each step keeps ----

  /** Publishing a key that is absent keeps the counter exact and the memory bounded. */
  lemma PublishKeepsConsistent(st: Store, k: string, t: Tree, now: int, st': Store)
    requires Consistent(st) && k !in st.trees && k != "" && PublishStep(st, k, t, now, st')
    ensures Consistent(st') && Bounded(st')
  {
    hide Consistent, Evicts, Bounded;
    var gone :| Evicts(st, t.count, gone) && st' == Published(st, k, t, now, gone);
    CountAfterPublish(st, k, t, now, gone);
    BoundAfterPublish(st, k, t, now, gone);
  }

  lemma CountAfterPublish(st: Store, k: string, t: Tree, now: int, gone: set<string>)
    requires Consistent(st) && k !in st.trees && k != ""
    ensures Consistent(Published(st, k, t, now, gone))
  {
    hide Weight;
    WeightInsert(st.trees - gone, k, t);
  }

  lemma BoundAfterPublish(st: Store, k: string, t: Tree, now: int, gone: set<string>)
    requires Consistent(st) && k !in st.trees && Evicts(st, t.count, gone)
    ensures Bounded(Published(st, k, t, now, gone))
  {
    hide Weight;
    if st.trees - gone == map[] {
      InsertGrows(st.trees - gone, k, t);
    }
  }

  /** Overwriting would break the counter: after publishing over a present entry it is too large by that entry's
      count, unless the eviction has just removed that very entry. Single flight is what excludes this. */
  lemma OverwriteBreaksCounter(st: Store, k: string, t: Tree, now: int, gone: set<string>)
    requires Consistent(st) && k in st.trees
    ensures var st' := Published(st, k, t, now, gone);
            st'.nodes == Weight(st'.trees) + if k in gone then 0 else st.trees[k].count
  {
    var left := st.trees - gone;
    if k in gone {
      WeightInsert(left, k, t);
    } else {
      WeightRemove(left, k);
      WeightRemove(left[k := t], k);
      assert left[k := t] - {k} == left - {k};
    }
  }

  lemma InvalidateKeepsConsistent(st: Store, host: string)
    requires Consistent(st)
    ensures Consistent(InvalidateStep(st, host))
    ensures Bounded(st) ==> Bounded(InvalidateStep(st, host))
  {
    hide Weight, OfHost;
    var gone := set k | k in st.trees && OfHost(k, host);
    WeightShrinks(st.trees, gone);
    assert (st.trees - gone).Keys <= st.trees.Keys;
    SubsetSize((st.trees - gone).Keys, st.trees.Keys);
    assert |st.trees - gone| == |(st.trees - gone).Keys| && |st.trees| == |st.trees.Keys|;
  }

  lemma {:induction false} WeightShrinks(trees: map<string, Tree>, gone: set<string>)
    ensures Weight(trees - gone) <= Weight(trees)
    decreases |gone|
  {
    if gone == {} {
      assert trees - gone == trees;
    } else {
      var k :| k in gone;
      var rest := trees - (gone - {k});
      WeightShrinks(trees, gone - {k});
      if k in rest {
        WeightRemove(rest, k);
        assert rest - {k} == trees - gone;
      } else {
        assert rest == trees - gone;
      }
    }
  }

  // ---- When keys tell hosts apart ----

  /** No host's name is another's followed by "|". */
  ghost predicate Separate(hosts: set<string>) {
    forall g, h :: g in hosts && h in hosts && g != h ==> !(g + "|" <= h)
  }

  lemma NamesWithoutBarAreSeparate(hosts: set<string>)
    requires forall h :: h in hosts ==> '|' !in h
    ensures Separate(hosts)
  {
    forall g, h | g in hosts && h in hosts && '|' !in h ensures !(g + "|" <= h) {
      BarInPrefix(g, h);
    }
  }

  lemma BarInPrefix(g: string, h: string)
    ensures g + "|" <= h ==> '|' in h
  {
    if g + "|" <= h {
      assert h[|g|] == (g + "|")[|g|];
    }
  }

  lemma KeyPrefix(g: string, s: string)
    ensures Key(g, s)[..|g| + 1] == g + "|" && Key(g, s)[|g| + 1..] == s
  {
  }

  /** Two calls share a key only if they are the same, or one host's name extends the other's by "|". */
  lemma SameKey(g: string, s: string, h: string, t: string)
    requires Key(g, s) == Key(h, t)
    ensures (g == h && s == t) || g + "|" <= h || h + "|" <= g
  {
    var k := Key(g, s);
    KeyPrefix(g, s);
    KeyPrefix(h, t);
    if |g| < |h| {
      assert k[..|h|] == h;
      assert k[..|h|][..|g| + 1] == k[..|g| + 1];
    } else if |h| < |g| {
      assert k[..|g|] == g;
      assert k[..|g|][..|h| + 1] == k[..|h| + 1];
    } else {
      assert g == k[..|g|] == h;
    }
  }

  /** The key identifies host and snapshot exactly for separate host names. */
  lemma KeyIsInjective(hosts: set<string>)
    ensures (forall g, s, h, t :: g in hosts && h in hosts && Key(g, s) == Key(h, t) ==> g == h && s == t)
       <==> Separate(hosts)
  {
    if Separate(hosts) {
      forall g, s, h, t | g in hosts && h in hosts && Key(g, s) == Key(h, t) ensures g == h && s == t {
        SameKey(g, s, h, t);
      }
    } else {
      var g, h :| g in hosts && h in hosts && g != h && g + "|" <= h;
      var rest := h[|g| + 1..];
      assert h == g + "|" + rest;
      assert Key(g, rest + "|" + "x") == Key(h, "x");
    }
  }

  /** InvalidateTrees removes exactly the named host's trees, for separate host names. */
  lemma InvalidationIsExact(hosts: set<string>)
    ensures (forall g, h, s :: g in hosts && h in hosts ==> (OfHost(Key(g, s), h) <==> g == h)) <==> Separate(hosts)
  {
    if Separate(hosts) {
      forall g, h, s | g in hosts && h in hosts ensures OfHost(Key(g, s), h) <==> g == h {
        KeyPrefix(g, s);
        if OfHost(Key(g, s), h) {
          var t := Key(g, s)[|h| + 1..];
          assert Key(g, s) == Key(h, t);
          SameKey(g, s, h, t);
        }
      }
    } else {
      var g, h :| g in hosts && h in hosts && g != h && g + "|" <= h;
      assert Key(h, "x")[..|g| + 1] == h[..|g| + 1] == g + "|";
      assert OfHost(Key(h, "x"), g);
    }
  }
}
