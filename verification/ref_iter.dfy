/** `RefIter` of scenes/src/scenes/oc_tree/iter.rs: walk the counter over
    the tree's cube and report every position at which `get` finds
    something. */
module RefIter {
  import opened Wrappers
  import opened Octant
  import opened Instances
  import opened OcTree
  import AabbCounter

  /** The iterator borrows the tree and owns a counter. */
  datatype Iter = Iter(tree: Tree, counter: AabbCounter.Counter)

  /** `RefIter::new` (reached through `OcTree::iter`): a fresh counter over
      the tree's scope, which will walk every point of its cube. */
  function New(t: Tree): (it: Iter)
    ensures it.tree == t && AabbCounter.Inv(it.counter)
    ensures AabbCounter.Run(it.counter) == AabbCounter.Run(AabbCounter.New(t.scope))
    ensures forall q :: q in AabbCounter.Run(it.counter) <==> AabbCounter.InBox(t.scope, q)
  {
    AabbCounter.NewCoversCube(t.scope);
    Iter(t, AabbCounter.New(t.scope))
  }

  /** What the iterator reports, stated without the step function: look up
      each position in turn and keep the hits. */
  function Scan(n: Node, ps: seq<Point>): (r: seq<Instance>)
    requires Shaped(n)
    ensures |r| <= |ps|
    ensures forall w :: w in r ==> w in Items(n)
  {
    if ps == [] then []
    else
      var rest := Scan(n, ps[1..]);
      match Get(n, ps[0])
      case Some(w) => [w] + rest
      case None => rest
  }

  /** `Iterator::next` for `RefIter`: advance the counter until `get` hits
      or the counter is exhausted.  The source's `loop` is the recursion;
      it ends because every turn consumes one of the counter's yields. */
  function Next(it: Iter): (r: (Option<Instance>, Iter))
    requires Shaped(it.tree.root) && AabbCounter.Inv(it.counter)
    ensures r.1.tree == it.tree && AabbCounter.Inv(r.1.counter)
    ensures r.0.None? ==> Scan(it.tree.root, AabbCounter.Run(it.counter)) == []
                          && AabbCounter.Run(r.1.counter) == []
    ensures r.0.Some? ==> Scan(it.tree.root, AabbCounter.Run(it.counter))
                          == [r.0.value] + Scan(it.tree.root, AabbCounter.Run(r.1.counter))
    ensures r.0.Some? ==> |AabbCounter.Run(r.1.counter)| < |AabbCounter.Run(it.counter)|
    decreases |AabbCounter.Run(it.counter)|
  {
    var (p, c) := AabbCounter.Next(it.counter);
    if p.None? then (None, Iter(it.tree, c))
    else
      assert AabbCounter.Run(it.counter) == [p.value] + AabbCounter.Run(c);
      match Get(it.tree.root, p.value)
      case Some(w) => (Some(w), Iter(it.tree, c))
      case None => Next(Iter(it.tree, c))
  }

  /** Draining the iterator with `next` (what `for i in self.iter()` does)
      yields exactly the scan of the positions the counter has still to
      produce. */
  function Drain(it: Iter): (r: seq<Instance>)
    requires Shaped(it.tree.root) && AabbCounter.Inv(it.counter)
    ensures r == Scan(it.tree.root, AabbCounter.Run(it.counter))
    decreases |AabbCounter.Run(it.counter)|
  {
    var (w, it') := Next(it);
    if w.None? then []
    else [w.value] + Drain(it')
  }

  /** Everything a fresh iterator over `t` reports. */
  function Enumerate(t: Tree): (r: seq<Instance>)
    requires Shaped(t.root)
    ensures r == Scan(t.root, AabbCounter.Run(AabbCounter.New(t.scope)))
    ensures forall w :: w in r ==> w in Items(t.root)
  {
    Drain(New(t))
  }

  /** An instance is reported iff `get` returns it at one of the positions. */
  lemma {:induction false} ScanMember(n: Node, ps: seq<Point>, w: Instance)
    requires Shaped(n)
    ensures w in Scan(n, ps) <==> exists i :: 0 <= i < |ps| && Get(n, ps[i]) == Some(w)
  {
    if ps != [] {
      ScanMember(n, ps[1..], w);
      if exists i :: 0 <= i < |ps[1..]| && Get(n, ps[1..][i]) == Some(w) {
        var i :| 0 <= i < |ps[1..]| && Get(n, ps[1..][i]) == Some(w);
        assert Get(n, ps[i + 1]) == Some(w);
      }
      if exists i :: 0 <= i < |ps| && Get(n, ps[i]) == Some(w) {
        var i :| 0 <= i < |ps| && Get(n, ps[i]) == Some(w);
        if i > 0 {
          assert Get(n, ps[1..][i - 1]) == Some(w);
        }
      }
    }
  }

  /** A leaf holding `v` answers every lookup with `v`, so the scan repeats
      `v` once per position. */
  lemma {:induction false} ScanOfFullLeaf(v: Instance, ps: seq<Point>)
    ensures |Scan(Leaf(Some(v)), ps)| == |ps|
    ensures forall i :: 0 <= i < |ps| ==> Scan(Leaf(Some(v)), ps)[i] == v
  {
    if ps != [] {
      ScanOfFullLeaf(v, ps[1..]);
    }
  }

  /** An empty tree reports nothing. */
  lemma {:induction false} ScanOfEmptyLeaf(ps: seq<Point>)
    ensures Scan(Leaf(None), ps) == []
  {
    if ps != [] {
      ScanOfEmptyLeaf(ps[1..]);
    }
  }

  /** A tree whose root leaf holds one instance enumerates that instance
      (2s)^3 times: once for every point of its cube. */
  lemma SingleLeafRepeats(v: Instance, len: nat, scope: nat)
    ensures |Enumerate(Tree(Leaf(Some(v)), len, scope))| == AabbCounter.Cube(2 * scope)
    ensures forall w :: w in Enumerate(Tree(Leaf(Some(v)), len, scope)) ==> w == v
  {
    AabbCounter.NewCount(scope);
    ScanOfFullLeaf(v, AabbCounter.Run(AabbCounter.New(scope)));
  }

  /** For a routed tree whose items all lie in the counter's cube, the
      enumeration reports every item. */
  lemma EnumerateFindsRouted(t: Tree, w: Instance)
    requires Routed(t.root) && w in Items(t.root)
    requires AabbCounter.InBox(t.scope, w.position)
    ensures w in Enumerate(t)
  {
    var ps := AabbCounter.Run(AabbCounter.New(t.scope));
    AabbCounter.NewCoversCube(t.scope);
    var i :| 0 <= i < |ps| && ps[i] == w.position;
    RoutedGet(t.root, w);
    ScanMember(t.root, ps, w);
  }
}
