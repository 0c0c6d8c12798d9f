/** `OcTree::insert` and `OcTree::update_scope` of
    scenes/src/scenes/oc_tree.rs.  They sit apart from the node-level model
    because growth drains the tree through `RefIter`.  Every entry point
    takes a `fuel` bound; `Diverges` means the source does not return
    within it. */
module OcTreeInsert {
  import opened Wrappers
  import opened Octant
  import opened Instances
  import opened OcTree
  import RefIter
  import AabbCounter

  /** `OcTree::insert`: bump `len`, then grow until `v` is in scope and
      insert it at the root with the origin as centre and the scope as
      offset. */
  function Insert(fuel: nat, t: Tree, v: Instance): (r: Outcome<Tree>)
    requires Shaped(t.root)
    ensures r.Done? ==> Shaped(r.value.root) && r.value.scope >= t.scope
    ensures r.Done? ==> InScope(r.value.scope, v.position) && v in Items(r.value.root)
    ensures r.Done? && Routed(t.root) ==> Routed(r.value.root)
    ensures r.Done? && InScope(t.scope, v.position) ==>
              && r.value.scope == t.scope && r.value.len == t.len + 1
              && Items(r.value.root) == Items(t.root) + multiset{v}
    decreases fuel, 3, 0
  {
    Settle(fuel, Tree(t.root, t.len + 1, t.scope), v)
  }

  /** The `loop` of `OcTree::insert`: insert when in scope, otherwise
      `update_scope(scope * 2)` and try again. */
  function Settle(fuel: nat, t: Tree, v: Instance): (r: Outcome<Tree>)
    requires Shaped(t.root)
    ensures r.Done? ==> Shaped(r.value.root) && r.value.scope >= t.scope
    ensures r.Done? ==> InScope(r.value.scope, v.position) && v in Items(r.value.root)
    ensures r.Done? && Routed(t.root) ==> Routed(r.value.root)
    ensures r.Done? && InScope(t.scope, v.position) ==>
              && r.value.scope == t.scope && r.value.len == t.len
              && Items(r.value.root) == Items(t.root) + multiset{v}
    decreases fuel, 2, 0
  {
    if InScope(t.scope, v.position) then
      match NodeInsert(fuel, t.root, v, Origin, t.scope)
      case Done(n) => Done(Tree(n, t.len, t.scope))
      case Diverges => Diverges
    else if fuel == 0 then Diverges
    else
      match UpdateScope(fuel - 1, t, 2 * t.scope)
      case Done(grown) => Settle(fuel - 1, grown, v)
      case Diverges => Diverges
  }

  /** `OcTree::update_scope`: a fresh tree from `from_scope(newScope)`,
      filled by inserting, one by one, every instance the old tree's
      iterator reports; the old tree, its `len` included, is replaced.  When
      the old items lie in the old scope and the request is no smaller, the
      new scope is 2^newScope (not newScope) and `len` becomes the number of
      reports. */
  function UpdateScope(fuel: nat, t: Tree, newScope: nat): (r: Outcome<Tree>)
    requires Shaped(t.root)
    ensures r.Done? ==> Routed(r.value.root) && r.value.scope > newScope
    ensures r.Done? && newScope >= t.scope && (forall w :: w in Items(t.root) ==> InScope(t.scope, w.position)) ==>
              r.value.scope == Pow2(newScope) && r.value.len == |RefIter.Enumerate(t)|
    decreases fuel, 5, 0
  {
    Reinsert(fuel, FromScope(newScope), RefIter.Enumerate(t))
  }

  /** Insert each item into `acc` in order: the `for` loop of
      `update_scope`, and the stress test's insertion loop.  It diverges as
      soon as one insertion does; when every item is already in scope, the
      scope stays and `len` rises by one per item. */
  function Reinsert(fuel: nat, acc: Tree, items: seq<Instance>): (r: Outcome<Tree>)
    requires Shaped(acc.root)
    ensures r.Done? ==> Shaped(r.value.root) && r.value.scope >= acc.scope
    ensures r.Done? && Routed(acc.root) ==> Routed(r.value.root)
    ensures items != [] && Insert(fuel, acc, items[0]).Diverges? ==> r.Diverges?
    ensures r.Done? && (forall i :: 0 <= i < |items| ==> InScope(acc.scope, items[i].position)) ==>
              r.value.scope == acc.scope && r.value.len == acc.len + |items|
    decreases fuel, 4, |items|
  {
    if items == [] then Done(acc)
    else
      match Insert(fuel, acc, items[0])
      case Done(next) => Reinsert(fuel, next, items[1..])
      case Diverges => Diverges
  }

  /** Whenever insertion into a routed tree finishes, `get` at the new
      instance's position returns it. */
  lemma InsertThenGet(fuel: nat, t: Tree, v: Instance)
    requires Routed(t.root) && Insert(fuel, t, v).Done?
    ensures TreeGet(Insert(fuel, t, v).value, v.position) == Some(v)
  {
    RoutedGet(Insert(fuel, t, v).value.root, v);
  }

  /** The base test and the doc examples: `from_scope(3)` (scope 8), insert
      the default instance, and `get` at the origin returns it; so does the
      first `next` of `iter()`.  No growth and no split is involved, so
      this holds for every fuel. */
  lemma BaseWork(fuel: nat)
    ensures Insert(fuel, FromScope(3), DefaultInstance) == Done(Tree(Leaf(Some(DefaultInstance)), 1, 8))
    ensures TreeGet(Tree(Leaf(Some(DefaultInstance)), 1, 8), Origin) == Some(DefaultInstance)
    ensures RefIter.Next(RefIter.New(Tree(Leaf(Some(DefaultInstance)), 1, 8))).0 == Some(DefaultInstance)
  {
    FromScopeThree();
    var t := Tree(Leaf(Some(DefaultInstance)), 1, 8);
    var r := RefIter.Next(RefIter.New(t));
    RefIter.SingleLeafRepeats(DefaultInstance, 1, 8);
    assert |RefIter.Enumerate(t)| > 0;
    assert RefIter.Enumerate(t)[0] in RefIter.Enumerate(t);
  }

  /** The default tree has scope 0, where nothing is in scope; one growth
      step lifts it to scope 1 (2 to the power 0), the empty old tree
      contributes nothing, and `len` is overwritten with 0: after one
      insertion the tree holds the instance but reports length 0. */
  lemma DefaultTreeInsert(fuel: nat, v: Instance)
    requires fuel >= 1 && InScope(1, v.position)
    ensures Insert(fuel, DefaultTree, v) == Done(Tree(Leaf(Some(v)), 0, 1))
  {
    RefIter.ScanOfEmptyLeaf(AabbCounter.Run(AabbCounter.New(0)));
    assert RefIter.Enumerate(Tree(Leaf(None), 1, 0)) == [];
    assert FromScope(0) == Tree(Leaf(None), 0, 1);
    assert UpdateScope(fuel - 1, Tree(Leaf(None), 1, 0), 0) == Done(Tree(Leaf(None), 0, 1));
    assert NodeInsert(fuel - 1, Leaf(None), v, Origin, 1) == Done(Leaf(Some(v)));
    assert Settle(fuel - 1, Tree(Leaf(None), 0, 1), v) == Done(Tree(Leaf(Some(v)), 0, 1));
    assert Settle(fuel, Tree(Leaf(None), 1, 0), v) == Done(Tree(Leaf(Some(v)), 0, 1));
  }

  /** One growth step does not double the scope: `update_scope(scope * 2)`
      rebuilds with `from_scope(2 * scope)`, which has scope 2^(2 * scope).
      An empty tree of scope s that meets an instance just outside it
      jumps straight to 2^(2s) (4 becomes 256), and `len` is reset to 0.
      Scopes are unbounded here; `OcTree.InScopeCast` shows where the
      source's `as i32` casts part from this, from 2^31 on. */
  lemma InsertGrowsToPow2(fuel: nat, len: nat, s: nat, v: Instance)
    requires fuel >= 1 && !InScope(s, v.position) && InScope(Pow2(2 * s), v.position)
    ensures Insert(fuel, Tree(Leaf(None), len, s), v) == Done(Tree(Leaf(Some(v)), 0, Pow2(2 * s)))
  {
    var t := Tree(Leaf(None), len + 1, s);
    var grown := Tree(Leaf(None), 0, Pow2(2 * s));
    EmptyGrowth(fuel - 1, t, 2 * s);
    EmptyLeafSettles(fuel - 1, grown, v);
    InsertViaGrowth(fuel, Tree(Leaf(None), len, s), v, grown, Tree(Leaf(Some(v)), 0, Pow2(2 * s)));
  }


  /** An `insert` that needs one growth step: when `v` is out of scope,
      `update_scope(2 * scope)` finishes with `grown`, and the loop then
      finishes on `grown`, the whole call finishes the same way. */
  lemma InsertViaGrowth(fuel: nat, t: Tree, v: Instance, grown: Tree, final: Tree)
    requires Shaped(t.root) && fuel >= 1 && !InScope(t.scope, v.position)
    requires UpdateScope(fuel - 1, Tree(t.root, t.len + 1, t.scope), 2 * t.scope) == Done(grown)
    requires Settle(fuel - 1, grown, v) == Done(final)
    ensures Insert(fuel, t, v) == Done(final)
  {
  }

  /** An in-scope instance settles into an empty root leaf. */
  lemma EmptyLeafSettles(fuel: nat, t: Tree, v: Instance)
    requires t.root == Leaf(None) && InScope(t.scope, v.position)
    ensures Settle(fuel, t, v) == Done(Tree(Leaf(Some(v)), t.len, t.scope))
  {
    assert NodeInsert(fuel, Leaf(None), v, Origin, t.scope) == Done(Leaf(Some(v)));
  }

  /** Growing an empty tree re-inserts nothing: the result is the fresh
      `from_scope(newScope)`. */
  lemma EmptyGrowth(fuel: nat, t: Tree, newScope: nat)
    requires t.root == Leaf(None)
    ensures UpdateScope(fuel, t, newScope) == Done(Tree(Leaf(None), 0, Pow2(newScope)))
  {
    RefIter.ScanOfEmptyLeaf(AabbCounter.Run(AabbCounter.New(t.scope)));
    assert RefIter.Enumerate(t) == [];
  }

  /** The tree `from_scope(1)` (scope 2) after inserting `w` at (-1, -1, -1)
      and then `v` at (2, 0, 0): the split puts `w` in branch 0 and `v` in
      branch 1 of a trunk centred at (2, 2, 2). */
  function BoundaryTree(w: Instance, v: Instance): Tree
  {
    Tree(Trunk(Point(2, 2, 2), EmptyBranches[0 := Leaf(Some(w))][1 := Leaf(Some(v))]), 2, 2)
  }

  /** The first insertion into `from_scope(1)` fills the root leaf. */
  lemma BoundaryFirst(fuel: nat, w: Instance)
    requires w.position == Point(-1, -1, -1)
    ensures Insert(fuel, FromScope(1), w) == Done(Tree(Leaf(Some(w)), 1, 2))
  {
    assert FromScope(1) == Tree(Leaf(None), 0, 2);
    assert InScope(2, w.position);
  }

  /** The second splits the root leaf about (2, 2, 2). */
  lemma BoundarySecond(fuel: nat, w: Instance, v: Instance)
    requires fuel >= 1 && w.position == Point(-1, -1, -1) && v.position == Point(2, 0, 0)
    ensures Insert(fuel, Tree(Leaf(Some(w)), 1, 2), v) == Done(BoundaryTree(w, v))
  {
    assert InScope(2, v.position);
    var c := NewCentral(Origin, 2, w.Toward(Origin));
    assert w.Toward(Origin) == 0;
    assert c == Point(2, 2, 2);
    assert w.Toward(c) == 0 && v.Toward(c) == 1;
    assert SplitTrunk(c, w, v) == BoundaryTree(w, v).root;
    assert TrunkNew(fuel, c, 2, w, v) == Done(BoundaryTree(w, v).root);
  }

  /** `get` at (2, 0, 0) goes to branch 1 of the centre (2, 2, 2). */
  lemma BoundaryGet(w: Instance, v: Instance)
    requires w.position == Point(-1, -1, -1) && v.position == Point(2, 0, 0)
    ensures TreeGet(BoundaryTree(w, v), v.position) == Some(v)
  {
    var n := BoundaryTree(w, v).root;
    assert Toward(v.position, n.central) == 1;
    assert n.branches[1] == Leaf(Some(v));
    assert Get(n, v.position) == Get(n.branches[1], v.position);
  }

  /** A walk that stays in octant 0 of a trunk's centre only ever asks
      branch 0, so it reports what branch 0 alone would. */
  lemma {:induction false} ScanInOctantZero(c: Point, br: seq<Node>, ps: seq<Point>)
    requires |br| == 8 && Shaped(Trunk(c, br))
    requires forall i :: 0 <= i < |ps| ==> Toward(ps[i], c) == 0
    ensures RefIter.Scan(Trunk(c, br), ps) == RefIter.Scan(br[0], ps)
  {
    if ps != [] {
      ScanInOctantZero(c, br, ps[1..]);
      assert Get(Trunk(c, br), ps[0]) == Get(br[0], ps[0]);
    }
  }

  /** Every point of the counter's cube [-s, s)^3 lies in octant 0 of the
      corner (s, s, s), so the iterator over a trunk centred there reports
      exactly what its branch 0 holds for the cube: nothing below any other
      branch is ever reported. */
  lemma CornerTrunkAsksBranchZero(s: nat, br: seq<Node>)
    requires |br| == 8 && Shaped(Trunk(Point(s, s, s), br))
    ensures RefIter.Scan(Trunk(Point(s, s, s), br), AabbCounter.Run(AabbCounter.New(s)))
            == RefIter.Scan(br[0], AabbCounter.Run(AabbCounter.New(s)))
  {
    var ps := AabbCounter.Run(AabbCounter.New(s));
    AabbCounter.NewCoversCube(s);
    forall i | 0 <= i < |ps|
      ensures Toward(ps[i], Point(s, s, s)) == 0
    {
      assert ps[i] in ps;
    }
    ScanInOctantZero(Point(s, s, s), br, ps);
  }

  /** When branch 0 of the corner trunk is a leaf holding `w`, the
      iterator reports `w` alone, so no other instance is ever reported. */
  lemma CornerLeafHides(s: nat, br: seq<Node>, w: Instance, v: Instance)
    requires |br| == 8 && Shaped(Trunk(Point(s, s, s), br))
    requires br[0] == Leaf(Some(w)) && v != w
    ensures v !in RefIter.Scan(Trunk(Point(s, s, s), br), AabbCounter.Run(AabbCounter.New(s)))
  {
    var ps := AabbCounter.Run(AabbCounter.New(s));
    CornerTrunkAsksBranchZero(s, br);
    RefIter.ScanOfFullLeaf(w, ps);
  }

  /** The tree above never reports `v`. */
  lemma BoundaryUnreported(w: Instance, v: Instance)
    requires w.position == Point(-1, -1, -1) && v.position == Point(2, 0, 0)
    ensures v !in RefIter.Enumerate(BoundaryTree(w, v))
  {
    var t := BoundaryTree(w, v);
    assert w != v;
    CornerLeafHides(t.scope, t.root.branches, w, v);
  }

  /** `is_in_scope` admits x = scope, which the counter never visits: `v`
      at (2, 0, 0) is stored and `get` finds it, but every point of the
      counter's cube [-2, 2)^3 lies in octant 0 of the centre (2, 2, 2), so
      the iterator, and with it `update_scope`, never reports `v`. */
  lemma BoundaryInstanceNeverReported(fuel: nat, w: Instance, v: Instance)
    requires fuel >= 1 && w.position == Point(-1, -1, -1) && v.position == Point(2, 0, 0)
    ensures Insert(fuel, FromScope(1), w) == Done(Tree(Leaf(Some(w)), 1, 2))
    ensures Insert(fuel, Tree(Leaf(Some(w)), 1, 2), v) == Done(BoundaryTree(w, v))
    ensures TreeGet(BoundaryTree(w, v), v.position) == Some(v)
    ensures v !in RefIter.Enumerate(BoundaryTree(w, v))
  {
    BoundaryFirst(fuel, w);
    BoundarySecond(fuel, w, v);
    BoundaryGet(w, v);
    BoundaryUnreported(w, v);
  }

  /** Growing a tree whose root leaf holds an instance `w` in scope never
      finishes: the iterator reports `w` at every one of the (2s)^3 >= 8
      points, the first copy lands in the fresh root leaf, and the second
      copy shares every octant with it, so the split recurses forever. */
  lemma GrowthOfOccupiedRootDiverges(fuel: nat, w: Instance, len: nat, scope: nat, newScope: nat)
    requires scope >= 1 && newScope >= scope && InScope(scope, w.position)
    ensures UpdateScope(fuel, Tree(Leaf(Some(w)), len, scope), newScope) == Diverges
  {
    var t := Tree(Leaf(Some(w)), len, scope);
    LeafReportsTwice(w, len, scope);
    var grown := FromScope(newScope);
    assert InScope(grown.scope, w.position);
    TwinsDiverge(fuel, grown, RefIter.Enumerate(t), w);
  }

  /** A root leaf holding `w` is reported at least twice, first of all. */
  lemma LeafReportsTwice(w: Instance, len: nat, scope: nat)
    requires scope >= 1
    ensures var items := RefIter.Enumerate(Tree(Leaf(Some(w)), len, scope));
            |items| >= 2 && items[0] == w && items[1] == w
  {
    var items := RefIter.Enumerate(Tree(Leaf(Some(w)), len, scope));
    RefIter.SingleLeafRepeats(w, len, scope);
    CubeOfEvenSide(scope);
    assert items[0] in items && items[1] in items;
  }

  /** A cube of side 2s, for s >= 1, has at least 8 points. */
  lemma CubeOfEvenSide(scope: nat)
    requires scope >= 1
    ensures AabbCounter.Cube(2 * scope) >= 8
  {
    var n := 2 * scope;
    assert n * n >= 2 * n;
    assert n * n * n >= 4 * n;
  }

  /** Re-inserting a list that starts with two copies of `w` into an empty
      tree that has `w` in scope never finishes. */
  lemma TwinsDiverge(fuel: nat, grown: Tree, items: seq<Instance>, w: Instance)
    requires grown.root == Leaf(None) && InScope(grown.scope, w.position)
    requires |items| >= 2 && items[0] == w && items[1] == w
    ensures Reinsert(fuel, grown, items) == Diverges
  {
    var one := Tree(Leaf(Some(w)), grown.len + 1, grown.scope);
    FirstCopyFillsRoot(fuel, grown, w);
    SecondCopyDiverges(fuel, grown.scope, w, grown.len + 1);
    assert items[1..][0] == w;
    assert Reinsert(fuel, one, items[1..]) == Diverges;
  }


  /** The first reported copy lands in the fresh tree's empty root leaf. */
  lemma FirstCopyFillsRoot(fuel: nat, t: Tree, w: Instance)
    requires t.root == Leaf(None) && InScope(t.scope, w.position)
    ensures Insert(fuel, t, w) == Done(Tree(Leaf(Some(w)), t.len + 1, t.scope))
  {
    assert NodeInsert(fuel, Leaf(None), w, Origin, t.scope) == Done(Leaf(Some(w)));
  }

  /** A second copy of the root leaf's instance shares every octant with it,
      so its split never finishes. */
  lemma SecondCopyDiverges(fuel: nat, scope: nat, w: Instance, len: nat)
    requires InScope(scope, w.position)
    ensures Insert(fuel, Tree(Leaf(Some(w)), len, scope), w) == Diverges
  {
    var c := w.Toward(Origin);
    var next := NewCentral(Origin, scope, c);
    NewCentralKeepsOctant(w.position, Origin, scope, c);
    SameOctantDiverges(fuel, next, scope, w, w);
    assert NodeInsert(fuel, Leaf(Some(w)), w, Origin, scope) == Diverges;
  }

  /** The decimal digits of a natural number: `i.to_string()`. */
  function Decimal(i: nat): (s: string)
    ensures |s| >= 1
    ensures forall k :: 0 <= k < |s| ==> '0' <= s[k] <= '9'
    ensures |s| == 1 <==> i < 10
    ensures s[0] == '0' <==> i == 0
  {
    var digit := ['0' + (i % 10) as char];
    if i < 10 then digit else Decimal(i / 10) + digit
  }

  /** The i-th instance of the stress test: position (-i, i - 1, 2i),
      style tag the decimal of i. */
  function StressInstance(i: nat): (v: Instance)
    ensures v.position.x == -(i as int) && v.position.y == i - 1 && v.position.z == 2 * i
  {
    Instance(Point(-(i as int), i - 1, 2 * i), Decimal(i))
  }

  /** The stress test's first `n` instances, in insertion order. */
  function StressInstances(n: nat): (vs: seq<Instance>)
    ensures |vs| == n
    ensures forall i :: 0 <= i < n ==> vs[i] == StressInstance(i)
  {
    if n == 0 then [] else StressInstances(n - 1) + [StressInstance(n - 1)]
  }

  /** What the stress test asserts: inserting the 100 instances into
      `from_scope(4)` finishes and then `get` at each instance's position
      returns it. */
  predicate StressGoal(fuel: nat)
  {
    var r := Reinsert(fuel, FromScope(4), StressInstances(100));
    && r.Done?
    && forall i :: 0 <= i < 100 ==> TreeGet(r.value, StressInstance(i).position) == Some(StressInstance(i))
  }

  /** `from_scope(4)` has scope 16.  The first instance (0, -1, 0) fills the
      root leaf; the second, (-1, 0, 2), is in scope, but neither of its
      coordinates reaches 16 on an axis where (0, -1, 0) is negative, so the
      split never finishes. */
  lemma StressSecondInsertDiverges(fuel: nat)
    ensures Insert(fuel, Tree(Leaf(Some(StressInstance(0))), 1, 16), StressInstance(1)) == Diverges
  {
    if fuel >= 1 {
      SecondInsertAtRoot(fuel, StressInstance(0), StressInstance(1), 16);
    }
  }

  /** Inserting the stress test's first `n >= 2` instances into
      `from_scope(4)` never finishes, for every fuel. */
  lemma StressPrefixDiverges(fuel: nat, n: nat)
    requires n >= 2
    ensures Reinsert(fuel, FromScope(4), StressInstances(n)).Diverges?
  {
    var vs := StressInstances(n);
    assert FromScope(4) == Tree(Leaf(None), 0, 16);
    var one := Tree(Leaf(Some(StressInstance(0))), 1, 16);
    assert Insert(fuel, FromScope(4), vs[0]) == Done(one);
    StressSecondInsertDiverges(fuel);
    assert vs[1..] != [] && vs[1..][0] == StressInstance(1);
    assert Insert(fuel, one, vs[1..][0]) == Diverges;
    assert Reinsert(fuel, one, vs[1..]) == Diverges;
  }

  /** The stress test's promise fails for every fuel: the insertions never
      finish. */
  lemma StressTestDiverges(fuel: nat)
    ensures Reinsert(fuel, FromScope(4), StressInstances(100)).Diverges?
    ensures !StressGoal(fuel)
  {
    StressPrefixDiverges(fuel, 100);
  }

  /** `is_in_scope` and the counter disagree on the boundary: the point
      (s, 0, 0) is in scope but never enumerated, and (-s, 0, 0) is
      enumerated but out of scope. */
  lemma ScopeBoundaryMismatch(s: nat)
    requires s >= 1
    ensures InScope(s, Point(s, 0, 0)) && !AabbCounter.InBox(s, Point(s, 0, 0))
    ensures !InScope(s, Point(-(s as int), 0, 0)) && AabbCounter.InBox(s, Point(-(s as int), 0, 0))
  {
  }
}
