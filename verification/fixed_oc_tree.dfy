/** The octree of scenes/src/scenes/oc_tree.rs as its comments and tests
    describe it: every trunk covers a half-open cell [lo, hi) and is split
    around the cell's midpoint, a split descends into the child cell that
    holds both instances, a leaf answers only for its own position, the
    scope is the smallest power of two not below the requested one, the
    box is [-scope, scope), and growth keeps the contents and the length.
    Nodes and trees are those of the as-written model; only the operations
    differ. */
module FixedOcTree {
  import opened Wrappers
  import opened Octant
  import opened Instances
  import opened OcTree
  import AabbCounter
  import OcTreeInsert

  /** A box of lattice points: lo <= p < hi on every axis. */
  datatype Cell = Cell(lo: Point, hi: Point)

  predicate InCell(c: Cell, p: Point)
  {
    && c.lo.x <= p.x < c.hi.x
    && c.lo.y <= p.y < c.hi.y
    && c.lo.z <= p.z < c.hi.z
  }

  /** The split point of a cell: the floor of the midpoint on every axis. */
  function Mid(c: Cell): Point
  {
    Point((c.lo.x + c.hi.x) / 2, (c.lo.y + c.hi.y) / 2, (c.lo.z + c.hi.z) / 2)
  }

  /** The child cell for octant `t` about the midpoint: the upper half on
      every axis whose bit is set, the lower half otherwise. */
  function Child(c: Cell, t: nat): (r: Cell)
    ensures forall p :: InCell(r, p) ==> InCell(c, p)
  {
    var m := Mid(c);
    Cell(Point(if XHigh(t) then m.x else c.lo.x, if YHigh(t) then m.y else c.lo.y, if ZHigh(t) then m.z else c.lo.z),
         Point(if XHigh(t) then c.hi.x else m.x, if YHigh(t) then c.hi.y else m.y, if ZHigh(t) then c.hi.z else m.z))
  }

  /** The sum of the cell's side lengths. */
  function Width(c: Cell): int
  {
    (c.hi.x - c.lo.x) + (c.hi.y - c.lo.y) + (c.hi.z - c.lo.z)
  }

  /** A point of a cell lies in the child of its own octant about the
      midpoint, and a point of a child lies in that octant. */
  lemma ChildOfOctant(c: Cell, p: Point)
    requires InCell(c, p)
    ensures InCell(Child(c, Toward(p, Mid(c))), p)
  {
    TowardDecodes(p, Mid(c), Toward(p, Mid(c)));
  }

  /** Two different points of a cell that share an octant about the
      midpoint lie in a strictly narrower child. */
  lemma ChildShrinks(c: Cell, a: Point, b: Point)
    requires InCell(c, a) && InCell(c, b) && a != b
    requires Toward(a, Mid(c)) == Toward(b, Mid(c))
    ensures Width(Child(c, Toward(a, Mid(c)))) < Width(c)
  {
    TowardDecodes(a, Mid(c), Toward(a, Mid(c)));
  }

  /** The cells the nodes of a well-formed tree cover: each trunk is split
      at its cell's midpoint, each branch covers its octant's child cell,
      and each stored instance lies in its leaf's cell. */
  predicate Valid(n: Node, c: Cell)
    ensures Valid(n, c) ==> Shaped(n)
    decreases n
  {
    match n
    case Leaf(None) => true
    case Leaf(Some(w)) => InCell(c, w.position)
    case Trunk(m, br) =>
      && m == Mid(c) && |br| == 8
      && forall t :: 0 <= t < 8 ==> Valid(br[t], Child(c, t))
  }

  /** `get`, corrected: route by octant as before, but a leaf answers only
      for the position of the instance it holds. */
  function Get(n: Node, p: Point): (r: Option<Instance>)
    requires Shaped(n)
    ensures r.Some? ==> r.value.position == p
  {
    match n
    case Leaf(None) => None
    case Leaf(Some(w)) => if w.position == p then Some(w) else None
    case Trunk(m, br) => Get(br[Toward(p, m)], p)
  }

  /** A well-formed node holds nothing outside its cell. */
  lemma {:induction false} GetOutside(n: Node, c: Cell, p: Point)
    requires Valid(n, c) && !InCell(c, p)
    ensures Get(n, p) == None
    decreases n
  {
    if n.Trunk? {
      var t := Toward(p, n.central);
      GetOutside(n.branches[t], Child(c, t), p);
    }
  }

  /** What a split of `a` and `b` answers: each at its own position,
      nothing elsewhere. */
  ghost predicate HoldsPair(n: Node, a: Instance, b: Instance)
    requires Shaped(n)
  {
    forall p :: Get(n, p) == if p == a.position then Some(a) else if p == b.position then Some(b) else None
  }

  /** Two instances in different octants of the midpoint go to two leaves. */
  lemma ApartSplit(c: Cell, a: Instance, b: Instance)
    requires InCell(c, a.position) && InCell(c, b.position)
    requires Toward(a.position, Mid(c)) != Toward(b.position, Mid(c))
    ensures var n := Trunk(Mid(c), EmptyBranches[Toward(a.position, Mid(c)) := Leaf(Some(a))][Toward(b.position, Mid(c)) := Leaf(Some(b))]);
            Valid(n, c) && HoldsPair(n, a, b)
  {
    var m, at, bt := Mid(c), Toward(a.position, Mid(c)), Toward(b.position, Mid(c));
    var br := EmptyBranches[at := Leaf(Some(a))][bt := Leaf(Some(b))];
    var n := Trunk(m, br);
    ChildOfOctant(c, a.position);
    ChildOfOctant(c, b.position);
    forall t | 0 <= t < 8
      ensures Valid(br[t], Child(c, t))
    {
      if t != at && t != bt {
        assert br[t] == Leaf(None);
      }
    }
    forall p
      ensures Get(n, p) == if p == a.position then Some(a) else if p == b.position then Some(b) else None
    {
      var t := Toward(p, m);
      assert Get(n, p) == Get(br[t], p);
      if t != at && t != bt {
        assert br[t] == Leaf(None);
      }
    }
  }

  /** Two instances sharing octant `t` go to a split of the child cell. */
  lemma SharedSplit(c: Cell, t: nat, sub: Node, a: Instance, b: Instance)
    requires t == Toward(a.position, Mid(c)) == Toward(b.position, Mid(c))
    requires Valid(sub, Child(c, t)) && HoldsPair(sub, a, b)
    ensures Valid(Trunk(Mid(c), EmptyBranches[t := sub]), c)
    ensures HoldsPair(Trunk(Mid(c), EmptyBranches[t := sub]), a, b)
  {
    var n := Trunk(Mid(c), EmptyBranches[t := sub]);
    forall p
      ensures Get(n, p) == if p == a.position then Some(a) else if p == b.position then Some(b) else None
    {
      if Toward(p, Mid(c)) != t {
        assert p != a.position && p != b.position;
      }
    }
  }

  /** `Trunk::new`, corrected: split the cell around its midpoint; when the
      two instances share an octant, split that octant's child cell, which
      is strictly narrower, so the recursion ends. */
  function Split(c: Cell, a: Instance, b: Instance): (r: Node)
    requires InCell(c, a.position) && InCell(c, b.position) && a.position != b.position
    ensures Valid(r, c) && r.Trunk?
    ensures HoldsPair(r, a, b)
    decreases Width(c)
  {
    var m := Mid(c);
    var ta, tb := Toward(a.position, m), Toward(b.position, m);
    if ta != tb then
      ApartSplit(c, a, b);
      Trunk(m, EmptyBranches[ta := Leaf(Some(a))][tb := Leaf(Some(b))])
    else
      ChildOfOctant(c, a.position);
      ChildOfOctant(c, b.position);
      ChildShrinks(c, a.position, b.position);
      var sub := Split(Child(c, ta), a, b);
      SharedSplit(c, ta, sub, a, b);
      Trunk(m, EmptyBranches[ta := sub])
  }

  /** `Node::insert`, corrected: an empty leaf takes the instance, a leaf
      holding the same position is overwritten, a leaf holding another
      position is split, and a trunk passes the instance down to the
      branch of its octant.  Afterwards `get` answers `v` at its position
      and what it answered before everywhere else. */
  function Insert(n: Node, c: Cell, v: Instance): (r: Node)
    requires Valid(n, c) && InCell(c, v.position)
    ensures Valid(r, c)
    ensures forall p :: Get(r, p) == if p == v.position then Some(v) else Get(n, p)
    decreases n
  {
    match n
    case Leaf(None) => Leaf(Some(v))
    case Leaf(Some(w)) => if w.position == v.position then Leaf(Some(v)) else Split(c, w, v)
    case Trunk(m, br) =>
      var t := Toward(v.position, m);
      ChildOfOctant(c, v.position);
      Trunk(m, br[t := Insert(br[t], Child(c, t), v)])
  }

  /** `from_scope`'s search, corrected to try 2^0, 2^1, 2^2, ... in turn:
      the smallest power of two not below `n`. */
  function Pow2Ceil(n: nat): (r: nat)
    ensures IsPow2(r) && r >= n && r >= 1
    ensures r == 1 || r / 2 < n
  {
    if n <= 1 then 1
    else
      var h := Pow2Ceil((n + 1) / 2);
      assert (2 * h) / 2 == h && (2 * h) % 2 == 0;
      2 * h
  }

  /** `OcTree::from_scope`, corrected: an empty tree whose scope is the
      smallest power of two not below the request. */
  function FromScope(scope: nat): (t: Tree)
    ensures t.root == Leaf(None) && t.len == 0
    ensures t.scope >= scope && IsPow2(t.scope)
    ensures t.scope == 1 || t.scope / 2 < scope
  {
    Tree(Leaf(None), 0, Pow2Ceil(scope))
  }

  /** The doc example of `from_scope`: a request of 3 gives scope 4. */
  lemma FromScopeThree()
    ensures FromScope(3).scope == 4
  {
  }

  /** The tree's box: [-scope, scope) on every axis. */
  function RootCell(scope: nat): Cell
  {
    Cell(Point(-(scope as int), -(scope as int), -(scope as int)), Point(scope, scope, scope))
  }

  /** `OcTree::is_in_scope`, corrected to the box the doc comment and the
      counter use. */
  predicate InScope(scope: nat, p: Point)
    ensures InScope(scope, p) ==> scope >= 1 && -(scope as int) <= p.x < scope
  {
    InCell(RootCell(scope), p)
  }

  /** The corrected scope test is exactly the counter's cube, and the root
      cell is split around `CENTRAL`. */
  lemma InScopeIsCounterBox(scope: nat)
    ensures forall p :: InScope(scope, p) <==> AabbCounter.InBox(scope, p)
    ensures Mid(RootCell(scope)) == Origin
  {
  }

  /** A box of a larger scope contains the smaller box. */
  lemma RootCellGrows(small: nat, large: nat, p: Point)
    requires small <= large && InScope(small, p)
    ensures InScope(large, p)
  {
  }

  /** A well-formed tree: its root covers the box of its scope. */
  predicate ValidTree(t: Tree)
  {
    Valid(t.root, RootCell(t.scope))
  }

  /** `OcTree::get`: the instance stored at `p`, if any. */
  function TreeGet(t: Tree, p: Point): (r: Option<Instance>)
    requires ValidTree(t)
    ensures r.Some? ==> r.value.position == p
  {
    Get(t.root, p)
  }

  /** The last instance in `vs` at position `p`: what a sequence of
      insertions leaves at `p`. */
  function LastAt(vs: seq<Instance>, p: Point): (r: Option<Instance>)
    ensures r.Some? ==> r.value in vs && r.value.position == p
    ensures r.None? <==> forall i :: 0 <= i < |vs| ==> vs[i].position != p
  {
    if vs == [] then None
    else if vs[|vs| - 1].position == p then Some(vs[|vs| - 1])
    else LastAt(vs[..|vs| - 1], p)
  }

  /** No two instances of `vs` share a position. */
  predicate DistinctPositions(vs: seq<Instance>)
  {
    forall i, j :: 0 <= i < j < |vs| ==> vs[i].position != vs[j].position
  }

  /** With distinct positions, the last instance at each one's position is
      that instance itself. */
  lemma {:induction false} LastAtDistinct(vs: seq<Instance>, i: nat)
    requires DistinctPositions(vs) && i < |vs|
    ensures LastAt(vs, vs[i].position) == Some(vs[i])
  {
    if i < |vs| - 1 {
      LastAtDistinct(vs[..|vs| - 1], i);
    }
  }

  /** Insert every instance of `items`, in order, into one node. */
  function Rebuild(n: Node, c: Cell, items: seq<Instance>): (r: Node)
    requires Valid(n, c)
    requires forall i :: 0 <= i < |items| ==> InCell(c, items[i].position)
    ensures Valid(r, c)
    ensures forall p :: Get(r, p) == if LastAt(items, p).Some? then LastAt(items, p) else Get(n, p)
  {
    if items == [] then n
    else Insert(Rebuild(n, c, items[..|items| - 1]), c, items[|items| - 1])
  }

  /** The corrected counterpart of `RefIter.Scan`: the hits of the
      corrected `get` along the positions, in order.  It peels positions
      off the end, so that the last report is the newest when the reports
      are replayed. */
  function Scan(n: Node, ps: seq<Point>): (r: seq<Instance>)
    requires Shaped(n)
    ensures forall i :: 0 <= i < |r| ==> Get(n, r[i].position) == Some(r[i]) && r[i].position in ps
  {
    if ps == [] then []
    else
      var rest := Scan(n, ps[..|ps| - 1]);
      match Get(n, ps[|ps| - 1])
      case Some(w) => rest + [w]
      case None => rest
  }

  /** Replaying the scan of `ps` leaves at each position of `ps` what the
      node holds there, and nothing elsewhere. */
  lemma {:induction false} ScanLastAt(n: Node, ps: seq<Point>, p: Point)
    requires Shaped(n)
    ensures LastAt(Scan(n, ps), p) == if p in ps then Get(n, p) else None
  {
    if ps != [] {
      var pre := ps[..|ps| - 1];
      ScanLastAt(n, pre, p);
      assert p in ps <==> p in pre || p == ps[|ps| - 1];
      var rest := Scan(n, pre);
      match Get(n, ps[|ps| - 1])
      case Some(w) =>
        assert (rest + [w])[..|rest|] == rest;
      case None =>
    }
  }

  /** `OcTree::iter` drained, corrected: the scan of the counter's cube. */
  function Enumerate(t: Tree): (r: seq<Instance>)
    requires ValidTree(t)
    ensures forall i :: 0 <= i < |r| ==> InScope(t.scope, r[i].position)
    ensures forall p :: LastAt(r, p) == Get(t.root, p)
  {
    var ps := AabbCounter.Run(AabbCounter.New(t.scope));
    var r := Scan(t.root, ps);
    AabbCounter.NewCoversCube(t.scope);
    InScopeIsCounterBox(t.scope);
    assert forall i :: 0 <= i < |r| ==> r[i].position in ps;
    forall p
      ensures LastAt(r, p) == Get(t.root, p)
    {
      ScanLastAt(t.root, ps, p);
      if p !in ps {
        GetOutside(t.root, RootCell(t.scope), p);
      }
    }
    r
  }

  /** Instances in strictly increasing scan order of their positions. */
  predicate InScanOrder(vs: seq<Instance>)
  {
    forall i, j :: 0 <= i < j < |vs| ==> AabbCounter.Before(vs[i].position, vs[j].position)
  }

  /** Positions scanned in strictly increasing order give hits in strictly
      increasing order. */
  lemma {:induction false} ScanSorted(n: Node, ps: seq<Point>)
    requires Shaped(n)
    requires forall i, j :: 0 <= i < j < |ps| ==> AabbCounter.Before(ps[i], ps[j])
    ensures InScanOrder(Scan(n, ps))
  {
    if ps != [] {
      var pre := ps[..|ps| - 1];
      var last := ps[|ps| - 1];
      assert forall i :: 0 <= i < |pre| ==> pre[i] == ps[i];
      ScanSorted(n, pre);
      var rest := Scan(n, pre);
      forall i | 0 <= i < |rest|
        ensures AabbCounter.Before(rest[i].position, last)
      {
        var k :| 0 <= k < |pre| && pre[k] == rest[i].position;
        assert ps[k] == pre[k];
      }
      match Get(n, last)
      case Some(w) =>
        var r := rest + [w];
        assert w.position == last;
        assert forall i :: 0 <= i < |rest| ==> r[i] == rest[i];
      case None =>
    }
  }

  /** Enumeration follows the scan order: z slowest, then y, then x, each
      position at most once. */
  lemma EnumerateSorted(t: Tree)
    requires ValidTree(t)
    ensures InScanOrder(Enumerate(t))
  {
    var ps := AabbCounter.Run(AabbCounter.New(t.scope));
    AabbCounter.RunFacts(AabbCounter.New(t.scope));
    ScanSorted(t.root, ps);
    assert Enumerate(t) == Scan(t.root, ps);
  }

  /** Nothing is found outside the tree's box. */
  lemma AbsentOutsideScope(t: Tree, p: Point)
    requires ValidTree(t) && !InScope(t.scope, p)
    ensures TreeGet(t, p) == None
  {
    GetOutside(t.root, RootCell(t.scope), p);
  }

  /** The corrected iterator reports an instance iff `get` finds it at its
      own position. */
  lemma EnumerateExact(t: Tree, w: Instance)
    requires ValidTree(t)
    ensures w in Enumerate(t) <==> TreeGet(t, w.position) == Some(w)
  {
    var r := Enumerate(t);
    if TreeGet(t, w.position) == Some(w) {
      assert LastAt(r, w.position) == Some(w);
    }
  }

  /** `OcTree::update_scope(scope * 2)`, corrected: rebuild into a fresh
      tree of `from_scope(2 * scope)` from what the iterator reports, and
      keep `len`.  Every position answers as before. */
  function Grow(t: Tree): (r: Tree)
    requires ValidTree(t)
    ensures ValidTree(r) && r.scope > t.scope && r.len == t.len
    ensures forall p :: Get(r.root, p) == Get(t.root, p)
  {
    var bigger := FromScope(2 * t.scope);
    var items := Enumerate(t);
    forall i | 0 <= i < |items|
      ensures InScope(bigger.scope, items[i].position)
    {
      RootCellGrows(t.scope, bigger.scope, items[i].position);
    }
    Tree(Rebuild(bigger.root, RootCell(bigger.scope), items), t.len, bigger.scope)
  }

  /** A bound on the scope a point needs: any scope at least this big holds
      the point. */
  function Reach(p: Point): nat
  {
    Abs(p.x) + Abs(p.y) + Abs(p.z) + 1
  }

  /** `OcTree::insert`, corrected: grow until the instance is in scope, then
      insert it at the root.  As in the code, `len` rises by one on every
      call, an overwrite included; unlike the code, growth keeps it.  Every
      other position answers as before. */
  function TreeInsert(t: Tree, v: Instance): (r: Tree)
    requires ValidTree(t)
    ensures ValidTree(r) && r.scope >= t.scope && InScope(r.scope, v.position)
    ensures forall p :: Get(r.root, p) == if p == v.position then Some(v) else Get(t.root, p)
    ensures r.len == t.len + 1
    decreases Reach(v.position) - t.scope
  {
    if InScope(t.scope, v.position) then
      Tree(Insert(t.root, RootCell(t.scope), v), t.len + 1, t.scope)
    else
      TreeInsert(Grow(t), v)
  }

  /** Insert every instance of `vs` in order. */
  function InsertAll(t: Tree, vs: seq<Instance>): (r: Tree)
    requires ValidTree(t)
    ensures ValidTree(r) && r.scope >= t.scope
    ensures forall p :: Get(r.root, p) == if LastAt(vs, p).Some? then LastAt(vs, p) else Get(t.root, p)
  {
    if vs == [] then t
    else TreeInsert(InsertAll(t, vs[..|vs| - 1]), vs[|vs| - 1])
  }

  /** The stress test's promise, for the corrected tree: after inserting
      instances with distinct positions, `get` at each position returns its
      instance... */
  lemma InsertAllRoundTrip(t: Tree, vs: seq<Instance>)
    requires ValidTree(t) && DistinctPositions(vs)
    ensures forall i :: 0 <= i < |vs| ==> TreeGet(InsertAll(t, vs), vs[i].position) == Some(vs[i])
  {
    forall i | 0 <= i < |vs|
      ensures TreeGet(InsertAll(t, vs), vs[i].position) == Some(vs[i])
    {
      LastAtDistinct(vs, i);
    }
  }

  /** ... and `len` grows by one for each of them, whatever growth the
      insertions needed. */
  lemma {:induction false} InsertAllCounts(t: Tree, vs: seq<Instance>)
    requires ValidTree(t)
    ensures InsertAll(t, vs).len == t.len + |vs|
  {
    if vs != [] {
      InsertAllCounts(t, vs[..|vs| - 1]);
    }
  }

  /** The stress test of oc_tree.rs passes on the corrected tree, for its
      100 instances and for any other count: the instances (-i, i - 1, 2i)
      inserted into `from_scope(4)` are all found again, and the length is
      their number. */
  lemma StressTestPasses(n: nat)
    ensures var r := InsertAll(FromScope(4), OcTreeInsert.StressInstances(n));
            && (forall i :: 0 <= i < n ==>
                  TreeGet(r, OcTreeInsert.StressInstance(i).position) == Some(OcTreeInsert.StressInstance(i)))
            && r.len == n
  {
    var vs := OcTreeInsert.StressInstances(n);
    var t := FromScope(4);
    assert DistinctPositions(vs) by {
      forall i, j | 0 <= i < j < |vs|
        ensures vs[i].position != vs[j].position
      {
        assert vs[i].position.x == -i && vs[j].position.x == -j;
      }
    }
    InsertAllRoundTrip(t, vs);
    InsertAllCounts(t, vs);
    var r := InsertAll(t, vs);
    forall i | 0 <= i < n
      ensures TreeGet(r, OcTreeInsert.StressInstance(i).position) == Some(OcTreeInsert.StressInstance(i))
    {
      assert vs[i] == OcTreeInsert.StressInstance(i);
    }
  }

  /** The growth example of the `from_scope` doc comment: scope 4 keeps
      (3, -4, 3), and (0, 0, 4) doubles the scope to 8. */
  lemma DocGrowthExample(a: Instance, b: Instance)
    requires a.position == Point(3, -4, 3) && b.position == Point(0, 0, 4)
    ensures TreeInsert(FromScope(3), a).scope == 4
    ensures TreeInsert(TreeInsert(FromScope(3), a), b).scope == 8
  {
    var t := TreeInsert(FromScope(3), a);
    assert t.scope == 4;
    assert !InScope(4, b.position);
    var g := Grow(t);
    assert g.scope == Pow2Ceil(8) == 8;
    assert TreeInsert(t, b) == TreeInsert(g, b);
  }

  /** Inserting into the default tree: the instance is stored and the
      length is 1. */
  lemma DefaultTreeCounts(v: Instance)
    ensures TreeInsert(DefaultTree, v).len == 1
    ensures TreeGet(TreeInsert(DefaultTree, v), v.position) == Some(v)
  {
  }
}
