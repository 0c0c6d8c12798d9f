/** The octree of scenes/src/scenes/oc_tree.rs, as written: the recursive
    `Node`, the `Trunk` split, point lookup, and the `OcTree` record with
    `from_scope` and `is_in_scope`.  Insertion into a node can recurse
    without end, so it carries a `fuel` bound: every `Trunk::new` call
    spends one unit, and `Diverges` means the bound ran out. */
module OcTree {
  import opened Wrappers
  import opened Octant
  import opened Instances

  /** `Node`: a leaf holding at most one instance, or a trunk split around
      `central` into eight branches indexed by octant. */
  datatype Node = Leaf(item: Option<Instance>) | Trunk(central: Point, branches: seq<Node>)

  /** `OcTree`: the root node, the insertion counter and the half-extent. */
  datatype Tree = Tree(root: Node, len: nat, scope: nat)

  /** Eight `Node::default()` branches, as `Trunk::new` starts from. */
  const EmptyBranches: seq<Node> :=
    [Leaf(None), Leaf(None), Leaf(None), Leaf(None), Leaf(None), Leaf(None), Leaf(None), Leaf(None)]

  /** `OcTree::default()`: an empty root with scope 0. */
  const DefaultTree: Tree := Tree(Leaf(None), 0, 0)

  /** Every trunk has exactly eight branches (`[Box<Node>; 8]`). */
  predicate Shaped(n: Node)
  {
    match n
    case Leaf(_) => true
    case Trunk(_, br) => |br| == 8 && forall t :: 0 <= t < 8 ==> Shaped(br[t])
  }

  /** The instances stored in the leaves below `n`, with repetitions. */
  function Items(n: Node): multiset<Instance>
    decreases n
  {
    match n
    case Leaf(None) => multiset{}
    case Leaf(Some(v)) => multiset{v}
    case Trunk(_, br) => ItemsOf(br)
  }

  function ItemsOf(br: seq<Node>): multiset<Instance>
    decreases br
  {
    if |br| == 0 then multiset{} else ItemsOf(br[..|br| - 1]) + Items(br[|br| - 1])
  }

  /** Every instance below a trunk sits in the branch of its own octant
      about that trunk's centre, at every level. */
  predicate Routed(n: Node)
    ensures Routed(n) ==> Shaped(n)
  {
    match n
    case Leaf(_) => true
    case Trunk(c, br) =>
      && |br| == 8
      && (forall t :: 0 <= t < 8 ==> Routed(br[t]))
      && (forall t, w :: 0 <= t < 8 && w in Items(br[t]) ==> Toward(w.position, c) == t)
  }

  lemma {:induction false} ItemsOfHas(br: seq<Node>, i: int)
    requires 0 <= i < |br|
    ensures Items(br[i]) <= ItemsOf(br)
    decreases br
  {
    if i < |br| - 1 {
      ItemsOfHas(br[..|br| - 1], i);
      assert br[..|br| - 1][i] == br[i];
    }
  }

  lemma {:induction false} ItemsOfMember(br: seq<Node>, w: Instance) returns (i: int)
    requires w in ItemsOf(br)
    ensures 0 <= i < |br| && w in Items(br[i])
    decreases br
  {
    if w in Items(br[|br| - 1]) {
      i := |br| - 1;
    } else {
      i := ItemsOfMember(br[..|br| - 1], w);
      assert br[..|br| - 1][i] == br[i];
    }
  }

  /** Replacing one branch replaces exactly its share of the items. */
  lemma {:induction false} ItemsOfUpdate(br: seq<Node>, i: int, n: Node)
    requires 0 <= i < |br|
    ensures ItemsOf(br[i := n]) + Items(br[i]) == ItemsOf(br) + Items(n)
    decreases br
  {
    var last := |br| - 1;
    var br' := br[i := n];
    if i == last {
      assert br'[..last] == br[..last];
    } else {
      assert br'[..last] == br[..last][i := n];
      assert br[..last][i] == br[i];
      ItemsOfUpdate(br[..last], i, n);
      Rearrange(ItemsOf(br'[..last]), ItemsOf(br[..last]), Items(br[last]), Items(br[i]), Items(n));
    }
  }

  /** Adding the same items to both sides of a multiset equation. */
  lemma Rearrange(front': multiset<Instance>, front: multiset<Instance>, tail: multiset<Instance>,
                  old_: multiset<Instance>, new_: multiset<Instance>)
    requires front' + old_ == front + new_
    ensures (front' + tail) + old_ == (front + tail) + new_
  {
    forall e
      ensures ((front' + tail) + old_)[e] == ((front + tail) + new_)[e]
    {
      assert (front' + old_)[e] == (front + new_)[e];
    }
  }

  lemma Cancel(x: multiset<Instance>, y: multiset<Instance>, a: multiset<Instance>)
    requires x + a == y + a
    ensures x == y
  {
    forall e
      ensures x[e] == y[e]
    {
      assert (x + a)[e] == (y + a)[e];
    }
  }

  /** Branches that are all empty except possibly branch `i` hold just
      that branch's items. */
  lemma {:induction false} ItemsOfOnly(br: seq<Node>, i: nat)
    requires forall t :: 0 <= t < |br| && t != i ==> br[t] == Leaf(None)
    ensures ItemsOf(br) == if i < |br| then Items(br[i]) else multiset{}
    decreases br
  {
    if |br| > 0 {
      var last := |br| - 1;
      ItemsOfOnly(br[..last], i);
      if i < last {
        assert br[..last][i] == br[i];
      }
    }
  }

  /** `Node::get`: an occupied leaf answers with its instance whatever the
      queried position; a trunk forwards to the branch of the query's octant. */
  function Get(n: Node, p: Point): (r: Option<Instance>)
    requires Shaped(n)
    ensures r.Some? ==> r.value in Items(n)
  {
    match n
    case Leaf(item) => item
    case Trunk(c, br) =>
      var t := Toward(p, c);
      ItemsOfHas(br, t);
      Get(br[t], p)
  }

  /** `OcTree::get`. */
  function TreeGet(tree: Tree, p: Point): (r: Option<Instance>)
    requires Shaped(tree.root)
    ensures r.Some? ==> r.value in Items(tree.root)
  {
    Get(tree.root, p)
  }

  /** In a routed node, `get` at the position of any stored instance
      finds that instance. */
  lemma {:induction false} RoutedGet(n: Node, w: Instance)
    requires Routed(n) && w in Items(n)
    ensures Get(n, w.position) == Some(w)
    decreases n
  {
    match n
    case Leaf(_) =>
    case Trunk(c, br) =>
      var t := ItemsOfMember(br, w);
      RoutedGet(br[t], w);
  }

  /** `Node::__get_new_central__`: each axis of `last` moves by exactly
      `offset`, down when that axis' bit of `toward` is set and up when it is
      clear; nothing else changes. */
  function NewCentral(last: Point, offset: nat, toward: nat): (c: Point)
    ensures c.x - last.x == (if XHigh(toward) then -(offset as int) else offset as int)
    ensures c.y - last.y == (if YHigh(toward) then -(offset as int) else offset as int)
    ensures c.z - last.z == (if ZHigh(toward) then -(offset as int) else offset as int)
  {
    Point(if toward % 2 != 0 then last.x - offset else last.x + offset,
          if toward % 4 / 2 != 0 then last.y - offset else last.y + offset,
          if toward / 4 != 0 then last.z - offset else last.z + offset)
  }

  /** The new centre steps AWAY from octant `t`, so a point in octant `t`
      of `last` is still in octant `t` of the new centre. */
  lemma NewCentralKeepsOctant(p: Point, last: Point, offset: nat, t: nat)
    requires Toward(p, last) == t
    ensures Toward(p, NewCentral(last, offset, t)) == t
  {
    TowardDecodes(p, last, t);
    TowardDecodes(p, NewCentral(last, offset, t), t);
  }

  /** Replacing the branch of `v`'s octant by one holding that branch's
      items plus `v` keeps a trunk routed. */
  lemma RoutedUpdate(n: Node, t: nat, b: Node, v: Instance)
    requires n.Trunk? && |n.branches| == 8 && t == Toward(v.position, n.central)
    requires Items(b) == Items(n.branches[t]) + multiset{v}
    requires Routed(n) ==> Routed(b)
    ensures Items(Trunk(n.central, n.branches[t := b])) == Items(n) + multiset{v}
    ensures Routed(n) ==> Routed(Trunk(n.central, n.branches[t := b]))
  {
    var r := Trunk(n.central, n.branches[t := b]);
    ItemsOfUpdate(n.branches, t, b);
    assert Items(r) + Items(n.branches[t]) == (Items(n) + multiset{v}) + Items(n.branches[t]);
    Cancel(Items(r), Items(n) + multiset{v}, Items(n.branches[t]));
    if Routed(n) {
      forall s, w | 0 <= s < 8 && w in Items(r.branches[s])
        ensures Toward(w.position, n.central) == s
      {
        if s == t {
          assert w in Items(n.branches[t]) || w == v;
        } else {
          assert w in Items(n.branches[s]);
        }
      }
    }
  }

  /** `Node::insert`: an empty leaf takes the instance, an occupied leaf
      becomes a trunk around a new centre, a trunk forwards to its branch. */
  function NodeInsert(fuel: nat, n: Node, v: Instance, central: Point, offset: nat): (r: Outcome<Node>)
    requires Shaped(n)
    ensures r.Done? ==> Shaped(r.value) && Items(r.value) == Items(n) + multiset{v}
    ensures r.Done? && Routed(n) ==> Routed(r.value)
    decreases fuel, 1, n, 1
  {
    match n
    case Trunk(_, _) => TrunkInsert(fuel, n, offset, v)
    case Leaf(Some(vo)) => TrunkNew(fuel, NewCentral(central, offset, vo.Toward(central)), offset, vo, v)
    case Leaf(None) => Done(Leaf(Some(v)))
  }

  /** `Trunk::insert`: route `v` by its octant about the trunk's centre and
      insert it into that branch with half the offset; the other seven
      branches and the centre stay as they were. */
  function TrunkInsert(fuel: nat, n: Node, offset: nat, v: Instance): (r: Outcome<Node>)
    requires n.Trunk? && Shaped(n)
    ensures r.Done? ==> r.value.Trunk? && r.value.central == n.central && |r.value.branches| == 8
    ensures r.Done? ==> forall t :: 0 <= t < 8 && t != v.Toward(n.central) ==> r.value.branches[t] == n.branches[t]
    ensures r.Done? ==> Shaped(r.value) && Items(r.value) == Items(n) + multiset{v}
    ensures r.Done? && Routed(n) ==> Routed(r.value)
    decreases fuel, 1, n, 0
  {
    var t := v.Toward(n.central);
    match NodeInsert(fuel, n.branches[t], v, n.central, offset / 2)
    case Diverges => Diverges
    case Done(b) =>
      RoutedUpdate(n, t, b, v);
      var r := Trunk(n.central, n.branches[t := b]);
      Done(r)
  }

  /** Two leaves in distinct branches among empty ones hold exactly their
      two instances. */
  lemma TwoLeavesItems(at: nat, bt: nat, a: Instance, b: Instance)
    requires at < 8 && bt < 8 && at != bt
    ensures ItemsOf(EmptyBranches[at := Leaf(Some(a))][bt := Leaf(Some(b))]) == multiset{a, b}
  {
    assert forall t :: 0 <= t < |EmptyBranches| ==> EmptyBranches[t] == Leaf(None);
    TwoLeavesAmongEmpty(EmptyBranches, at, bt, a, b);
  }

  /** The same, for any sequence of empty branches. */
  lemma TwoLeavesAmongEmpty(empty: seq<Node>, at: nat, bt: nat, a: Instance, b: Instance)
    requires at < |empty| && bt < |empty| && at != bt
    requires forall t :: 0 <= t < |empty| ==> empty[t] == Leaf(None)
    ensures ItemsOf(empty[at := Leaf(Some(a))][bt := Leaf(Some(b))]) == multiset{a, b}
  {
    var one := empty[at := Leaf(Some(a))];
    OneLeafAmongEmpty(empty, at, a);
    assert one[bt] == Leaf(None);
    ItemsOfUpdate(one, bt, Leaf(Some(b)));
    var br := one[bt := Leaf(Some(b))];
    assert ItemsOf(br) + multiset{} == multiset{a} + multiset{b};
    assert ItemsOf(br) + multiset{} == ItemsOf(br);
  }

  /** One leaf among empty branches holds exactly its instance. */
  lemma OneLeafAmongEmpty(empty: seq<Node>, at: nat, a: Instance)
    requires at < |empty|
    requires forall t :: 0 <= t < |empty| ==> empty[t] == Leaf(None)
    ensures ItemsOf(empty[at := Leaf(Some(a))]) == multiset{a}
  {
    var one := empty[at := Leaf(Some(a))];
    assert forall t :: 0 <= t < |one| && t != at ==> one[t] == Leaf(None);
    ItemsOfOnly(one, at);
    assert one[at] == Leaf(Some(a));
  }



  /** The trunk `Trunk::new` builds when `a` and `b` fall into different
      octants of `central`: one leaf each, six empty branches. */
  function SplitTrunk(central: Point, a: Instance, b: Instance): (r: Node)
    requires Toward(a.position, central) != Toward(b.position, central)
    ensures Routed(r) && Items(r) == multiset{a, b}
  {
    var at, bt := Toward(a.position, central), Toward(b.position, central);
    var br := EmptyBranches[at := Leaf(Some(a))][bt := Leaf(Some(b))];
    SplitTrunkFacts(central, a, b);
    Trunk(central, br)
  }

  lemma SplitTrunkFacts(central: Point, a: Instance, b: Instance)
    requires Toward(a.position, central) != Toward(b.position, central)
    ensures var at, bt := Toward(a.position, central), Toward(b.position, central);
      var r := Trunk(central, EmptyBranches[at := Leaf(Some(a))][bt := Leaf(Some(b))]);
      Routed(r) && Items(r) == multiset{a, b}
  {
    var at, bt := Toward(a.position, central), Toward(b.position, central);
    TwoLeavesItems(at, bt, a, b);
    TwoLeavesRouted(central, a, b);
  }

  /** ... and each sits in the branch of its own octant. */
  lemma TwoLeavesRouted(central: Point, a: Instance, b: Instance)
    requires Toward(a.position, central) != Toward(b.position, central)
    ensures Routed(Trunk(central, EmptyBranches[Toward(a.position, central) := Leaf(Some(a))]
                                               [Toward(b.position, central) := Leaf(Some(b))]))
  {
    var at, bt := Toward(a.position, central), Toward(b.position, central);
    var br := EmptyBranches[at := Leaf(Some(a))][bt := Leaf(Some(b))];
    forall t | 0 <= t < 8
      ensures Routed(br[t])
      ensures forall w :: w in Items(br[t]) ==> Toward(w.position, central) == t
    {
      if t == bt {
        assert br[t] == Leaf(Some(b));
      } else if t == at {
        assert br[t] == Leaf(Some(a));
      } else {
        assert br[t] == Leaf(None);
      }
    }
  }


  /** The trunk `Trunk::new` builds when `a` and `b` share octant `at`:
      the node holding both in that branch, seven empty branches. */
  lemma SharedTrunk(central: Point, at: nat, node: Node, a: Instance, b: Instance)
    requires at == Toward(a.position, central) == Toward(b.position, central)
    requires Routed(node) && Items(node) == multiset{a, b}
    ensures Routed(Trunk(central, EmptyBranches[at := node]))
    ensures Items(Trunk(central, EmptyBranches[at := node])) == multiset{a, b}
  {
    OneBranchItems(at, node);
    OneBranchRouted(central, at, node);
  }

  /** A single non-empty branch among empty ones holds all the items. */
  lemma OneBranchItems(at: nat, node: Node)
    requires at < 8
    ensures ItemsOf(EmptyBranches[at := node]) == Items(node)
  {
    var br := EmptyBranches[at := node];
    assert forall t :: 0 <= t < |br| && t != at ==> br[t] == Leaf(None);
    ItemsOfOnly(br, at);
  }

  /** ... and the trunk is routed when that branch is routed and all its
      items lie in its octant. */
  lemma OneBranchRouted(central: Point, at: nat, node: Node)
    requires at < 8 && Routed(node)
    requires forall w :: w in Items(node) ==> Toward(w.position, central) == at
    ensures Routed(Trunk(central, EmptyBranches[at := node]))
  {
    var br := EmptyBranches[at := node];
    forall t | 0 <= t < 8
      ensures Routed(br[t])
      ensures forall w :: w in Items(br[t]) ==> Toward(w.position, central) == t
    {
      if t != at {
        assert br[t] == Leaf(None);
      }
    }
  }


  /** `Trunk::new`: a trunk at `central` holding `a` and `b`.  Different
      octants get a leaf each; a shared octant gets a fresh node into which
      both are inserted with the SAME centre and offset. */
  function TrunkNew(fuel: nat, central: Point, offset: nat, a: Instance, b: Instance): (r: Outcome<Node>)
    ensures r.Done? ==> r.value.Trunk? && r.value.central == central
    ensures r.Done? ==> Routed(r.value) && Items(r.value) == multiset{a, b}
    decreases fuel, 0
  {
    if fuel == 0 then Diverges
    else
      var at := a.Toward(central);
      var bt := b.Toward(central);
      if at == bt then
        match NodeInsert(fuel - 1, Leaf(None), a, central, offset)
        case Diverges => Diverges
        case Done(node) =>
          match NodeInsert(fuel - 1, node, b, central, offset)
          case Diverges => Diverges
          case Done(node') =>
            SharedTrunk(central, at, node', a, b);
            Done(Trunk(central, EmptyBranches[at := node']))
      else
        Done(SplitTrunk(central, a, b))
  }

  /** Non-progress of the split: when `a` and `b` share an octant of
      `central`, `Trunk::new` recurses around a centre in which they again
      share that octant, with the same offset, so no fuel is ever enough. */
  lemma {:induction false} SameOctantDiverges(fuel: nat, central: Point, offset: nat, a: Instance, b: Instance)
    requires a.Toward(central) == b.Toward(central)
    ensures TrunkNew(fuel, central, offset, a, b) == Diverges
    decreases fuel
  {
    if fuel > 0 {
      var t := a.Toward(central);
      var next := NewCentral(central, offset, t);
      NewCentralKeepsOctant(a.position, central, offset, t);
      NewCentralKeepsOctant(b.position, central, offset, t);
      assert NodeInsert(fuel - 1, Leaf(None), a, central, offset) == Done(Leaf(Some(a)));
      SameOctantDiverges(fuel - 1, next, offset, a, b);
    }
  }

  /** When a split finishes at all, every instance it holds, old or new,
      is found again by `get` at its own position. */
  lemma InsertRoundTripWhenDone(fuel: nat, n: Node, v: Instance, central: Point, offset: nat)
    requires Routed(n) && NodeInsert(fuel, n, v, central, offset).Done?
    ensures forall w :: w in Items(n) + multiset{v} ==>
              Get(NodeInsert(fuel, n, v, central, offset).value, w.position) == Some(w)
  {
    var m := NodeInsert(fuel, n, v, central, offset).value;
    forall w | w in Items(n) + multiset{v}
      ensures Get(m, w.position) == Some(w)
    {
      RoutedGet(m, w);
    }
  }

  /** Second insertion at the root: with `w` stored in the root leaf and `v`
      in scope, insertion finishes exactly when, on some axis, `w` is on the
      negative side and `v` sits on the upper face `scope`; otherwise it
      never finishes. */
  lemma SecondInsertAtRoot(fuel: nat, w: Instance, v: Instance, scope: nat)
    requires fuel >= 1 && InScope(scope, v.position)
    ensures NodeInsert(fuel, Leaf(Some(w)), v, Origin, scope).Done? <==>
              (w.position.x < 0 && v.position.x == scope) ||
              (w.position.y < 0 && v.position.y == scope) ||
              (w.position.z < 0 && v.position.z == scope)
  {
    var t := w.Toward(Origin);
    var next := NewCentral(Origin, scope, t);
    NewCentralKeepsOctant(w.position, Origin, scope, t);
    TowardDecodes(w.position, Origin, t);
    TowardDecodes(v.position, next, t);
    if w.Toward(next) == v.Toward(next) {
      SameOctantDiverges(fuel, next, scope, w, v);
    }
  }

  /** An occupied leaf answers every query with its instance. */
  lemma LeafGetIgnoresPosition(v: Instance, p: Point)
    ensures Get(Leaf(Some(v)), p) == Some(v)
  {
  }

  /** `2.0_f32.powf(k)`, exact. */
  function Pow2(k: nat): (r: nat)
    ensures r >= 1
  {
    if k == 0 then 1 else 2 * Pow2(k - 1)
  }

  predicate IsPow2(n: nat)
    decreases n
  {
    n == 1 || (n >= 2 && n % 2 == 0 && IsPow2(n / 2))
  }

  lemma {:induction false} Pow2Facts(k: nat)
    ensures IsPow2(Pow2(k)) && Pow2(k) > k
  {
    if k > 0 {
      Pow2Facts(k - 1);
      assert Pow2(k) / 2 == Pow2(k - 1);
    }
  }

  /** `OcTree::from_scope`: every candidate the loop tries is 2 to the power
      `scope`, which already exceeds `scope`, so the first iteration returns an
      empty tree with that scope and the `Self::default()` fallback is dead. */
  function FromScope(scope: nat): (t: Tree)
    ensures t.root == Leaf(None) && t.len == 0
    ensures t.scope == Pow2(scope)
    ensures t.scope > scope && IsPow2(t.scope)
  {
    var i := Pow2(scope);
    Pow2Facts(scope);
    if i >= scope then Tree(Leaf(None), 0, i) else DefaultTree
  }

  /** `OcTree::is_in_scope`: each coordinate in the half-open range
      (-scope, scope].  Scope 0 holds nothing. */
  predicate InScope(scope: nat, p: Point)
    ensures InScope(scope, p) ==> scope >= 1
  {
    && p.x > -(scope as int) && p.x <= scope
    && p.y > -(scope as int) && p.y <= scope
    && p.z > -(scope as int) && p.z <= scope
  }

  /** `n as i32` for a `usize`: the low 32 bits, read as two's complement. */
  function AsI32(n: nat): (r: int)
    ensures -0x8000_0000 <= r < 0x8000_0000
    ensures n < 0x8000_0000 ==> r == n
    ensures (n - r) % 0x1_0000_0000 == 0
  {
    var low := n % 0x1_0000_0000;
    if low < 0x8000_0000 then low else low - 0x1_0000_0000
  }

  /** `is_in_scope` with its `scope as i32` casts written out (the negation
      of `i32::MIN` is taken mathematically).  `InScope` is this test with
      the casts left out. */
  predicate InScopeCast(scope: nat, p: Point)
  {
    var m := AsI32(scope);
    && p.x > -m && p.x <= m
    && p.y > -m && p.y <= m
    && p.z > -m && p.z <= m
  }

  /** Below 2^31 the cast changes nothing. */
  lemma InScopeCastAgrees(scope: nat, p: Point)
    requires scope < 0x8000_0000
    ensures InScopeCast(scope, p) <==> InScope(scope, p)
  {
  }

  /** From 2^32 on the cast can lose the scope: at every multiple of 2^32
      it is 0, and the source's test admits no position at all. */
  lemma WideScopeAdmitsNothing(k: nat, p: Point)
    ensures !InScopeCast(k * 0x1_0000_0000, p)
  {
    assert AsI32(k * 0x1_0000_0000) == 0;
  }

  /** 2^32, the scope one growth step reaches from scope 16 (the scope of
      `from_scope(4)`): `update_scope(32)` builds `from_scope(32)`. */
  lemma {:induction false} Pow2Of32()
    ensures Pow2(32) == 0x1_0000_0000 && FromScope(32).scope == 0x1_0000_0000
  {
    assert Pow2(8) == 256;
    assert Pow2(16) == 65536 by { Pow2Adds(8, 8); }
    Pow2Adds(16, 16);
  }

  /** Exponents add. */
  lemma {:induction false} Pow2Adds(a: nat, b: nat)
    ensures Pow2(a + b) == Pow2(a) * Pow2(b)
    decreases b
  {
    if b > 0 {
      Pow2Adds(a, b - 1);
      assert Pow2(a + b) == 2 * Pow2(a + b - 1);
    }
  }

  /** `from_scope(3)` has scope 8, where the doc comment promises 4. */
  lemma FromScopeThree()
    ensures FromScope(3).scope == 8
  {
  }
}
