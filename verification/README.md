# Octree scene store, modelled in Dafny

The scene editor keeps the instances of a voxel scene in an octree.
Positions are integer lattice points. The tree is `OcTree`, with nodes
`Node::{Leaf, Trunk}` and a `Trunk` holding a centre and eight branches.
It is a cube of half-width `scope` around the origin:

- `insert` grows the cube until the position fits, then descends by octant.
  Each growth step calls `update_scope(2 · scope)`. That builds
  `from_scope(2 · scope)`, whose scope is 2^(2 · scope), so scope 4 becomes
  256.
- Two instances that meet in one leaf are split into a fresh `Trunk`.
- Growth (`update_scope`) builds a new, larger tree and re-inserts everything
  the tree's iterator (`RefIter`) reports.
- The iterator walks every lattice point of the cube with an `AabbCounter`
  and asks `get` at each one.

Beside the tree, the model covers the octant classifier `toward` and
`Instance`, the box `AABB`, and the web app's resource `Request`:
classification by file suffix, the URL, and the encoding guards.

The modules follow the source:

| file | module | source |
|---|---|---|
| wrappers.dfy | `Wrappers` | `Option`; `Outcome` (= `Done` / `Diverges`) for fuel-bounded recursion |
| octant.dfy | `Octant` | `toward` in scenes/src/scenes.rs |
| instance.dfy | `Instances` | src/state/scenes/instance.rs |
| oc_tree.dfy | `OcTree` | nodes, trunks, `get`, `from_scope`, `is_in_scope` of scenes/src/scenes/oc_tree.rs |
| aabb_counter.dfy | `AabbCounter` | both `AabbCounter`s (scenes/src/scenes/oc_tree/iter.rs and src/state/scenes/oc_tree/Iter.rs) |
| ref_iter.dfy | `RefIter` | `RefIter` of scenes/src/scenes/oc_tree/iter.rs |
| oc_tree_insert.dfy | `OcTreeInsert` | `OcTree::insert`, `update_scope`, and the two unit tests |
| fixed_oc_tree.dfy | `FixedOcTree` | the corrected octree the Findings below argue for |
| aabb.dfy | `Aabb` | src/state/scenes/aabb.rs |
| request.dfy | `Request` | app/src/request.rs |

## How insertion is modelled

Insertion, splitting and growth call each other, and in the source they need
not return. Each of them takes a `fuel: nat` and returns an `Outcome`:
`Done(tree)` or `Diverges`. Fuel bounds the nesting depth of trunk creations
and growth steps, not their total number. Calls side by side share one
budget: the two inner insertions of a split, and every re-insertion of one
growth step. A property "for every fuel the result is `Diverges`" says the
source never returns.

Integers are mathematical: `i32` and `usize` never overflow in the model.

## Where the code and its description disagree

The model follows the code in each of these cases:

- `from_scope(s)` builds scope `2^s` (from `powf`), not the smallest power of
  two at least `s`. So `from_scope(3)` has scope 8, while its doc comment
  describes 4. `from_scope(0)` has scope 1, not 0.
- Growth does not double the scope. `update_scope(2 · scope)` builds
  `from_scope(2 · scope)`, whose scope is 2^(2 · scope). It also resets `len`
  to the number of re-inserted reports.
- Inserting into the default tree (scope 0) can finish. `update_scope(0)`
  builds `from_scope(0)`, with scope 1. An instance in (-1, 1]^3 fits after
  that one step. A farther one, such as (3, 0, 0), grows again, to scope 4.
- A split passes the parent's `offset` to the new trunk unchanged; it does
  not halve it. Two instances in the same octant of the new centre recurse
  forever, so the split does not terminate.
- `len` is not a count of `insert` calls, although `insert` adds one on every
  call. `update_scope` replaces the whole tree, `len` included.
- A leaf answers `get` with its instance whatever position is asked. So `get`
  is not "absent" outside the tree's contents.

## Model

| member | source | states |
|---|---|---|
| Octant.Toward | scenes/src/scenes.rs:13-27 | the octant index lies in 0..7; bit 0 is set iff x ≥ other's x, bit 1 iff y ≥, bit 2 iff z ≥ |
| Octant.Abs | src/state/scenes/aabb.rs:24 | `abs()` returns the value or its negation, never negative |
| Octant.TowardDecodes | scenes/src/scenes.rs:6-27 | an index is the octant of s about o exactly when its three bits match the three coordinate comparisons |
| Octant.TowardSelf | scenes/src/scenes.rs:13-27 | a point seen from itself is in octant 7, since comparisons are `>=` |
| Octant.TowardOpposite | scenes/src/scenes.rs:13-27 | when no coordinate ties, the octants of s about o and of o about s are complementary (sum 7) |
| Instances.Instance.Toward | src/state/scenes/instance.rs:16-37 | the instance's own copy of the classifier gives the same bits and agrees with `toward` on its position |
| Instances.TowardOwnPosition | src/state/scenes/instance.rs:23-37 | an instance seen from its own position is in octant 7 |
| OcTree.Routed | scenes/src/scenes/oc_tree.rs:164-195 | the routing invariant (every item sits in the branch its octant names) implies the tree is well shaped |
| OcTree.Get | scenes/src/scenes/oc_tree.rs:189-195 | `Node::get` only returns instances stored in the tree |
| OcTree.RoutedGet | scenes/src/scenes/oc_tree.rs:82-84 | in a routed tree, `get` at a stored instance's position returns that instance |
| OcTree.LeafGetIgnoresPosition | scenes/src/scenes/oc_tree.rs:189-195 | a leaf holding v answers `get` with v at every position |
| OcTree.NewCentral | scenes/src/scenes/oc_tree.rs:197-219 | the new centre moves by `offset` on each axis, toward the low side where the octant bit is set and the high side otherwise |
| OcTree.NewCentralKeepsOctant | scenes/src/scenes/oc_tree.rs:178-184 | a point in octant t about the old centre is still in octant t about the new one; this is the source of the non-progress |
| OcTree.NodeInsert | scenes/src/scenes/oc_tree.rs:175-187 | when insertion finishes, the tree's contents gain exactly v as a multiset and routing is preserved |
| OcTree.TrunkInsert | scenes/src/scenes/oc_tree.rs:265-267 | inserting into a trunk changes only the branch v's octant names; contents gain v; routing kept |
| OcTree.SplitTrunk | scenes/src/scenes/oc_tree.rs:257-260 | two instances in different octants become a routed trunk holding exactly those two |
| OcTree.SplitTrunkFacts | scenes/src/scenes/oc_tree.rs:257-260 | in that trunk each instance sits alone in its own octant's branch and the other six are empty |
| OcTree.SharedTrunk | scenes/src/scenes/oc_tree.rs:250-256 | a routed node holding both instances, placed in their shared octant, makes a routed trunk holding exactly them |
| OcTree.TrunkNew | scenes/src/scenes/oc_tree.rs:235-263 | when `Trunk::new` finishes, it is a routed trunk about the given centre holding exactly the two instances |
| OcTree.SameOctantDiverges | scenes/src/scenes/oc_tree.rs:235-263 | two instances in the same octant of the centre make `Trunk::new` recurse forever, for every fuel |
| OcTree.InsertRoundTripWhenDone | scenes/src/scenes/oc_tree.rs:175-195 | whenever insertion into a routed node finishes, `get` finds v and every earlier instance at their positions |
| OcTree.SecondInsertAtRoot | scenes/src/scenes/oc_tree.rs:175-187 | a second instance at the root finishes iff on some axis the first is on the low side and the second sits exactly on the upper bound `scope` |
| OcTree.Pow2 | scenes/src/scenes/oc_tree.rs:53-65 | powers of two are positive |
| OcTree.Pow2Facts | scenes/src/scenes/oc_tree.rs:53-65 | 2^k is a power of two and exceeds k |
| OcTree.FromScope | scenes/src/scenes/oc_tree.rs:53-65 | `from_scope(s)` is an empty tree with len 0 whose scope is exactly 2^s, a power of two strictly greater than s |
| OcTree.InScope | scenes/src/scenes/oc_tree.rs:134-141 | `is_in_scope` accepts (-s, s] on every axis, so scope 0 admits nothing |
| OcTree.TreeGet | scenes/src/scenes/oc_tree.rs:82-84 | `OcTree::get` returns only instances stored in the tree |
| OcTree.AsI32 | scenes/src/scenes/oc_tree.rs:135-140 | `scope as i32` lies in the i32 range, agrees with the scope below 2^31, and differs from it by a multiple of 2^32 |
| OcTree.InScopeCastAgrees | scenes/src/scenes/oc_tree.rs:134-141 | below 2^31 the test with its casts written out is the model's `InScope` |
| OcTree.WideScopeAdmitsNothing | scenes/src/scenes/oc_tree.rs:134-141 | at every multiple of 2^32 the cast scope is 0 and the source's test admits no position |
| OcTree.Pow2Of32 | scenes/src/scenes/oc_tree.rs:53-65 | `from_scope(32)`, built by one growth of a scope-16 tree, has scope 2^32 |
| OcTree.Pow2Adds | scenes/src/scenes/oc_tree.rs:53-65 | the `powf` exponents add: 2^(a+b) = 2^a · 2^b |
| OcTree.FromScopeThree | scenes/src/scenes/oc_tree.rs:19-24 | `from_scope(3)` has scope 8, not the 4 its doc comment describes |
| AabbCounter.New | scenes/src/scenes/oc_tree/iter.rs:60-69 | a fresh counter's cursor comes before every point of the cube [-s, s)^3 |
| AabbCounter.LegacyNew | src/state/scenes/oc_tree/Iter.rs:24-33 | the older counter's cursor sits on a cube point (for s ≥ 1), and every other cube point comes after it |
| AabbCounter.Run | scenes/src/scenes/oc_tree/iter.rs:92-109 | the remaining yields are empty exactly when the next call to `next` returns `None` |
| AabbCounter.Next | scenes/src/scenes/oc_tree/iter.rs:92-109 | each step yields a point of the cube that comes after the cursor, with no cube point in between; once exhausted, the counter stays put |
| AabbCounter.ExhaustionIsSticky | scenes/src/scenes/oc_tree/iter.rs:92-109 | after the first `None`, `next` keeps returning `None` |
| AabbCounter.RunFacts | scenes/src/scenes/oc_tree/iter.rs:89-109 | the rest of the counter's yields are in the cube, strictly increasing in scan order, and are exactly the cube points after the cursor |
| AabbCounter.RunLength | scenes/src/scenes/oc_tree/iter.rs:92-109 | the number of remaining yields is the cube size minus the cursor's rank minus one |
| AabbCounter.NewCoversCube | scenes/src/scenes/oc_tree/iter.rs:60-69 | a fresh counter yields exactly the points of [-s, s)^3 |
| AabbCounter.NewCount | scenes/src/scenes/oc_tree/iter.rs:60-69 | a fresh counter yields (2s)^3 points |
| AabbCounter.NewOrder | scenes/src/scenes/oc_tree/iter.rs:37-52 | the i-th yield of a fresh counter is the point of rank i: x fastest, then y, then z |
| AabbCounter.FirstYields | scenes/src/scenes/oc_tree/iter.rs:41-45 | a fresh counter first yields (-s,-s,-s) then (1-s,-s,-s), the documented (-1,-1,-1), (0,-1,-1) at s = 1; the older counter (src/state/scenes/oc_tree/Iter.rs:6-9) starts one point later, (0,-1,-1), (-1,0,-1) at s = 1 |
| AabbCounter.LegacySkipsFirstCorner | src/state/scenes/oc_tree/Iter.rs:24-33 | the older counter starts on the first corner, so it yields every cube point except (-s,-s,-s) |
| AabbCounter.LegacyCount | src/state/scenes/oc_tree/Iter.rs:6-15 | the older counter yields one point fewer: (2s)^3 - 1 |
| AabbCounter.LegacyOrder | src/state/scenes/oc_tree/Iter.rs:52-69 | the older counter's i-th yield is the point of rank i + 1 |
| AabbCounter.ScopeZeroYieldsNothing | scenes/src/scenes/oc_tree/iter.rs:80-87 | scope 0, including the `Default` counter, yields nothing |
| RefIter.New | scenes/src/scenes/oc_tree/iter.rs:11-16 | a new iterator borrows the tree, and its counter walks exactly the points of the cube [-s, s)^3 of the tree's scope s |
| RefIter.Scan | scenes/src/scenes/oc_tree/iter.rs:22-34 | looking up a list of positions reports at most one instance per position, all of them stored in the tree |
| RefIter.Next | scenes/src/scenes/oc_tree/iter.rs:22-34 | `next` returns the first hit of the remaining walk and leaves the rest, or `None` exactly when no position remains that hits |
| RefIter.Drain | scenes/src/scenes/oc_tree/iter.rs:19-34 | draining the iterator yields the hits of `get` along the counter's remaining positions, in order |
| RefIter.Enumerate | scenes/src/scenes/oc_tree.rs:86-102 | `iter()` yields the hits over the whole cube, all of them stored instances |
| RefIter.ScanMember | scenes/src/scenes/oc_tree/iter.rs:22-34 | an instance is reported iff `get` returns it at one of the walked positions |
| RefIter.ScanOfFullLeaf | scenes/src/scenes/oc_tree/iter.rs:22-34 | a root leaf holding v reports v once at every walked position |
| RefIter.ScanOfEmptyLeaf | scenes/src/scenes/oc_tree/iter.rs:22-34 | an empty tree reports nothing, whatever positions are walked |
| RefIter.SingleLeafRepeats | scenes/src/scenes/oc_tree/iter.rs:22-34 | a tree whose root leaf holds v reports v (2s)^3 times and nothing else |
| RefIter.EnumerateFindsRouted | scenes/src/scenes/oc_tree.rs:86-102 | in a routed tree, every stored instance inside the counter's cube is reported |
| OcTreeInsert.Insert | scenes/src/scenes/oc_tree.rs:121-132 | when `insert` finishes, v is in scope and stored, scope never shrinks, and routing is kept; if v was already in scope, contents gain exactly v and len goes up by one |
| OcTreeInsert.Settle | scenes/src/scenes/oc_tree.rs:124-131 | the grow-then-insert loop ends with v in scope and stored |
| OcTreeInsert.UpdateScope | scenes/src/scenes/oc_tree.rs:143-151 | growth, when it finishes, gives a routed tree with scope above the requested one; when the old items were in scope, the new scope is 2^newScope, not newScope, and len is the number of reports re-inserted |
| OcTreeInsert.Reinsert | scenes/src/scenes/oc_tree.rs:143-151 | inserting a list in order keeps the tree shaped and routed, never shrinks its scope, and diverges as soon as its first insertion does; if every item is in scope, the scope stays and len grows by the list's length |
| OcTreeInsert.InsertGrowsToPow2 | scenes/src/scenes/oc_tree.rs:121-151 | an empty tree of scope s meeting an instance that needs growth jumps to scope 2^(2s), not 2s, and its len becomes 0 |
| OcTreeInsert.EmptyGrowth | scenes/src/scenes/oc_tree.rs:143-151 | growing an empty tree re-inserts nothing: the result is `from_scope(newScope)`, of scope 2^newScope and len 0 |
| OcTreeInsert.InsertThenGet | scenes/src/scenes/oc_tree.rs:104-132 | whenever `insert` into a routed tree finishes, `get` at v's position returns v |
| OcTreeInsert.BaseWork | scenes/src/scenes/oc_tree.rs:279-289 | `from_scope(3)` plus the default instance gives a one-leaf tree of scope 8; `get` at the origin and the first `iter().next()` both return the instance |
| OcTreeInsert.DefaultTreeInsert | scenes/src/scenes/oc_tree.rs:154-161 | inserting into the default tree grows it to scope 1 and stores v, and len is overwritten with 0 |
| OcTreeInsert.GrowthOfOccupiedRootDiverges | scenes/src/scenes/oc_tree.rs:143-151 | growing a tree whose root leaf holds an instance never finishes |
| OcTreeInsert.Decimal | scenes/src/scenes/oc_tree.rs:301 | `i.to_string()` is a non-empty string of decimal digits, one digit iff i < 10, with a leading '0' only for 0 |
| OcTreeInsert.StressInstance | scenes/src/scenes/oc_tree.rs:293-304 | the test's i-th instance sits at (-i, i-1, 2i) |
| OcTreeInsert.StressInstances | scenes/src/scenes/oc_tree.rs:293-304 | the test's list holds its instances in order 0..n-1 |
| OcTreeInsert.StressSecondInsertDiverges | scenes/src/scenes/oc_tree.rs:306-310 | the stress test's second insertion never finishes |
| OcTreeInsert.StressPrefixDiverges | scenes/src/scenes/oc_tree.rs:306-310 | inserting any first n ≥ 2 of the test's instances into `from_scope(4)` never finishes |
| OcTreeInsert.StressTestDiverges | scenes/src/scenes/oc_tree.rs:291-317 | the stress test's round trip never holds: inserting its 100 instances into `from_scope(4)` diverges for every fuel |
| OcTreeInsert.ScopeBoundaryMismatch | scenes/src/scenes/oc_tree.rs:134-141 | `is_in_scope` accepts (s,0,0), which the counter never visits, and rejects (-s,0,0), which it does |
| OcTreeInsert.ScanInOctantZero | scenes/src/scenes/oc_tree/iter.rs:22-34 | a walk whose every position lies in octant 0 of a trunk's centre reports exactly what branch 0 alone reports |
| OcTreeInsert.CornerTrunkAsksBranchZero | scenes/src/scenes/oc_tree/iter.rs:22-34 | for a trunk centred on the corner (s,s,s), the iterator's walk of [-s, s)^3 reports exactly what branch 0 reports, so nothing below another branch is ever reported |
| OcTreeInsert.CornerLeafHides | scenes/src/scenes/oc_tree/iter.rs:22-34 | when that branch 0 is a leaf holding w, no instance other than w is reported |
| OcTreeInsert.BoundaryInstanceNeverReported | scenes/src/scenes/oc_tree.rs:134-141 | (-1,-1,-1) then (2,0,0) into `from_scope(1)`: both are stored, `get` finds (2,0,0), and the iterator never reports it |
| FixedOcTree.Child | scenes/src/scenes/oc_tree.rs:197-219 | a child cell lies inside its parent |
| FixedOcTree.ChildOfOctant | scenes/src/scenes/oc_tree.rs:265-267 | a point of a cell lies in the child its octant about the cell's midpoint names |
| FixedOcTree.ChildShrinks | scenes/src/scenes/oc_tree.rs:250-256 | when two distinct points share an octant, their child cell is strictly narrower, so the corrected split terminates |
| FixedOcTree.Valid | scenes/src/scenes/oc_tree.rs:164-232 | the corrected cell invariant implies a well-shaped tree |
| FixedOcTree.Get | scenes/src/scenes/oc_tree.rs:189-195 | the corrected `get` returns only an instance whose position is the one asked |
| FixedOcTree.GetOutside | scenes/src/scenes/oc_tree.rs:189-195 | nothing is found outside a node's cell |
| FixedOcTree.ApartSplit | scenes/src/scenes/oc_tree.rs:257-260 | two instances in different octants of the midpoint, one leaf each, form a valid trunk that finds exactly the two |
| FixedOcTree.SharedSplit | scenes/src/scenes/oc_tree.rs:250-256 | a valid split of the shared octant's child cell, placed in that branch, forms a valid trunk that finds exactly the two |
| FixedOcTree.Split | scenes/src/scenes/oc_tree.rs:235-263 | the corrected split of two instances at distinct positions finds exactly those two and nothing else |
| FixedOcTree.Insert | scenes/src/scenes/oc_tree.rs:175-187 | corrected insertion is a map update: v at its position, every other position unchanged |
| FixedOcTree.Pow2Ceil | scenes/src/scenes/oc_tree.rs:53-65 | the smallest power of two at least n (1 for 0) |
| FixedOcTree.FromScope | scenes/src/scenes/oc_tree.rs:53-65 | the corrected `from_scope` is empty, with len 0 and the smallest power-of-two scope at least s |
| FixedOcTree.FromScopeThree | scenes/src/scenes/oc_tree.rs:19-24 | the corrected `from_scope(3)` has scope 4, as documented |
| FixedOcTree.InScope | scenes/src/scenes/oc_tree.rs:134-141 | the corrected scope test admits nothing at scope 0, and its x range is [-s, s) |
| FixedOcTree.InScopeIsCounterBox | scenes/src/scenes/oc_tree.rs:134-141 | the corrected scope test is exactly the counter's cube [-s, s), centred on the origin |
| FixedOcTree.RootCellGrows | scenes/src/scenes/oc_tree.rs:124-131 | a position in scope stays in scope after growth |
| FixedOcTree.Rebuild | scenes/src/scenes/oc_tree.rs:143-151 | re-inserting a list into a valid node leaves each position holding the last instance inserted there, else what it held |
| FixedOcTree.TreeGet | scenes/src/scenes/oc_tree.rs:82-84 | the corrected `get` returns only an instance at the position asked |
| FixedOcTree.Scan | scenes/src/scenes/oc_tree/iter.rs:22-34 | the corrected counterpart of `RefIter.Scan`: every reported instance is found by `get` at its own position, and that position was walked |
| FixedOcTree.ScanLastAt | scenes/src/scenes/oc_tree/iter.rs:22-34 | replaying a walk's reports leaves, at each walked position, what the tree holds there |
| FixedOcTree.Enumerate | scenes/src/scenes/oc_tree.rs:86-102 | the corrected `iter()` reports only in-scope instances, and replaying them rebuilds the tree's contents |
| FixedOcTree.EnumerateExact | scenes/src/scenes/oc_tree.rs:86-102 | an instance is reported iff `get` at its position returns it |
| FixedOcTree.ScanSorted | scenes/src/scenes/oc_tree/iter.rs:22-34 | walking positions in increasing scan order reports instances in increasing scan order |
| FixedOcTree.EnumerateSorted | scenes/src/scenes/oc_tree.rs:86-89 | reports come in strictly increasing scan order: x fastest, then y, then z |
| FixedOcTree.AbsentOutsideScope | scenes/src/scenes/oc_tree.rs:134-141 | `get` outside the tree's cube finds nothing |
| FixedOcTree.Grow | scenes/src/scenes/oc_tree.rs:143-151 | corrected growth gives a valid tree with larger scope, the same len and the same answer to every `get` |
| FixedOcTree.TreeInsert | scenes/src/scenes/oc_tree.rs:121-132 | corrected `insert` always finishes with v in scope, is a map update, and adds one to len on every call, growth included |
| FixedOcTree.InsertAll | scenes/src/scenes/oc_tree.rs:308-310 | after a list of insertions, each position holds the last instance inserted there, else what it held before |
| FixedOcTree.InsertAllRoundTrip | scenes/src/scenes/oc_tree.rs:306-317 | for instances at distinct positions, `get` returns each one after all are inserted |
| FixedOcTree.InsertAllCounts | scenes/src/scenes/oc_tree.rs:121-123 | inserting k instances adds k to len, whatever growth they need |
| FixedOcTree.StressTestPasses | scenes/src/scenes/oc_tree.rs:291-317 | with the corrected tree, the stress test's round trip holds for any number n of its instances, and len is n |
| FixedOcTree.DocGrowthExample | scenes/src/scenes/oc_tree.rs:19-37 | the doc example: (3,-4,3) fits scope 4; then (0,0,4) grows it to 8 |
| FixedOcTree.DefaultTreeCounts | scenes/src/scenes/oc_tree.rs:154-161 | the corrected default tree plus one insertion has len 1 and returns the instance |
| Aabb.New | src/state/scenes/aabb.rs:8-21 | on each axis the box keeps both given coordinates, the larger as the big corner |
| Aabb.Max | src/state/scenes/aabb.rs:11-13 | `max` is one of its arguments and at least both |
| Aabb.Min | src/state/scenes/aabb.rs:16-18 | `min` is one of its arguments and at most both |
| Aabb.Size | src/state/scenes/aabb.rs:23-25 | the volume is zero iff the box is flat on some axis |
| Aabb.NewIgnoresArgumentOrder | src/state/scenes/aabb.rs:8-21 | swapping the two coordinates of any axis gives the same box |
| Aabb.SizeOfNew | src/state/scenes/aabb.rs:8-25 | the volume of a new box is the product of the absolute side lengths |
| Aabb.SizeIgnoresCornerOrder | src/state/scenes/aabb.rs:23-25 | the volume does not depend on which corner is stored first |
| Aabb.DefaultSize | src/state/scenes/aabb.rs:28-31 | the default box is the degenerate box at the origin, with volume 0 |
| Request.Split | app/src/request.rs:21 | `split(".")` gives at least one piece, and no piece contains a dot |
| Request.JoinSplit | app/src/request.rs:21 | joining the pieces with dots gives back the name |
| Request.SplitJoin | app/src/request.rs:21 | splitting dot-free pieces joined by dots gives back the pieces |
| Request.SplitHasSecond | app/src/request.rs:21-22 | `suffix[1]` exists iff the name contains a dot |
| Request.Suffix | app/src/request.rs:21-22 | the piece `from_name` matches on contains no dot |
| Request.SuffixIsSecondPiece | app/src/request.rs:21-22 | the piece matched is the one after the first dot, not the last extension |
| Request.FromName | app/src/request.rs:14-29 | the kind is chosen by the second piece as documented, with API for anything else, and the name is kept whole |
| Request.ClassifiesBySecondPiece | app/src/request.rs:20-28 | a name with two dots is classified by its second piece whatever follows, so "a.b.obj" is an API call and not a model |
| Request.Url | app/src/request.rs:31-39 | the URL is the kind's directory, then the name, then a slash |
| Request.ParseUrl | app/src/request.rs:31-39 | any request read back from a URL builds that same URL |
| Request.UrlRoundTrip | app/src/request.rs:31-39 | reading a built URL back gives the request it came from, so no two requests share a URL |
| Request.Utf8Guard | app/src/request.rs:41-48 | text fetches go through for every kind except images, which fail with the URL and "utf8" |
| Request.BytesGuard | app/src/request.rs:57-64 | byte fetches go through only for images; others fail with the URL and "bytes" |
| Request.ExactlyOneEncoding | app/src/request.rs:41-64 | every request can be fetched in exactly one of the two encodings |

## Left out

- Integer width: `i32` coordinates and `usize` scopes are unbounded. Overflow
  in `scope * 2` and `powf` saturation (scope 2^s for s ≥ 64) is not
  modelled. The `scope as i32` casts of `is_in_scope` are modelled beside the
  tree (`OcTree.AsI32`, `OcTree.InScopeCast`) but the tree uses the cast-free
  `InScope`, which agrees with them only below 2^31.
- OcTreeInsert.UpdateScope: the scope 2^newScope it promises describes the
  source only while that stays below 2^31. One growth from scope 16, the
  stress test's `from_scope(4)`, already reaches 2^32, where the source's
  cast scope is 0, nothing is in scope, and `insert` grows forever
  (`OcTree.WideScopeAdmitsNothing`, `OcTree.Pow2Of32`).
- OcTreeInsert.InsertGrowsToPow2: holds for every s in the model, but
  describes the source only for s ≤ 15, for the same reason.
- OcTreeInsert.Insert: "diverges" means out of fuel. The model cannot tell a
  source call that never returns from one that needs more fuel than given,
  except where a lemma proves `Diverges` for every fuel.
- The stack overflow and `Box` allocation that real non-termination causes
  are not modelled.
- The HTTP fetch after the guards (`gloo` requests, `request_image`,
  `request_model`), error wrapping and `Display` are I/O and are not
  modelled. So is the UI (header, side menu, kit bar, sketchpad, main).
- src/state/scenes/oc_tree.rs is an earlier draft of the octree and is not
  part of this model. The scenes crate's own `Instance` file is not part of
  this model either; it is taken to be src/state/scenes/instance.rs with a
  derived `Default`.
- The counter accessors `scope()` and `pos()` are field reads (`c.scope`,
  `c.pos`).
- Request.FromName: requires a dot in the name, because the source panics on
  `suffix[1]` otherwise; the panic is not modelled as a value.
- FixedOcTree.Insert: inserting at an occupied position replaces the old
  instance. The source would diverge there, so no source behaviour is being
  weakened.
- FixedOcTree.StressTestPasses: proved for any n rather than for the literal
  100; the literal instance follows by taking n = 100.

## Findings

| source | as written | input that shows it | evidently intended | confidence | as-written member | corrected member |
|---|---|---|---|---|---|---|
| scenes/src/scenes/oc_tree.rs:178-184 | a split passes the unchanged `offset` to `Trunk::new`, whose new centre keeps both instances in one shared octant, so it recurses forever | the stress test: (0,-1,0) then (-1,0,2) into `from_scope(4)` | each split halves the cell, so two distinct positions separate and every test instance can be found again | high; not executed | OcTreeInsert.StressPrefixDiverges | FixedOcTree.StressTestPasses |
| scenes/src/scenes/oc_tree.rs:53-65 | `from_scope(s)` gives scope 2^s | `from_scope(3)` has scope 8 | scope 4 (the smallest power of two at least 3), as the doc comment's box [-4, 3] says | high; not executed | OcTree.FromScopeThree | FixedOcTree.FromScopeThree |
| scenes/src/scenes/oc_tree.rs:134-141 | `is_in_scope` accepts (-s, s] while the counter walks [-s, s) | (-1,-1,-1) then (2,0,0) into `from_scope(1)`: (2,0,0) is stored and found by `get`, but the iterator, which growth relies on, never reports it | one box, [-s, s), for both | high; not executed | OcTreeInsert.BoundaryInstanceNeverReported | FixedOcTree.InScopeIsCounterBox |
| scenes/src/scenes/oc_tree.rs:189-195 | a leaf answers `get` at every position, so the iterator reports one stored instance at all (2s)^3 points and growth re-inserts duplicates until it diverges | any in-scope instance in a tree of scope 1, then one out-of-scope insert | `get` returns an instance only at its own position, and growth keeps every answer | high; not executed | OcTreeInsert.GrowthOfOccupiedRootDiverges | FixedOcTree.Grow |
| scenes/src/scenes/oc_tree.rs:143-151 | `update_scope` replaces the tree with a fresh one, so `len` becomes the re-insertion count | the default tree plus one insert has len 0 | `len` counts `insert` calls, as line 122 does, and survives growth: 1 | high; not executed | OcTreeInsert.DefaultTreeInsert | FixedOcTree.DefaultTreeCounts |
