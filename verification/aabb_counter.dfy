/** The lattice counters that drive enumeration: `AabbCounter` of
    scenes/src/scenes/oc_tree/iter.rs and the older `AabbCounter` of
    src/state/scenes/oc_tree/Iter.rs.  Both files give `next` the same body;
    they differ only in where `new` puts the cursor. */
module AabbCounter {
  import opened Wrappers
  import opened Octant

  /** The counter's state: the half-extent and the last position yielded
      (or the position just before the first one). */
  datatype Counter = Counter(scope: nat, pos: Point)

  /** `AabbCounter::new` of iter.rs: the cursor one step before (-s, -s, -s),
      so every point of the cube is still ahead of it. */
  function New(scope: nat): (c: Counter)
    ensures Inv(c) && c.scope == scope
    ensures forall q :: InBox(scope, q) ==> Before(c.pos, q)
  {
    Counter(scope, Point(-(scope as int) - 1, -(scope as int), -(scope as int)))
  }

  /** `AabbCounter::new` of the older Iter.rs: the cursor ON (-s, -s, -s),
      the first point of the cube, so that point is never yielded. */
  function LegacyNew(scope: nat): (c: Counter)
    ensures Inv(c) && c.scope == scope
    ensures scope >= 1 ==> InBox(scope, c.pos)
    ensures forall q :: InBox(scope, q) ==> q == c.pos || Before(c.pos, q)
  {
    Counter(scope, Point(-(scope as int), -(scope as int), -(scope as int)))
  }

  /** `AabbCounter::default()` in both files. */
  const Default: Counter := Counter(0, Origin)

  /** The half-open cube [-s, s) on every axis. */
  predicate InBox(s: int, p: Point)
  {
    -s <= p.x < s && -s <= p.y < s && -s <= p.z < s
  }

  /** Scan order: z slowest, then y, then x fastest. */
  predicate Before(p: Point, q: Point)
  {
    p.z < q.z || (p.z == q.z && (p.y < q.y || (p.y == q.y && p.x < q.x)))
  }

  /** The states the counter can be in: the cursor is in the cube, or one
      step before its first point; with scope 0, any cursor from which `next`
      at once reports exhaustion. */
  predicate Inv(c: Counter)
  {
    var s := c.scope as int;
    && -s - 1 <= c.pos.x && -s <= c.pos.y && -s <= c.pos.z
    && (s == 0 || (c.pos.x < s && c.pos.y < s && c.pos.z < s))
  }

  /** `Iterator::next` for `AabbCounter`: step x; on overflow reset x and
      step y; on overflow reset y and step z; on overflow report exhaustion
      and leave the cursor where it was. */
  function Next(c: Counter): (r: (Option<Point>, Counter))
    ensures r.0.None? ==> r.1 == c
    ensures r.0.Some? ==> r.1 == Counter(c.scope, r.0.value)
    ensures Inv(c) && r.0.Some? ==> InBox(c.scope, r.0.value) && Before(c.pos, r.0.value) && Inv(r.1)
    ensures Inv(c) && r.0.Some? ==>
              forall q :: InBox(c.scope, q) && Before(c.pos, q) ==> q == r.0.value || Before(r.0.value, q)
    ensures Inv(c) && r.0.None? ==> forall q :: InBox(c.scope, q) ==> !Before(c.pos, q)
  {
    var s := c.scope as int;
    var pos :=
      if c.pos.x + 1 < s then Point(c.pos.x + 1, c.pos.y, c.pos.z)
      else if c.pos.y + 1 < s then Point(-s, c.pos.y + 1, c.pos.z)
      else Point(-s, -s, c.pos.z + 1);
    if pos.z >= s then (None, c) else (Some(pos), Counter(c.scope, pos))
  }

  /** Exhaustion is sticky: once `next` reports `None`, it keeps doing so. */
  lemma ExhaustionIsSticky(c: Counter)
    requires Next(c).0.None?
    ensures Next(Next(c).1) == Next(c)
  {
  }

  /** Every position the counter yields from `c` on, until it reports
      exhaustion. */
  function Run(c: Counter): (r: seq<Point>)
    requires Inv(c)
    ensures r == [] <==> Next(c).0.None?
    decreases c.scope - c.pos.z, c.scope - c.pos.y, c.scope - c.pos.x
  {
    var (item, next) := Next(c);
    if item.None? then []
    else [item.value] + Run(next)
  }

  /** The yields from `c` on are exactly the cube's points after the
      cursor, in strictly increasing scan order. */
  lemma {:induction false} RunFacts(c: Counter)
    requires Inv(c)
    ensures forall i :: 0 <= i < |Run(c)| ==> InBox(c.scope, Run(c)[i]) && Before(c.pos, Run(c)[i])
    ensures forall i, j :: 0 <= i < j < |Run(c)| ==> Before(Run(c)[i], Run(c)[j])
    ensures forall q :: InBox(c.scope, q) && Before(c.pos, q) <==> q in Run(c)
    decreases c.scope - c.pos.z, c.scope - c.pos.y, c.scope - c.pos.x
  {
    var (item, next) := Next(c);
    if item.Some? {
      RunFacts(next);
    }
  }

  /** A cube point's rank in scan order. */
  function Index(s: int, p: Point): int
  {
    ((p.z + s) * (2 * s) + (p.y + s)) * (2 * s) + (p.x + s)
  }

  function Cube(n: int): int
  {
    n * n * n
  }

  /** One step of `Next` advances the rank of the cursor by exactly one. */
  lemma IndexStep(s: int, p: Point, q: Point)
    requires s >= 1
    requires -s - 1 <= p.x < s && -s <= p.y < s && -s <= p.z < s
    requires || (p.x + 1 < s && q == Point(p.x + 1, p.y, p.z))
             || (p.x + 1 >= s && p.y + 1 < s && q == Point(-s, p.y + 1, p.z))
             || (p.x + 1 >= s && p.y + 1 >= s && q == Point(-s, -s, p.z + 1))
    ensures Index(s, q) == Index(s, p) + 1
  {
    var L := 2 * s;
    if p.x + 1 < s {
    } else if p.y + 1 < s {
      var A := (p.z + s) * L + (p.y + s);
      assert Index(s, p) == A * L + L - 1;
      assert Index(s, q) == (A + 1) * L;
    } else {
      var B := p.z + s;
      assert Index(s, p) == (B * L + L - 1) * L + L - 1;
      assert Index(s, q) == ((B + 1) * L) * L;
      assert (B * L + L - 1) * L + L - 1 == ((B + 1) * L) * L - 1;
    }
  }

  /** The cube's last point has rank (2s)^3 - 1. */
  lemma IndexLast(s: int)
    requires s >= 1
    ensures Index(s, Point(s - 1, s - 1, s - 1)) == Cube(2 * s) - 1
  {
    var L := 2 * s;
    calc {
      Index(s, Point(s - 1, s - 1, s - 1));
      ((L - 1) * L + (L - 1)) * L + (L - 1);
      { assert (L - 1) * L + (L - 1) == L * L - 1; }
      (L * L - 1) * L + L - 1;
      L * L * L - 1;
    }
  }

  /** Each step moves the cursor to the next rank, so the number of
      positions still to come is the cube's size less the cursor's rank
      plus one. */
  lemma {:induction false} RunLength(c: Counter)
    requires Inv(c) && c.scope >= 1
    ensures |Run(c)| == Cube(2 * c.scope) - Index(c.scope, c.pos) - 1
    decreases c.scope - c.pos.z, c.scope - c.pos.y, c.scope - c.pos.x
  {
    var s := c.scope as int;
    var (item, next) := Next(c);
    if item.None? {
      assert c.pos == Point(s - 1, s - 1, s - 1);
      IndexLast(s);
    } else {
      RunLength(next);
      IndexStep(s, c.pos, item.value);
    }
  }

  /** From `New(s)` the counter yields each point of the cube [-s, s)^3
      and nothing else, the first corner included. */
  lemma NewCoversCube(s: nat)
    ensures forall q :: q in Run(New(s)) <==> InBox(s, q)
  {
    RunFacts(New(s));
  }

  /** ... and it yields (2s)^3 positions. */
  lemma NewCount(s: nat)
    ensures |Run(New(s))| == Cube(2 * s)
  {
    if s >= 1 {
      RunLength(New(s));
    }
  }

  /** From the older `LegacyNew(s)` the counter starts on (-s, -s, -s) and
      steps before yielding, so it yields every cube point but that corner... */
  lemma LegacySkipsFirstCorner(s: nat)
    ensures forall q :: q in Run(LegacyNew(s)) <==> InBox(s, q) && q != Point(-(s as int), -(s as int), -(s as int))
  {
    RunFacts(LegacyNew(s));
  }

  /** ... which makes (2s)^3 - 1 positions once the cube is not empty. */
  lemma LegacyCount(s: nat)
    requires s >= 1
    ensures |Run(LegacyNew(s))| == Cube(2 * s) - 1
  {
    RunLength(LegacyNew(s));
  }

  /** Scope 0, by either constructor or by `Default`, yields nothing. */
  lemma ScopeZeroYieldsNothing()
    ensures Run(New(0)) == [] && Run(LegacyNew(0)) == [] && Run(Default) == []
  {
  }

  /** The i-th position yielded from `c` is the point whose rank is i
      places after the cursor's. */
  lemma {:induction false} RunRank(c: Counter)
    requires Inv(c) && c.scope >= 1
    ensures forall i :: 0 <= i < |Run(c)| ==> Index(c.scope, Run(c)[i]) == Index(c.scope, c.pos) + 1 + i
    decreases c.scope - c.pos.z, c.scope - c.pos.y, c.scope - c.pos.x
  {
    var s := c.scope as int;
    var (item, next) := Next(c);
    if item.Some? {
      RunRank(next);
      IndexStep(s, c.pos, item.value);
      forall i | 1 <= i < |Run(c)|
        ensures Index(s, Run(c)[i]) == Index(s, c.pos) + 1 + i
      {
        assert Run(c)[i] == Run(next)[i - 1];
      }
    }
  }

  /** From `New(s)` the i-th position yielded is the cube point of rank i
      (so (-s, -s, -s) first, x fastest, z slowest, as the iter.rs doc
      example lists for scope 1)... */
  lemma NewOrder(s: nat)
    requires s >= 1
    ensures forall i :: 0 <= i < |Run(New(s))| ==> Index(s, Run(New(s))[i]) == i
  {
    RunRank(New(s));
  }

  /** ... while from the older `LegacyNew(s)` it is the point of rank i + 1. */
  lemma LegacyOrder(s: nat)
    requires s >= 1
    ensures forall i :: 0 <= i < |Run(LegacyNew(s))| ==> Index(s, Run(LegacyNew(s))[i]) == i + 1
  {
    RunRank(LegacyNew(s));
  }

  /** The first two yields from each constructor.  With scope 1 these are
      the documented (-1,-1,-1), (0,-1,-1) for the counter, and (0,-1,-1),
      (-1,0,-1) for the older one, which starts one point later. */
  lemma FirstYields(s: nat)
    requires s >= 1
    ensures |Run(New(s))| >= 2 && |Run(LegacyNew(s))| >= 2
    ensures var m := -(s as int);
            && Run(New(s))[0] == Point(m, m, m)
            && Run(New(s))[1] == Point(m + 1, m, m)
            && Run(LegacyNew(s))[0] == Point(m + 1, m, m)
            && Run(LegacyNew(s))[1] == (if s == 1 then Point(m, m + 1, m) else Point(m + 2, m, m))
  {
    var m := -(s as int);
    var second := Counter(s, Point(m + 1, m, m));
    var third := if s == 1 then Point(m, m + 1, m) else Point(m + 2, m, m);
    assert Next(New(s)) == (Some(Point(m, m, m)), LegacyNew(s));
    assert Next(LegacyNew(s)) == (Some(Point(m + 1, m, m)), second);
    assert Next(second) == (Some(third), Counter(s, third));
    assert Run(second) == [third] + Run(Counter(s, third));
    assert Run(LegacyNew(s)) == [Point(m + 1, m, m)] + Run(second);
    assert Run(New(s)) == [Point(m, m, m)] + Run(LegacyNew(s));
  }
}
