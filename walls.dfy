/**
 * The line-of-sight walls of the map export (`exportMap` in
 * `client/src/components/map/Map.js`): a unit wall on every tile edge between
 * a tile that is on and one that is off, then, separately for vertical and
 * horizontal walls, a stable sort by the larger endpoint and a greedy merge of
 * walls on one line that share an endpoint.
 *
 * The grid is an abstract `on` flag per tile, `on[y, x]` like
 * `tile_states[y][x].on`.
 */
module Walls {
  import opened Wrappers
  import StableSort

  datatype Point = Point(x: int, y: int)

  /** `[{x, y}, {x, y}]`: a wall from `p1` to `p2`. */
  datatype Wall = Wall(p1: Point, p2: Point)

  /** The wall on the right side of tile `(i, j)`. */
  function Vertical(i: int, j: int): Wall
  {
    Wall(Point(i + 1, j), Point(i + 1, j + 1))
  }

  /** The wall below tile `(i, j)`. */
  function Horizontal(i: int, j: int): Wall
  {
    Wall(Point(i, j + 1), Point(i + 1, j + 1))
  }

  /** Exactly one of two tiles is on. */
  predicate Boundary(a: bool, b: bool)
  {
    (a || b) && !(a && b)
  }

  /**
   * The tile edges a scan looks at. As written (`full` false) the scan covers
   * every tile but the last column and the last row; the full scan covers
   * every right edge between two tiles and every lower edge between two tiles.
   */
  predicate RightEdge(on: array2<bool>, full: bool, i: int, j: int)
  {
    0 <= i < on.Length1 - 1 && 0 <= j < (if full then on.Length0 else on.Length0 - 1)
  }

  predicate LowerEdge(on: array2<bool>, full: bool, i: int, j: int)
  {
    0 <= i < (if full then on.Length1 else on.Length1 - 1) && 0 <= j < on.Length0 - 1
  }

  /** The columns and the rows of tiles a scan visits. */
  function Cols(on: array2<bool>, full: bool): int
  {
    if full then on.Length1 else on.Length1 - 1
  }

  function Rows(on: array2<bool>, full: bool): int
  {
    if full then on.Length0 else on.Length0 - 1
  }

  /** `w` is a wall the scan emits: a right or lower edge it looks at, on a boundary. */
  predicate Emitted(on: array2<bool>, full: bool, w: Wall)
    reads on
  {
    || (var (i, j) := (w.p1.x - 1, w.p1.y);
        w == Vertical(i, j) && RightEdge(on, full, i, j) && Boundary(on[j, i], on[j, i + 1]))
    || (var (i, j) := (w.p1.x, w.p1.y - 1);
        w == Horizontal(i, j) && LowerEdge(on, full, i, j) && Boundary(on[j, i], on[j + 1, i]))
  }

  /** `(i, j)` comes before `(i', j')` in the scan: column by column, top to bottom. */
  predicate Before(i: int, j: int, i': int, j': int)
  {
    i < i' || (i == i' && j < j')
  }

  /** The tile whose edge `w` is, when `w` is a right or lower edge. */
  function Owner(w: Wall): (int, int)
  {
    if w.p1.x == w.p2.x then (w.p1.x - 1, w.p1.y) else (w.p1.x, w.p1.y - 1)
  }

  /**
   * The emission order: the walls of a tile come after those of every tile
   * before it in the scan (column by column, top to bottom), and a tile's right
   * edge comes before its lower edge. In particular no wall is emitted twice.
   */
  ghost predicate ScanOrdered(walls: seq<Wall>)
  {
    forall k, k' :: 0 <= k < k' < |walls| ==>
      Before(Owner(walls[k]).0, Owner(walls[k]).1, Owner(walls[k']).0, Owner(walls[k']).1)
      || (Owner(walls[k]) == Owner(walls[k']) && walls[k].p1.x == walls[k].p2.x && walls[k'].p1.x != walls[k'].p2.x)
  }

  /** The walls found so far: those of every tile scanned before `(i, j)`. */
  ghost predicate ScanSoFar(on: array2<bool>, full: bool, walls: seq<Wall>, i: int, j: int)
    reads on
  {
    && EmittedBefore(on, full, walls, i, j)
    && RightsBefore(on, full, walls, i, j)
    && LowersBefore(on, full, walls, i, j)
    && ScanOrdered(walls)
  }

  ghost predicate EmittedBefore(on: array2<bool>, full: bool, walls: seq<Wall>, i: int, j: int)
    reads on
  {
    forall w :: w in walls ==> Emitted(on, full, w) && Before(Owner(w).0, Owner(w).1, i, j)
  }

  ghost predicate RightsBefore(on: array2<bool>, full: bool, walls: seq<Wall>, i: int, j: int)
    reads on
  {
    forall a, b :: RightEdge(on, full, a, b) && Before(a, b, i, j) ==>
      (Vertical(a, b) in walls <==> Boundary(on[b, a], on[b, a + 1]))
  }

  ghost predicate LowersBefore(on: array2<bool>, full: bool, walls: seq<Wall>, i: int, j: int)
    reads on
  {
    forall a, b :: LowerEdge(on, full, a, b) && Before(a, b, i, j) ==>
      (Horizontal(a, b) in walls <==> Boundary(on[b, a], on[b + 1, a]))
  }

  /** The walls of tile `(i, j)`: its right edge, then its lower edge, each when on a boundary. */
  function TileWalls(on: array2<bool>, full: bool, i: int, j: int): seq<Wall>
    reads on
  {
    (if RightEdge(on, full, i, j) && Boundary(on[j, i], on[j, i + 1]) then [Vertical(i, j)] else [])
    + (if LowerEdge(on, full, i, j) && Boundary(on[j, i], on[j + 1, i]) then [Horizontal(i, j)] else [])
  }

  /** Scanning tile `(i, j)` extends the walls found so far. */
  lemma ScanStep(on: array2<bool>, full: bool, walls: seq<Wall>, i: int, j: int)
    requires 0 <= i < Cols(on, full) && 0 <= j < Rows(on, full) && ScanSoFar(on, full, walls, i, j)
    ensures ScanSoFar(on, full, walls + TileWalls(on, full, i, j), i, j + 1)
  {
    EmittedStep(on, full, walls, i, j);
    OrderedStep(on, full, walls, i, j);
    RightsStep(on, full, walls, i, j);
    LowersStep(on, full, walls, i, j);
  }

  lemma EmittedStep(on: array2<bool>, full: bool, walls: seq<Wall>, i: int, j: int)
    requires EmittedBefore(on, full, walls, i, j)
    ensures EmittedBefore(on, full, walls + TileWalls(on, full, i, j), i, j + 1)
  {
    var tw := TileWalls(on, full, i, j);
    forall w | w in walls + tw ensures Emitted(on, full, w) && Before(Owner(w).0, Owner(w).1, i, j + 1) {
      if w !in walls {
        assert w in tw;
      }
    }
  }

  lemma OrderedStep(on: array2<bool>, full: bool, walls: seq<Wall>, i: int, j: int)
    requires EmittedBefore(on, full, walls, i, j) && ScanOrdered(walls)
    ensures ScanOrdered(walls + TileWalls(on, full, i, j))
  {
    var tw := TileWalls(on, full, i, j);
    var walls' := walls + tw;
    forall w | w in tw ensures Owner(w) == (i, j) {
    }
    forall k, k' | 0 <= k < k' < |walls'|
      ensures Before(Owner(walls'[k]).0, Owner(walls'[k]).1, Owner(walls'[k']).0, Owner(walls'[k']).1)
        || (Owner(walls'[k]) == Owner(walls'[k']) && walls'[k].p1.x == walls'[k].p2.x && walls'[k'].p1.x != walls'[k'].p2.x)
    {
      if k' >= |walls| {
        assert walls'[k'] in tw;
        if k < |walls| {
          assert walls'[k] in walls;
        } else {
          assert |tw| == 2 && k == |walls| && k' == |walls| + 1;
        }
      }
    }
  }

  lemma RightsStep(on: array2<bool>, full: bool, walls: seq<Wall>, i: int, j: int)
    requires EmittedBefore(on, full, walls, i, j) && RightsBefore(on, full, walls, i, j)
    ensures RightsBefore(on, full, walls + TileWalls(on, full, i, j), i, j + 1)
  {
    var tw := TileWalls(on, full, i, j);
    forall a, b | RightEdge(on, full, a, b) && Before(a, b, i, j + 1)
      ensures Vertical(a, b) in walls + tw <==> Boundary(on[b, a], on[b, a + 1])
    {
      if (a, b) != (i, j) {
        assert Vertical(a, b) !in tw;
      } else {
        assert Vertical(a, b) in walls ==> Before(a, b, i, j);
      }
    }
  }

  lemma LowersStep(on: array2<bool>, full: bool, walls: seq<Wall>, i: int, j: int)
    requires EmittedBefore(on, full, walls, i, j) && LowersBefore(on, full, walls, i, j)
    ensures LowersBefore(on, full, walls + TileWalls(on, full, i, j), i, j + 1)
  {
    var tw := TileWalls(on, full, i, j);
    forall a, b | LowerEdge(on, full, a, b) && Before(a, b, i, j + 1)
      ensures Horizontal(a, b) in walls + tw <==> Boundary(on[b, a], on[b + 1, a])
    {
      if (a, b) != (i, j) {
        assert Horizontal(a, b) !in tw;
      } else {
        assert Horizontal(a, b) in walls ==> Before(a, b, i, j);
      }
    }
  }

  /** The end of a column is the start of the next. */
  lemma ScanNextColumn(on: array2<bool>, full: bool, walls: seq<Wall>, i: int, j: int)
    requires ScanSoFar(on, full, walls, i, j) && j >= Rows(on, full)
    ensures ScanSoFar(on, full, walls, i + 1, 0)
  {
  }

  /** The scan has looked at every edge it covers. */
  lemma ScanDone(on: array2<bool>, full: bool, walls: seq<Wall>, i: int)
    requires ScanSoFar(on, full, walls, i, 0) && i >= Cols(on, full)
    ensures forall w :: w in walls ==> Emitted(on, full, w)
    ensures forall a, b :: RightEdge(on, full, a, b) ==> (Vertical(a, b) in walls <==> Boundary(on[b, a], on[b, a + 1]))
    ensures forall a, b :: LowerEdge(on, full, a, b) ==> (Horizontal(a, b) in walls <==> Boundary(on[b, a], on[b + 1, a]))
    ensures forall k, k' :: 0 <= k < k' < |walls| ==> walls[k] != walls[k']
  {
    forall a, b | RightEdge(on, full, a, b) ensures Before(a, b, i, 0) {
    }
    forall a, b | LowerEdge(on, full, a, b) ensures Before(a, b, i, 0) {
    }
  }

  /**
   * The wall scan as written: columns `0 .. width - 2`, rows `0 .. height - 2`;
   * for each tile a wall on its right edge when exactly one of it and its right
   * neighbour is on, then a wall on its lower edge when exactly one of it and
   * its lower neighbour is on. The right edges of the last row and the lower
   * edges of the last column are never looked at.
   */
  method ScanWalls(on: array2<bool>) returns (walls: seq<Wall>)
    ensures forall w :: w in walls ==> Emitted(on, false, w)
    ensures ScanOrdered(walls)
    ensures forall i, j :: RightEdge(on, false, i, j) ==> (Vertical(i, j) in walls <==> Boundary(on[j, i], on[j, i + 1]))
    ensures forall i, j :: LowerEdge(on, false, i, j) ==> (Horizontal(i, j) in walls <==> Boundary(on[j, i], on[j + 1, i]))
    ensures forall k, k' :: 0 <= k < k' < |walls| ==> walls[k] != walls[k']
  {
    walls := [];
    var i := 0;
    while i < on.Length1 - 1
      invariant 0 <= i && (i <= on.Length1 - 1 || i == 0)
      invariant ScanSoFar(on, false, walls, i, 0)
    {
      walls := ScanColumn(on, i, walls);
      i := i + 1;
    }
    ScanDone(on, false, walls, i);
  }

  /** One column of the scan as written. */
  method ScanColumn(on: array2<bool>, i: int, walls: seq<Wall>) returns (walls': seq<Wall>)
    requires 0 <= i < on.Length1 - 1 && ScanSoFar(on, false, walls, i, 0)
    ensures ScanSoFar(on, false, walls', i + 1, 0)
  {
    walls' := walls;
    var j := 0;
    while j < on.Length0 - 1
      invariant 0 <= j && (j <= on.Length0 - 1 || j == 0)
      invariant ScanSoFar(on, false, walls', i, j)
    {
      ScanStep(on, false, walls', i, j);
      ghost var next := walls' + TileWalls(on, false, i, j);
      if Boundary(on[j, i], on[j, i + 1]) {
        walls' := walls' + [Vertical(i, j)];
      }
      if Boundary(on[j, i], on[j + 1, i]) {
        walls' := walls' + [Horizontal(i, j)];
      }
      assert walls' == next;
      j := j + 1;
    }
    ScanNextColumn(on, false, walls', i, j);
  }

  /**
   * The scan the comment of the source describes: every tile, a wall on its
   * right edge and on its lower edge whenever that edge lies between two tiles
   * exactly one of which is on.
   */
  method ScanAllWalls(on: array2<bool>) returns (walls: seq<Wall>)
    ensures forall w :: w in walls ==> Emitted(on, true, w)
    ensures ScanOrdered(walls)
    ensures forall i, j :: RightEdge(on, true, i, j) ==> (Vertical(i, j) in walls <==> Boundary(on[j, i], on[j, i + 1]))
    ensures forall i, j :: LowerEdge(on, true, i, j) ==> (Horizontal(i, j) in walls <==> Boundary(on[j, i], on[j + 1, i]))
    ensures forall k, k' :: 0 <= k < k' < |walls| ==> walls[k] != walls[k']
  {
    walls := [];
    for i := 0 to on.Length1
      invariant ScanSoFar(on, true, walls, i, 0)
    {
      walls := ScanFullColumn(on, i, walls);
    }
    ScanDone(on, true, walls, on.Length1);
  }

  /** One column of the full scan. */
  method ScanFullColumn(on: array2<bool>, i: int, walls: seq<Wall>) returns (walls': seq<Wall>)
    requires 0 <= i < on.Length1 && ScanSoFar(on, true, walls, i, 0)
    ensures ScanSoFar(on, true, walls', i + 1, 0)
  {
    walls' := walls;
    for j := 0 to on.Length0
      invariant ScanSoFar(on, true, walls', i, j)
    {
      ScanStep(on, true, walls', i, j);
      ghost var next := walls' + TileWalls(on, true, i, j);
      if i + 1 < on.Length1 && Boundary(on[j, i], on[j, i + 1]) {
        walls' := walls' + [Vertical(i, j)];
      }
      if j + 1 < on.Length0 && Boundary(on[j, i], on[j + 1, i]) {
        walls' := walls' + [Horizontal(i, j)];
      }
      assert walls' == next;
    }
    ScanNextColumn(on, true, walls', i, on.Length0);
  }

  /**
   * On a one-row grid of two tiles, one on and one off, the edge between them
   * is a boundary the full scan walls, while the scan as written emits no wall
   * at all.
   */
  lemma LastRowMissed(on: array2<bool>)
    requires on.Length0 == 1 && on.Length1 == 2 && on[0, 0] && !on[0, 1]
    ensures RightEdge(on, true, 0, 0) && Boundary(on[0, 0], on[0, 1])
    ensures forall w :: !Emitted(on, false, w)
  {
  }

  /**
   * A wall seen along its line: `line` is the fixed coordinate of its first
   * point (`x` for a vertical wall, `y` for a horizontal one), `lo` and `hi`
   * the free coordinates of its first and second points.
   */
  datatype Seg = Seg(line: int, lo: int, hi: int)

  predicate IsVertical(w: Wall)
  {
    w.p1.x == w.p2.x
  }

  predicate IsHorizontal(w: Wall)
  {
    w.p1.y == w.p2.y
  }

  function VSeg(w: Wall): Seg
  {
    Seg(w.p1.x, w.p1.y, w.p2.y)
  }

  function HSeg(w: Wall): Seg
  {
    Seg(w.p1.y, w.p1.x, w.p2.x)
  }

  function VWall(s: Seg): Wall
  {
    Wall(Point(s.line, s.lo), Point(s.line, s.hi))
  }

  function HWall(s: Seg): Wall
  {
    Wall(Point(s.lo, s.line), Point(s.hi, s.line))
  }

  /** The unit steps `(line, k)`, from `k` to `k + 1`, that a segment covers. */
  function SegUnits(s: Seg): set<(int, int)>
  {
    set k | s.lo <= k < s.hi :: (s.line, k)
  }

  /** The unit steps covered by some segment of `ss`. */
  function Units(ss: seq<Seg>): set<(int, int)>
  {
    if ss == [] then {} else SegUnits(ss[0]) + Units(ss[1..])
  }

  /** A unit step is covered by `ss` exactly when some segment of `ss` covers it. */
  lemma {:induction false} UnitsIn(ss: seq<Seg>)
    ensures forall p :: p in Units(ss) <==> exists s :: s in ss && p in SegUnits(s)
  {
    if ss != [] {
      UnitsIn(ss[1..]);
      assert forall s :: s in ss <==> s == ss[0] || s in ss[1..];
    }
  }

  /** The segments still present, in order; `None` is an absorbed (nulled) wall. */
  function Present(os: seq<Option<Seg>>): (r: seq<Seg>)
    ensures |r| <= |os|
    ensures forall s :: s in r <==> Some(s) in os
  {
    if os == [] then [] else (if os[0].Some? then [os[0].value] else []) + Present(os[1..])
  }

  /** Two segments on one line share an endpoint value. */
  predicate Touch(w: Seg, s: Seg)
  {
    w.line == s.line && (w.lo == s.lo || w.lo == s.hi || w.hi == s.lo || w.hi == s.hi)
  }

  function Min(a: int, b: int): int
  {
    if a <= b then a else b
  }

  function Max(a: int, b: int): int
  {
    if a >= b then a else b
  }

  /** The merge of `s` into `w`: from the least to the greatest of the four free coordinates. */
  function Join(w: Seg, s: Seg): (r: Seg)
    ensures r.line == w.line
  {
    Seg(w.line, Min(Min(w.lo, w.hi), Min(s.lo, s.hi)), Max(Max(w.lo, w.hi), Max(s.lo, s.hi)))
  }

  /** Joining two touching segments, each with `lo < hi`, covers exactly what the two covered. */
  lemma JoinUnits(w: Seg, s: Seg)
    requires Touch(w, s) && w.lo < w.hi && s.lo < s.hi
    ensures SegUnits(Join(w, s)) == SegUnits(w) + SegUnits(s)
    ensures Join(w, s).lo < Join(w, s).hi
  {
    var j := Join(w, s);
    forall p | p in SegUnits(j) ensures p in SegUnits(w) + SegUnits(s) {
      var k := p.1;
      if w.lo <= k < w.hi {
        assert p in SegUnits(w);
      } else {
        assert p in SegUnits(s);
      }
    }
  }

  /** Nulling the `m`-th entry takes its segment out of what the entries cover. */
  lemma {:induction false} PresentDrop(os: seq<Option<Seg>>, m: nat)
    requires m < |os| && os[m].Some?
    ensures Units(Present(os)) == Units(Present(os[m := None])) + SegUnits(os[m].value)
  {
    var os' := os[m := None];
    var a, b := Units(Present(os)), Units(Present(os'));
    UnitsIn(Present(os));
    UnitsIn(Present(os'));
    forall p | p in a ensures p in b + SegUnits(os[m].value) {
      var s :| s in Present(os) && p in SegUnits(s);
      if s != os[m].value {
        var k :| 0 <= k < |os| && os[k] == Some(s);
        assert os'[k] == Some(s);
      }
    }
    forall p | p in b ensures p in a {
      var s :| s in Present(os') && p in SegUnits(s);
      var k :| 0 <= k < |os'| && os'[k] == Some(s);
      assert os[k] == Some(s);
    }
  }

  /** The present segments of `os` are the first entry's, then those of the rest. */
  lemma PresentFirst(os: seq<Option<Seg>>)
    requires os != []
    ensures Units(Present(os)) == (if os[0].Some? then SegUnits(os[0].value) else {}) + Units(Present(os[1..]))
  {
    var r := Present(os[1..]);
    if os[0].Some? {
      assert Present(os) == [os[0].value] + r;
      assert ([os[0].value] + r)[1..] == r;
    } else {
      assert Present(os) == r;
    }
  }

  lemma UnitsAppend(a: seq<Seg>, s: Seg)
    ensures Units(a + [s]) == Units(a) + SegUnits(s)
  {
    UnitsIn(a + [s]);
    UnitsIn(a);
    assert forall t :: t in a + [s] <==> t in a || t == s;
  }

  /** The merge loop's state, `w` the wall being grown from entry `i`, entries before `j` looked at. */
  ghost predicate Growing(a: seq<Option<Seg>>, reduced: seq<Seg>, w: Seg, i: nat, u: set<(int, int)>)
    requires i < |a|
  {
    && Units(reduced) + SegUnits(w) + Units(Present(a[i + 1..])) == u
    && w.lo < w.hi
    && (forall k :: i < k < |a| && a[k].Some? ==> a[k].value.lo < a[k].value.hi)
  }

  /**
   * The merge of one group, as written: every entry still present, in order,
   * becomes the wall `w` that absorbs each later present entry on its line
   * sharing an endpoint value with it — `w` grows to the least and greatest of
   * the four values and the absorbed entry is nulled — and `w` is output. What
   * the output covers is what the group covered.
   */
  method Merge(a: array<Option<Seg>>) returns (reduced: seq<Seg>)
    requires forall k :: 0 <= k < a.Length ==> a[k].Some? && a[k].value.lo < a[k].value.hi
    modifies a
    ensures Units(reduced) == Units(Present(old(a[..])))
    ensures |reduced| <= a.Length
    ensures forall s :: s in reduced ==> s.lo < s.hi
  {
    ghost var u := Units(Present(a[..]));
    reduced := [];
    assert a[0..] == a[..];
    for i := 0 to a.Length
      invariant Merged(a[..], reduced, i, u)
    {
      reduced := MergeEntry(a, reduced, i, u);
    }
    assert a[a.Length..] == [];
  }

  /** The merge loop's state before entry `i`: the output and the entries from `i` on cover `u`. */
  ghost predicate Merged(a: seq<Option<Seg>>, reduced: seq<Seg>, i: nat, u: set<(int, int)>)
  {
    && i <= |a|
    && Units(reduced) + Units(Present(a[i..])) == u
    && |reduced| <= i
    && (forall s :: s in reduced ==> s.lo < s.hi)
    && (forall k :: i <= k < |a| && a[k].Some? ==> a[k].value.lo < a[k].value.hi)
  }

  /** Entry `i` of the merge: when still present, the wall grown from it is output. */
  method MergeEntry(a: array<Option<Seg>>, reduced: seq<Seg>, i: nat, ghost u: set<(int, int)>)
    returns (reduced': seq<Seg>)
    requires i < a.Length && Merged(a[..], reduced, i, u)
    modifies a
    ensures Merged(a[..], reduced', i + 1, u)
  {
    PresentFirst(a[i..]);
    assert a[i..][1..] == a[i + 1..];
    reduced' := reduced;
    if a[i].Some? {
      var w := Grow(a, reduced, i, u);
      UnitsAppend(reduced, w);
      reduced' := reduced + [w];
    }
  }

  /** The wall grown from entry `i`: it absorbs, in order, each later entry that touches it. */
  method Grow(a: array<Option<Seg>>, reduced: seq<Seg>, i: nat, ghost u: set<(int, int)>) returns (w: Seg)
    requires i < a.Length && a[i].Some? && a[i].value.lo < a[i].value.hi
    requires forall k :: i < k < a.Length && a[k].Some? ==> a[k].value.lo < a[k].value.hi
    requires Units(reduced) + SegUnits(a[i].value) + Units(Present(a[i + 1..])) == u
    modifies a
    ensures Growing(a[..], reduced, w, i, u)
    ensures forall k :: 0 <= k <= i ==> a[k] == old(a[k])
    ensures forall k :: i < k < a.Length ==> a[k] == old(a[k]) || a[k].None?
  {
    w := a[i].value;
    for j := i + 1 to a.Length
      invariant Growing(a[..], reduced, w, i, u)
      invariant forall k :: 0 <= k <= i ==> a[k] == old(a[k])
      invariant forall k :: i < k < a.Length ==> a[k] == old(a[k]) || a[k].None?
    {
      if a[j].Some? {
        var second := a[j].value;
        if w.line == second.line
          && (w.lo == second.lo || w.lo == second.hi || w.hi == second.lo || w.hi == second.hi) {
          w := Absorb(a, reduced, w, i, j, u);
        }
      }
    }
  }

  /** One absorption: `a[j]` joins `w` and is nulled. */
  method Absorb(a: array<Option<Seg>>, reduced: seq<Seg>, w: Seg, i: nat, j: nat, ghost u: set<(int, int)>)
    returns (w': Seg)
    requires i < j < a.Length && Growing(a[..], reduced, w, i, u) && a[j].Some? && Touch(w, a[j].value)
    modifies a
    ensures w' == Join(w, old(a[j]).value)
    ensures a[..] == old(a[..])[j := None]
    ensures Growing(a[..], reduced, w', i, u)
  {
    GrowingJoin(a[..], reduced, w, i, j, u);
    w' := Join(w, a[j].value);
    a[j] := None;
  }

  /** Absorbing entry `j` into `w` and nulling it keeps the units of the merge loop. */
  lemma GrowingJoin(a: seq<Option<Seg>>, reduced: seq<Seg>, w: Seg, i: nat, j: nat, u: set<(int, int)>)
    requires i < j < |a| && Growing(a, reduced, w, i, u) && a[j].Some? && Touch(w, a[j].value)
    ensures Growing(a[j := None], reduced, Join(w, a[j].value), i, u)
  {
    var before, after := a[i + 1..], a[j := None];
    assert before[j - (i + 1)] == a[j];
    PresentDrop(before, j - (i + 1));
    JoinUnits(w, a[j].value);
    assert after[i + 1..] == before[j - (i + 1) := None];
    var rest := Units(Present(after[i + 1..]));
    assert Units(Present(before)) == rest + SegUnits(a[j].value);
    calc {
      Units(reduced) + SegUnits(Join(w, a[j].value)) + rest;
      Units(reduced) + (SegUnits(w) + SegUnits(a[j].value)) + rest;
      Units(reduced) + SegUnits(w) + (rest + SegUnits(a[j].value));
      u;
    }
    assert forall k :: i < k < |after| && after[k].Some? ==> after[k] == a[k];
  }

  /** The vertical walls, in order, as segments along their line. */
  function Verticals(walls: seq<Wall>): (r: seq<Seg>)
    ensures |r| <= |walls|
  {
    if walls == [] then [] else (if IsVertical(walls[0]) then [VSeg(walls[0])] else []) + Verticals(walls[1..])
  }

  /** The horizontal walls, in order, as segments along their line. */
  function Horizontals(walls: seq<Wall>): (r: seq<Seg>)
    ensures |r| <= |walls|
  {
    if walls == [] then [] else (if IsHorizontal(walls[0]) then [HSeg(walls[0])] else []) + Horizontals(walls[1..])
  }

  lemma {:induction false} VerticalsIn(walls: seq<Wall>)
    ensures forall s :: s in Verticals(walls) <==> exists w :: w in walls && IsVertical(w) && VSeg(w) == s
  {
    if walls != [] {
      VerticalsIn(walls[1..]);
      assert forall w :: w in walls <==> w == walls[0] || w in walls[1..];
    }
  }

  lemma {:induction false} HorizontalsIn(walls: seq<Wall>)
    ensures forall s :: s in Horizontals(walls) <==> exists w :: w in walls && IsHorizontal(w) && HSeg(w) == s
  {
    if walls != [] {
      HorizontalsIn(walls[1..]);
      assert forall w :: w in walls <==> w == walls[0] || w in walls[1..];
    }
  }

  /** A wall that is not a point is vertical or horizontal, not both, so the two filters together keep at most every wall. */
  lemma {:induction false} FiltersCount(walls: seq<Wall>)
    requires forall w :: w in walls ==> Forward(w)
    ensures |Verticals(walls)| + |Horizontals(walls)| <= |walls|
  {
    if walls != [] {
      assert forall w :: w in walls[1..] ==> w in walls;
      assert Forward(walls[0]);
      FiltersCount(walls[1..]);
    }
  }

  /** The unit steps covered by the vertical walls, and by the horizontal walls. */
  function VUnits(walls: seq<Wall>): set<(int, int)>
  {
    Units(Verticals(walls))
  }

  function HUnits(walls: seq<Wall>): set<(int, int)>
  {
    Units(Horizontals(walls))
  }

  /** Two lists with the same segments cover the same unit steps. */
  lemma UnitsSameMembers(x: seq<Seg>, y: seq<Seg>)
    requires forall s :: s in x <==> s in y
    ensures Units(x) == Units(y)
  {
    UnitsIn(x);
    UnitsIn(y);
  }

  /** The sort key of a wall: the larger of its free coordinates. */
  function Key(s: Seg): int
  {
    Max(s.lo, s.hi)
  }

  function OptKey(o: Option<Seg>): int
  {
    if o.Some? then Key(o.value) else 0
  }

  /**
   * One direction of the reduction: the walls are stably sorted by their larger
   * free coordinate, greatest first, then merged. What the result covers is
   * what the walls covered.
   */
  method Reduce(segs: seq<Seg>) returns (r: seq<Seg>)
    requires forall s :: s in segs ==> s.lo < s.hi
    ensures Units(r) == Units(segs)
    ensures |r| <= |segs|
    ensures forall s :: s in r ==> s.lo < s.hi
  {
    var a := new Option<Seg>[|segs|](k requires 0 <= k < |segs| => Some(segs[k]));
    ghost var before := a[..];
    StableSort.SortInPlace(a, OptKey);
    SortedEntries(segs, before, a[..]);
    r := Merge(a);
  }

  /** The sorted entries are the walls, each still present, covering what the walls covered. */
  lemma SortedEntries(segs: seq<Seg>, before: seq<Option<Seg>>, after: seq<Option<Seg>>)
    requires forall s :: s in segs ==> s.lo < s.hi
    requires |before| == |segs| && forall k :: 0 <= k < |before| ==> before[k] == Some(segs[k])
    requires after == StableSort.SortDesc(before, OptKey)
    ensures forall k :: 0 <= k < |after| ==> after[k].Some? && after[k].value.lo < after[k].value.hi
    ensures Units(Present(after)) == Units(segs)
  {
    StableSort.SortDescSorted(before, OptKey);
    StableSort.SortDescPerm(before, OptKey);
    assert multiset(after) == multiset(before);
    forall k | 0 <= k < |after| ensures after[k].Some? && after[k].value.lo < after[k].value.hi {
      assert after[k] in multiset(after);
      var m :| 0 <= m < |before| && before[m] == after[k];
      assert segs[m] in segs;
    }
    forall s | s in Present(after) ensures s in segs {
      assert Some(s) in multiset(after);
      var m :| 0 <= m < |before| && before[m] == Some(s);
    }
    forall s | s in segs ensures s in Present(after) {
      var k :| 0 <= k < |segs| && segs[k] == s;
      assert before[k] in multiset(before);
    }
    UnitsSameMembers(Present(after), segs);
  }

  /** The output list: the merged vertical walls, then the merged horizontal walls. */
  function Rebuild(vs: seq<Seg>, hs: seq<Seg>): (ws: seq<Wall>)
    ensures |ws| == |vs| + |hs|
  {
    seq(|vs|, k requires 0 <= k < |vs| => VWall(vs[k])) + seq(|hs|, k requires 0 <= k < |hs| => HWall(hs[k]))
  }

  /** Rebuilding keeps the vertical and the horizontal segments apart when none is a point. */
  lemma RebuildUnits(vs: seq<Seg>, hs: seq<Seg>)
    requires forall s :: s in vs ==> s.lo < s.hi
    requires forall s :: s in hs ==> s.lo < s.hi
    ensures VUnits(Rebuild(vs, hs)) == Units(vs) && HUnits(Rebuild(vs, hs)) == Units(hs)
  {
    RebuildVerticals(vs, hs);
    RebuildHorizontals(vs, hs);
    UnitsSameMembers(Verticals(Rebuild(vs, hs)), vs);
    UnitsSameMembers(Horizontals(Rebuild(vs, hs)), hs);
  }

  lemma RebuildVerticals(vs: seq<Seg>, hs: seq<Seg>)
    requires forall s :: s in hs ==> s.lo < s.hi
    ensures forall s :: s in Verticals(Rebuild(vs, hs)) <==> s in vs
  {
    var ws := Rebuild(vs, hs);
    VerticalsIn(ws);
    forall s ensures s in Verticals(ws) <==> s in vs {
      if s in vs {
        var k :| 0 <= k < |vs| && vs[k] == s;
        assert ws[k] == VWall(s) && ws[k] in ws;
      }
      if s in Verticals(ws) {
        var w :| w in ws && IsVertical(w) && VSeg(w) == s;
        var k :| 0 <= k < |ws| && ws[k] == w;
        assert w == if k < |vs| then VWall(vs[k]) else HWall(hs[k - |vs|]);
      }
    }
  }

  lemma RebuildHorizontals(vs: seq<Seg>, hs: seq<Seg>)
    requires forall s :: s in vs ==> s.lo < s.hi
    ensures forall s :: s in Horizontals(Rebuild(vs, hs)) <==> s in hs
  {
    var ws := Rebuild(vs, hs);
    HorizontalsIn(ws);
    forall s ensures s in Horizontals(ws) <==> s in hs {
      if s in hs {
        var k :| 0 <= k < |hs| && hs[k] == s;
        assert ws[|vs| + k] == HWall(s) && ws[|vs| + k] in ws;
      }
      if s in Horizontals(ws) {
        var w :| w in ws && IsHorizontal(w) && HSeg(w) == s;
        var k :| 0 <= k < |ws| && ws[k] == w;
        assert w == if k < |vs| then VWall(vs[k]) else HWall(hs[k - |vs|]);
      }
    }
  }

  /** Every wall runs along one axis, from its lesser to its greater free coordinate. */
  predicate Forward(w: Wall)
  {
    (IsVertical(w) && w.p1.y < w.p2.y) || (IsHorizontal(w) && w.p1.x < w.p2.x)
  }

  /**
   * The simplification of the walls: vertical walls are reduced, then
   * horizontal walls, and the output lists the first before the second. Along
   * each axis the output covers exactly the unit steps the walls covered, and
   * it has no more walls than the input.
   */
  method ReduceWalls(walls: seq<Wall>) returns (reduced: seq<Wall>)
    requires forall w :: w in walls ==> Forward(w)
    ensures VUnits(reduced) == VUnits(walls) && HUnits(reduced) == HUnits(walls)
    ensures |reduced| <= |walls|
    ensures forall w :: w in reduced ==> Forward(w)
  {
    VerticalsIn(walls);
    HorizontalsIn(walls);
    var vs := Reduce(Verticals(walls));
    var hs := Reduce(Horizontals(walls));
    FiltersCount(walls);
    RebuildUnits(vs, hs);
    reduced := Rebuild(vs, hs);
  }

  /** What a full scan's walls cover: one unit step per boundary edge, on the edge's line. */
  lemma ScanUnits(on: array2<bool>, walls: seq<Wall>)
    requires forall w :: w in walls ==> Emitted(on, true, w)
    requires forall i, j :: RightEdge(on, true, i, j) ==> (Vertical(i, j) in walls <==> Boundary(on[j, i], on[j, i + 1]))
    requires forall i, j :: LowerEdge(on, true, i, j) ==> (Horizontal(i, j) in walls <==> Boundary(on[j, i], on[j + 1, i]))
    ensures forall i, j :: RightEdge(on, true, i, j) ==> ((i + 1, j) in VUnits(walls) <==> Boundary(on[j, i], on[j, i + 1]))
    ensures forall i, j :: LowerEdge(on, true, i, j) ==> ((j + 1, i) in HUnits(walls) <==> Boundary(on[j, i], on[j + 1, i]))
    ensures forall p :: p in VUnits(walls) ==> RightEdge(on, true, p.0 - 1, p.1)
    ensures forall p :: p in HUnits(walls) ==> LowerEdge(on, true, p.1, p.0 - 1)
  {
    ScanVUnits(on, walls);
    ScanHUnits(on, walls);
  }

  lemma ScanVUnits(on: array2<bool>, walls: seq<Wall>)
    requires forall w :: w in walls ==> Emitted(on, true, w)
    requires forall i, j :: RightEdge(on, true, i, j) ==> (Vertical(i, j) in walls <==> Boundary(on[j, i], on[j, i + 1]))
    ensures forall i, j :: RightEdge(on, true, i, j) ==> ((i + 1, j) in VUnits(walls) <==> Boundary(on[j, i], on[j, i + 1]))
    ensures forall p :: p in VUnits(walls) ==> RightEdge(on, true, p.0 - 1, p.1)
  {
    VUnitsWalls(walls);
  }

  /** The vertical unit steps covered by unit walls are those walls' steps. */
  lemma VUnitsWalls(walls: seq<Wall>)
    requires forall w :: w in walls && IsVertical(w) ==> w == Vertical(w.p1.x - 1, w.p1.y)
    ensures forall p :: p in VUnits(walls) <==> Vertical(p.0 - 1, p.1) in walls
  {
    VerticalsIn(walls);
    UnitsIn(Verticals(walls));
    forall p | p in VUnits(walls)
      ensures Vertical(p.0 - 1, p.1) in walls
    {
      var s :| s in Verticals(walls) && p in SegUnits(s);
      var w :| w in walls && IsVertical(w) && VSeg(w) == s;
    }
    forall p: (int, int) | Vertical(p.0 - 1, p.1) in walls
      ensures p in VUnits(walls)
    {
      assert p in SegUnits(VSeg(Vertical(p.0 - 1, p.1)));
    }
  }

  lemma ScanHUnits(on: array2<bool>, walls: seq<Wall>)
    requires forall w :: w in walls ==> Emitted(on, true, w)
    requires forall i, j :: LowerEdge(on, true, i, j) ==> (Horizontal(i, j) in walls <==> Boundary(on[j, i], on[j + 1, i]))
    ensures forall i, j :: LowerEdge(on, true, i, j) ==> ((j + 1, i) in HUnits(walls) <==> Boundary(on[j, i], on[j + 1, i]))
    ensures forall p :: p in HUnits(walls) ==> LowerEdge(on, true, p.1, p.0 - 1)
  {
    HUnitsWalls(walls);
  }

  /** The horizontal unit steps covered by unit walls are those walls' steps. */
  lemma HUnitsWalls(walls: seq<Wall>)
    requires forall w :: w in walls && IsHorizontal(w) ==> w == Horizontal(w.p1.x, w.p1.y - 1)
    ensures forall p :: p in HUnits(walls) <==> Horizontal(p.1, p.0 - 1) in walls
  {
    HorizontalsIn(walls);
    UnitsIn(Horizontals(walls));
    forall p | p in HUnits(walls)
      ensures Horizontal(p.1, p.0 - 1) in walls
    {
      var s :| s in Horizontals(walls) && p in SegUnits(s);
      var w :| w in walls && IsHorizontal(w) && HSeg(w) == s;
    }
    forall p: (int, int) | Horizontal(p.1, p.0 - 1) in walls
      ensures p in HUnits(walls)
    {
      assert p in SegUnits(HSeg(Horizontal(p.1, p.0 - 1)));
    }
  }

  /**
   * The line-of-sight walls of the export, with the full scan: along each axis
   * the output covers a unit step exactly when it is an edge between two tiles
   * exactly one of which is on.
   */
  method ExportWalls(on: array2<bool>) returns (reduced: seq<Wall>)
    ensures forall i, j :: RightEdge(on, true, i, j) ==> ((i + 1, j) in VUnits(reduced) <==> Boundary(on[j, i], on[j, i + 1]))
    ensures forall i, j :: LowerEdge(on, true, i, j) ==> ((j + 1, i) in HUnits(reduced) <==> Boundary(on[j, i], on[j + 1, i]))
    ensures forall p :: p in VUnits(reduced) ==> RightEdge(on, true, p.0 - 1, p.1)
    ensures forall p :: p in HUnits(reduced) ==> LowerEdge(on, true, p.1, p.0 - 1)
    ensures forall w :: w in reduced ==> Forward(w)
  {
    var walls := ScanAllWalls(on);
    ScanUnits(on, walls);
    reduced := ReduceWalls(walls);
  }
}
