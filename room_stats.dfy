/**
 * Per-room statistics of `generateTiles`: one scan of the labeled grid, column
 * by column, counts the tiles of every room id, sums their coordinates and
 * remembers the last tile seen; the sums of rooms `1..R` are then divided into
 * centroids, and the squared distances between centroids are tabulated.
 */
module RoomStats {
  import opened Tiles
  import Labeling

  /** `{size, xAvg, yAvg, xNode, yNode}`; before averaging, `xAvg`/`yAvg` hold coordinate sums. */
  datatype RoomStat = RoomStat(size: nat, xAvg: real, yAvg: real, xNode: int, yNode: int)

  const EmptyStat := RoomStat(0, 0.0, 0.0, 0, 0)

  /** Every row of `t` has `w` tiles. */
  ghost predicate Shaped(t: Grid, w: nat)
  {
    forall y :: 0 <= y < |t| ==> |t[y]| == w
  }

  /** A scan position: every column before `i`, then rows `0 .. j - 1` of column `i`. */
  predicate Position(t: Grid, w: nat, i: nat, j: nat)
  {
    (i < w && j <= |t|) || (i == w && j == 0)
  }

  /** `(x, y)` has been scanned before position `(i, j)`. */
  predicate Scanned(i: int, j: int, x: int, y: int)
  {
    Labeling.ScanLe(x, y, i, j - 1)
  }

  /** The statistics of room `r` after the scan has reached position `(i, j)`. */
  ghost function Tally(t: Grid, w: nat, i: nat, j: nat, r: nat): RoomStat
    requires Shaped(t, w) && Position(t, w, i, j)
    decreases i, j
  {
    if j == 0 then
      if i == 0 then EmptyStat else Tally(t, w, i - 1, |t|, r)
    else
      var s := Tally(t, w, i, j - 1, r);
      if t[j - 1][i].room == r then RoomStat(s.size + 1, s.xAvg + i as real, s.yAvg + (j - 1) as real, i, j - 1)
      else s
  }

  /** `Σ r < n. Tally(t, w, i, j, r).size`. */
  ghost function SumSizes(t: Grid, w: nat, i: nat, j: nat, n: nat): nat
    requires Shaped(t, w) && Position(t, w, i, j)
  {
    if n == 0 then 0 else SumSizes(t, w, i, j, n - 1) + Tally(t, w, i, j, n - 1).size
  }

  /**
   * A room has tiles exactly when some scanned tile carries its id, and then
   * `(xNode, yNode)` is the last scanned tile with that id.
   */
  lemma {:induction false} TallyNode(t: Grid, w: nat, i: nat, j: nat, r: nat)
    requires Shaped(t, w) && Position(t, w, i, j)
    ensures var s := Tally(t, w, i, j, r);
      && (s.size > 0 <==> exists y, x :: InBounds(t, x, y) && Scanned(i, j, x, y) && t[y][x].room == r)
      && (s.size > 0 ==>
            && InBounds(t, s.xNode, s.yNode) && Scanned(i, j, s.xNode, s.yNode) && t[s.yNode][s.xNode].room == r
            && forall y, x :: InBounds(t, x, y) && Scanned(i, j, x, y) && !Scanned(s.xNode, s.yNode + 1, x, y) ==>
                 t[y][x].room != r)
    decreases i, j
  {
    if j == 0 {
      if i > 0 {
        TallyNode(t, w, i - 1, |t|, r);
        forall y, x | InBounds(t, x, y) && Scanned(i, 0, x, y) ensures Scanned(i - 1, |t|, x, y) {
        }
      }
    } else {
      TallyNode(t, w, i, j - 1, r);
    }
  }

  /** One scanned tile adds one to the total size of the rooms below `n` when its id is below `n`. */
  lemma {:induction false} SumStep(t: Grid, w: nat, i: nat, j: nat, n: nat)
    requires Shaped(t, w) && Position(t, w, i, j) && j > 0
    ensures SumSizes(t, w, i, j, n) == SumSizes(t, w, i, j - 1, n) + (if t[j - 1][i].room < n then 1 else 0)
  {
    if n > 0 {
      SumStep(t, w, i, j, n - 1);
    }
  }

  lemma {:induction false} SumColumn(t: Grid, w: nat, i: nat, n: nat)
    requires Shaped(t, w) && 0 < i <= w
    ensures SumSizes(t, w, i, 0, n) == SumSizes(t, w, i - 1, |t|, n)
  {
    if n > 0 {
      SumColumn(t, w, i, n - 1);
    }
  }

  lemma {:induction false} SumStart(t: Grid, w: nat, n: nat)
    requires Shaped(t, w) && Position(t, w, 0, 0)
    ensures SumSizes(t, w, 0, 0, n) == 0
  {
    if n > 0 {
      SumStart(t, w, n - 1);
    }
  }

  /** When every id is below `n`, the sizes of rooms `0..n-1` add up to the number of scanned tiles. */
  lemma {:induction false} SizesSum(t: Grid, w: nat, i: nat, j: nat, n: nat)
    requires Shaped(t, w) && Position(t, w, i, j) && IdsBelow(t, n)
    ensures SumSizes(t, w, i, j, n) == i * |t| + j
    decreases i, j
  {
    if j == 0 {
      if i == 0 {
        SumStart(t, w, n);
      } else {
        SizesSum(t, w, i - 1, |t|, n);
        SumColumn(t, w, i, n);
      }
    } else {
      SizesSum(t, w, i, j - 1, n);
      SumStep(t, w, i, j, n);
    }
  }

  /**
   * The statistics scan: `roomStats` has `count + 1` entries and every tile adds
   * itself to the entry of its room.
   */
  method CollectStats(g: array2<Tile>, count: nat) returns (stats: array<RoomStat>)
    requires IdsBelow(Snap(g), count + 1)
    ensures fresh(stats) && stats.Length == count + 1
    ensures forall r :: 0 <= r <= count ==> stats[r] == Tally(Snap(g), g.Length1, g.Length1, 0, r)
  {
    ghost var t := Snap(g);
    stats := new RoomStat[count + 1](_ => EmptyStat);
    for i := 0 to g.Length1
      invariant forall r :: 0 <= r <= count ==> stats[r] == Tally(t, g.Length1, i, 0, r)
    {
      TallyColumn(g, stats, i, t);
    }
  }

  /** The statistics scan of column `i`. */
  method TallyColumn(g: array2<Tile>, stats: array<RoomStat>, i: nat, ghost t: Grid)
    requires t == Snap(g) && i < g.Length1 && IdsBelow(t, stats.Length)
    requires forall r :: 0 <= r < stats.Length ==> stats[r] == Tally(t, g.Length1, i, 0, r)
    modifies stats
    ensures forall r :: 0 <= r < stats.Length ==> stats[r] == Tally(t, g.Length1, i + 1, 0, r)
  {
    for j := 0 to g.Length0
      invariant forall r :: 0 <= r < stats.Length ==> stats[r] == Tally(t, g.Length1, i, j, r)
    {
      var r := g[j, i].room;
      assert t[j][i].room == r;
      stats[r] := RoomStat(stats[r].size + 1, stats[r].xAvg + i as real, stats[r].yAvg + j as real, i, j);
    }
  }

  /** The entry of a room with tiles once averaged: its coordinate sums divided by its size. */
  function Mean(s: RoomStat): RoomStat
    requires s.size > 0
  {
    s.(xAvg := s.xAvg / s.size as real, yAvg := s.yAvg / s.size as real)
  }

  /**
   * The table `roomStats` of a labeled grid with rooms `1..count`, once
   * averaged: entry 0, the tiles of no room, keeps its sums; every room its
   * centroid, its size and its last tile.
   */
  ghost function StatsOf(t: Grid, w: nat, count: nat): seq<RoomStat>
    requires Shaped(t, w) && forall r :: 1 <= r <= count ==> Tally(t, w, w, 0, r).size > 0
  {
    seq(count + 1, r requires 0 <= r <= count => if r == 0 then Tally(t, w, w, 0, 0) else Mean(Tally(t, w, w, 0, r)))
  }

  /** Divides the coordinate sums of rooms `1..` by their sizes; room 0 keeps its sums. */
  method Average(stats: array<RoomStat>)
    requires forall r :: 1 <= r < stats.Length ==> stats[r].size > 0
    modifies stats
    ensures stats.Length > 0 ==> stats[0] == old(stats[0])
    ensures forall r :: 1 <= r < stats.Length ==> stats[r] == Mean(old(stats[r]))
  {
    var r := 1;
    while r < stats.Length
      invariant 1 <= r && (r <= stats.Length || r == 1)
      invariant stats.Length > 0 ==> stats[0] == old(stats[0])
      invariant forall q :: r <= q < stats.Length ==> stats[q] == old(stats[q])
      invariant forall q :: 1 <= q < r ==> stats[q] == Mean(old(stats[q]))
    {
      stats[r] := Mean(stats[r]);
      r := r + 1;
    }
  }

  /**
   * The squared Euclidean distance between two centroids. The source takes the
   * square root; as the root is monotone, every `<` between distances is the
   * same `<` between squares.
   */
  function Dist2(a: RoomStat, b: RoomStat): (d: real)
    ensures d >= 0.0
    ensures a.xAvg == b.xAvg && a.yAvg == b.yAvg ==> d == 0.0
  {
    (b.xAvg - a.xAvg) * (b.xAvg - a.xAvg) + (b.yAvg - a.yAvg) * (b.yAvg - a.yAvg)
  }

  lemma Dist2Symmetric(a: RoomStat, b: RoomStat)
    ensures Dist2(a, b) == Dist2(b, a)
  {
  }

  /** The distance table: `d[i, j]` and `d[j, i]` are both filled in when `j >= i`. */
  method Distances(stats: array<RoomStat>) returns (d: array2<real>)
    ensures fresh(d) && d.Length0 == stats.Length && d.Length1 == stats.Length
    ensures forall i, j :: 0 <= i < stats.Length && 0 <= j < stats.Length ==> d[i, j] == Dist2(stats[j], stats[i])
  {
    var n := stats.Length;
    d := new real[n, n];
    for i := 0 to n
      invariant forall a, b :: 0 <= a < n && 0 <= b < n && (a < i || b < i) ==> d[a, b] == Dist2(stats[b], stats[a])
    {
      for j := i to n
        invariant forall a, b :: 0 <= a < n && 0 <= b < n && (a < i || b < i) ==> d[a, b] == Dist2(stats[b], stats[a])
        invariant forall b :: i <= b < j ==> d[i, b] == Dist2(stats[b], stats[i]) && d[b, i] == Dist2(stats[i], stats[b])
      {
        var distance := Dist2(stats[i], stats[j]);
        Dist2Symmetric(stats[i], stats[j]);
        d[j, i] := distance;
        d[i, j] := distance;
      }
    }
  }
}
