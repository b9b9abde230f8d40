/**
 * `generateTiles` from end to end: the rooms of the partition, the tile grid
 * with their cells marked as floor, the labeling of the floor regions, the
 * room statistics and distances, the room graph and the hallways.
 */
module Generate {
  import opened Wrappers
  import opened Tiles
  import Partition
  import Labeling
  import RoomStats
  import RoomGraph
  import Hallways
  import HallwayPass

  type Edge = RoomGraph.Edge

  /** The grid after marking: floor tiles of room 0 exactly on the cells of `rooms`, blank tiles elsewhere. */
  ghost function Marked(rooms: seq<Partition.Rect>, width: nat, height: nat): Grid
  {
    seq(height, y => seq(width, x => if Covered(rooms, x, y) then FloorTile else BlankTile))
  }

  /** The initial grid with every cell of `rooms` marked as floor. */
  method Layout(width: nat, height: nat, rooms: seq<Partition.Rect>) returns (g: array2<Tile>)
    requires forall i, x, y :: 0 <= i < |rooms| && Partition.Contains(rooms[i], x, y) ==> Partition.InGrid(x, y, width, height)
    ensures fresh(g) && g.Length0 == height && g.Length1 == width
    ensures Snap(g) == Marked(rooms, width, height)
  {
    g := NewGrid(width, height);
    forall i | 0 <= i < |rooms| ensures RectInside(g, rooms[i]) {
      if Partition.NonEmpty(rooms[i]) {
        var r := rooms[i];
        assert Partition.Contains(r, r.x1, r.y1) && Partition.Contains(r, r.x2, r.y2);
        assert Partition.InGrid(r.x1, r.y1, width, height) && Partition.InGrid(r.x2, r.y2, width, height);
      }
    }
    MarkRooms(g, rooms);
    SnapEq(g, Marked(rooms, width, height));
  }

  /** Every id `1..count` of a labeling has tiles: its size is positive and its last tile carries it. */
  lemma StatsOfLabels(o: Grid, t: Grid, w: nat, count: nat, seeds: seq<(int, int)>, r: nat)
    requires Labeling.LabelingOf(o, t, count, seeds) && RoomStats.Shaped(t, w) && 1 <= r <= count
    ensures var s := RoomStats.Tally(t, w, w, 0, r);
      s.size > 0 && InBounds(t, s.xNode, s.yNode) && t[s.yNode][s.xNode].room == r
  {
    RoomStats.TallyNode(t, w, w, 0, r);
    var (x, y) := seeds[r - 1];
    assert InBounds(t, x, y) && RoomStats.Scanned(w, w, x, y) && t[y][x].room == r;
  }

  /**
   * The room graph of the statistics `table`: `d` holds the distances between
   * its centroids; `tree` is Prim's choice, round by round, on `d`; `large`
   * lists in increasing order the entries larger than the average; and `edges`
   * is the tree followed by the edge each large room gains, to the room
   * `choices` names (0 for none), as `RoomGraph.NearestFree` picks it.
   */
  ghost predicate GraphOf(table: seq<RoomStats.RoomStat>, d: array2<real>, visited: seq<nat>, tree: seq<Edge>,
                          sources: seq<nat>, large: seq<nat>, choices: seq<nat>, edges: seq<Edge>)
    reads d
  {
    && d.Length0 == d.Length1 == |table|
    && (forall i, j :: 0 <= i < |table| && 0 <= j < |table| ==> d[i, j] == RoomStats.Dist2(table[j], table[i]))
    && RoomGraph.PrimEdges(d, visited, tree, sources)
    && (forall p, q :: 0 <= p < q < |large| ==> large[p] < large[q])
    && (forall r: nat :: r in large <==> r < |table| && table[r].size * |table| > RoomGraph.TotalSize(table))
    && |choices| == |large| && edges == tree + RoomGraph.Added(large, choices)
    && RoomGraph.Chosen(d, tree, large, choices)
  }

  /**
   * The room graph: Prim's tree over the centroid distances, then the extra
   * edges of the large rooms. Every edge joins two entries of the table, and
   * the tree, which comes first, reaches every visited room from room 1.
   */
  method RoomEdges(stats: array<RoomStats.RoomStat>)
    returns (visited: seq<nat>, tree: seq<Edge>, edges: seq<Edge>,
             ghost d: array2<real>, ghost sources: seq<nat>, ghost large: seq<nat>, ghost choices: seq<nat>)
    ensures GraphOf(stats[..], d, visited, tree, sources, large, choices, edges)
    ensures forall k :: 0 <= k < |edges| ==> edges[k].0 < stats.Length && edges[k].1 < stats.Length
    ensures |tree| <= |edges| && edges[..|tree|] == tree
    ensures stats.Length >= 2 ==> forall v :: v in visited <==> 1 <= v < stats.Length
    ensures forall v :: v in visited ==> exists p :: RoomGraph.Walk(tree, p) && p[0] == 1 && p[|p| - 1] == v
  {
    var dist := RoomStats.Distances(stats);
    visited, tree, sources := RoomGraph.Prim(dist);
    RoomGraph.PrimSpans(dist, visited, tree, sources);
    var largeRooms := RoomGraph.LargeRooms(stats);
    edges, choices := RoomGraph.ExtraEdges(dist, largeRooms, tree);
    RoomGraph.AddedBelow(dist, tree, largeRooms, choices);
    d, large := dist, largeRooms;
    assert large[..|choices|] == large;
    assert edges[..|tree|] == tree;
    forall k | 0 <= k < |tree| ensures tree[k].0 < stats.Length && tree[k].1 < stats.Length {
      assert tree[k].0 in visited[..k + 1] && tree[k].1 == visited[k + 1];
    }
  }

  /**
   * The statistics of the labeled grid: one entry per id `0..count`, each room
   * with tiles, averaged, and with its last tile in that room.
   */
  method Statistics(g: array2<Tile>, count: nat, ghost marked: Grid, ghost seeds: seq<(int, int)>)
    returns (stats: array<RoomStats.RoomStat>)
    requires Labeling.LabelingOf(marked, Snap(g), count, seeds)
    ensures fresh(stats) && stats.Length == count + 1
    ensures forall r :: 1 <= r <= count ==> RoomStats.Tally(Snap(g), g.Length1, g.Length1, 0, r).size > 0
    ensures stats[..] == RoomStats.StatsOf(Snap(g), g.Length1, count)
    ensures HallwayPass.NodesIn(Snap(g), stats[..])
  {
    ghost var labeled := Snap(g);
    stats := RoomStats.CollectStats(g, count);
    forall r | 1 <= r < stats.Length
      ensures stats[r].size > 0 && InBounds(labeled, stats[r].xNode, stats[r].yNode)
      ensures labeled[stats[r].yNode][stats[r].xNode].room == r
    {
      StatsOfLabels(marked, labeled, g.Length1, count, seeds, r);
    }
    RoomStats.Average(stats);
  }

  /**
   * The labeling, statistics and room graph of the marked grid `marked`:
   * everything the hallway passes start from.
   */
  method Prepare(g: array2<Tile>, ghost marked: Grid)
    returns (stats: array<RoomStats.RoomStat>, graph: seq<Edge>, ghost labeled: Grid, ghost count: nat,
             ghost seeds: seq<(int, int)>, ghost d: array2<real>, ghost sources: seq<nat>,
             ghost large: seq<nat>, ghost choices: seq<nat>, ghost visited: seq<nat>, ghost tree: seq<Edge>)
    requires Snap(g) == marked && forall y, x :: InBounds(marked, x, y) ==> marked[y][x].room == 0
    modifies g
    ensures fresh(stats) && stats.Length == count + 1 && Snap(g) == labeled
    ensures Labeling.LabelingOf(marked, labeled, count, seeds)
    ensures RoomStats.Shaped(labeled, g.Length1)
    ensures forall r :: 1 <= r <= count ==> RoomStats.Tally(labeled, g.Length1, g.Length1, 0, r).size > 0
    ensures stats[..] == RoomStats.StatsOf(labeled, g.Length1, count)
    ensures GraphOf(stats[..], d, visited, tree, sources, large, choices, graph)
    ensures IdsBelow(labeled, stats.Length) && HallwayPass.NodesIn(labeled, stats[..])
    ensures forall k :: 0 <= k < |graph| ==> graph[k].0 < stats.Length && graph[k].1 < stats.Length
    ensures count >= 1 ==> forall v :: v in visited <==> 1 <= v <= count
    ensures forall v :: v in visited ==> exists p :: RoomGraph.Walk(tree, p) && p[0] == 1 && p[|p| - 1] == v
    ensures |tree| <= |graph| && graph[..|tree|] == tree
  {
    assert forall y, x :: InGrid(g, x, y) ==> g[y, x].room == 0 by {
      forall y, x | InGrid(g, x, y) ensures g[y, x].room == 0 {
        assert g[y, x] == marked[y][x];
      }
    }
    var n;
    n, seeds := Labeling.LabelRooms(g);
    count, labeled := n, Snap(g);
    stats := Statistics(g, n, marked, seeds);
    visited, tree, graph, d, sources, large, choices := RoomEdges(stats);
  }

  /**
   * Everything after the marking: labeling, statistics, room graph and
   * hallways, on the marked grid `marked`.
   */
  method Populate(g: array2<Tile>, ghost marked: Grid)
    returns (outcome: Hallways.Outcome, ghost labeled: Grid, ghost count: nat, ghost seeds: seq<(int, int)>,
             ghost table: seq<RoomStats.RoomStat>, ghost d: array2<real>, ghost sources: seq<nat>,
             ghost large: seq<nat>, ghost choices: seq<nat>,
             ghost visited: seq<nat>, ghost tree: seq<Edge>, ghost edges: seq<Edge>,
             ghost via: seq<seq<(int, int)>>, ghost carved: seq<(int, int)>, ghost logs: seq<HallwayPass.PassLog>)
    requires Snap(g) == marked && forall y, x :: InBounds(marked, x, y) ==> marked[y][x].room == 0
    modifies g
    ensures Labeling.LabelingOf(marked, labeled, count, seeds)
    ensures RoomStats.Shaped(labeled, g.Length1)
    ensures forall r :: 1 <= r <= count ==> RoomStats.Tally(labeled, g.Length1, g.Length1, 0, r).size > 0
    ensures table == RoomStats.StatsOf(labeled, g.Length1, count)
    ensures GraphOf(table, d, visited, tree, sources, large, choices, edges)
    ensures Snap(g) == Hallways.CarveAt(labeled, carved)
    ensures count >= 1 ==> forall v :: v in visited <==> 1 <= v <= count
    ensures forall v :: v in visited ==> exists p :: RoomGraph.Walk(tree, p) && p[0] == 1 && p[|p| - 1] == v
    ensures |tree| <= |edges| && edges[..|tree|] == tree
    ensures HallwayPass.PassesMade(labeled, table, edges, outcome, logs, carved)
    ensures outcome.Connected? ==> HallwayPass.LinkedBefore(labeled, carved, edges, via, count + 1)
    ensures outcome.Connected? ==> HallwayPass.ViaFrom(edges, logs, via, count + 1)
  {
    var stats, graph;
    stats, graph, labeled, count, seeds, d, sources, large, choices, visited, tree := Prepare(g, marked);
    table, edges := stats[..], graph;
    outcome, via, carved, logs := HallwayPass.ConnectAll(g, stats, graph);
  }

  /**
   * `generateTiles(width, height, padding, roomCount, sparsity)`, with the
   * draws of `Math.random()` supplied by `rand`. It fails exactly when the
   * first split of the map fails. Otherwise the rooms are the largest shrunk
   * candidates of a tiling of the map; the grid is the marked grid labeled
   * room by room and then carved; the tree part of the room graph reaches
   * every room from room 1; and when every room connects, every edge has its
   * hallway.
   */
  method GenerateTiles(width: nat, height: nat, padding: nat, roomCount: nat, sparsity: real,
                       rand: nat -> Partition.Unit)
    returns (res: Result<(array2<Tile>, Hallways.Outcome), Partition.PartitionError>,
             ghost candidates: seq<Partition.Rect>, ghost rooms: seq<Partition.Rect>,
             ghost labeled: Grid, ghost count: nat, ghost seeds: seq<(int, int)>,
             ghost table: seq<RoomStats.RoomStat>, ghost d: array2<real>, ghost sources: seq<nat>,
             ghost large: seq<nat>, ghost choices: seq<nat>,
             ghost visited: seq<nat>, ghost tree: seq<Edge>, ghost edges: seq<Edge>,
             ghost via: seq<seq<(int, int)>>, ghost carved: seq<(int, int)>, ghost logs: seq<HallwayPass.PassLog>)
    requires width >= 1 && height >= 1
    ensures res.Failure? <==> (if width > height then width else height) - 2 * Partition.HalfPadding(padding) - 2 * 2 <= 0
    ensures res.Success? ==> fresh(res.value.0) && res.value.0.Length0 == height && res.value.0.Length1 == width
    ensures res.Success? ==>
      var hp := Partition.HalfPadding(padding);
      var halves := Partition.InitialSplit(width, height, hp, 2, rand(0)).value;
      var q := Partition.Queue([halves.0, halves.1], [], hp, 2, roomCount, sparsity, rand, 1);
      candidates == q.0 + q.1
    ensures res.Success? ==>
      Partition.Tiling(candidates, width, height) && rooms == Partition.Largest(candidates, Partition.HalfPadding(padding), roomCount)
    ensures res.Success? ==> Labeling.LabelingOf(Marked(rooms, width, height), labeled, count, seeds)
    ensures res.Success? ==> RoomStats.Shaped(labeled, width)
    ensures res.Success? ==> forall r :: 1 <= r <= count ==> RoomStats.Tally(labeled, width, width, 0, r).size > 0
    ensures res.Success? ==> table == RoomStats.StatsOf(labeled, width, count)
    ensures res.Success? ==> GraphOf(table, d, visited, tree, sources, large, choices, edges)
    ensures res.Success? ==> Snap(res.value.0) == Hallways.CarveAt(labeled, carved)
    ensures res.Success? && count >= 1 ==> forall v :: v in visited <==> 1 <= v <= count
    ensures res.Success? ==> forall v :: v in visited ==> exists p :: RoomGraph.Walk(tree, p) && p[0] == 1 && p[|p| - 1] == v
    ensures res.Success? ==> |tree| <= |edges| && edges[..|tree|] == tree
    ensures res.Success? ==> HallwayPass.PassesMade(labeled, table, edges, res.value.1, logs, carved)
    ensures res.Success? && res.value.1.Connected? ==> HallwayPass.LinkedBefore(labeled, carved, edges, via, count + 1)
    ensures res.Success? && res.value.1.Connected? ==> HallwayPass.ViaFrom(edges, logs, via, count + 1)
  {
    candidates, rooms, labeled, count, seeds := [], [], [], 0, [];
    table, d, sources, large, choices := [], new real[0, 0], [], [], [];
    visited, tree, edges, via, carved, logs := [], [], [], [], [], [];
    var generated;
    ghost var queued, small;
    generated, queued, small := Partition.GenerateRooms(width, height, padding, roomCount, sparsity, 2, rand);
    if generated.Failure? {
      res := Failure(generated.error);
      return;
    }
    var kept := generated.value;
    rooms, candidates := kept, queued + small;
    Partition.LargestDisjointInside(candidates, width, height, Partition.HalfPadding(padding), roomCount);
    var g := Layout(width, height, kept);
    var outcome;
    outcome, labeled, count, seeds, table, d, sources, large, choices, visited, tree, edges, via, carved, logs :=
      Populate(g, Marked(kept, width, height));
    res := Success((g, outcome));
  }
}
