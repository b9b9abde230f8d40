/**
 * The room graph of `generateTiles`: Prim's algorithm over the table of
 * centroid distances, started from room 1, and one extra edge for every room
 * larger than the average. Distances are the squared ones of
 * `RoomStats.Dist2`; the square root the source takes does not change any
 * comparison.
 */
module RoomGraph {
  import opened Wrappers
  import RoomStats

  type Edge = (nat, nat)

  /**
   * A pair the Prim loop may choose: the `a`-th visited room and a room
   * `b >= 1` of the table that is not visited yet.
   */
  predicate Cand(d: array2<real>, vis: seq<nat>, a: int, b: int)
    reads d
  {
    0 <= a < |vis| && vis[a] < d.Length1 && 1 <= b < d.Length0 && b != vis[a] && b !in vis
  }

  /** Pair `(a, b)` comes before position `(i, j)` of the loops over visited index and room. */
  predicate Examined(i: int, j: int, a: int, b: int)
  {
    a < i || (a == i && b < j)
  }

  /**
   * The choice of one round: the first pair, in loop order, at the least
   * distance `d[dst, src]` among all candidate pairs, or `(0, 0)` when there is
   * no candidate (the source's initial `minSource`/`minDestination`).
   */
  ghost predicate PrimChoice(d: array2<real>, vis: seq<nat>, si: nat, src: nat, dst: nat)
    reads d
  {
    if exists a, b :: Cand(d, vis, a, b) then
      && Cand(d, vis, si, dst) && src == vis[si]
      && (forall a, b :: Cand(d, vis, a, b) ==> d[b, vis[a]] >= d[dst, src])
      && (forall a, b :: Cand(d, vis, a, b) && Examined(si, dst, a, b) ==> d[b, vis[a]] > d[dst, src])
    else
      src == 0 && dst == 0
  }

  /** The loop state after examining the pairs before `(i, j)`; `None` is `+Infinity`. */
  ghost predicate BestSoFar(d: array2<real>, vis: seq<nat>, i: int, j: int, best: Option<real>, si: nat, src: nat, dst: nat)
    reads d
  {
    match best
    case None =>
      src == 0 && dst == 0 && forall a, b :: Cand(d, vis, a, b) ==> !Examined(i, j, a, b)
    case Some(m) =>
      && Cand(d, vis, si, dst) && src == vis[si] && Examined(i, j, si, dst) && m == d[dst, src]
      && (forall a, b :: Cand(d, vis, a, b) && Examined(i, j, a, b) ==> d[b, vis[a]] >= m)
      && (forall a, b :: Cand(d, vis, a, b) && Examined(si, dst, a, b) ==> d[b, vis[a]] > m)
  }

  /** One round of the Prim loop: the nearest pair of a visited and an unvisited room. */
  method NearestPair(d: array2<real>, vis: seq<nat>) returns (src: nat, dst: nat, ghost si: nat)
    requires d.Length0 == d.Length1 && forall v :: v in vis ==> v < d.Length0
    ensures PrimChoice(d, vis, si, src, dst)
  {
    var best: Option<real> := None;
    src, dst, si := 0, 0, 0;
    for i := 0 to |vis|
      invariant BestSoFar(d, vis, i, 0, best, si, src, dst)
    {
      var room := vis[i];
      assert room in vis;
      for j := 1 to d.Length0
        invariant BestSoFar(d, vis, i, j, best, si, src, dst)
      {
        if j != room && j !in vis && (best.None? || d[j, room] < best.value) {
          dst := j;
          best := Some(d[j, room]);
          src := room;
          si := i;
        }
      }
      assert BestSoFar(d, vis, i + 1, 0, best, si, src, dst);
    }
  }

  /** `vis` lists distinct rooms. */
  predicate Distinct(vis: seq<nat>)
  {
    forall p, q :: 0 <= p < q < |vis| ==> vis[p] != vis[q]
  }

  function Range(lo: nat, hi: nat): (s: set<nat>)
    ensures forall v :: v in s <==> lo <= v < hi
    ensures |s| == if lo <= hi then hi - lo else 0
    decreases hi - lo
  {
    if lo >= hi then {} else {lo} + Range(lo + 1, hi)
  }

  function Elems(vis: seq<nat>): (s: set<nat>)
    ensures forall v :: v in s <==> v in vis
  {
    set v | v in vis
  }

  lemma {:induction false} DistinctCard(vis: seq<nat>)
    requires Distinct(vis)
    ensures |Elems(vis)| == |vis|
  {
    if vis != [] {
      var init := vis[..|vis| - 1];
      var last := vis[|vis| - 1];
      assert Distinct(init);
      DistinctCard(init);
      assert vis == init + [last];
      assert Elems(vis) == Elems(init) + {last};
      forall p | 0 <= p < |init| ensures init[p] != last {
        assert init[p] == vis[p];
      }
      assert last !in init;
      assert last !in Elems(init);
    }
  }

  lemma {:induction false} SubsetCard(a: set<nat>, b: set<nat>)
    requires a <= b
    ensures |a| <= |b|
    decreases |a|
  {
    if a != {} {
      var x :| x in a;
      SubsetCard(a - {x}, b - {x});
    }
  }

  /** Fewer than `n - 1` distinct visited rooms out of `1..n-1` leave one unvisited. */
  lemma Unvisited(vis: seq<nat>, n: nat) returns (j: nat)
    requires Distinct(vis) && |vis| < n - 1 && forall v :: v in vis ==> 1 <= v < n
    ensures 1 <= j < n && j !in vis
  {
    var vs := Elems(vis);
    DistinctCard(vis);
    if forall j :: 1 <= j < n ==> j in vs {
      assert Range(1, n) <= vs;
      SubsetCard(Range(1, n), vs);
    }
    j :| 1 <= j < n && j !in vs;
  }

  /** Each edge `k` is the choice of round `k`, made when `vis[..k + 1]` were visited, and adds `vis[k + 1]`. */
  ghost predicate PrimEdges(d: array2<real>, vis: seq<nat>, edges: seq<Edge>, sources: seq<nat>)
    reads d
  {
    && |edges| + 1 == |vis| && |sources| == |edges|
    && forall k :: 0 <= k < |edges| ==>
         edges[k].1 == vis[k + 1] && PrimChoice(d, vis[..k + 1], sources[k], edges[k].0, edges[k].1)
  }

  lemma PrimEdgesExtend(d: array2<real>, vis: seq<nat>, edges: seq<Edge>, sources: seq<nat>, si: nat, src: nat, dst: nat)
    requires PrimEdges(d, vis, edges, sources) && PrimChoice(d, vis, si, src, dst)
    requires forall k :: 0 <= k < |edges| ==> edges[k].0 in vis[..k + 1] && edges[k].1 !in vis[..k + 1]
    requires src in vis && dst !in vis
    ensures PrimEdges(d, vis + [dst], edges + [(src, dst)], sources + [si])
    ensures forall k :: 0 <= k < |edges| + 1 ==>
      (edges + [(src, dst)])[k].0 in (vis + [dst])[..k + 1] && (edges + [(src, dst)])[k].1 !in (vis + [dst])[..k + 1]
  {
    var vis', edges', sources' := vis + [dst], edges + [(src, dst)], sources + [si];
    forall k | 0 <= k < |edges'|
      ensures edges'[k].1 == vis'[k + 1] && PrimChoice(d, vis'[..k + 1], sources'[k], edges'[k].0, edges'[k].1)
      ensures edges'[k].0 in vis'[..k + 1] && edges'[k].1 !in vis'[..k + 1]
    {
      assert vis'[..k + 1] == vis[..k + 1];
      if k == |edges| {
        assert vis == vis[..|edges| + 1];
      }
    }
  }

  /**
   * Prim's loop: starts with room 1 and adds one room and one edge per round
   * while fewer than `roomStats.length - 1` rooms are visited. With `R >= 1`
   * rooms (a table of `R + 1` rows, index 0 being "no room") it visits each of
   * `1..R` exactly once and builds `R - 1` edges.
   *
   * The source's round body also holds a stray expression statement `n_y;`
   * (an undeclared name) that would throw as soon as a candidate is found; it
   * is not modelled.
   */
  method Prim(d: array2<real>) returns (visited: seq<nat>, edges: seq<Edge>, ghost sources: seq<nat>)
    requires d.Length0 == d.Length1
    ensures |visited| >= 1 && visited[0] == 1 && Distinct(visited)
    ensures d.Length0 >= 2 ==> |visited| == d.Length0 - 1 && forall v :: v in visited <==> 1 <= v < d.Length0
    ensures PrimEdges(d, visited, edges, sources)
    ensures forall k :: 0 <= k < |edges| ==> edges[k].0 in visited[..k + 1] && edges[k].1 !in visited[..k + 1]
    ensures d.Length0 < 2 ==> edges == []
  {
    var n := d.Length0;
    visited, edges, sources := [1], [], [];
    while |visited| < n - 1
      invariant |visited| >= 1 && visited[0] == 1 && Distinct(visited)
      invariant |visited| > 1 ==> |visited| <= n - 1
      invariant n >= 2 ==> forall v :: v in visited ==> 1 <= v < n
      invariant PrimEdges(d, visited, edges, sources)
      invariant forall k :: 0 <= k < |edges| ==> edges[k].0 in visited[..k + 1] && edges[k].1 !in visited[..k + 1]
      invariant n < 2 ==> edges == []
      decreases n - |visited|
    {
      var src, dst, si := NearestPair(d, visited);
      ghost var j := Unvisited(visited, n);
      assert Cand(d, visited, 0, j);
      PrimEdgesExtend(d, visited, edges, sources, si, src, dst);
      edges, visited, sources := edges + [(src, dst)], visited + [dst], sources + [si];
    }
    if n >= 2 {
      DistinctCard(visited);
      var vs := Elems(visited);
      assert vs <= Range(1, n);
      forall v | 1 <= v < n ensures v in visited {
        if v !in vs {
          SubsetCard(vs, Range(1, n) - {v});
        }
      }
    }
  }

  /** Edge `e` contains both `a` and `b` (the source's `e.includes(a) && e.includes(b)`). */
  predicate Joins(e: Edge, a: nat, b: nat)
  {
    (e.0 == a || e.1 == a) && (e.0 == b || e.1 == b)
  }

  /** Some edge of `edges` contains both `a` and `b`. */
  predicate HasJoin(edges: seq<Edge>, a: nat, b: nat)
  {
    exists e :: e in edges && Joins(e, a, b)
  }

  /** `p` is a walk along `edges`. */
  ghost predicate Walk(edges: seq<Edge>, p: seq<nat>)
  {
    |p| >= 1 && forall q :: 0 <= q < |p| - 1 ==> HasJoin(edges, p[q], p[q + 1])
  }

  /** The shape Prim's loop leaves: edge `k` joins an earlier visited room to `visited[k + 1]`. */
  ghost predicate Grows(visited: seq<nat>, edges: seq<Edge>)
  {
    && |edges| + 1 == |visited| && visited[0] == 1
    && forall k :: 0 <= k < |edges| ==> edges[k].1 == visited[k + 1] && edges[k].0 in visited[..k + 1]
  }

  /** Every visited room is reachable from room 1 along the tree's edges. */
  lemma {:induction false} WalkTo(visited: seq<nat>, edges: seq<Edge>, k: nat) returns (p: seq<nat>)
    requires Grows(visited, edges) && k < |visited|
    ensures Walk(edges, p) && p[0] == 1 && p[|p| - 1] == visited[k]
  {
    if k == 0 {
      p := [1];
    } else {
      var e := edges[k - 1];
      assert e.0 in visited[..k];
      var k' :| 0 <= k' < k && visited[k'] == e.0;
      var p' := WalkTo(visited, edges, k');
      p := p' + [visited[k]];
      assert Joins(e, p'[|p'| - 1], visited[k]);
      assert HasJoin(edges, p[|p| - 2], p[|p| - 1]);
      forall q | 0 <= q < |p| - 1 ensures HasJoin(edges, p[q], p[q + 1]) {
        if q < |p'| - 1 {
          assert p[q] == p'[q] && p[q + 1] == p'[q + 1];
        }
      }
    }
  }

  /** Prim's edges span the visited rooms: `R - 1` edges connecting all `R` rooms form a tree. */
  lemma PrimSpans(d: array2<real>, visited: seq<nat>, edges: seq<Edge>, sources: seq<nat>)
    requires |visited| >= 1 && visited[0] == 1 && PrimEdges(d, visited, edges, sources)
    requires forall k :: 0 <= k < |edges| ==> edges[k].0 in visited[..k + 1]
    ensures |edges| == |visited| - 1
    ensures forall v :: v in visited ==> exists p :: Walk(edges, p) && p[0] == 1 && p[|p| - 1] == v
  {
    forall v | v in visited ensures exists p :: Walk(edges, p) && p[0] == 1 && p[|p| - 1] == v {
      var k :| 0 <= k < |visited| && visited[k] == v;
      var p := WalkTo(visited, edges, k);
    }
  }

  /** `Σ` of the room sizes, as the source's `reduce`. */
  function TotalSize(stats: seq<RoomStats.RoomStat>): nat
  {
    if stats == [] then 0 else TotalSize(stats[..|stats| - 1]) + stats[|stats| - 1].size
  }

  /**
   * The rooms (index 0 included) whose size exceeds `avgRoomSize`, the total
   * size divided by the number of table entries, in increasing order.
   */
  method LargeRooms(stats: array<RoomStats.RoomStat>) returns (large: seq<nat>)
    ensures forall k :: 0 <= k < |large| ==> large[k] < stats.Length
    ensures forall p, q :: 0 <= p < q < |large| ==> large[p] < large[q]
    ensures forall r: nat :: r in large <==> r < stats.Length && stats[r].size * stats.Length > TotalSize(stats[..])
  {
    var n := stats.Length;
    var total := TotalSize(stats[..]);
    // With no entries the average is NaN in the source; the loop below then runs no round.
    var avg := if n == 0 then 0.0 else total as real / n as real;
    large := [];
    for i := 0 to n
      invariant forall k :: 0 <= k < |large| ==> large[k] < i
      invariant forall p, q :: 0 <= p < q < |large| ==> large[p] < large[q]
      invariant forall r: nat :: r in large <==> r < i && stats[r].size * n > total
    {
      AboveAverage(stats[i].size, total, n);
      if stats[i].size as real > avg {
        large := large + [i];
      }
    }
  }

  lemma AboveAverage(size: nat, total: nat, n: nat)
    requires n > 0
    ensures size as real > total as real / n as real <==> size * n > total
  {
    var a := total as real / n as real;
    assert a * n as real == total as real;
    if size as real > a {
      assert size as real * n as real > a * n as real;
    } else {
      assert size as real * n as real <= a * n as real;
    }
  }

  /** A room the large room `l` may gain an edge to: `1 <= j`, `j != l`, and no edge joins them yet. */
  predicate Free(d: array2<real>, edges: seq<Edge>, l: nat, j: int)
    reads d
  {
    1 <= j < d.Length0 && j != l && !HasJoin(edges, l, j)
  }

  /**
   * The room chosen for `l`: the first free room at the least distance, or 0
   * when every room is joined to `l` already.
   */
  ghost predicate NearestFree(d: array2<real>, edges: seq<Edge>, l: nat, m: nat)
    reads d
    requires l < d.Length1
  {
    if exists j :: Free(d, edges, l, j) then
      && Free(d, edges, l, m)
      && (forall j :: Free(d, edges, l, j) ==> d[j, l] >= d[m, l])
      && (forall j :: Free(d, edges, l, j) && j < m ==> d[j, l] > d[m, l])
    else
      m == 0
  }

  /** The inner loop over the edges: does any of them contain both `a` and `b`? */
  method EdgeExists(edges: seq<Edge>, a: nat, b: nat) returns (found: bool)
    ensures found <==> HasJoin(edges, a, b)
  {
    found := false;
    for k := 0 to |edges|
      invariant found <==> exists q :: 0 <= q < k && Joins(edges[q], a, b)
    {
      found := found || Joins(edges[k], a, b);
    }
  }

  /** The edges added for `large[..i]`, given the room chosen for each (0: none). */
  function Added(large: seq<nat>, choices: seq<nat>): (r: seq<Edge>)
    requires |large| == |choices|
    ensures |r| <= |large|
  {
    if large == [] then []
    else
      var i := |large| - 1;
      Added(large[..i], choices[..i]) + if choices[i] != 0 then [(large[i], choices[i])] else []
  }

  /** One large room: the nearest room it has no edge with. */
  method NearestFreeRoom(d: array2<real>, edges: seq<Edge>, l: nat) returns (m: nat)
    requires d.Length0 == d.Length1 && l < d.Length1
    ensures NearestFree(d, edges, l, m)
  {
    var best: Option<real> := None;
    m := 0;
    for j := 1 to d.Length0
      invariant best.None? ==> m == 0 && forall q :: Free(d, edges, l, q) ==> q >= j
      invariant best.Some? ==>
        && Free(d, edges, l, m) && m < j && best.value == d[m, l]
        && (forall q :: Free(d, edges, l, q) && q < j ==> d[q, l] >= d[m, l])
        && (forall q :: Free(d, edges, l, q) && q < m ==> d[q, l] > d[m, l])
    {
      if j != l {
        var edgeExists := EdgeExists(edges, l, j);
        if !edgeExists && (best.None? || d[j, l] < best.value) {
          m := j;
          best := Some(d[j, l]);
        }
      }
    }
  }

  /** Each of the first `|choices|` large rooms got the room `NearestFree` picks, seeing the edges before it. */
  ghost predicate Chosen(d: array2<real>, edges: seq<Edge>, large: seq<nat>, choices: seq<nat>)
    reads d
    decreases |choices|
  {
    && |choices| <= |large|
    && (choices != [] ==>
          var i := |choices| - 1;
          && Chosen(d, edges, large, choices[..i])
          && large[i] < d.Length1 && NearestFree(d, edges + Added(large[..i], choices[..i]), large[i], choices[i]))
  }

  /** `Chosen`, room by room. */
  lemma {:induction false} ChosenEach(d: array2<real>, edges: seq<Edge>, large: seq<nat>, choices: seq<nat>, k: nat)
    requires Chosen(d, edges, large, choices) && k < |choices|
    ensures large[k] < d.Length1 && NearestFree(d, edges + Added(large[..k], choices[..k]), large[k], choices[k])
    decreases |choices|
  {
    var i := |choices| - 1;
    if k < i {
      ChosenEach(d, edges, large, choices[..i], k);
      assert choices[..i][..k] == choices[..k];
    }
  }

  /** Every extra edge joins a room of the table to another one. */
  lemma {:induction false} AddedBelow(d: array2<real>, edges: seq<Edge>, large: seq<nat>, choices: seq<nat>)
    requires Chosen(d, edges, large, choices)
    ensures var added := Added(large[..|choices|], choices);
      forall k :: 0 <= k < |added| ==> added[k].0 < d.Length1 && 1 <= added[k].1 < d.Length0
    decreases |choices|
  {
    if choices != [] {
      var i := |choices| - 1;
      AddedBelow(d, edges, large, choices[..i]);
      var l := large[..|choices|];
      assert l[..i] == large[..i];
      ChosenEach(d, edges, large, choices, i);
      assert choices[..i] == choices[..|choices| - 1];
      assert Added(l, choices) == Added(large[..i], choices[..i]) + if choices[i] != 0 then [(large[i], choices[i])] else [];
    }
  }

  lemma ChosenExtend(d: array2<real>, edges: seq<Edge>, large: seq<nat>, choices: seq<nat>, m: nat)
    requires Chosen(d, edges, large, choices) && |choices| < |large| && large[|choices|] < d.Length1
    requires NearestFree(d, edges + Added(large[..|choices|], choices), large[|choices|], m)
    ensures Chosen(d, edges, large, choices + [m])
    ensures Added(large[..|choices| + 1], choices + [m])
      == Added(large[..|choices|], choices) + if m != 0 then [(large[|choices|], m)] else []
  {
    var i := |choices|;
    var c := choices + [m];
    assert large[..i + 1][..i] == large[..i];
    assert c[..i] == choices;
  }

  /**
   * The extra-edge pass: every large room gains at most one edge, to the
   * nearest room it is not yet joined to, seeing the edges added for the
   * large rooms before it.
   */
  method ExtraEdges(d: array2<real>, large: seq<nat>, edges: seq<Edge>)
    returns (edges': seq<Edge>, ghost choices: seq<nat>)
    requires d.Length0 == d.Length1 && forall k :: 0 <= k < |large| ==> large[k] < d.Length1
    ensures |choices| == |large| && edges' == edges + Added(large, choices)
    ensures Chosen(d, edges, large, choices)
  {
    edges', choices := edges, [];
    for i := 0 to |large|
      invariant |choices| == i && edges' == edges + Added(large[..i], choices)
      invariant Chosen(d, edges, large, choices)
    {
      var m := NearestFreeRoom(d, edges', large[i]);
      ChosenExtend(d, edges, large, choices, m);
      if m != 0 {
        edges' := edges' + [(large[i], m)];
      }
      choices := choices + [m];
    }
    assert large[..|large|] == large;
  }
}
