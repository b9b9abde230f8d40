/**
 * The outer loop of the corridor pass of `generateTiles`: rooms `1 .. n - 1` in
 * order; each one takes, as its targets, the other end of every edge that
 * still names it, empties those edges, and makes its hallways. An edge is
 * thus handled by exactly one room: the least of its ends that is a room id.
 */
module HallwayPass {
  import opened Wrappers
  import opened Tiles
  import RoomGraph
  import RoomStats
  import Hallways

  type Edge = RoomGraph.Edge

  /** The slot holds an edge that names room `i`. */
  predicate Names(o: Option<Edge>, i: nat)
  {
    o.Some? && (o.value.0 == i || o.value.1 == i)
  }

  /** The end of `e` that is not `i`: the second end when the first is `i`, the first otherwise. */
  function Other(e: Edge, i: nat): nat
  {
    if e.0 == i then e.1 else e.0
  }

  /** The positions, in order, of the slots that name room `i`. */
  function Taken(s: seq<Option<Edge>>, i: nat): (ks: seq<nat>)
    ensures forall q :: 0 <= q < |ks| ==> ks[q] < |s| && Names(s[ks[q]], i)
    ensures forall q, q' :: 0 <= q < q' < |ks| ==> ks[q] < ks[q']
    ensures forall k :: 0 <= k < |s| && Names(s[k], i) ==> k in ks
  {
    if s == [] then []
    else
      var ks := Taken(s[..|s| - 1], i);
      if Names(s[|s| - 1], i) then ks + [|s| - 1] else ks
  }

  lemma TakenStep(s: seq<Option<Edge>>, i: nat, j: nat)
    requires j < |s|
    ensures Taken(s[..j + 1], i) == Taken(s[..j], i) + if Names(s[j], i) then [j] else []
  {
    assert s[..j + 1][..j] == s[..j];
  }

  /** The slots after room `i` took its targets: every slot naming `i` is emptied. */
  function ClearFor(s: seq<Option<Edge>>, i: nat): (r: seq<Option<Edge>>)
    ensures |r| == |s|
    ensures forall k :: 0 <= k < |s| ==> r[k] == if Names(s[k], i) then None else s[k]
  {
    seq(|s|, k requires 0 <= k < |s| => if Names(s[k], i) then None else s[k])
  }

  /**
   * The target scan of room `i`: the other end of every edge naming `i`, in
   * edge order, with those edges emptied; `from` holds the edge positions.
   */
  method CollectTargets(slots: array<Option<Edge>>, i: nat) returns (targets: seq<nat>, ghost from: seq<nat>)
    modifies slots
    ensures slots[..] == ClearFor(old(slots[..]), i)
    ensures from == Taken(old(slots[..]), i) && |targets| == |from|
    ensures forall q :: 0 <= q < |targets| ==> targets[q] == Other(old(slots[from[q]]).value, i)
  {
    ghost var s := slots[..];
    targets, from := [], [];
    for j := 0 to slots.Length
      invariant Collected(slots[..], s, i, j, targets, from)
    {
      ghost var cur := slots[..];
      CollectStep(cur, s, i, j, targets, from);
      if slots[j].Some? && (slots[j].value.0 == i || slots[j].value.1 == i) {
        targets := targets + [Other(slots[j].value, i)];
        from := from + [j];
        slots[j] := None;
        assert slots[..] == cur[j := None];
      }
    }
    assert s[..slots.Length] == s;
  }

  /** The target scan of room `i` after `j` slots. */
  ghost predicate Collected(cur: seq<Option<Edge>>, s: seq<Option<Edge>>, i: nat, j: nat, targets: seq<nat>, from: seq<nat>)
  {
    && |cur| == |s| && j <= |s|
    && (forall k :: j <= k < |s| ==> cur[k] == s[k])
    && (forall k :: 0 <= k < j ==> cur[k] == if Names(s[k], i) then None else s[k])
    && from == Taken(s[..j], i) && |targets| == |from|
    && (forall q :: 0 <= q < |targets| ==> from[q] < j && targets[q] == Other(s[from[q]].value, i))
  }

  lemma CollectStep(cur: seq<Option<Edge>>, s: seq<Option<Edge>>, i: nat, j: nat, targets: seq<nat>, from: seq<nat>)
    requires Collected(cur, s, i, j, targets, from) && j < |s|
    ensures Names(s[j], i) ==> Collected(cur[j := None], s, i, j + 1, targets + [Other(s[j].value, i)], from + [j])
    ensures !Names(s[j], i) ==> Collected(cur, s, i, j + 1, targets, from)
  {
    TakenStep(s, i, j);
  }

  /** The room whose pass handles edge `e`: its least end that is a room id, 0 when neither is. */
  function PassRoom(e: Edge): (i: nat)
    ensures i == e.0 || i == e.1
    ensures i >= 1 ==> (e.0 >= 1 ==> i <= e.0) && (e.1 >= 1 ==> i <= e.1)
    ensures i == 0 ==> e.0 == 0 && e.1 == 0
  {
    if e.0 >= 1 && e.1 >= 1 then (if e.0 <= e.1 then e.0 else e.1)
    else if e.0 >= 1 then e.0 else e.1
  }

  /** Before the pass of room `i`, an edge is empty exactly when an earlier pass handled it. */
  ghost predicate SlotsBefore(s: seq<Option<Edge>>, edges: seq<Edge>, i: nat)
  {
    |s| == |edges| && forall k :: 0 <= k < |s| ==> s[k] == if 1 <= PassRoom(edges[k]) < i then None else Some(edges[k])
  }

  /** The slots that name room `i` when its pass begins are the edges that pass handles. */
  lemma NamesIffPass(s: seq<Option<Edge>>, edges: seq<Edge>, i: nat, k: nat)
    requires SlotsBefore(s, edges, i) && i >= 1 && k < |s|
    ensures Names(s[k], i) <==> PassRoom(edges[k]) == i
  {
    var e := edges[k];
    if Names(s[k], i) {
      assert PassRoom(e) >= i && (e.0 == i || e.1 == i);
    }
  }

  /** One pass empties the edges it handles. */
  lemma SlotsNext(s: seq<Option<Edge>>, edges: seq<Edge>, i: nat)
    requires SlotsBefore(s, edges, i) && i >= 1
    ensures SlotsBefore(ClearFor(s, i), edges, i + 1)
  {
    forall k | 0 <= k < |s|
      ensures ClearFor(s, i)[k] == if 1 <= PassRoom(edges[k]) < i + 1 then None else Some(edges[k])
    {
      NamesIffPass(s, edges, i, k);
    }
  }

  /** The targets of the pass of room `i`: the other end of every edge that pass handles, in edge order. */
  function TargetsOf(edges: seq<Edge>, i: nat): seq<nat>
  {
    if edges == [] then []
    else
      var e := edges[|edges| - 1];
      TargetsOf(edges[..|edges| - 1], i) + if PassRoom(e) == i then [Other(e, i)] else []
  }

  /** The target scan of room `i`, run on the slots as they are when its pass begins, yields `TargetsOf(edges, i)`. */
  lemma {:induction false} TakenTargets(s: seq<Option<Edge>>, edges: seq<Edge>, i: nat, j: nat)
    requires SlotsBefore(s, edges, i) && i >= 1 && j <= |s|
    ensures |Taken(s[..j], i)| == |TargetsOf(edges[..j], i)|
    ensures forall q :: 0 <= q < |Taken(s[..j], i)| ==> TargetsOf(edges[..j], i)[q] == Other(s[Taken(s[..j], i)[q]].value, i)
    decreases j
  {
    if j > 0 {
      TakenTargets(s, edges, i, j - 1);
      TakenStep(s, i, j - 1);
      NamesIffPass(s, edges, i, j - 1);
      assert edges[..j][..j - 1] == edges[..j - 1];
      ghost var ks, ts := Taken(s[..j - 1], i), TargetsOf(edges[..j - 1], i);
      if Names(s[j - 1], i) {
        assert Taken(s[..j], i) == ks + [j - 1];
        assert TargetsOf(edges[..j], i) == ts + [Other(edges[j - 1], i)];
        assert s[j - 1].value == edges[j - 1];
      } else {
        assert Taken(s[..j], i) == ks && TargetsOf(edges[..j], i) == ts;
      }
    }
  }

  /** What the pass of room `i` found and walked: its targets, its outcome, and the search and walks of its room. */
  datatype PassLog = PassLog(targets: seq<nat>, outcome: Hallways.Outcome, values: Hallways.Dists,
                             entries: seq<Hallways.TargetStat>, walks: seq<seq<(int, int)>>)

  /**
   * The pass of room `i` on the grid `t` as it is when the pass begins:
   * the targets are those of its edges; with none, nothing is searched or
   * walked; otherwise one search from the room's last tile, then the walks
   * back in target order.
   */
  ghost predicate PassMade(t: Grid, stats: seq<RoomStats.RoomStat>, edges: seq<Edge>, i: nat, log: PassLog)
  {
    && i < |stats| && log.targets == TargetsOf(edges, i)
    && (|log.targets| == 0 ==> log.outcome == Hallways.Connected && log.walks == [])
    && (|log.targets| > 0 ==>
          Hallways.Searched(t, log.values, log.entries, i, stats[i].xNode, stats[i].yNode, |stats|))
    && Hallways.Walked(log.values, log.entries, log.targets, log.outcome, log.walks)
  }

  /** The cells the passes carve, pass after pass. */
  function Carvings(logs: seq<PassLog>): seq<(int, int)>
  {
    if logs == [] then [] else Carvings(logs[..|logs| - 1]) + Hallways.Tails(logs[|logs| - 1].walks)
  }

  lemma CarvingsAppend(logs: seq<PassLog>, l: PassLog)
    ensures Carvings(logs + [l]) == Carvings(logs) + Hallways.Tails(l.walks)
  {
    assert (logs + [l])[..|logs|] == logs;
  }

  /** The number of passes for `n` statistics entries: rooms `1 .. n - 1`. */
  function Passes(n: nat): nat
  {
    if n == 0 then 0 else n - 1
  }

  /**
   * The passes of rooms `1, 2, ...` from the grid `t`: pass `p` (of room
   * `p + 1`) is made on `t` carved by the passes before it, every pass but the
   * last connected, the last one's outcome is the outcome, a connected run
   * has all the passes, and the carving is theirs in pass order.
   */
  ghost predicate PassesMade(t: Grid, stats: seq<RoomStats.RoomStat>, edges: seq<Edge>, outcome: Hallways.Outcome,
                             logs: seq<PassLog>, carved: seq<(int, int)>)
  {
    && |logs| <= Passes(|stats|)
    && (forall p :: 0 <= p < |logs| ==> PassMade(Hallways.CarveAt(t, Carvings(logs[..p])), stats, edges, p + 1, logs[p]))
    && (forall p :: 0 <= p < |logs| - 1 ==> logs[p].outcome.Connected?)
    && outcome == (if logs == [] then Hallways.Connected else logs[|logs| - 1].outcome)
    && (outcome.Connected? ==> |logs| == Passes(|stats|))
    && carved == Carvings(logs)
  }

  /** The passes logged so far, each made on the grid the earlier ones left, all connected. */
  ghost predicate PassesSoFar(t: Grid, stats: seq<RoomStats.RoomStat>, edges: seq<Edge>, logs: seq<PassLog>)
  {
    forall p :: 0 <= p < |logs| ==>
      PassMade(Hallways.CarveAt(t, Carvings(logs[..p])), stats, edges, p + 1, logs[p]) && logs[p].outcome.Connected?
  }

  /** A connected pass made on the grid the earlier passes left is logged after them. */
  lemma PassesNext(t: Grid, stats: seq<RoomStats.RoomStat>, edges: seq<Edge>, logs: seq<PassLog>, log: PassLog)
    requires PassesSoFar(t, stats, edges, logs) && log.outcome.Connected?
    requires PassMade(Hallways.CarveAt(t, Carvings(logs)), stats, edges, |logs| + 1, log)
    ensures PassesSoFar(t, stats, edges, logs + [log])
    ensures Carvings(logs + [log]) == Carvings(logs) + Hallways.Tails(log.walks)
  {
    CarvingsAppend(logs, log);
    AppendPrefixes(logs, log);
  }

  /** A pass that does not connect ends the passes. */
  lemma PassesFail(t: Grid, stats: seq<RoomStats.RoomStat>, edges: seq<Edge>, logs: seq<PassLog>, log: PassLog)
    requires PassesSoFar(t, stats, edges, logs) && !log.outcome.Connected?
    requires PassMade(Hallways.CarveAt(t, Carvings(logs)), stats, edges, |logs| + 1, log)
    ensures PassesMade(t, stats, edges, log.outcome, logs + [log], Carvings(logs) + Hallways.Tails(log.walks))
  {
    CarvingsAppend(logs, log);
    AppendPrefixes(logs, log);
  }

  /** Passes for all the rooms, all connected. */
  lemma PassesAll(t: Grid, stats: seq<RoomStats.RoomStat>, edges: seq<Edge>, logs: seq<PassLog>)
    requires PassesSoFar(t, stats, edges, logs) && |logs| == Passes(|stats|)
    ensures PassesMade(t, stats, edges, Hallways.Connected, logs, Carvings(logs))
  {
  }

  lemma AppendPrefixes<T>(s: seq<T>, x: T)
    ensures (s + [x])[..|s|] == s
    ensures forall p :: 0 <= p <= |s| ==> (s + [x])[..p] == s[..p]
  {
  }

  /** `p` is the walk back from the entry of room `r` in the pass `l`, and it reaches 0. */
  ghost predicate Routed(l: PassLog, r: nat, p: seq<(int, int)>)
  {
    && p in l.walks && r < |l.entries| && p != []
    && p[0] == (l.entries[r].x, l.entries[r].y)
    && Hallways.WalkOf(l.values, p) && Hallways.EndsAtZero(l.values, p)
  }

  /** Every edge handled before the pass of room `i` has, in `via`, the walk its pass took from its other end. */
  ghost predicate ViaFrom(edges: seq<Edge>, logs: seq<PassLog>, via: seq<seq<(int, int)>>, i: nat)
  {
    |via| == |edges| &&
    forall k :: 0 <= k < |edges| && 1 <= PassRoom(edges[k]) < i ==>
      PassRoom(edges[k]) - 1 < |logs| && Routed(logs[PassRoom(edges[k]) - 1], Other(edges[k], PassRoom(edges[k])), via[k])
  }

  /** A hallway from room `r` to room `i`, carved past its first cell. */
  ghost predicate Linked(t: Grid, carved: seq<(int, int)>, i: nat, r: nat, p: seq<(int, int)>)
  {
    Hallways.Corridor(t, i, r, p) && forall m :: 1 <= m < |p| ==> p[m] in carved
  }

  /** Every edge handled before the pass of room `i` has its hallway in `via`. */
  ghost predicate LinkedBefore(t: Grid, carved: seq<(int, int)>, edges: seq<Edge>, via: seq<seq<(int, int)>>, i: nat)
  {
    |via| == |edges| &&
    forall k :: 0 <= k < |edges| && 1 <= PassRoom(edges[k]) < i ==>
      Linked(t, carved, PassRoom(edges[k]), Other(edges[k], PassRoom(edges[k])), via[k])
  }

  /** A corridor depends only on the room ids, which carving keeps. */
  lemma CorridorCarved(t: Grid, carved: seq<(int, int)>, i: nat, r: nat, p: seq<(int, int)>)
    requires Hallways.Corridor(Hallways.CarveAt(t, carved), i, r, p)
    ensures Hallways.Corridor(t, i, r, p)
  {
    var c: Grid := Hallways.CarveAt(t, carved);
    assert forall m :: 0 <= m < |p| ==> InBounds(t, p[m].0, p[m].1);
    assert c[p[0].1][p[0].0].room == t[p[0].1][p[0].0].room;
    assert c[p[|p| - 1].1][p[|p| - 1].0].room == t[p[|p| - 1].1][p[|p| - 1].0].room;
  }

  /** The position of `k` in `s`. */
  function Pos(s: seq<nat>, k: nat): (q: nat)
    requires k in s
    ensures q < |s| && s[q] == k
  {
    if s[0] == k then 0 else 1 + Pos(s[1..], k)
  }

  /** `via` with the hallway `cs[q]` recorded for edge `from[q]`. */
  function Record(via: seq<seq<(int, int)>>, from: seq<nat>, cs: seq<seq<(int, int)>>): (r: seq<seq<(int, int)>>)
    requires |cs| == |from|
    ensures |r| == |via|
    ensures forall k :: 0 <= k < |via| ==> r[k] == if k in from then cs[Pos(from, k)] else via[k]
  {
    seq(|via|, k requires 0 <= k < |via| => if k in from then cs[Pos(from, k)] else via[k])
  }

  /** The pass of room `i` links every edge it handles, and keeps the links made before. */
  lemma {:induction false} LinkedNext(t: Grid, carved: seq<(int, int)>, more: seq<(int, int)>, edges: seq<Edge>,
                                      via: seq<seq<(int, int)>>, s: seq<Option<Edge>>, i: nat,
                                      targets: seq<nat>, from: seq<nat>, cs: seq<seq<(int, int)>>)
    requires LinkedBefore(t, carved, edges, via, i) && SlotsBefore(s, edges, i) && i >= 1
    requires from == Taken(s, i) && |targets| == |from| && |cs| == |targets|
    requires forall q :: 0 <= q < |targets| ==> targets[q] == Other(s[from[q]].value, i)
    requires Hallways.CorridorsMade(Hallways.CarveAt(t, carved), i, targets, cs, more)
    ensures LinkedBefore(t, carved + more, edges, Record(via, from, cs), i + 1)
  {
    var via' := Record(via, from, cs);
    forall k | 0 <= k < |edges| && 1 <= PassRoom(edges[k]) < i + 1
      ensures Linked(t, carved + more, PassRoom(edges[k]), Other(edges[k], PassRoom(edges[k])), via'[k])
    {
      var e := edges[k];
      NamesIffPass(s, edges, i, k);
      if PassRoom(e) < i {
        assert k !in from;
        assert Linked(t, carved, PassRoom(e), Other(e, PassRoom(e)), via[k]);
      } else {
        var q := Pos(from, k);
        assert via'[k] == cs[q] && targets[q] == Other(e, i);
        CorridorCarved(t, carved, i, targets[q], cs[q]);
      }
    }
  }

  /** The pass of room `i` records, for every edge it handles, the walk it took from the edge's other end. */
  lemma {:induction false} ViaNext(edges: seq<Edge>, logs: seq<PassLog>, via: seq<seq<(int, int)>>, s: seq<Option<Edge>>,
                                   i: nat, from: seq<nat>, log: PassLog)
    requires ViaFrom(edges, logs, via, i) && |logs| == i - 1 && SlotsBefore(s, edges, i) && i >= 1
    requires from == Taken(s, i) && |log.targets| == |from|
    requires forall q :: 0 <= q < |from| ==> log.targets[q] == Other(s[from[q]].value, i)
    requires log.outcome == Hallways.Connected
    requires Hallways.Walked(log.values, log.entries, log.targets, log.outcome, log.walks)
    ensures ViaFrom(edges, logs + [log], Record(via, from, log.walks), i + 1)
  {
    var via', logs' := Record(via, from, log.walks), logs + [log];
    forall k | 0 <= k < |edges| && 1 <= PassRoom(edges[k]) < i + 1
      ensures PassRoom(edges[k]) - 1 < |logs'| && Routed(logs'[PassRoom(edges[k]) - 1], Other(edges[k], PassRoom(edges[k])), via'[k])
    {
      var e := edges[k];
      NamesIffPass(s, edges, i, k);
      if PassRoom(e) < i {
        assert k !in from;
        assert logs'[PassRoom(e) - 1] == logs[PassRoom(e) - 1];
      } else {
        var q := Pos(from, k);
        assert via'[k] == log.walks[q] && log.targets[q] == Other(e, i);
        assert Hallways.EndsAtZero(log.values, log.walks[q]);
      }
    }
  }

  /** Carving keeps every room id below `n`. */
  lemma CarvedIds(t: Grid, carved: seq<(int, int)>, n: nat)
    requires IdsBelow(t, n)
    ensures IdsBelow(Hallways.CarveAt(t, carved), n)
  {
    var c: Grid := Hallways.CarveAt(t, carved);
    forall y, x | InBounds(c, x, y) ensures c[y][x].room < n {
      assert InBounds(t, x, y);
    }
  }

  /** Carving keeps the room id of a cell. */
  lemma CarvedRoom(t: Grid, carved: seq<(int, int)>, x: int, y: int)
    requires InBounds(t, x, y)
    ensures InBounds(Hallways.CarveAt(t, carved), x, y)
    ensures Hallways.CarveAt(t, carved)[y][x].room == t[y][x].room
  {
  }

  /** The targets a pass collects are those of its edges, in edge order, and are room ids when the edges' ends are. */
  lemma TargetsBelow(s: seq<Option<Edge>>, edges: seq<Edge>, i: nat, n: nat, targets: seq<nat>, from: seq<nat>)
    requires SlotsBefore(s, edges, i) && i >= 1 && forall k :: 0 <= k < |edges| ==> edges[k].0 < n && edges[k].1 < n
    requires from == Taken(s, i) && |targets| == |from|
    requires forall q :: 0 <= q < |targets| ==> targets[q] == Other(s[from[q]].value, i)
    ensures targets == TargetsOf(edges, i)
    ensures forall q :: 0 <= q < |targets| ==> targets[q] < n
  {
    TakenTargets(s, edges, i, |s|);
    assert s[..|s|] == s && edges[..|s|] == edges;
    forall q | 0 <= q < |targets| ensures targets[q] < n {
      assert s[from[q]] == Some(edges[from[q]]);
    }
  }

  /** Room `r`'s last tile `(stats[r].xNode, stats[r].yNode)` is a tile of room `r` of `t`. */
  ghost predicate NodesIn(t: Grid, stats: seq<RoomStats.RoomStat>)
  {
    forall r :: 1 <= r < |stats| ==> InBounds(t, stats[r].xNode, stats[r].yNode) && t[stats[r].yNode][stats[r].xNode].room == r
  }

  /** The pass of room `i`: take its targets, empty their edges, make its hallways. */
  method ConnectPass(g: array2<Tile>, slots: array<Option<Edge>>, stats: array<RoomStats.RoomStat>, edges: seq<Edge>,
                     i: nat, ghost t: Grid, ghost carved: seq<(int, int)>, ghost via: seq<seq<(int, int)>>,
                     ghost logs: seq<PassLog>)
    returns (outcome: Hallways.Outcome, ghost carved': seq<(int, int)>, ghost via': seq<seq<(int, int)>>,
             ghost log: PassLog)
    requires 1 <= i < stats.Length && IdsBelow(t, stats.Length) && NodesIn(t, stats[..])
    requires forall k :: 0 <= k < |edges| ==> edges[k].0 < stats.Length && edges[k].1 < stats.Length
    requires Snap(g) == Hallways.CarveAt(t, carved)
    requires SlotsBefore(slots[..], edges, i) && LinkedBefore(t, carved, edges, via, i)
    requires |logs| == i - 1 && ViaFrom(edges, logs, via, i)
    modifies g, slots
    ensures PassMade(Hallways.CarveAt(t, carved), stats[..], edges, i, log) && outcome == log.outcome
    ensures carved' == carved + Hallways.Tails(log.walks)
    ensures Snap(g) == Hallways.CarveAt(t, carved') && SlotsBefore(slots[..], edges, i + 1)
    ensures outcome.Connected? ==> LinkedBefore(t, carved', edges, via', i + 1) && ViaFrom(edges, logs + [log], via', i + 1)
  {
    var n := stats.Length;
    ghost var s := slots[..];
    var targets, from := CollectTargets(slots, i);
    SlotsNext(s, edges, i);
    TargetsBelow(s, edges, i, n, targets, from);
    var x, y := stats[i].xNode, stats[i].yNode;
    CarvedIds(t, carved, n);
    CarvedRoom(t, carved, x, y);
    ghost var more, cs, values, entries, walks;
    outcome, cs, more, values, entries, walks := Hallways.ConnectRoom(g, i, targets, x, y, n);
    log := PassLog(targets, outcome, values, entries, walks);
    Hallways.CarveAtConcat(t, carved, more);
    carved' := carved + more;
    via' := via;
    if outcome.Connected? {
      LinkedNext(t, carved, more, edges, via, s, i, targets, from, cs);
      ViaNext(edges, logs, via, s, i, from, log);
      via' := Record(via, from, cs);
    }
  }

  /**
   * The hallways of rooms `1 .. n - 1`, `n` the number of statistics entries,
   * room `r` searching from its last tile `(stats[r].xNode, stats[r].yNode)`.
   * The grid changes only by carving, and exactly by the walks of the passes
   * in order; when every room connects, every edge handled by some pass has,
   * in `via`, the walk back its pass took from the edge's other end to the
   * room of that pass, and every cell of it past the first is floor.
   */
  method ConnectAll(g: array2<Tile>, stats: array<RoomStats.RoomStat>, edges: seq<Edge>)
    returns (outcome: Hallways.Outcome, ghost via: seq<seq<(int, int)>>, ghost carved: seq<(int, int)>,
             ghost logs: seq<PassLog>)
    requires IdsBelow(Snap(g), stats.Length) && NodesIn(Snap(g), stats[..])
    requires forall k :: 0 <= k < |edges| ==> edges[k].0 < stats.Length && edges[k].1 < stats.Length
    modifies g
    ensures Snap(g) == Hallways.CarveAt(old(Snap(g)), carved)
    ensures PassesMade(old(Snap(g)), stats[..], edges, outcome, logs, carved)
    ensures outcome.Connected? ==>
      LinkedBefore(old(Snap(g)), carved, edges, via, stats.Length) && ViaFrom(edges, logs, via, stats.Length)
  {
    ghost var t, table := Snap(g), stats[..];
    var n := stats.Length;
    var slots := new Option<Edge>[|edges|](k requires 0 <= k < |edges| => Some(edges[k]));
    outcome, via, carved, logs := Hallways.Connected, seq(|edges|, k => []), [], [];
    var i := 1;
    while i < n
      invariant 1 <= i && (i <= n || n == 0) && |logs| == i - 1 && outcome == Hallways.Connected && stats[..] == table
      invariant Snap(g) == Hallways.CarveAt(t, carved) && carved == Carvings(logs) && PassesSoFar(t, table, edges, logs)
      invariant SlotsBefore(slots[..], edges, i)
      invariant LinkedBefore(t, carved, edges, via, i) && ViaFrom(edges, logs, via, i)
    {
      ghost var log;
      outcome, carved, via, log := ConnectPass(g, slots, stats, edges, i, t, carved, via, logs);
      if !outcome.Connected? {
        PassesFail(t, table, edges, logs, log);
        logs := logs + [log];
        return;
      }
      PassesNext(t, table, edges, logs, log);
      logs := logs + [log];
      i := i + 1;
    }
    PassesAll(t, table, edges, logs);
  }
}
