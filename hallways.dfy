/**
 * The corridor pass of `generateTiles`: for every room `i`, the rooms it shares
 * an edge with become its targets, a first-in first-out search from the room's
 * last tile gives every cell of the grid a path value (0 on the room's own
 * tiles), and a walk back from the least-valued tile of each target along
 * values that fall by one turns the cells it steps on into floor.
 */
module Hallways {
  import opened Wrappers
  import opened Tiles
  import Labeling
  import RoomGraph

  /** `targetStats[r]`: the cell of room `r` with the least path value seen, `(-1, -1, +Infinity)` when none. */
  datatype TargetStat = TargetStat(x: int, y: int, minDistance: Option<nat>)

  const Unset := TargetStat(-1, -1, None)

  /** The path values, `shortest_paths[y][x]`; `None` is `+Infinity`. */
  type Values = array2<Option<nat>>

  predicate InValues(sp: Values, x: int, y: int)
  {
    0 <= y < sp.Length0 && 0 <= x < sp.Length1
  }

  /** The path values as a value. */
  type Dists = seq<seq<Option<nat>>>

  function DSnap(sp: Values): (v: Dists)
    reads sp
    ensures |v| == sp.Length0 && forall y :: 0 <= y < |v| ==> |v[y]| == sp.Length1
    ensures forall y, x :: 0 <= y < sp.Length0 && 0 <= x < sp.Length1 ==> v[y][x] == sp[y, x]
  {
    seq(sp.Length0, y requires 0 <= y < sp.Length0 reads sp =>
      seq(sp.Length1, x requires 0 <= x < sp.Length1 reads sp => sp[y, x]))
  }

  /** `v` has the shape of the tile grid `t`. */
  ghost predicate SameShape(t: Grid, v: Dists)
  {
    |v| == |t| && forall y :: 0 <= y < |t| ==> |v[y]| == |t[y]|
  }

  /** `(x, y)` is off the grid or already has a finite value. */
  predicate Known(v: Dists, x: int, y: int)
  {
    !(0 <= y < |v| && 0 <= x < |v[y]|) || v[y][x].Some?
  }

  /** Every neighbour of `(x, y)` on the grid has a finite value. */
  predicate NeighboursKnown(v: Dists, x: int, y: int)
  {
    Known(v, x + 1, y) && Known(v, x, y - 1) && Known(v, x - 1, y) && Known(v, x, y + 1)
  }

  /** Every cell with a finite value that is not waiting in `pending` has had its neighbours valued. */
  ghost predicate ClosedOff(t: Grid, v: Dists, pending: seq<(int, int)>)
    requires SameShape(t, v)
  {
    forall y, x {:trigger NeighboursKnown(v, x, y)} ::
      InBounds(t, x, y) && v[y][x].Some? && (x, y) !in pending ==> NeighboursKnown(v, x, y)
  }

  /** A finite value is 0 exactly on the tiles of room `i`. */
  ghost predicate ZeroIff(t: Grid, v: Dists, i: nat)
    requires SameShape(t, v)
  {
    forall y, x :: InBounds(t, x, y) && v[y][x].Some? ==> (v[y][x].value == 0 <==> t[y][x].room == i)
  }

  /**
   * A set entry names a tile of its room and holds that tile's value, and no
   * valued tile of the room has a smaller one; an unset entry is `Unset`.
   */
  ghost predicate TargetsValid(t: Grid, v: Dists, tsv: seq<TargetStat>)
    requires SameShape(t, v)
  {
    && (forall r :: 0 <= r < |tsv| ==>
          if tsv[r].minDistance.Some? then
            InBounds(t, tsv[r].x, tsv[r].y) && t[tsv[r].y][tsv[r].x].room == r && v[tsv[r].y][tsv[r].x] == tsv[r].minDistance
          else
            tsv[r] == Unset)
    && TargetsLeast(t, v, tsv)
  }

  /** The set entry of a room holds a value no greater than that of any valued tile of the room. */
  ghost predicate TargetsLeast(t: Grid, v: Dists, tsv: seq<TargetStat>)
    requires SameShape(t, v)
  {
    forall y, x :: InBounds(t, x, y) && v[y][x].Some? && t[y][x].room < |tsv| && tsv[t[y][x].room].minDistance.Some? ==>
      tsv[t[y][x].room].minDistance.value <= v[y][x].value
  }

  /** Every queued cell is on the grid and has a finite value. */
  ghost predicate StackKnown(t: Grid, v: Dists, stack: seq<(int, int)>)
    requires SameShape(t, v)
  {
    forall c :: c in stack ==> InBounds(t, c.0, c.1) && v[c.1][c.0].Some?
  }

  /** `unknown` is the set of cells still at `+Infinity`. */
  ghost predicate UnknownSet(t: Grid, v: Dists, unknown: set<(int, int)>)
    requires SameShape(t, v)
  {
    forall y, x :: InBounds(t, x, y) ==> ((x, y) in unknown <==> v[y][x].None?)
  }

  /** Every valued cell but the source `s` has made the entry of its room set. */
  ghost predicate Noted(t: Grid, v: Dists, tsv: seq<TargetStat>, s: (int, int))
    requires SameShape(t, v) && IdsBelow(t, |tsv|)
  {
    forall y, x {:trigger NotedAt(t, v, tsv, x, y)} :: InBounds(t, x, y) && (x, y) != s ==> NotedAt(t, v, tsv, x, y)
  }

  /** A valued cell `(x, y)` has made the entry of its room set. */
  ghost predicate NotedAt(t: Grid, v: Dists, tsv: seq<TargetStat>, x: int, y: int)
    requires SameShape(t, v) && IdsBelow(t, |tsv|) && InBounds(t, x, y)
  {
    v[y][x].Some? ==> tsv[t[y][x].room].minDistance.Some?
  }

  /** The search state around the popped cell `c`. */
  ghost predicate SearchInv(t: Grid, v: Dists, tsv: seq<TargetStat>, i: nat, s: (int, int), stack: seq<(int, int)>,
                            pending: seq<(int, int)>, unknown: set<(int, int)>)
  {
    && SameShape(t, v) && IdsBelow(t, |tsv|) && InBounds(t, s.0, s.1) && t[s.1][s.0].room == i
    && ZeroIff(t, v, i) && TargetsValid(t, v, tsv) && StackKnown(t, v, stack)
    && ClosedOff(t, v, pending) && UnknownSet(t, v, unknown) && Noted(t, v, tsv, s)
  }

  /**
   * The value of neighbour `n` after a pop of a cell with value `cd`: lowered to
   * `cd + 1` (to 0 on a tile of room `i`) when it was `+Infinity` or larger.
   */
  function Lower(t: Grid, v: Dists, i: nat, cd: nat, n: (int, int)): (v': Dists)
    requires SameShape(t, v)
    ensures SameShape(t, v')
    ensures InBounds(t, n.0, n.1) ==> v'[n.1][n.0].Some?
    ensures forall y, x :: InBounds(t, x, y) && (x, y) != n ==> v'[y][x] == v[y][x]
  {
    if InBounds(t, n.0, n.1) && (v[n.1][n.0].None? || cd + 1 < v[n.1][n.0].value) then
      var (nx, ny) := n;
      v[ny := v[ny][nx := if t[ny][nx].room == i then Some(0) else Some(cd + 1)]]
    else v
  }

  /** `targetStats` after neighbour `n` got the value in `v`: its room's entry takes it when smaller. */
  function Note(t: Grid, v: Dists, tsv: seq<TargetStat>, n: (int, int)): (tsv': seq<TargetStat>)
    requires SameShape(t, v) && IdsBelow(t, |tsv|)
    requires InBounds(t, n.0, n.1) ==> v[n.1][n.0].Some?
    ensures |tsv'| == |tsv|
  {
    if InBounds(t, n.0, n.1) then
      var (nx, ny) := n;
      var r := t[ny][nx].room;
      var d := v[ny][nx].value;
      if tsv[r].minDistance.None? || d < tsv[r].minDistance.value then tsv[r := TargetStat(nx, ny, Some(d))] else tsv
    else tsv
  }

  /** The queue after neighbour `n`: an unvalued cell of the grid goes to the front. */
  function Enqueue(t: Grid, v: Dists, stack: seq<(int, int)>, n: (int, int)): seq<(int, int)>
    requires SameShape(t, v)
  {
    if InBounds(t, n.0, n.1) && v[n.1][n.0].None? then [n] + stack else stack
  }

  lemma VisitZero(t: Grid, v: Dists, i: nat, cd: nat, n: (int, int))
    requires SameShape(t, v) && ZeroIff(t, v, i)
    ensures ZeroIff(t, Lower(t, v, i, cd, n), i)
  {
  }

  /** Lowering `n` and noting it keeps every set entry on its tile's value. */
  lemma VisitTargets(t: Grid, v: Dists, tsv: seq<TargetStat>, i: nat, cd: nat, n: (int, int))
    requires SameShape(t, v) && IdsBelow(t, |tsv|) && TargetsValid(t, v, tsv)
    ensures var v' := Lower(t, v, i, cd, n); var tsv' := Note(t, v', tsv, n);
      forall r :: 0 <= r < |tsv'| ==>
        if tsv'[r].minDistance.Some? then
          InBounds(t, tsv'[r].x, tsv'[r].y) && t[tsv'[r].y][tsv'[r].x].room == r && v'[tsv'[r].y][tsv'[r].x] == tsv'[r].minDistance
        else tsv'[r] == Unset
  {
    var v': Dists := Lower(t, v, i, cd, n);
    var tsv' := Note(t, v', tsv, n);
    forall r | 0 <= r < |tsv'|
      ensures if tsv'[r].minDistance.Some? then
        InBounds(t, tsv'[r].x, tsv'[r].y) && t[tsv'[r].y][tsv'[r].x].room == r && v'[tsv'[r].y][tsv'[r].x] == tsv'[r].minDistance
      else tsv'[r] == Unset
    {
      if tsv'[r] != tsv[r] {
        assert InBounds(t, n.0, n.1) && tsv'[r] == TargetStat(n.0, n.1, v'[n.1][n.0]);
      } else if tsv[r].minDistance.Some? {
        var (x, y) := (tsv[r].x, tsv[r].y);
        assert v[y][x] == tsv[r].minDistance;
        if (x, y) == n {
          assert v'[y][x].value <= v[y][x].value;
        }
      }
    }
  }

  /** Lowering `n` and noting it keeps every set entry at the least value of its room. */
  lemma VisitLeast(t: Grid, v: Dists, tsv: seq<TargetStat>, i: nat, s: (int, int), cd: nat, n: (int, int))
    requires SameShape(t, v) && IdsBelow(t, |tsv|) && ZeroIff(t, v, i) && TargetsValid(t, v, tsv) && Noted(t, v, tsv, s)
    requires InBounds(t, s.0, s.1) && t[s.1][s.0].room == i
    ensures TargetsLeast(t, Lower(t, v, i, cd, n), Note(t, Lower(t, v, i, cd, n), tsv, n))
  {
    var v': Dists := Lower(t, v, i, cd, n);
    var tsv' := Note(t, v', tsv, n);
    VisitZero(t, v, i, cd, n);
    forall y, x | InBounds(t, x, y) && v'[y][x].Some? && t[y][x].room < |tsv'| && tsv'[t[y][x].room].minDistance.Some?
      ensures tsv'[t[y][x].room].minDistance.value <= v'[y][x].value
    {
      var r := t[y][x].room;
      if (x, y) != n {
        assert v'[y][x] == v[y][x];
        if (x, y) != s {
          assert NotedAt(t, v, tsv, x, y);
        }
        if tsv[r].minDistance.Some? {
          assert tsv[r].minDistance.value <= v[y][x].value;
        } else {
          assert r == i && v[y][x].value == 0;
          assert tsv'[r] == TargetStat(n.0, n.1, v'[n.1][n.0]) && t[n.1][n.0].room == i;
        }
      }
    }
  }

  lemma VisitStack(t: Grid, v: Dists, i: nat, cd: nat, stack: seq<(int, int)>, n: (int, int))
    requires SameShape(t, v) && StackKnown(t, v, stack)
    ensures StackKnown(t, Lower(t, v, i, cd, n), Enqueue(t, v, stack, n))
  {
    var v': Dists := Lower(t, v, i, cd, n);
    forall m | m in Enqueue(t, v, stack, n) ensures InBounds(t, m.0, m.1) && v'[m.1][m.0].Some? {
      if m != n {
        assert m in stack;
      }
    }
  }

  lemma VisitClosed(t: Grid, v: Dists, i: nat, cd: nat, stack: seq<(int, int)>, c: (int, int), n: (int, int))
    requires SameShape(t, v) && ClosedOff(t, v, stack + [c])
    ensures ClosedOff(t, Lower(t, v, i, cd, n), Enqueue(t, v, stack, n) + [c])
  {
    var v': Dists := Lower(t, v, i, cd, n);
    var pending := Enqueue(t, v, stack, n) + [c];
    forall y, x | InBounds(t, x, y) && v'[y][x].Some? && (x, y) !in pending ensures NeighboursKnown(v', x, y) {
      if (x, y) != n {
        assert (x, y) !in stack + [c];
        assert NeighboursKnown(v, x, y);
      } else {
        assert v[y][x].Some?;
        assert (x, y) !in stack + [c];
        assert NeighboursKnown(v, x, y);
      }
    }
  }

  lemma VisitUnknown(t: Grid, v: Dists, i: nat, cd: nat, n: (int, int), unknown: set<(int, int)>)
    requires SameShape(t, v) && UnknownSet(t, v, unknown)
    ensures UnknownSet(t, Lower(t, v, i, cd, n),
      if InBounds(t, n.0, n.1) && v[n.1][n.0].None? then unknown - {n} else unknown)
  {
  }

  lemma VisitNoted(t: Grid, v: Dists, tsv: seq<TargetStat>, i: nat, s: (int, int), cd: nat, n: (int, int))
    requires SameShape(t, v) && IdsBelow(t, |tsv|) && Noted(t, v, tsv, s)
    ensures Noted(t, Lower(t, v, i, cd, n), Note(t, Lower(t, v, i, cd, n), tsv, n), s)
  {
    var v': Dists := Lower(t, v, i, cd, n);
    var tsv' := Note(t, v', tsv, n);
    forall y, x | InBounds(t, x, y) && (x, y) != s ensures NotedAt(t, v', tsv', x, y) {
      assert NotedAt(t, v, tsv, x, y);
    }
  }

  /** One visit keeps the search state. */
  lemma VisitKeeps(t: Grid, v: Dists, tsv: seq<TargetStat>, i: nat, s: (int, int), cd: nat, stack: seq<(int, int)>,
                   c: (int, int), n: (int, int), unknown: set<(int, int)>)
    requires SearchInv(t, v, tsv, i, s, stack, stack + [c], unknown)
    ensures var v' := Lower(t, v, i, cd, n);
      SearchInv(t, v', Note(t, v', tsv, n), i, s, Enqueue(t, v, stack, n), Enqueue(t, v, stack, n) + [c],
        if InBounds(t, n.0, n.1) && v[n.1][n.0].None? then unknown - {n} else unknown)
  {
    VisitZero(t, v, i, cd, n);
    VisitTargets(t, v, tsv, i, cd, n);
    VisitLeast(t, v, tsv, i, s, cd, n);
    VisitStack(t, v, i, cd, stack, n);
    VisitClosed(t, v, i, cd, stack, c, n);
    VisitUnknown(t, v, i, cd, n, unknown);
    VisitNoted(t, v, tsv, i, s, cd, n);
  }

  /**
   * One neighbour `n` of the popped cell, whose value is `cd`: an unvalued
   * cell is put at the front of the queue, its value is lowered, and the
   * entry of its room in `targetStats` takes it when its value is smaller.
   */
  method Visit(g: array2<Tile>, sp: Values, ts: array<TargetStat>, i: nat, cd: nat, n: (int, int), stack: seq<(int, int)>)
    returns (stack': seq<(int, int)>)
    requires sp.Length0 == g.Length0 && sp.Length1 == g.Length1 && IdsBelow(Snap(g), ts.Length)
    modifies sp, ts
    ensures stack' == Enqueue(Snap(g), old(DSnap(sp)), stack, n)
    ensures DSnap(sp) == Lower(Snap(g), old(DSnap(sp)), i, cd, n)
    ensures ts[..] == Note(Snap(g), DSnap(sp), old(ts[..]), n)
  {
    ghost var t, v, tsv := Snap(g), DSnap(sp), ts[..];
    stack' := stack;
    var (nx, ny) := n;
    if 0 <= nx < g.Length1 && 0 <= ny < g.Length0 {
      if sp[ny, nx].None? {
        stack' := [n] + stack;
      }
      if sp[ny, nx].None? || cd + 1 < sp[ny, nx].value {
        sp[ny, nx] := if g[ny, nx].room == i then Some(0) else Some(cd + 1);
      }
      DSnapEq(sp, Lower(t, v, i, cd, n));
      var d := sp[ny, nx].value;
      var r := g[ny, nx].room;
      assert t[ny][nx].room == r;
      if ts[r].minDistance.None? || d < ts[r].minDistance.value {
        ts[r] := TargetStat(nx, ny, Some(d));
      }
    } else {
      DSnapEq(sp, v);
    }
  }

  lemma DSnapEq(sp: Values, v: Dists)
    requires |v| == sp.Length0 && forall y :: 0 <= y < |v| ==> |v[y]| == sp.Length1
    requires forall y, x :: 0 <= y < sp.Length0 && 0 <= x < sp.Length1 ==> v[y][x] == sp[y, x]
    ensures DSnap(sp) == v
  {
    var s := DSnap(sp);
    forall y | 0 <= y < |v| ensures s[y] == v[y] {
      assert forall x :: 0 <= x < |v[y]| ==> s[y][x] == v[y][x];
    }
  }

  /** A valued cell outside the pending list has valued neighbours. */
  lemma StepKnown(t: Grid, v: Dists, x: int, y: int, nx: int, ny: int)
    requires SameShape(t, v) && ClosedOff(t, v, []) && InBounds(t, x, y) && v[y][x].Some?
    requires InBounds(t, nx, ny) && Labeling.Adjacent(x, y, nx, ny)
    ensures v[ny][nx].Some?
  {
    assert (x, y) !in [];
    assert NeighboursKnown(v, x, y);
  }

  /** A closed set of valued cells that holds one cell holds the whole grid. */
  lemma {:induction false} Spread(t: Grid, w: nat, v: Dists, x0: int, y0: int, x: int, y: int)
    requires SameShape(t, v) && ClosedOff(t, v, []) && forall r :: 0 <= r < |t| ==> |t[r]| == w
    requires InBounds(t, x0, y0) && v[y0][x0].Some? && InBounds(t, x, y)
    ensures v[y][x].Some?
    decreases if x < x0 then x0 - x else x - x0, if y < y0 then y0 - y else y - y0
  {
    if x < x0 {
      Spread(t, w, v, x0, y0, x + 1, y);
      StepKnown(t, v, x + 1, y, x, y);
    } else if x > x0 {
      Spread(t, w, v, x0, y0, x - 1, y);
      StepKnown(t, v, x - 1, y, x, y);
    } else if y < y0 {
      Spread(t, w, v, x0, y0, x, y + 1);
      StepKnown(t, v, x, y + 1, x, y);
    } else if y > y0 {
      Spread(t, w, v, x0, y0, x, y - 1);
      StepKnown(t, v, x, y - 1, x, y);
    }
  }

  /** After the last pop every cell of the grid has a finite value. */
  lemma SearchEnd(t: Grid, v: Dists, x0: int, y0: int)
    requires SameShape(t, v) && InBounds(t, x0, y0) && v[y0][x0].Some? && ClosedOff(t, v, [])
    requires forall r :: 0 <= r < |t| ==> |t[r]| == |t[y0]|
    ensures forall y, x :: InBounds(t, x, y) ==> v[y][x].Some?
  {
    forall y, x | InBounds(t, x, y) ensures v[y][x].Some? {
      Spread(t, |t[y0]|, v, x0, y0, x, y);
    }
  }

  /** The search begins with the source tile valued 0 and queued. */
  lemma SearchStart(t: Grid, v: Dists, tsv: seq<TargetStat>, i: nat, sx: int, sy: int, unknown: set<(int, int)>)
    requires SameShape(t, v) && IdsBelow(t, |tsv|) && InBounds(t, sx, sy) && t[sy][sx].room == i
    requires forall r :: 0 <= r < |tsv| ==> tsv[r] == Unset
    requires forall y, x :: InBounds(t, x, y) ==> v[y][x] == if (x, y) == (sx, sy) then Some(0) else None
    requires forall y, x :: InBounds(t, x, y) ==> ((x, y) in unknown <==> (x, y) != (sx, sy))
    ensures SearchInv(t, v, tsv, i, (sx, sy), [(sx, sy)], [(sx, sy)], unknown)
  {
  }

  /** `Visit`, with the search state it keeps. */
  method VisitStep(g: array2<Tile>, sp: Values, ts: array<TargetStat>, i: nat, ghost s: (int, int), cd: nat,
                   c: (int, int), d: nat, stack: seq<(int, int)>, ghost unknown: set<(int, int)>)
    returns (stack': seq<(int, int)>, ghost unknown': set<(int, int)>)
    requires sp.Length0 == g.Length0 && sp.Length1 == g.Length1 && d < 4
    requires SearchInv(Snap(g), DSnap(sp), ts[..], i, s, stack, stack + [c], unknown)
    requires KnownUpTo(DSnap(sp), c, d)
    modifies sp, ts
    ensures SearchInv(Snap(g), DSnap(sp), ts[..], i, s, stack', stack' + [c], unknown')
    ensures KnownUpTo(DSnap(sp), c, d + 1)
    ensures unknown' <= unknown
    ensures |unknown'| < |unknown| || (unknown' == unknown && stack' == stack)
  {
    ghost var t, v := Snap(g), DSnap(sp);
    var n := Labeling.Neighbours(c.0, c.1)[d];
    VisitKeeps(t, v, ts[..], i, s, cd, stack, c, n, unknown);
    LowerKnown(t, v, i, cd, c, d);
    stack' := Visit(g, sp, ts, i, cd, n, stack);
    unknown' := if InBounds(t, n.0, n.1) && v[n.1][n.0].None? then unknown - {n} else unknown;
  }

  /** Visiting the `d`-th neighbour of `c` values it and keeps the earlier ones valued. */
  lemma LowerKnown(t: Grid, v: Dists, i: nat, cd: nat, c: (int, int), d: nat)
    requires SameShape(t, v) && d < 4 && KnownUpTo(v, c, d)
    ensures KnownUpTo(Lower(t, v, i, cd, Labeling.Neighbours(c.0, c.1)[d]), c, d + 1)
  {
    var ns := Labeling.Neighbours(c.0, c.1);
    var v' := Lower(t, v, i, cd, ns[d]);
    forall e | 0 <= e < d + 1 && e < 4 ensures Known(v', ns[e].0, ns[e].1) {
      if e < d && InBounds(t, ns[e].0, ns[e].1) && ns[e] != ns[d] {
        assert v'[ns[e].1][ns[e].0] == v[ns[e].1][ns[e].0];
      }
    }
  }

  /** The first `d` neighbours of `c`, in the source's order, are off the grid or valued. */
  ghost predicate KnownUpTo(v: Dists, c: (int, int), d: nat)
  {
    forall e :: 0 <= e < d && e < 4 ==> Known(v, Labeling.Neighbours(c.0, c.1)[e].0, Labeling.Neighbours(c.0, c.1)[e].1)
  }

  /** One round of the search: pop the back of the queue and visit its four neighbours. */
  method SearchRound(g: array2<Tile>, sp: Values, ts: array<TargetStat>, i: nat, ghost s: (int, int), stack: seq<(int, int)>,
                     ghost unknown: set<(int, int)>)
    returns (stack': seq<(int, int)>, ghost unknown': set<(int, int)>)
    requires sp.Length0 == g.Length0 && sp.Length1 == g.Length1 && stack != []
    requires SearchInv(Snap(g), DSnap(sp), ts[..], i, s, stack, stack, unknown)
    modifies sp, ts
    ensures SearchInv(Snap(g), DSnap(sp), ts[..], i, s, stack', stack', unknown')
    ensures unknown' <= unknown
    ensures |unknown'| < |unknown| || (unknown' == unknown && |stack'| < |stack|)
  {
    ghost var t := Snap(g);
    var c := stack[|stack| - 1];
    stack' := stack[..|stack| - 1];
    unknown' := unknown;
    assert stack == stack' + [c];
    var (x, y) := c;
    RoundStart(t, DSnap(sp), ts[..], i, s, stack', c, unknown);
    var cd := sp[y, x].value;
    stack', unknown' := VisitAll(g, sp, ts, i, s, cd, stack', c, unknown');
    RoundEnd(t, DSnap(sp), ts[..], i, s, stack', c, unknown');
  }

  /** The source's loop over the four neighbours of `c`, in its order. */
  method VisitAll(g: array2<Tile>, sp: Values, ts: array<TargetStat>, i: nat, ghost s: (int, int), cd: nat,
                  stack: seq<(int, int)>, c: (int, int), ghost unknown: set<(int, int)>)
    returns (stack': seq<(int, int)>, ghost unknown': set<(int, int)>)
    requires sp.Length0 == g.Length0 && sp.Length1 == g.Length1
    requires SearchInv(Snap(g), DSnap(sp), ts[..], i, s, stack, stack + [c], unknown)
    modifies sp, ts
    ensures SearchInv(Snap(g), DSnap(sp), ts[..], i, s, stack', stack' + [c], unknown')
    ensures NeighboursKnown(DSnap(sp), c.0, c.1)
    ensures unknown' <= unknown
    ensures |unknown'| < |unknown| || (unknown' == unknown && stack' == stack)
  {
    stack', unknown' := stack, unknown;
    for d := 0 to 4
      invariant SearchInv(Snap(g), DSnap(sp), ts[..], i, s, stack', stack' + [c], unknown')
      invariant KnownUpTo(DSnap(sp), c, d)
      invariant unknown' <= unknown
      invariant |unknown'| < |unknown| || (unknown' == unknown && stack' == stack)
    {
      stack', unknown' := VisitStep(g, sp, ts, i, s, cd, c, d, stack', unknown');
    }
    KnownAll(DSnap(sp), c);
  }

  lemma KnownAll(v: Dists, c: (int, int))
    requires KnownUpTo(v, c, 4)
    ensures NeighboursKnown(v, c.0, c.1)
  {
    var ns := Labeling.Neighbours(c.0, c.1);
    assert Known(v, ns[0].0, ns[0].1) && Known(v, ns[1].0, ns[1].1);
    assert Known(v, ns[2].0, ns[2].1) && Known(v, ns[3].0, ns[3].1);
  }

  /** Taking `c` off the back of the queue leaves it pending. */
  lemma RoundStart(t: Grid, v: Dists, tsv: seq<TargetStat>, i: nat, s: (int, int), stack: seq<(int, int)>,
                   c: (int, int), unknown: set<(int, int)>)
    requires SearchInv(t, v, tsv, i, s, stack + [c], stack + [c], unknown)
    ensures SearchInv(t, v, tsv, i, s, stack, stack + [c], unknown)
    ensures InBounds(t, c.0, c.1) && v[c.1][c.0].Some?
  {
    assert c in stack + [c];
  }

  /** Once the neighbours of `c` are valued, `c` is no longer pending. */
  lemma RoundEnd(t: Grid, v: Dists, tsv: seq<TargetStat>, i: nat, s: (int, int), stack: seq<(int, int)>,
                 c: (int, int), unknown: set<(int, int)>)
    requires SearchInv(t, v, tsv, i, s, stack, stack + [c], unknown) && NeighboursKnown(v, c.0, c.1)
    ensures SearchInv(t, v, tsv, i, s, stack, stack, unknown)
  {
    RoundClosed(t, v, stack, c);
  }

  lemma RoundClosed(t: Grid, v: Dists, stack: seq<(int, int)>, c: (int, int))
    requires SameShape(t, v) && ClosedOff(t, v, stack + [c]) && NeighboursKnown(v, c.0, c.1)
    ensures ClosedOff(t, v, stack)
  {
    forall y, x | InBounds(t, x, y) && v[y][x].Some? && (x, y) !in stack ensures NeighboursKnown(v, x, y) {
      if (x, y) != c {
        assert (x, y) !in stack + [c];
      }
    }
  }

  /** The initial state: every value `+Infinity` but the source tile's 0, and the source tile queued. */
  method StartSearch(g: array2<Tile>, i: nat, sx: int, sy: int, ts: array<TargetStat>)
    returns (sp: Values, stack: seq<(int, int)>, ghost unknown: set<(int, int)>)
    requires InGrid(g, sx, sy) && g[sy, sx].room == i && IdsBelow(Snap(g), ts.Length)
    requires forall r :: 0 <= r < ts.Length ==> ts[r] == Unset
    ensures fresh(sp) && sp.Length0 == g.Length0 && sp.Length1 == g.Length1
    ensures SearchInv(Snap(g), DSnap(sp), ts[..], i, (sx, sy), stack, stack, unknown)
    ensures sp[sy, sx].Some? && (sx, sy) !in unknown
  {
    sp := new Option<nat>[g.Length0, g.Length1]((y, x) => None);
    unknown := set y, x | 0 <= y < g.Length0 && 0 <= x < g.Length1 && (x, y) != (sx, sy) :: (x, y);
    stack := [(sx, sy)];
    sp[sy, sx] := Some(0);
    SearchStart(Snap(g), DSnap(sp), ts[..], i, sx, sy, unknown);
  }

  /**
   * The search from the tile `(sx, sy)` of room `i`: a queue taken from the
   * back and filled at the front. Every cell of the grid ends with a finite
   * value, 0 exactly on the tiles of room `i`, and every set entry of
   * `targetStats` names a tile of its room with the least value of all the
   * tiles of that room.
   */
  method Search(g: array2<Tile>, i: nat, sx: int, sy: int, ts: array<TargetStat>) returns (sp: Values)
    requires InGrid(g, sx, sy) && g[sy, sx].room == i && IdsBelow(Snap(g), ts.Length)
    requires forall r :: 0 <= r < ts.Length ==> ts[r] == Unset
    modifies ts
    ensures fresh(sp) && sp.Length0 == g.Length0 && sp.Length1 == g.Length1
    ensures forall y, x :: InGrid(g, x, y) ==> sp[y, x].Some? && (sp[y, x].value == 0 <==> g[y, x].room == i)
    ensures TargetsValid(Snap(g), DSnap(sp), ts[..])
    ensures forall y, x :: InGrid(g, x, y) && (x, y) != (sx, sy) ==> ts[g[y, x].room].minDistance.Some?
  {
    ghost var t := Snap(g);
    var stack;
    ghost var unknown;
    sp, stack, unknown := StartSearch(g, i, sx, sy, ts);
    while stack != []
      invariant SearchInv(t, DSnap(sp), ts[..], i, (sx, sy), stack, stack, unknown)
      invariant (sx, sy) !in unknown
      decreases |unknown|, |stack|
    {
      stack, unknown := SearchRound(g, sp, ts, i, (sx, sy), stack, unknown);
    }
    SearchEnd(t, DSnap(sp), sx, sy);
    forall y, x | InGrid(g, x, y) && (x, y) != (sx, sy) ensures ts[g[y, x].room].minDistance.Some? {
      assert NotedAt(t, DSnap(sp), ts[..], x, y);
    }
  }

  /** A walked-over cell: floor, white, flooring pattern; its room id is kept. */
  function Carve(tile: Tile): (r: Tile)
    ensures r.room == tile.room && r.floor
  {
    tile.(floor := true, color := White, pattern := Flooring)
  }

  /** `(nx, ny)` is on the grid and one step down from `d`. */
  predicate StepsDown(v: Dists, nx: int, ny: int, d: nat)
  {
    0 <= ny < |v| && 0 <= nx < |v[ny]| && d >= 1 && v[ny][nx] == Some(d - 1)
  }

  /** No neighbour of `(x, y)` before the `e`-th is one step down from `d`. */
  predicate NoneDownBefore(v: Dists, x: int, y: int, d: nat, e: int)
  {
    forall e' :: 0 <= e' < e && e' < 4 ==>
      !StepsDown(v, Labeling.Neighbours(x, y)[e'].0, Labeling.Neighbours(x, y)[e'].1, d)
  }

  /** The first cell of `ns` that is one step down from `d`, if any. */
  function FirstDownIn(v: Dists, ns: seq<(int, int)>, d: nat): Option<(int, int)>
  {
    if ns == [] then None
    else if StepsDown(v, ns[0].0, ns[0].1, d) then Some(ns[0])
    else FirstDownIn(v, ns[1..], d)
  }

  /**
   * The cell the walk back steps to from `(x, y)` of value `d`, if any: the
   * first neighbour, in the order `+x, -y, -x, +y`, that is one step down.
   */
  function FirstDown(v: Dists, x: int, y: int, d: nat): Option<(int, int)>
  {
    FirstDownIn(v, Labeling.Neighbours(x, y), d)
  }

  /**
   * The neighbour scan of the walk back: the first neighbour of `(x, y)`, in
   * the order `+x, -y, -x, +y`, that is one step down from `d`.
   */
  method NextStep(sp: Values, x: int, y: int, d: nat) returns (found: bool, nx: int, ny: int)
    ensures FirstDown(DSnap(sp), x, y, d) == if found then Some((nx, ny)) else None
    ensures found ==> Labeling.Adjacent(x, y, nx, ny) && StepsDown(DSnap(sp), nx, ny, d)
  {
    ghost var v := DSnap(sp);
    var ns := Labeling.Neighbours(x, y);
    found, nx, ny := false, 0, 0;
    var j := 0;
    while j < 4 && !found
      invariant 0 <= j <= 4
      invariant FirstDown(v, x, y, d) == if found then Some((nx, ny)) else FirstDownIn(v, ns[j..], d)
      invariant !found ==> NoneDownBefore(v, x, y, d, j)
      invariant found ==> 0 < j && ns[j - 1] == (nx, ny) && StepsDown(v, nx, ny, d) && NoneDownBefore(v, x, y, d, j - 1)
    {
      var (cx, cy) := ns[j];
      if 0 <= cx < sp.Length1 && 0 <= cy < sp.Length0 && d >= 1 && sp[cy, cx] == Some(d - 1) {
        found, nx, ny := true, cx, cy;
      }
      j := j + 1;
    }
  }

  /**
   * A walk of the values: starts at `(x, y)`, every step goes to an adjacent
   * cell of the grid whose value is one less.
   */
  ghost predicate Descends(v: Dists, path: seq<(int, int)>)
  {
    && |path| >= 1
    && (forall k :: 0 <= k < |path| ==>
          0 <= path[k].1 < |v| && 0 <= path[k].0 < |v[path[k].1]| && v[path[k].1][path[k].0].Some?)
    && forall k, l :: 0 <= k && l == k + 1 && l < |path| ==>
         Labeling.Adjacent(path[k].0, path[k].1, path[l].0, path[l].1)
         && v[path[l].1][path[l].0].value + 1 == v[path[k].1][path[k].0].value
  }

  /** Every step of `path` goes to the cell `FirstDown` picks. */
  ghost predicate Greedy(v: Dists, path: seq<(int, int)>)
    requires Descends(v, path)
  {
    forall k {:trigger FirstDown(v, path[k].0, path[k].1, v[path[k].1][path[k].0].value)} :: 0 <= k < |path| - 1 ==>
      FirstDown(v, path[k].0, path[k].1, v[path[k].1][path[k].0].value) == Some(path[k + 1])
  }

  /** The last cell of a walk has value 0. */
  predicate EndsAtZero(v: Dists, path: seq<(int, int)>)
  {
    && |path| >= 1
    && 0 <= path[|path| - 1].1 < |v| && 0 <= path[|path| - 1].0 < |v[path[|path| - 1].1]|
    && v[path[|path| - 1].1][path[|path| - 1].0] == Some(0)
  }

  /** The walk back stops at `c`: its value is 0, or no neighbour is one step down. */
  predicate Stops(v: Dists, c: (int, int))
  {
    0 <= c.1 < |v| && 0 <= c.0 < |v[c.1]| && v[c.1][c.0].Some?
    && (v[c.1][c.0].value == 0 || FirstDown(v, c.0, c.1, v[c.1][c.0].value) == None)
  }

  /**
   * The walk back from `path[0]`, as the source takes it: every step goes to
   * the first neighbour one step down, and the walk stops at value 0, or at a
   * cell no neighbour of which is one step down.
   */
  ghost predicate WalkOf(v: Dists, path: seq<(int, int)>)
  {
    Descends(v, path) && Greedy(v, path) && Stops(v, path[|path| - 1])
  }

  /** A walk back stops only at its last cell. */
  lemma StopsAtEnd(v: Dists, q: seq<(int, int)>, k: nat)
    requires WalkOf(v, q) && k < |q|
    ensures Stops(v, q[k]) ==> k == |q| - 1
  {
    if k < |q| - 1 {
      assert FirstDown(v, q[k].0, q[k].1, v[q[k].1][q[k].0].value) == Some(q[k + 1]);
      assert v[q[k + 1].1][q[k + 1].0].value + 1 == v[q[k].1][q[k].0].value;
    }
  }

  /** The two walks agree on their first `k + 1` cells. */
  lemma {:induction false} WalkPrefix(v: Dists, p: seq<(int, int)>, q: seq<(int, int)>, k: nat)
    requires WalkOf(v, p) && WalkOf(v, q) && p[0] == q[0] && k < |p| && k < |q|
    ensures p[k] == q[k]
  {
    if k > 0 {
      WalkPrefix(v, p, q, k - 1);
      assert FirstDown(v, p[k - 1].0, p[k - 1].1, v[p[k - 1].1][p[k - 1].0].value) == Some(p[k]);
    }
  }

  /** A walk cannot stop where another walk goes on. */
  lemma WalkNotShorter(v: Dists, p: seq<(int, int)>, q: seq<(int, int)>)
    requires WalkOf(v, p) && WalkOf(v, q) && p[0] == q[0]
    ensures |p| >= |q|
  {
    var l := |p| - 1;
    if l < |q| {
      WalkPrefix(v, p, q, l);
      StopsAtEnd(v, q, l);
    }
  }

  /** The walk back is determined by the cell it starts from. */
  lemma WalkUnique(v: Dists, p: seq<(int, int)>, q: seq<(int, int)>)
    requires WalkOf(v, p) && WalkOf(v, q) && p[0] == q[0]
    ensures p == q
  {
    WalkNotShorter(v, p, q);
    WalkNotShorter(v, q, p);
    forall k | 0 <= k < |p| ensures p[k] == q[k] {
      WalkPrefix(v, p, q, k);
    }
  }

  /** A step to the cell `FirstDown` picks extends a greedy descending walk. */
  lemma DescendsStep(v: Dists, path: seq<(int, int)>, nx: int, ny: int)
    requires Descends(v, path) && Greedy(v, path)
    requires var (x, y) := path[|path| - 1];
      && Labeling.Adjacent(x, y, nx, ny) && StepsDown(v, nx, ny, v[y][x].value)
      && FirstDown(v, x, y, v[y][x].value) == Some((nx, ny))
    ensures Descends(v, path + [(nx, ny)]) && Greedy(v, path + [(nx, ny)])
  {
    var p := path + [(nx, ny)];
    assert Descends(v, p);
    forall k | 0 <= k < |p| - 1 ensures FirstDown(v, p[k].0, p[k].1, v[p[k].1][p[k].0].value) == Some(p[k + 1]) {
      if k < |path| - 1 {
        assert p[k] == path[k] && p[k + 1] == path[k + 1];
      }
    }
  }

  /** `t` with the tiles at `cells` carved. */
  function CarveAt(t: Grid, cells: seq<(int, int)>): (r: Grid)
    ensures |r| == |t| && forall y :: 0 <= y < |t| ==> |r[y]| == |t[y]|
    ensures forall y, x :: InBounds(t, x, y) ==> r[y][x] == if (x, y) in cells then Carve(t[y][x]) else t[y][x]
  {
    if cells == [] then t
    else
      var r := CarveAt(t, cells[..|cells| - 1]);
      var (x, y) := cells[|cells| - 1];
      assert forall c :: c in cells <==> c in cells[..|cells| - 1] || c == (x, y);
      if InBounds(r, x, y) then r[y := r[y][x := Carve(r[y][x])]] else r
  }

  /** One step of the walk: carve `(nx, ny)`. */
  method CarveStep(g: array2<Tile>, nx: int, ny: int, ghost t: Grid, ghost cells: seq<(int, int)>)
    requires InGrid(g, nx, ny) && Snap(g) == CarveAt(t, cells)
    modifies g
    ensures Snap(g) == CarveAt(t, cells + [(nx, ny)])
  {
    g[ny, nx] := Carve(g[ny, nx]);
    assert (cells + [(nx, ny)])[..|cells|] == cells;
    SnapEq(g, CarveAt(t, cells + [(nx, ny)]));
  }

  /** The walk back so far: a descending path ending at `(x, y)`, of value `distance`, carved past its first cell. */
  ghost predicate Walking(v: Dists, t: Grid, cur: Grid, path: seq<(int, int)>, x: int, y: int, distance: nat)
  {
    WalkedTo(v, path, x, y, distance) && cur == CarveAt(t, path[1..])
  }

  /** A descending path of greedy steps, ending at `(x, y)` of value `distance`. */
  ghost predicate WalkedTo(v: Dists, path: seq<(int, int)>, x: int, y: int, distance: nat)
  {
    && Descends(v, path) && Greedy(v, path) && path[|path| - 1] == (x, y)
    && 0 <= y < |v| && 0 <= x < |v[y]| && v[y][x] == Some(distance)
  }

  /** A step to the cell `FirstDown` picks extends the walk back under way by one cell. */
  lemma WalkingStep(v: Dists, t: Grid, path: seq<(int, int)>, x: int, y: int, distance: nat, nx: int, ny: int)
    requires |path| >= 1 && Walking(v, t, CarveAt(t, path[1..]), path, x, y, distance)
    requires Labeling.Adjacent(x, y, nx, ny) && StepsDown(v, nx, ny, distance) && FirstDown(v, x, y, distance) == Some((nx, ny))
    ensures Walking(v, t, CarveAt(t, path[1..] + [(nx, ny)]), path + [(nx, ny)], nx, ny, distance - 1)
  {
    DescendsStep(v, path, nx, ny);
    TailAppend(path, (nx, ny));
  }

  /** One step of the walk back: find the next cell down from `(x, y)` and carve it. */
  method WalkStep(g: array2<Tile>, sp: Values, ghost v: Dists, ghost t: Grid, x: int, y: int, distance: nat,
                  ghost path: seq<(int, int)>) returns (found: bool, nx: int, ny: int)
    requires sp.Length0 == g.Length0 && sp.Length1 == g.Length1 && DSnap(sp) == v
    requires Walking(v, t, Snap(g), path, x, y, distance) && distance > 0
    modifies g
    ensures !found ==> FirstDown(v, x, y, distance) == None && Snap(g) == old(Snap(g))
    ensures found ==> Walking(v, t, Snap(g), path + [(nx, ny)], nx, ny, distance - 1)
  {
    found, nx, ny := NextStep(sp, x, y, distance);
    if found {
      WalkingStep(v, t, path, x, y, distance, nx, ny);
      CarveStep(g, nx, ny, t, path[1..]);
    }
  }

  /** One turn of the walk back's loop, with the walk's state before and after. */
  method WalkTurn(g: array2<Tile>, sp: Values, ghost v: Dists, ghost t: Grid, x: int, y: int, distance: nat,
                  ghost path: seq<(int, int)>) returns (found: bool, nx: int, ny: int, nd: nat, ghost next: seq<(int, int)>)
    requires sp.Length0 == g.Length0 && sp.Length1 == g.Length1 && DSnap(sp) == v
    requires Walking(v, t, Snap(g), path, x, y, distance) && distance > 0
    modifies g
    ensures Walking(v, t, Snap(g), next, nx, ny, nd) && next[0] == path[0]
    ensures found ==> nd < distance
    ensures !found ==> nd == distance && FirstDown(v, nx, ny, nd) == None
  {
    found, nx, ny := WalkStep(g, sp, v, t, x, y, distance, path);
    if found {
      nd, next := distance - 1, path + [(nx, ny)];
    } else {
      nx, ny, nd, next := x, y, distance, path;
    }
  }

  /**
   * The walk back from `(x, y)`: while the value is positive, step to the first
   * neighbour one step down and carve it. When no neighbour is one step down
   * the source loops forever; the model stops and reports `false`.
   */
  method WalkBack(g: array2<Tile>, sp: Values, x0: int, y0: int) returns (reached: bool, ghost path: seq<(int, int)>)
    requires sp.Length0 == g.Length0 && sp.Length1 == g.Length1
    requires InGrid(g, x0, y0) && sp[y0, x0].Some?
    modifies g
    ensures WalkOf(DSnap(sp), path) && (reached <==> EndsAtZero(DSnap(sp), path))
    ensures path[0] == (x0, y0)
    ensures Snap(g) == CarveAt(old(Snap(g)), path[1..])
  {
    ghost var t, v := Snap(g), DSnap(sp);
    var x, y := x0, y0;
    var distance := sp[y, x].value;
    assert v[y][x] == sp[y, x];
    path := [(x, y)];
    assert path[1..] == [];
    reached := true;
    while distance > 0 && reached
      invariant DSnap(sp) == v && Walking(v, t, Snap(g), path, x, y, distance) && path[0] == (x0, y0)
      invariant !reached ==> distance > 0 && FirstDown(v, x, y, distance) == None
      decreases distance, reached
    {
      reached, x, y, distance, path := WalkTurn(g, sp, v, t, x, y, distance, path);
    }
    WalkingDone(v, t, Snap(g), path, x, y, distance);
  }

  /** A walk that stops at value 0, or where no neighbour is one step down, is a whole walk back. */
  lemma WalkingDone(v: Dists, t: Grid, cur: Grid, path: seq<(int, int)>, x: int, y: int, distance: nat)
    requires Walking(v, t, cur, path, x, y, distance) && (distance == 0 || FirstDown(v, x, y, distance) == None)
    ensures WalkOf(v, path) && (EndsAtZero(v, path) <==> distance == 0)
  {
  }

  lemma TailAppend<T>(p: seq<T>, c: T)
    requires |p| >= 1
    ensures (p + [c])[1..] == p[1..] + [c]
  {
  }

  /** Carving the cells of `a` and then those of `b` is carving the cells of `a + b`. */
  lemma CarveAtConcat(t: Grid, a: seq<(int, int)>, b: seq<(int, int)>)
    ensures CarveAt(CarveAt(t, a), b) == CarveAt(t, a + b)
  {
    var l, r := CarveAt(CarveAt(t, a), b), CarveAt(t, a + b);
    forall y | 0 <= y < |t| ensures l[y] == r[y] {
      forall x | 0 <= x < |t[y]| ensures l[y][x] == r[y][x] {
        assert InBounds(t, x, y) && InBounds(CarveAt(t, a), x, y);
        assert (x, y) in a + b <==> (x, y) in a || (x, y) in b;
      }
    }
  }

  /** A carved cell is floor. */
  lemma CarvedFloor(t: Grid, carved: seq<(int, int)>, c: (int, int))
    requires c in carved && InBounds(t, c.0, c.1)
    ensures CarveAt(t, carved)[c.1][c.0].floor
  {
  }

  /**
   * A hallway from room `r` to room `i`: a path of adjacent cells of the grid
   * that starts on a tile of room `r` and ends on a tile of room `i`.
   */
  ghost predicate Corridor(t: Grid, i: nat, r: nat, p: seq<(int, int)>)
  {
    && |p| >= 1
    && (forall m :: 0 <= m < |p| ==> InBounds(t, p[m].0, p[m].1))
    && (forall m :: 0 <= m < |p| - 1 ==> Labeling.Adjacent(p[m].0, p[m].1, p[m + 1].0, p[m + 1].1))
    && t[p[0].1][p[0].0].room == r && t[p[|p| - 1].1][p[|p| - 1].0].room == i
  }

  /** The hallways made so far, one per target in order, each carved past its first cell. */
  ghost predicate CorridorsMade(t: Grid, i: nat, targets: seq<nat>, corridors: seq<seq<(int, int)>>, carved: seq<(int, int)>)
  {
    && |corridors| <= |targets|
    && (forall k :: 0 <= k < |corridors| ==> Corridor(t, i, targets[k], corridors[k]))
    && forall k, m :: 0 <= k < |corridors| && 1 <= m < |corridors[k]| ==> corridors[k][m] in carved
  }

  /** More carving keeps the hallways made so far. */
  lemma HallwaysCarve(t: Grid, i: nat, targets: seq<nat>, corridors: seq<seq<(int, int)>>, carved: seq<(int, int)>,
                      more: seq<(int, int)>)
    requires CorridorsMade(t, i, targets, corridors, carved)
    ensures CorridorsMade(t, i, targets, corridors, carved + more)
  {
  }

  /** A hallway to the next target, carved past its first cell, extends the hallways made so far. */
  lemma HallwaysExtend(t: Grid, i: nat, targets: seq<nat>, corridors: seq<seq<(int, int)>>, carved: seq<(int, int)>,
                       path: seq<(int, int)>)
    requires CorridorsMade(t, i, targets, corridors, carved) && |corridors| < |targets|
    requires Corridor(t, i, targets[|corridors|], path)
    ensures CorridorsMade(t, i, targets, corridors + [path], carved + path[1..])
  {
    var cs, cv := corridors + [path], carved + path[1..];
    forall k, m | 0 <= k < |cs| && 1 <= m < |cs[k]| ensures cs[k][m] in cv {
      if k < |corridors| {
        assert cs[k][m] in carved;
      } else {
        assert cs[k][m] == path[1..][m - 1];
      }
    }
  }

  /** The values after a search from room `i`: all finite, 0 exactly on the tiles of room `i`. */
  ghost predicate Settled(t: Grid, v: Dists, i: nat)
    requires SameShape(t, v)
  {
    forall y, x :: InBounds(t, x, y) ==> v[y][x].Some? && (v[y][x].value == 0 <==> t[y][x].room == i)
  }

  /** A walk down the values that reaches 0 is a hallway into room `i`. */
  lemma WalkCorridor(t: Grid, v: Dists, i: nat, r: nat, p: seq<(int, int)>)
    requires SameShape(t, v) && Descends(v, p) && Settled(t, v, i)
    requires v[p[|p| - 1].1][p[|p| - 1].0] == Some(0) && t[p[0].1][p[0].0].room == r
    ensures Corridor(t, i, r, p)
  {
    var (lx, ly) := p[|p| - 1];
    assert InBounds(t, lx, ly);
  }

  /**
   * The hallway to the target whose entry is `stat`: the walk back from the
   * entry's tile, on the grid `t` carved at `carved` so far.
   */
  method Hallway(g: array2<Tile>, sp: Values, ghost t: Grid, ghost v: Dists, i: nat, r: nat, stat: TargetStat,
                 ghost carved: seq<(int, int)>) returns (reached: bool, ghost path: seq<(int, int)>)
    requires sp.Length0 == g.Length0 && sp.Length1 == g.Length1 && DSnap(sp) == v
    requires SameShape(t, v) && Settled(t, v, i) && Snap(g) == CarveAt(t, carved)
    requires InBounds(t, stat.x, stat.y) && t[stat.y][stat.x].room == r
    modifies g
    ensures WalkOf(v, path) && (reached <==> EndsAtZero(v, path))
    ensures path[0] == (stat.x, stat.y) && Snap(g) == CarveAt(t, carved + path[1..])
    ensures reached ==> Corridor(t, i, r, path)
  {
    reached, path := WalkBack(g, sp, stat.x, stat.y);
    CarveAtConcat(t, carved, path[1..]);
    if reached {
      WalkCorridor(t, v, i, r, path);
    }
  }

  /** The cells of the walks past their first, walk after walk. */
  function Tails(walks: seq<seq<(int, int)>>): seq<(int, int)>
  {
    if walks == [] then []
    else Tails(walks[..|walks| - 1]) + (if walks[|walks| - 1] == [] then [] else walks[|walks| - 1][1..])
  }

  lemma TailsAppend(walks: seq<seq<(int, int)>>, w: seq<(int, int)>)
    requires w != []
    ensures Tails(walks + [w]) == Tails(walks) + w[1..]
  {
    assert (walks + [w])[..|walks|] == walks;
  }

  /** Walk `k` starts at the entry of target `targets[k]` and is the walk back from there. */
  ghost predicate WalksFrom(v: Dists, tsv: seq<TargetStat>, targets: seq<nat>, walks: seq<seq<(int, int)>>)
  {
    && |walks| <= |targets|
    && forall k :: 0 <= k < |walks| ==>
         && targets[k] < |tsv| && tsv[targets[k]].minDistance.Some?
         && walks[k] != [] && walks[k][0] == (tsv[targets[k]].x, tsv[targets[k]].y)
         && WalkOf(v, walks[k])
  }

  /**
   * The walks back of one room, given the values `v` and the entries `tsv`
   * of its search: one per target in order, each reaching 0, until the
   * outcome; a stuck walk is the last one.
   */
  ghost predicate Walked(v: Dists, tsv: seq<TargetStat>, targets: seq<nat>, outcome: Outcome, walks: seq<seq<(int, int)>>)
  {
    && WalksFrom(v, tsv, targets, walks)
    && (forall k :: 0 <= k < |walks| && !(outcome.Stuck? && k == |walks| - 1) ==> EndsAtZero(v, walks[k]))
    && match outcome
       case Connected => |walks| == |targets|
       case MissingTarget(r) =>
         |walks| < |targets| && r == targets[|walks|] && r < |tsv| && tsv[r].minDistance.None?
       case Stuck(r) => |walks| >= 1 && r == targets[|walks| - 1] && !EndsAtZero(v, walks[|walks| - 1])
  }

  /** The walks that made hallways: all but a stuck last one. */
  function Made(outcome: Outcome, walks: seq<seq<(int, int)>>): seq<seq<(int, int)>>
  {
    if outcome.Stuck? && walks != [] then walks[..|walks| - 1] else walks
  }

  /** For the same values and entries, the walks and the outcome are fixed: the model leaves no choice. */
  lemma WalkedUnique(v: Dists, tsv: seq<TargetStat>, targets: seq<nat>, o1: Outcome, w1: seq<seq<(int, int)>>,
                     o2: Outcome, w2: seq<seq<(int, int)>>)
    requires Walked(v, tsv, targets, o1, w1) && Walked(v, tsv, targets, o2, w2)
    ensures o1 == o2 && w1 == w2
  {
    var n := if |w1| <= |w2| then |w1| else |w2|;
    forall k | 0 <= k < n ensures w1[k] == w2[k] {
      WalkUnique(v, w1[k], w2[k]);
    }
    WalkedNotShorter(v, tsv, targets, o1, w1, o2, w2);
    WalkedNotShorter(v, tsv, targets, o2, w2, o1, w1);
  }

  /** Walks that agree so far cannot stop while the other goes on. */
  lemma WalkedNotShorter(v: Dists, tsv: seq<TargetStat>, targets: seq<nat>, o1: Outcome, w1: seq<seq<(int, int)>>,
                         o2: Outcome, w2: seq<seq<(int, int)>>)
    requires Walked(v, tsv, targets, o1, w1) && Walked(v, tsv, targets, o2, w2)
    requires forall k :: 0 <= k < |w1| && k < |w2| ==> w1[k] == w2[k]
    ensures |w1| >= |w2|
  {
  }

  /**
   * How the hallways of one room end: all made, or the source's failure for
   * target `room` — an entry of `targetStats` never set (the source throws)
   * or a walk back with no next cell (the source loops forever).
   */
  datatype Outcome = Connected | MissingTarget(room: nat) | Stuck(room: nat)

  /**
   * What the search from room `i`'s tile `(sx, sy)` leaves: values of the
   * grid's shape, 0 exactly on room `i`, and `n` entries, each the least-valued
   * tile of its room when set; every room with a tile other than `(sx, sy)`
   * has its entry set.
   */
  ghost predicate Searched(t: Grid, v: Dists, tsv: seq<TargetStat>, i: nat, sx: int, sy: int, n: nat)
  {
    && SameShape(t, v) && Settled(t, v, i) && |tsv| == n && IdsBelow(t, n) && TargetsValid(t, v, tsv)
    && forall y, x :: InBounds(t, x, y) && (x, y) != (sx, sy) ==> tsv[t[y][x].room].minDistance.Some?
  }

  /**
   * The hallways of room `i`, whose last tile is `(sx, sy)`: when it has
   * targets, one search from that tile, then a walk back from the nearest tile
   * of each target in turn. Exactly the cells of the walks past their first
   * are carved, so every room id is kept; every hallway made joins its target
   * to room `i` and is floor at the end; a target whose entry stays unset has
   * no tile but possibly the source tile.
   */
  method ConnectRoom(g: array2<Tile>, i: nat, targets: seq<nat>, sx: int, sy: int, n: nat)
    returns (outcome: Outcome, ghost corridors: seq<seq<(int, int)>>, ghost carved: seq<(int, int)>,
             ghost v: Dists, ghost tsv: seq<TargetStat>, ghost walks: seq<seq<(int, int)>>)
    requires InGrid(g, sx, sy) && g[sy, sx].room == i && IdsBelow(Snap(g), n)
    requires forall k :: 0 <= k < |targets| ==> targets[k] < n
    modifies g
    ensures |targets| == 0 ==> outcome == Connected && walks == []
    ensures |targets| > 0 ==> Searched(old(Snap(g)), v, tsv, i, sx, sy, n)
    ensures RoomDone(old(Snap(g)), v, tsv, i, targets, outcome, corridors, carved, walks)
    ensures Snap(g) == CarveAt(old(Snap(g)), carved)
    ensures outcome.MissingTarget? ==>
      forall y, x :: InBounds(old(Snap(g)), x, y) && old(Snap(g))[y][x].room == outcome.room ==> (x, y) == (sx, sy)
  {
    ghost var t := Snap(g);
    outcome, corridors, carved, v, tsv, walks := Connected, [], [], [], [], [];
    if |targets| == 0 {
      assert CarveAt(t, []) == t;
      return;
    }
    var sp, ts := Explore(g, i, sx, sy, n);
    v, tsv := DSnap(sp), ts[..];
    outcome, corridors, carved, walks := MakeHallways(g, sp, ts, t, v, tsv, i, targets);
  }

  /** A fresh `targetStats` of `n` unset entries, then the search from `(sx, sy)`, stated over snapshots. */
  method Explore(g: array2<Tile>, i: nat, sx: int, sy: int, n: nat) returns (sp: Values, ts: array<TargetStat>)
    requires InGrid(g, sx, sy) && g[sy, sx].room == i && IdsBelow(Snap(g), n)
    ensures fresh(sp) && fresh(ts) && ts.Length == n
    ensures sp.Length0 == g.Length0 && sp.Length1 == g.Length1
    ensures SameShape(Snap(g), DSnap(sp)) && Settled(Snap(g), DSnap(sp), i) && TargetsValid(Snap(g), DSnap(sp), ts[..])
    ensures forall y, x :: InBounds(Snap(g), x, y) && (x, y) != (sx, sy) ==> ts[Snap(g)[y][x].room].minDistance.Some?
  {
    ts := new TargetStat[n](_ => Unset);
    sp := Search(g, i, sx, sy, ts);
  }

  /**
   * The hallways of room `i` are over, with `outcome`: the walks are those of
   * the values and entries, the hallways made are all but a stuck last walk,
   * and exactly the cells of the walks past their first are carved.
   */
  ghost predicate RoomDone(t: Grid, v: Dists, tsv: seq<TargetStat>, i: nat, targets: seq<nat>, outcome: Outcome,
                           corridors: seq<seq<(int, int)>>, carved: seq<(int, int)>, walks: seq<seq<(int, int)>>)
  {
    && Walked(v, tsv, targets, outcome, walks) && corridors == Made(outcome, walks)
    && carved == Tails(walks) && CorridorsMade(t, i, targets, corridors, carved)
  }

  /** The first `|walks|` targets walked, each to 0, and carved past their first cells. */
  ghost predicate MadeSoFar(t: Grid, v: Dists, tsv: seq<TargetStat>, i: nat, targets: seq<nat>,
                            walks: seq<seq<(int, int)>>, carved: seq<(int, int)>)
  {
    && WalksFrom(v, tsv, targets, walks) && (forall k :: 0 <= k < |walks| ==> EndsAtZero(v, walks[k]))
    && carved == Tails(walks) && CorridorsMade(t, i, targets, walks, carved)
  }

  /** The walk back from the next target's entry extends the walks. */
  lemma WalksFromNext(v: Dists, tsv: seq<TargetStat>, targets: seq<nat>, walks: seq<seq<(int, int)>>, path: seq<(int, int)>)
    requires WalksFrom(v, tsv, targets, walks) && |walks| < |targets|
    requires targets[|walks|] < |tsv| && tsv[targets[|walks|]].minDistance.Some?
    requires WalkOf(v, path) && path[0] == (tsv[targets[|walks|]].x, tsv[targets[|walks|]].y)
    ensures WalksFrom(v, tsv, targets, walks + [path])
  {
    var w := walks + [path];
    forall k | 0 <= k < |w|
      ensures targets[k] < |tsv| && tsv[targets[k]].minDistance.Some? && w[k] != []
      ensures w[k][0] == (tsv[targets[k]].x, tsv[targets[k]].y) && WalkOf(v, w[k])
    {
      if k < |walks| {
        assert w[k] == walks[k];
      }
    }
  }

  /** A walk back to the next target that reaches 0 and is a hallway is one more made. */
  lemma MadeNext(t: Grid, v: Dists, tsv: seq<TargetStat>, i: nat, targets: seq<nat>,
                 walks: seq<seq<(int, int)>>, carved: seq<(int, int)>, path: seq<(int, int)>)
    requires MadeSoFar(t, v, tsv, i, targets, walks, carved) && |walks| < |targets|
    requires targets[|walks|] < |tsv| && tsv[targets[|walks|]].minDistance.Some?
    requires WalkOf(v, path) && path[0] == (tsv[targets[|walks|]].x, tsv[targets[|walks|]].y) && EndsAtZero(v, path)
    requires Corridor(t, i, targets[|walks|], path)
    ensures MadeSoFar(t, v, tsv, i, targets, walks + [path], carved + path[1..])
  {
    WalksFromNext(v, tsv, targets, walks, path);
    TailsAppend(walks, path);
    HallwaysExtend(t, i, targets, walks, carved, path);
  }

  /** A walk back that does not reach 0 ends the hallways of the room, stuck. */
  lemma MadeStuck(t: Grid, v: Dists, tsv: seq<TargetStat>, i: nat, targets: seq<nat>,
                  walks: seq<seq<(int, int)>>, carved: seq<(int, int)>, path: seq<(int, int)>)
    requires MadeSoFar(t, v, tsv, i, targets, walks, carved) && |walks| < |targets|
    requires targets[|walks|] < |tsv| && tsv[targets[|walks|]].minDistance.Some?
    requires WalkOf(v, path) && path[0] == (tsv[targets[|walks|]].x, tsv[targets[|walks|]].y) && !EndsAtZero(v, path)
    ensures RoomDone(t, v, tsv, i, targets, Stuck(targets[|walks|]), walks, carved + path[1..], walks + [path])
  {
    var w := walks + [path];
    WalksFromNext(v, tsv, targets, walks, path);
    forall k | 0 <= k < |w| - 1 ensures EndsAtZero(v, w[k]) {
      assert w[k] == walks[k];
    }
    TailsAppend(walks, path);
    HallwaysCarve(t, i, targets, walks, carved, path[1..]);
    assert w[..|walks|] == walks;
  }

  /** Between the walks made so far and the missing entry of the next target, the walks are settled. */
  lemma MadeMissing(t: Grid, v: Dists, tsv: seq<TargetStat>, i: nat, targets: seq<nat>,
                    walks: seq<seq<(int, int)>>, carved: seq<(int, int)>)
    requires MadeSoFar(t, v, tsv, i, targets, walks, carved) && |walks| < |targets|
    requires targets[|walks|] < |tsv| && tsv[targets[|walks|]].minDistance.None?
    ensures RoomDone(t, v, tsv, i, targets, MissingTarget(targets[|walks|]), walks, carved, walks)
  {
  }

  /** With every target walked to 0, the room is connected. */
  lemma MadeAll(t: Grid, v: Dists, tsv: seq<TargetStat>, i: nat, targets: seq<nat>,
                walks: seq<seq<(int, int)>>, carved: seq<(int, int)>)
    requires MadeSoFar(t, v, tsv, i, targets, walks, carved) && |walks| == |targets|
    ensures RoomDone(t, v, tsv, i, targets, Connected, walks, carved, walks)
  {
  }

  /**
   * The hallway to the next target, the `|walks|`-th: stop at an unset entry
   * or a stuck walk, otherwise walk back and carve it.
   */
  method NextHallway(g: array2<Tile>, sp: Values, ts: array<TargetStat>, ghost t: Grid, ghost v: Dists,
                     ghost tsv: seq<TargetStat>, i: nat, targets: seq<nat>, k: nat,
                     ghost walks: seq<seq<(int, int)>>, ghost carved: seq<(int, int)>)
    returns (outcome: Outcome, ghost walks': seq<seq<(int, int)>>, ghost carved': seq<(int, int)>)
    requires sp.Length0 == g.Length0 && sp.Length1 == g.Length1 && DSnap(sp) == v && ts[..] == tsv
    requires SameShape(t, v) && Settled(t, v, i) && TargetsValid(t, v, tsv)
    requires k == |walks| < |targets| && targets[k] < |tsv|
    requires MadeSoFar(t, v, tsv, i, targets, walks, carved) && Snap(g) == CarveAt(t, carved)
    modifies g
    ensures Snap(g) == CarveAt(t, carved')
    ensures outcome.Connected? ==> |walks'| == k + 1 && MadeSoFar(t, v, tsv, i, targets, walks', carved')
    ensures !outcome.Connected? ==> RoomDone(t, v, tsv, i, targets, outcome, walks, carved', walks')
  {
    var r := targets[k];
    var stat := ts[r];
    if stat.minDistance.None? {
      MadeMissing(t, v, tsv, i, targets, walks, carved);
      return MissingTarget(r), walks, carved;
    }
    var reached, path := Hallway(g, sp, t, v, i, r, stat, carved);
    if !reached {
      MadeStuck(t, v, tsv, i, targets, walks, carved, path);
      return Stuck(r), walks + [path], carved + path[1..];
    }
    MadeNext(t, v, tsv, i, targets, walks, carved, path);
    return Connected, walks + [path], carved + path[1..];
  }

  /** The walks back to the targets in turn, after the search from room `i` left `sp` and `ts`. */
  method MakeHallways(g: array2<Tile>, sp: Values, ts: array<TargetStat>, ghost t: Grid, ghost v: Dists,
                      ghost tsv: seq<TargetStat>, i: nat, targets: seq<nat>)
    returns (outcome: Outcome, ghost corridors: seq<seq<(int, int)>>, ghost carved: seq<(int, int)>,
             ghost walks: seq<seq<(int, int)>>)
    requires sp.Length0 == g.Length0 && sp.Length1 == g.Length1 && DSnap(sp) == v
    requires Snap(g) == t && ts[..] == tsv && SameShape(t, v) && Settled(t, v, i) && TargetsValid(t, v, tsv)
    requires forall k :: 0 <= k < |targets| ==> targets[k] < |tsv|
    modifies g
    ensures RoomDone(t, v, tsv, i, targets, outcome, corridors, carved, walks)
    ensures Snap(g) == CarveAt(t, carved)
  {
    outcome, corridors, carved, walks := Connected, [], [], [];
    assert CarveAt(t, []) == t;
    for k := 0 to |targets|
      invariant Snap(g) == CarveAt(t, carved) && |walks| == k && corridors == walks && ts[..] == tsv && outcome == Connected
      invariant MadeSoFar(t, v, tsv, i, targets, walks, carved)
    {
      outcome, walks, carved := NextHallway(g, sp, ts, t, v, tsv, i, targets, k, walks, carved);
      if !outcome.Connected? {
        return;
      }
      corridors := walks;
    }
    MadeAll(t, v, tsv, i, targets, walks, carved);
  }
}
