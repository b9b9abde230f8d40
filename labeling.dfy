/**
 * Connected-component labeling of the floor tiles (`generateTiles`, the
 * depth-first search with an explicit stack). Cells are scanned column by
 * column; every floor tile still in room 0 starts a new room id and a search
 * that gives that id to its whole 4-connected floor region.
 *
 * The search is proved over snapshots of the grid (`Tiles.Snap`): each round
 * pops a cell, gives it the new id and pushes its unlabeled floor neighbours.
 */
module Labeling {
  import opened Tiles

  /** The neighbours in the order the source pushes them: +x, -y, -x, +y. */
  function Neighbours(x: int, y: int): (ns: seq<(int, int)>)
    ensures |ns| == 4
    ensures forall d :: 0 <= d < 4 ==> Adjacent(x, y, ns[d].0, ns[d].1)
  {
    [(x + 1, y), (x, y - 1), (x - 1, y), (x, y + 1)]
  }

  predicate Adjacent(x: int, y: int, nx: int, ny: int)
  {
    (nx == x + 1 && ny == y) || (nx == x && ny == y - 1) || (nx == x - 1 && ny == y) || (nx == x && ny == y + 1)
  }

  /** A floor tile that no search has reached yet. */
  predicate Unlabeled(t: Grid, c: (int, int))
  {
    InBounds(t, c.0, c.1) && t[c.1][c.0].floor && t[c.1][c.0].room == 0
  }

  /** The neighbour `(nx, ny)` of `(x, y)` is off the grid, not floor, in the same room, or pending. */
  predicate Agrees(t: Grid, x: int, y: int, nx: int, ny: int, pending: seq<(int, int)>)
    requires InBounds(t, x, y)
  {
    !InBounds(t, nx, ny) || !t[ny][nx].floor || t[ny][nx].room == t[y][x].room || (nx, ny) in pending
  }

  /** Every floor neighbour of `(x, y)` has its room, or is pending. */
  predicate AgreesAll(t: Grid, x: int, y: int, pending: seq<(int, int)>)
    requires InBounds(t, x, y)
  {
    Agrees(t, x, y, x + 1, y, pending) && Agrees(t, x, y, x, y - 1, pending)
    && Agrees(t, x, y, x - 1, y, pending) && Agrees(t, x, y, x, y + 1, pending)
  }

  /** `p` is a walk over in-grid floor tiles, each step to a 4-neighbour. */
  ghost predicate FloorPath(t: Grid, p: seq<(int, int)>)
  {
    && |p| >= 1
    && (forall q :: 0 <= q < |p| ==> InBounds(t, p[q].0, p[q].1) && t[p[q].1][p[q].0].floor)
    && forall q :: 0 <= q < |p| - 1 ==> Adjacent(p[q].0, p[q].1, p[q + 1].0, p[q + 1].1)
  }

  /** `b` is reached from `a` by a walk over floor tiles. */
  ghost predicate Reach(t: Grid, a: (int, int), b: (int, int))
  {
    exists p :: FloorPath(t, p) && p[0] == a && p[|p| - 1] == b
  }

  lemma ReachSelf(t: Grid, a: (int, int))
    requires InBounds(t, a.0, a.1) && t[a.1][a.0].floor
    ensures Reach(t, a, a)
  {
    assert FloorPath(t, [a]);
  }

  /** A walk to `b` extends to a floor neighbour `c` of `b`. */
  lemma ReachStep(t: Grid, a: (int, int), b: (int, int), c: (int, int))
    requires Reach(t, a, b) && InBounds(t, c.0, c.1) && t[c.1][c.0].floor && Adjacent(b.0, b.1, c.0, c.1)
    ensures Reach(t, a, c)
  {
    var p: seq<(int, int)> :| FloorPath(t, p) && p[0] == a && p[|p| - 1] == b;
    var p' := p + [c];
    assert forall q :: 0 <= q < |p| ==> p'[q] == p[q];
    assert FloorPath(t, p');
  }

  /** Walks do not depend on room ids. */
  lemma ReachSame(o: Grid, t: Grid, a: (int, int), b: (int, int))
    requires SameTiles(o, t) && Reach(o, a, b)
    ensures Reach(t, a, b)
  {
    var p: seq<(int, int)> :| FloorPath(o, p) && p[0] == a && p[|p| - 1] == b;
    forall q | 0 <= q < |p| ensures InBounds(t, p[q].0, p[q].1) && t[p[q].1][p[q].0].floor {
      assert o[p[q].1][p[q].0].floor;
    }
    assert FloorPath(t, p);
  }

  /** A walk read backwards is a walk. */
  lemma ReachBack(t: Grid, a: (int, int), b: (int, int))
    requires Reach(t, a, b)
    ensures Reach(t, b, a)
  {
    var p: seq<(int, int)> :| FloorPath(t, p) && p[0] == a && p[|p| - 1] == b;
    var r := seq(|p|, q requires 0 <= q < |p| => p[|p| - 1 - q]);
    forall q | 0 <= q < |r| - 1 ensures Adjacent(r[q].0, r[q].1, r[q + 1].0, r[q + 1].1) {
      assert r[q] == p[|p| - 1 - q] && r[q + 1] == p[|p| - 2 - q];
      assert Adjacent(p[|p| - 2 - q].0, p[|p| - 2 - q].1, p[|p| - 1 - q].0, p[|p| - 1 - q].1);
    }
    assert FloorPath(t, r);
  }

  /** Two walks that meet make one walk. */
  lemma ReachJoin(t: Grid, a: (int, int), b: (int, int), c: (int, int))
    requires Reach(t, a, b) && Reach(t, b, c)
    ensures Reach(t, a, c)
  {
    var p: seq<(int, int)> :| FloorPath(t, p) && p[0] == a && p[|p| - 1] == b;
    var s: seq<(int, int)> :| FloorPath(t, s) && s[0] == b && s[|s| - 1] == c;
    var j := p + s[1..];
    assert forall q :: 0 <= q < |p| ==> j[q] == p[q];
    assert forall q :: |p| <= q < |j| ==> j[q] == s[q - |p| + 1];
    forall q | 0 <= q < |j| - 1 ensures Adjacent(j[q].0, j[q].1, j[q + 1].0, j[q + 1].1) {
      if q == |p| - 1 {
        assert j[q] == s[0] && j[q + 1] == s[1];
      }
    }
    assert FloorPath(t, j);
  }

  /** Along a walk that starts on a labeled tile of a closed labeling, every tile has that tile's id. */
  lemma {:induction false} WalkOneRoom(t: Grid, p: seq<(int, int)>, n: nat)
    requires LabelsClosed(t) && FloorPath(t, p) && t[p[0].1][p[0].0].room != 0 && n < |p|
    ensures t[p[n].1][p[n].0].room == t[p[0].1][p[0].0].room
  {
    if n > 0 {
      WalkOneRoom(t, p, n - 1);
      var (x, y) := p[n - 1];
      assert AgreesAll(t, x, y, []);
      assert Adjacent(x, y, p[n].0, p[n].1);
    }
  }

  /** Labeled floor tiles whose floor neighbours all carry the same id. */
  ghost predicate LabelsClosed(t: Grid)
  {
    forall y, x :: InBounds(t, x, y) && t[y][x].floor && t[y][x].room != 0 ==> AgreesAll(t, x, y, [])
  }

  /** The tiles of `ns` that are unlabeled floor, in order. */
  function UnlabeledOf(t: Grid, ns: seq<(int, int)>): (r: seq<(int, int)>)
    ensures |r| <= |ns|
    ensures forall m :: m in r ==> m in ns && Unlabeled(t, m)
    ensures forall i :: 0 <= i < |ns| && Unlabeled(t, ns[i]) ==> ns[i] in r
  {
    if ns == [] then []
    else
      var last := ns[|ns| - 1];
      UnlabeledOf(t, ns[..|ns| - 1]) + (if Unlabeled(t, last) then [last] else [])
  }

  lemma {:induction false} NoneUnlabeled(t: Grid, ns: seq<(int, int)>)
    requires forall i :: 0 <= i < |ns| ==> !Unlabeled(t, ns[i])
    ensures UnlabeledOf(t, ns) == []
  {
    if ns != [] {
      NoneUnlabeled(t, ns[..|ns| - 1]);
    }
  }

  /** The inner loop over `neighborCoordinates`: pushes the neighbours that are unlabeled floor. */
  method PushUnlabeled(g: array2<Tile>, stack: seq<(int, int)>, x: int, y: int) returns (s: seq<(int, int)>)
    ensures s == stack + UnlabeledOf(Snap(g), Neighbours(x, y))
  {
    var ns := Neighbours(x, y);
    s := stack;
    for d := 0 to 4
      invariant s == stack + UnlabeledOf(Snap(g), ns[..d])
    {
      var n := ns[d];
      assert ns[..d + 1][..d] == ns[..d];
      if 0 <= n.0 < g.Length1 && 0 <= n.1 < g.Length0 {
        if g[n.1, n.0].floor && g[n.1, n.0].room == 0 {
          s := s + [n];
        }
      }
    }
    assert ns[..4] == ns;
  }

  /** Every cell kept its tile, or was an unlabeled floor tile that now carries id `k`. */
  ghost predicate OnlyLabeled(o: Grid, t: Grid, k: nat)
  {
    && |t| == |o| && (forall y :: 0 <= y < |o| ==> |t[y]| == |o[y]|)
    && forall y, x :: InBounds(o, x, y) ==>
         t[y][x] == o[y][x] || (o[y][x].floor && o[y][x].room == 0 && t[y][x] == o[y][x].(room := k))
  }

  /** A stack entry: an in-grid floor tile with room 0 or the id being assigned. */
  predicate OnStack(t: Grid, k: nat, c: (int, int))
  {
    InBounds(t, c.0, c.1) && t[c.1][c.0].floor && (t[c.1][c.0].room == 0 || t[c.1][c.0].room == k)
  }

  /** Ids stay at most `k`, and only floor tiles carry one. */
  ghost predicate Bounded(t: Grid, k: nat)
  {
    forall y, x :: InBounds(t, x, y) ==> t[y][x].room <= k && (!t[y][x].floor ==> t[y][x].room == 0)
  }

  ghost predicate StackOk(t: Grid, k: nat, stack: seq<(int, int)>)
  {
    forall q :: 0 <= q < |stack| ==> OnStack(t, k, stack[q])
  }

  /** The regions with ids below `k` are closed. */
  ghost predicate LowerClosed(t: Grid, k: nat)
  {
    forall y, x :: InBounds(t, x, y) && t[y][x].floor && 0 < t[y][x].room < k ==> AgreesAll(t, x, y, [])
  }

  /** Every tile with id `k` has its floor neighbours in room `k` or on the stack. */
  ghost predicate LabeledAgree(t: Grid, k: nat, stack: seq<(int, int)>)
  {
    forall y, x :: InBounds(t, x, y) && t[y][x].floor && t[y][x].room == k ==> AgreesAll(t, x, y, stack)
  }

  /** A stack entry with id `k` has its floor neighbours in room `k` or above its own entry. */
  ghost predicate AboveAgree(t: Grid, k: nat, stack: seq<(int, int)>)
  {
    forall q :: 0 <= q < |stack| && OnStack(t, k, stack[q]) && t[stack[q].1][stack[q].0].room == k ==>
      AgreesAll(t, stack[q].0, stack[q].1, stack[q + 1..])
  }

  /**
   * The invariant of the search for id `k` started at `(sx, sy)`: the start tile is
   * labeled or pending, and the parts above hold.
   */
  ghost predicate SearchInv(t: Grid, k: nat, sx: int, sy: int, stack: seq<(int, int)>)
  {
    && InBounds(t, sx, sy) && (t[sy][sx].room == k || (sx, sy) in stack)
    && Bounded(t, k) && StackOk(t, k, stack) && LowerClosed(t, k)
    && LabeledAgree(t, k, stack) && AboveAgree(t, k, stack)
  }

  /** The grid with the room of tile `e` set to `k`. */
  function Relabel(t: Grid, e: (int, int), k: nat): (r: Grid)
    requires InBounds(t, e.0, e.1)
    ensures |r| == |t| && forall y :: 0 <= y < |t| ==> |r[y]| == |t[y]|
    ensures r[e.1][e.0] == t[e.1][e.0].(room := k)
    ensures forall y, x :: InBounds(t, x, y) && (x, y) != e ==> r[y][x] == t[y][x]
  {
    t[e.1 := t[e.1][e.0 := t[e.1][e.0].(room := k)]]
  }

  /** One neighbour relation of a tile whose room is `k` before and after labeling `e` survives. */
  lemma AgreeKept(o: Grid, t: Grid, e: (int, int), k: nat, x: int, y: int, nx: int, ny: int,
                  oldPending: seq<(int, int)>, newPending: seq<(int, int)>)
    requires InBounds(o, e.0, e.1) && t == Relabel(o, e, k)
    requires InBounds(o, x, y) && o[y][x].room == k
    requires Agrees(o, x, y, nx, ny, oldPending)
    requires forall m :: m in oldPending ==> m == e || m in newPending
    ensures Agrees(t, x, y, nx, ny, newPending)
  {
    assert t[y][x].room == k;
    if InBounds(o, nx, ny) && (nx, ny) != e {
      assert t[ny][nx] == o[ny][nx];
    }
  }

  /** All four neighbour relations of a tile whose room is `k` survive labeling `e`. */
  lemma AllKept(o: Grid, t: Grid, e: (int, int), k: nat, c: (int, int),
                oldPending: seq<(int, int)>, newPending: seq<(int, int)>)
    requires InBounds(o, e.0, e.1) && t == Relabel(o, e, k)
    requires InBounds(o, c.0, c.1) && o[c.1][c.0].room == k
    requires AgreesAll(o, c.0, c.1, oldPending)
    requires forall m :: m in oldPending ==> m == e || m in newPending
    ensures AgreesAll(t, c.0, c.1, newPending)
  {
    AgreeKept(o, t, e, k, c.0, c.1, c.0 + 1, c.1, oldPending, newPending);
    AgreeKept(o, t, e, k, c.0, c.1, c.0, c.1 - 1, oldPending, newPending);
    AgreeKept(o, t, e, k, c.0, c.1, c.0 - 1, c.1, oldPending, newPending);
    AgreeKept(o, t, e, k, c.0, c.1, c.0, c.1 + 1, oldPending, newPending);
  }

  /** A tile with a lower id keeps agreeing with a neighbour when `e`, which had room 0 or `k`, is labeled. */
  lemma LowerKept(o: Grid, t: Grid, e: (int, int), k: nat, x: int, y: int, nx: int, ny: int)
    requires OnStack(o, k, e) && t == Relabel(o, e, k)
    requires InBounds(o, x, y) && (x, y) != e && 0 < o[y][x].room < k
    requires Agrees(o, x, y, nx, ny, [])
    ensures Agrees(t, x, y, nx, ny, [])
  {
    assert t[y][x] == o[y][x];
    if InBounds(o, nx, ny) && (nx, ny) != e {
      assert t[ny][nx] == o[ny][nx];
    }
  }

  /** Everything pending below the popped top stays pending. */
  lemma PendingKept<T>(oldPending: seq<T>, newPending: seq<T>, top: T)
    requires 1 <= |oldPending| && oldPending[|oldPending| - 1] == top
    requires |oldPending| - 1 <= |newPending| && newPending[..|oldPending| - 1] == oldPending[..|oldPending| - 1]
    ensures forall m :: m in oldPending ==> m == top || m in newPending
  {
    forall m | m in oldPending ensures m == top || m in newPending {
      var i :| 0 <= i < |oldPending| && oldPending[i] == m;
      if i < |oldPending| - 1 {
        assert newPending[..|oldPending| - 1][i] == m;
      }
    }
  }

  /**
   * One round of the search, from grid `o` to grid `t`: `e` was the top of
   * `before`, its room became `k`, and `after` is the rest of `before` followed
   * by the unlabeled neighbours of `e`.
   */
  ghost predicate PopStep(o: Grid, t: Grid, k: nat, before: seq<(int, int)>, e: (int, int), after: seq<(int, int)>)
  {
    && before != [] && e == before[|before| - 1] && k >= 1
    && OnStack(o, k, e) && Bounded(o, k)
    && t == Relabel(o, e, k)
    && after == before[..|before| - 1] + UnlabeledOf(t, Neighbours(e.0, e.1))
  }

  /** The facts about the pushed part of the stack that the lemmas below use. */
  lemma PopPushed(o: Grid, t: Grid, k: nat, before: seq<(int, int)>, e: (int, int), after: seq<(int, int)>)
    requires PopStep(o, t, k, before, e, after)
    ensures |before| - 1 <= |after| && after[..|before| - 1] == before[..|before| - 1]
    ensures forall q :: |before| - 1 <= q < |after| ==> Unlabeled(t, after[q]) && Adjacent(e.0, e.1, after[q].0, after[q].1)
    ensures forall d :: 0 <= d < 4 && Unlabeled(t, Neighbours(e.0, e.1)[d]) ==> Neighbours(e.0, e.1)[d] in after[|before| - 1..]
  {
    var L := |before|;
    var pushed := UnlabeledOf(t, Neighbours(e.0, e.1));
    assert after[L - 1..] == pushed;
    forall q | L - 1 <= q < |after| ensures Unlabeled(t, after[q]) && Adjacent(e.0, e.1, after[q].0, after[q].1) {
      assert after[q] == pushed[q - (L - 1)];
      assert after[q] in pushed;
    }
  }

  /** A neighbour of the popped `e` did not change and never carries a lower id. */
  lemma NeighbourNotLower(o: Grid, t: Grid, k: nat, e: (int, int), n: (int, int))
    requires OnStack(o, k, e) && t == Relabel(o, e, k) && Adjacent(e.0, e.1, n.0, n.1)
    requires LowerClosed(o, k) && Bounded(o, k)
    ensures InBounds(t, n.0, n.1) ==> t[n.1][n.0] == o[n.1][n.0]
    ensures InBounds(t, n.0, n.1) && t[n.1][n.0].floor ==> t[n.1][n.0].room == 0 || t[n.1][n.0].room == k
  {
    if InBounds(t, n.0, n.1) {
      assert n != e;
      assert t[n.1][n.0] == o[n.1][n.0];
      assert o[n.1][n.0].room <= k;
      assert o[n.1][n.0].floor && 0 < o[n.1][n.0].room < k ==> AgreesAll(o, n.0, n.1, []);
    }
  }

  /** A tile popped a second time is surrounded by labeled tiles: nothing is pushed. */
  lemma PopRepeated(o: Grid, t: Grid, k: nat, before: seq<(int, int)>, e: (int, int), after: seq<(int, int)>)
    requires PopStep(o, t, k, before, e, after) && LowerClosed(o, k) && AboveAgree(o, k, before)
    requires o[e.1][e.0].room == k
    ensures after == before[..|before| - 1]
  {
    var L := |before|;
    var ns := Neighbours(e.0, e.1);
    assert AgreesAll(o, e.0, e.1, before[L..]);
    assert before[L..] == [];
    forall i | 0 <= i < |ns| ensures !Unlabeled(t, ns[i]) {
      NeighbourNotLower(o, t, k, e, ns[i]);
    }
    NoneUnlabeled(t, ns);
  }

  /** The popped tile agrees with everything pending above any position up to the old top. */
  lemma PopTopAgrees(o: Grid, t: Grid, k: nat, before: seq<(int, int)>, e: (int, int), after: seq<(int, int)>, q: int)
    requires PopStep(o, t, k, before, e, after) && LowerClosed(o, k) && 0 <= q <= |before| - 1
    ensures AgreesAll(t, e.0, e.1, after[q..])
  {
    PopPushed(o, t, k, before, e, after);
    var L := |before|;
    var ns := Neighbours(e.0, e.1);
    assert after[L - 1..] == after[q..][L - 1 - q..];
    forall d | 0 <= d < 4 ensures Agrees(t, e.0, e.1, ns[d].0, ns[d].1, after[q..]) {
      NeighbourNotLower(o, t, k, e, ns[d]);
    }
    assert Agrees(t, e.0, e.1, ns[0].0, ns[0].1, after[q..]);
    assert Agrees(t, e.0, e.1, ns[1].0, ns[1].1, after[q..]);
    assert Agrees(t, e.0, e.1, ns[2].0, ns[2].1, after[q..]);
    assert Agrees(t, e.0, e.1, ns[3].0, ns[3].1, after[q..]);
  }

  /** Closed regions with lower ids stay closed. */
  lemma PopLower(o: Grid, t: Grid, k: nat, before: seq<(int, int)>, e: (int, int), after: seq<(int, int)>)
    requires PopStep(o, t, k, before, e, after) && LowerClosed(o, k)
    ensures LowerClosed(t, k)
  {
    forall y, x | InBounds(t, x, y) && t[y][x].floor && 0 < t[y][x].room < k
      ensures AgreesAll(t, x, y, [])
    {
      assert (x, y) != e;
      assert t[y][x] == o[y][x];
      assert AgreesAll(o, x, y, []);
      LowerKept(o, t, e, k, x, y, x + 1, y);
      LowerKept(o, t, e, k, x, y, x, y - 1);
      LowerKept(o, t, e, k, x, y, x - 1, y);
      LowerKept(o, t, e, k, x, y, x, y + 1);
    }
  }

  /** Every tile with id `k` has its floor neighbours in room `k` or pending. */
  lemma PopLabeled(o: Grid, t: Grid, k: nat, before: seq<(int, int)>, e: (int, int), after: seq<(int, int)>)
    requires PopStep(o, t, k, before, e, after) && LowerClosed(o, k) && LabeledAgree(o, k, before)
    ensures LabeledAgree(t, k, after)
  {
    PopPushed(o, t, k, before, e, after);
    forall y, x | InBounds(t, x, y) && t[y][x].floor && t[y][x].room == k
      ensures AgreesAll(t, x, y, after)
    {
      if (x, y) != e {
        assert t[y][x] == o[y][x];
        assert AgreesAll(o, x, y, before);
        PendingKept(before, after, e);
        AllKept(o, t, e, k, (x, y), before, after);
      } else {
        PopTopAgrees(o, t, k, before, e, after, 0);
        assert after[0..] == after;
      }
    }
  }

  /** The entry at position `q` of the new stack, when it has id `k`, agrees with what lies above it. */
  lemma PopAboveAt(o: Grid, t: Grid, k: nat, before: seq<(int, int)>, e: (int, int), after: seq<(int, int)>, q: int)
    requires PopStep(o, t, k, before, e, after) && LowerClosed(o, k) && StackOk(o, k, before)
    requires AboveAgree(o, k, before)
    requires 0 <= q < |after| && OnStack(t, k, after[q]) && t[after[q].1][after[q].0].room == k
    ensures AgreesAll(t, after[q].0, after[q].1, after[q + 1..])
  {
    PopPushed(o, t, k, before, e, after);
    var L := |before|;
    var c := after[q];
    if q < L - 1 {
      assert c == before[..L - 1][q] == before[q];
      assert OnStack(o, k, before[q]);
      if c != e {
        assert t[c.1][c.0] == o[c.1][c.0];
        assert AgreesAll(o, c.0, c.1, before[q + 1..]);
        AboveKept(o, t, k, before, e, after, q);
      } else {
        PopTopAgrees(o, t, k, before, e, after, q + 1);
      }
    }
  }

  /** An entry below the popped top, other than it, keeps agreeing with what lies above it. */
  lemma AboveKept(o: Grid, t: Grid, k: nat, before: seq<(int, int)>, e: (int, int), after: seq<(int, int)>, q: int)
    requires before != [] && e == before[|before| - 1] && InBounds(o, e.0, e.1) && t == Relabel(o, e, k)
    requires |before| - 1 <= |after| && after[..|before| - 1] == before[..|before| - 1]
    requires 0 <= q < |before| - 1 && InBounds(o, before[q].0, before[q].1) && o[before[q].1][before[q].0].room == k
    requires AgreesAll(o, before[q].0, before[q].1, before[q + 1..])
    ensures AgreesAll(t, before[q].0, before[q].1, after[q + 1..])
  {
    var L := |before|;
    var above, was := after[q + 1..], before[q + 1..];
    forall m | 0 <= m < L - q - 2 ensures above[m] == was[m] {
      assert after[..L - 1][q + 1 + m] == before[..L - 1][q + 1 + m];
    }
    assert above[..L - q - 2] == was[..L - q - 2];
    PendingKept(before[q + 1..], after[q + 1..], e);
    AllKept(o, t, e, k, before[q], before[q + 1..], after[q + 1..]);
  }

  /** A stack entry with id `k` has its floor neighbours in room `k` or above it. */
  lemma PopAbove(o: Grid, t: Grid, k: nat, before: seq<(int, int)>, e: (int, int), after: seq<(int, int)>)
    requires PopStep(o, t, k, before, e, after) && LowerClosed(o, k) && StackOk(o, k, before)
    requires AboveAgree(o, k, before)
    ensures AboveAgree(t, k, after)
  {
    forall q | 0 <= q < |after| && OnStack(t, k, after[q]) && t[after[q].1][after[q].0].room == k
      ensures AgreesAll(t, after[q].0, after[q].1, after[q + 1..])
    {
      PopAboveAt(o, t, k, before, e, after, q);
    }
  }

  /** Stack entries stay floor tiles with room 0 or `k`, and ids stay bounded. */
  lemma PopStack(o: Grid, t: Grid, k: nat, before: seq<(int, int)>, e: (int, int), after: seq<(int, int)>)
    requires PopStep(o, t, k, before, e, after) && StackOk(o, k, before)
    ensures StackOk(t, k, after) && Bounded(t, k)
  {
    PopPushed(o, t, k, before, e, after);
    var L := |before|;
    forall q | 0 <= q < |after| ensures OnStack(t, k, after[q]) {
      if q < L - 1 {
        assert after[q] == before[..L - 1][q] == before[q];
        assert OnStack(o, k, before[q]);
        if after[q] != e {
          assert t[after[q].1][after[q].0] == o[after[q].1][after[q].0];
        }
      }
    }
    forall y, x | InBounds(t, x, y) ensures t[y][x].room <= k && (!t[y][x].floor ==> t[y][x].room == 0) {
      if (x, y) != e {
        assert t[y][x] == o[y][x];
      }
    }
  }

  /** Popping `e` from `before`, labeling it and pushing its unlabeled neighbours keeps `SearchInv`. */
  lemma PopKeepsSearchInv(o: Grid, t: Grid, k: nat, sx: int, sy: int,
                          before: seq<(int, int)>, e: (int, int), after: seq<(int, int)>)
    requires PopStep(o, t, k, before, e, after) && SearchInv(o, k, sx, sy, before)
    ensures SearchInv(t, k, sx, sy, after)
    ensures o[e.1][e.0].room == k ==> after == before[..|before| - 1]
  {
    PopLower(o, t, k, before, e, after);
    PopLabeled(o, t, k, before, e, after);
    PopAbove(o, t, k, before, e, after);
    PopStack(o, t, k, before, e, after);
    PopPushed(o, t, k, before, e, after);
    if (sx, sy) != e {
      assert t[sy][sx] == o[sy][sx];
      if (sx, sy) in before {
        assert before == before[..|before| - 1] + [e];
        assert (sx, sy) in after[..|before| - 1];
      }
    }
    if o[e.1][e.0].room == k {
      PopRepeated(o, t, k, before, e, after);
    }
  }

  /** Labeling a stack entry keeps `OnlyLabeled` with respect to the grid before the search. */
  lemma OnlyLabeledStep(start: Grid, o: Grid, k: nat, e: (int, int))
    requires OnlyLabeled(start, o, k) && OnStack(o, k, e)
    ensures OnlyLabeled(start, Relabel(o, e, k), k)
  {
    var t := Relabel(o, e, k);
    forall y, x | InBounds(start, x, y)
      ensures t[y][x] == start[y][x] || (start[y][x].floor && start[y][x].room == 0 && t[y][x] == start[y][x].(room := k))
    {
      if (x, y) != e {
        assert t[y][x] == o[y][x];
      }
    }
  }

  /** Ids below `k` only on floor tiles, and the regions they label are closed. */
  ghost predicate ReadyFor(t: Grid, k: nat)
  {
    && (forall y, x :: InBounds(t, x, y) ==> t[y][x].room < k && (!t[y][x].floor ==> t[y][x].room == 0))
    && LabelsClosed(t)
  }

  /** The search starts from a single unlabeled tile. */
  lemma SearchStart(t: Grid, k: nat, sx: int, sy: int)
    requires Unlabeled(t, (sx, sy)) && k >= 1 && ReadyFor(t, k)
    ensures SearchInv(t, k, sx, sy, [(sx, sy)])
  {
    forall y, x | InBounds(t, x, y) && t[y][x].floor && 0 < t[y][x].room < k
      ensures AgreesAll(t, x, y, [])
    {
    }
  }

  /** With an empty stack, the region with id `k` is closed too. */
  lemma SearchDone(t: Grid, k: nat, sx: int, sy: int)
    requires SearchInv(t, k, sx, sy, [])
    ensures t[sy][sx].room == k && ReadyFor(t, k + 1)
  {
    forall y, x | InBounds(t, x, y) && t[y][x].floor && t[y][x].room != 0 ensures AgreesAll(t, x, y, []) {
    }
  }

  /** Labeling `e` removes it, and only it, from the unlabeled tiles. */
  lemma UnlabeledAfter(o: Grid, e: (int, int), k: nat)
    requires InBounds(o, e.0, e.1) && k >= 1
    ensures forall c :: Unlabeled(Relabel(o, e, k), c) <==> Unlabeled(o, c) && c != e
  {
    var t := Relabel(o, e, k);
    forall c ensures Unlabeled(t, c) <==> Unlabeled(o, c) && c != e {
      if InBounds(o, c.0, c.1) && c != e {
        assert t[c.1][c.0] == o[c.1][c.0];
      }
    }
  }

  /** One round of the loop: pop the top cell, give it id `k`, push its unlabeled floor neighbours. */
  method SearchRound(g: array2<Tile>, stack: seq<(int, int)>, k: nat, ghost sx: int, ghost sy: int)
    returns (next: seq<(int, int)>)
    requires stack != [] && k >= 1 && SearchInv(Snap(g), k, sx, sy, stack)
    modifies g
    ensures OnStack(old(Snap(g)), k, stack[|stack| - 1])
    ensures Snap(g) == Relabel(old(Snap(g)), stack[|stack| - 1], k)
    ensures SearchInv(Snap(g), k, sx, sy, next)
    ensures next == stack[..|stack| - 1] + UnlabeledOf(Snap(g), Neighbours(stack[|stack| - 1].0, stack[|stack| - 1].1))
    ensures old(Snap(g))[stack[|stack| - 1].1][stack[|stack| - 1].0].room == k ==> next == stack[..|stack| - 1]
  {
    var e := stack[|stack| - 1];
    var x, y := e.0, e.1;
    ghost var o := Snap(g);
    assert OnStack(o, k, stack[|stack| - 1]);
    next := stack[..|stack| - 1];
    g[y, x] := g[y, x].(room := k);
    SnapEq(g, Relabel(o, e, k));
    next := PushUnlabeled(g, next, x, y);
    PopKeepsSearchInv(o, Snap(g), k, sx, sy, stack, e, next);
  }

  /**
   * The `while (stack.length > 0)` search started at `(sx, sy)`: gives id `k` to
   * every floor tile 4-connected to it, and to no other tile.
   */
  method FloodFill(g: array2<Tile>, sx: int, sy: int, k: nat)
    requires Unlabeled(Snap(g), (sx, sy)) && k >= 1
    requires ReadyFor(Snap(g), k)
    modifies g
    ensures OnlyLabeled(old(Snap(g)), Snap(g), k)
    ensures Snap(g)[sy][sx].room == k
    ensures ReadyFor(Snap(g), k + 1)
    ensures forall y, x :: InBounds(Snap(g), x, y) && Snap(g)[y][x].room == k ==> Reach(old(Snap(g)), (sx, sy), (x, y))
  {
    ghost var start := Snap(g);
    var stack := [(sx, sy)];
    ghost var unlabeled := set y, x | 0 <= y < g.Length0 && 0 <= x < g.Length1 && g[y, x].floor && g[y, x].room == 0 :: (x, y);
    SearchStart(start, k, sx, sy);
    ReachSelf(start, (sx, sy));
    while |stack| > 0
      invariant Filling(start, Snap(g), k, sx, sy, stack, unlabeled)
      decreases unlabeled, |stack|
    {
      ghost var o := Snap(g);
      ghost var e := stack[|stack| - 1];
      ghost var before := stack;
      stack := SearchRound(g, stack, k, sx, sy);
      FillStep(start, o, Snap(g), k, sx, sy, before, e, stack, unlabeled);
      unlabeled := unlabeled - {e};
    }
    SearchDone(Snap(g), k, sx, sy);
  }

  /** Every stack entry and every tile with id `k` is reached from the start `(sx, sy)` over the floor of `start`. */
  ghost predicate Reached(start: Grid, t: Grid, k: nat, sx: int, sy: int, stack: seq<(int, int)>)
  {
    && (forall q :: 0 <= q < |stack| ==> Reach(start, (sx, sy), stack[q]))
    && forall y, x :: InBounds(t, x, y) && t[y][x].room == k ==> Reach(start, (sx, sy), (x, y))
  }

  /** The flood fill's loop state: what is labeled so far, the stack, and the tiles still unlabeled. */
  ghost predicate Filling(start: Grid, t: Grid, k: nat, sx: int, sy: int, stack: seq<(int, int)>, unlabeled: set<(int, int)>)
  {
    && OnlyLabeled(start, t, k)
    && SearchInv(t, k, sx, sy, stack)
    && Reached(start, t, k, sx, sy, stack)
    && forall c :: c in unlabeled <==> Unlabeled(t, c)
  }

  /** The popped tile was reached, and so are the neighbours pushed after it. */
  lemma ReachedStep(start: Grid, o: Grid, t: Grid, k: nat, sx: int, sy: int,
                    before: seq<(int, int)>, e: (int, int), after: seq<(int, int)>)
    requires PopStep(o, t, k, before, e, after)
    requires OnlyLabeled(start, o, k) && Reached(start, o, k, sx, sy, before)
    ensures Reached(start, t, k, sx, sy, after)
  {
    PopPushed(o, t, k, before, e, after);
    var L := |before|;
    assert Reach(start, (sx, sy), before[L - 1]);
    forall q | 0 <= q < |after| ensures Reach(start, (sx, sy), after[q]) {
      if q < L - 1 {
        assert after[q] == before[..L - 1][q] == before[q];
      } else {
        var c := after[q];
        assert c != e && Unlabeled(t, c);
        assert t[c.1][c.0] == o[c.1][c.0];
        ReachStep(start, (sx, sy), e, c);
      }
    }
    forall y, x | InBounds(t, x, y) && t[y][x].room == k ensures Reach(start, (sx, sy), (x, y)) {
      if (x, y) != e {
        assert t[y][x] == o[y][x];
      }
    }
  }

  /** A round keeps the loop state and labels the popped tile or shrinks the stack. */
  lemma FillStep(start: Grid, o: Grid, t: Grid, k: nat, sx: int, sy: int,
                 before: seq<(int, int)>, e: (int, int), after: seq<(int, int)>, unlabeled: set<(int, int)>)
    requires before != [] && e == before[|before| - 1] && k >= 1
    requires Filling(start, o, k, sx, sy, before, unlabeled)
    requires OnStack(o, k, e) && t == Relabel(o, e, k) && SearchInv(t, k, sx, sy, after)
    requires after == before[..|before| - 1] + UnlabeledOf(t, Neighbours(e.0, e.1))
    requires o[e.1][e.0].room == k ==> after == before[..|before| - 1]
    ensures Filling(start, t, k, sx, sy, after, unlabeled - {e})
    ensures unlabeled - {e} < unlabeled || (unlabeled - {e} == unlabeled && |after| < |before|)
  {
    OnlyLabeledStep(start, o, k, e);
    UnlabeledAfter(o, e, k);
    ReachedStep(start, o, t, k, sx, sy, before, e, after);
  }

  /** `t` has the shape and the tiles of `o`, except possibly for their room ids. */
  ghost predicate SameTiles(o: Grid, t: Grid)
  {
    && |t| == |o| && (forall y :: 0 <= y < |o| ==> |t[y]| == |o[y]|)
    && forall y, x :: InBounds(o, x, y) ==> t[y][x] == o[y][x].(room := t[y][x].room)
  }

  /** `(x, y)` comes no earlier than `(a, b)` in the column-major scan order. */
  predicate ScanLe(a: int, b: int, x: int, y: int)
  {
    a < x || (a == x && b <= y)
  }

  /** Every floor tile up to column `i`, row `j` in scan order is labeled. */
  ghost predicate ScannedLabeled(t: Grid, i: int, j: int)
  {
    forall y, x :: InBounds(t, x, y) && ScanLe(x, y, i, j) && t[y][x].floor ==> t[y][x].room != 0
  }

  /** Id `r + 1` was started at the floor tile `seeds[r]`, which still carries it. */
  ghost predicate SeedsHold(t: Grid, seeds: seq<(int, int)>)
  {
    forall r :: 0 <= r < |seeds| ==>
      InBounds(t, seeds[r].0, seeds[r].1) && t[seeds[r].1][seeds[r].0].floor && t[seeds[r].1][seeds[r].0].room == r + 1
  }

  /** No tile with id `r + 1` comes before `seeds[r]` in scan order. */
  ghost predicate SeedsFirst(t: Grid, seeds: seq<(int, int)>)
  {
    forall y, x :: InBounds(t, x, y) && 0 < t[y][x].room <= |seeds| ==>
      ScanLe(seeds[t[y][x].room - 1].0, seeds[t[y][x].room - 1].1, x, y)
  }

  /** Every tile with id `r + 1` is reached from `seeds[r]` over floor tiles. */
  ghost predicate SeedsReach(t: Grid, seeds: seq<(int, int)>)
  {
    forall y, x :: InBounds(t, x, y) && 0 < t[y][x].room <= |seeds| ==> Reach(t, seeds[t[y][x].room - 1], (x, y))
  }

  /** The seeds come in strictly increasing scan order: ids are handed out in scan order. */
  ghost predicate SeedsInOrder(seeds: seq<(int, int)>)
  {
    forall r, r' :: 0 <= r < r' < |seeds| ==> !ScanLe(seeds[r'].0, seeds[r'].1, seeds[r].0, seeds[r].1)
  }

  /** Every seed comes before column `i`, row `j` in scan order. */
  ghost predicate SeedsBefore(seeds: seq<(int, int)>, i: int, j: int)
  {
    forall r :: 0 <= r < |seeds| ==> ScanLe(seeds[r].0, seeds[r].1, i, j - 1)
  }

  /** What the scan has established before visiting column `i`, row `j`. */
  ghost predicate ScanInv(t: Grid, i: int, j: int, seeds: seq<(int, int)>)
  {
    && ReadyFor(t, |seeds| + 1)
    && ScannedLabeled(t, i, j - 1)
    && SeedsHold(t, seeds)
    && SeedsFirst(t, seeds)
    && SeedsReach(t, seeds)
    && SeedsInOrder(seeds)
    && SeedsBefore(seeds, i, j)
  }

  /** A seed taken at column `i`, row `j` comes after every earlier seed. */
  lemma SeedOrdered(seeds: seq<(int, int)>, i: int, j: int)
    requires SeedsInOrder(seeds) && SeedsBefore(seeds, i, j)
    ensures SeedsInOrder(seeds + [(i, j)]) && SeedsBefore(seeds + [(i, j)], i, j + 1)
  {
    var seeds' := seeds + [(i, j)];
    forall r, r' | 0 <= r < r' < |seeds'| ensures !ScanLe(seeds'[r'].0, seeds'[r'].1, seeds'[r].0, seeds'[r].1) {
      assert seeds'[r] == seeds[r];
      if r' < |seeds| {
        assert seeds'[r'] == seeds[r'];
      }
    }
  }

  lemma SeedScanned(o: Grid, t: Grid, i: int, j: int, k: nat)
    requires ScannedLabeled(o, i, j - 1) && OnlyLabeled(o, t, k) && k >= 1
    requires InBounds(t, i, j) && t[j][i].room == k
    ensures ScannedLabeled(t, i, j)
  {
    forall y, x | InBounds(t, x, y) && ScanLe(x, y, i, j) && t[y][x].floor ensures t[y][x].room != 0 {
      if (x, y) != (i, j) {
        assert ScanLe(x, y, i, j - 1);
      }
    }
  }

  lemma SeedHeld(o: Grid, t: Grid, i: int, j: int, seeds: seq<(int, int)>)
    requires SeedsHold(o, seeds) && Unlabeled(o, (i, j))
    requires OnlyLabeled(o, t, |seeds| + 1) && t[j][i].room == |seeds| + 1
    ensures SeedsHold(t, seeds + [(i, j)])
  {
    var seeds' := seeds + [(i, j)];
    forall r | 0 <= r < |seeds'|
      ensures InBounds(t, seeds'[r].0, seeds'[r].1) && t[seeds'[r].1][seeds'[r].0].floor && t[seeds'[r].1][seeds'[r].0].room == r + 1
    {
      if r < |seeds| {
        assert seeds'[r] == seeds[r];
      }
    }
  }

  lemma SeedFirst(o: Grid, t: Grid, i: int, j: int, seeds: seq<(int, int)>)
    requires SeedsFirst(o, seeds) && ScannedLabeled(o, i, j - 1) && ReadyFor(o, |seeds| + 1)
    requires OnlyLabeled(o, t, |seeds| + 1)
    ensures SeedsFirst(t, seeds + [(i, j)])
  {
    var seeds' := seeds + [(i, j)];
    forall y, x | InBounds(t, x, y) && 0 < t[y][x].room <= |seeds'|
      ensures ScanLe(seeds'[t[y][x].room - 1].0, seeds'[t[y][x].room - 1].1, x, y)
    {
      if t[y][x] == o[y][x] {
        assert o[y][x].room < |seeds| + 1;
        assert seeds'[t[y][x].room - 1] == seeds[o[y][x].room - 1];
      } else {
        assert o[y][x].floor && o[y][x].room == 0;
        assert !ScanLe(x, y, i, j - 1);
      }
    }
  }

  /** The tiles of the new id were reached from its seed; the older ids keep their tiles. */
  lemma SeedReached(o: Grid, t: Grid, i: int, j: int, seeds: seq<(int, int)>)
    requires SeedsReach(o, seeds) && ReadyFor(o, |seeds| + 1) && OnlyLabeled(o, t, |seeds| + 1)
    requires forall y, x :: InBounds(t, x, y) && t[y][x].room == |seeds| + 1 ==> Reach(o, (i, j), (x, y))
    ensures SeedsReach(t, seeds + [(i, j)])
  {
    OnlyLabeledSame(o, t, |seeds| + 1);
    forall y, x | InBounds(t, x, y) && 0 < t[y][x].room <= |seeds| + 1
      ensures Reach(t, (seeds + [(i, j)])[t[y][x].room - 1], (x, y))
    {
      if t[y][x].room == |seeds| + 1 {
        ReachSame(o, t, (i, j), (x, y));
      } else {
        OldSeedReached(o, t, seeds, (i, j), x, y);
      }
    }
  }

  /** A tile of an older id is the tile it was, reached from its seed as before. */
  lemma OldSeedReached(o: Grid, t: Grid, seeds: seq<(int, int)>, c: (int, int), x: int, y: int)
    requires SeedsReach(o, seeds) && SameTiles(o, t) && InBounds(o, x, y)
    requires t[y][x] == o[y][x] && 0 < o[y][x].room <= |seeds|
    ensures Reach(t, (seeds + [c])[t[y][x].room - 1], (x, y))
  {
    var r := o[y][x].room;
    assert Reach(o, seeds[r - 1], (x, y));
    assert (seeds + [c])[r - 1] == seeds[r - 1];
    ReachSame(o, t, seeds[r - 1], (x, y));
  }

  /** A search started at the first unscanned unlabeled tile keeps the scan invariant, with one more id. */
  lemma ScanSeed(o: Grid, t: Grid, i: int, j: int, seeds: seq<(int, int)>)
    requires ScanInv(o, i, j, seeds) && Unlabeled(o, (i, j))
    requires OnlyLabeled(o, t, |seeds| + 1) && t[j][i].room == |seeds| + 1 && ReadyFor(t, |seeds| + 2)
    requires forall y, x :: InBounds(t, x, y) && t[y][x].room == |seeds| + 1 ==> Reach(o, (i, j), (x, y))
    ensures ScanInv(t, i, j + 1, seeds + [(i, j)])
  {
    SeedScanned(o, t, i, j, |seeds| + 1);
    SeedHeld(o, t, i, j, seeds);
    SeedFirst(o, t, i, j, seeds);
    SeedReached(o, t, i, j, seeds);
    SeedOrdered(seeds, i, j);
  }

  /** A tile the scan passes over (not floor, or already labeled) keeps the invariant. */
  lemma ScanSkip(t: Grid, i: int, j: int, seeds: seq<(int, int)>)
    requires ScanInv(t, i, j, seeds) && InBounds(t, i, j) && !Unlabeled(t, (i, j))
    ensures ScanInv(t, i, j + 1, seeds)
  {
  }

  /** Moving to the next column. */
  lemma ScanColumn(t: Grid, i: int, seeds: seq<(int, int)>)
    requires ScanInv(t, i, |t|, seeds)
    ensures ScanInv(t, i + 1, 0, seeds)
  {
    forall y, x | InBounds(t, x, y) && ScanLe(x, y, i + 1, -1) && t[y][x].floor ensures t[y][x].room != 0 {
      assert ScanLe(x, y, i, |t| - 1);
    }
  }

  /** Once every column is scanned, exactly the floor tiles are labeled. */
  lemma ScanComplete(t: Grid, w: int, seeds: seq<(int, int)>)
    requires ScanInv(t, w, 0, seeds) && forall y :: 0 <= y < |t| ==> |t[y]| == w
    ensures forall y, x :: InBounds(t, x, y) ==> t[y][x].room <= |seeds| && (t[y][x].floor <==> t[y][x].room != 0)
  {
    forall y, x | InBounds(t, x, y) ensures t[y][x].floor ==> t[y][x].room != 0 {
      assert ScanLe(x, y, w, -1);
    }
  }

  lemma SameTilesTrans(a: Grid, b: Grid, c: Grid)
    requires SameTiles(a, b) && SameTiles(b, c)
    ensures SameTiles(a, c)
  {
  }

  lemma OnlyLabeledSame(o: Grid, t: Grid, k: nat)
    requires OnlyLabeled(o, t, k)
    ensures SameTiles(o, t)
  {
  }

  /** One column of the scan: column `i`, rows `0 .. height - 1`. */
  method LabelColumn(g: array2<Tile>, i: int, count: nat, ghost seeds: seq<(int, int)>)
    returns (count': nat, ghost seeds': seq<(int, int)>)
    requires 0 <= i < g.Length1 && ScanInv(Snap(g), i, 0, seeds) && |seeds| == count
    modifies g
    ensures SameTiles(old(Snap(g)), Snap(g))
    ensures ScanInv(Snap(g), i + 1, 0, seeds') && |seeds'| == count'
  {
    ghost var start := Snap(g);
    count', seeds' := count, seeds;
    for j := 0 to g.Length0
      invariant SameTiles(start, Snap(g))
      invariant ScanInv(Snap(g), i, j, seeds') && |seeds'| == count'
    {
      ghost var o := Snap(g);
      if g[j, i].floor && g[j, i].room == 0 {
        count' := count' + 1;
        FloodFill(g, i, j, count');
        ScanSeed(o, Snap(g), i, j, seeds');
        OnlyLabeledSame(o, Snap(g), count');
        SameTilesTrans(start, o, Snap(g));
        seeds' := seeds' + [(i, j)];
      } else {
        ScanSkip(o, i, j, seeds');
      }
    }
    ScanColumn(Snap(g), i, seeds');
  }

  /**
   * `t` is a labeling of the floor of `o` with ids `1..count`: only room ids
   * differ, exactly the floor tiles carry an id, 4-adjacent floor tiles share
   * theirs, id `r + 1` was started at `seeds[r]`, every tile with that id is
   * reached from there over floor tiles, and none comes earlier in scan order;
   * the seeds themselves come in scan order.
   */
  ghost predicate LabelingOf(o: Grid, t: Grid, count: nat, seeds: seq<(int, int)>)
  {
    && SameTiles(o, t)
    && (forall y, x :: InBounds(t, x, y) ==> t[y][x].room <= count && (t[y][x].floor <==> t[y][x].room != 0))
    && LabelsClosed(t)
    && |seeds| == count
    && SeedsHold(t, seeds)
    && SeedsFirst(t, seeds)
    && SeedsReach(t, seeds)
    && SeedsInOrder(seeds)
  }

  /**
   * In a labeling, two floor tiles carry the same id exactly when a walk over
   * floor tiles joins them: every id names one 4-connected floor region.
   */
  lemma SameRoomIffReach(o: Grid, t: Grid, count: nat, seeds: seq<(int, int)>, a: (int, int), b: (int, int))
    requires LabelingOf(o, t, count, seeds)
    requires InBounds(t, a.0, a.1) && t[a.1][a.0].floor && InBounds(t, b.0, b.1) && t[b.1][b.0].floor
    ensures t[a.1][a.0].room == t[b.1][b.0].room <==> Reach(t, a, b)
  {
    assert 0 < t[a.1][a.0].room <= |seeds|;
    if t[b.1][b.0].room == t[a.1][a.0].room {
      SharedSeed(t, seeds, a, b);
    }
    if Reach(t, a, b) {
      ReachOneRoom(t, a, b);
    }
  }

  lemma SharedSeed(t: Grid, seeds: seq<(int, int)>, a: (int, int), b: (int, int))
    requires SeedsReach(t, seeds) && InBounds(t, a.0, a.1) && InBounds(t, b.0, b.1)
    requires 0 < t[a.1][a.0].room <= |seeds| && t[b.1][b.0].room == t[a.1][a.0].room
    ensures Reach(t, a, b)
  {
    var s := seeds[t[a.1][a.0].room - 1];
    assert Reach(t, s, a) && Reach(t, s, b);
    ReachBack(t, s, a);
    ReachJoin(t, a, s, b);
  }

  lemma ReachOneRoom(t: Grid, a: (int, int), b: (int, int))
    requires LabelsClosed(t) && Reach(t, a, b) && InBounds(t, a.0, a.1) && t[a.1][a.0].room != 0
    ensures t[b.1][b.0].room == t[a.1][a.0].room
  {
    var p: seq<(int, int)> :| FloorPath(t, p) && p[0] == a && p[|p| - 1] == b;
    WalkOneRoom(t, p, |p| - 1);
  }

  /**
   * The labeling pass: scans the columns `x = 0 .. width - 1`, each from `y = 0`,
   * and starts a search with the next id at every floor tile still in room 0.
   */
  method LabelRooms(g: array2<Tile>) returns (count: nat, ghost seeds: seq<(int, int)>)
    requires forall y, x :: InGrid(g, x, y) ==> g[y, x].room == 0
    modifies g
    ensures LabelingOf(old(Snap(g)), Snap(g), count, seeds)
  {
    ghost var start := Snap(g);
    count := 0;
    seeds := [];
    assert ScanInv(start, 0, 0, seeds);
    for i := 0 to g.Length1
      invariant SameTiles(start, Snap(g))
      invariant ScanInv(Snap(g), i, 0, seeds) && |seeds| == count
    {
      ghost var o := Snap(g);
      count, seeds := LabelColumn(g, i, count, seeds);
      SameTilesTrans(start, o, Snap(g));
    }
    ScanComplete(Snap(g), g.Length1, seeds);
  }
}
