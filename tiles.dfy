/**
 * The tile grid of `generateTiles`: `height` rows of `width` tiles, indexed
 * `g[y, x]` like `tileStates[y][x]`, and the marking of the generated rooms
 * as floor.
 */
module Tiles {
  import Partition

  datatype Color = Black | White
  datatype Pattern = Background | Flooring

  /** `{room, floor, color, patternAsset}`; room 0 means "no room". */
  datatype Tile = Tile(room: nat, floor: bool, color: Color, pattern: Pattern)

  const BlankTile := Tile(0, false, Black, Background)
  const FloorTile := Tile(0, true, White, Flooring)

  /** `(x, y)` is a cell of `g`: column `x` of `g.Length1`, row `y` of `g.Length0`. */
  predicate InGrid(g: array2<Tile>, x: int, y: int)
  {
    Partition.InGrid(x, y, g.Length1, g.Length0)
  }

  /** The tile grid as a value: row `y` holds tile `x` at index `x`. */
  type Grid = seq<seq<Tile>>

  predicate InBounds(t: Grid, x: int, y: int)
  {
    0 <= y < |t| && 0 <= x < |t[y]|
  }

  /** Every room id of `t` is below `n`. */
  ghost predicate IdsBelow(t: Grid, n: nat)
  {
    forall y, x :: InBounds(t, x, y) ==> t[y][x].room < n
  }

  /** The current contents of `g`, as a value. */
  function Snap(g: array2<Tile>): (t: Grid)
    reads g
    ensures |t| == g.Length0 && forall y :: 0 <= y < |t| ==> |t[y]| == g.Length1
    ensures forall y, x :: InGrid(g, x, y) ==> t[y][x] == g[y, x]
  {
    seq(g.Length0, y requires 0 <= y < g.Length0 reads g =>
      seq(g.Length1, x requires 0 <= x < g.Length1 reads g => g[y, x]))
  }

  /** A value with the shape and the tiles of `g` is its snapshot. */
  lemma SnapEq(g: array2<Tile>, t: Grid)
    requires |t| == g.Length0 && forall y :: 0 <= y < |t| ==> |t[y]| == g.Length1
    requires forall y, x :: InGrid(g, x, y) ==> t[y][x] == g[y, x]
    ensures Snap(g) == t
  {
    var s := Snap(g);
    forall y | 0 <= y < |t| ensures s[y] == t[y] {
      assert forall x :: 0 <= x < |t[y]| ==> s[y][x] == t[y][x];
    }
  }

  /** Every cell of `r` is a cell of the grid. */
  predicate RectInside(g: array2<Tile>, r: Partition.Rect)
  {
    !Partition.NonEmpty(r) || (0 <= r.x1 && r.x2 < g.Length1 && 0 <= r.y1 && r.y2 < g.Length0)
  }

  /** Some rectangle of `rooms` contains `(x, y)`. */
  predicate Covered(rooms: seq<Partition.Rect>, x: int, y: int)
  {
    rooms != [] && (Covered(rooms[..|rooms| - 1], x, y) || Partition.Contains(rooms[|rooms| - 1], x, y))
  }

  lemma {:induction false} CoveredIff(rooms: seq<Partition.Rect>, x: int, y: int)
    ensures Covered(rooms, x, y) <==> exists i :: 0 <= i < |rooms| && Partition.Contains(rooms[i], x, y)
  {
    if rooms != [] {
      var init := rooms[..|rooms| - 1];
      CoveredIff(init, x, y);
      if Covered(init, x, y) {
        var i :| 0 <= i < |init| && Partition.Contains(init[i], x, y);
        assert rooms[i] == init[i];
      }
      if i :| 0 <= i < |rooms| && Partition.Contains(rooms[i], x, y) {
        if i < |init| {
          assert init[i] == rooms[i];
        }
      }
    }
  }

  /** The initial grid: `height` rows of `width` blank tiles. */
  method NewGrid(width: nat, height: nat) returns (g: array2<Tile>)
    ensures fresh(g) && g.Length0 == height && g.Length1 == width
    ensures forall y, x :: 0 <= y < height && 0 <= x < width ==> g[y, x] == BlankTile
  {
    g := new Tile[height, width]((y, x) => BlankTile);
  }

  /** Marks every cell of every room as a floor tile of room 0. */
  method MarkRooms(g: array2<Tile>, rooms: seq<Partition.Rect>)
    requires forall i :: 0 <= i < |rooms| ==> RectInside(g, rooms[i])
    modifies g
    ensures forall y, x :: InGrid(g, x, y) ==>
      g[y, x] == if Covered(rooms, x, y) then FloorTile else old(g[y, x])
  {
    for i := 0 to |rooms|
      invariant forall y, x :: InGrid(g, x, y) ==>
        g[y, x] == if Covered(rooms[..i], x, y) then FloorTile else old(g[y, x])
    {
      var r := rooms[i];
      assert rooms[..i + 1][..i] == rooms[..i];
      var x := r.x1;
      while x < r.x2 + 1
        invariant r.x1 <= x && (x <= r.x2 + 1 || x == r.x1)
        invariant forall cy, cx :: InGrid(g, cx, cy) ==>
          g[cy, cx] == if Covered(rooms[..i], cx, cy) || (r.x1 <= cx < x && r.y1 <= cy <= r.y2)
                       then FloorTile else old(g[cy, cx])
      {
        var y := r.y1;
        while y < r.y2 + 1
          invariant r.y1 <= y && (y <= r.y2 + 1 || y == r.y1)
          invariant forall cy, cx :: InGrid(g, cx, cy) ==>
            g[cy, cx] == if Covered(rooms[..i], cx, cy) || (r.x1 <= cx < x && r.y1 <= cy <= r.y2)
                            || (cx == x && r.y1 <= cy < y)
                         then FloorTile else old(g[cy, cx])
        {
          g[y, x] := FloorTile;
          y := y + 1;
        }
        x := x + 1;
      }
    }
    assert rooms[..|rooms|] == rooms;
  }
}
