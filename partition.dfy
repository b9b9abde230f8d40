/**
 * Binary space partitioning of the map into candidate rooms
 * (`generateRooms` and its helper `findSplit`).
 *
 * A work queue of rectangles is split along the longer side at a random
 * point; rectangles that admit no split point move to a pool of small
 * rooms. Afterwards every candidate is shrunk by half the padding, the
 * candidates are sorted by area and the largest `roomCount` are kept.
 *
 * `Math.random()` is replaced by an injected source `rand`: the k-th
 * successful split point uses the draw `rand(k)`, a real in [0, 1).
 */
module Partition {
  import opened Wrappers
  import StableSort

  /** A rectangle of cells with inclusive bounds. */
  datatype Rect = Rect(x1: int, x2: int, y1: int, y2: int)

  /** A value returned by `Math.random()`. */
  type Unit = u: real | 0.0 <= u < 1.0

  datatype PartitionError = NoInitialSplit

  predicate Contains(r: Rect, x: int, y: int)
  {
    r.x1 <= x <= r.x2 && r.y1 <= y <= r.y2
  }

  predicate InGrid(x: int, y: int, width: int, height: int)
  {
    0 <= x < width && 0 <= y < height
  }

  /** `Math.ceil(padding / 2)`. */
  function HalfPadding(padding: nat): (h: nat)
    ensures padding <= 2 * h <= padding + 1
  {
    (padding + 1) / 2
  }

  lemma FloorBelow(u: Unit, n: nat)
    requires n > 0
    ensures 0 <= (u * n as real).Floor < n
  {
    assert u * n as real < n as real;
  }

  /**
   * `findSplit(range, halfPadding, minDimension)`: a random offset that leaves
   * at least `halfPadding + minDimension` on both sides, or no split at all.
   */
  function FindSplit(range: int, hp: nat, md: nat, u: Unit): (r: Option<int>)
    ensures r.None? <==> range - 2 * hp - 2 * md <= 0
    ensures r.Some? ==> hp + md <= r.value <= range - hp - md - 1
  {
    var n := range - 2 * hp - 2 * md;
    if n > 0 then
      FloorBelow(u, n);
      Some((u * n as real).Floor + hp + md)
    else None
  }

  /** Every admissible split point is produced by some draw. */
  lemma FindSplitReachesEvery(range: int, hp: nat, md: nat, v: int) returns (u: Unit)
    requires hp + md <= v <= range - hp - md - 1
    ensures FindSplit(range, hp, md, u) == Some(v)
  {
    var n := range - 2 * hp - 2 * md;
    var k := v - hp - md;
    u := k as real / n as real;
    assert u * n as real == k as real;
  }

  /** Cuts `r` after `split` columns: the left part keeps columns `x1..x1+split-1`. */
  function SplitX(r: Rect, split: int): (halves: (Rect, Rect))
    requires 0 <= split <= r.x2 - r.x1 + 1
    ensures halves.0.y1 == halves.1.y1 == r.y1 && halves.0.y2 == halves.1.y2 == r.y2
    ensures halves.0.x1 == r.x1 && halves.0.x2 + 1 == halves.1.x1 && halves.1.x2 == r.x2
    ensures forall x, y :: Contains(r, x, y) <==> Contains(halves.0, x, y) || Contains(halves.1, x, y)
    ensures forall x, y :: !(Contains(halves.0, x, y) && Contains(halves.1, x, y))
  {
    (Rect(r.x1, r.x1 + split - 1, r.y1, r.y2), Rect(r.x1 + split, r.x2, r.y1, r.y2))
  }

  /** Cuts `r` after `split` rows: the upper part keeps rows `y1..y1+split-1`. */
  function SplitY(r: Rect, split: int): (halves: (Rect, Rect))
    requires 0 <= split <= r.y2 - r.y1 + 1
    ensures halves.0.x1 == halves.1.x1 == r.x1 && halves.0.x2 == halves.1.x2 == r.x2
    ensures halves.0.y1 == r.y1 && halves.0.y2 + 1 == halves.1.y1 && halves.1.y2 == r.y2
    ensures forall x, y :: Contains(r, x, y) <==> Contains(halves.0, x, y) || Contains(halves.1, x, y)
    ensures forall x, y :: !(Contains(halves.0, x, y) && Contains(halves.1, x, y))
  {
    (Rect(r.x1, r.x2, r.y1, r.y1 + split - 1), Rect(r.x1, r.x2, r.y1 + split, r.y2))
  }

  /** Whether the queue loop splits `r` across its rows (it does when it is taller than wide). */
  predicate SplitsRows(r: Rect)
  {
    r.y2 - r.y1 > r.x2 - r.x1
  }

  /** The split point the queue loop asks for: the range is `x2 - x1` (or `y2 - y1`), one less than the cell count. */
  function QueueSplit(r: Rect, hp: nat, md: nat, u: Unit): Option<int>
  {
    if SplitsRows(r) then FindSplit(r.y2 - r.y1, hp, md, u) else FindSplit(r.x2 - r.x1, hp, md, u)
  }

  /** One step of the queue loop: the two halves of `r`, or `None` when it is too small to split. */
  function SplitOnce(r: Rect, hp: nat, md: nat, u: Unit): (halves: Option<(Rect, Rect)>)
    requires r.x1 <= r.x2 && r.y1 <= r.y2 && md >= 1
    ensures halves.None? <==> QueueSplit(r, hp, md, u).None?
    ensures halves.Some? ==> NonEmpty(halves.value.0) && NonEmpty(halves.value.1)
    ensures halves.Some? ==> CutAt(r, halves.value.0, halves.value.1, SplitsRows(r), QueueSplit(r, hp, md, u).value)
    ensures halves.Some? ==> forall x, y ::
      Contains(r, x, y) <==> Contains(halves.value.0, x, y) || Contains(halves.value.1, x, y)
    ensures halves.Some? ==> forall x, y ::
      !(Contains(halves.value.0, x, y) && Contains(halves.value.1, x, y))
  {
    match QueueSplit(r, hp, md, u)
    case None => None
    case Some(split) => if SplitsRows(r) then Some(SplitY(r, split)) else Some(SplitX(r, split))
  }

  /**
   * `a` and `b` are the two parts of `r` cut after `split` rows (when `rows`) or columns:
   * they keep the other axis' bounds and meet at `start + split - 1 | start + split`.
   */
  predicate CutAt(r: Rect, a: Rect, b: Rect, rows: bool, split: int)
  {
    if rows then
      a.x1 == b.x1 == r.x1 && a.x2 == b.x2 == r.x2
      && a.y1 == r.y1 && a.y2 == r.y1 + split - 1 && b.y1 == r.y1 + split && b.y2 == r.y2
    else
      a.y1 == b.y1 == r.y1 && a.y2 == b.y2 == r.y2
      && a.x1 == r.x1 && a.x2 == r.x1 + split - 1 && b.x1 == r.x1 + split && b.x2 == r.x2
  }

  predicate NonEmpty(r: Rect)
  {
    r.x1 <= r.x2 && r.y1 <= r.y2
  }

  /** The initial cut of the whole map, along x only when it is wider than tall. */
  function InitialSplit(width: nat, height: nat, hp: nat, md: nat, u: Unit): (halves: Option<(Rect, Rect)>)
    requires width >= 1 && height >= 1 && md >= 1
    ensures halves.None? <==> (if width > height then width else height) - 2 * hp - 2 * md <= 0
    ensures halves.Some? ==> NonEmpty(halves.value.0) && NonEmpty(halves.value.1)
    ensures halves.Some? ==> CutAt(Rect(0, width - 1, 0, height - 1), halves.value.0, halves.value.1,
      !(width > height), FindSplit(if width > height then width else height, hp, md, u).value)
    ensures halves.Some? ==> forall x, y ::
      InGrid(x, y, width, height) <==> Contains(halves.value.0, x, y) || Contains(halves.value.1, x, y)
    ensures halves.Some? ==> forall x, y ::
      !(Contains(halves.value.0, x, y) && Contains(halves.value.1, x, y))
  {
    var whole := Rect(0, width - 1, 0, height - 1);
    if width > height then
      match FindSplit(width, hp, md, u)
      case None => None
      case Some(split) => Some(SplitX(whole, split))
    else
      match FindSplit(height, hp, md, u)
      case None => None
      case Some(split) => Some(SplitY(whole, split))
  }

  /** Number of rectangles of `s` that contain the cell `(x, y)`. */
  function CountAt(s: seq<Rect>, x: int, y: int): nat
  {
    if s == [] then 0 else (if Contains(s[0], x, y) then 1 else 0) + CountAt(s[1..], x, y)
  }

  lemma {:induction false} CountAtAppend(s: seq<Rect>, t: seq<Rect>, x: int, y: int)
    ensures CountAt(s + t, x, y) == CountAt(s, x, y) + CountAt(t, x, y)
  {
    if s == [] {
      assert s + t == t;
    } else {
      assert (s + t)[1..] == s[1..] + t;
      CountAtAppend(s[1..], t, x, y);
    }
  }

  /** `s` covers every cell of the map exactly once and nothing outside it. */
  ghost predicate Tiling(s: seq<Rect>, width: int, height: int)
  {
    forall x, y :: CountAt(s, x, y) == if InGrid(x, y, width, height) then 1 else 0
  }

  /** Each nonempty rectangle weighs twice its cell count minus one; a split lowers the sum by one. */
  function Weight(s: seq<Rect>): int
  {
    if s == [] then 0 else RectWeight(s[0]) + Weight(s[1..])
  }

  function RectWeight(r: Rect): int
  {
    2 * ((r.x2 - r.x1 + 1) * (r.y2 - r.y1 + 1)) - 1
  }

  lemma {:induction false} WeightAppend(s: seq<Rect>, t: seq<Rect>)
    ensures Weight(s + t) == Weight(s) + Weight(t)
  {
    if s == [] {
      assert s + t == t;
    } else {
      assert (s + t)[1..] == s[1..] + t;
      WeightAppend(s[1..], t);
    }
  }

  lemma {:induction false} WeightPositive(s: seq<Rect>)
    requires forall i :: 0 <= i < |s| ==> NonEmpty(s[i])
    ensures Weight(s) >= |s|
  {
    if s != [] {
      var w, h := s[0].x2 - s[0].x1 + 1, s[0].y2 - s[0].y1 + 1;
      assert w * h >= 1 by { assert w >= 1 && h >= 1; }
      assert RectWeight(s[0]) >= 1;
      WeightPositive(s[1..]);
    }
  }

  lemma SplitWeight(r: Rect, a: Rect, b: Rect, rows: bool, split: int)
    requires CutAt(r, a, b, rows, split)
    ensures Weight([a, b]) == Weight([r]) - 1
  {
    assert [a, b][1..] == [b] && [b][1..] == [] && [r][1..] == [];
    assert Weight([b]) == RectWeight(b) + Weight([]);
    assert Weight([a, b]) == RectWeight(a) + Weight([b]);
    assert Weight([r]) == RectWeight(r);
    if !rows {
      var h := r.y2 - r.y1 + 1;
      assert (a.x2 - a.x1 + 1) * h + (b.x2 - b.x1 + 1) * h == (r.x2 - r.x1 + 1) * h;
    } else {
      var w := r.x2 - r.x1 + 1;
      assert w * (a.y2 - a.y1 + 1) + w * (b.y2 - b.y1 + 1) == w * (r.y2 - r.y1 + 1);
    }
  }

  /** The room that remains of a candidate after removing `hp` cells on each side. */
  function Shrink(r: Rect, hp: nat): (s: Rect)
    ensures forall x, y :: Contains(s, x, y) <==>
      (Contains(r, x, y) && r.x1 + hp <= x <= r.x2 - hp && r.y1 + hp <= y <= r.y2 - hp)
  {
    Rect(r.x1 + hp, r.x2 - hp, r.y1 + hp, r.y2 - hp)
  }

  function ShrinkAll(s: seq<Rect>, hp: nat): (r: seq<Rect>)
    ensures |r| == |s| && forall i :: 0 <= i < |s| ==> r[i] == Shrink(s[i], hp)
  {
    if s == [] then [] else [Shrink(s[0], hp)] + ShrinkAll(s[1..], hp)
  }

  /** The sort key of the source's comparator: `(x2 - x1) * (y2 - y1)`, not the cell count. */
  function Area(r: Rect): int
  {
    (r.x2 - r.x1) * (r.y2 - r.y1)
  }

  /** The rooms `generateRooms` returns from its final candidates. */
  function Largest(candidates: seq<Rect>, hp: nat, roomCount: nat): seq<Rect>
  {
    var sorted := StableSort.SortDesc(ShrinkAll(candidates, hp), Area);
    sorted[..if roomCount < |sorted| then roomCount else |sorted|]
  }

  /** The queue loop may still split `r`: its range along the chosen axis leaves room for a split point. */
  predicate Splittable(r: Rect, hp: nat, md: nat)
  {
    (if SplitsRows(r) then r.y2 - r.y1 else r.x2 - r.x1) - 2 * hp - 2 * md > 0
  }

  lemma SplitKeepsTiling(q: seq<Rect>, small: seq<Rect>, a: Rect, b: Rect, width: int, height: int)
    requires q != [] && Tiling(q + small, width, height)
    requires forall x, y :: Contains(q[0], x, y) <==> Contains(a, x, y) || Contains(b, x, y)
    requires forall x, y :: !(Contains(a, x, y) && Contains(b, x, y))
    ensures Tiling(q[1..] + [a, b] + small, width, height)
  {
    forall x, y ensures CountAt(q[1..] + [a, b] + small, x, y) == CountAt(q + small, x, y) {
      CountAtAppend(q[1..] + [a, b], small, x, y);
      CountAtAppend(q[1..], [a, b], x, y);
      CountAtAppend(q[1..], small, x, y);
      assert (q + small)[1..] == q[1..] + small;
      assert [a, b][1..] == [b] && [b][1..] == [];
      assert CountAt([b], x, y) == (if Contains(b, x, y) then 1 else 0) + CountAt([], x, y);
    }
  }

  lemma MoveKeepsTiling(q: seq<Rect>, small: seq<Rect>, width: int, height: int)
    requires q != [] && Tiling(q + small, width, height)
    ensures Tiling(q[1..] + (small + [q[0]]), width, height)
  {
    forall x, y ensures CountAt(q[1..] + (small + [q[0]]), x, y) == CountAt(q + small, x, y) {
      CountAtAppend(q[1..], small + [q[0]], x, y);
      CountAtAppend(small, [q[0]], x, y);
      CountAtAppend(q[1..], small, x, y);
      assert (q + small)[1..] == q[1..] + small;
      assert [q[0]][1..] == [];
    }
  }

  /** Taking the front rectangle off the queue, and pushing its two halves if it splits, lowers the weight. */
  lemma QueueLighter(rooms: seq<Rect>, hp: nat, md: nat, u: Unit)
    requires md >= 1 && rooms != [] && NonEmpty(rooms[0])
    ensures Weight(rooms[1..]) < Weight(rooms)
    ensures var halves := SplitOnce(rooms[0], hp, md, u);
      halves.Some? ==> Weight(rooms[1..] + [halves.value.0, halves.value.1]) < Weight(rooms)
  {
    var r := rooms[0];
    assert Weight(rooms) == RectWeight(r) + Weight(rooms[1..]);
    assert RectWeight(r) >= 1 by { WeightPositive([r]); assert [r][1..] == []; }
    var halves := SplitOnce(r, hp, md, u);
    if halves.Some? {
      var a, b := halves.value.0, halves.value.1;
      SplitWeight(r, a, b, SplitsRows(r), QueueSplit(r, hp, md, u).value);
      WeightAppend(rooms[1..], [a, b]);
      assert [r][1..] == [];
    }
  }

  /**
   * What the queue loop leaves, as a function of the queue, the small rooms and
   * the index `next` of the next draw: while the queue is nonempty and shorter
   * than `roomCount * sparsity`, the front rectangle is split with the draw
   * `rand(next)`, its halves going to the back, or moved to the small rooms.
   */
  ghost function Queue(rooms: seq<Rect>, small: seq<Rect>, hp: nat, md: nat, roomCount: nat, sparsity: real,
                       rand: nat -> Unit, next: nat): (seq<Rect>, seq<Rect>)
    requires md >= 1 && forall i :: 0 <= i < |rooms| ==> NonEmpty(rooms[i])
    decreases Weight(rooms)
  {
    if |rooms| > 0 && (|rooms| as real) < (roomCount as real) * sparsity then
      WeightPositive(rooms);
      QueueLighter(rooms, hp, md, rand(next));
      match SplitOnce(rooms[0], hp, md, rand(next))
      case Some(halves) => Queue(rooms[1..] + [halves.0, halves.1], small, hp, md, roomCount, sparsity, rand, next + 1)
      case None => Queue(rooms[1..], small + [rooms[0]], hp, md, roomCount, sparsity, rand, next)
    else (rooms, small)
  }

  /**
   * The queue loop of `generateRooms`: pops the front rectangle and either
   * pushes its two halves or moves it to the small rooms, until the queue is
   * empty or holds at least `roomCount * sparsity` rectangles.
   */
  method SplitQueue(start: seq<Rect>, width: nat, height: nat, hp: nat, md: nat, roomCount: nat,
                    sparsity: real, rand: nat -> Unit, next0: nat)
    returns (rooms: seq<Rect>, smallRooms: seq<Rect>)
    requires md >= 1 && |start| >= 2 && Tiling(start, width, height)
    requires forall i :: 0 <= i < |start| ==> NonEmpty(start[i])
    ensures (rooms, smallRooms) == Queue(start, [], hp, md, roomCount, sparsity, rand, next0)
    ensures Tiling(rooms + smallRooms, width, height) && |rooms + smallRooms| >= 2
    ensures forall i :: 0 <= i < |rooms| ==> NonEmpty(rooms[i])
    ensures forall i :: 0 <= i < |smallRooms| ==> NonEmpty(smallRooms[i]) && !Splittable(smallRooms[i], hp, md)
    ensures |rooms| == 0 || |rooms| as real >= roomCount as real * sparsity
  {
    var next := next0;  // index of the next draw of `rand`
    rooms, smallRooms := start, [];
    assert rooms + smallRooms == start;
    while |rooms| > 0 && (|rooms| as real) < (roomCount as real) * sparsity
      invariant forall i :: 0 <= i < |rooms| ==> NonEmpty(rooms[i])
      invariant forall i :: 0 <= i < |smallRooms| ==> NonEmpty(smallRooms[i]) && !Splittable(smallRooms[i], hp, md)
      invariant Tiling(rooms + smallRooms, width, height)
      invariant |rooms + smallRooms| >= 2
      invariant Queue(rooms, smallRooms, hp, md, roomCount, sparsity, rand, next) == Queue(start, [], hp, md, roomCount, sparsity, rand, next0)
      decreases Weight(rooms)
    {
      WeightPositive(rooms);
      QueueLighter(rooms, hp, md, rand(next));
      var r := rooms[0];
      var halves := SplitOnce(r, hp, md, rand(next));
      if halves.Some? {
        var a, b := halves.value.0, halves.value.1;
        SplitKeepsTiling(rooms, smallRooms, a, b, width, height);
        next := next + 1;
        rooms := rooms[1..] + [a, b];
      } else {
        MoveKeepsTiling(rooms, smallRooms, width, height);
        rooms, smallRooms := rooms[1..], smallRooms + [r];
      }
    }
  }

  /** Shrinks every candidate by `hp` in place, sorts by area and copies out the first `roomCount`. */
  method ShrinkSortTake(candidates: seq<Rect>, hp: nat, roomCount: nat) returns (biggest: seq<Rect>)
    ensures biggest == Largest(candidates, hp, roomCount)
  {
    var a := new Rect[|candidates|](i requires 0 <= i < |candidates| => candidates[i]);
    for i := 0 to a.Length
      invariant forall k :: 0 <= k < i ==> a[k] == Shrink(candidates[k], hp)
      invariant forall k :: i <= k < a.Length ==> a[k] == candidates[k]
    {
      a[i] := Shrink(a[i], hp);
    }
    assert a[..] == ShrinkAll(candidates, hp);
    StableSort.SortInPlace(a, Area);

    biggest := [];
    var n := if roomCount < a.Length then roomCount else a.Length;
    for i := 0 to n
      invariant biggest == a[..i]
    {
      biggest := biggest + [a[i]];
    }
  }

  /**
   * `generateRooms`. On success `queued` and `small` are the queue and the pool of
   * small rooms when the loop stops, as the draws `rand(0), rand(1), ...` decide
   * them; together they tile the map, and the result is the `roomCount` largest
   * of them after shrinking.
   */
  method GenerateRooms(width: nat, height: nat, padding: nat, roomCount: nat, sparsity: real,
                       minDimension: nat, rand: nat -> Unit)
    returns (res: Result<seq<Rect>, PartitionError>, ghost queued: seq<Rect>, ghost small: seq<Rect>)
    requires width >= 1 && height >= 1 && minDimension >= 1
    ensures res.Failure? <==>
      (if width > height then width else height) - 2 * HalfPadding(padding) - 2 * minDimension <= 0
    ensures res.Success? ==>
      var halves := InitialSplit(width, height, HalfPadding(padding), minDimension, rand(0)).value;
      (queued, small) == Queue([halves.0, halves.1], [], HalfPadding(padding), minDimension, roomCount, sparsity, rand, 1)
    ensures res.Success? ==> Tiling(queued + small, width, height) && |queued + small| >= 2
    ensures res.Success? ==> forall i :: 0 <= i < |queued + small| ==> NonEmpty((queued + small)[i])
    ensures res.Success? ==> |queued| == 0 || |queued| as real >= roomCount as real * sparsity
    ensures res.Success? ==> forall i :: 0 <= i < |small| ==> !Splittable(small[i], HalfPadding(padding), minDimension)
    ensures res.Success? ==> res.value == Largest(queued + small, HalfPadding(padding), roomCount)
  {
    var hp := HalfPadding(padding);
    var first := InitialSplit(width, height, hp, minDimension, rand(0));
    if first.None? {
      return Failure(NoInitialSplit), [], [];
    }
    var a, b := first.value.0, first.value.1;
    assert Tiling([a, b], width, height) by {
      forall x, y ensures CountAt([a, b], x, y) == if InGrid(x, y, width, height) then 1 else 0 {
        assert [a, b][1..] == [b] && [b][1..] == [];
        assert CountAt([b], x, y) == (if Contains(b, x, y) then 1 else 0) + CountAt([], x, y);
      }
    }
    var rooms, smallRooms := SplitQueue([a, b], width, height, hp, minDimension, roomCount, sparsity, rand, 1);
    queued, small := rooms, smallRooms;
    forall i | 0 <= i < |queued + small| ensures NonEmpty((queued + small)[i]) {
      if i >= |queued| {
        assert (queued + small)[i] == small[i - |queued|];
      }
    }
    var biggest := ShrinkSortTake(rooms + smallRooms, hp, roomCount);
    return Success(biggest), queued, small;
  }

  lemma {:induction false} CountAtInsert(s: seq<Rect>, r: Rect, x: int, y: int)
    ensures CountAt(StableSort.Insert(s, r, Area), x, y) == CountAt(s, x, y) + (if Contains(r, x, y) then 1 else 0)
  {
    if s == [] {
      assert [r][1..] == [];
    } else if Area(s[0]) >= Area(r) {
      CountAtInsert(s[1..], r, x, y);
      assert StableSort.Insert(s, r, Area)[1..] == StableSort.Insert(s[1..], r, Area);
    } else {
      assert ([r] + s)[1..] == s;
    }
  }

  lemma {:induction false} CountAtSorted(s: seq<Rect>, x: int, y: int)
    ensures CountAt(StableSort.SortDesc(s, Area), x, y) == CountAt(s, x, y)
  {
    if s != [] {
      var init := s[..|s| - 1];
      CountAtSorted(init, x, y);
      CountAtInsert(StableSort.SortDesc(init, Area), s[|s| - 1], x, y);
      assert s == init + [s[|s| - 1]];
      CountAtAppend(init, [s[|s| - 1]], x, y);
      assert [s[|s| - 1]][1..] == [];
    }
  }

  lemma {:induction false} CountAtShrunk(s: seq<Rect>, hp: nat, x: int, y: int)
    ensures CountAt(ShrinkAll(s, hp), x, y) <= CountAt(s, x, y)
  {
    if s != [] {
      CountAtShrunk(s[1..], hp, x, y);
      assert ShrinkAll(s, hp)[1..] == ShrinkAll(s[1..], hp);
    }
  }

  lemma {:induction false} CountAtMembers(s: seq<Rect>, i: int, j: int, x: int, y: int)
    requires 0 <= i <= j < |s| && Contains(s[i], x, y) && Contains(s[j], x, y)
    ensures CountAt(s, x, y) >= if i < j then 2 else 1
  {
    if i > 0 {
      CountAtMembers(s[1..], i - 1, j - 1, x, y);
    } else if i < j {
      CountAtMembers(s[1..], j - 1, j - 1, x, y);
    }
  }

  /** The kept rooms are the largest shrunk candidates, in non-increasing order of area. */
  lemma LargestShape(candidates: seq<Rect>, hp: nat, roomCount: nat) returns (dropped: seq<Rect>)
    ensures var rooms := Largest(candidates, hp, roomCount);
      && |rooms| == (if roomCount < |candidates| then roomCount else |candidates|)
      && StableSort.SortedDesc(rooms, Area)
      && multiset(rooms) + multiset(dropped) == multiset(ShrinkAll(candidates, hp))
      && forall i, j :: 0 <= i < |rooms| && 0 <= j < |dropped| ==> Area(rooms[i]) >= Area(dropped[j])
  {
    var shrunk := ShrinkAll(candidates, hp);
    var sorted := StableSort.SortDesc(shrunk, Area);
    StableSort.SortDescSorted(shrunk, Area);
    StableSort.SortDescPerm(shrunk, Area);
    var k := if roomCount < |sorted| then roomCount else |sorted|;
    assert sorted[..k] == Largest(candidates, hp, roomCount);
    dropped := sorted[k..];
    SortedSplit(sorted, k);
  }

  /** Cutting a sorted list leaves a sorted head, none of whose areas is below any area of the tail. */
  lemma SortedSplit(sorted: seq<Rect>, k: nat)
    requires StableSort.SortedDesc(sorted, Area) && k <= |sorted|
    ensures StableSort.SortedDesc(sorted[..k], Area)
    ensures forall i, j :: 0 <= i < k && 0 <= j < |sorted| - k ==> Area(sorted[..k][i]) >= Area(sorted[k..][j])
    ensures multiset(sorted[..k]) + multiset(sorted[k..]) == multiset(sorted)
  {
    assert sorted[..k] + sorted[k..] == sorted;
    forall i, j | 0 <= i < j < k ensures Area(sorted[..k][i]) >= Area(sorted[..k][j]) {
      assert sorted[..k][i] == sorted[i] && sorted[..k][j] == sorted[j];
    }
    forall i, j | 0 <= i < k && 0 <= j < |sorted| - k ensures Area(sorted[..k][i]) >= Area(sorted[k..][j]) {
      assert sorted[..k][i] == sorted[i] && sorted[k..][j] == sorted[k + j];
    }
  }

  /** Rooms cut from a tiling lie inside the map and no two of them share a cell. */
  lemma LargestDisjointInside(candidates: seq<Rect>, width: int, height: int, hp: nat, roomCount: nat)
    requires Tiling(candidates, width, height)
    ensures var rooms := Largest(candidates, hp, roomCount);
      && (forall i, x, y :: 0 <= i < |rooms| && Contains(rooms[i], x, y) ==> InGrid(x, y, width, height))
      && (forall i, j, x, y :: 0 <= i < j < |rooms| ==> !(Contains(rooms[i], x, y) && Contains(rooms[j], x, y)))
  {
    var sorted := StableSort.SortDesc(ShrinkAll(candidates, hp), Area);
    var rooms := Largest(candidates, hp, roomCount);
    var k := |rooms|;
    assert sorted == rooms + sorted[k..];
    forall x, y ensures CountAt(rooms, x, y) <= if InGrid(x, y, width, height) then 1 else 0 {
      CountAtAppend(rooms, sorted[k..], x, y);
      CountAtSorted(ShrinkAll(candidates, hp), x, y);
      CountAtShrunk(candidates, hp, x, y);
    }
    forall i, x, y | 0 <= i < |rooms| && Contains(rooms[i], x, y) ensures InGrid(x, y, width, height) {
      CountAtMembers(rooms, i, i, x, y);
    }
    forall i, j, x, y | 0 <= i < j < |rooms| ensures !(Contains(rooms[i], x, y) && Contains(rooms[j], x, y)) {
      if Contains(rooms[i], x, y) && Contains(rooms[j], x, y) {
        CountAtMembers(rooms, i, j, x, y);
      }
    }
  }
}
