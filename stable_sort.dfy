/**
 * The stable sort that `Array.prototype.sort` performs when its comparator is
 * `(a, b) => key(b) - key(a)`: the result is ordered non-increasingly by `key`
 * and elements with equal keys keep their input order.
 *
 * `SortDesc` is the specification (an insertion sort on sequences);
 * `SortInPlace` sorts an array in place and is proved to produce exactly it.
 * The lemmas show that `SortDesc` is ordered, is a permutation of its input
 * and is stable, which together pin down the result of any stable sort.
 */
module StableSort {

  ghost predicate SortedDesc<T>(s: seq<T>, key: T -> int)
  {
    forall i, j :: 0 <= i < j < |s| ==> key(s[i]) >= key(s[j])
  }

  /** Inserts `x` after every leading element whose key is at least `key(x)`. */
  function Insert<T>(s: seq<T>, x: T, key: T -> int): (r: seq<T>)
    ensures |r| == |s| + 1
  {
    if s == [] then [x]
    else if key(s[0]) >= key(x) then [s[0]] + Insert(s[1..], x, key)
    else [x] + s
  }

  function SortDesc<T>(s: seq<T>, key: T -> int): (r: seq<T>)
    ensures |r| == |s|
  {
    if s == [] then [] else Insert(SortDesc(s[..|s| - 1], key), s[|s| - 1], key)
  }

  /** The subsequence of `s` whose elements have key `k`. */
  function WithKey<T>(s: seq<T>, key: T -> int, k: int): (r: seq<T>)
  {
    if s == [] then []
    else (if key(s[0]) == k then [s[0]] else []) + WithKey(s[1..], key, k)
  }

  lemma {:induction false} WithKeyAppend<T>(s: seq<T>, t: seq<T>, key: T -> int, k: int)
    ensures WithKey(s + t, key, k) == WithKey(s, key, k) + WithKey(t, key, k)
  {
    if s != [] {
      assert (s + t)[1..] == s[1..] + t;
      WithKeyAppend(s[1..], t, key, k);
    } else {
      assert s + t == t;
    }
  }

  /** Inserting adds `x` and keeps every element of `s`. */
  lemma {:induction false} InsertPerm<T>(s: seq<T>, x: T, key: T -> int)
    ensures multiset(Insert(s, x, key)) == multiset(s) + multiset{x}
  {
    if s != [] && key(s[0]) >= key(x) {
      InsertPerm(s[1..], x, key);
      assert s == [s[0]] + s[1..];
    }
  }

  /** Every key of the inserted sequence is a key of `s` or the key of `x`. */
  lemma {:induction false} InsertKeys<T>(s: seq<T>, x: T, key: T -> int, b: int)
    requires key(x) <= b && forall m :: 0 <= m < |s| ==> key(s[m]) <= b
    ensures forall m :: 0 <= m < |Insert(s, x, key)| ==> key(Insert(s, x, key)[m]) <= b
  {
    if s != [] && key(s[0]) >= key(x) {
      InsertKeys(s[1..], x, key, b);
    }
  }

  lemma {:induction false} InsertSorted<T>(s: seq<T>, x: T, key: T -> int)
    requires SortedDesc(s, key)
    ensures SortedDesc(Insert(s, x, key), key)
  {
    if s != [] && key(s[0]) >= key(x) {
      InsertSorted(s[1..], x, key);
      InsertKeys(s[1..], x, key, key(s[0]));
    }
  }

  /** The input element with key `k` are moved in front of `x` only if `x` does not share key `k`. */
  lemma {:induction false} InsertWithKey<T>(s: seq<T>, x: T, key: T -> int, k: int)
    requires SortedDesc(s, key)
    ensures WithKey(Insert(s, x, key), key, k)
         == WithKey(s, key, k) + (if key(x) == k then [x] else [])
  {
    var tail := if key(x) == k then [x] else [];
    if s == [] {
      WithKeyCons(x, [], key, k);
    } else if key(s[0]) >= key(x) {
      var head := if key(s[0]) == k then [s[0]] else [];
      InsertWithKey(s[1..], x, key, k);
      WithKeyCons(s[0], Insert(s[1..], x, key), key, k);
      WithKeyCons(s[0], s[1..], key, k);
      assert [s[0]] + s[1..] == s;
      calc {
        WithKey(Insert(s, x, key), key, k);
        head + WithKey(Insert(s[1..], x, key), key, k);
        head + (WithKey(s[1..], key, k) + tail);
        WithKey(s, key, k) + tail;
      }
    } else {
      // every element of s has a key below key(x): none of them has key k when x does
      if key(x) == k {
        NoneWithKey(s, key, k);
      }
      WithKeyCons(x, s, key, k);
    }
  }

  lemma WithKeyCons<T>(y: T, s: seq<T>, key: T -> int, k: int)
    ensures WithKey([y] + s, key, k) == (if key(y) == k then [y] else []) + WithKey(s, key, k)
  {
    assert ([y] + s)[1..] == s;
  }

  lemma {:induction false} NoneWithKey<T>(s: seq<T>, key: T -> int, k: int)
    requires forall i :: 0 <= i < |s| ==> key(s[i]) < k
    ensures WithKey(s, key, k) == []
  {
    if s != [] {
      NoneWithKey(s[1..], key, k);
    }
  }

  /** The sorted result is ordered non-increasingly by key. */
  lemma {:induction false} SortDescSorted<T>(s: seq<T>, key: T -> int)
    ensures SortedDesc(SortDesc(s, key), key)
  {
    if s != [] {
      var init := s[..|s| - 1];
      SortDescSorted(init, key);
      InsertSorted(SortDesc(init, key), s[|s| - 1], key);
    }
  }

  /** The sorted result is a permutation of the input. */
  lemma {:induction false} SortDescPerm<T>(s: seq<T>, key: T -> int)
    ensures multiset(SortDesc(s, key)) == multiset(s)
  {
    if s != [] {
      var init := s[..|s| - 1];
      SortDescPerm(init, key);
      InsertPerm(SortDesc(init, key), s[|s| - 1], key);
      assert s == init + [s[|s| - 1]];
    }
  }

  /** Elements with equal keys keep their input order. */
  lemma {:induction false} SortDescStable<T>(s: seq<T>, key: T -> int, k: int)
    ensures WithKey(SortDesc(s, key), key, k) == WithKey(s, key, k)
  {
    if s != [] {
      var init, last := s[..|s| - 1], s[|s| - 1];
      SortDescStable(init, key, k);
      SortDescSorted(init, key);
      InsertWithKey(SortDesc(init, key), last, key, k);
      assert s == init + [last];
      WithKeyAppend(init, [last], key, k);
      WithKeyCons(last, [], key, k);
      assert [last] + [] == [last];
    }
  }

  /** Inserting into a sorted sequence places `x` at the first position whose key is below `key(x)`. */
  lemma {:induction false} InsertAt<T>(s: seq<T>, x: T, key: T -> int, j: nat)
    requires j <= |s|
    requires forall m :: 0 <= m < j ==> key(s[m]) >= key(x)
    requires j < |s| ==> key(s[j]) < key(x)
    ensures Insert(s, x, key) == s[..j] + [x] + s[j..]
  {
    if j > 0 {
      InsertAt(s[1..], x, key, j - 1);
      assert s[1..][..j - 1] == s[1..j];
      assert s[1..][j - 1..] == s[j..];
      assert s[..j] == [s[0]] + s[1..j];
    }
  }

  /** Moves `a[i]` left past the elements of the sorted prefix `a[..i]` whose key is smaller. */
  method InsertLast<T>(a: array<T>, i: nat, key: T -> int)
    requires i < a.Length
    requires SortedDesc(a[..i], key)
    modifies a
    ensures a[..i + 1] == Insert(old(a[..i]), old(a[i]), key)
    ensures a[i + 1..] == old(a[i + 1..])
  {
    ghost var prefix := a[..i];
    var x := a[i];
    var j := ShiftGreater(a, i, key, key(x));
    a[j] := x;
    forall m | 0 <= m < j ensures key(prefix[m]) >= key(x) {
      assert key(prefix[m]) >= key(prefix[j - 1]);
    }
    InsertAt(prefix, x, key, j);
    assert a[..i + 1] == prefix[..j] + [x] + prefix[j..];
  }

  /**
   * Shifts one place right the elements at the end of `a[..i]` whose key is
   * below `k`, overwriting `a[i]`; `j` is the gap left in front of them.
   */
  method ShiftGreater<T>(a: array<T>, i: nat, key: T -> int, k: int) returns (j: nat)
    requires i < a.Length
    modifies a
    ensures j <= i
    ensures forall m :: 0 <= m < j ==> a[m] == old(a[m])
    ensures forall m :: j < m <= i ==> a[m] == old(a[m - 1])
    ensures forall m :: i < m < a.Length ==> a[m] == old(a[m])
    ensures forall m :: j <= m < i ==> key(old(a[m])) < k
    ensures j > 0 ==> key(a[j - 1]) >= k
  {
    j := i;
    while j > 0 && key(a[j - 1]) < k
      invariant 0 <= j <= i
      invariant forall m :: 0 <= m < j ==> a[m] == old(a[m])
      invariant forall m :: j < m <= i ==> a[m] == old(a[m - 1])
      invariant forall m :: i < m < a.Length ==> a[m] == old(a[m])
      invariant forall m :: j <= m < i ==> key(old(a[m])) < k
    {
      a[j] := a[j - 1];
      j := j - 1;
    }
  }

  /** Insertion sort in place; the array ends up holding exactly `SortDesc` of its old contents. */
  method SortInPlace<T>(a: array<T>, key: T -> int)
    modifies a
    ensures a[..] == SortDesc(old(a[..]), key)
  {
    ghost var orig := a[..];
    var i := 0;
    while i < a.Length
      invariant 0 <= i <= a.Length
      invariant a[..i] == SortDesc(orig[..i], key)
      invariant a[i..] == orig[i..]
    {
      SortDescSorted(orig[..i], key);
      assert a[i] == orig[i];
      InsertLast(a, i, key);
      assert orig[..i + 1][..i] == orig[..i];
      i := i + 1;
    }
    assert orig[..a.Length] == orig;
  }
}
