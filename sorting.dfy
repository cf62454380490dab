/**
  A stable sort by an integer key. `Array.prototype.sort` is stable, so the
  page's two comparator sorts are modelled by one stable insertion sort: the
  function `InsertionSorted` says what it computes, the method `InsertionSort`
  does it in place on an array.
 */
module Sorting {
  import opened Seqs

  /** `s` is in non-decreasing order of `key`. */
  ghost predicate SortedBy<T>(s: seq<T>, key: T -> int)
  {
    forall i, j :: 0 <= i < j < |s| ==> key(s[i]) <= key(s[j])
  }

  /** The elements whose key is `k`. */
  function KeyIs<T>(key: T -> int, k: int): (p: T -> bool)
  {
    x => key(x) == k
  }

  /**
    `s` with `x` placed after every trailing element whose key is larger than
    `x`'s; on a sorted `s` that is after every element of key at most `key(x)`.
   */
  function Insert<T>(s: seq<T>, x: T, key: T -> int): (r: seq<T>)
    decreases |s|
  {
    if s == [] || key(s[|s| - 1]) <= key(x) then s + [x]
    else Insert(s[..|s| - 1], x, key) + [s[|s| - 1]]
  }

  /** Inserting adds `x` and loses nothing. */
  lemma {:induction false} InsertPermutes<T>(s: seq<T>, x: T, key: T -> int)
    ensures multiset(Insert(s, x, key)) == multiset(s) + multiset{x}
    decreases |s|
  {
    if s != [] && key(s[|s| - 1]) > key(x) {
      InsertPermutes(s[..|s| - 1], x, key);
      assert s == s[..|s| - 1] + [s[|s| - 1]];
    }
  }

  /** Insertion sort of `s` by `key`, taking the elements left to right. */
  function InsertionSorted<T>(s: seq<T>, key: T -> int): (r: seq<T>)
    decreases |s|
  {
    if s == [] then [] else Insert(InsertionSorted(s[..|s| - 1], key), s[|s| - 1], key)
  }

  /** No element of `s` has a key above `b`. */
  ghost predicate KeysAtMost<T>(s: seq<T>, key: T -> int, b: int)
  {
    forall i :: 0 <= i < |s| ==> key(s[i]) <= b
  }

  lemma {:induction false} InsertKeepsBound<T>(s: seq<T>, x: T, key: T -> int, b: int)
    requires KeysAtMost(s, key, b) && key(x) <= b
    ensures KeysAtMost(Insert(s, x, key), key, b)
    decreases |s|
  {
    if s != [] && key(s[|s| - 1]) > key(x) {
      InsertKeepsBound(s[..|s| - 1], x, key, b);
    }
  }

  lemma {:induction false} InsertKeepsSorted<T>(s: seq<T>, x: T, key: T -> int)
    requires SortedBy(s, key)
    ensures SortedBy(Insert(s, x, key), key)
    decreases |s|
  {
    if s != [] && key(s[|s| - 1]) > key(x) {
      var init, last := s[..|s| - 1], s[|s| - 1];
      InsertKeepsSorted(init, x, key);
      InsertKeepsBound(init, x, key, key(last));
      var r := Insert(init, x, key);
      assert Insert(s, x, key) == r + [last];
      assert forall i :: 0 <= i < |r| ==> key(r[i]) <= key(last);
    }
  }

  /** The insertion sort's result is in non-decreasing key order. */
  lemma {:induction false} SortedIsSorted<T>(s: seq<T>, key: T -> int)
    ensures SortedBy(InsertionSorted(s, key), key)
    decreases |s|
  {
    if s != [] {
      SortedIsSorted(s[..|s| - 1], key);
      InsertKeepsSorted(InsertionSorted(s[..|s| - 1], key), s[|s| - 1], key);
    }
  }

  /** The insertion sort's result is a permutation of its input. */
  lemma {:induction false} SortedIsPermutation<T>(s: seq<T>, key: T -> int)
    ensures multiset(InsertionSorted(s, key)) == multiset(s)
    decreases |s|
  {
    if s != [] {
      SortedIsPermutation(s[..|s| - 1], key);
      InsertPermutes(InsertionSorted(s[..|s| - 1], key), s[|s| - 1], key);
      assert s == s[..|s| - 1] + [s[|s| - 1]];
    }
  }

  /** Inserting keeps the order among equal keys and puts `x` last of its key. */
  lemma {:induction false} InsertStable<T>(s: seq<T>, x: T, key: T -> int, k: int)
    ensures Filter(Insert(s, x, key), KeyIs(key, k))
         == Filter(s, KeyIs(key, k)) + Filter([x], KeyIs(key, k))
    decreases |s|
  {
    var p := KeyIs(key, k);
    if s == [] || key(s[|s| - 1]) <= key(x) {
      FilterConcat(s, [x], p);
    } else {
      var init, last := s[..|s| - 1], s[|s| - 1];
      InsertStable(init, x, key, k);
      FilterConcat(Insert(init, x, key), [last], p);
      assert s == init + [last];
      FilterConcat(init, [last], p);
      if key(x) == k {
        assert Filter([last], p) == [];
      }
    }
  }

  /**
    The insertion sort is stable: the elements of any one key appear in the
    result in the same relative order as in the input.
   */
  lemma {:induction false} SortedIsStable<T>(s: seq<T>, key: T -> int, k: int)
    ensures Filter(InsertionSorted(s, key), KeyIs(key, k)) == Filter(s, KeyIs(key, k))
    decreases |s|
  {
    if s != [] {
      var init, last := s[..|s| - 1], s[|s| - 1];
      SortedIsStable(init, key, k);
      InsertStable(InsertionSorted(init, key), last, key, k);
      assert s == init + [last];
      FilterConcat(init, [last], KeyIs(key, k));
    }
  }

  /** One step of the shifting loop: moving past an element of larger key. */
  lemma InsertStep<T>(sorted: seq<T>, x: T, key: T -> int, j: nat)
    requires 0 < j <= |sorted| && key(sorted[j - 1]) > key(x)
    ensures Insert(sorted[..j], x, key) + sorted[j..] == Insert(sorted[..j - 1], x, key) + sorted[j - 1..]
  {
    assert sorted[..j][..j - 1] == sorted[..j - 1];
    assert sorted[j - 1..] == [sorted[j - 1]] + sorted[j..];
  }

  /** One shift: the element before the gap is copied into it, and the gap moves one place left. */
  lemma ShiftStep<T>(sorted: seq<T>, gap: T, rest: seq<T>, j: nat)
    requires 0 < j <= |sorted|
    ensures (sorted[..j] + [gap] + sorted[j..] + rest)[j := sorted[j - 1]]
         == sorted[..j - 1] + [sorted[j - 1]] + sorted[j - 1..] + rest
  {
    var before := sorted[..j] + [gap] + sorted[j..] + rest;
    var after := sorted[..j - 1] + [sorted[j - 1]] + sorted[j - 1..] + rest;
    assert |before[j := sorted[j - 1]]| == |after|;
    forall k | 0 <= k < |after| ensures before[j := sorted[j - 1]][k] == after[k] {
      if k < j - 1 {
      } else if k == j - 1 || k == j {
      } else if k <= |sorted| {
        assert before[k] == sorted[k - 1] && after[k] == sorted[k - 1];
      } else {
        assert before[k] == rest[k - |sorted| - 1] && after[k] == rest[k - |sorted| - 1];
      }
    }
  }

  /**
    The inner loop of the sort: shifts the elements of the sorted prefix
    `a[..i]` whose key is larger than `a[i]`'s one place to the right and puts
    `a[i]` into the gap.
   */
  method InsertInPlace<T>(a: array<T>, i: nat, key: T -> int)
    requires i < a.Length
    modifies a
    ensures a[..i + 1] == Insert(old(a[..i]), old(a[i]), key)
    ensures a[i + 1..] == old(a[i + 1..])
  {
    var x := a[i];
    ghost var sorted := a[..i];
    ghost var rest := a[i + 1..];
    var j := i;
    assert sorted[..j] == sorted && sorted[j..] == [];
    assert a[..] == sorted[..j] + [a[j]] + sorted[j..] + rest;
    while j > 0 && key(a[j - 1]) > key(x)
      invariant 0 <= j <= i
      invariant a[..] == sorted[..j] + [a[j]] + sorted[j..] + rest
      invariant Insert(sorted, x, key) == Insert(sorted[..j], x, key) + sorted[j..]
    {
      InsertStep(sorted, x, key, j);
      ShiftStep(sorted, a[j], rest, j);
      assert a[j - 1] == sorted[j - 1];
      a[j] := a[j - 1];
      j := j - 1;
    }
    ShiftStepDone(sorted, a[j], x, rest, j);
    a[j] := x;
    assert j > 0 ==> sorted[..j][j - 1] == sorted[j - 1];
    assert Insert(sorted[..j], x, key) == sorted[..j] + [x];
    ghost var after := sorted[..j] + [x] + sorted[j..] + rest;
    assert a[..] == after;
    assert a[..i + 1] == after[..|sorted| + 1] && a[i + 1..] == after[|sorted| + 1..];
  }

  /** Filling the gap with `x`: the first `|sorted| + 1` places then hold the insertion, the others `rest`. */
  lemma ShiftStepDone<T>(sorted: seq<T>, gap: T, x: T, rest: seq<T>, j: nat)
    requires j <= |sorted|
    ensures (sorted[..j] + [gap] + sorted[j..] + rest)[j := x] == sorted[..j] + [x] + sorted[j..] + rest
    ensures var after := sorted[..j] + [x] + sorted[j..] + rest;
      after[..|sorted| + 1] == sorted[..j] + [x] + sorted[j..] && after[|sorted| + 1..] == rest
  {
    var before := sorted[..j] + [gap] + sorted[j..] + rest;
    var after := sorted[..j] + [x] + sorted[j..] + rest;
    forall k | 0 <= k < |after| ensures before[j := x][k] == after[k] {
      if k > j && k <= |sorted| {
        assert before[k] == sorted[k - 1] && after[k] == sorted[k - 1];
      } else if k > |sorted| {
        assert before[k] == rest[k - |sorted| - 1] && after[k] == rest[k - |sorted| - 1];
      }
    }
  }

  /** Sorts `a` in place by `key`, the way `InsertionSorted` describes. */
  method InsertionSort<T>(a: array<T>, key: T -> int)
    modifies a
    ensures a[..] == InsertionSorted(old(a[..]), key)
  {
    ghost var input := a[..];
    var i := 0;
    while i < a.Length
      invariant 0 <= i <= a.Length
      invariant a[..i] == InsertionSorted(input[..i], key)
      invariant a[i..] == input[i..]
    {
      assert input[..i + 1][..i] == input[..i];
      assert a[i] == input[i];
      InsertInPlace(a, i, key);
      i := i + 1;
    }
    assert input[..a.Length] == input;
  }
}
