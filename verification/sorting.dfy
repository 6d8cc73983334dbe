/**
 * Ascending sort of timestamps, the `dates.sort()` that ends the
 * scheduler. Timestamps are plain integers, so stability does not matter:
 * the sorted permutation of a sequence is unique (SortedPermutationUnique).
 */
module Sorting {

  predicate Sorted(s: seq<int>) {
    forall i, j :: 0 <= i < j < |s| ==> s[i] <= s[j]
  }

  /** Inserts `x` into an already sorted sequence, keeping it sorted. */
  function Insert(x: int, s: seq<int>): (r: seq<int>)
    requires Sorted(s)
    ensures Sorted(r)
    ensures multiset(r) == multiset(s) + multiset{x}
    ensures |r| == |s| + 1
    ensures forall k :: 0 <= k < |r| ==> r[k] == x || r[k] in s
  {
    if |s| == 0 then [x]
    else if x <= s[0] then [x] + s
    else
      var rest := Insert(x, s[1..]);
      assert s == [s[0]] + s[1..];
      InsertAboveHead(s[0], x, s[1..], rest);
      [s[0]] + rest
  }

  /** Putting `h` in front keeps `rest` sorted when every element of `rest`
      is `x` or comes from `tail`, and `h` is at most all of those. */
  lemma InsertAboveHead(h: int, x: int, tail: seq<int>, rest: seq<int>)
    requires Sorted([h] + tail) && h < x && Sorted(rest)
    requires forall k :: 0 <= k < |rest| ==> rest[k] == x || rest[k] in tail
    ensures Sorted([h] + rest)
  {
    forall k | 0 <= k < |rest|
      ensures h <= rest[k]
    {
      if rest[k] != x {
        var j :| 0 <= j < |tail| && tail[j] == rest[k];
        assert ([h] + tail)[0] == h && ([h] + tail)[j + 1] == tail[j];
      }
    }
  }

  /** Insertion sort: an ascending permutation of `s`. */
  function Sort(s: seq<int>): (r: seq<int>)
    ensures Sorted(r)
    ensures multiset(r) == multiset(s)
    ensures |r| == |s|
  {
    if |s| == 0 then []
    else
      assert s == s[..|s| - 1] + [s[|s| - 1]];
      Insert(s[|s| - 1], Sort(s[..|s| - 1]))
  }

  /** The first element of a sorted sequence is its least element. */
  lemma SortedHeadIsMin(s: seq<int>, x: int)
    requires Sorted(s)
    requires x in multiset(s)
    ensures |s| > 0 && s[0] <= x
  {
    assert x in s;
    var k :| 0 <= k < |s| && s[k] == x;
  }

  /** Two sorted sequences with the same elements are equal, so the sort's
      output is determined by its input multiset alone. */
  lemma {:induction false} SortedPermutationUnique(a: seq<int>, b: seq<int>)
    requires Sorted(a) && Sorted(b)
    requires multiset(a) == multiset(b)
    ensures a == b
  {
    if |a| == 0 {
      assert |multiset(b)| == 0;
    } else {
      assert a[0] in multiset(a);
      SortedHeadIsMin(b, a[0]);
      assert b[0] in multiset(b);
      SortedHeadIsMin(a, b[0]);
      assert a[0] == b[0];
      assert a == [a[0]] + a[1..];
      assert b == [b[0]] + b[1..];
      assert multiset(a) == multiset{a[0]} + multiset(a[1..]);
      assert multiset(b) == multiset{b[0]} + multiset(b[1..]);
      assert multiset(a[1..]) == multiset(a) - multiset{a[0]};
      assert multiset(b[1..]) == multiset(b) - multiset{b[0]};
      SortedPermutationUnique(a[1..], b[1..]);
    }
  }
}
