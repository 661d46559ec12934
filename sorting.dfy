/** Ordering helpers for lists of floats (modelled as reals): Python's `sorted`
    (a fresh sorted list), `list.sort()` (in place), `min` and `max`. */
module Sorting {

  /** Nondecreasing order. */
  predicate Sorted(s: seq<real>)
  {
    forall i, j :: 0 <= i < j < |s| ==> s[i] <= s[j]
  }

  /** Inserts x into a sorted list in front of the first element larger than it. */
  function Insert(x: real, s: seq<real>): (r: seq<real>)
    ensures |r| == |s| + 1
    ensures r[0] == if |s| == 0 || x <= s[0] then x else s[0]
    ensures multiset(r) == multiset(s) + multiset{x}
  {
    if |s| == 0 then [x]
    else if x <= s[0] then [x] + s
    else
      assert s == [s[0]] + s[1..];
      [s[0]] + Insert(x, s[1..])
  }

  /** A sorted list stays sorted when an element no larger than its head is put in front. */
  lemma SortedCons(a: real, s: seq<real>)
    requires Sorted(s)
    requires |s| > 0 ==> a <= s[0]
    ensures Sorted([a] + s)
  {
    var r := [a] + s;
    forall i, j | 0 <= i < j < |r| ensures r[i] <= r[j] {
      if i == 0 && j > 1 {
        assert r[1] <= r[j];
      }
    }
  }

  lemma {:induction false} InsertCorrect(x: real, s: seq<real>)
    requires Sorted(s)
    ensures Sorted(Insert(x, s))
  {
    if |s| == 0 {
    } else if x <= s[0] {
      SortedCons(x, s);
    } else {
      assert Sorted(s[1..]);
      InsertCorrect(x, s[1..]);
      if |s| > 1 {
        assert s[0] <= s[1];
      }
      SortedCons(s[0], Insert(x, s[1..]));
    }
  }

  /** The value of Python's `sorted(s)`: the sorted permutation of s. */
  function Sort(s: seq<real>): (r: seq<real>)
    ensures Sorted(r)
    ensures multiset(r) == multiset(s)
    ensures |r| == |s|
  {
    if |s| == 0 then []
    else
      assert s == [s[0]] + s[1..];
      InsertCorrect(s[0], Sort(s[1..]));
      var r := Insert(s[0], Sort(s[1..]));
      assert |r| == |multiset(r)|;
      r
  }

  /** The head of a sorted list is at most each of its elements. */
  lemma HeadIsLeast(a: seq<real>, y: real)
    requires Sorted(a) && y in multiset(a)
    ensures a[0] <= y
  {
    var i :| 0 <= i < |a| && a[i] == y;
    if i > 0 {
      assert a[0] <= a[i];
    }
  }

  /** A sorted list is determined by its elements: there is only one sorted
      permutation of a list, so any sorting procedure agrees with Sort. */
  lemma {:induction false} SortedUnique(a: seq<real>, b: seq<real>)
    requires Sorted(a) && Sorted(b)
    requires multiset(a) == multiset(b)
    ensures a == b
  {
    assert |a| == |multiset(a)| == |multiset(b)| == |b|;
    if |a| > 0 {
      HeadIsLeast(a, b[0]);
      HeadIsLeast(b, a[0]);
      assert a[0] == b[0];
      assert a == [a[0]] + a[1..] && b == [b[0]] + b[1..];
      assert multiset(a[1..]) == multiset(a) - multiset{a[0]};
      assert multiset(b[1..]) == multiset(b) - multiset{b[0]};
      assert Sorted(a[1..]) && Sorted(b[1..]);
      SortedUnique(a[1..], b[1..]);
    }
  }

  /** Sorting an already sorted list changes nothing. */
  lemma SortOfSorted(s: seq<real>)
    requires Sorted(s)
    ensures Sort(s) == s
  {
    SortedUnique(Sort(s), s);
  }

  /** Python's in-place `list.sort()`, as an insertion sort over an array. */
  method SortInPlace(a: array<real>)
    modifies a
    ensures a[..] == Sort(old(a[..]))
  {
    var i := 0;
    while i < a.Length
      invariant 0 <= i <= a.Length
      invariant multiset(a[..]) == multiset(old(a[..]))
      invariant Sorted(a[..i])
    {
      InsertAt(a, i);
      i := i + 1;
    }
    assert a[..a.Length] == a[..];
    SortedUnique(a[..], Sort(old(a[..])));
  }

  /** One pass of the insertion sort: sinks a[i] into the sorted prefix a[..i]. */
  method InsertAt(a: array<real>, i: nat)
    requires i < a.Length
    requires Sorted(a[..i])
    modifies a
    ensures Sorted(a[..i + 1])
    ensures multiset(a[..]) == multiset(old(a[..]))
  {
    ghost var pre := a[..];
    var j := ShiftDown(a, i, x => x);
    assert forall p, q :: 0 <= p < q < i ==> pre[..i][p] <= pre[..i][q];
    ShiftedSorted(pre, a[..], i, j);
    ShiftedPermutes(pre, a[..], i, j);
  }

  /** The swapping loop of an insertion-sort pass: a[i] moves down to the
      returned place j while the element in front of it has a larger key,
      the elements it passes each moving up one place. */
  method ShiftDown<T>(a: array<T>, i: nat, key: T -> real) returns (j: nat)
    requires i < a.Length
    modifies a
    ensures j <= i && a[j] == old(a[i])
    ensures forall p :: 0 <= p < j ==> a[p] == old(a[p])
    ensures forall p :: j < p <= i ==> a[p] == old(a[p - 1])
    ensures forall p :: i < p < a.Length ==> a[p] == old(a[p])
    ensures forall p :: j <= p < i ==> key(old(a[i])) < key(old(a[p]))
    ensures j > 0 ==> key(a[j - 1]) <= key(a[j])
  {
    ghost var pre := a[..];
    var x := a[i];
    j := i;
    while j > 0 && key(a[j]) < key(a[j - 1])
      invariant 0 <= j <= i && a[j] == x
      invariant forall p :: 0 <= p < j ==> a[p] == pre[p]
      invariant forall p :: j < p <= i ==> a[p] == pre[p - 1]
      invariant forall p :: i < p < a.Length ==> a[p] == pre[p]
      invariant forall p :: j <= p < i ==> key(x) < key(pre[p])
    {
      a[j - 1], a[j] := a[j], a[j - 1];
      j := j - 1;
    }
  }

  /** After a[i] of a list sorted below i has moved down to position j, past
      larger elements only and stopping behind one no larger, the list is
      sorted up to i. */
  lemma ShiftedSorted(pre: seq<real>, post: seq<real>, i: nat, j: nat)
    requires |post| == |pre| && j <= i < |pre|
    requires forall p, q :: 0 <= p < q < i ==> pre[p] <= pre[q]
    requires forall p :: 0 <= p < j ==> post[p] == pre[p]
    requires post[j] == pre[i]
    requires forall p :: j < p <= i ==> post[p] == pre[p - 1]
    requires forall p :: j <= p < i ==> pre[i] < pre[p]
    requires j > 0 ==> pre[j - 1] <= pre[i]
    ensures Sorted(post[..i + 1])
  {
    forall p, q | 0 <= p < q <= i ensures post[p] <= post[q] {
      if q == j {
        assert p <= j - 1;
      } else if p == j {
        assert q - 1 >= j;
      } else {
        var p', q' := if p < j then p else p - 1, if q < j then q else q - 1;
        assert post[p] == pre[p'] && post[q] == pre[q'] && p' <= q' < i;
      }
    }
  }

  /** Moving one element down to position j permutes the list. */
  lemma ShiftedPermutes<T>(pre: seq<T>, post: seq<T>, i: nat, j: nat)
    requires |post| == |pre| && j <= i < |pre|
    requires forall p :: 0 <= p < j ==> post[p] == pre[p]
    requires post[j] == pre[i]
    requires forall p :: j < p <= i ==> post[p] == pre[p - 1]
    requires forall p :: i < p < |pre| ==> post[p] == pre[p]
    ensures multiset(post) == multiset(pre)
  {
    assert post[..j] == pre[..j];
    assert post[j + 1..i + 1] == pre[j..i];
    assert post[i + 1..] == pre[i + 1..];
    assert post == post[..j] + [post[j]] + post[j + 1..i + 1] + post[i + 1..];
    assert pre == pre[..j] + pre[j..i] + [pre[i]] + pre[i + 1..];
  }

  /** Python's `min(s)`. */
  function Min(s: seq<real>): (m: real)
    requires |s| > 0
    ensures m in s
    ensures forall i :: 0 <= i < |s| ==> m <= s[i]
  {
    if |s| == 1 then s[0]
    else
      var rest := Min(s[1..]);
      assert forall i :: 1 <= i < |s| ==> s[i] == s[1..][i - 1];
      if s[0] <= rest then s[0] else rest
  }

  /** Python's `max(s)`. */
  function Max(s: seq<real>): (m: real)
    requires |s| > 0
    ensures m in s
    ensures forall i :: 0 <= i < |s| ==> s[i] <= m
  {
    if |s| == 1 then s[0]
    else
      var rest := Max(s[1..]);
      assert forall i :: 1 <= i < |s| ==> s[i] == s[1..][i - 1];
      if s[0] >= rest then s[0] else rest
  }

  /** The last element of a sorted list is at least each of its elements. */
  lemma LastIsGreatest(a: seq<real>, y: real)
    requires Sorted(a) && y in multiset(a)
    ensures y <= a[|a| - 1]
  {
    var i :| 0 <= i < |a| && a[i] == y;
    if i < |a| - 1 {
      assert a[i] <= a[|a| - 1];
    }
  }

  /** The first element of the sorted list is the minimum. */
  lemma SortedFirstIsMin(s: seq<real>)
    requires |s| > 0
    ensures Sort(s)[0] == Min(s)
  {
    var r := Sort(s);
    HeadIsLeast(r, Min(s));
    assert r[0] in multiset(s);
  }

  /** The last element of the sorted list is the maximum. */
  lemma SortedLastIsMax(s: seq<real>)
    requires |s| > 0
    ensures Sort(s)[|s| - 1] == Max(s)
  {
    var r := Sort(s);
    LastIsGreatest(r, Max(s));
    assert r[|r| - 1] in multiset(s);
  }

  /** Two lists with the same multiset have the same members. */
  lemma SameElements(s: seq<real>, r: seq<real>)
    requires multiset(s) == multiset(r)
    ensures forall x :: x in s <==> x in r
  {
    forall x ensures x in s <==> x in r {
      assert x in s <==> x in multiset(s);
      assert x in r <==> x in multiset(r);
    }
  }
}
