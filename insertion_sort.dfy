/**
 * The insertion-sort fixture: the first n integers of a source array are
 * copied into a destination buffer, which is then sorted ascending in place
 * by insertion sort (hold the key, shift larger elements one place right,
 * drop the key into the gap).
 *
 * The specification is SortSeq, insertion sort written as a function on
 * sequences. Insert scans from the back with the same test the array code
 * uses (an element moves right while it is greater than the key), so the
 * array method is proved step for step against it; the lemmas prove that
 * SortSeq yields the sorted permutation of its input.
 */
module InsertionSort {

  /** Non-decreasing order. */
  ghost predicate Sorted(s: seq<int>) {
    forall i, j :: 0 <= i < j < |s| ==> s[i] <= s[j]
  }

  /**
   * Insert key into p, moving from the back past every element greater
   * than key.
   */
  function Insert(key: int, p: seq<int>): seq<int>
    decreases |p|
  {
    if p == [] then [key]
    else if p[|p| - 1] > key then Insert(key, p[..|p| - 1]) + [p[|p| - 1]]
    else p + [key]
  }

  /** Insertion sort: sort all but the last element, then insert it. */
  function SortSeq(s: seq<int>): seq<int>
    decreases |s|
  {
    if s == [] then [] else Insert(s[|s| - 1], SortSeq(s[..|s| - 1]))
  }

  /** Insert adds exactly the key to the multiset of p. */
  lemma {:induction false} InsertPermutation(key: int, p: seq<int>)
    ensures multiset(Insert(key, p)) == multiset(p) + multiset{key}
    decreases |p|
  {
    if p != [] && p[|p| - 1] > key {
      var init, last := p[..|p| - 1], p[|p| - 1];
      assert p == init + [last];
      InsertPermutation(key, init);
    }
  }

  /** Inserting into a sorted sequence keeps it sorted. */
  lemma {:induction false} InsertSorted(key: int, p: seq<int>)
    requires Sorted(p)
    ensures Sorted(Insert(key, p))
    decreases |p|
  {
    if p != [] && p[|p| - 1] > key {
      var init, last := p[..|p| - 1], p[|p| - 1];
      var q := Insert(key, init);
      InsertSorted(key, init);
      InsertPermutation(key, init);
      forall k | 0 <= k < |q|
        ensures q[k] <= last
      {
        assert q[k] in multiset(q);
        assert q[k] == key || q[k] in init;
      }
      SortedAppend(q, last);
    }
  }

  /** Appending an element no smaller than any of a sorted sequence keeps it sorted. */
  lemma SortedAppend(q: seq<int>, last: int)
    requires Sorted(q)
    requires forall k :: 0 <= k < |q| ==> q[k] <= last
    ensures Sorted(q + [last])
  {
  }

  /** SortSeq returns a permutation of its input. */
  lemma {:induction false} SortSeqPermutation(s: seq<int>)
    ensures multiset(SortSeq(s)) == multiset(s)
    decreases |s|
  {
    if s != [] {
      var init, last := s[..|s| - 1], s[|s| - 1];
      assert s == init + [last];
      SortSeqPermutation(init);
      InsertPermutation(last, SortSeq(init));
    }
  }

  /** SortSeq returns a sorted sequence. */
  lemma {:induction false} SortSeqSorted(s: seq<int>)
    ensures Sorted(SortSeq(s))
    decreases |s|
  {
    if s != [] {
      var init := s[..|s| - 1];
      SortSeqSorted(init);
      InsertSorted(s[|s| - 1], SortSeq(init));
    }
  }

  /** The last element of a non-empty sorted sequence is its largest. */
  lemma SortedLastIsMax(s: seq<int>, x: int)
    requires Sorted(s) && s != [] && x in s
    ensures x <= s[|s| - 1]
  {
    var k :| 0 <= k < |s| && s[k] == x;
  }

  /** Dropping the last element keeps a sequence sorted. */
  lemma SortedInit(s: seq<int>)
    requires Sorted(s) && s != []
    ensures Sorted(s[..|s| - 1])
  {
  }

  /** Removing equal last elements keeps two multisets equal. */
  lemma MultisetInit(a: seq<int>, b: seq<int>)
    requires a != [] && b != [] && a[|a| - 1] == b[|b| - 1]
    requires multiset(a) == multiset(b)
    ensures multiset(a[..|a| - 1]) == multiset(b[..|b| - 1])
  {
    var x, ai, bi := a[|a| - 1], a[..|a| - 1], b[..|b| - 1];
    assert a == ai + [x] && b == bi + [x];
    forall e
      ensures multiset(ai)[e] == multiset(bi)[e]
    {
      assert multiset(a)[e] == multiset(ai)[e] + multiset{x}[e];
      assert multiset(b)[e] == multiset(bi)[e] + multiset{x}[e];
    }
  }

  /**
   * Two sorted sequences with the same multiset are equal: the sorted
   * permutation of a sequence is unique.
   */
  lemma {:induction false} SortedPermutationUnique(a: seq<int>, b: seq<int>)
    requires Sorted(a) && Sorted(b)
    requires multiset(a) == multiset(b)
    ensures a == b
    decreases |a|
  {
    assert |a| == |b| by {
      assert |a| == |multiset(a)| && |b| == |multiset(b)|;
    }
    if a != [] {
      var n := |a| - 1;
      assert a[n] == b[n] by {
        assert a[n] in multiset(a) && b[n] in multiset(b);
        SortedLastIsMax(b, a[n]);
        SortedLastIsMax(a, b[n]);
      }
      MultisetInit(a, b);
      SortedInit(a);
      SortedInit(b);
      SortedPermutationUnique(a[..n], b[..n]);
      assert a == a[..n] + [a[n]] && b == b[..n] + [b[n]];
    }
  }

  /** SortSeq(s) is the sorted permutation of s. */
  lemma SortSeqIsSortedPermutation(s: seq<int>, t: seq<int>)
    ensures Sorted(SortSeq(s)) && multiset(SortSeq(s)) == multiset(s)
    ensures Sorted(t) && multiset(t) == multiset(s) <==> t == SortSeq(s)
  {
    SortSeqSorted(s);
    SortSeqPermutation(s);
    if Sorted(t) && multiset(t) == multiset(s) {
      SortedPermutationUnique(t, SortSeq(s));
    }
  }

  /** Sorting a sequence that is already sorted leaves it unchanged. */
  lemma SortSeqIdempotent(s: seq<int>)
    requires Sorted(s)
    ensures SortSeq(s) == s
  {
    SortSeqIsSortedPermutation(s, s);
  }

  /** The copy loop: dst[0..n) receives src[0..n); nothing else changes. */
  method CopyPrefix(src: array<int>, dst: array<int>, n: nat)
    requires src != dst
    requires n <= src.Length && n <= dst.Length
    modifies dst
    ensures dst[..n] == src[..n]
    ensures dst[n..] == old(dst[n..])
  {
    for i := 0 to n
      invariant dst[..i] == src[..i]
      invariant dst[i..] == old(dst[i..])
    {
      dst[i] := src[i];
      assert dst[..i + 1] == dst[..i] + [dst[i]];
    }
  }

  /**
   * Insertion sort of a[0..n) in place: each outer step inserts a[i] into
   * the sorted prefix a[0..i).
   */
  method InsertionSortPrefix(a: array<int>, n: nat)
    requires n <= a.Length
    modifies a
    ensures a[..n] == SortSeq(old(a[..n]))
    ensures a[n..] == old(a[n..])
  {
    ghost var orig := a[..];
    var i := 1;
    while i < n
      invariant 1 <= i && (i <= n || n == 0)
      invariant i <= n ==> a[..i] == SortSeq(orig[..i]) && a[i..] == orig[i..]
      invariant i <= n ==> Sorted(a[..i]) && multiset(a[..n]) == multiset(orig[..n])
      invariant n == 0 ==> a[..] == orig
    {
      ghost var before := a[..];
      InsertKey(a, i);
      OuterStep(orig, before, a[..], i, n);
      i := i + 1;
    }
  }

  /**
   * The body of one outer iteration: hold key = a[i], shift every element
   * of a[0..i) greater than key one place right (ShiftGreater), and drop
   * key into the hole at j + 1. The result on a[0..i] is Insert(key, a[0..i));
   * a[i + 1..] is untouched.
   */
  method InsertKey(a: array<int>, i: nat)
    requires i < a.Length
    modifies a
    ensures a[..i + 1] == Insert(old(a[i]), old(a[..i]))
    ensures a[i + 1..] == old(a[i + 1..])
  {
    ghost var before := a[..];
    var key := a[i];
    var j := ShiftGreater(a, i, key);
    ghost var shifted := a[..];
    a[j + 1] := key;
    InsertAfterShift(before, shifted, i, j);
    assert a[..] == shifted[j + 1 := key];
  }

  /**
   * The inner loop: scanning down from i - 1, move each element greater
   * than key one place right, and stop at the first one that is not greater
   * (or below index 0). The returned j is that stopping index; the elements
   * it passed now sit in a[j + 2..i], and a[j + 1] is the hole.
   */
  method ShiftGreater(a: array<int>, i: nat, key: int) returns (j: int)
    requires i < a.Length && a[i] == key
    modifies a
    ensures Shifted(old(a[..]), a[..], i, j)
    ensures j >= 0 ==> a[j] <= key
  {
    ghost var before := a[..];
    j := i - 1;
    while j >= 0 && a[j] > key
      invariant Shifted(before, a[..], i, j)
    {
      ghost var cur := a[..];
      a[j + 1] := a[j];
      ShiftOnce(before, cur, i, j);
      assert a[..] == cur[j + 1 := cur[j]];
      j := j - 1;
    }
  }

  /**
   * The inner loop's invariant, with cur the array and before the array when
   * the outer iteration began: cur[0..j] is unchanged, before[j + 1..i) sits
   * one place to the right in cur[j + 2..i], and all of it is greater than
   * the key before[i]; cur[j + 1] is the hole; nothing after i has moved.
   */
  ghost predicate Shifted(before: seq<int>, cur: seq<int>, i: nat, j: int) {
    && i < |before| == |cur|
    && -1 <= j < i
    && cur[..j + 1] == before[..j + 1]
    && cur[j + 2..i + 1] == before[j + 1..i]
    && cur[i + 1..] == before[i + 1..]
    && forall k :: j < k < i ==> before[k] > before[i]
  }

  /**
   * One shift, copying cur[j] into cur[j + 1] when cur[j] is greater than
   * the key, moves the hole one place left: the invariant holds for j - 1.
   */
  lemma ShiftOnce(before: seq<int>, cur: seq<int>, i: nat, j: int)
    requires Shifted(before, cur, i, j)
    requires j >= 0 && cur[j] > before[i]
    ensures Shifted(before, cur[j + 1 := cur[j]], i, j - 1)
  {
    var next := cur[j + 1 := cur[j]];
    assert cur[j] == before[j] by {
      assert cur[..j + 1][j] == before[..j + 1][j];
    }
    assert next[..j] == before[..j] by {
      assert next[..j] == cur[..j + 1][..j];
      assert before[..j] == before[..j + 1][..j];
    }
    assert next[j + 1..i + 1] == before[j..i] by {
      assert next[j + 1..i + 1] == [cur[j]] + cur[j + 2..i + 1];
      assert before[j..i] == [before[j]] + before[j + 1..i];
    }
    assert next[i + 1..] == cur[i + 1..];
  }

  /**
   * Where Insert puts the key: when every element of right is greater than
   * key and the last element of left (if any) is not, Insert(key, left +
   * right) puts key between left and right.
   */
  lemma {:induction false} InsertBetween(key: int, left: seq<int>, right: seq<int>)
    requires left != [] ==> left[|left| - 1] <= key
    requires forall k :: 0 <= k < |right| ==> right[k] > key
    ensures Insert(key, left + right) == left + [key] + right
    decreases |right|
  {
    if right == [] {
      assert left + right == left;
    } else {
      var rinit, r := right[..|right| - 1], right[|right| - 1];
      assert (left + right)[..|left + right| - 1] == left + rinit;
      InsertBetween(key, left, rinit);
      assert left + [key] + rinit + [r] == left + [key] + right;
    }
  }

  /**
   * One outer iteration: if a[0..i) was the sorted prefix SortSeq(orig[0..i))
   * and the key orig[i] has been inserted, a[0..i] is SortSeq(orig[0..i]),
   * still sorted, and a[0..n) is still a permutation of orig[0..n).
   */
  lemma OuterStep(orig: seq<int>, before: seq<int>, after: seq<int>, i: nat, n: nat)
    requires i < n <= |orig| == |before| == |after|
    requires before[..i] == SortSeq(orig[..i]) && before[i..] == orig[i..]
    requires after[..i + 1] == Insert(before[i], before[..i])
    requires after[i + 1..] == before[i + 1..]
    ensures after[..i + 1] == SortSeq(orig[..i + 1]) && after[i + 1..] == orig[i + 1..]
    ensures Sorted(after[..i + 1])
    ensures multiset(after[..n]) == multiset(orig[..n])
  {
    SuffixHead(before, orig, i);
    SortSeqLast(orig, i);
    SortSeqSorted(orig[..i + 1]);
    SortSeqPermutation(orig[..i + 1]);
    PrefixThenRest(after, orig, i + 1, n);
  }

  /** Equal suffixes from i agree at i and from i + 1 on. */
  lemma SuffixHead(x: seq<int>, y: seq<int>, i: nat)
    requires i < |x| == |y| && x[i..] == y[i..]
    ensures x[i] == y[i] && x[i + 1..] == y[i + 1..]
  {
    assert x[i..][0] == y[i..][0];
    assert x[i + 1..] == x[i..][1..];
    assert y[i + 1..] == y[i..][1..];
  }

  /** Sorting s[0..i] inserts s[i] into the sorted s[0..i). */
  lemma SortSeqLast(s: seq<int>, i: nat)
    requires i < |s|
    ensures SortSeq(s[..i + 1]) == Insert(s[i], SortSeq(s[..i]))
  {
    assert s[..i + 1][..i] == s[..i];
  }

  /**
   * Equal multisets on x[0..m) and y[0..m), and equal suffixes from m, give
   * equal multisets on [0..n).
   */
  lemma PrefixThenRest(x: seq<int>, y: seq<int>, m: nat, n: nat)
    requires m <= n <= |x| == |y|
    requires multiset(x[..m]) == multiset(y[..m]) && x[m..] == y[m..]
    ensures multiset(x[..n]) == multiset(y[..n])
  {
    assert x[m..n] == y[m..n] by {
      assert x[m..n] == x[m..][..n - m];
      assert y[m..n] == y[m..][..n - m];
    }
    assert x[..n] == x[..m] + x[m..n];
    assert y[..n] == y[..m] + y[m..n];
  }

  /**
   * The state the inner loop leaves: the scan stopped at j (j < 0, or
   * shifted[j] <= key) with the invariant Shifted holding. Dropping
   * key = before[i] into the hole at j + 1 makes the first i + 1 elements
   * Insert(key, before[0..i)) and leaves the rest untouched.
   */
  lemma InsertAfterShift(before: seq<int>, shifted: seq<int>, i: nat, j: int)
    requires Shifted(before, shifted, i, j)
    requires j >= 0 ==> shifted[j] <= before[i]
    ensures shifted[j + 1 := before[i]][..i + 1] == Insert(before[i], before[..i])
    ensures shifted[j + 1 := before[i]][i + 1..] == before[i + 1..]
  {
    var key, p := before[i], before[..i];
    var after := shifted[j + 1 := key];
    assert after[..i + 1] == p[..j + 1] + [key] + p[j + 1..] by {
      assert p[..j + 1] == before[..j + 1] && p[j + 1..] == before[j + 1..i];
      assert after[..i + 1] == after[..j + 1] + [after[j + 1]] + after[j + 2..i + 1];
      assert after[..j + 1] == shifted[..j + 1];
      assert after[j + 2..i + 1] == shifted[j + 2..i + 1];
    }
    assert after[i + 1..] == shifted[i + 1..];
    assert p == p[..j + 1] + p[j + 1..];
    assert j >= 0 ==> p[..j + 1][j] == shifted[..j + 1][j];
    InsertBetween(key, p[..j + 1], p[j + 1..]);
  }

  /**
   * The fixture's body: copy src[0..n) into dst, then insertion-sort
   * dst[0..n). On return dst[0..n) is the sorted permutation of src[0..n);
   * src and dst[n..] are untouched.
   */
  method CopyThenSort(src: array<int>, dst: array<int>, n: nat)
    requires src != dst
    requires n <= src.Length && n <= dst.Length
    modifies dst
    ensures dst[..n] == SortSeq(old(src[..n]))
    ensures Sorted(dst[..n]) && multiset(dst[..n]) == multiset(old(src[..n]))
    ensures n <= 1 ==> dst[..n] == old(src[..n])
    ensures dst[n..] == old(dst[n..])
    ensures src[..] == old(src[..])
  {
    CopyPrefix(src, dst, n);
    InsertionSortPrefix(dst, n);
    SortSeqIsSortedPermutation(src[..n], src[..n]);
    if n <= 1 {
      SortSeqIdempotent(src[..n]);
    }
  }
}
