/**
 * Order statistics on the circular array: the two Lomuto partitions, quickselect
 * and the median-of-medians select, all working in place through getElement.
 */
module Selection {
  import opened SortingSpec
  import opened CircularArray
  import opened MergeSorting

  /**
   * The state of the Lomuto loop: [left, right] of s0 is rearranged, the element at
   * right is still in place, [left, p) holds elements below pivot and [p, i) the rest.
   */
  ghost predicate Lomuto(a: CircularDynamicArray<int>, s0: seq<int>, left: int, right: int, pivot: int, p: int, i: int)
    reads a, a.Repr
  {
    a.Valid() && left <= p <= i <= right &&
    PermutedWithin(s0, a.Contents, left, right) && a.Contents[right] == s0[right] &&
    (forall m :: left <= m < p ==> a.Contents[m] < pivot) &&
    (forall m :: p <= m < i ==> pivot <= a.Contents[m])
  }

  /** One round of the Lomuto loop: an element below pivot is swapped to p. */
  method LomutoStep(a: CircularDynamicArray<int>, ghost s0: seq<int>, left: int, right: int, pivot: int, p: int, i: int)
    returns (p': int)
    requires Lomuto(a, s0, left, right, pivot, p, i) && i < right
    modifies a.data, a`Contents
    ensures Lomuto(a, s0, left, right, pivot, p', i + 1)
  {
    p' := p;
    if a.GetElement(i) < pivot {
      PermutedThenSwap(s0, a.Contents, left, right, i, p);
      a.Swap(i, p);
      p' := p + 1;
    }
  }

  /**
   * The Lomuto loop and final swap shared by both partitions: elements below
   * pivot are gathered at the front of [left, right], and the element that was
   * at right is swapped in just after them.
   */
  method PartitionAround(a: CircularDynamicArray<int>, left: int, right: int, pivot: int) returns (p: int)
    requires a.Valid() && 0 <= left <= right < |a.Contents|
    modifies a.data, a`Contents
    ensures a.Valid()
    ensures left <= p <= right
    ensures PermutedWithin(old(a.Contents), a.Contents, left, right)
    ensures a.Contents[p] == old(a.Contents[right])
    ensures forall i :: left <= i < p ==> a.Contents[i] < pivot
    ensures forall i :: p < i <= right ==> pivot <= a.Contents[i]
  {
    ghost var s0 := a.Contents;
    PermutedRefl(s0, left, right);
    p := left;
    var i := left;
    while i < right
      invariant Lomuto(a, s0, left, right, pivot, p, i)
    {
      p := LomutoStep(a, s0, left, right, pivot, p, i);
      i := i + 1;
    }
    PermutedThenSwap(s0, a.Contents, left, right, p, right);
    a.Swap(p, right);
  }

  /**
   * partition(left, right): pivots on the element at right; it ends at the returned
   * index with everything smaller before it and everything else after it.
   */
  method Partition(a: CircularDynamicArray<int>, left: int, right: int) returns (p: int)
    requires a.Valid() && 0 <= left <= right < |a.Contents|
    modifies a.data, a`Contents
    ensures a.Valid()
    ensures left <= p <= right
    ensures PermutedWithin(old(a.Contents), a.Contents, left, right)
    ensures a.Contents[p] == old(a.Contents[right])
    ensures forall i :: left <= i < p ==> a.Contents[i] < a.Contents[p]
    ensures forall i :: p < i <= right ==> a.Contents[p] <= a.Contents[i]
  {
    var pivotElement := a.GetElement(right);
    p := PartitionAround(a, left, right, pivotElement);
  }

  /**
   * partition(left, right, value): the first occurrence of value in [left, right)
   * (or the element at right) is swapped to right, then the range is partitioned
   * around value.  When value occurs in the range it ends at the returned index.
   */
  method PartitionValue(a: CircularDynamicArray<int>, left: int, right: int, value: int) returns (p: int)
    requires a.Valid() && 0 <= left <= right < |a.Contents|
    modifies a.data, a`Contents
    ensures a.Valid()
    ensures left <= p <= right
    ensures PermutedWithin(old(a.Contents), a.Contents, left, right)
    ensures forall i :: left <= i < p ==> a.Contents[i] < value
    ensures forall i :: p < i <= right ==> value <= a.Contents[i]
    ensures value in old(a.Contents[left..right + 1]) ==> a.Contents[p] == value
  {
    var q := left;
    while q < right
      invariant left <= q <= right
      invariant forall m :: left <= m < q ==> a.Contents[m] != value
    {
      if a.GetElement(q) == value {
        break;
      }
      q := q + 1;
    }
    ghost var s := a.Contents;
    assert value in s[left..right + 1] ==> s[q] == value;
    a.Swap(q, right);
    PermutedSwap(s, left, right, q, right);
    ghost var t := a.Contents;
    p := PartitionAround(a, left, right, value);
    PermutedTrans(s, t, a.Contents, left, right);
  }

  /** After partitioning at p and selecting k < p inside [left, p - 1], k is selected in [left, right]. */
  lemma SelectBelowPivot(c0: seq<int>, c1: seq<int>, c2: seq<int>, left: int, right: int, p: int, k: int)
    requires left <= k < p <= right
    requires PermutedWithin(c0, c1, left, right) && PermutedWithin(c1, c2, left, p - 1)
    requires forall i :: left <= i < p ==> c1[i] < c1[p]
    requires forall i :: p < i <= right ==> c1[p] <= c1[i]
    requires SelectedAt(c2, left, p - 1, k)
    ensures PermutedWithin(c0, c2, left, right) && SelectedAt(c2, left, right, k)
  {
    var j := PermutedElement(c1, c2, left, p - 1, k);
    forall i | p <= i <= right
      ensures c2[k] <= c2[i]
    {
      assert c2[i] == c1[i];
    }
    PermutedWiden(c1, c2, left, p - 1, left, right);
  }

  /** After partitioning at p and selecting k > p inside [p + 1, right], k is selected in [left, right]. */
  lemma SelectAbovePivot(c0: seq<int>, c1: seq<int>, c2: seq<int>, left: int, right: int, p: int, k: int)
    requires left <= p < k <= right
    requires PermutedWithin(c0, c1, left, right) && PermutedWithin(c1, c2, p + 1, right)
    requires forall i :: left <= i < p ==> c1[i] < c1[p]
    requires forall i :: p < i <= right ==> c1[p] <= c1[i]
    requires SelectedAt(c2, p + 1, right, k)
    ensures PermutedWithin(c0, c2, left, right) && SelectedAt(c2, left, right, k)
  {
    var j := PermutedElement(c1, c2, p + 1, right, k);
    forall i | left <= i <= p
      ensures c2[i] <= c2[k]
    {
      assert c2[i] == c1[i];
    }
    PermutedWiden(c1, c2, p + 1, right, left, right);
  }

  /**
   * qsRecursive(left, right, k): afterwards the element at k is one that no element
   * of [left, k) exceeds and no element of (k, right] undercuts, and it is returned.
   */
  method QsRecursive(a: CircularDynamicArray<int>, left: int, right: int, k: int) returns (r: int)
    requires a.Valid() && 0 <= left <= k <= right < |a.Contents|
    modifies a.data, a`Contents
    decreases right - left
    ensures a.Valid()
    ensures PermutedWithin(old(a.Contents), a.Contents, left, right)
    ensures r == a.Contents[k] && SelectedAt(a.Contents, left, right, k)
  {
    var pivot := Partition(a, left, right);
    ghost var c1 := a.Contents;
    if k < pivot {
      r := QsRecursive(a, left, pivot - 1, k);
      SelectBelowPivot(old(a.Contents), c1, a.Contents, left, right, pivot, k);
    } else if k > pivot {
      r := QsRecursive(a, pivot + 1, right, k);
      SelectAbovePivot(old(a.Contents), c1, a.Contents, left, right, pivot, k);
    } else {
      r := a.GetElement(pivot);
    }
  }

  /** Selecting at k over a rearrangement of the whole sequence finds the element of rank k. */
  lemma SelectWhole(c0: seq<int>, c1: seq<int>, k: int)
    requires 0 <= k < |c0| && PermutedWithin(c0, c1, 0, |c0| - 1)
    requires SelectedAt(c1, 0, |c1| - 1, k)
    ensures multiset(c1) == multiset(c0) && c1[k] == SortedOf(c0)[k]
  {
    PermutedMultiset(c0, c1, 0, |c0| - 1);
    SelectLemma(c0, c1, k);
  }

  /** QuickSelect(k): the k-th smallest element (k counted from 1); the contents are rearranged. */
  method QuickSelect(a: CircularDynamicArray<int>, k: int) returns (r: int)
    requires a.Valid() && 1 <= k <= |a.Contents|
    modifies a.data, a`Contents
    ensures a.Valid()
    ensures multiset(a.Contents) == multiset(old(a.Contents))
    ensures r == SortedOf(old(a.Contents))[k - 1]
  {
    r := QsRecursive(a, 0, a.Length() - 1, k - 1);
    SelectWhole(old(a.Contents), a.Contents, k - 1);
  }

  /** Where the groups of five of n elements lie. */
  lemma GroupBounds(n: int)
    requires n >= 1
    ensures 0 <= n / 5 && (n / 5) * 5 + n % 5 == n && 0 <= n % 5 < 5
    ensures n / 5 <= (n + 4) / 5
    ensures (n / 5) * 5 < n ==> n / 5 < (n + 4) / 5 && 1 <= n % 5
    ensures (n / 5) * 5 == n ==> 1 <= n / 5
  {
  }

  /** The full groups [5i, 5i + 4] for i < n / 5 lie inside the first n elements. */
  lemma FullGroup(n: int, i: int)
    requires 0 <= i < n / 5
    ensures i * 5 + 5 <= n
  {
    assert (i + 1) * 5 <= (n / 5) * 5;
  }

  /** Every recorded median is an element of [lo, hi] of c. */
  ghost predicate MediansIn(ms: seq<int>, c: seq<int>, lo: int, hi: int)
    requires 0 <= lo <= hi + 1 <= |c|
  {
    forall m :: 0 <= m < |ms| ==> ms[m] in multiset(c[lo..hi + 1])
  }

  /** Rearranging the medians keeps every one of them inside the range. */
  lemma MediansRearranged(ms: seq<int>, ms2: seq<int>, c: seq<int>, lo: int, hi: int)
    requires 0 <= lo <= hi + 1 <= |c|
    requires MediansIn(ms, c, lo, hi) && multiset(ms2) == multiset(ms)
    ensures MediansIn(ms2, c, lo, hi)
  {
    forall m | 0 <= m < |ms2|
      ensures ms2[m] in multiset(c[lo..hi + 1])
    {
      assert ms2[m] in multiset(ms2);
      var j :| 0 <= j < |ms| && ms[j] == ms2[m];
    }
  }

  /**
   * The state of the group loop: the numElements elements of s0 from base are
   * rearranged among themselves and every median recorded so far is one of them.
   */
  ghost predicate Grouped(a: CircularDynamicArray<int>, s0: seq<int>, base: int, numElements: int, ms: seq<int>)
    reads a, a.Repr
  {
    a.Valid() && 0 <= base && 1 <= numElements && base + numElements <= |s0| &&
    PermutedWithin(s0, a.Contents, base, base + numElements - 1) &&
    MediansIn(ms, a.Contents, base, base + numElements - 1)
  }

  /** One group of wcRecursive: [lo, hi] is sorted and the element at mid becomes median i. */
  method SortGroup(a: CircularDynamicArray<int>, ghost s0: seq<int>, base: int, numElements: int,
                   medians: array<int>, i: int, lo: int, hi: int, mid: int)
    requires 0 <= i < medians.Length && medians !in a.Repr
    requires Grouped(a, s0, base, numElements, medians[..i])
    requires base <= lo <= mid <= hi < base + numElements
    modifies a.data, a`Contents, medians
    ensures Grouped(a, s0, base, numElements, medians[..i + 1])
  {
    ghost var before := a.Contents;
    MergeSort(a, lo, hi);
    PermutedWiden(before, a.Contents, lo, hi, base, base + numElements - 1);
    PermutedTrans(s0, before, a.Contents, base, base + numElements - 1);
    medians[i] := a.GetElement(mid);
    assert a.Contents[mid] == a.Contents[base..base + numElements][mid - base];
    assert medians[..i + 1] == medians[..i] + [medians[i]];
  }

  /**
   * The group loop of wcRecursive over the numElements elements from base: each full
   * group of five is sorted and its middle element recorded.
   */
  method SortFullGroups(a: CircularDynamicArray<int>, base: int, numElements: int, medians: array<int>) returns (i: int)
    requires a.Valid() && 0 <= base && 1 <= numElements && base + numElements <= |a.Contents|
    requires medians.Length == (numElements + 4) / 5 && medians !in a.Repr
    modifies a.data, a`Contents, medians
    ensures i == numElements / 5
    ensures Grouped(a, old(a.Contents), base, numElements, medians[..i])
  {
    GroupBounds(numElements);
    PermutedRefl(a.Contents, base, base + numElements - 1);
    i := 0;
    while i < numElements / 5
      invariant 0 <= i <= numElements / 5
      invariant Grouped(a, old(a.Contents), base, numElements, medians[..i])
    {
      FullGroup(numElements, i);
      SortGroup(a, old(a.Contents), base, numElements, medians, i,
        base + i * 5, base + (i * 5) + 4, base + (i * 5) + 2);
      i := i + 1;
    }
  }

  /** The short last group of wcRecursive: the numElements % 5 elements after the full groups. */
  method SortLastGroup(a: CircularDynamicArray<int>, ghost s0: seq<int>, base: int, numElements: int,
                       medians: array<int>, i: int)
    requires i == numElements / 5 && i * 5 < numElements
    requires medians.Length == (numElements + 4) / 5 && 0 <= i < medians.Length && medians !in a.Repr
    requires Grouped(a, s0, base, numElements, medians[..i])
    modifies a.data, a`Contents, medians
    ensures Grouped(a, s0, base, numElements, medians[..i + 1])
  {
    GroupBounds(numElements);
    SortGroup(a, s0, base, numElements, medians, i,
      base + i * 5, base + (i * 5) + (numElements % 5) - 1, base + (i * 5) + ((numElements % 5) / 2));
  }

  /**
   * The first steps of wcRecursive: the groups of five of the numElements elements
   * from base are sorted and their medians collected, then the medians are sorted.
   * As written, base is 0, wherever the range lies.
   */
  method SortGroups(a: CircularDynamicArray<int>, base: int, numElements: int) returns (medians: array<int>, count: int)
    requires a.Valid() && 0 <= base && 1 <= numElements && base + numElements <= |a.Contents|
    modifies a.data, a`Contents
    ensures fresh(medians) && 1 <= count <= medians.Length
    ensures Grouped(a, old(a.Contents), base, numElements, medians[..count])
  {
    GroupBounds(numElements);
    medians := new int[(numElements + 4) / 5];
    var i := SortFullGroups(a, base, numElements, medians);
    if i * 5 < numElements {
      SortLastGroup(a, old(a.Contents), base, numElements, medians, i);
      i := i + 1;
    }
    SortMedians(a, old(a.Contents), base, numElements, medians, i);
    count := i;
  }

  /** mergeSort(medians, 0, count - 1): the recorded medians stay inside the range. */
  method SortMedians(a: CircularDynamicArray<int>, ghost s0: seq<int>, base: int, numElements: int,
                     medians: array<int>, count: int)
    requires 1 <= count <= medians.Length && medians !in a.Repr
    requires Grouped(a, s0, base, numElements, medians[..count])
    modifies medians
    ensures Grouped(a, s0, base, numElements, medians[..count])
  {
    ghost var unsorted := medians[..];
    MergeSortFlat(medians, 0, count - 1);
    assert unsorted[0..count] == unsorted[..count] && medians[..][0..count] == medians[..count];
    MediansRearranged(unsorted[..count], medians[..count], a.Contents, base, base + numElements - 1);
    GroupedMedians(a, s0, base, numElements, unsorted[..count], medians[..count]);
  }

  /** The group state does not depend on which medians, as long as they lie in the range. */
  lemma GroupedMedians(a: CircularDynamicArray<int>, s0: seq<int>, base: int, numElements: int, ms: seq<int>, ms2: seq<int>)
    requires Grouped(a, s0, base, numElements, ms)
    requires MediansIn(ms2, a.Contents, base, base + numElements - 1)
    ensures Grouped(a, s0, base, numElements, ms2)
  {
  }

  /**
   * wcRecursive(left, right, k), as written: the groups are taken from index 0, so
   * the median of the medians may lie outside [left, right], and k is an absolute
   * index compared against the width of the range.  What it does guarantee is that
   * the contents are rearranged and the element returned is the one that ends up
   * at k; when k exceeds the width, nothing moves.
   */
  method WcRecursive(a: CircularDynamicArray<int>, left: int, right: int, k: int) returns (r: int)
    requires a.Valid() && 0 <= left <= k <= right < |a.Contents|
    modifies a.data, a`Contents
    decreases right - left
    ensures a.Valid() && |a.Contents| == |old(a.Contents)|
    ensures multiset(a.Contents) == multiset(old(a.Contents))
    ensures r == a.Contents[k]
    ensures k > right - left + 1 ==> a.Contents == old(a.Contents)
  {
    if k >= 0 && k <= right - left + 1 {
      var numElements := right - left + 1;
      var medians, i := SortGroups(a, 0, numElements);
      PermutedMultiset(old(a.Contents), a.Contents, 0, numElements - 1);
      var medianOfMedians;
      if i == 1 {
        medianOfMedians := medians[i - 1];
      } else {
        medianOfMedians := medians[i / 2];
      }
      ghost var before := a.Contents;
      var positionOfMOM := PartitionValue(a, left, right, medianOfMedians);
      PermutedMultiset(before, a.Contents, left, right);
      if k < positionOfMOM {
        r := WcRecursive(a, left, positionOfMOM - 1, k);
      } else if k > positionOfMOM {
        r := WcRecursive(a, positionOfMOM + 1, right, k);
      } else {
        r := a.GetElement(positionOfMOM);
      }
    } else if left == right {
      r := a.GetElement(left);
    } else if k > left - right + 1 {
      r := a.GetElement(k);
    } else {
      r := -1;
    }
  }

  /**
   * WCSelect(k), as written: the contents are rearranged and the element that ends
   * up at index k - 1 is returned.
   */
  method WCSelect(a: CircularDynamicArray<int>, k: int) returns (r: int)
    requires a.Valid() && 1 <= k <= |a.Contents|
    modifies a.data, a`Contents
    ensures a.Valid()
    ensures multiset(a.Contents) == multiset(old(a.Contents))
    ensures r == a.Contents[k - 1]
  {
    r := WcRecursive(a, 0, a.Length() - 1, k - 1);
  }

  /**
   * The last step of WCSelect(6) on [1, 2, 3, 4, 5, 0]: the first partition leaves
   * [1, 2, 0, 3, 5, 4] with the median of medians at 3, and wcRecursive(4, 5, 5)
   * finds 5 wider than its range of two, so it returns the 4 at index 5, where the
   * sixth smallest element is 5.
   */
  method WcRecursiveComparesAbsoluteK() returns (s: seq<int>, r: int)
    ensures s == [1, 2, 0, 3, 5, 4] && r == 4
    ensures !SelectedAt(s, 4, 5, 5)
  {
    s := [1, 2, 0, 3, 5, 4];
    var a := new CircularDynamicArray<int>.WithSize(6);
    Fill(a, s);
    r := WcRecursive(a, 4, 5, 5);
  }

  /** Writes s into the array, element by element. */
  method Fill(a: CircularDynamicArray<int>, s: seq<int>)
    requires a.Valid() && |s| == |a.Contents|
    modifies a.data, a`Contents
    ensures a.Valid() && a.Contents == s
  {
    var i := 0;
    while i < |s|
      invariant 0 <= i <= |s|
      invariant a.Valid() && |a.Contents| == |s| && a.Contents[..i] == s[..i]
    {
      a.SetElement(i, s[i]);
      assert a.Contents[..i + 1] == a.Contents[..i] + [s[i]];
      assert s[..i + 1] == s[..i] + [s[i]];
      i := i + 1;
    }
    assert a.Contents == a.Contents[..i] && s == s[..i];
  }

  /** The sixth smallest of [1, 2, 0, 3, 5, 4] is its maximum, 5. */
  lemma SixthSmallest(s: seq<int>)
    requires s == [1, 2, 0, 3, 5, 4]
    ensures SortedOf(s)[5] == 5
  {
    assert |s| == 6 && s[4] == 5;
    assert forall j :: 0 <= j < |s| ==> s[j] <= s[4];
    MaximumIsLast(s, 4);
  }

  /**
   * Steps 1 to 4 of the corrected wcRecursive: the groups of five of [left, right]
   * are sorted, the median of their medians is an element of the range, and the
   * range is partitioned around it, which leaves it at the returned index.
   */
  method PartitionOnMedians(a: CircularDynamicArray<int>, left: int, right: int) returns (p: int)
    requires a.Valid() && 0 <= left <= right < |a.Contents|
    modifies a.data, a`Contents
    ensures a.Valid() && left <= p <= right
    ensures PermutedWithin(old(a.Contents), a.Contents, left, right)
    ensures forall i :: left <= i < p ==> a.Contents[i] < a.Contents[p]
    ensures forall i :: p < i <= right ==> a.Contents[p] <= a.Contents[i]
  {
    var numElements := right - left + 1;
    var medians, i := SortGroups(a, left, numElements);
    var medianOfMedians;
    if i == 1 {
      medianOfMedians := medians[i - 1];
    } else {
      medianOfMedians := medians[i / 2];
    }
    ghost var c0 := a.Contents;
    assert medianOfMedians in multiset(c0[left..right + 1]) by {
      assert medianOfMedians == medians[..i][if i == 1 then 0 else i / 2];
    }
    p := PartitionValue(a, left, right, medianOfMedians);
    PermutedTrans(old(a.Contents), c0, a.Contents, left, right);
  }

  /**
   * wcRecursive as evidently intended: the groups of five are taken from left, so
   * the median of the medians is an element of the range and ends at the partition
   * index, and k is kept inside [left, right].  The element returned is selected
   * at k within the range.
   */
  method WcRecursiveCorrected(a: CircularDynamicArray<int>, left: int, right: int, k: int) returns (r: int)
    requires a.Valid() && 0 <= left <= k <= right < |a.Contents|
    modifies a.data, a`Contents
    decreases right - left
    ensures a.Valid()
    ensures PermutedWithin(old(a.Contents), a.Contents, left, right)
    ensures r == a.Contents[k] && SelectedAt(a.Contents, left, right, k)
  {
    var positionOfMOM := PartitionOnMedians(a, left, right);
    ghost var c1 := a.Contents;
    if k < positionOfMOM {
      r := WcRecursiveCorrected(a, left, positionOfMOM - 1, k);
      SelectBelowPivot(old(a.Contents), c1, a.Contents, left, right, positionOfMOM, k);
    } else if k > positionOfMOM {
      r := WcRecursiveCorrected(a, positionOfMOM + 1, right, k);
      SelectAbovePivot(old(a.Contents), c1, a.Contents, left, right, positionOfMOM, k);
    } else {
      r := a.GetElement(positionOfMOM);
    }
  }

  /** WCSelect(k) over the corrected recursion: the k-th smallest element (k counted from 1). */
  method WCSelectCorrected(a: CircularDynamicArray<int>, k: int) returns (r: int)
    requires a.Valid() && 1 <= k <= |a.Contents|
    modifies a.data, a`Contents
    ensures a.Valid()
    ensures multiset(a.Contents) == multiset(old(a.Contents))
    ensures r == SortedOf(old(a.Contents))[k - 1]
  {
    r := WcRecursiveCorrected(a, 0, a.Length() - 1, k - 1);
    SelectWhole(old(a.Contents), a.Contents, k - 1);
  }
}
