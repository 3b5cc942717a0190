/**
 * The stable sort of the circular array: a top-down merge sort over logical
 * indices through getElement, and the same algorithm on a plain array (used to
 * sort the medians of the worst-case select).
 */
module MergeSorting {
  import opened SortingSpec
  import opened CircularArray

  /** One step of the merge: the head of the left run goes first (it is the tie-break). */
  lemma MergeStepLeft(s: seq<int>, i: int, middle: int, j: int, right: int)
    requires 0 <= i <= middle < j <= right < |s| && s[i] <= s[j]
    ensures MergeSeq(s[i..middle + 1], s[j..right + 1]) == [s[i]] + MergeSeq(s[i + 1..middle + 1], s[j..right + 1])
  {
    assert s[i..middle + 1][1..] == s[i + 1..middle + 1];
  }

  lemma MergeStepRight(s: seq<int>, i: int, middle: int, j: int, right: int)
    requires 0 <= i <= middle < j <= right < |s| && s[i] > s[j]
    ensures MergeSeq(s[i..middle + 1], s[j..right + 1]) == [s[j]] + MergeSeq(s[i..middle + 1], s[j + 1..right + 1])
  {
    assert s[j..right + 1][1..] == s[j + 1..right + 1];
  }

  /** What is still to be merged when the runs are at i and j. */
  ghost function MergeOfRuns(s: seq<int>, i: int, middle: int, j: int, right: int): seq<int>
    requires 0 <= i <= middle + 1 <= j <= right + 1 <= |s|
  {
    MergeSeq(s[i..middle + 1], s[j..right + 1])
  }

  /** The loop invariant of the merge survives taking the left head. */
  lemma TakeLeft(s: seq<int>, done: seq<int>, i: int, middle: int, j: int, right: int, merged: seq<int>)
    requires 0 <= i <= middle < j <= right < |s| && s[i] <= s[j]
    requires done + MergeOfRuns(s, i, middle, j, right) == merged
    ensures (done + [s[i]]) + MergeOfRuns(s, i + 1, middle, j, right) == merged
  {
    MergeStepLeft(s, i, middle, j, right);
    assert (done + [s[i]]) + MergeSeq(s[i + 1..middle + 1], s[j..right + 1])
        == done + ([s[i]] + MergeSeq(s[i + 1..middle + 1], s[j..right + 1]));
  }

  /** The loop invariant of the merge survives taking the right head. */
  lemma TakeRight(s: seq<int>, done: seq<int>, i: int, middle: int, j: int, right: int, merged: seq<int>)
    requires 0 <= i <= middle < j <= right < |s| && s[i] > s[j]
    requires done + MergeOfRuns(s, i, middle, j, right) == merged
    ensures (done + [s[j]]) + MergeOfRuns(s, i, middle, j + 1, right) == merged
  {
    MergeStepRight(s, i, middle, j, right);
    assert (done + [s[j]]) + MergeSeq(s[i..middle + 1], s[j + 1..right + 1])
        == done + ([s[j]] + MergeSeq(s[i..middle + 1], s[j + 1..right + 1]));
  }

  /** Once one run is exhausted, what is still to be merged is the rest of the other run. */
  lemma MergeRest(s: seq<int>, out: seq<int>, i: int, middle: int, j: int, right: int, merged: seq<int>)
    requires 0 <= i <= middle + 1 <= j <= right + 1 <= |s| && (i == middle + 1 || j == right + 1)
    requires out + MergeOfRuns(s, i, middle, j, right) == merged
    ensures out + s[i..middle + 1] + s[j..right + 1] == merged
  {
  }

  /**
   * merge(left, middle, right): the runs [left, middle] and [middle+1, right] are
   * replaced by their merge; every other element keeps its place.
   */
  method Merge(a: CircularDynamicArray<int>, left: int, middle: int, right: int)
    requires a.Valid() && 0 <= left <= middle < right < |a.Contents|
    modifies a.data, a`Contents
    ensures a.Valid() && |a.Contents| == |old(a.Contents)|
    ensures a.Contents[left..right + 1] == MergeSeq(old(a.Contents[left..middle + 1]), old(a.Contents[middle + 1..right + 1]))
    ensures forall m :: 0 <= m < |a.Contents| && !(left <= m <= right) ==> a.Contents[m] == old(a.Contents[m])
  {
    var temp := MergeIntoTemp(a, left, middle, right);
    WriteBack(a, left, temp);
  }

  /** The merging loops of merge: the merged runs, in a fresh temporary array. */
  method MergeIntoTemp(a: CircularDynamicArray<int>, left: int, middle: int, right: int) returns (temp: array<int>)
    requires a.Valid() && 0 <= left <= middle < right < |a.Contents|
    ensures fresh(temp) && temp.Length == right - left + 1
    ensures temp[..] == MergeSeq(a.Contents[left..middle + 1], a.Contents[middle + 1..right + 1])
  {
    temp := new int[right - left + 1];
    var i, j, k := MergeHeads(a, temp, left, middle, right);
    i, k := MergeDrain(a, temp, i, middle, k);
    j, k := MergeDrain(a, temp, j, right, k);
    assert temp[..] == temp[..k];
  }

  /** The first loop of merge: take the smaller head (the left one on a tie) until a run is used up. */
  method MergeHeads(a: CircularDynamicArray<int>, temp: array<int>, left: int, middle: int, right: int) returns (i: int, j: int, k: int)
    requires a.Valid() && 0 <= left <= middle < right < |a.Contents|
    requires temp.Length == right - left + 1 && temp !in a.Repr
    modifies temp
    ensures left <= i <= middle + 1 && middle + 1 <= j <= right + 1 && (i == middle + 1 || j == right + 1)
    ensures k == (i - left) + (j - middle - 1)
    ensures temp[..k] + a.Contents[i..middle + 1] + a.Contents[j..right + 1] == MergeSeq(a.Contents[left..middle + 1], a.Contents[middle + 1..right + 1])
  {
    ghost var s := a.Contents;
    ghost var merged := MergeSeq(s[left..middle + 1], s[middle + 1..right + 1]);
    i, j, k := left, middle + 1, 0;
    ghost var out: seq<int> := [];
    while i <= middle && j <= right
      invariant left <= i <= middle + 1 && middle + 1 <= j <= right + 1
      invariant k == (i - left) + (j - middle - 1)
      invariant temp[..k] == out
      invariant out + MergeOfRuns(s, i, middle, j, right) == merged
    {
      var x, y := a.GetElement(i), a.GetElement(j);
      if x <= y {
        TakeLeft(s, out, i, middle, j, right, merged);
        temp[k] := x;
        out := out + [x];
        assert temp[..k + 1] == out;
        k := k + 1;
        i := i + 1;
      } else {
        TakeRight(s, out, i, middle, j, right, merged);
        temp[k] := y;
        out := out + [y];
        assert temp[..k + 1] == out;
        k := k + 1;
        j := j + 1;
      }
    }
    MergeRest(s, out, i, middle, j, right, merged);
  }

  /** A trailing loop of merge: copy what is left of one run, [from, to], after temp[..k]. */
  method MergeDrain(a: CircularDynamicArray<int>, temp: array<int>, from: int, to: int, k: int) returns (i: int, k': int)
    requires a.Valid() && 0 <= from <= to + 1 <= |a.Contents|
    requires 0 <= k && k + (to + 1 - from) <= temp.Length && temp !in a.Repr
    modifies temp
    ensures i == to + 1 && k' == k + (to + 1 - from)
    ensures temp[..k'] == old(temp[..k]) + a.Contents[from..to + 1]
  {
    ghost var s := a.Contents;
    i, k' := from, k;
    while i <= to
      invariant from <= i <= to + 1 && k' == k + (i - from)
      invariant temp[..k'] == old(temp[..k]) + s[from..i]
    {
      ghost var done := temp[..k'];
      temp[k'] := a.GetElement(i);
      assert temp[..k' + 1] == done + [s[i]];
      assert s[from..i + 1] == s[from..i] + [s[i]];
      k' := k' + 1;
      i := i + 1;
    }
  }

  /** The last loop of merge: the temporary array is written back over [left, left + temp.Length). */
  method WriteBack(a: CircularDynamicArray<int>, left: int, temp: array<int>)
    requires a.Valid() && 0 <= left && left + temp.Length <= |a.Contents| && temp != a.data
    modifies a.data, a`Contents
    ensures a.Valid() && |a.Contents| == |old(a.Contents)|
    ensures a.Contents[left..left + temp.Length] == temp[..]
    ensures forall m :: 0 <= m < |a.Contents| && !(left <= m < left + temp.Length) ==> a.Contents[m] == old(a.Contents[m])
  {
    var m := left;
    while m < left + temp.Length
      invariant left <= m <= left + temp.Length
      invariant a.Valid() && |a.Contents| == |old(a.Contents)|
      invariant forall q :: 0 <= q < |a.Contents| && !(left <= q < m) ==> a.Contents[q] == old(a.Contents[q])
      invariant forall q :: left <= q < m ==> a.Contents[q] == temp[q - left]
    {
      a.SetElement(m, temp[m - left]);
      m := m + 1;
    }
    assert a.Contents[left..left + temp.Length] == temp[..];
  }

  /**
   * The proof step shared by both merge sorts: sorting each half and merging them
   * sorts and rearranges the whole range.
   */
  lemma SortStep(c0: seq<int>, c1: seq<int>, c2: seq<int>, c3: seq<int>, left: int, middle: int, right: int)
    requires left <= middle < right
    requires PermutedWithin(c0, c1, left, middle) && Sorted(c1[left..middle + 1])
    requires PermutedWithin(c1, c2, middle + 1, right) && Sorted(c2[middle + 1..right + 1])
    requires |c3| == |c2|
    requires c3[left..right + 1] == MergeSeq(c2[left..middle + 1], c2[middle + 1..right + 1])
    requires forall m :: 0 <= m < |c3| && !(left <= m <= right) ==> c3[m] == c2[m]
    ensures PermutedWithin(c0, c3, left, right) && Sorted(c3[left..right + 1])
  {
    assert c2[left..middle + 1] == c1[left..middle + 1];
    MergedRange(c2, c3, left, middle, right);
    PermutedWiden(c0, c1, left, middle, left, right);
    PermutedWiden(c1, c2, middle + 1, right, left, right);
    PermutedTrans(c0, c1, c2, left, right);
    PermutedTrans(c0, c2, c3, left, right);
  }

  /** Replacing two adjacent sorted runs by their merge sorts and rearranges their span. */
  lemma MergedRange(c2: seq<int>, c3: seq<int>, left: int, middle: int, right: int)
    requires 0 <= left <= middle < right < |c2| == |c3|
    requires Sorted(c2[left..middle + 1]) && Sorted(c2[middle + 1..right + 1])
    requires c3[left..right + 1] == MergeSeq(c2[left..middle + 1], c2[middle + 1..right + 1])
    requires forall m :: 0 <= m < |c3| && !(left <= m <= right) ==> c3[m] == c2[m]
    ensures PermutedWithin(c2, c3, left, right) && Sorted(c3[left..right + 1])
  {
    var x, y := c2[left..middle + 1], c2[middle + 1..right + 1];
    var m := MergeSeq(x, y);
    MergeSeqSorted(x, y);
    MergeSeqMultiset(x, y);
    assert c2[left..right + 1] == x + y;
  }

  /** mergeSort(left, right): sorts the range [left, right] in place, touching nothing else. */
  method MergeSort(a: CircularDynamicArray<int>, left: int, right: int)
    requires a.Valid() && 0 <= left <= right + 1 <= |a.Contents|
    modifies a.data, a`Contents
    decreases right - left
    ensures a.Valid()
    ensures PermutedWithin(old(a.Contents), a.Contents, left, right)
    ensures Sorted(a.Contents[left..right + 1])
  {
    if left < right {
      var middle := (left + right) / 2;
      ghost var c0 := a.Contents;
      MergeSort(a, left, middle);
      ghost var c1 := a.Contents;
      MergeSort(a, middle + 1, right);
      ghost var c2 := a.Contents;
      Merge(a, left, middle, right);
      SortStep(c0, c1, c2, a.Contents, left, middle, right);
    }
  }

  /** stableSort: the whole contents end up as their sorted arrangement. */
  method StableSort(a: CircularDynamicArray<int>)
    requires a.Valid()
    modifies a.data, a`Contents
    ensures a.Valid()
    ensures a.Contents == SortedOf(old(a.Contents))
  {
    MergeSort(a, 0, a.Length() - 1);
    PermutedMultiset(old(a.Contents), a.Contents, 0, a.Length() - 1);
    assert a.Contents[0..a.Length()] == a.Contents;
    SortedOfUnique(old(a.Contents), a.Contents);
  }

  /** merge(array, left, middle, right) on a plain array. */
  method MergeFlat(arr: array<int>, left: int, middle: int, right: int)
    requires 0 <= left <= middle < right < arr.Length
    modifies arr
    ensures arr[left..right + 1] == MergeSeq(old(arr[left..middle + 1]), old(arr[middle + 1..right + 1]))
    ensures forall m :: 0 <= m < arr.Length && !(left <= m <= right) ==> arr[m] == old(arr[m])
  {
    var temp := MergeFlatIntoTemp(arr, left, middle, right);
    ghost var merged := temp[..];
    var m := left;
    while m <= right
      invariant left <= m <= right + 1
      invariant temp[..] == merged
      invariant forall q :: 0 <= q < arr.Length && !(left <= q < m) ==> arr[q] == old(arr[q])
      invariant forall q :: left <= q < m ==> arr[q] == temp[q - left]
    {
      arr[m] := temp[m - left];
      m := m + 1;
    }
    assert arr[left..right + 1] == temp[..];
  }

  /** The merging loops of the plain-array merge: the merged runs, in a fresh temporary array. */
  method MergeFlatIntoTemp(arr: array<int>, left: int, middle: int, right: int) returns (temp: array<int>)
    requires 0 <= left <= middle < right < arr.Length
    ensures fresh(temp) && temp.Length == right - left + 1
    ensures temp[..] == MergeSeq(arr[left..middle + 1], arr[middle + 1..right + 1])
  {
    temp := new int[right - left + 1];
    var i, j, k := MergeFlatHeads(arr, temp, left, middle, right);
    i, k := MergeFlatDrain(arr, temp, i, middle, k);
    j, k := MergeFlatDrain(arr, temp, j, right, k);
    assert temp[..] == temp[..k];
  }

  /** The first loop of the plain-array merge: take the smaller head (the left one on a tie) until a run is used up. */
  method MergeFlatHeads(arr: array<int>, temp: array<int>, left: int, middle: int, right: int) returns (i: int, j: int, k: int)
    requires 0 <= left <= middle < right < arr.Length
    requires temp.Length == right - left + 1 && temp != arr
    modifies temp
    ensures left <= i <= middle + 1 && middle + 1 <= j <= right + 1 && (i == middle + 1 || j == right + 1)
    ensures k == (i - left) + (j - middle - 1)
    ensures temp[..k] + arr[i..middle + 1] + arr[j..right + 1] == MergeSeq(arr[left..middle + 1], arr[middle + 1..right + 1])
  {
    ghost var s := arr[..];
    ghost var merged := MergeSeq(s[left..middle + 1], s[middle + 1..right + 1]);
    i, j, k := left, middle + 1, 0;
    ghost var out: seq<int> := [];
    while i <= middle && j <= right
      invariant left <= i <= middle + 1 && middle + 1 <= j <= right + 1
      invariant k == (i - left) + (j - middle - 1)
      invariant temp[..k] == out
      invariant out + MergeOfRuns(s, i, middle, j, right) == merged
    {
      if arr[i] <= arr[j] {
        TakeLeft(s, out, i, middle, j, right, merged);
        temp[k] := arr[i];
        out := out + [s[i]];
        assert temp[..k + 1] == out;
        k := k + 1;
        i := i + 1;
      } else {
        TakeRight(s, out, i, middle, j, right, merged);
        temp[k] := arr[j];
        out := out + [s[j]];
        assert temp[..k + 1] == out;
        k := k + 1;
        j := j + 1;
      }
    }
    MergeRest(s, out, i, middle, j, right, merged);
  }

  /** A trailing loop of the plain-array merge: copy what is left of one run, [from, to], after temp[..k]. */
  method MergeFlatDrain(arr: array<int>, temp: array<int>, from: int, to: int, k: int) returns (i: int, k': int)
    requires 0 <= from <= to + 1 <= arr.Length
    requires 0 <= k && k + (to + 1 - from) <= temp.Length && temp != arr
    modifies temp
    ensures i == to + 1 && k' == k + (to + 1 - from)
    ensures temp[..k'] == old(temp[..k]) + arr[from..to + 1]
  {
    ghost var s := arr[..];
    i, k' := from, k;
    while i <= to
      invariant from <= i <= to + 1 && k' == k + (i - from)
      invariant temp[..k'] == old(temp[..k]) + s[from..i]
    {
      ghost var done := temp[..k'];
      temp[k'] := arr[i];
      assert temp[..k' + 1] == done + [s[i]];
      assert s[from..i + 1] == s[from..i] + [s[i]];
      k' := k' + 1;
      i := i + 1;
    }
  }

  /** mergeSort(array, left, right) on a plain array. */
  method MergeSortFlat(arr: array<int>, left: int, right: int)
    requires 0 <= left <= right + 1 <= arr.Length
    modifies arr
    decreases right - left
    ensures PermutedWithin(old(arr[..]), arr[..], left, right)
    ensures Sorted(arr[left..right + 1])
  {
    if left < right {
      var middle := (left + right) / 2;
      ghost var c0 := arr[..];
      MergeSortFlat(arr, left, middle);
      ghost var c1 := arr[..];
      MergeSortFlat(arr, middle + 1, right);
      ghost var c2 := arr[..];
      assert arr[left..middle + 1] == c2[left..middle + 1];
      assert arr[middle + 1..right + 1] == c2[middle + 1..right + 1];
      MergeFlat(arr, left, middle, right);
      SortStep(c0, c1, c2, arr[..], left, middle, right);
    }
  }
}
