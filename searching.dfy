/** The search algorithms of the circular array. */
module Searching {
  import opened SortingSpec
  import opened CircularArray

  /** linearSearch: the first index holding key, or -1 when no element equals key. */
  method LinearSearch<T(0,==)>(a: CircularDynamicArray<T>, key: T) returns (r: int)
    requires a.Valid()
    ensures -1 <= r < |a.Contents|
    ensures 0 <= r ==> a.Contents[r] == key && key !in a.Contents[..r]
    ensures r == -1 <==> key !in a.Contents
  {
    var index := 0;
    while index < a.Length()
      invariant 0 <= index <= |a.Contents|
      invariant key !in a.Contents[..index]
    {
      if a.GetElement(index) == key {
        return index;
      }
      assert a.Contents[..index + 1] == a.Contents[..index] + [a.Contents[index]];
      index := index + 1;
    }
    assert a.Contents[..index] == a.Contents;
    return -1;
  }

  /**
   * binSearchRecursive(left, right, key): halves [left, right] around the middle
   * element; any index it returns holds key.
   */
  function BinSearchRecursive(a: CircularDynamicArray<int>, left: int, right: int, key: int): (r: int)
    reads a, a.Repr
    requires a.Valid() && 0 <= left && right < |a.Contents|
    ensures r == -1 || (left <= r <= right && a.Contents[r] == key)
    decreases right - left + 1
  {
    if right >= left then
      var middle := (left + right) / 2;
      if a.GetElement(middle) == key then middle
      else if a.GetElement(middle) > key then BinSearchRecursive(a, left, middle - 1, key)
      else BinSearchRecursive(a, middle + 1, right, key)
    else
      -1
  }

  /** binSearch(key): binary search over the whole array (meant for sorted contents). */
  function BinSearch(a: CircularDynamicArray<int>, key: int): (r: int)
    reads a, a.Repr
    requires a.Valid()
    ensures r == -1 || (0 <= r < |a.Contents| && a.Contents[r] == key)
  {
    BinSearchRecursive(a, 0, a.Length() - 1, key)
  }

  /** In sorted c, with c[middle] above the key, the key is in [left, right] only left of middle. */
  lemma AbsentRightOfMiddle(c: seq<int>, left: int, middle: int, right: int, key: int)
    requires Sorted(c) && 0 <= left <= middle <= right < |c| && c[middle] > key
    ensures key !in c[left..right + 1] <==> key !in c[left..middle]
  {
    assert c[left..right + 1] == c[left..middle] + c[middle..right + 1];
    forall m | middle <= m <= right
      ensures c[m] != key
    {
      assert c[middle] <= c[m];
    }
  }

  /** In sorted c, with c[middle] below the key, the key is in [left, right] only right of middle. */
  lemma AbsentLeftOfMiddle(c: seq<int>, left: int, middle: int, right: int, key: int)
    requires Sorted(c) && 0 <= left <= middle <= right < |c| && c[middle] < key
    ensures key !in c[left..right + 1] <==> key !in c[middle + 1..right + 1]
  {
    assert c[left..right + 1] == c[left..middle + 1] + c[middle + 1..right + 1];
    forall m | left <= m <= middle
      ensures c[m] != key
    {
      assert c[m] <= c[middle];
    }
  }

  /** One step of binSearchRecursive when the middle element is above the key. */
  lemma StepLeft(a: CircularDynamicArray<int>, left: int, right: int, key: int)
    requires a.Valid() && 0 <= left <= right < |a.Contents|
    requires a.Contents[(left + right) / 2] > key
    ensures BinSearchRecursive(a, left, right, key) == BinSearchRecursive(a, left, (left + right) / 2 - 1, key)
  {
  }

  /** One step of binSearchRecursive when the middle element is below the key. */
  lemma StepRight(a: CircularDynamicArray<int>, left: int, right: int, key: int)
    requires a.Valid() && 0 <= left <= right < |a.Contents|
    requires a.Contents[(left + right) / 2] < key
    ensures BinSearchRecursive(a, left, right, key) == BinSearchRecursive(a, (left + right) / 2 + 1, right, key)
  {
  }

  /** With the middle element above the key, the left half's answer is the whole answer. */
  lemma LeftHalfDecides(a: CircularDynamicArray<int>, left: int, middle: int, right: int, key: int)
    requires a.Valid() && 0 <= left <= right < |a.Contents| && Sorted(a.Contents)
    requires middle == (left + right) / 2 && a.Contents[middle] > key
    requires BinSearchRecursive(a, left, middle - 1, key) == -1 <==> key !in a.Contents[left..middle]
    ensures BinSearchRecursive(a, left, right, key) == -1 <==> key !in a.Contents[left..right + 1]
  {
    AbsentRightOfMiddle(a.Contents, left, middle, right, key);
    StepLeft(a, left, right, key);
  }

  /** With the middle element below the key, the right half's answer is the whole answer. */
  lemma RightHalfDecides(a: CircularDynamicArray<int>, left: int, middle: int, right: int, key: int)
    requires a.Valid() && 0 <= left <= right < |a.Contents| && Sorted(a.Contents)
    requires middle == (left + right) / 2 && a.Contents[middle] < key
    requires BinSearchRecursive(a, middle + 1, right, key) == -1 <==> key !in a.Contents[middle + 1..right + 1]
    ensures BinSearchRecursive(a, left, right, key) == -1 <==> key !in a.Contents[left..right + 1]
  {
    AbsentLeftOfMiddle(a.Contents, left, middle, right, key);
    StepRight(a, left, right, key);
  }

  /** The left-half case of the completeness proof. */
  lemma {:induction false} SearchLeftHalf(a: CircularDynamicArray<int>, left: int, right: int, key: int)
    requires a.Valid() && 0 <= left <= right < |a.Contents| && Sorted(a.Contents)
    requires a.Contents[(left + right) / 2] > key
    ensures BinSearchRecursive(a, left, right, key) == -1 <==> key !in a.Contents[left..right + 1]
    decreases right - left + 1, 0
  {
    var middle := (left + right) / 2;
    BinSearchRecursiveComplete(a, left, middle - 1, key);
    LeftHalfDecides(a, left, middle, right, key);
  }

  /** The right-half case of the completeness proof. */
  lemma {:induction false} SearchRightHalf(a: CircularDynamicArray<int>, left: int, right: int, key: int)
    requires a.Valid() && 0 <= left <= right < |a.Contents| && Sorted(a.Contents)
    requires a.Contents[(left + right) / 2] < key
    ensures BinSearchRecursive(a, left, right, key) == -1 <==> key !in a.Contents[left..right + 1]
    decreases right - left + 1, 0
  {
    var middle := (left + right) / 2;
    BinSearchRecursiveComplete(a, middle + 1, right, key);
    RightHalfDecides(a, left, middle, right, key);
  }

  /** On sorted contents the search misses only keys absent from [left, right]. */
  lemma {:induction false} BinSearchRecursiveComplete(a: CircularDynamicArray<int>, left: int, right: int, key: int)
    requires a.Valid() && 0 <= left <= right + 1 <= |a.Contents|
    requires Sorted(a.Contents)
    ensures BinSearchRecursive(a, left, right, key) == -1 <==> key !in a.Contents[left..right + 1]
    decreases right - left + 1, 1
  {
    var c := a.Contents;
    if right >= left {
      var middle := (left + right) / 2;
      if c[middle] == key {
        assert BinSearchRecursive(a, left, right, key) == middle;
        assert c[left..right + 1][middle - left] == key;
      } else if c[middle] > key {
        SearchLeftHalf(a, left, right, key);
      } else {
        SearchRightHalf(a, left, right, key);
      }
    } else {
      assert c[left..right + 1] == [];
    }
  }

  /** binSearch on sorted contents returns -1 exactly when the key is absent. */
  lemma BinSearchComplete(a: CircularDynamicArray<int>, key: int)
    requires a.Valid() && Sorted(a.Contents)
    ensures BinSearch(a, key) == -1 <==> key !in a.Contents
  {
    BinSearchRecursiveComplete(a, 0, |a.Contents| - 1, key);
    assert a.Contents[0..|a.Contents|] == a.Contents;
  }
}
