/**
 * The LSD binary radix sort of the circular array: a stable counting sort on one
 * bit of the 32-bit unsigned view of each element, repeated for the low i bits.
 * Dafny's Euclidean x % 2^32 is the two's-complement conversion to unsigned.
 */
module RadixSorting {
  import opened SortingSpec
  import opened CircularArray
  import opened MergeSorting

  const WordModulus: int := 0x1_0000_0000

  function Pow2(n: nat): (r: int)
    ensures r >= 1
  {
    if n == 0 then 1 else 2 * Pow2(n - 1)
  }

  /** u shifted right by b bits (u >> b for u >= 0). */
  function Shift(u: int, b: nat): int
    decreases b
  {
    if b == 0 then u else Shift(u / 2, b - 1)
  }

  /** The value of the low n bits of u. */
  function LowBits(u: int, n: nat): int
    decreases n
  {
    if n == 0 then 0 else 2 * LowBits(u / 2, n - 1) + u % 2
  }

  /** Bit b of the 32-bit unsigned view of x: (unsigned) x >> b & 1. */
  function Bit(x: int, b: nat): (r: int)
    ensures r == 0 || r == 1
  {
    Shift(x % WordModulus, b) % 2
  }

  /** The low n bits of the 32-bit unsigned view of x. */
  function Low(x: int, n: nat): int
  {
    LowBits(x % WordModulus, n)
  }

  /** The elements of s whose bit b is v, in their original order. */
  function WithBit(s: seq<int>, b: nat, v: int): seq<int>
  {
    if |s| == 0 then []
    else (if Bit(s[0], b) == v then [s[0]] else []) + WithBit(s[1..], b, v)
  }

  /** One pass of the radix sort: the elements with bit b clear, then those with it set. */
  function Pass(s: seq<int>, b: nat): seq<int>
  {
    WithBit(s, b, 0) + WithBit(s, b, 1)
  }

  /** The contents after passes on bits 0, 1, ..., n - 1. */
  function RadixOf(s: seq<int>, n: int): seq<int>
  {
    if n <= 0 then s else Pass(RadixOf(s, n - 1), n - 1)
  }

  /** Non-decreasing in the low n bits. */
  ghost predicate SortedByLow(s: seq<int>, n: nat)
  {
    forall i, j :: 0 <= i < j < |s| ==> Low(s[i], n) <= Low(s[j], n)
  }

  /** Filtering distributes over concatenation. */
  lemma {:induction false} WithBitAppend(x: seq<int>, y: seq<int>, b: nat, v: int)
    ensures WithBit(x + y, b, v) == WithBit(x, b, v) + WithBit(y, b, v)
  {
    if |x| == 0 {
      assert x + y == y;
    } else {
      assert (x + y)[1..] == x[1..] + y;
      WithBitAppend(x[1..], y, b, v);
    }
  }

  /** A lower bound on the low bits of every element survives filtering. */
  lemma {:induction false} WithBitLowerBound(x: int, s: seq<int>, n: nat, b: nat, v: int)
    requires forall m :: 0 <= m < |s| ==> Low(x, n) <= Low(s[m], n)
    ensures forall m :: 0 <= m < |WithBit(s, b, v)| ==> Low(x, n) <= Low(WithBit(s, b, v)[m], n)
  {
    if |s| > 0 {
      WithBitLowerBound(x, s[1..], n, b, v);
    }
  }

  /** The filter keeps only elements whose bit b is v. */
  lemma {:induction false} WithBitAll(s: seq<int>, b: nat, v: int)
    ensures forall m :: 0 <= m < |WithBit(s, b, v)| ==> Bit(WithBit(s, b, v)[m], b) == v
  {
    if |s| > 0 {
      WithBitAll(s[1..], b, v);
      var head := if Bit(s[0], b) == v then [s[0]] else [];
      var rest := WithBit(s[1..], b, v);
      forall m | 0 <= m < |head + rest|
        ensures Bit((head + rest)[m], b) == v
      {
        if m >= |head| {
          assert (head + rest)[m] == rest[m - |head|];
        }
      }
    }
  }

  /** The two filters split s: together they hold every element once. */
  lemma {:induction false} PassMultiset(s: seq<int>, b: nat)
    ensures multiset(Pass(s, b)) == multiset(s)
    ensures |WithBit(s, b, 0)| + |WithBit(s, b, 1)| == |s|
  {
    if |s| > 0 {
      PassMultiset(s[1..], b);
      assert s == [s[0]] + s[1..];
    }
  }

  /** Filtering keeps an order on the low bits. */
  lemma {:induction false} WithBitSortedByLow(s: seq<int>, n: nat, b: nat, v: int)
    requires SortedByLow(s, n)
    ensures SortedByLow(WithBit(s, b, v), n)
  {
    if |s| > 0 {
      var tail := s[1..];
      assert SortedByLow(tail, n) by {
        forall i, j | 0 <= i < j < |tail|
          ensures Low(tail[i], n) <= Low(tail[j], n)
        {
          assert tail[i] == s[i + 1] && tail[j] == s[j + 1];
        }
      }
      WithBitSortedByLow(tail, n, b, v);
      assert forall m :: 0 <= m < |tail| ==> Low(s[0], n) <= Low(tail[m], n) by {
        forall m | 0 <= m < |tail|
          ensures Low(s[0], n) <= Low(tail[m], n)
        {
          assert tail[m] == s[m + 1];
        }
      }
      WithBitLowerBound(s[0], tail, n, b, v);
    }
  }


  /** The low b + 1 bits are bit b above the low b bits. */
  lemma {:induction false} LowBitsStep(u: int, b: nat)
    ensures 0 <= LowBits(u, b) < Pow2(b)
    ensures LowBits(u, b + 1) == (Shift(u, b) % 2) * Pow2(b) + LowBits(u, b)
    decreases b
  {
    if b > 0 {
      LowBitsStep(u / 2, b - 1);
    }
  }

  lemma LowStep(x: int, b: nat)
    ensures 0 <= Low(x, b) < Pow2(b)
    ensures Low(x, b + 1) == Bit(x, b) * Pow2(b) + Low(x, b)
  {
    LowBitsStep(x % WordModulus, b);
  }

  /** One pass on bit b turns order on the low b bits into order on the low b + 1 bits. */
  lemma PassSortedByLow(s: seq<int>, b: nat)
    requires SortedByLow(s, b)
    ensures SortedByLow(Pass(s, b), b + 1)
  {
    var zeros, ones := WithBit(s, b, 0), WithBit(s, b, 1);
    WithBitSortedByLow(s, b, b, 0);
    WithBitSortedByLow(s, b, b, 1);
    WithBitAll(s, b, 0);
    WithBitAll(s, b, 1);
    var t := Pass(s, b);
    forall i, j | 0 <= i < j < |t|
      ensures Low(t[i], b + 1) <= Low(t[j], b + 1)
    {
      LowStep(t[i], b);
      LowStep(t[j], b);
      if j < |zeros| {
        assert t[i] == zeros[i] && t[j] == zeros[j];
      } else if i >= |zeros| {
        assert t[i] == ones[i - |zeros|] && t[j] == ones[j - |zeros|];
      } else {
        assert t[i] == zeros[i] && t[j] == ones[j - |zeros|];
      }
    }
  }

  /** radixSort(i) orders the contents by their low i bits. */
  lemma {:induction false} RadixOfSorted(s: seq<int>, n: nat)
    ensures SortedByLow(RadixOf(s, n), n)
  {
    if n > 0 {
      var b: nat := n - 1;
      var prev := RadixOf(s, b);
      assert RadixOf(s, n) == Pass(prev, b);
      RadixOfSorted(s, b);
      PassSortedByLow(prev, b);
    }
  }

  /** radixSort(i) keeps every element. */
  lemma {:induction false} RadixOfMultiset(s: seq<int>, n: int)
    ensures multiset(RadixOf(s, n)) == multiset(s)
  {
    if n > 0 {
      var b: nat := n - 1;
      var prev := RadixOf(s, b);
      assert RadixOf(s, n) == Pass(prev, b);
      RadixOfMultiset(s, b);
      PassMultiset(prev, b);
    }
  }

  /** A value below 2^n is its own low n bits. */
  lemma {:induction false} LowBitsOfSmall(u: int, n: nat)
    requires 0 <= u < Pow2(n)
    ensures LowBits(u, n) == u
    decreases n
  {
    if n > 0 {
      LowBitsOfSmall(u / 2, n - 1);
    }
  }

  lemma {:induction false} Pow2Add(m: nat, n: nat)
    ensures Pow2(m + n) == Pow2(m) * Pow2(n)
  {
    if m > 0 {
      Pow2Add(m - 1, n);
    }
  }

  lemma Pow2Word()
    ensures Pow2(32) == WordModulus
  {
    assert Pow2(4) == 16;
    Pow2Add(4, 4);
    Pow2Add(8, 8);
    Pow2Add(16, 16);
  }

  lemma {:induction false} Pow2Monotone(m: nat, n: nat)
    requires m <= n
    ensures Pow2(m) <= Pow2(n)
    decreases n - m
  {
    if m < n {
      Pow2Monotone(m + 1, n);
    }
  }

  /** Values in [0, 2^n) with n <= 32 are their own low n bits. */
  lemma LowOfSmall(x: int, n: nat)
    requires n <= 32 && 0 <= x < Pow2(n)
    ensures Low(x, n) == x
  {
    Pow2Monotone(n, 32);
    Pow2Word();
    assert x % WordModulus == x;
    LowBitsOfSmall(x, n);
  }

  /** On values in [0, 2^n), sorting by the low n bits is sorting. */
  lemma RadixSortsSmallValues(s: seq<int>, n: nat)
    requires n <= 32
    requires forall m :: 0 <= m < |s| ==> 0 <= s[m] < Pow2(n)
    ensures RadixOf(s, n) == SortedOf(s)
  {
    RadixOfSorted(s, n);
    RadixOfMultiset(s, n);
    var t := RadixOf(s, n);
    forall m | 0 <= m < |t|
      ensures Low(t[m], n) == t[m]
    {
      assert t[m] in multiset(s);
      LowOfSmall(t[m], n);
    }
    assert Sorted(t);
    SortedOfUnique(s, t);
  }

  /**
   * The counting loops of bitCountingSort: count[0] ends as the number of elements
   * with bit b clear, count[1] as that plus the number with it set.
   */
  method CumulativeCounts(a: CircularDynamicArray<int>, b: nat) returns (count: array<int>)
    requires a.Valid()
    ensures fresh(count) && count.Length == 2
    ensures count[0] == |WithBit(a.Contents, b, 0)|
    ensures count[1] == |WithBit(a.Contents, b, 0)| + |WithBit(a.Contents, b, 1)|
  {
    ghost var s := a.Contents;
    count := new int[2];
    count[0], count[1] := 0, 0;
    var i := 0;
    while i < a.Length()
      invariant 0 <= i <= |s|
      invariant count[0] == |WithBit(s[..i], b, 0)| && count[1] == |WithBit(s[..i], b, 1)|
    {
      var bitValue := Bit(a.GetElement(i), b);
      assert s[..i + 1] == s[..i] + [s[i]];
      WithBitAppend(s[..i], [s[i]], b, 0);
      WithBitAppend(s[..i], [s[i]], b, 1);
      count[bitValue] := count[bitValue] + 1;
      i := i + 1;
    }
    assert s[..i] == s;
    count[1] := count[1] + count[0];
  }

  /** Where the scan from the back places s[i]: one past the earlier elements of its class. */
  lemma PlaceStep(s: seq<int>, i: int, b: nat)
    requires 0 <= i < |s|
    ensures |WithBit(s[..i + 1], b, 0)| == |WithBit(s[..i], b, 0)| + (if Bit(s[i], b) == 0 then 1 else 0)
    ensures |WithBit(s[..i + 1], b, 1)| == |WithBit(s[..i], b, 1)| + (if Bit(s[i], b) == 1 then 1 else 0)
    ensures |WithBit(s[..i], b, Bit(s[i], b))| < |WithBit(s, b, Bit(s[i], b))|
    ensures WithBit(s, b, Bit(s[i], b))[|WithBit(s[..i], b, Bit(s[i], b))|] == s[i]
  {
    var v := Bit(s[i], b);
    assert s[..i + 1] == s[..i] + [s[i]];
    assert s == s[..i + 1] + s[i + 1..];
    WithBitAppend(s[..i], [s[i]], b, 0);
    WithBitAppend(s[..i], [s[i]], b, 1);
    WithBitAppend(s[..i + 1], s[i + 1..], b, v);
    assert WithBit([s[i]], b, v) == [s[i]];
  }

  /** A sequence that agrees with x then y position by position is x + y. */
  lemma ConcatPointwise(f: seq<int>, x: seq<int>, y: seq<int>)
    requires |f| == |x| + |y|
    requires forall q :: 0 <= q < |x| ==> f[q] == x[q]
    requires forall q :: |x| <= q < |f| ==> f[q] == y[q - |x|]
    ensures f == x + y
  {
  }

  /**
   * The state of the reverse placement loop once s[i + 1..] is placed: the counts
   * are the class sizes within s[..i + 1], and above each count the output holds
   * the tail of that class.
   */
  ghost predicate Placed(f: seq<int>, s: seq<int>, b: nat, i: int, c0: int, c1: int)
  {
    var zeros, ones := WithBit(s, b, 0), WithBit(s, b, 1);
    -1 <= i < |s| && |f| == |s| == |zeros| + |ones| &&
    c0 == |WithBit(s[..i + 1], b, 0)| &&
    c1 == |zeros| + |WithBit(s[..i + 1], b, 1)| &&
    (forall q :: c0 <= q < |zeros| ==> f[q] == zeros[q]) &&
    (forall q :: c1 <= q < |f| ==> f[q] == ones[q - |zeros|])
  }

  lemma PlacedStart(f: seq<int>, s: seq<int>, b: nat)
    requires |f| == |s|
    ensures Placed(f, s, b, |s| - 1, |WithBit(s, b, 0)|, |WithBit(s, b, 0)| + |WithBit(s, b, 1)|)
  {
    assert s[..|s|] == s;
    PassMultiset(s, b);
  }

  /** Placing s[i] one below its class's count keeps the loop state. */
  lemma PlacedStep(f: seq<int>, s: seq<int>, b: nat, i: int, c0: int, c1: int)
    requires Placed(f, s, b, i, c0, c1) && i >= 0
    ensures Bit(s[i], b) == 0 ==> 0 < c0 <= |f| && Placed(f[c0 - 1 := s[i]], s, b, i - 1, c0 - 1, c1)
    ensures Bit(s[i], b) == 1 ==> 0 < c1 <= |f| && Placed(f[c1 - 1 := s[i]], s, b, i - 1, c0, c1 - 1)
  {
    PlaceStep(s, i, b);
    assert s[..i - 1 + 1] == s[..i];
  }

  lemma PlacedEnd(f: seq<int>, s: seq<int>, b: nat, c0: int, c1: int)
    requires Placed(f, s, b, -1, c0, c1)
    ensures f == Pass(s, b)
  {
    assert s[..0] == [];
    ConcatPointwise(f, WithBit(s, b, 0), WithBit(s, b, 1));
  }

  /** One step of the placement loop: s[i] goes just below its class's count. */
  method PlaceOne(a: CircularDynamicArray<int>, b: nat, count: array<int>, finalArray: array<int>, i: int)
    requires a.Valid() && count.Length == 2 && count != finalArray
    requires Placed(finalArray[..], a.Contents, b, i, count[0], count[1]) && i >= 0
    modifies count, finalArray
    ensures Placed(finalArray[..], a.Contents, b, i - 1, count[0], count[1])
  {
    ghost var s := a.Contents;
    var element := a.GetElement(i);
    var bitValue := Bit(element, b);
    ghost var f, c0, c1 := finalArray[..], count[0], count[1];
    PlacedStep(f, s, b, i, c0, c1);
    var locationOfElement := count[bitValue] - 1;
    finalArray[locationOfElement] := element;
    count[bitValue] := count[bitValue] - 1;
    assert finalArray[..] == f[locationOfElement := element];
  }

  /**
   * The reverse placement loop of bitCountingSort: scanning from the back with
   * cumulative counts puts each class in its original order.
   */
  method Distribute(a: CircularDynamicArray<int>, b: nat, count: array<int>) returns (finalArray: array<int>)
    requires a.Valid() && count.Length == 2 && count !in a.Repr
    requires count[0] == |WithBit(a.Contents, b, 0)|
    requires count[1] == |WithBit(a.Contents, b, 0)| + |WithBit(a.Contents, b, 1)|
    modifies count
    ensures fresh(finalArray) && finalArray.Length == |a.Contents|
    ensures finalArray[..] == Pass(a.Contents, b)
  {
    ghost var s := a.Contents;
    var n := a.Length();
    finalArray := new int[n];
    var i := n - 1;
    PlacedStart(finalArray[..], s, b);
    while i >= 0
      invariant Placed(finalArray[..], s, b, i, count[0], count[1])
    {
      PlaceOne(a, b, count, finalArray, i);
      i := i - 1;
    }
    PlacedEnd(finalArray[..], s, b, count[0], count[1]);
  }

  /**
   * bitCountingSort(b): a stable partition on bit b of the unsigned view; elements
   * with the bit clear come first and each class keeps its order.
   */
  method BitCountingSort(a: CircularDynamicArray<int>, b: nat)
    requires a.Valid() && b < 32
    modifies a.data, a`Contents
    ensures a.Valid()
    ensures a.Contents == Pass(old(a.Contents), b)
  {
    ghost var s := a.Contents;
    var count := CumulativeCounts(a, b);
    var finalArray := Distribute(a, b, count);
    WriteBack(a, 0, finalArray);
    assert a.Contents == a.Contents[0..finalArray.Length];
  }

  /** radixSort(i): counting-sort passes on bits 0, 1, ..., i - 1 (no pass when i <= 0). */
  method RadixSort(a: CircularDynamicArray<int>, i: int)
    requires a.Valid() && i <= 32
    modifies a.data, a`Contents
    ensures a.Valid()
    ensures a.Contents == RadixOf(old(a.Contents), i)
  {
    var b := 0;
    while b < i
      invariant a.Valid()
      invariant 0 <= b && (b <= i || b == 0)
      invariant a.Contents == RadixOf(old(a.Contents), b)
    {
      BitCountingSort(a, b);
      b := b + 1;
    }
  }
}
