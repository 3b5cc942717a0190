/**
 * Value-level specifications shared by the in-place algorithms of the circular
 * array: sortedness, the sorted arrangement of a sequence, permutation of a
 * sub-range, and the two-way merge that the stable sort performs.
 */
module SortingSpec {

  /** Non-decreasing order. */
  ghost predicate Sorted(s: seq<int>)
  {
    forall i, j :: 0 <= i < j < |s| ==> s[i] <= s[j]
  }

  /** Every element of s is at least v. */
  ghost predicate AllAtLeast(v: int, s: seq<int>)
  {
    forall m :: 0 <= m < |s| ==> v <= s[m]
  }

  /** Every element of s is at most v. */
  ghost predicate AllAtMost(s: seq<int>, v: int)
  {
    forall m :: 0 <= m < |s| ==> s[m] <= v
  }

  /** A bound on the elements carries over to a sequence with the same elements. */
  lemma AtLeastByMultiset(v: int, s: seq<int>, t: seq<int>)
    requires AllAtLeast(v, s) && multiset(t) <= multiset(s)
    ensures AllAtLeast(v, t)
  {
    forall m | 0 <= m < |t|
      ensures v <= t[m]
    {
      assert t[m] in multiset(s);
    }
  }

  lemma AtMostByMultiset(s: seq<int>, v: int, t: seq<int>)
    requires AllAtMost(s, v) && multiset(t) <= multiset(s)
    ensures AllAtMost(t, v)
  {
    forall m | 0 <= m < |t|
      ensures t[m] <= v
    {
      assert t[m] in multiset(s);
    }
  }

  /** Insert x into s before the first element that is not smaller than x. */
  function Insert(x: int, s: seq<int>): (r: seq<int>)
    ensures multiset(r) == multiset(s) + multiset{x}
  {
    if |s| == 0 then [x]
    else if x <= s[0] then [x] + s
    else
      assert s == [s[0]] + s[1..];
      [s[0]] + Insert(x, s[1..])
  }

  /** Inserting into a sorted sequence keeps it sorted. */
  lemma {:induction false} InsertSorted(x: int, s: seq<int>)
    requires Sorted(s)
    ensures Sorted(Insert(x, s))
  {
    if |s| == 0 || x <= s[0] {
    } else {
      InsertSorted(x, s[1..]);
      var rest := Insert(x, s[1..]);
      assert AllAtLeast(s[0], s[1..] + [x]);
      assert multiset(s[1..] + [x]) == multiset(rest);
      AtLeastByMultiset(s[0], s[1..] + [x], rest);
    }
  }

  /** The sorted arrangement of s (an insertion sort): the reference for the selects and sorts. */
  function SortedOf(s: seq<int>): (r: seq<int>)
    ensures Sorted(r)
    ensures multiset(r) == multiset(s)
    ensures |r| == |s|
  {
    if |s| == 0 then []
    else
      assert s == [s[0]] + s[1..];
      var rest := SortedOf(s[1..]);
      InsertSorted(s[0], rest);
      Insert(s[0], rest)
  }

  /** The head of a sorted sequence is a lower bound of every element of it. */
  lemma HeadIsLeast(b: seq<int>, x: int)
    requires Sorted(b) && x in multiset(b)
    ensures |b| > 0 && b[0] <= x
  {
    assert x in b;
    var i :| 0 <= i < |b| && b[i] == x;
  }

  /** Dropping the head of a sequence removes one copy of it from the multiset. */
  lemma TailMultiset(a: seq<int>)
    requires |a| > 0
    ensures multiset(a[1..]) == multiset(a) - multiset{a[0]}
  {
    assert a == [a[0]] + a[1..];
  }

  /** A sorted sequence is determined by its multiset of elements. */
  lemma {:induction false} SortedUnique(a: seq<int>, b: seq<int>)
    requires Sorted(a) && Sorted(b)
    requires multiset(a) == multiset(b)
    ensures a == b
  {
    if |a| == 0 {
      assert |b| == |multiset(b)| == 0;
    } else {
      assert |b| == |multiset(b)| == |a|;
      assert a[0] == b[0] by {
        assert a[0] in multiset(a);
        HeadIsLeast(b, a[0]);
        assert b[0] in multiset(b);
        HeadIsLeast(a, b[0]);
      }
      TailMultiset(a);
      TailMultiset(b);
      SortedUnique(a[1..], b[1..]);
      assert a == [a[0]] + a[1..] && b == [b[0]] + b[1..];
    }
  }

  /** Sorted sequences with the same elements as s are exactly SortedOf(s). */
  lemma SortedOfUnique(s: seq<int>, t: seq<int>)
    requires Sorted(t) && multiset(t) == multiset(s)
    ensures t == SortedOf(s)
  {
    SortedUnique(t, SortedOf(s));
  }

  /** The largest element of s is the last of its sorted arrangement. */
  lemma MaximumIsLast(s: seq<int>, m: int)
    requires 0 <= m < |s| && forall j :: 0 <= j < |s| ==> s[j] <= s[m]
    ensures SortedOf(s)[|s| - 1] == s[m]
  {
    var t := SortedOf(s);
    assert t[|t| - 1] in multiset(s);
    var j :| 0 <= j < |s| && s[j] == t[|t| - 1];
    assert s[m] in multiset(t);
    var i :| 0 <= i < |t| && t[i] == s[m];
    assert i < |t| - 1 ==> t[i] <= t[|t| - 1];
  }

  /** No element of [left, k) exceeds c[k] and no element of (k, right] is below it. */
  ghost predicate SelectedAt(c: seq<int>, left: int, right: int, k: int)
    requires 0 <= left <= k <= right < |c|
  {
    (forall i :: left <= i < k ==> c[i] <= c[k]) &&
    (forall i :: k < i <= right ==> c[k] <= c[i])
  }

  /**
   * The order-statistics characterisation: an element that no earlier element
   * exceeds and no later element undercuts sits where the sorted arrangement has it.
   */
  lemma SelectLemma(s: seq<int>, c: seq<int>, k: int)
    requires multiset(c) == multiset(s)
    requires 0 <= k < |c| && SelectedAt(c, 0, |c| - 1, k)
    ensures |s| == |c| && SortedOf(s)[k] == c[k]
  {
    assert |s| == |c| by {
      assert |multiset(s)| == |multiset(c)|;
    }
    var t := SortAround(c, k);
    SortedUnique(t, SortedOf(s));
  }

  /** Sorting both sides of a separating element gives a sorted arrangement that keeps it in place. */
  lemma SortAround(c: seq<int>, k: int) returns (t: seq<int>)
    requires 0 <= k < |c|
    requires forall i :: 0 <= i < k ==> c[i] <= c[k]
    requires forall i :: k < i < |c| ==> c[k] <= c[i]
    ensures Sorted(t) && multiset(t) == multiset(c) && |t| == |c| && t[k] == c[k]
  {
    var lo := SortedOf(c[..k]);
    var hi := SortedOf(c[k + 1..]);
    t := lo + [c[k]] + hi;
    assert AllAtMost(lo, c[k]) by {
      assert AllAtMost(c[..k], c[k]);
      AtMostByMultiset(c[..k], c[k], lo);
    }
    assert AllAtLeast(c[k], hi) by {
      assert AllAtLeast(c[k], c[k + 1..]);
      AtLeastByMultiset(c[k], c[k + 1..], hi);
    }
    SortedJoin(lo, c[k], hi);
    assert multiset(t) == multiset(c) by {
      assert c == c[..k] + [c[k]] + c[k + 1..];
    }
  }

  /** Two sorted runs around a separating value join into a sorted run. */
  lemma SortedJoin(lo: seq<int>, v: int, hi: seq<int>)
    requires Sorted(lo) && Sorted(hi) && AllAtMost(lo, v) && AllAtLeast(v, hi)
    ensures Sorted(lo + [v] + hi)
  {
    var t := lo + [v] + hi;
    forall i, j | 0 <= i < j < |t|
      ensures t[i] <= t[j]
    {
      if j < |lo| {
      } else if i < |lo| {
        assert t[i] <= v;
        if j > |lo| {
          assert t[j] == hi[j - |lo| - 1];
        }
      } else if i == |lo| {
        assert t[j] == hi[j - |lo| - 1];
      } else {
        assert t[i] == hi[i - |lo| - 1] && t[j] == hi[j - |lo| - 1];
      }
    }
  }

  /**
   * t is s with the range [lo, hi] rearranged and everything outside it left alone.
   * An empty range is written hi == lo - 1.
   */
  ghost predicate PermutedWithin(s: seq<int>, t: seq<int>, lo: int, hi: int)
  {
    0 <= lo <= hi + 1 <= |s| && |t| == |s| &&
    (forall m :: 0 <= m < |s| && !(lo <= m <= hi) ==> s[m] == t[m]) &&
    multiset(s[lo..hi + 1]) == multiset(t[lo..hi + 1])
  }

  lemma PermutedRefl(s: seq<int>, lo: int, hi: int)
    requires 0 <= lo <= hi + 1 <= |s|
    ensures PermutedWithin(s, s, lo, hi)
  {
  }

  lemma PermutedTrans(s: seq<int>, t: seq<int>, u: seq<int>, lo: int, hi: int)
    requires PermutedWithin(s, t, lo, hi) && PermutedWithin(t, u, lo, hi)
    ensures PermutedWithin(s, u, lo, hi)
  {
  }

  /** A rearrangement of a range is also one of every range around it. */
  lemma PermutedWiden(s: seq<int>, t: seq<int>, lo: int, hi: int, lo2: int, hi2: int)
    requires PermutedWithin(s, t, lo, hi)
    requires 0 <= lo2 <= lo && hi <= hi2 < |s|
    ensures PermutedWithin(s, t, lo2, hi2)
  {
    assert s[lo2..hi2 + 1] == s[lo2..lo] + s[lo..hi + 1] + s[hi + 1..hi2 + 1];
    assert t[lo2..hi2 + 1] == t[lo2..lo] + t[lo..hi + 1] + t[hi + 1..hi2 + 1];
    assert s[lo2..lo] == t[lo2..lo];
    assert s[hi + 1..hi2 + 1] == t[hi + 1..hi2 + 1];
  }

  /** Exchanging two positions of a range rearranges that range. */
  lemma PermutedSwap(s: seq<int>, lo: int, hi: int, i: int, j: int)
    requires 0 <= lo <= i <= hi < |s| && lo <= j <= hi
    ensures PermutedWithin(s, s[i := s[j]][j := s[i]], lo, hi)
  {
    var t := s[i := s[j]][j := s[i]];
    assert t[lo..hi + 1] == s[lo..hi + 1][i - lo := s[j]][j - lo := s[i]];
  }

  /** A rearrangement followed by an exchange inside the range is still a rearrangement. */
  lemma PermutedThenSwap(s0: seq<int>, s: seq<int>, lo: int, hi: int, i: int, j: int)
    requires PermutedWithin(s0, s, lo, hi)
    requires lo <= i <= hi && lo <= j <= hi
    ensures PermutedWithin(s0, s[i := s[j]][j := s[i]], lo, hi)
  {
    PermutedSwap(s, lo, hi, i, j);
    PermutedTrans(s0, s, s[i := s[j]][j := s[i]], lo, hi);
  }

  /** Rearranging a range keeps the multiset of the whole sequence. */
  lemma PermutedMultiset(s: seq<int>, t: seq<int>, lo: int, hi: int)
    requires PermutedWithin(s, t, lo, hi)
    ensures multiset(s) == multiset(t)
  {
    PermutedWiden(s, t, lo, hi, 0, |s| - 1);
    assert s[0..|s|] == s && t[0..|t|] == t;
  }

  /** Every element of the rearranged range came from the old range. */
  lemma PermutedElement(s: seq<int>, t: seq<int>, lo: int, hi: int, j: int) returns (i: int)
    requires PermutedWithin(s, t, lo, hi) && lo <= j <= hi
    ensures lo <= i <= hi && t[j] == s[i]
  {
    assert t[j] == t[lo..hi + 1][j - lo];
    assert t[j] in multiset(s[lo..hi + 1]);
    var m :| 0 <= m < hi + 1 - lo && s[lo..hi + 1][m] == t[j];
    i := lo + m;
  }

  /**
   * The two-way merge of the stable sort: on a tie the element of the left run
   * goes first.
   */
  function MergeSeq(x: seq<int>, y: seq<int>): seq<int>
    decreases |x| + |y|
  {
    if |x| == 0 then y
    else if |y| == 0 then x
    else if x[0] <= y[0] then [x[0]] + MergeSeq(x[1..], y)
    else [y[0]] + MergeSeq(x, y[1..])
  }

  /** Merging keeps every element of both runs. */
  lemma {:induction false} MergeSeqMultiset(x: seq<int>, y: seq<int>)
    ensures multiset(MergeSeq(x, y)) == multiset(x) + multiset(y)
    decreases |x| + |y|
  {
    if |x| == 0 || |y| == 0 {
    } else if x[0] <= y[0] {
      MergeSeqMultiset(x[1..], y);
      assert x == [x[0]] + x[1..];
    } else {
      MergeSeqMultiset(x, y[1..]);
      assert y == [y[0]] + y[1..];
    }
  }

  /** Merging two sorted runs gives a sorted run. */
  lemma {:induction false} MergeSeqSorted(x: seq<int>, y: seq<int>)
    requires Sorted(x) && Sorted(y)
    ensures Sorted(MergeSeq(x, y))
    decreases |x| + |y|
  {
    if |x| == 0 || |y| == 0 {
    } else if x[0] <= y[0] {
      MergeSeqSorted(x[1..], y);
      MergeSeqMultiset(x[1..], y);
      var r := MergeSeq(x[1..], y);
      forall m | 0 <= m < |r|
        ensures x[0] <= r[m]
      {
        assert r[m] in multiset(x[1..]) + multiset(y);
      }
      SortedCons(x[0], r);
    } else {
      MergeSeqSorted(x, y[1..]);
      MergeSeqMultiset(x, y[1..]);
      var r := MergeSeq(x, y[1..]);
      forall m | 0 <= m < |r|
        ensures y[0] <= r[m]
      {
        assert r[m] in multiset(x) + multiset(y[1..]);
      }
      SortedCons(y[0], r);
    }
  }

  /** A lower bound of a sorted sequence can be put in front of it. */
  lemma SortedCons(h: int, r: seq<int>)
    requires Sorted(r) && forall m :: 0 <= m < |r| ==> h <= r[m]
    ensures Sorted([h] + r)
  {
    forall i, j | 0 <= i < j < |[h] + r|
      ensures ([h] + r)[i] <= ([h] + r)[j]
    {
      if i > 0 {
        assert ([h] + r)[i] == r[i - 1];
      }
      assert ([h] + r)[j] == r[j - 1];
    }
  }

  /** Merge is stable: with all of the left run not above the right run, it is concatenation. */
  lemma {:induction false} MergeSeqLeftFirst(x: seq<int>, y: seq<int>)
    requires forall i, j :: 0 <= i < |x| && 0 <= j < |y| ==> x[i] <= y[j]
    ensures MergeSeq(x, y) == x + y
    decreases |x|
  {
    if |x| == 0 || |y| == 0 {
    } else {
      MergeSeqLeftFirst(x[1..], y);
      assert x == [x[0]] + x[1..];
    }
  }
}
