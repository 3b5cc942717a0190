/**
 * The array-backed binary min-heap: nodes (key, value) stored level by level in
 * a circular dynamic array, the children of position i at 2i+1 and 2i+2.
 */
module BinaryHeap {
  import opened CircularArray

  datatype Node<V> = Node(key: int, value: V)

  /** C++ integer division by a positive divisor: truncates toward zero. */
  function Quot(x: int, d: int): (r: int)
    requires d > 0
    ensures x >= 0 ==> d * r <= x < d * r + d
    ensures x < 0 ==> d * r - d < x <= d * r
  {
    if x >= 0 then x / d else -((-x) / d)
  }

  /** parentIndex: (i - 1) / 2 in truncating division. */
  function ParentIndex(i: int): (r: int)
    ensures i >= 1 ==> 0 <= r < i && (i == 2 * r + 1 || i == 2 * r + 2)
    ensures i == 0 ==> r == 0
  {
    Quot(i - 1, 2)
  }

  function LeftChildIndex(i: int): int
  {
    2 * i + 1
  }

  function RightChildIndex(i: int): int
  {
    2 * i + 2
  }

  /** Both children of a node name that node as their parent. */
  lemma ParentOfChildren(i: int)
    requires i >= 0
    ensures ParentIndex(LeftChildIndex(i)) == i
    ensures ParentIndex(RightChildIndex(i)) == i
  {
  }

  /** Min-heap order: no node's key is below its parent's. */
  ghost predicate IsHeap<V>(s: seq<Node<V>>)
  {
    forall c :: 0 < c < |s| ==> s[ParentIndex(c)].key <= s[c].key
  }

  /** j lies in the subtree rooted at i (i itself included). */
  ghost predicate InSubtree(j: int, i: int)
    decreases j
  {
    j == i || (j > i && j > 0 && InSubtree(ParentIndex(j), i))
  }

  /** Heap order on every parent-child edge inside the subtree rooted at i. */
  ghost predicate SubHeap<V>(s: seq<Node<V>>, i: int)
  {
    forall c :: 0 < c < |s| && c != i && InSubtree(c, i) ==> s[ParentIndex(c)].key <= s[c].key
  }

  /** The least of the keys at i and at those of its children that exist. */
  ghost function FamilyMin<V>(s: seq<Node<V>>, i: nat): (r: int)
    requires i < |s|
    ensures r <= s[i].key
    ensures LeftChildIndex(i) < |s| ==> r <= s[LeftChildIndex(i)].key
    ensures RightChildIndex(i) < |s| ==> r <= s[RightChildIndex(i)].key
    ensures r == s[i].key || (LeftChildIndex(i) < |s| && r == s[LeftChildIndex(i)].key) ||
            (RightChildIndex(i) < |s| && r == s[RightChildIndex(i)].key)
  {
    var l := LeftChildIndex(i);
    var r := RightChildIndex(i);
    var m := if l < |s| && s[l].key < s[i].key then s[l].key else s[i].key;
    if r < |s| && s[r].key < m then s[r].key else m
  }

  /** The nodes k[0], v[0] ... k[s-1], v[s-1] in order. */
  ghost function Pairs<V>(ks: seq<int>, vs: seq<V>): (r: seq<Node<V>>)
    requires |ks| == |vs|
    ensures |r| == |ks|
    ensures forall i :: 0 <= i < |r| ==> r[i] == Node(ks[i], vs[i])
  {
    if ks == [] then [] else Pairs(ks[..|ks| - 1], vs[..|vs| - 1]) + [Node(ks[|ks| - 1], vs[|vs| - 1])]
  }

  // ---------------- subtree structure ----------------

  lemma {:induction false} SubtreeBelow(j: int, i: int)
    requires InSubtree(j, i)
    ensures j >= i
    decreases j
  {
    if j != i {
      SubtreeBelow(ParentIndex(j), i);
    }
  }

  /** A proper descendant of i descends from one of i's children. */
  lemma {:induction false} ThroughChild(j: int, i: int)
    requires i >= 0 && InSubtree(j, i) && j != i
    ensures InSubtree(j, LeftChildIndex(i)) || InSubtree(j, RightChildIndex(i))
    decreases j
  {
    var p := ParentIndex(j);
    if p != i {
      ThroughChild(p, i);
      if InSubtree(p, LeftChildIndex(i)) {
        SubtreeBelow(p, LeftChildIndex(i));
      } else {
        SubtreeBelow(p, RightChildIndex(i));
      }
    }
  }

  lemma {:induction false} SubtreeTrans(j: int, c: int, i: int)
    requires InSubtree(j, c) && InSubtree(c, i)
    ensures InSubtree(j, i)
    decreases j
  {
    if j != c {
      SubtreeTrans(ParentIndex(j), c, i);
      SubtreeBelow(c, i);
    }
  }

  /** The ancestors of a position form a chain. */
  lemma {:induction false} AncestorChain(j: int, x: int, y: int)
    requires InSubtree(j, x) && InSubtree(j, y) && x <= y
    ensures InSubtree(y, x)
    decreases j
  {
    if j != y {
      if j == x {
        SubtreeBelow(j, y);
      } else {
        AncestorChain(ParentIndex(j), x, y);
      }
    }
  }

  lemma {:induction false} EverythingUnderRoot(j: int)
    requires j >= 0
    ensures InSubtree(j, 0)
    decreases j
  {
    if j > 0 {
      EverythingUnderRoot(ParentIndex(j));
    }
  }

  /** The subtree rooted at 0 is the whole heap. */
  lemma RootSubHeap<V>(s: seq<Node<V>>)
    ensures SubHeap(s, 0) <==> IsHeap(s)
  {
    forall c | 0 < c < |s|
      ensures InSubtree(c, 0)
    {
      EverythingUnderRoot(c);
    }
  }

  /** A subtree of a heap-ordered subtree is heap-ordered. */
  lemma InnerSubHeap<V>(s: seq<Node<V>>, i: int, j: int)
    requires SubHeap(s, i) && InSubtree(j, i)
    ensures SubHeap(s, j)
  {
    forall c | 0 < c < |s| && c != j && InSubtree(c, j)
      ensures s[ParentIndex(c)].key <= s[c].key
    {
      SubtreeTrans(c, j, i);
      SubtreeBelow(c, j);
      SubtreeBelow(j, i);
    }
  }

  /** A subtree starting beyond the end holds no edge. */
  lemma EmptySubHeap<V>(s: seq<Node<V>>, i: int)
    requires i >= 0 && 2 * i + 1 >= |s|
    ensures SubHeap(s, i)
  {
    forall c | 0 < c < |s| && c != i && InSubtree(c, i)
      ensures false
    {
      ThroughChild(c, i);
      if InSubtree(c, LeftChildIndex(i)) {
        SubtreeBelow(c, LeftChildIndex(i));
      } else {
        SubtreeBelow(c, RightChildIndex(i));
      }
    }
  }

  /** Heap order inside a subtree depends only on the positions of that subtree. */
  lemma SubHeapFrame<V>(s: seq<Node<V>>, t: seq<Node<V>>, i: int)
    requires SubHeap(s, i)
    requires forall y :: 0 <= y < |t| && InSubtree(y, i) ==> y < |s| && t[y] == s[y]
    ensures SubHeap(t, i)
  {
    forall c | 0 < c < |t| && c != i && InSubtree(c, i)
      ensures t[ParentIndex(c)].key <= t[c].key
    {
      assert InSubtree(ParentIndex(c), i);
    }
  }

  /** The root of a heap holds the least key. */
  lemma {:induction false} HeapRootLeast<V>(s: seq<Node<V>>, j: int)
    requires IsHeap(s) && 0 <= j < |s|
    ensures s[0].key <= s[j].key
    decreases j
  {
    if j > 0 {
      HeapRootLeast(s, ParentIndex(j));
    }
  }

  // ---------------- heapify ----------------

  /** heapify found the node no larger than its children: the subtree is ordered. */
  lemma HeapifyStop<V>(s: seq<Node<V>>, i: int)
    requires 0 <= i
    requires SubHeap(s, LeftChildIndex(i)) && SubHeap(s, RightChildIndex(i))
    requires LeftChildIndex(i) < |s| ==> s[i].key <= s[LeftChildIndex(i)].key
    requires RightChildIndex(i) < |s| ==> s[i].key <= s[RightChildIndex(i)].key
    ensures SubHeap(s, i)
  {
    forall c | 0 < c < |s| && c != i && InSubtree(c, i)
      ensures s[ParentIndex(c)].key <= s[c].key
    {
      if ParentIndex(c) != i {
        ThroughChild(c, i);
      }
    }
  }

  /** The subtrees of a node's two children do not meet. */
  lemma SiblingsApart(j: int, i: int)
    requires i >= 0
    ensures !(InSubtree(j, LeftChildIndex(i)) && InSubtree(j, RightChildIndex(i)))
  {
    if InSubtree(j, LeftChildIndex(i)) && InSubtree(j, RightChildIndex(i)) {
      AncestorChain(j, LeftChildIndex(i), RightChildIndex(i));
      assert false;
    }
  }

  /** The two children of i, named m (the one heapify descends into) and o. */
  ghost predicate ChildPair(i: int, m: int, o: int)
  {
    0 <= i &&
    ((m == LeftChildIndex(i) && o == RightChildIndex(i)) ||
     (m == RightChildIndex(i) && o == LeftChildIndex(i)))
  }

  /** Sifting down below m leaves the subtree of m's sibling o as it was. */
  lemma SiblingUntouched<V>(s0: seq<Node<V>>, s1: seq<Node<V>>, s2: seq<Node<V>>, i: int, m: int, o: int)
    requires ChildPair(i, m, o) && m < |s0| && SubHeap(s0, o)
    requires s1 == s0[i := s0[m]][m := s0[i]]
    requires |s2| == |s1|
    requires forall j :: 0 <= j < |s2| && !InSubtree(j, m) ==> s2[j] == s1[j]
    ensures SubHeap(s2, o)
    ensures o < |s2| ==> s2[o] == s0[o]
  {
    forall y | 0 <= y < |s2| && InSubtree(y, o)
      ensures y < |s0| && s2[y] == s0[y]
    {
      SiblingsApart(y, i);
      SubtreeBelow(y, o);
    }
    SubHeapFrame(s0, s2, o);
  }

  /** After the swap, m and its children hold keys no smaller than the one moved up to i. */
  lemma FamilyAfterSwap<V>(s0: seq<Node<V>>, s1: seq<Node<V>>, i: int, m: int)
    requires 0 <= i && (m == LeftChildIndex(i) || m == RightChildIndex(i)) && m < |s0|
    requires SubHeap(s0, m) && s0[m].key < s0[i].key
    requires s1 == s0[i := s0[m]][m := s0[i]]
    ensures FamilyMin(s1, m) >= s0[m].key
  {
    ParentOfChildren(m);
    assert InSubtree(LeftChildIndex(m), m) && InSubtree(RightChildIndex(m), m);
  }

  /**
   * heapify swapped node i with its smaller child m and sifted down from m:
   * s0 before the swap, s1 after it, s2 after the recursive call.
   */
  lemma HeapifyStep<V>(s0: seq<Node<V>>, s1: seq<Node<V>>, s2: seq<Node<V>>, i: int, m: int, o: int)
    requires ChildPair(i, m, o) && m < |s0|
    requires SubHeap(s0, m) && SubHeap(s0, o)
    requires s0[m].key < s0[i].key
    requires o < |s0| ==> s0[m].key <= s0[o].key
    requires s1 == s0[i := s0[m]][m := s0[i]]
    requires |s2| == |s1| && SubHeap(s2, m) && s2[m].key == FamilyMin(s1, m)
    requires forall j :: 0 <= j < |s2| && !InSubtree(j, m) ==> s2[j] == s1[j]
    ensures SubHeap(s2, i)
    ensures s2[i] == s0[m]
    ensures forall j :: 0 <= j < |s2| && !InSubtree(j, i) ==> s2[j] == s0[j]
  {
    ParentOfChildren(i);
    assert !InSubtree(i, m) by {
      if InSubtree(i, m) {
        SubtreeBelow(i, m);
      }
    }
    FamilyAfterSwap(s0, s1, i, m);
    SiblingUntouched(s0, s1, s2, i, m, o);
    forall c | 0 < c < |s2| && c != i && InSubtree(c, i)
      ensures s2[ParentIndex(c)].key <= s2[c].key
    {
      ThroughChild(c, i);
    }
    assert InSubtree(m, i);
    forall j | 0 <= j < |s2| && !InSubtree(j, i)
      ensures s2[j] == s0[j]
    {
      if InSubtree(j, m) {
        SubtreeTrans(j, m, i);
      }
    }
  }

  /** Swapping node i with child m keeps the grandchildren's subtrees as they were. */
  lemma ChildrenAfterSwap<V>(s0: seq<Node<V>>, s1: seq<Node<V>>, i: int, m: int)
    requires 0 <= i && (m == LeftChildIndex(i) || m == RightChildIndex(i)) && m < |s0|
    requires SubHeap(s0, LeftChildIndex(i)) && SubHeap(s0, RightChildIndex(i))
    requires s1 == s0[i := s0[m]][m := s0[i]]
    ensures SubHeap(s1, LeftChildIndex(m)) && SubHeap(s1, RightChildIndex(m))
  {
    ParentOfChildren(m);
    assert InSubtree(LeftChildIndex(m), m) && InSubtree(RightChildIndex(m), m);
    InnerSubHeap(s0, m, LeftChildIndex(m));
    InnerSubHeap(s0, m, RightChildIndex(m));
    forall y | 0 <= y < |s1| && InSubtree(y, LeftChildIndex(m))
      ensures y < |s0| && s1[y] == s0[y]
    {
      SubtreeBelow(y, LeftChildIndex(m));
    }
    forall y | 0 <= y < |s1| && InSubtree(y, RightChildIndex(m))
      ensures y < |s0| && s1[y] == s0[y]
    {
      SubtreeBelow(y, RightChildIndex(m));
    }
    SubHeapFrame(s0, s1, LeftChildIndex(m));
    SubHeapFrame(s0, s1, RightChildIndex(m));
  }

  /** One step of the bottom-up build: heapify(j) leaves every subtree from j on ordered. */
  lemma BuildStep<V>(before: seq<Node<V>>, after: seq<Node<V>>, j: int)
    requires 0 <= j
    requires forall x :: x > j ==> SubHeap(before, x)
    requires SubHeap(after, j) && |after| == |before|
    requires forall y :: 0 <= y < |after| && !InSubtree(y, j) ==> after[y] == before[y]
    ensures forall x :: x >= j ==> SubHeap(after, x)
  {
    forall x | x >= j
      ensures SubHeap(after, x)
    {
      if x == j {
      } else if InSubtree(x, j) {
        InnerSubHeap(after, j, x);
      } else {
        forall y | 0 <= y < |after| && InSubtree(y, x)
          ensures y < |before| && after[y] == before[y]
        {
          if InSubtree(y, j) {
            AncestorChain(y, j, x);
          }
        }
        SubHeapFrame(before, after, x);
      }
    }
  }

  /** extractMin's rearrangement: the last node replaces the root (an empty sequence from one node). */
  ghost function LastToFront<V>(s: seq<Node<V>>): (r: seq<Node<V>>)
    requires |s| >= 1
    ensures |r| == |s| - 1
    ensures |s| >= 2 ==> r[0] == s[|s| - 1]
    ensures forall y :: 1 <= y < |r| ==> r[y] == s[y]
  {
    if |s| >= 2 then [s[|s| - 1]] + s[1..|s| - 1] else []
  }

  /** Replacing the root by the last node loses exactly the root. */
  lemma LastToFrontMultiset<V>(s: seq<Node<V>>)
    requires |s| >= 1
    ensures multiset(LastToFront(s)) == multiset(s) - multiset{s[0]}
  {
    if |s| >= 2 {
      assert s == [s[0]] + s[1..|s| - 1] + [s[|s| - 1]];
    } else {
      assert s == [s[0]];
    }
  }

  /** After the root is replaced by the last node, both child subtrees are still ordered. */
  lemma ExtractShape<V>(s: seq<Node<V>>, t: seq<Node<V>>)
    requires IsHeap(s) && |s| >= 1
    requires t == LastToFront(s)
    ensures SubHeap(t, 1) && SubHeap(t, 2)
  {
    RootSubHeap(s);
    assert InSubtree(1, 0) && InSubtree(2, 0);
    InnerSubHeap(s, 0, 1);
    InnerSubHeap(s, 0, 2);
    forall y | 0 <= y < |t| && InSubtree(y, 1)
      ensures y < |s| && t[y] == s[y]
    {
      SubtreeBelow(y, 1);
    }
    forall y | 0 <= y < |t| && InSubtree(y, 2)
      ensures y < |s| && t[y] == s[y]
    {
      SubtreeBelow(y, 2);
    }
    SubHeapFrame(s, t, 1);
    SubHeapFrame(s, t, 2);
  }

  // ---------------- sift-up ----------------

  /**
   * Heap order on every edge except the one from i up to its parent; the
   * parent of i is no larger than i's children either.
   */
  ghost predicate HeapExceptUp<V>(s: seq<Node<V>>, i: int)
  {
    (forall c :: 0 < c < |s| && c != i ==> s[ParentIndex(c)].key <= s[c].key) &&
    (0 < i < |s| ==> forall c :: 0 < c < |s| && ParentIndex(c) == i ==> s[ParentIndex(i)].key <= s[c].key)
  }

  lemma SiftUpStart<V>(s: seq<Node<V>>, x: Node<V>)
    requires IsHeap(s)
    ensures HeapExceptUp(s + [x], |s|)
  {
  }

  /** Swapping a node with a larger parent moves the only possible violation one level up. */
  lemma SiftUpStep<V>(s: seq<Node<V>>, i: int)
    requires 0 < i < |s| && HeapExceptUp(s, i)
    requires s[ParentIndex(i)].key > s[i].key
    ensures HeapExceptUp(s[ParentIndex(i) := s[i]][i := s[ParentIndex(i)]], ParentIndex(i))
  {
  }

  lemma SiftUpEnd<V>(s: seq<Node<V>>, i: int)
    requires 0 <= i < |s| && HeapExceptUp(s, i)
    requires i == 0 || s[ParentIndex(i)].key <= s[i].key
    ensures IsHeap(s)
  {
  }

  /** The root of a heap holds the least key. */
  lemma LeastAtRoot<V>(s: seq<Node<V>>)
    requires IsHeap(s)
    ensures forall j :: 0 <= j < |s| ==> s[0].key <= s[j].key
  {
    forall j | 0 <= j < |s|
      ensures s[0].key <= s[j].key
    {
      HeapRootLeast(s, j);
    }
  }

  /** The heap: m_size counts the nodes held in the array. */
  class Heap<V(0)> {
    var size: int
    var arr: CircularDynamicArray<Node<V>>
    ghost var Repr: set<object>

    /** Everything but heap order: the array is valid, owned and as long as size. */
    ghost predicate Shape()
      reads this, Repr
    {
      this in Repr && arr in Repr && arr.Repr <= Repr && this !in arr.Repr &&
      arr.Valid() && arr.EndInBuffer() && size == |arr.Contents|
    }

    ghost predicate Valid()
      reads this, Repr
    {
      Shape() && IsHeap(arr.Contents)
    }

    /** The empty heap. */
    constructor ()
      ensures Valid() && fresh(Repr)
      ensures arr.Contents == [] && size == 0
    {
      size := 0;
      arr := new CircularDynamicArray<Node<V>>();
      new;
      Repr := {this} + arr.Repr;
    }

    /** The array constructor: append the s pairs, then heapify every inner node bottom-up. */
    constructor Build(k: array<int>, v: array<V>, s: int)
      requires 0 <= s <= k.Length && s <= v.Length
      ensures Valid() && fresh(Repr)
      ensures size == s
      ensures multiset(arr.Contents) == multiset(Pairs(k[..s], v[..s]))
    {
      var a := new CircularDynamicArray<Node<V>>();
      var i := 0;
      while i < s
        invariant 0 <= i <= s
        invariant a.Valid() && a.EndInBuffer() && fresh(a.Repr)
        invariant |a.Contents| == i
        invariant forall x :: 0 <= x < i ==> a.Contents[x] == Node(k[x], v[x])
      {
        var node := Node(k[i], v[i]);
        a.AddEnd(node);
        i := i + 1;
      }
      assert a.Contents == Pairs(k[..s], v[..s]);
      size := s;
      arr := a;
      Repr := {this} + a.Repr;
      new;
      ghost var built := arr.Contents;
      ghost var repr := Repr;
      var j := Quot(s - 1, 2);
      forall x | x > j
        ensures SubHeap(arr.Contents, x)
      {
        EmptySubHeap(arr.Contents, x);
      }
      while j >= 0
        invariant -1 <= j && Shape() && Repr == repr
        invariant multiset(arr.Contents) == multiset(built)
        invariant forall x :: x > j ==> SubHeap(arr.Contents, x)
        decreases j
      {
        ghost var before := arr.Contents;
        Heapify(j);
        BuildStep(before, arr.Contents, j);
        j := j - 1;
      }
      RootSubHeap(arr.Contents);
    }

    /** insert: append the node, then swap it up while its parent's key is larger. */
    method Insert(k: int, v: V)
      requires Valid()
      modifies Repr
      ensures Valid() && fresh(Repr - old(Repr))
      ensures size == old(size) + 1
      ensures multiset(arr.Contents) == multiset(old(arr.Contents)) + multiset{Node(k, v)}
    {
      size := size + 1;
      var node := Node(k, v);
      arr.AddEnd(node);
      Repr := Repr + arr.Repr;
      SiftUpStart(old(arr.Contents), node);
      SiftUp(size - 1);
    }

    /** insert's loop: swap node i with its parent while the parent's key is larger. */
    method SiftUp(start: int)
      requires Shape() && 0 <= start < size && HeapExceptUp(arr.Contents, start)
      modifies arr.data, arr`Contents
      ensures Shape() && IsHeap(arr.Contents)
      ensures multiset(arr.Contents) == multiset(old(arr.Contents))
    {
      var i := start;
      while i != 0 && arr.At(ParentIndex(i)).key > arr.At(i).key
        invariant Shape() && 0 <= i < size
        invariant multiset(arr.Contents) == multiset(old(arr.Contents))
        invariant HeapExceptUp(arr.Contents, i)
        decreases i
      {
        ghost var before := arr.Contents;
        arr.Swap(ParentIndex(i), i);
        SiftUpStep(before, i);
        i := ParentIndex(i);
      }
      SiftUpEnd(arr.Contents, i);
    }

    /** peakKey: the root's key, the least key of a non-empty heap. */
    function PeakKey(): (r: int)
      reads this, Repr
      requires Valid()
      ensures |arr.Contents| > 0 ==> r == arr.Contents[0].key
      ensures forall j :: 0 <= j < |arr.Contents| ==> r <= arr.Contents[j].key
      ensures |arr.Contents| == 0 ==> r == arr.errorElem.key
    {
      LeastAtRoot(arr.Contents);
      arr.At(0).key
    }

    /** peakValue: the value stored with the root's (least) key. */
    function PeakValue(): (r: V)
      reads this, Repr
      requires Valid()
      ensures |arr.Contents| > 0 ==> r == arr.Contents[0].value
      ensures |arr.Contents| > 0 ==> forall j :: 0 <= j < |arr.Contents| ==> arr.Contents[0].key <= arr.Contents[j].key
      ensures |arr.Contents| == 0 ==> r == arr.errorElem.value
    {
      LeastAtRoot(arr.Contents);
      arr.At(0).value
    }

    /**
     * extractMin: remove the root, move the last node to the front, sift it down
     * and hand back the removed key.  With one node the last-node read is the
     * out-of-range error element, which the following delEnd discards again.
     */
    method ExtractMin() returns (minKey: int)
      requires Valid() && size >= 1
      modifies Repr
      ensures Valid() && fresh(Repr - old(Repr))
      ensures size == old(size) - 1
      ensures minKey == old(arr.Contents)[0].key
      ensures forall j :: 0 <= j < |old(arr.Contents)| ==> minKey <= old(arr.Contents)[j].key
      ensures multiset(arr.Contents) == multiset(old(arr.Contents)) - multiset{old(arr.Contents)[0]}
    {
      LeastAtRoot(arr.Contents);
      ghost var s := arr.Contents;
      var front := ReplaceRootByLast();
      ExtractShape(s, arr.Contents);
      LastToFrontMultiset(s);
      Heapify(0);
      RootSubHeap(arr.Contents);
      minKey := front.key;
    }

    /** extractMin's first half: take the root out and put the last node in its place. */
    method ReplaceRootByLast() returns (front: Node<V>)
      requires Valid() && size >= 1
      modifies Repr
      ensures Shape() && fresh(Repr - old(Repr))
      ensures size == old(size) - 1
      ensures front == old(arr.Contents)[0]
      ensures arr.Contents == LastToFront(old(arr.Contents))
    {
      ghost var s := arr.Contents;
      front := arr.At(0);
      arr.DelFront();
      assert arr.Contents == s[1..] && this !in arr.Repr;
      size := size - 1;
      var end := arr.At(size - 1);
      assert |s| >= 2 ==> end == s[|s| - 1];
      arr.AddFront(end);
      assert arr.Contents == [end] + s[1..] && this !in arr.Repr;
      arr.DelEnd();
      assert arr.Contents == ([end] + s[1..])[..|s| - 1] && this !in arr.Repr;
      Repr := Repr + arr.Repr;
      if |s| >= 2 {
        assert ([end] + s[1..])[..|s| - 1] == [s[|s| - 1]] + s[1..|s| - 1];
      }
    }

    /**
     * heapify's choice among i and its children inside the heap: the least key,
     * i on a tie with a child and the left child on a tie between the children.
     */
    function Smallest(i: int): (r: int)
      reads this, Repr
      requires Shape() && 0 <= i
      ensures r == i || ((r == LeftChildIndex(i) || r == RightChildIndex(i)) && r < |arr.Contents|)
      ensures i < |arr.Contents| ==> arr.Contents[r].key == FamilyMin(arr.Contents, i)
      ensures r != i ==> arr.Contents[r].key < arr.Contents[i].key
      ensures r == RightChildIndex(i) ==> arr.Contents[r].key < arr.Contents[LeftChildIndex(i)].key
    {
      var left := LeftChildIndex(i);
      var right := RightChildIndex(i);
      var smallest := if left < size && arr.At(left).key < arr.At(i).key then left else i;
      if right < size && arr.At(right).key < arr.At(smallest).key then right else smallest
    }

    /**
     * heapify(i): swap node i with its smaller child while that child's key is
     * smaller, recursing into the child.
     */
    method Heapify(i: int)
      requires Shape() && 0 <= i
      requires SubHeap(arr.Contents, LeftChildIndex(i)) && SubHeap(arr.Contents, RightChildIndex(i))
      modifies arr.data, arr`Contents
      ensures Shape()
      ensures SubHeap(arr.Contents, i)
      ensures |arr.Contents| == |old(arr.Contents)|
      ensures multiset(arr.Contents) == multiset(old(arr.Contents))
      ensures forall j :: 0 <= j < |arr.Contents| && !InSubtree(j, i) ==> arr.Contents[j] == old(arr.Contents)[j]
      ensures i < |arr.Contents| ==> arr.Contents[i].key == FamilyMin(old(arr.Contents), i)
      decreases size - i
    {
      var smallest := Smallest(i);
      if smallest != i {
        ghost var other := if smallest == LeftChildIndex(i) then RightChildIndex(i) else LeftChildIndex(i);
        ghost var s0 := arr.Contents;
        arr.Swap(i, smallest);
        ghost var s1 := arr.Contents;
        ChildrenAfterSwap(s0, s1, i, smallest);
        Heapify(smallest);
        HeapifyStep(s0, s1, arr.Contents, i, smallest, other);
      } else {
        HeapifyStop(arr.Contents, i);
      }
    }
  }
}
