/**
 * The binomial heap: a circular dynamic array of root trees.  A tree links
 * two trees of equal degree under the smaller key; the root list is kept in
 * order of decreasing degree by a carry pass from the back of the list.
 */
module BinomialHeap {
  import opened CircularArray
  import RadixSorting

  /**
   * A node with its children, most recently linked child first (the child
   * and sibling pointers); parent pointers are not kept.
   */
  datatype Tree<V> = Tree(key: int, value: V, degree: int, children: seq<Tree<V>>)

  /** A key with its value, as carried by a node. */
  datatype Entry<V> = Entry(key: int, value: V)

  // ---------------- trees ----------------

  /** The entries held by a tree. */
  ghost function Entries<V>(t: Tree<V>): multiset<Entry<V>>
    decreases t, 1
  {
    multiset{Entry(t.key, t.value)} + ForestEntries(t.children)
  }

  /** The entries held by a list of trees. */
  ghost function ForestEntries<V>(ts: seq<Tree<V>>): multiset<Entry<V>>
    decreases ts, 0
  {
    if ts == [] then multiset{} else Entries(ts[0]) + ForestEntries(ts[1..])
  }

  /** No child's key is below its parent's, at every level. */
  ghost predicate HeapOrdered<V>(t: Tree<V>)
    decreases t
  {
    forall i :: 0 <= i < |t.children| ==> t.key <= t.children[i].key && HeapOrdered(t.children[i])
  }

  /** A binomial tree: degree d means children of degrees d-1, ..., 0 in that order. */
  ghost predicate Binomial<V>(t: Tree<V>)
    decreases t
  {
    t.degree == |t.children| &&
    forall i :: 0 <= i < |t.children| ==> t.children[i].degree == t.degree - 1 - i && Binomial(t.children[i])
  }

  ghost predicate WellFormed<V>(t: Tree<V>)
  {
    Binomial(t) && HeapOrdered(t)
  }

  /** Every root of the list is a heap-ordered binomial tree. */
  ghost predicate AllWellFormed<V>(ts: seq<Tree<V>>)
  {
    forall i :: 0 <= i < |ts| ==> WellFormed(ts[i])
  }

  /** Root degrees strictly decrease from the front of the list to the back. */
  ghost predicate StrictlyDecreasing<V>(ts: seq<Tree<V>>)
  {
    forall i, j :: 0 <= i < j < |ts| ==> ts[i].degree > ts[j].degree
  }

  /** Root degrees never increase from the front of the list to the back. */
  ghost predicate NonIncreasing<V>(ts: seq<Tree<V>>)
  {
    forall i, j :: 0 <= i < j < |ts| ==> ts[i].degree >= ts[j].degree
  }

  lemma {:induction false} ForestEntriesAppend<V>(a: seq<Tree<V>>, b: seq<Tree<V>>)
    ensures ForestEntries(a + b) == ForestEntries(a) + ForestEntries(b)
    decreases |a|
  {
    if a == [] {
      assert a + b == b;
    } else {
      assert (a + b)[1..] == a[1..] + b;
      ForestEntriesAppend(a[1..], b);
    }
  }

  /** A binomial tree of degree d holds 2^d entries. */
  lemma {:induction false} BinomialSize<V>(t: Tree<V>)
    requires Binomial(t)
    ensures |Entries(t)| == RadixSorting.Pow2(t.degree)
    decreases t, 1
  {
    BinomialChildrenSize(t.children, t.degree);
  }

  /** Children of degrees n-1, ..., 0 hold 2^n - 1 entries together. */
  lemma {:induction false} BinomialChildrenSize<V>(cs: seq<Tree<V>>, n: int)
    requires n == |cs|
    requires forall i :: 0 <= i < |cs| ==> cs[i].degree == n - 1 - i && Binomial(cs[i])
    ensures |ForestEntries(cs)| == RadixSorting.Pow2(n) - 1
    decreases cs, 0
  {
    if cs != [] {
      BinomialSize(cs[0]);
      BinomialChildrenSize(cs[1..], n - 1);
    }
  }

  /** The root of a heap-ordered tree holds its least key. */
  lemma {:induction false} RootLeast<V>(t: Tree<V>, e: Entry<V>)
    requires HeapOrdered(t) && e in Entries(t)
    ensures t.key <= e.key
    decreases t, 1
  {
    if e != Entry(t.key, t.value) {
      ChildrenAtLeast(t.children, t.key, e);
    }
  }

  /** Every entry of heap-ordered trees whose roots are at least k is at least k. */
  lemma {:induction false} ChildrenAtLeast<V>(cs: seq<Tree<V>>, k: int, e: Entry<V>)
    requires forall i :: 0 <= i < |cs| ==> k <= cs[i].key && HeapOrdered(cs[i])
    requires e in ForestEntries(cs)
    ensures k <= e.key
    decreases cs, 0
  {
    if e in Entries(cs[0]) {
      RootLeast(cs[0], e);
    } else {
      ChildrenAtLeast(cs[1..], k, e);
    }
  }

  // ---------------- linking ----------------

  /** Hang sub under top as its first child. */
  function Link<V>(top: Tree<V>, sub: Tree<V>): Tree<V>
  {
    Tree(top.key, top.value, top.degree + 1, [sub] + top.children)
  }

  /**
   * mergeTrees: the tree with the smaller key (b1 on a tie) takes the other as
   * its first child and its degree rises by one.
   */
  function MergeTrees<V>(b1: Tree<V>, b2: Tree<V>): (r: Tree<V>)
    ensures r.key == if b1.key <= b2.key then b1.key else b2.key
    ensures Entry(r.key, r.value) == if b1.key <= b2.key then Entry(b1.key, b1.value) else Entry(b2.key, b2.value)
    ensures |r.children| >= 1 && r.children[0] == (if b1.key <= b2.key then b2 else b1)
    ensures r.degree == 1 + if b1.key <= b2.key then b1.degree else b2.degree
  {
    if b1.key > b2.key then Link(b2, b1) else Link(b1, b2)
  }

  /** Linking adds the entries of both trees. */
  lemma MergeTreesEntries<V>(b1: Tree<V>, b2: Tree<V>)
    ensures Entries(MergeTrees(b1, b2)) == Entries(b1) + Entries(b2)
  {
    var r := MergeTrees(b1, b2);
    assert r.children[1..] == (if b1.key <= b2.key then b1 else b2).children;
  }

  /** Linking two heap-ordered binomial trees of one degree gives one of the next degree. */
  lemma MergeTreesWellFormed<V>(b1: Tree<V>, b2: Tree<V>)
    requires WellFormed(b1) && WellFormed(b2) && b1.degree == b2.degree
    ensures WellFormed(MergeTrees(b1, b2)) && MergeTrees(b1, b2).degree == b1.degree + 1
  {
    var top := if b1.key <= b2.key then b1 else b2;
    var r := MergeTrees(b1, b2);
    forall i | 0 <= i < |r.children|
      ensures r.children[i].degree == r.degree - 1 - i && Binomial(r.children[i])
      ensures r.key <= r.children[i].key && HeapOrdered(r.children[i])
    {
      if i > 0 {
        assert r.children[i] == top.children[i - 1];
      }
    }
  }

  // ---------------- fixBHeap ----------------

  /** fixBHeap's loop from index i down to 1: link equal-degree neighbours into the left slot. */
  function FixFrom<V>(s: seq<Tree<V>>, i: int): (r: seq<Tree<V>>)
    requires i < |s|
    ensures |r| <= |s|
    decreases i
  {
    if i <= 0 then s
    else if s[i].degree == s[i - 1].degree then
      FixFrom(s[..i - 1] + [MergeTrees(s[i], s[i - 1])] + s[i + 1..], i - 1)
    else
      FixFrom(s, i - 1)
  }

  /** fixBHeap: nothing to do for fewer than two roots, else the loop from the back. */
  function Fix<V>(s: seq<Tree<V>>): (r: seq<Tree<V>>)
    ensures |r| <= |s|
  {
    if |s| <= 1 then s else FixFrom(s, |s| - 1)
  }

  lemma ForestEntriesCons<V>(x: Tree<V>, rest: seq<Tree<V>>)
    ensures ForestEntries([x] + rest) == Entries(x) + ForestEntries(rest)
  {
    assert ([x] + rest)[1..] == rest;
  }

  lemma ForestEntriesSplit<V>(p: seq<Tree<V>>, x: Tree<V>, q: seq<Tree<V>>)
    ensures ForestEntries(p + [x] + q) == ForestEntries(p) + Entries(x) + ForestEntries(q)
  {
    assert p + [x] + q == p + ([x] + q);
    ForestEntriesAppend(p, [x] + q);
    ForestEntriesCons(x, q);
  }

  lemma ForestEntriesDrop<V>(s: seq<Tree<V>>, k: int)
    requires 0 <= k < |s|
    ensures ForestEntries(s[k..]) == Entries(s[k]) + ForestEntries(s[k + 1..])
  {
    assert s[k..][1..] == s[k + 1..];
  }

  /** The entries of a list around two neighbouring roots i-1 and i. */
  lemma ForestEntriesAround<V>(s: seq<Tree<V>>, i: int)
    requires 0 < i < |s|
    ensures ForestEntries(s) == ForestEntries(s[..i - 1]) + Entries(s[i - 1]) + Entries(s[i]) + ForestEntries(s[i + 1..])
  {
    assert s[..i - 1] + s[i - 1..] == s;
    ForestEntriesAppend(s[..i - 1], s[i - 1..]);
    ForestEntriesDrop(s, i - 1);
    ForestEntriesDrop(s, i);
  }

  /** A link keeps the entries of the list. */
  lemma LinkAtEntries<V>(s: seq<Tree<V>>, i: int)
    requires 0 < i < |s|
    ensures ForestEntries(s[..i - 1] + [MergeTrees(s[i], s[i - 1])] + s[i + 1..]) == ForestEntries(s)
  {
    MergeTreesEntries(s[i], s[i - 1]);
    ForestEntriesSplit(s[..i - 1], MergeTrees(s[i], s[i - 1]), s[i + 1..]);
    ForestEntriesAround(s, i);
  }

  lemma {:induction false} FixFromEntries<V>(s: seq<Tree<V>>, i: int)
    requires i < |s|
    ensures ForestEntries(FixFrom(s, i)) == ForestEntries(s)
    decreases i
  {
    if i > 0 {
      if s[i].degree == s[i - 1].degree {
        LinkAtEntries(s, i);
        FixFromEntries(s[..i - 1] + [MergeTrees(s[i], s[i - 1])] + s[i + 1..], i - 1);
      } else {
        FixFromEntries(s, i - 1);
      }
    }
  }

  /** fixBHeap neither loses nor adds an entry. */
  lemma FixEntries<V>(s: seq<Tree<V>>)
    ensures ForestEntries(Fix(s)) == ForestEntries(s)
  {
    if |s| > 1 {
      FixFromEntries(s, |s| - 1);
    }
  }

  lemma {:induction false} FixFromWellFormed<V>(s: seq<Tree<V>>, i: int)
    requires i < |s| && AllWellFormed(s)
    ensures AllWellFormed(FixFrom(s, i))
    decreases i
  {
    if i > 0 {
      if s[i].degree == s[i - 1].degree {
        MergeTreesWellFormed(s[i], s[i - 1]);
        FixFromWellFormed(s[..i - 1] + [MergeTrees(s[i], s[i - 1])] + s[i + 1..], i - 1);
      } else {
        FixFromWellFormed(s, i - 1);
      }
    }
  }

  /** fixBHeap links only equal degrees, so every root stays a heap-ordered binomial tree. */
  lemma FixWellFormed<V>(s: seq<Tree<V>>)
    requires AllWellFormed(s)
    ensures AllWellFormed(Fix(s))
  {
    if |s| > 1 {
      FixFromWellFormed(s, |s| - 1);
    }
  }

  /**
   * The carry invariant: degrees strictly decrease except that the root at i
   * may equal its left neighbour.
   */
  ghost predicate CarryAt<V>(s: seq<Tree<V>>, i: int)
  {
    0 <= i < |s| &&
    (forall a, b :: 0 <= a < b < |s| && !(a == i - 1 && b == i) ==> s[a].degree > s[b].degree) &&
    (0 < i ==> s[i - 1].degree >= s[i].degree)
  }

  lemma {:induction false} FixFromCarry<V>(s: seq<Tree<V>>, i: int)
    requires CarryAt(s, i)
    ensures StrictlyDecreasing(FixFrom(s, i))
    decreases i
  {
    if i > 0 {
      if s[i].degree == s[i - 1].degree {
        var t := s[..i - 1] + [MergeTrees(s[i], s[i - 1])] + s[i + 1..];
        CarryLink(s, i, t);
        FixFromCarry(t, i - 1);
      } else {
        assert CarryAt(s, i - 1);
        FixFromCarry(s, i - 1);
      }
    }
  }

  /** Linking the carry into its equal left neighbour moves the carry one place left. */
  lemma CarryLink<V>(s: seq<Tree<V>>, i: int, t: seq<Tree<V>>)
    requires CarryAt(s, i) && 0 < i && s[i].degree == s[i - 1].degree
    requires t == s[..i - 1] + [MergeTrees(s[i], s[i - 1])] + s[i + 1..]
    ensures CarryAt(t, i - 1)
  {
    assert |t| == |s| - 1;
    assert t[i - 1].degree == s[i].degree + 1;
    forall a | 0 <= a < |t|
      ensures t[a] == if a < i - 1 then s[a] else if a == i - 1 then MergeTrees(s[i], s[i - 1]) else s[a + 1]
    {
    }
  }

  /**
   * insert: appending a degree-0 tree to roots of strictly decreasing degree and
   * running fixBHeap gives strictly decreasing degrees again (a binary carry).
   */
  lemma FixAfterAppend<V>(s: seq<Tree<V>>, t: Tree<V>)
    requires StrictlyDecreasing(s) && t.degree == 0
    requires forall i :: 0 <= i < |s| ==> s[i].degree >= 0
    ensures StrictlyDecreasing(Fix(s + [t]))
  {
    if |s| > 0 {
      assert CarryAt(s + [t], |s|);
      FixFromCarry(s + [t], |s|);
    }
  }

  // ---------------- merge ----------------

  /** merge's three loops: interleave two root lists, taking from a when its degree is at least b's. */
  ghost function Interleave<V>(a: seq<Tree<V>>, b: seq<Tree<V>>): seq<Tree<V>>
    decreases |a| + |b|
  {
    if a == [] then b
    else if b == [] then a
    else if a[0].degree >= b[0].degree then [a[0]] + Interleave(a[1..], b)
    else [b[0]] + Interleave(a, b[1..])
  }

  /** merge keeps every root of both lists. */
  lemma {:induction false} InterleaveRoots<V>(a: seq<Tree<V>>, b: seq<Tree<V>>)
    ensures multiset(Interleave(a, b)) == multiset(a) + multiset(b)
    decreases |a| + |b|
  {
    if a != [] && b != [] {
      if a[0].degree >= b[0].degree {
        InterleaveRoots(a[1..], b);
        assert Interleave(a, b) == [a[0]] + Interleave(a[1..], b);
        assert multiset(a) == multiset{a[0]} + multiset(a[1..]) by {
          assert a == [a[0]] + a[1..];
        }
      } else {
        InterleaveRoots(a, b[1..]);
        assert Interleave(a, b) == [b[0]] + Interleave(a, b[1..]);
        assert multiset(b) == multiset{b[0]} + multiset(b[1..]) by {
          assert b == [b[0]] + b[1..];
        }
      }
    }
  }

  /** merge keeps every entry of both heaps. */
  lemma {:induction false} InterleaveEntries<V>(a: seq<Tree<V>>, b: seq<Tree<V>>)
    ensures ForestEntries(Interleave(a, b)) == ForestEntries(a) + ForestEntries(b)
    decreases |a| + |b|
  {
    if a != [] && b != [] {
      if a[0].degree >= b[0].degree {
        InterleaveEntries(a[1..], b);
        ForestEntriesCons(a[0], Interleave(a[1..], b));
      } else {
        InterleaveEntries(a, b[1..]);
        ForestEntriesCons(b[0], Interleave(a, b[1..]));
      }
    }
  }

  /** The first root of an interleaving is the first root of a or of b. */
  lemma InterleaveHead<V>(a: seq<Tree<V>>, b: seq<Tree<V>>)
    requires a != [] || b != []
    ensures Interleave(a, b) != []
    ensures (a != [] && Interleave(a, b)[0] == a[0]) || (b != [] && Interleave(a, b)[0] == b[0])
  {
  }

  lemma {:induction false} InterleaveNonIncreasing<V>(a: seq<Tree<V>>, b: seq<Tree<V>>)
    requires NonIncreasing(a) && NonIncreasing(b)
    ensures NonIncreasing(Interleave(a, b))
    decreases |a| + |b|
  {
    if a != [] && b != [] {
      if a[0].degree >= b[0].degree {
        InterleaveNonIncreasing(a[1..], b);
        HeadBelow(a[0], Interleave(a[1..], b), a[1..], b);
      } else {
        InterleaveNonIncreasing(a, b[1..]);
        HeadBelow(b[0], Interleave(a, b[1..]), a, b[1..]);
      }
    }
  }

  /** Putting a root of degree at least every head's degree in front keeps the order. */
  lemma HeadBelow<V>(x: Tree<V>, rest: seq<Tree<V>>, a: seq<Tree<V>>, b: seq<Tree<V>>)
    requires NonIncreasing(a) && NonIncreasing(b) && NonIncreasing(rest)
    requires rest == Interleave(a, b)
    requires a != [] ==> x.degree >= a[0].degree
    requires b != [] ==> x.degree >= b[0].degree
    ensures NonIncreasing([x] + rest)
  {
    if rest != [] {
      InterleaveHead(a, b);
    }
  }

  /** Every tree of an interleaving comes from a or b. */
  lemma InterleaveWellFormed<V>(a: seq<Tree<V>>, b: seq<Tree<V>>)
    requires AllWellFormed(a) && AllWellFormed(b)
    ensures AllWellFormed(Interleave(a, b))
  {
    InterleaveRoots(a, b);
    var m := Interleave(a, b);
    forall i | 0 <= i < |m|
      ensures WellFormed(m[i])
    {
      assert m[i] in multiset(m);
      assert m[i] in multiset(a) || m[i] in multiset(b);
    }
  }

  // ---------------- the minimum root ----------------

  /** The scan for the least key among the first n roots; the first one on ties. */
  function FirstMin<V>(s: seq<Tree<V>>, n: int): (r: int)
    requires 0 < n <= |s|
    ensures 0 <= r < n
    ensures forall j :: 0 <= j < n ==> s[r].key <= s[j].key
    ensures forall j :: 0 <= j < r ==> s[j].key > s[r].key
  {
    if n == 1 then 0
    else
      var m := FirstMin(s, n - 1);
      if s[n - 1].key < s[m].key then n - 1 else m
  }

  /** The first root of least key, the one extractMin takes out. */
  ghost function MinRoot<V>(s: seq<Tree<V>>): Tree<V>
    requires |s| > 0
  {
    s[FirstMin(s, |s|)]
  }

  /** The key and value a root carries. */
  ghost function RootEntry<V>(t: Tree<V>): Entry<V>
  {
    Entry(t.key, t.value)
  }

  /** The children of a well-formed tree are well-formed trees. */
  lemma ChildrenWellFormed<V>(t: Tree<V>)
    requires WellFormed(t)
    ensures AllWellFormed(t.children)
  {
    forall i | 0 <= i < |t.children|
      ensures WellFormed(t.children[i])
    {
      assert Binomial(t.children[i]) && HeapOrdered(t.children[i]);
    }
  }

  /**
   * extractMin's accounting: the heap lost t's entries, then got back those of
   * t's children, so it lost exactly t's own entry.
   */
  lemma ExtractedEntries<V>(before: multiset<Entry<V>>, rest: multiset<Entry<V>>, t: Tree<V>, after: multiset<Entry<V>>)
    requires before == rest + Entries(t)
    requires after == rest + ForestEntries(t.children)
    ensures after == before - multiset{RootEntry(t)}
  {
  }

  /** The least root key bounds every entry of a list of heap-ordered trees. */
  lemma ForestLeast<V>(s: seq<Tree<V>>, e: Entry<V>)
    requires AllWellFormed(s) && |s| > 0 && e in ForestEntries(s)
    ensures s[FirstMin(s, |s|)].key <= e.key
  {
    var m := FirstMin(s, |s|);
    ChildrenAtLeast(s, s[m].key, e);
  }

  // ---------------- shiftArrayDownAt ----------------

  /**
   * shiftArrayDownAt's result: the root at i removed, the others in order.  An
   * index past the end removes the last root and a negative one the first,
   * since the out-of-range writes of the shifting loop change nothing.
   */
  ghost function Removed<V>(s: seq<Tree<V>>, i: int): (r: seq<Tree<V>>)
    ensures |s| > 0 ==> |r| == |s| - 1
    ensures |s| == 0 ==> r == []
    ensures forall k :: 0 <= k < |r| ==> r[k] == if k < i then s[k] else s[k + 1]
  {
    if |s| == 0 then []
    else
      var e := if i < 0 then 0 else if i >= |s| then |s| - 1 else i;
      s[..e] + s[e + 1..]
  }

  /** Removing a root loses exactly that root's entries. */
  lemma RemovedEntries<V>(s: seq<Tree<V>>, i: int)
    requires 0 <= i < |s|
    ensures ForestEntries(s) == ForestEntries(Removed(s, i)) + Entries(s[i])
  {
    assert s[..i] + s[i..] == s;
    ForestEntriesAppend(s[..i], s[i..]);
    ForestEntriesDrop(s, i);
    ForestEntriesAppend(s[..i], s[i + 1..]);
  }

  lemma RemovedWellFormed<V>(s: seq<Tree<V>>, i: int)
    requires 0 <= i < |s| && AllWellFormed(s)
    ensures AllWellFormed(Removed(s, i))
  {
  }

  /** The entries of the pairs k[0], v[0] ... k[n-1], v[n-1]. */
  ghost function PairEntries<V>(ks: seq<int>, vs: seq<V>): multiset<Entry<V>>
    requires |ks| == |vs|
  {
    if ks == [] then multiset{}
    else PairEntries(ks[..|ks| - 1], vs[..|vs| - 1]) + multiset{Entry(ks[|ks| - 1], vs[|vs| - 1])}
  }

  /** Everything insert promises about fixBHeap after appending t. */
  lemma InsertFacts<V>(s: seq<Tree<V>>, t: Tree<V>)
    requires AllWellFormed(s) && WellFormed(t)
    ensures AllWellFormed(Fix(s + [t]))
    ensures ForestEntries(Fix(s + [t])) == ForestEntries(s) + Entries(t)
    ensures StrictlyDecreasing(s) && t.degree == 0 ==> StrictlyDecreasing(Fix(s + [t]))
  {
    assert AllWellFormed(s + [t]) by {
      assert forall i :: 0 <= i < |s| ==> (s + [t])[i] == s[i];
    }
    FixWellFormed(s + [t]);
    assert ForestEntries(Fix(s + [t])) == ForestEntries(s) + Entries(t) by {
      FixEntries(s + [t]);
      ForestEntriesAppend(s, [t]);
      ForestEntriesCons(t, []);
    }
    if StrictlyDecreasing(s) && t.degree == 0 {
      assert forall i :: 0 <= i < |s| ==> s[i].degree >= 0 by {
        assert forall i :: 0 <= i < |s| ==> Binomial(s[i]);
      }
      FixAfterAppend(s, t);
    }
  }

  /** The binomial heap: its root list lives in a circular dynamic array. */
  class BHeap<V(0)> {
    var arr: CircularDynamicArray<Tree<V>>
    ghost var Repr: set<object>

    /** The root array is valid and owned; nothing is said about the trees. */
    ghost predicate Shape()
      reads this, Repr
    {
      this in Repr && arr in Repr && arr.Repr <= Repr && this !in arr.Repr &&
      arr.Valid() && arr.EndInBuffer()
    }

    ghost predicate Valid()
      reads this, Repr
    {
      Shape() && AllWellFormed(arr.Contents)
    }

    /** The empty heap. */
    constructor ()
      ensures Valid() && fresh(Repr)
      ensures arr.Contents == []
    {
      arr := new CircularDynamicArray<Tree<V>>();
      new;
      Repr := {this} + arr.Repr;
    }

    /** The array constructor: insert the s pairs one after another. */
    constructor Build(k: array<int>, v: array<V>, s: int)
      requires 0 <= s <= k.Length && s <= v.Length
      ensures Valid() && fresh(Repr)
      ensures ForestEntries(arr.Contents) == PairEntries(k[..s], v[..s])
      ensures StrictlyDecreasing(arr.Contents)
    {
      arr := new CircularDynamicArray<Tree<V>>();
      new;
      Repr := {this} + arr.Repr;
      var i := 0;
      while i < s
        invariant 0 <= i <= s && Valid() && fresh(Repr)
        invariant ForestEntries(arr.Contents) == PairEntries(k[..i], v[..i])
        invariant StrictlyDecreasing(arr.Contents)
      {
        Insert(k[i], v[i]);
        assert k[..i + 1][..i] == k[..i] && v[..i + 1][..i] == v[..i];
        i := i + 1;
      }
      assert k[..s] == k[..i] && v[..s] == v[..i];
    }

    /** arrayLength: the number of roots. */
    function ArrayLength(): (r: int)
      reads this, Repr
      requires Shape()
      ensures r == |arr.Contents|
    {
      arr.Length()
    }

    /** GetNodeByIndex: root i, or the error element out of range. */
    function GetNodeByIndex(i: int): (r: Tree<V>)
      reads this, Repr
      requires Shape()
      ensures 0 <= i < |arr.Contents| ==> r == arr.Contents[i]
    {
      arr.At(i)
    }

    /** insert(k, v): a single-node tree of degree 0, added as the last root. */
    method Insert(k: int, v: V)
      requires Valid()
      modifies Repr
      ensures Valid() && fresh(Repr - old(Repr))
      ensures ForestEntries(arr.Contents) == ForestEntries(old(arr.Contents)) + multiset{Entry(k, v)}
      ensures StrictlyDecreasing(old(arr.Contents)) ==> StrictlyDecreasing(arr.Contents)
    {
      var node := Tree(k, v, 0, []);
      InsertTree(node);
    }

    /** insert(node) and insertExistingNode: append a root and carry-merge. */
    method InsertTree(t: Tree<V>)
      requires Valid() && WellFormed(t)
      modifies Repr
      ensures Valid() && fresh(Repr - old(Repr))
      ensures arr.Contents == Fix(old(arr.Contents) + [t])
      ensures ForestEntries(arr.Contents) == ForestEntries(old(arr.Contents)) + Entries(t)
      ensures StrictlyDecreasing(old(arr.Contents)) && t.degree == 0 ==> StrictlyDecreasing(arr.Contents)
    {
      InsertFacts(arr.Contents, t);
      arr.AddEnd(t);
      Repr := Repr + arr.Repr;
      FixBHeap();
    }

    /** fixBHeap: from the back, link every root with an equal-degree left neighbour. */
    method FixBHeap()
      requires Shape()
      modifies Repr
      ensures Shape() && fresh(Repr - old(Repr))
      ensures arr.Contents == Fix(old(arr.Contents))
    {
      if arr.Length() <= 1 {
        return;
      }
      var i := arr.Length() - 1;
      while i > 0
        invariant Shape() && fresh(Repr - old(Repr))
        invariant 0 <= i < |arr.Contents|
        invariant FixFrom(arr.Contents, i) == Fix(old(arr.Contents))
        decreases i
      {
        if arr.At(i).degree == arr.At(i - 1).degree {
          ghost var s := arr.Contents;
          arr.SetAt(i - 1, MergeTrees(arr.At(i), arr.At(i - 1)));
          ShiftArrayDownAt(i);
          assert arr.Contents == s[..i - 1] + [MergeTrees(s[i], s[i - 1])] + s[i + 1..];
        }
        i := i - 1;
      }
    }

    /** shiftArrayDownAt: move every root after i one place left, then drop the last. */
    method ShiftArrayDownAt(i: int)
      requires Shape()
      modifies Repr
      ensures Shape() && fresh(Repr - old(Repr))
      ensures arr.Contents == Removed(old(arr.Contents), i)
    {
      ghost var s := arr.Contents;
      ShiftLeft(i);
      ghost var u := arr.Contents;
      arr.DelEnd();
      Repr := Repr + arr.Repr;
      if |s| > 0 {
        assert arr.Contents == u[..|s| - 1];
      }
    }

    /** The loop of shiftArrayDownAt: roots from i on move one place left, the last stays. */
    method ShiftLeft(i: int)
      requires Shape()
      modifies arr.data, arr`Contents
      ensures Shape() && |arr.Contents| == |old(arr.Contents)|
      ensures forall x :: 0 <= x < |arr.Contents| ==>
                arr.Contents[x] == if i <= x < |arr.Contents| - 1 then old(arr.Contents)[x + 1] else old(arr.Contents)[x]
      ensures |arr.Contents| > 0 ==> arr.Contents[..|arr.Contents| - 1] == Removed(old(arr.Contents), i)
    {
      ghost var s := arr.Contents;
      var j := i;
      while j < arr.Length() - 1
        invariant arr.Valid() && arr.EndInBuffer() && |arr.Contents| == |s|
        invariant i <= j <= if i < |s| then |s| - 1 else i
        invariant forall x :: 0 <= x < |s| && (x < i || x >= j) ==> arr.Contents[x] == s[x]
        invariant forall x :: 0 <= x < j && i <= x ==> arr.Contents[x] == s[x + 1]
        decreases |s| - j
      {
        arr.SetAt(j, arr.At(j + 1));
        j := j + 1;
      }
      if |s| > 0 {
        ghost var r := Removed(s, i);
        assert |arr.Contents[..|s| - 1]| == |r|;
        assert forall k :: 0 <= k < |r| ==> arr.Contents[..|s| - 1][k] == r[k];
      }
    }

    /** The scan of peakKey, peakValue and extractMin: the first root of least key. */
    method SmallestRoot() returns (index: int)
      requires Shape() && |arr.Contents| >= 1
      ensures index == FirstMin(arr.Contents, |arr.Contents|)
    {
      var smallestNode := arr.At(0);
      index := 0;
      var i := 0;
      while i < arr.Length()
        invariant 0 <= i <= |arr.Contents|
        invariant index == FirstMin(arr.Contents, if i == 0 then 1 else i)
        invariant smallestNode == arr.Contents[index]
      {
        if arr.At(i).key < smallestNode.key {
          smallestNode := arr.At(i);
          index := i;
        }
        i := i + 1;
      }
    }

    /** peakKey: the key of the first root of least key, the least key in the heap. */
    method PeakKey() returns (k: int)
      requires Valid() && |arr.Contents| >= 1
      ensures k == arr.Contents[FirstMin(arr.Contents, |arr.Contents|)].key
      ensures forall e :: e in ForestEntries(arr.Contents) ==> k <= e.key
    {
      var index := SmallestRoot();
      k := arr.At(index).key;
      forall e | e in ForestEntries(arr.Contents)
        ensures k <= e.key
      {
        ForestLeast(arr.Contents, e);
      }
    }

    /** peakValue: the value of the first root of least key. */
    method PeakValue() returns (v: V)
      requires Valid() && |arr.Contents| >= 1
      ensures v == arr.Contents[FirstMin(arr.Contents, |arr.Contents|)].value
    {
      var index := SmallestRoot();
      v := arr.At(index).value;
    }

    /**
     * extractMin: take out the first root of least key, make its children a heap
     * of their own, merge that heap back in and return the key.
     */
    method ExtractMin() returns (k: int)
      requires Valid() && |arr.Contents| >= 1
      modifies Repr
      ensures Valid() && fresh(Repr - old(Repr))
      ensures k == old(MinRoot(arr.Contents)).key
      ensures forall e :: e in ForestEntries(old(arr.Contents)) ==> k <= e.key
      ensures ForestEntries(arr.Contents) ==
              ForestEntries(old(arr.Contents)) - multiset{old(RootEntry(MinRoot(arr.Contents)))}
    {
      var smallestNode := RemoveMinRoot();
      ghost var r := arr.Contents;
      var tempHeap := ChildrenHeap(smallestNode.children);
      Merge(tempHeap);
      k := smallestNode.key;
      ExtractedEntries(ForestEntries(old(arr.Contents)), ForestEntries(r), smallestNode, ForestEntries(arr.Contents));
    }

    /** extractMin's scan and shiftArrayDownAt: the first root of least key leaves the list. */
    method RemoveMinRoot() returns (t: Tree<V>)
      requires Valid() && |arr.Contents| >= 1
      modifies Repr
      ensures Valid() && fresh(Repr - old(Repr))
      ensures t == MinRoot(old(arr.Contents)) && AllWellFormed(t.children)
      ensures arr.Contents == Removed(old(arr.Contents), FirstMin(old(arr.Contents), |old(arr.Contents)|))
      ensures ForestEntries(old(arr.Contents)) == ForestEntries(arr.Contents) + Entries(t)
      ensures forall e :: e in ForestEntries(old(arr.Contents)) ==> t.key <= e.key
    {
      ghost var s := arr.Contents;
      var indexOfSmallest := SmallestRoot();
      t := arr.At(indexOfSmallest);
      forall e | e in ForestEntries(s)
        ensures t.key <= e.key
      {
        ForestLeast(s, e);
      }
      RemovedEntries(s, indexOfSmallest);
      RemovedWellFormed(s, indexOfSmallest);
      ChildrenWellFormed(t);
      ShiftArrayDownAt(indexOfSmallest);
    }

    /**
     * merge: interleave both root lists by non-increasing degree into a new
     * array, take it as the root array and carry-merge.
     */
    method Merge(h2: BHeap<V>)
      requires Valid() && h2.Valid() && Repr !! h2.Repr
      modifies Repr
      ensures Valid() && fresh(Repr - old(Repr))
      ensures arr.Contents == Fix(Interleave(old(arr.Contents), old(h2.arr.Contents)))
      ensures ForestEntries(arr.Contents) == ForestEntries(old(arr.Contents)) + ForestEntries(old(h2.arr.Contents))
    {
      ghost var a, b := arr.Contents, h2.arr.Contents;
      InterleaveEntries(a, b);
      InterleaveWellFormed(a, b);
      FixEntries(Interleave(a, b));
      FixWellFormed(Interleave(a, b));
      var temp := MergeRoots(arr, h2.arr);
      AssignRoots(arr, temp);
      Repr := Repr + arr.Repr;
      FixBHeap();
    }
  }

  // ---------------- the loops of merge ----------------

  /** merge's three loops, which build the interleaved root list. */
  method MergeRoots<V(0)>(src1: CircularDynamicArray<Tree<V>>, src2: CircularDynamicArray<Tree<V>>)
    returns (temp: CircularDynamicArray<Tree<V>>)
    requires Appendable(src1) && Appendable(src2)
    ensures fresh(temp.Repr) && Appendable(temp)
    ensures temp.Contents == Interleave(src1.Contents, src2.Contents)
  {
    ghost var a, b := src1.Contents, src2.Contents;
    var i, j;
    temp, i, j := InterleaveHeads(src1, a, src2, b);
    ghost var c := temp.Contents;
    InterleaveRest(a[i..], b[j..]);
    AppendRoots(temp, src1, a, i);
    AppendRoots(temp, src2, b, j);
    assert temp.Contents == c + (a[i..] + b[j..]);
  }

  /** merge's `array = temp`, through the corrected assignment. */
  method AssignRoots<V(0)>(dst: CircularDynamicArray<Tree<V>>, src: CircularDynamicArray<Tree<V>>)
    requires Appendable(dst) && Appendable(src) && dst.Repr !! src.Repr
    modifies dst.Repr
    ensures Appendable(dst) && fresh(dst.Repr - old(dst.Repr))
    ensures dst.Contents == old(src.Contents)
  {
    dst.AssignCorrected(src);
  }

  /** A root array that addEnd can extend: valid, with endIndex a slot of its buffer. */
  ghost predicate Appendable<V(0)>(t: CircularDynamicArray<Tree<V>>)
    reads t, t.Repr
  {
    t.Valid() && t.EndInBuffer()
  }

  /** A valid root array holding the roots s. */
  ghost predicate RootsOf<V(0)>(t: CircularDynamicArray<Tree<V>>, s: seq<Tree<V>>)
    reads t, t.Repr
  {
    t.Valid() && t.Contents == s
  }

  /**
   * merge's first loop over the root arrays src1 (this heap's) and src2: take the
   * root of larger degree, src1's on a tie, until one list runs out.
   */
  method InterleaveHeads<V(0)>(src1: CircularDynamicArray<Tree<V>>, ghost a: seq<Tree<V>>,
                               src2: CircularDynamicArray<Tree<V>>, ghost b: seq<Tree<V>>)
    returns (temp: CircularDynamicArray<Tree<V>>, i: int, j: int)
    requires RootsOf(src1, a) && RootsOf(src2, b)
    ensures fresh(temp.Repr) && Appendable(temp)
    ensures 0 <= i <= |a| && 0 <= j <= |b| && (i == |a| || j == |b|)
    ensures temp.Contents + Interleave(a[i..], b[j..]) == Interleave(a, b)
  {
    temp := new CircularDynamicArray<Tree<V>>();
    i, j := 0, 0;
    var n1, n2 := src1.Length(), src2.Length();
    assert a[0..] == a && b[0..] == b;
    while i < n1 && j < n2
      invariant 0 <= i <= |a| && 0 <= j <= |b|
      invariant Appendable(temp) && fresh(temp.Repr)
      invariant temp.Contents + Interleave(a[i..], b[j..]) == Interleave(a, b)
      decreases |a| - i + |b| - j
    {
      i, j := InterleaveStep(temp, src1, a, src2, b, i, j);
    }
  }

  /** One round of merge's first loop: move the head of larger degree to temp. */
  method InterleaveStep<V(0)>(temp: CircularDynamicArray<Tree<V>>,
                              src1: CircularDynamicArray<Tree<V>>, ghost a: seq<Tree<V>>,
                              src2: CircularDynamicArray<Tree<V>>, ghost b: seq<Tree<V>>, i: int, j: int)
    returns (i': int, j': int)
    requires RootsOf(src1, a) && RootsOf(src2, b)
    requires Appendable(temp) && temp.Repr !! src1.Repr && temp.Repr !! src2.Repr
    requires 0 <= i < |a| && 0 <= j < |b|
    requires temp.Contents + Interleave(a[i..], b[j..]) == Interleave(a, b)
    modifies temp.Repr
    ensures Appendable(temp) && fresh(temp.Repr - old(temp.Repr))
    ensures (i' == i + 1 && j' == j) || (i' == i && j' == j + 1)
    ensures temp.Contents + Interleave(a[i'..], b[j'..]) == Interleave(a, b)
  {
    var x;
    if src1.At(i).degree >= src2.At(j).degree {
      x := src1.At(i);
      TakeFirst(a, b, i, j, temp.Contents);
      i', j' := i + 1, j;
    } else {
      x := src2.At(j);
      TakeSecond(a, b, i, j, temp.Contents);
      i', j' := i, j + 1;
    }
    AppendRoot(temp, x);
  }

  /** addEnd on a root array, with only what the loops of merge need to know. */
  method AppendRoot<V(0)>(temp: CircularDynamicArray<Tree<V>>, x: Tree<V>)
    requires Appendable(temp)
    modifies temp.Repr
    ensures Appendable(temp) && fresh(temp.Repr - old(temp.Repr))
    ensures temp.Contents == old(temp.Contents) + [x]
  {
    temp.AddEnd(x);
  }

  /** Once one list is exhausted, the interleaving is the rest of the other. */
  lemma InterleaveRest<V>(a: seq<Tree<V>>, b: seq<Tree<V>>)
    requires a == [] || b == []
    ensures Interleave(a, b) == a + b
  {
  }

  /** The last loops of merge: the remaining roots s[from..] of the root array src, in order. */
  method AppendRoots<V(0)>(temp: CircularDynamicArray<Tree<V>>, src: CircularDynamicArray<Tree<V>>, ghost s: seq<Tree<V>>, from: int)
    requires Appendable(temp) && RootsOf(src, s) && temp.Repr !! src.Repr
    requires 0 <= from <= |s|
    modifies temp.Repr
    ensures Appendable(temp) && fresh(temp.Repr - old(temp.Repr))
    ensures temp.Contents == old(temp.Contents) + s[from..]
  {
    ghost var c := temp.Contents;
    var i := from;
    while i < src.Length()
      invariant from <= i <= |s| && RootsOf(src, s)
      invariant Appendable(temp) && fresh(temp.Repr - old(temp.Repr))
      invariant temp.Contents == c + s[from..i]
    {
      AppendRoot(temp, src.At(i));
      assert s[from..i + 1] == s[from..i] + [s[i]];
      i := i + 1;
    }
  }

  /** A step of merge's loops that takes root i of the first list. */
  lemma TakeFirst<V>(a: seq<Tree<V>>, b: seq<Tree<V>>, i: int, j: int, c: seq<Tree<V>>)
    requires 0 <= i < |a| && 0 <= j <= |b| && (j == |b| || a[i].degree >= b[j].degree)
    requires c + Interleave(a[i..], b[j..]) == Interleave(a, b)
    ensures (c + [a[i]]) + Interleave(a[i + 1..], b[j..]) == Interleave(a, b)
  {
    var x, y := a[i..], b[j..];
    assert x[0] == a[i] && x[1..] == a[i + 1..];
    var rest := Interleave(x[1..], y);
    if y == [] {
      assert x == [a[i]] + x[1..];
      assert Interleave(x, y) == [a[i]] + rest;
    } else {
      assert Interleave(x, y) == [a[i]] + rest;
    }
    AppendAssoc(c, [a[i]], rest);
  }

  /** A step of merge's loops that takes root j of the second list. */
  lemma TakeSecond<V>(a: seq<Tree<V>>, b: seq<Tree<V>>, i: int, j: int, c: seq<Tree<V>>)
    requires 0 <= i <= |a| && 0 <= j < |b| && (i == |a| || a[i].degree < b[j].degree)
    requires c + Interleave(a[i..], b[j..]) == Interleave(a, b)
    ensures (c + [b[j]]) + Interleave(a[i..], b[j + 1..]) == Interleave(a, b)
  {
    var x, y := a[i..], b[j..];
    assert y[0] == b[j] && y[1..] == b[j + 1..];
    var rest := Interleave(x, y[1..]);
    if x == [] {
      assert y == [b[j]] + y[1..];
      assert Interleave(x, y) == [b[j]] + rest;
    } else {
      assert x[0] == a[i];
      assert Interleave(x, y) == [b[j]] + rest;
    }
    AppendAssoc(c, [b[j]], rest);
  }

  lemma AppendAssoc<X>(p: seq<X>, q: seq<X>, r: seq<X>)
    ensures p + (q + r) == (p + q) + r
  {
  }

  /** One more tree of the list cs taken. */
  lemma ForestEntriesSnoc<V>(cs: seq<Tree<V>>, c: int)
    requires 0 <= c < |cs|
    ensures ForestEntries(cs[..c + 1]) == ForestEntries(cs[..c]) + Entries(cs[c])
  {
    assert cs[..c + 1] == cs[..c] + [cs[c]];
    ForestEntriesAppend(cs[..c], [cs[c]]);
    ForestEntriesCons(cs[c], []);
  }

  /** A valid heap holding exactly the entries e. */
  ghost predicate HeapOf<V(0)>(h: BHeap<V>, e: multiset<Entry<V>>)
    reads h, h.Repr
  {
    h.Valid() && ForestEntries(h.arr.Contents) == e
  }

  /** extractMin's loop: the children, first child first, inserted into a new heap. */
  method ChildrenHeap<V(0)>(cs: seq<Tree<V>>) returns (h: BHeap<V>)
    requires AllWellFormed(cs)
    ensures fresh(h) && fresh(h.Repr) && h.Valid()
    ensures ForestEntries(h.arr.Contents) == ForestEntries(cs)
  {
    h := new BHeap<V>();
    var c := 0;
    while c < |cs|
      invariant 0 <= c <= |cs| && fresh(h) && fresh(h.Repr)
      invariant HeapOf(h, ForestEntries(cs[..c]))
    {
      InsertChild(h, cs, c);
      c := c + 1;
    }
    assert cs[..c] == cs;
  }

  /** One round of extractMin's loop: insert child c. */
  method InsertChild<V(0)>(h: BHeap<V>, cs: seq<Tree<V>>, c: int)
    requires AllWellFormed(cs) && 0 <= c < |cs|
    requires HeapOf(h, ForestEntries(cs[..c]))
    modifies h.Repr
    ensures HeapOf(h, ForestEntries(cs[..c + 1])) && fresh(h.Repr - old(h.Repr))
  {
    h.InsertTree(cs[c]);
    ForestEntriesSnoc(cs, c);
  }

  // ---------------- what merge does not restore ----------------

  /**
   * merge of two heaps whose root degrees strictly decrease can leave two roots of
   * one degree: roots of degrees [2, 1, 0] merged with [1, 0] end as [2, 1, 2].
   */
  lemma MergeCanRepeatDegree<V>(x2: Tree<V>, x1: Tree<V>, x0: Tree<V>, y1: Tree<V>, y0: Tree<V>)
    requires x2.degree == 2 && x1.degree == 1 && x0.degree == 0
    requires y1.degree == 1 && y0.degree == 0
    ensures StrictlyDecreasing([x2, x1, x0]) && StrictlyDecreasing([y1, y0])
    ensures |Fix(Interleave([x2, x1, x0], [y1, y0]))| == 3
    ensures Fix(Interleave([x2, x1, x0], [y1, y0]))[0] == x2
    ensures Fix(Interleave([x2, x1, x0], [y1, y0]))[1] == x1
    ensures Fix(Interleave([x2, x1, x0], [y1, y0]))[2].degree == 2
    ensures !StrictlyDecreasing(Fix(Interleave([x2, x1, x0], [y1, y0])))
  {
    var a, b := [x2, x1, x0], [y1, y0];
    assert Interleave([x0], [y0]) == [x0, y0] by {
      assert Interleave([x0], [y0]) == [x0] + Interleave([], [y0]);
    }
    assert Interleave([x0], b) == [y1, x0, y0] by {
      assert Interleave([x0], b) == [y1] + Interleave([x0], b[1..]);
      assert b[1..] == [y0];
    }
    assert Interleave([x1, x0], b) == [x1, y1, x0, y0] by {
      assert [x1, x0][1..] == [x0];
    }
    var s := Interleave(a, b);
    assert s == [x2, x1, y1, x0, y0] by {
      assert a[1..] == [x1, x0];
    }
    var s1 := s[..3] + [MergeTrees(y0, x0)] + s[5..];
    assert s1 == [x2, x1, y1, MergeTrees(y0, x0)];
    var m := MergeTrees(MergeTrees(y0, x0), y1);
    var s2 := s1[..2] + [m] + s1[4..];
    assert s2 == [x2, x1, m];
    assert FixFrom(s2, 1) == s2;
    assert Fix(s) == s2;
  }
}
