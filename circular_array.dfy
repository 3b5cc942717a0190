/**
 * The circular dynamic array: a ring-buffer deque over an owned buffer with
 * geometric resizing.  Logical index i lives in physical slot
 * (frontIndex + i) % cap.  The buffer doubles when an insertion finds it full
 * and halves when a deletion leaves it less than a quarter full; both resizes
 * copy the contents to a fresh buffer starting at slot 0.
 */
module CircularArray {

  /** x % m for 0 <= x <= 2m, spelled out so the solver need not reason about % . */
  lemma ModUpToTwice(x: int, m: int)
    requires m > 0 && 0 <= x <= 2 * m
    ensures x % m == if x < m then x else if x < 2 * m then x - m else 0
  {
    if x < m {
      assert x == 0 * m + x;
    } else if x < 2 * m {
      assert x == 1 * m + (x - m);
    } else {
      assert x == 2 * m + 0;
    }
  }

  class CircularDynamicArray<T(0)> {
    var data: array<T>
    var frontIndex: int
    var endIndex: int
    var len: int
    var cap: int
    /** The element handed out by an out-of-range access. */
    var errorElem: T

    /** The logical contents, index 0 first. */
    ghost var Contents: seq<T>
    ghost var Repr: set<object>

    /** Physical position of a (possibly wrapped) offset from the buffer start. */
    ghost function Wrap(x: int): int
      reads this
    {
      if x < cap then x else x - cap
    }

    ghost predicate Valid()
      reads this, Repr
      ensures Valid() ==> this in Repr && data in Repr
    {
      Layout() && (cap > 0 && endIndex == cap ==> len > 0)
    }

    /**
     * The buffer holds the contents from frontIndex on, wrapping once; endIndex is
     * the slot after the last element, or one past the buffer when that slot is 0.
     */
    ghost predicate Layout()
      reads this, Repr
      ensures Layout() ==> this in Repr && data in Repr
    {
      Repr == {this, data} &&
      data.Length == cap &&
      0 <= len <= cap &&
      |Contents| == len &&
      (cap == 0 ==> frontIndex == 0 && endIndex == 0) &&
      (cap > 0 ==> 0 <= frontIndex < cap &&
                   (endIndex == Wrap(frontIndex + len) ||
                    (endIndex == cap && Wrap(frontIndex + len) == 0))) &&
      forall i :: 0 <= i < len ==> data[Wrap(frontIndex + i)] == Contents[i]
    }

    /** endIndex names a slot of the buffer (or the buffer is empty). */
    ghost predicate EndInBuffer()
      reads this
    {
      endIndex < cap || cap == 0
    }

    /** addEnd may write at endIndex: it is a slot, or the array is full and grows first. */
    ghost predicate EndWritable()
      reads this
    {
      endIndex < cap || len == cap
    }

    /** The physical slot of logical index i, as every accessor computes it. */
    function Slot(i: int): (r: int)
      reads this
      requires 0 <= frontIndex < cap && 0 <= i < cap
      ensures 0 <= r < cap
      ensures r == if frontIndex + i < cap then frontIndex + i else frontIndex + i - cap
    {
      ModUpToTwice(frontIndex + i, cap);
      (frontIndex + i) % cap
    }

    /** correctIndex: brings an index that stepped one place past either end back into range. */
    function CorrectIndex(i: int): (r: int)
      reads this
      requires cap > 0 && -cap <= i <= cap
      ensures 0 <= r < cap
      ensures r == if i < 0 then i + cap else if i < cap then i else 0
    {
      ModUpToTwice(i + cap, cap);
      (i + cap) % cap
    }

    /** The default constructor: an empty array of capacity 2. */
    constructor ()
      ensures Valid() && EndInBuffer() && fresh(Repr)
      ensures Contents == [] && cap == 2 && frontIndex == 0
    {
      data := new T[2];
      len, cap := 0, 2;
      frontIndex, endIndex := 0, 0;
      Contents := [];
      Repr := {this, data};
    }

    /** The sized constructor: s default elements, capacity exactly s. */
    constructor WithSize(s: int)
      requires s >= 0
      ensures Valid() && EndInBuffer() && fresh(Repr)
      ensures |Contents| == s && cap == s && frontIndex == 0
    {
      var buffer := new T[s];
      data := buffer;
      len, cap := s, s;
      frontIndex, endIndex := 0, 0;
      Contents := buffer[..];
      Repr := {this, buffer};
      new;
      if s > 0 {
        ModUpToTwice(s, s);
      }
    }

    /**
     * The copy constructor: same contents and capacity, re-linearised to front 0.
     * As written, endIndex counts up to the length, so copying a full array leaves
     * endIndex == capacity (one past the buffer).
     */
    constructor Copy(other: CircularDynamicArray<T>)
      requires other.Valid()
      ensures Valid() && fresh(Repr)
      ensures Contents == other.Contents && cap == other.cap && frontIndex == 0
      ensures endIndex == len && data[..len] == Contents
    {
      data := new T[other.cap];
      len, cap := other.len, other.cap;
      frontIndex, endIndex := 0, 0;
      Contents := other.Contents;
      Repr := {this, data};
      new;
      CopyElements(other);
    }

    /** The copy constructor with endIndex wrapped into the buffer, as evidently intended. */
    constructor CopyCorrected(other: CircularDynamicArray<T>)
      requires other.Valid()
      ensures Valid() && EndInBuffer() && fresh(Repr)
      ensures Contents == other.Contents && cap == other.cap && frontIndex == 0
      ensures data[..len] == Contents
    {
      data := new T[other.cap];
      len, cap := other.len, other.cap;
      frontIndex, endIndex := 0, 0;
      Contents := other.Contents;
      Repr := {this, data};
      new;
      CopyElements(other);
      if endIndex == cap {
        endIndex := 0;
      }
    }

    /**
     * operator=: a deep copy of other, re-linearised to front 0; self-assignment
     * changes nothing.  As in the copy constructor, endIndex ends up equal to the length.
     */
    method Assign(other: CircularDynamicArray<T>)
      requires Valid() && other.Valid()
      requires other == this || Repr !! other.Repr
      modifies Repr
      ensures Valid() && fresh(Repr - old(Repr))
      ensures Contents == old(other.Contents)
      ensures other == this ==> unchanged(this)
      ensures other != this ==> cap == other.cap && frontIndex == 0 && endIndex == len && fresh(data)
      ensures other != this ==> unchanged(other)
      ensures errorElem == old(errorElem)
    {
      if this == other {
        return;
      }
      data := new T[other.cap];
      len, cap := other.len, other.cap;
      frontIndex, endIndex := 0, 0;
      Contents := other.Contents;
      Repr := {this, data};
      CopyElements(other);
    }

    /** operator= with endIndex wrapped into the buffer, as evidently intended. */
    method AssignCorrected(other: CircularDynamicArray<T>)
      requires Valid() && other.Valid()
      requires other == this || Repr !! other.Repr
      modifies Repr
      ensures Valid() && fresh(Repr - old(Repr))
      ensures Contents == old(other.Contents)
      ensures other == this ==> unchanged(this)
      ensures other != this ==> cap == other.cap && frontIndex == 0 && fresh(data) && EndInBuffer()
      ensures other != this ==> unchanged(other)
      ensures errorElem == old(errorElem)
    {
      if this == other {
        return;
      }
      data := new T[other.cap];
      len, cap := other.len, other.cap;
      frontIndex, endIndex := 0, 0;
      Contents := other.Contents;
      Repr := {this, data};
      CopyElements(other);
      if endIndex == cap {
        endIndex := 0;
      }
    }

    /** The element loop shared by the copy constructor and operator=. */
    method CopyElements(other: CircularDynamicArray<T>)
      requires other.Valid() && other != this && data != other.data
      requires Repr == {this, data} && data.Length == cap && frontIndex == 0 && endIndex == 0
      requires len == other.len && cap == other.cap && Contents == other.Contents
      modifies this`endIndex, data
      ensures Valid() && endIndex == len && data[..len] == Contents
    {
      var i := 0;
      while i < len
        invariant 0 <= i <= len && endIndex == i
        invariant forall j :: 0 <= j < i ==> data[j] == Contents[j]
      {
        data[i] := other.data[other.Slot(i)];
        endIndex := endIndex + 1;
        i := i + 1;
      }
      assert data[..len] == Contents;
      if cap > 0 {
        ModUpToTwice(len, cap);
      }
    }

    /**
     * operator[] used as an rvalue: logical element i when 0 <= i < length,
     * the error element otherwise.
     */
    function At(i: int): (r: T)
      reads this, Repr
      requires Valid()
      ensures 0 <= i < |Contents| ==> r == Contents[i]
      ensures !(0 <= i < |Contents|) ==> r == errorElem
    {
      if i < 0 || i >= len then errorElem else data[Slot(i)]
    }

    /**
     * operator[] used as an lvalue: writes logical element i when 0 <= i < length;
     * an out-of-range write goes to the error element and leaves the contents alone.
     */
    method SetAt(i: int, v: T)
      requires Valid()
      modifies data, this`Contents
      ensures Valid()
      ensures 0 <= i < |old(Contents)| ==> Contents == old(Contents)[i := v]
      ensures !(0 <= i < |old(Contents)|) ==> Contents == old(Contents)
    {
      if i < 0 || i >= len {
        return;
      }
      SetElement(i, v);
    }

    /** getElement as an rvalue: the unchecked accessor the algorithms use. */
    function GetElement(i: int): (r: T)
      reads this, Repr
      requires Valid() && 0 <= i < |Contents|
      ensures r == Contents[i]
    {
      data[Slot(i)]
    }

    /** getElement as an lvalue: overwrite logical element i. */
    method SetElement(i: int, v: T)
      requires Valid() && 0 <= i < |Contents|
      modifies data, this`Contents
      ensures Valid()
      ensures Contents == old(Contents)[i := v]
    {
      data[Slot(i)] := v;
      Contents := Contents[i := v];
    }

    /** swap(getElement(i), getElement(j)): exchange two logical elements. */
    method Swap(i: int, j: int)
      requires Valid() && 0 <= i < |Contents| && 0 <= j < |Contents|
      modifies data, this`Contents
      ensures Valid()
      ensures Contents == old(Contents)[i := old(Contents)[j]][j := old(Contents)[i]]
      ensures multiset(Contents) == multiset(old(Contents))
    {
      var temp := GetElement(i);
      SetElement(i, GetElement(j));
      SetElement(j, temp);
    }

    function Length(): (r: int)
      reads this, Repr
      requires Valid()
      ensures r == |Contents|
    {
      len
    }

    function Capacity(): (r: int)
      reads this, Repr
      requires Valid()
      ensures r >= |Contents| && r == data.Length
    {
      cap
    }

    /** growArray: double the capacity (0 counts as 1) and re-linearise to front 0. */
    method GrowArray()
      requires Valid()
      modifies this
      ensures Valid() && EndInBuffer() && fresh(data) && fresh(Repr - old(Repr))
      ensures Contents == old(Contents)
      ensures cap == 2 * (if old(cap) == 0 then 1 else old(cap))
      ensures frontIndex == 0 && endIndex == len
      ensures data[..len] == Contents
      ensures errorElem == old(errorElem)
    {
      if cap == 0 {
        cap := 1;
      }
      var newCapacity := cap * 2;
      var newArray := new T[newCapacity];
      var i := 0;
      while i < len
        invariant 0 <= i <= len
        invariant data == old(data) && len == old(len) && frontIndex == old(frontIndex)
        invariant Contents == old(Contents) && errorElem == old(errorElem)
        invariant cap == (if old(cap) == 0 then 1 else old(cap))
        invariant forall j :: 0 <= j < i ==> newArray[j] == Contents[j]
      {
        newArray[i] := data[Slot(i)];
        i := i + 1;
      }
      data := newArray;
      cap := newCapacity;
      frontIndex := 0;
      endIndex := len;
      Repr := {this, data};
      assert data[..len] == Contents;
    }

    /** shrinkArray: halve the capacity and re-linearise to front 0. */
    method ShrinkArray()
      requires Layout() && len <= cap / 2
      modifies this
      ensures Valid() && fresh(data) && fresh(Repr - old(Repr))
      ensures old(4 * len < cap) ==> EndInBuffer()
      ensures Contents == old(Contents)
      ensures cap == old(cap) / 2
      ensures frontIndex == 0 && endIndex == len
      ensures data[..len] == Contents
      ensures errorElem == old(errorElem)
    {
      var newCapacity := cap / 2;
      var newArray := new T[newCapacity];
      var i := 0;
      while i < len
        invariant 0 <= i <= len
        invariant data == old(data) && len == old(len) && frontIndex == old(frontIndex)
        invariant Contents == old(Contents) && errorElem == old(errorElem) && cap == old(cap)
        invariant forall j :: 0 <= j < i ==> newArray[j] == Contents[j]
      {
        newArray[i] := data[Slot(i)];
        i := i + 1;
      }
      data := newArray;
      cap := newCapacity;
      frontIndex := 0;
      endIndex := len;
      Repr := {this, data};
      assert data[..len] == Contents;
    }

    /** addEnd: append, growing first exactly when the buffer is full. */
    method AddEnd(element: T)
      requires Valid() && EndWritable()
      modifies Repr
      ensures Valid() && EndInBuffer() && fresh(Repr - old(Repr))
      ensures Contents == old(Contents) + [element]
      ensures old(len) == old(cap) ==> cap == 2 * (if old(cap) == 0 then 1 else old(cap)) && frontIndex == 0 && fresh(data)
      ensures old(len) < old(cap) ==> cap == old(cap) && frontIndex == old(frontIndex) && data == old(data)
      ensures errorElem == old(errorElem)
    {
      if len == cap {
        GrowArray();
      }
      data[endIndex] := element;
      endIndex := CorrectIndex(endIndex + 1);
      len := len + 1;
      Contents := Contents + [element];
    }

    /** addFront: prepend; on an empty array this is addEnd. */
    method AddFront(element: T)
      requires Valid()
      modifies Repr
      ensures Valid() && fresh(Repr - old(Repr))
      ensures Contents == [element] + old(Contents)
      ensures old(len) == old(cap) ==> cap == 2 * (if old(cap) == 0 then 1 else old(cap)) && fresh(data)
      ensures old(len) == old(cap) && old(len) > 0 ==> frontIndex == cap - 1
      ensures old(len) < old(cap) ==> cap == old(cap) && data == old(data)
      ensures 0 < old(len) < old(cap) ==> frontIndex == old(CorrectIndex(frontIndex - 1)) && endIndex == old(endIndex)
      ensures old(EndInBuffer()) || old(len) == old(cap) ==> EndInBuffer()
      ensures errorElem == old(errorElem)
    {
      if len == 0 {
        AddEnd(element);
        return;
      }
      if len == cap {
        GrowArray();
        PrependInPlace(element);
      } else {
        PrependInPlace(element);
      }
    }

    /** The in-place step of addFront: step the front back one slot and write there. */
    method PrependInPlace(element: T)
      requires Valid() && 0 < len < cap
      modifies data, this`frontIndex, this`len, this`Contents
      ensures Valid()
      ensures Contents == [element] + old(Contents)
      ensures frontIndex == old(CorrectIndex(frontIndex - 1))
    {
      ghost var before := Contents;
      ghost var f := frontIndex;
      frontIndex := CorrectIndex(frontIndex - 1);
      data[frontIndex] := element;
      len := len + 1;
      Contents := [element] + Contents;
      forall i | 1 <= i < len
        ensures data[Wrap(frontIndex + i)] == Contents[i]
      {
        assert Wrap(frontIndex + i) == Wrap(f + (i - 1));
        assert Contents[i] == before[i - 1];
      }
    }

    /**
     * delEnd: drop the last element; a no-op on an empty array.  Afterwards the
     * buffer halves exactly when 4 * length < capacity.
     */
    method DelEnd()
      requires Valid()
      modifies Repr
      ensures Valid() && fresh(Repr - old(Repr))
      ensures old(len) == 0 ==> unchanged(this)
      ensures old(len) > 0 ==> Contents == old(Contents)[..old(len) - 1] && EndInBuffer()
      ensures old(len) > 0 && 4 * len < old(cap) ==> cap == old(cap) / 2 && frontIndex == 0 && fresh(data)
      ensures old(len) > 0 && 4 * len >= old(cap) ==> cap == old(cap) && frontIndex == old(frontIndex) && data == old(data)
      ensures errorElem == old(errorElem)
    {
      if len == 0 {
        return;
      }
      len := len - 1;
      endIndex := CorrectIndex(endIndex - 1);
      Contents := Contents[..len];
      if 4 * len < cap {
        ShrinkArray();
      }
    }

    /**
     * delFront: drop the first element; a no-op on an empty array.  Afterwards the
     * buffer halves exactly when 4 * length < capacity.
     */
    method DelFront()
      requires Valid()
      modifies Repr
      ensures Valid() && fresh(Repr - old(Repr))
      ensures old(len) == 0 ==> unchanged(this)
      ensures old(len) > 0 ==> Contents == old(Contents)[1..]
      ensures old(len) > 0 && 4 * len < old(cap) ==> cap == old(cap) / 2 && frontIndex == 0 && fresh(data) && EndInBuffer()
      ensures old(len) > 0 && 4 * len >= old(cap) ==> cap == old(cap) && data == old(data) && endIndex == old(endIndex)
      ensures old(len) > 0 && 4 * len >= old(cap) ==> frontIndex == old(CorrectIndex(frontIndex + 1))
      ensures old(EndInBuffer()) ==> EndInBuffer()
      ensures errorElem == old(errorElem)
    {
      if len == 0 {
        return;
      }
      len := len - 1;
      frontIndex := CorrectIndex(frontIndex + 1);
      Contents := Contents[1..];
      if 4 * len < cap {
        ShrinkArray();
      }
    }

    /**
     * clear: a fresh buffer of capacity 2 that still reports length 2 (two default
     * elements), with endIndex one past the buffer.
     */
    method Clear()
      requires Valid()
      modifies this
      ensures Valid() && fresh(data) && fresh(Repr - old(Repr))
      ensures |Contents| == 2 && cap == 2 && frontIndex == 0 && endIndex == 2
      ensures errorElem == old(errorElem)
    {
      data := new T[2];
      len, cap := 2, 2;
      frontIndex, endIndex := 0, 2;
      Contents := data[..];
      Repr := {this, data};
    }

    /**
     * clear with its end index named as a slot: the same two default elements in a
     * full buffer of capacity 2, with endIndex wrapped to 0, so a later addEnd stays
     * inside the buffer whatever is deleted first.
     */
    method ClearCorrected()
      requires Valid()
      modifies this
      ensures Valid() && EndInBuffer() && fresh(data) && fresh(Repr - old(Repr))
      ensures |Contents| == 2 && cap == 2 && frontIndex == 0 && endIndex == 0
      ensures errorElem == old(errorElem)
    {
      data := new T[2];
      len, cap := 2, 2;
      frontIndex, endIndex := 0, 0;
      Contents := data[..];
      Repr := {this, data};
    }

    /** clearCompletely: a fresh, empty buffer of capacity 2. */
    method ClearCompletely()
      requires Valid()
      modifies this
      ensures Valid() && EndInBuffer() && fresh(data) && fresh(Repr - old(Repr))
      ensures Contents == [] && cap == 2 && frontIndex == 0 && endIndex == 0
      ensures errorElem == old(errorElem)
    {
      data := new T[2];
      len, cap := 0, 2;
      frontIndex, endIndex := 0, 0;
      Contents := [];
      Repr := {this, data};
    }
  }

  /**
   * Copying a full array and then deleting at the front leaves endIndex one past
   * the buffer while the array is not full, so the next addEnd would write outside it.
   */
  method CopyOfFullThenDelFront() returns (b: CircularDynamicArray<int>)
    ensures b.Valid() && b.len == 3 && b.cap == 4 && b.endIndex == 4 && !b.EndWritable()
  {
    var a := new CircularDynamicArray<int>.WithSize(4);
    b := new CircularDynamicArray<int>.Copy(a);
    b.DelFront();
  }

  /** The same state, reached through clear. */
  method ClearThenDelFront() returns (b: CircularDynamicArray<int>)
    ensures b.Valid() && b.len == 1 && b.cap == 2 && b.endIndex == 2 && !b.EndWritable()
  {
    b := new CircularDynamicArray<int>();
    b.Clear();
    b.DelFront();
  }
}
