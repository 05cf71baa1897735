/** `circularDeque<T, arraySize>` of util.h: a double-ended queue in a fixed array,
    between a front index and a back index that wrap around the array's end. One slot
    always stays free, so the capacity is `arraySize - 1`. */
module CircularDeques {
  import opened Wrappers

  /** `out_of_range`, thrown by `at`. */
  datatype OutOfRange = OutOfRange

  /** The array slot `pos` places after `front`, wrapping once around `arraySize`. */
  function SlotOf(front: nat, pos: nat, arraySize: nat): nat
  {
    if front + pos < arraySize then front + pos else front + pos - arraySize
  }

  class CircularDeque<T> {
    /** The array size, a template argument in the source. */
    const arraySize: nat
    /** The value `T()` that `pop_front` and `pop_back` store into a freed slot. */
    const blank: T
    const slots: array<T>
    var frontIndex: nat
    var backIndex: nat
    /** The elements, front first. */
    ghost var elements: seq<T>

    /** The array slot of the element at `pos`. */
    function Slot(pos: nat): nat
      reads this
    {
      SlotOf(frontIndex, pos, arraySize)
    }

    ghost predicate Valid()
      reads this, slots
    {
      && arraySize >= 1
      && slots.Length == arraySize
      && frontIndex < arraySize && backIndex < arraySize
      && |elements| == Size()
      && forall pos :: 0 <= pos < |elements| ==> Slot(pos) < arraySize && elements[pos] == slots[Slot(pos)]
    }

    /** `capacity()`. */
    function Capacity(): nat
      reads this
    {
      if arraySize == 0 then 0 else arraySize - 1
    }

    /** `size()`, the iterator distance `cend() - cbegin()`: the back index minus the
        front index, modulo the array size. */
    function Size(): (r: nat)
      requires frontIndex < arraySize && backIndex < arraySize
      reads this
      ensures r < arraySize
      ensures r == 0 <==> frontIndex == backIndex
    {
      if backIndex >= frontIndex then backIndex - frontIndex
      else backIndex + arraySize - frontIndex
    }

    constructor(arraySize: nat, blank: T)
      requires arraySize >= 1
      ensures Valid() && fresh(slots)
      ensures this.arraySize == arraySize && this.blank == blank && elements == []
    {
      this.arraySize := arraySize;
      this.blank := blank;
      slots := new T[arraySize](_ => blank);
      frontIndex := 0;
      backIndex := 0;
      elements := [];
    }

    /** `empty()`: the two indices coincide exactly when there is no element. */
    function IsEmpty(): (r: bool)
      requires Valid()
      reads this, slots
      ensures r <==> elements == []
    {
      frontIndex == backIndex
    }

    /** `clear()`. */
    method Clear()
      requires Valid()
      modifies this
      ensures Valid() && elements == []
    {
      frontIndex := 0;
      backIndex := 0;
      elements := [];
    }

    /** `at(pos)`: the element at `pos`, or `out_of_range` when `pos >= size()`. */
    method At(pos: nat) returns (r: Result<T, OutOfRange>)
      requires Valid()
      ensures pos < |elements| ==> r == Success(elements[pos])
      ensures pos >= |elements| ==> r == Failure(OutOfRange)
    {
      if pos >= Size() {
        return Failure(OutOfRange);
      }
      return Success(slots[Slot(pos)]);
    }

    /** `front()`. */
    method Front() returns (v: T)
      requires Valid() && elements != []
      ensures v == elements[0]
    {
      v := slots[frontIndex];
    }

    /** `back()`, the element before the back index. */
    method Back() returns (v: T)
      requires Valid() && elements != []
      ensures v == elements[|elements| - 1]
    {
      var i := if backIndex == 0 then arraySize - 1 else backIndex - 1;
      assert i == Slot(|elements| - 1);
      v := slots[i];
    }

    /** `push_back(v)`, which has no overflow check: the caller keeps the size below
        the capacity. */
    method PushBack(v: T)
      requires Valid() && |elements| < Capacity()
      modifies this, slots
      ensures Valid() && elements == old(elements) + [v]
    {
      slots[backIndex] := v;
      backIndex := if backIndex + 1 >= arraySize then 0 else backIndex + 1;
      elements := elements + [v];
    }

    /** `push_front(v)`, with the same obligation on the caller. */
    method PushFront(v: T)
      requires Valid() && |elements| < Capacity()
      modifies this, slots
      ensures Valid() && elements == [v] + old(elements)
    {
      ghost var front0 := frontIndex;
      frontIndex := if frontIndex == 0 then arraySize - 1 else frontIndex - 1;
      slots[frontIndex] := v;
      elements := [v] + elements;
      forall pos | 1 <= pos < |elements|
        ensures Slot(pos) == SlotOf(front0, pos - 1, arraySize)
      {
      }
    }

    /** `pop_front()` on a non-empty deque. */
    method PopFront()
      requires Valid() && elements != []
      modifies this, slots
      ensures Valid() && elements == old(elements)[1..]
    {
      slots[frontIndex] := blank;
      frontIndex := if frontIndex + 1 >= arraySize then 0 else frontIndex + 1;
      elements := elements[1..];
    }

    /** `pop_back()` on a non-empty deque. */
    method PopBack()
      requires Valid() && elements != []
      modifies this, slots
      ensures Valid() && elements == old(elements)[..|old(elements)| - 1]
    {
      backIndex := if backIndex == 0 then arraySize - 1 else backIndex - 1;
      slots[backIndex] := blank;
      elements := elements[..|elements| - 1];
    }
  }
}
