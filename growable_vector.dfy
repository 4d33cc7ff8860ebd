/** The growable kernel array of vector/vector.h: a buffer of `capacity`
    words of which the first `size` are the elements. The buffer grows to 8
    on the first push and doubles when full; every new buffer is zeroed and
    receives the old elements.

    Each pool or non-cached allocation is an outcome the caller supplies
    (`allocOk`); one outcome stands for every allocation a call makes. */
module GrowableVector {
  import opened Slots
  import opened Growth

  /** What `at` hands back: the element, or (for an index out of range, or
      a null pointer slot) the address of the slot, as an index. */
  datatype AtResult = Element(value: int) | SlotAddress(index: int)

  class Vector {
    /** is_pointer<T>::value */
    const isPointer: bool
    var elem: array<int>
    /** `_elem` is not null. */
    var hasBuffer: bool
    var size: int
    var capacity: int
    /** Element pointers handed to ExFreePool, in the order they were freed. */
    var released: seq<int>

    /** The array invariant: the elements fit the buffer, a vector without a
        buffer is empty, and every slot past the elements is zero (buffers
        are zeroed on allocation and pop_back zeroes the slot it vacates). */
    ghost predicate Valid()
      reads this, elem
    {
      && 0 <= size <= capacity == elem.Length
      && (!hasBuffer ==> capacity == 0)
      && forall i :: size <= i < capacity ==> elem[i] == 0
    }

    function Contents(): seq<int>
      reads this, elem
      requires Valid()
    {
      elem[..size]
    }

    /** vector(): no buffer yet. */
    constructor (isPointer: bool)
      ensures Valid() && this.isPointer == isPointer
      ensures size == 0 && capacity == 0 && !hasBuffer && released == []
    {
      this.isPointer := isPointer;
      elem := new int[0];
      hasBuffer, size, capacity, released := false, 0, 0, [];
    }

    /** vector(int size): reserve that many slots up front. */
    constructor Sized(isPointer: bool, n: int, allocOk: bool)
      ensures Valid() && this.isPointer == isPointer && size == 0 && released == []
      ensures capacity == (if n > 0 && allocOk then n else 0)
    {
      this.isPointer := isPointer;
      elem := new int[0];
      hasBuffer, size, capacity, released := false, 0, 0, [];
      new;
      Reserve(n, allocOk);
    }

    /** at(index): the element for an index in range, except that a null
        pointer element yields its slot's address; any other index yields the
        address the out-of-range slot would have. */
    method At(index: int) returns (r: AtResult)
      requires Valid()
      ensures 0 <= index < size && !(isPointer && Contents()[index] == 0) ==> r == Element(Contents()[index])
      ensures 0 <= index < size && isPointer && Contents()[index] == 0 ==> r == SlotAddress(index)
      ensures !(0 <= index < size) ==> r == SlotAddress(index)
    {
      if 0 <= index < size {
        if isPointer && elem[index] == 0 {
          r := SlotAddress(index);
        } else {
          r := Element(elem[index]);
        }
      } else {
        r := SlotAddress(index);
      }
    }

    /** reserve(newCapacity): a no-op when the capacity is already right or
        too small for the elements, or when the allocation fails; otherwise
        a zeroed buffer of the new capacity that starts with the elements. */
    method Reserve(newCapacity: int, allocOk: bool)
      requires Valid()
      modifies this
      ensures Valid() && released == old(released)
      ensures size == old(size) && Contents() == old(Contents())
      ensures capacity == Reserved(old(capacity), old(size), newCapacity, allocOk)
      ensures capacity == old(capacity) ==> elem == old(elem) && hasBuffer == old(hasBuffer)
      ensures capacity != old(capacity) ==> fresh(elem) && hasBuffer
    {
      if newCapacity == capacity || newCapacity < size || !allocOk {
        return;
      }
      var tmp := new int[newCapacity](_ => 0);
      forall i | 0 <= i < size {
        tmp[i] := elem[i];
      }
      elem, capacity, hasBuffer := tmp, newCapacity, true;
      assert elem[..size] == old(elem[..size]);
    }

    /** push_back(value), with the write made only when the buffer has room
        after the reserve: it always has room when the allocation succeeds,
        and the value is then appended. */
    method PushBack(value: int, allocOk: bool)
      requires Valid()
      modifies this, elem
      ensures Valid() && released == old(released)
      ensures elem == old(elem) || fresh(elem)
      ensures capacity == (if old(size) == 0 || old(size) == old(capacity)
                           then Reserved(old(capacity), old(size), GrowTarget(old(size), old(capacity)), allocOk)
                           else old(capacity))
      ensures old(size) < capacity ==> Contents() == old(Contents()) + [value]
      ensures old(size) == capacity ==> Contents() == old(Contents())
      ensures allocOk ==> Contents() == old(Contents()) + [value]
    {
      if size == 0 {
        Reserve(8, allocOk);
      } else if size == capacity {
        Reserve(2 * capacity, allocOk);
      }
      if size < capacity {
        elem[size] := value;
        size := size + 1;
      }
    }

    /** pop_back: drop the last element and zero its slot; no-op when empty. */
    method PopBack()
      requires Valid()
      modifies this, elem
      ensures Valid() && released == old(released)
      ensures elem == old(elem) && capacity == old(capacity) && hasBuffer == old(hasBuffer)
      ensures old(size) == 0 ==> size == 0 && elem[..] == old(elem[..])
      ensures old(size) > 0 ==> size == old(size) - 1 && elem[..] == old(elem[..])[size := 0]
      ensures Contents() == old(Contents())[..size]
    {
      if size <= 0 {
        return;
      }
      size := size - 1;
      elem[size] := 0;
    }

    /** resize(newSize), with the size set past the current capacity only
        once the reserve has made room for it. */
    method Resize(newSize: int, allocOk: bool)
      requires Valid()
      modifies this, elem
      ensures Valid() && released == old(released)
      ensures newSize <= 0 || newSize == old(size) ==> Contents() == old(Contents()) && capacity == old(capacity)
      ensures newSize > old(capacity) && allocOk ==>
        capacity == newSize && Contents() == old(Contents()) + Zeros(newSize - old(size))
      ensures newSize > old(capacity) && !allocOk ==> Contents() == old(Contents()) && capacity == old(capacity)
      ensures 0 < newSize < old(size) ==> Contents() == old(Contents())[..newSize] && capacity == old(capacity)
      ensures old(size) < newSize <= old(capacity) ==> Contents() == old(Contents()) + Zeros(newSize - old(size))
    {
      if newSize <= 0 || newSize == size {
        return;
      }
      if newSize > capacity {
        Reserve(newSize, allocOk);
        if capacity >= newSize {
          assert elem[size..newSize] == Zeros(newSize - size);
          assert elem[..newSize] == elem[..size] + elem[size..newSize];
          size := newSize;
        }
        return;
      }
      if newSize < size {
        ShrinkTo(newSize);
      } else {
        GrowTo(newSize, allocOk);
      }
    }

    /** The shrinking loop of resize: pop until newSize elements are left. */
    method ShrinkTo(newSize: int)
      requires Valid() && 0 < newSize < size
      modifies this, elem
      ensures Valid() && released == old(released)
      ensures capacity == old(capacity) && Contents() == old(Contents())[..newSize]
    {
      var i := size - newSize;
      while i > 0
        invariant Valid() && elem == old(elem) && capacity == old(capacity)
        invariant released == old(released)
        invariant i >= 0 && size == newSize + i && Contents() == old(Contents())[..size]
      {
        PopBack();
        i := i - 1;
      }
    }

    /** The growing loop of resize: push zeros until there are newSize
        elements. A failed allocation leaves the capacity alone, and the
        caller has checked that the elements fit it. */
    method GrowTo(newSize: int, allocOk: bool)
      requires Valid() && size < newSize <= capacity
      modifies this, elem
      ensures Valid() && released == old(released)
      ensures Contents() == old(Contents()) + Zeros(newSize - old(size))
    {
      var i := newSize - size;
      while i > 0
        invariant Valid() && released == old(released)
        invariant elem == old(elem) || fresh(elem)
        invariant i >= 0 && size + i == newSize
        invariant !allocOk ==> capacity == old(capacity)
        invariant Contents() == old(Contents()) + Zeros(size - old(size))
      {
        PushBack(0, allocOk);
        assert Zeros(size - old(size)) == Zeros(size - 1 - old(size)) + [0];
        i := i - 1;
      }
    }

    /** shrink_to_fit: reserve exactly the elements of a non-empty vector. */
    method ShrinkToFit(allocOk: bool)
      requires Valid()
      modifies this
      ensures Valid() && released == old(released)
      ensures Contents() == old(Contents())
      ensures capacity == (if old(size) > 0 && allocOk then old(size) else old(capacity))
    {
      if size > 0 {
        Reserve(size, allocOk);
      }
    }

    /** free: release the buffer. The size and capacity are left as they
        were, so the vector is not usable afterwards (the destructor calls it). */
    method Free()
      requires Valid()
      modifies this
      ensures !hasBuffer && size == old(size) && capacity == old(capacity) && released == old(released)
    {
      if hasBuffer {
        hasBuffer := false;
      }
    }

    /** pool_pop_back: for a pointer element type, drop the last element,
        freeing it and zeroing its slot when it is not null. A non-pointer
        element type is left alone. */
    method PoolPopBack()
      requires Valid()
      modifies this, elem
      ensures Valid() && elem == old(elem) && capacity == old(capacity)
      ensures !isPointer || old(size) == 0 ==> size == old(size) && released == old(released)
      ensures isPointer && old(size) > 0 ==>
        && size == old(size) - 1
        && released == old(released) + (if old(elem[size - 1]) != 0 then [old(elem[size - 1])] else [])
      ensures Contents() == old(Contents())[..size]
    {
      if size <= 0 {
        return;
      }
      if isPointer {
        var ptr := elem[size - 1];
        if ptr != 0 {
          released := released + [ptr];
          elem[size - 1] := 0;
          size := size - 1;
        } else {
          size := size - 1;
        }
      }
    }

    /** pool_free: for a pointer element type, free every non-null element
        from the last to the first and empty the vector; then release the
        buffer. A non-pointer element type keeps its size. */
    method PoolFree()
      requires Valid()
      modifies this, elem
      ensures !hasBuffer && capacity == old(capacity)
      ensures isPointer ==> size == 0 && released == old(released) + Freed(old(Contents()), 0, old(size))
      ensures !isPointer ==> size == old(size) && released == old(released)
    {
      if !hasBuffer {
        return;
      }
      if isPointer {
        FreeElements();
      }
      hasBuffer := false;
    }

    /** The loop of pool_free for a pointer element type: pool_pop_back
        until the vector is empty. */
    method FreeElements()
      requires Valid() && isPointer
      modifies this, elem
      ensures Valid() && elem == old(elem) && capacity == old(capacity) && hasBuffer == old(hasBuffer)
      ensures size == 0 && released == old(released) + Freed(old(Contents()), 0, old(size))
    {
      ghost var all := Contents();
      while size > 0
        invariant Valid() && elem == old(elem) && capacity == old(capacity) && hasBuffer == old(hasBuffer)
        invariant size <= |all| && forall i :: 0 <= i < size ==> elem[i] == all[i]
        invariant released + Freed(all, 0, size) == old(released) + Freed(all, 0, |all|)
      {
        FreedStep(all, 0, size, released, old(released) + Freed(all, 0, |all|));
        var ptr := elem[size - 1];
        if ptr != 0 {
          released := released + [ptr];
          elem[size - 1] := 0;
        }
        size := size - 1;
      }
    }
  }
}
