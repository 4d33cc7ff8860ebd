/** The kernel array of vector/vector2.0.h: the growable array of
    vector/vector.h with a guard. The first reserve also allocates a
    one-element "bounds" sentinel (for a pointer element type the sentinel
    points at a small zeroed pool block), and an access out of range lands
    on the sentinel rather than outside the buffer; read and write check
    the index themselves.

    Allocation outcomes are supplied by the caller, one record per call. */
module GuardedVector {
  import opened Slots
  import opened Growth

  /** The outcomes of the allocations one call may make: the sentinel, the
      pool block a pointer sentinel points at (0 when that allocation
      fails), and the element buffer. */
  datatype Allocs = Allocs(sentinel: bool, outBlock: int, buffer: bool)

  /** What `at` refers to: an element slot, the sentinel, or (out of range
      before any sentinel exists) the null sentinel pointer. */
  datatype Ref = ElementSlot(index: int) | SentinelSlot | NullSentinel

  /** What `read` returns: a word, or the address of a slot, as an index. */
  datatype ReadResult = Word(value: int) | SlotAddress(index: int)

  class Vector {
    /** is_pointer<T>::value */
    const isPointer: bool
    var elem: array<int>
    var size: int
    var capacity: int
    /** `_bounds` is not null. */
    var hasBounds: bool
    /** *_bounds: zero, or the pool block of a pointer sentinel. */
    var bound: int
    /** `_first`: the sentinel has not been set up yet. */
    var first: bool
    /** Pointers handed to ExFreePool, in the order they were freed. */
    var released: seq<int>

    /** The array invariant of vector/vector.h, plus: once set up, the
        sentinel exists, and for a pointer element type it points at its
        block. */
    ghost predicate Valid()
      reads this, elem
    {
      && 0 <= size <= capacity == elem.Length
      && (forall i :: size <= i < capacity ==> elem[i] == 0)
      && (!hasBounds ==> bound == 0)
      && (!first ==> hasBounds && (isPointer <==> bound != 0))
    }

    function Contents(): seq<int>
      reads this, elem
      requires Valid()
    {
      elem[..size]
    }

    /** Whether a reserve that is not a no-op grows the buffer under these
        outcomes: a pointer vector setting up its sentinel gives up when the
        sentinel's block cannot be allocated. */
    predicate Grows(a: Allocs)
      reads this
    {
      a.buffer && !(first && isPointer && a.sentinel && a.outBlock == 0)
    }

    /** The members' initial values: no buffer, no sentinel. */
    constructor (isPointer: bool)
      ensures Valid() && this.isPointer == isPointer
      ensures size == 0 && capacity == 0 && first && !hasBounds && released == []
    {
      this.isPointer := isPointer;
      elem := new int[0];
      size, capacity, hasBounds, bound, first, released := 0, 0, false, 0, true, [];
    }

    /** at(index): the element slot for an index in range, else the
        sentinel; once any reserve has set the sentinel up, the null case
        cannot arise. */
    method At(index: int) returns (r: Ref)
      requires Valid()
      ensures 0 <= index < size ==> r == ElementSlot(index)
      ensures !(0 <= index < size) ==> r == (if hasBounds then SentinelSlot else NullSentinel)
      ensures !first ==> r != NullSentinel
    {
      if 0 <= index < size {
        r := ElementSlot(index);
      } else if hasBounds {
        r := SentinelSlot;
      } else {
        r := NullSentinel;
      }
    }

    /** read(index): the element for an index in range, except that a null
        pointer yields its slot's address; out of range, the slot's address
        for a pointer element type and T{0} otherwise. */
    method Read(index: int) returns (r: ReadResult)
      requires Valid()
      ensures 0 <= index < size && !(isPointer && Contents()[index] == 0) ==> r == Word(Contents()[index])
      ensures 0 <= index < size && isPointer && Contents()[index] == 0 ==> r == SlotAddress(index)
      ensures !(0 <= index < size) ==> r == (if isPointer then SlotAddress(index) else Word(0))
    {
      if 0 <= index < size {
        if elem[index] == 0 && isPointer {
          r := SlotAddress(index);
        } else {
          r := Word(elem[index]);
        }
      } else if isPointer {
        r := SlotAddress(index);
      } else {
        r := Word(0);
      }
    }

    /** write(index, value): store into an element slot in range, except a
        null pointer slot; any other call changes nothing. */
    method Write(index: int, value: int)
      requires Valid()
      modifies elem
      ensures Valid()
      ensures var writes := 0 <= index < size && !(isPointer && old(elem[index]) == 0);
        elem[..] == if writes then old(elem[..])[index := value] else old(elem[..])
    {
      if 0 <= index < size {
        if elem[index] == 0 && isPointer {
          return;
        }
        elem[index] := value;
      }
    }

    /** reserve(newCapacity): a no-op for the current capacity or one too
        small for the elements. Otherwise the first call sets up the sentinel
        (a pointer vector returns early, still unset, when the sentinel's
        block cannot be allocated), and then the buffer is replaced by a
        zeroed one of the new capacity starting with the elements, if that
        allocation succeeds. */
    method Reserve(newCapacity: int, a: Allocs)
      requires Valid()
      modifies this
      ensures Valid() && released == old(released)
      ensures size == old(size) && Contents() == old(Contents())
      ensures capacity == Reserved(old(capacity), old(size), newCapacity, old(Grows(a)))
      ensures capacity == old(capacity) ==> elem == old(elem)
      ensures capacity != old(capacity) ==> fresh(elem)
      ensures Grows(a) == old(Grows(a))
      ensures newCapacity == old(capacity) || newCapacity < old(size) || !old(first) ==>
        first == old(first) && hasBounds == old(hasBounds) && bound == old(bound)
      ensures old(first) && newCapacity != old(capacity) && newCapacity >= old(size) ==>
        && first == !(a.sentinel && (isPointer ==> a.outBlock != 0))
        && hasBounds == (a.sentinel || old(hasBounds))
        && bound == (if a.sentinel then (if isPointer then a.outBlock else 0) else old(bound))
    {
      if newCapacity == capacity || newCapacity < size {
        return;
      }
      if first && a.sentinel {
        hasBounds, bound := true, 0;
        if isPointer {
          if a.outBlock == 0 {
            return;
          }
          bound := a.outBlock;
        }
        first := false;
      }
      if !a.buffer {
        return;
      }
      var tmp := new int[newCapacity](_ => 0);
      forall i | 0 <= i < size {
        tmp[i] := elem[i];
      }
      elem, capacity := tmp, newCapacity;
      assert elem[..size] == old(elem[..size]);
    }

    /** push_back(value), with the write made only when the buffer has room
        after the reserve; when the reserve grows the buffer there is always
        room, and the value is then appended. */
    method PushBack(value: int, a: Allocs)
      requires Valid()
      modifies this, elem
      ensures Valid() && released == old(released)
      ensures elem == old(elem) || fresh(elem)
      ensures Grows(a) == old(Grows(a))
      ensures capacity == (if old(size) == 0 || old(size) == old(capacity)
                           then Reserved(old(capacity), old(size), GrowTarget(old(size), old(capacity)), old(Grows(a)))
                           else old(capacity))
      ensures old(size) < capacity ==> Contents() == old(Contents()) + [value]
      ensures old(size) == capacity ==> Contents() == old(Contents())
      ensures old(Grows(a)) ==> Contents() == old(Contents()) + [value]
    {
      if size == 0 {
        Reserve(8, a);
      } else if size == capacity {
        Reserve(2 * capacity, a);
      }
      if size < capacity {
        elem[size] := value;
        size := size + 1;
      }
    }

    /** pop_back: drop the last element and zero (null) its slot; no-op when empty. */
    method PopBack()
      requires Valid()
      modifies this, elem
      ensures Valid() && released == old(released)
      ensures elem == old(elem) && capacity == old(capacity)
      ensures first == old(first) && hasBounds == old(hasBounds) && bound == old(bound)
      ensures old(size) == 0 ==> size == 0 && elem[..] == old(elem[..])
      ensures old(size) > 0 ==> size == old(size) - 1 && elem[..] == old(elem[..])[size := 0]
      ensures Contents() == old(Contents())[..size]
    {
      if size <= 0 {
        return;
      }
      size := size - 1;
      elem[size] := 0;
    }

    /** resize(newSize), with the size set past the current capacity only
        once the reserve has made room for it. Shrinking frees every
        non-null pointer it pops. */
    method Resize(newSize: int, a: Allocs)
      requires Valid()
      modifies this, elem
      ensures Valid()
      ensures newSize <= 0 || newSize == old(size) ==>
        Contents() == old(Contents()) && capacity == old(capacity) && released == old(released)
      ensures newSize > old(capacity) && old(Grows(a)) ==>
        capacity == newSize && Contents() == old(Contents()) + Zeros(newSize - old(size))
      ensures newSize > old(capacity) && !old(Grows(a)) ==>
        Contents() == old(Contents()) && capacity == old(capacity)
      ensures newSize > old(capacity) ==> released == old(released)
      ensures 0 < newSize < old(size) ==>
        && Contents() == old(Contents())[..newSize] && capacity == old(capacity)
        && released == old(released) + (if isPointer then Freed(old(Contents()), newSize, old(size)) else [])
      ensures old(size) < newSize <= old(capacity) ==>
        Contents() == old(Contents()) + Zeros(newSize - old(size)) && released == old(released)
    {
      if newSize <= 0 || newSize == size {
        return;
      }
      if newSize > capacity {
        Reserve(newSize, a);
        if capacity >= newSize {
          assert elem[size..newSize] == Zeros(newSize - size);
          assert elem[..newSize] == elem[..size] + elem[size..newSize];
          size := newSize;
        }
        return;
      }
      if newSize < size {
        ShrinkTo(newSize);
      } else {
        GrowTo(newSize, a);
      }
    }

    /** The shrinking loop of resize: free the last element if it is a
        non-null pointer, pop it, until newSize elements are left. The
        element type is fixed when the template is instantiated, so each
        instantiation has only one of the two loops below. */
    method ShrinkTo(newSize: int)
      requires Valid() && 0 < newSize < size
      modifies this, elem
      ensures Valid() && capacity == old(capacity) && Contents() == old(Contents())[..newSize]
      ensures released == old(released) + (if isPointer then Freed(old(Contents()), newSize, old(size)) else [])
    {
      if isPointer {
        FreePointersDownTo(newSize);
      } else {
        var i := size - newSize;
        while i > 0
          invariant Valid() && elem == old(elem) && capacity == old(capacity) && released == old(released)
          invariant i >= 0 && size == newSize + i && Contents() == old(Contents())[..size]
        {
          PopBack();
          i := i - 1;
        }
      }
    }

    method FreePointersDownTo(newSize: int)
      requires Valid() && isPointer && 0 < newSize < size
      modifies this, elem
      ensures Valid() && capacity == old(capacity) && Contents() == old(Contents())[..newSize]
      ensures released == old(released) + Freed(old(Contents()), newSize, old(size))
    {
      ghost var all := Contents();
      var i := size - newSize;
      while i > 0
        invariant elem == old(elem) && capacity == old(capacity) && capacity == elem.Length
        invariant first == old(first) && hasBounds == old(hasBounds) && bound == old(bound)
        invariant i >= 0 && size == newSize + i && forall j :: 0 <= j < size ==> elem[j] == all[j]
        invariant forall j :: size <= j < capacity ==> elem[j] == 0
        invariant released + Freed(all, newSize, size) == old(released) + Freed(all, newSize, |all|)
      {
        var ptr := elem[size - 1];
        FreedStep(all, newSize, size, released, old(released) + Freed(all, newSize, |all|));
        if ptr != 0 {
          released := released + [ptr];
        }
        // pop_back
        size := size - 1;
        elem[size] := 0;
        i := i - 1;
      }
      assert elem[..newSize] == old(elem[..newSize]);
    }

    /** The growing loop of resize: push zeros until there are newSize
        elements. A reserve that does not grow leaves the capacity alone, and
        the caller has checked that the elements fit it. */
    method GrowTo(newSize: int, a: Allocs)
      requires Valid() && size < newSize <= capacity
      modifies this, elem
      ensures Valid() && released == old(released)
      ensures Contents() == old(Contents()) + Zeros(newSize - old(size))
    {
      var i := newSize - size;
      while i > 0
        invariant Valid() && released == old(released)
        invariant elem == old(elem) || fresh(elem)
        invariant i >= 0 && size + i == newSize
        invariant Grows(a) == old(Grows(a))
        invariant !Grows(a) ==> capacity == old(capacity)
        invariant Contents() == old(Contents()) + Zeros(size - old(size))
      {
        PushBack(0, a);
        assert Zeros(size - old(size)) == Zeros(size - 1 - old(size)) + [0];
        i := i - 1;
      }
    }

    /** shrink_to_fit: reserve exactly the elements of a non-empty vector. */
    method ShrinkToFit(a: Allocs)
      requires Valid()
      modifies this
      ensures Valid() && released == old(released)
      ensures Contents() == old(Contents())
      ensures capacity == (if old(size) > 0 && old(Grows(a)) then old(size) else old(capacity))
    {
      if size > 0 {
        Reserve(size, a);
      }
    }

    /** adjust(index): shift the elements after `index` one place to the
        left, overwriting the element at `index`. The size is unchanged, so
        the last element then appears twice. */
    method Adjust(index: int)
      requires Valid() && index >= 0
      modifies elem
      ensures Valid()
      ensures index < size - 1 ==>
        Contents() == old(Contents())[..index] + old(Contents())[index + 1..] + [old(Contents())[size - 1]]
      ensures index >= size - 1 ==> Contents() == old(Contents())
      ensures elem[size..] == old(elem[size..])
    {
      var i := index;
      while i < size - 1
        invariant index <= i && (index < size - 1 ==> i <= size - 1) && (index >= size - 1 ==> i == index)
        invariant forall j :: 0 <= j < elem.Length && !(index <= j < i) ==> elem[j] == old(elem[j])
        invariant forall j :: index <= j < i ==> elem[j] == old(elem[j + 1])
      {
        elem[i] := elem[i + 1];
        i := i + 1;
      }
      assert forall j :: size <= j < elem.Length ==> elem[j] == old(elem[j]);
      assert elem[size..] == old(elem[size..]);
      if index < size - 1 {
        assert Contents() == old(Contents())[..index] + old(Contents())[index + 1..] + [old(Contents())[size - 1]];
      } else {
        assert elem[..] == old(elem[..]);
      }
    }
  }
}
