/** The fixed-capacity kernel array of CustomFuncs/Vector.h: one page of
    non-cached memory, allocated on the first push, holding at most
    PAGE_SIZE / sizeof(T) elements. A push into a full page is dropped.

    The page allocation's outcome is supplied by the caller. */
module PageVector {

  const PageSize: nat := 4096

  class Vector {
    /** sizeof(T) in bytes. */
    const elementSize: nat
    /** `_maxSize`: how many elements the page holds. */
    const maxSize: nat
    var elem: array<int>
    /** `_elem` is not null. */
    var hasBuffer: bool
    /** `_allocated`: the page has been allocated. */
    var isAllocated: bool
    var size: int

    /** Before the page exists the vector is empty; afterwards the elements
        fit the page and the slots past them are zero. */
    ghost predicate Valid()
      reads this, elem
    {
      && 0 < elementSize && maxSize == PageSize / elementSize
      && 0 <= size <= maxSize
      && hasBuffer == isAllocated
      && (isAllocated ==> elem.Length == maxSize && forall i :: size <= i < maxSize ==> elem[i] == 0)
      && (!isAllocated ==> size == 0)
    }

    function Contents(): seq<int>
      reads this, elem
      requires Valid()
    {
      if isAllocated then elem[..size] else []
    }

    constructor (elementSize: nat)
      requires elementSize > 0
      ensures Valid() && this.elementSize == elementSize && maxSize == PageSize / elementSize
      ensures !isAllocated && size == 0
    {
      this.elementSize := elementSize;
      maxSize := PageSize / elementSize;
      elem := new int[0];
      hasBuffer, isAllocated, size := false, false, 0;
    }

    /** at(index): the caller must keep the index in range (the source
        asserts it). */
    method At(index: int) returns (v: int)
      requires Valid() && 0 <= index < size
      ensures v == Contents()[index]
    {
      v := elem[index];
    }

    /** allocate: a zeroed page, if the allocation succeeds. */
    method Allocate(allocOk: bool)
      requires Valid() && !isAllocated
      modifies this
      ensures Valid() && size == 0
      ensures isAllocated == allocOk && (isAllocated ==> fresh(elem))
    {
      if allocOk {
        elem := new int[maxSize](_ => 0);
        hasBuffer, isAllocated := true, true;
      }
    }

    /** push_back(value): allocate the page on first use, then append if the
        page has room; a value pushed into a full page is dropped. */
    method PushBack(value: int, allocOk: bool)
      requires Valid()
      modifies this, elem
      ensures Valid()
      ensures isAllocated == (old(isAllocated) || allocOk)
      ensures isAllocated && old(size) < maxSize ==> Contents() == old(Contents()) + [value]
      ensures !isAllocated || old(size) == maxSize ==> Contents() == old(Contents())
      ensures isAllocated ==> Contents() == Kept(maxSize, old(Contents()), [value])
    {
      if !isAllocated {
        Allocate(allocOk);
      }
      if isAllocated && size < maxSize {
        elem[size] := value;
        size := size + 1;
      }
    }

    /** pop_back: drop the last element and zero its slot; no-op when empty
        or without a buffer. */
    method PopBack()
      requires Valid()
      modifies this, elem
      ensures Valid() && isAllocated == old(isAllocated) && elem == old(elem)
      ensures old(size) == 0 ==> size == 0 && elem[..] == old(elem[..])
      ensures old(size) > 0 ==> size == old(size) - 1 && elem[..] == old(elem[..])[size := 0]
      ensures Contents() == old(Contents())[..size]
    {
      if size == 0 || !hasBuffer {
        return;
      }
      size := size - 1;
      elem[size] := 0;
    }

    /** free: release the page. `_size` and `_allocated` are left as they
        were, so the vector is not usable afterwards. */
    method Free()
      requires Valid()
      modifies this
      ensures !hasBuffer && size == old(size) && isAllocated == old(isAllocated)
    {
      if hasBuffer {
        hasBuffer := false;
      }
    }
  }

  /** Pushing past the page drops the values: n pushes into a fresh page
      keep the first maxSize of them. */
  lemma {:induction false} PushesKeepPrefix(maxSize: nat, values: seq<int>)
    ensures Kept(maxSize, [], values) == values[..if |values| <= maxSize then |values| else maxSize]
  {
    KeptFrom(maxSize, [], values);
    assert [] + values == values;
  }

  /** The contents after pushing `values` in order into a page holding
      `held`, every allocation having succeeded. */
  function Kept(maxSize: nat, held: seq<int>, values: seq<int>): seq<int>
    decreases |values|
  {
    if values == [] then held
    else Kept(maxSize, if |held| < maxSize then held + [values[0]] else held, values[1..])
  }

  lemma {:induction false} KeptFrom(maxSize: nat, held: seq<int>, values: seq<int>)
    requires |held| <= maxSize
    ensures var all := held + values;
      Kept(maxSize, held, values) == all[..if |all| <= maxSize then |all| else maxSize]
    decreases |values|
  {
    var all := held + values;
    if values == [] {
      assert all == held;
    } else {
      var next := if |held| < maxSize then held + [values[0]] else held;
      KeptFrom(maxSize, next, values[1..]);
      if |held| < maxSize {
        assert next + values[1..] == all;
      } else {
        assert all[..maxSize] == held;
        var all' := next + values[1..];
        assert all'[..maxSize] == held;
      }
    }
  }
}
