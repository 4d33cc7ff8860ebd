/** The growth policy vector/vector.h and vector/vector2.0.h share:
    push_back reserves 8 slots in an empty vector and twice the capacity in a
    full one; reserve is a no-op for the current capacity or one too small
    for the elements. Also the two places where the headers as written step
    outside their buffer when that reserve fails. */
module Growth {

  /** What a reserve(newCapacity) call leaves as the capacity; `grows` says
      whether the call gets as far as a successful buffer allocation. */
  function Reserved(capacity: int, size: int, newCapacity: int, grows: bool): int
  {
    if newCapacity == capacity || newCapacity < size || !grows then capacity else newCapacity
  }

  /** The capacity push_back reserves before it writes, on an empty or a
      full vector: 8 when empty, double when full. */
  function GrowTarget(size: int, capacity: int): int
  {
    if size == 0 then 8 else if size == capacity then 2 * capacity else capacity
  }

  /** A reserve that grows always makes room for one more element. */
  lemma GrowthMakesRoom(size: int, capacity: int)
    requires 0 <= size <= capacity
    requires size == 0 || size == capacity
    ensures Reserved(capacity, size, GrowTarget(size, capacity), true) > size
  {
  }

  /** push_back as written: after the reserve it writes slot `size`
      whatever the reserve did. The result is the slot written and the
      capacity of the buffer it is written to. */
  function PushBackAsWritten(size: int, capacity: int, allocOk: bool): (r: (int, int))
  {
    var c := if size == 0 || size == capacity then Reserved(capacity, size, GrowTarget(size, capacity), allocOk)
             else capacity;
    (size, c)
  }

  /** A full vector whose doubling allocation fails is written one slot past
      the end of its buffer (8 elements in 8 slots is one such input). */
  lemma PushBackWritesPastBuffer(n: int)
    requires n > 0
    ensures PushBackAsWritten(n, n, false) == (n, n)
  {
  }

  /** resize as written: when newSize exceeds the capacity the size is set
      to newSize whether or not the reserve succeeded. The result is the
      new (size, capacity). */
  function ResizeAsWritten(size: int, capacity: int, newSize: int, allocOk: bool): (r: (int, int))
  {
    if newSize <= 0 || newSize == size then (size, capacity)
    else if newSize > capacity then (newSize, Reserved(capacity, size, newSize, allocOk))
    else (newSize, capacity)
  }

  /** Growing past the capacity with a failed allocation leaves more
      elements than slots (resize(16) of 8 elements in 8 slots is one such
      input). */
  lemma ResizeOutgrowsBuffer(size: int, capacity: int, newSize: int)
    requires 0 <= size <= capacity < newSize
    ensures ResizeAsWritten(size, capacity, newSize, false) == (newSize, capacity)
  {
  }
}
