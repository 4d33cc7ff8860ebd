/** The allocation tracker of CustomFuncs/Alloc.h: a table of every pool
    block handed out by Alloc, so that Free and FreeAll release exactly the
    blocks the tracker gave out. The table grows by 8 entries when full,
    shrinks when less than half of it is used, and is kept in a pool
    allocation of its own.

    Pool allocations are outcomes the caller supplies: `tableOk` for the
    tracker's own table, the block address (0 for failure) for Alloc.
    ExFreePool calls on tracked blocks are recorded in `released`. */
module AllocTracker {
  import opened Slots
  import opened Growth

  /** POOL_FLAG_PAGED */
  const PoolFlagPaged: nat := 0x100
  /** APC_LEVEL and DISPATCH_LEVEL */
  const ApcLevel: int := 1
  const DispatchLevel: int := 2

  class Tracker {
    /** `_alloc`, as machine words. */
    var table: array<int>
    /** `_alloc` is not null. */
    var hasTable: bool
    var size: int
    var capacity: int
    /** `_bytes`: the size of the table last asked for. */
    var bytes: int
    /** `_initialized`: the mutex has been set up. */
    var initialized: bool
    /** `_allocated` */
    var isAllocated: bool
    /** Tracked blocks handed to ExFreePool, in the order they were freed. */
    var released: seq<int>

    /** The table invariant: the entries fit a table whose capacity is a
        multiple of 8, the slots past them are zero, and the entries are
        distinct live blocks. A tracker without a table is empty. */
    ghost predicate Valid()
      reads this, table
    {
      && 0 <= size <= capacity && capacity % 8 == 0
      && isAllocated == hasTable
      && (isAllocated ==> initialized)
      && (hasTable ==> table.Length == capacity && forall i :: size <= i < capacity ==> table[i] == 0)
      && (!hasTable ==> capacity == 0)
      && Distinct(table[..size])
      && forall i :: 0 <= i < size ==> table[i] != 0
    }

    /** The tracked blocks. */
    function Entries(): seq<int>
      reads this, table
      requires Valid()
    {
      if hasTable then table[..size] else []
    }

    /** is_active */
    predicate Active()
      reads this
    {
      isAllocated && initialized
    }

    constructor ()
      ensures Valid() && Entries() == [] && !Active() && released == []
      ensures capacity == 0 && bytes == 0 && !initialized
    {
      table := new int[0];
      hasTable, size, capacity, bytes := false, 0, 0, 0;
      initialized, isAllocated, released := false, false, [];
    }

    /** Init(newCapacity): a no-op when the capacity is already right or too
        small for the entries. Otherwise the requested size is recorded and,
        if the pool allocation succeeds, the entries move to a zeroed table
        of the new capacity and the tracker becomes active. */
    method Init(newCapacity: int, tableOk: bool)
      requires Valid() && newCapacity % 8 == 0
      modifies this
      ensures Valid() && released == old(released) && size == old(size)
      ensures Entries() == old(Entries())
      ensures capacity == Reserved(old(capacity), old(size), newCapacity, tableOk)
      ensures bytes == (if newCapacity == old(capacity) || newCapacity < old(size) then old(bytes) else newCapacity * 8)
      ensures isAllocated == (old(isAllocated) || capacity != old(capacity))
      ensures initialized == (old(initialized) || capacity != old(capacity))
      ensures capacity == old(capacity) ==> table == old(table) && hasTable == old(hasTable)
      ensures capacity != old(capacity) ==> fresh(table)
    {
      if newCapacity == capacity || newCapacity < size {
        return;
      }
      bytes := newCapacity * 8;
      if tableOk {
        var tmp := new int[newCapacity](_ => 0);
        forall i | 0 <= i < size {
          tmp[i] := table[i];
        }
        table, hasTable, capacity := tmp, true, newCapacity;
        initialized, isAllocated := true, true;
        assert table[..size] == old(table[..size]);
      }
    }

    /** Alloc: make room in the table first (8 entries for an empty
        tracker, 8 more for a full one); then, if the tracker is active and
        has room, the pool block `block` (0 when ExAllocatePool2 fails) is
        recorded and returned. Every other outcome returns null. The pool
        never hands out a block that is still live. */
    method Alloc(block: int, tableOk: bool) returns (r: int)
      requires Valid() && (block == 0 || block !in Entries())
      modifies this, table
      ensures Valid() && released == old(released)
      ensures capacity == (if old(capacity) == 0 then Reserved(0, old(size), 8, tableOk)
                           else if old(size) == old(capacity) then Reserved(old(capacity), old(size), old(capacity) + 8, tableOk)
                           else old(capacity))
      ensures r == 0 || r == block
      ensures r != 0 ==> Entries() == old(Entries()) + [block]
      ensures r == 0 ==> Entries() == old(Entries())
      ensures block != 0 && (tableOk || (old(Active()) && old(size) < old(capacity))) ==> r == block
    {
      if capacity == 0 {
        Init(8, tableOk);
      } else if size == capacity {
        Init(capacity + 8, tableOk);
      }
      if Active() && size < capacity {
        if block != 0 {
          Track(block);
          return block;
        }
        return 0;
      }
      return 0;
    }

    /** `_alloc[_size++] = ptr` */
    method Track(block: int)
      requires Valid() && hasTable && size < capacity && block != 0 && block !in Entries()
      modifies this, table
      ensures Valid() && table == old(table) && released == old(released)
      ensures capacity == old(capacity) && isAllocated == old(isAllocated) && initialized == old(initialized)
      ensures Entries() == old(Entries()) + [block]
    {
      ghost var held := Entries();
      table[size] := block;
      size := size + 1;
      assert table[..size] == held + [block];
      forall i, j | 0 <= i < j < size
        ensures table[..size][i] != table[..size][j]
      {
        if j == size - 1 {
          assert held[i] in held;
        }
      }
    }

    /** Free(p): null, an empty tracker or an inactive one frees nothing.
        Otherwise the table first shrinks if less than half of it is used;
        then the first entry equal to p is taken out (the last entry moves
        into its slot and the last slot is zeroed), p is freed and nulled,
        and true is returned. An untracked p is left alone and false is
        returned. */
    method Free(p: int, tableOk: bool) returns (ok: bool, pAfter: int)
      requires Valid()
      modifies this, table
      ensures Valid()
      ensures ok <==> p != 0 && p in old(Entries())
      ensures ok ==> Entries() == SwapRemove(old(Entries()), FirstIndex(old(Entries()), p))
      ensures !ok ==> Entries() == old(Entries())
      ensures released == old(released) + (if ok then [p] else [])
      ensures pAfter == (if ok then 0 else p)
      ensures capacity == (if old(size) == 0 || p == 0 || !old(Active()) then old(capacity)
                           else Reserved(old(capacity), old(size), ShrinkTarget(old(capacity), old(size)), tableOk))
    {
      if size == 0 || p == 0 || !Active() {
        return false, p;
      }
      Shrink(tableOk);
      var i := Position(p);
      if i == size {
        return false, p;
      }
      released := released + [p];
      Untrack(i);
      return true, 0;
    }

    /** The shrinking step of Free. */
    method Shrink(tableOk: bool)
      requires Valid() && size > 0
      modifies this
      ensures Valid() && released == old(released) && size == old(size) && Entries() == old(Entries())
      ensures capacity == Reserved(old(capacity), old(size), ShrinkTarget(old(capacity), old(size)), tableOk)
      ensures Active() == old(Active()) && hasTable == old(hasTable)
      ensures table == old(table) || fresh(table)
    {
      if size < capacity / 2 && (capacity / 2) % 8 == 0 {
        Init(capacity / 2, tableOk);
      } else if size < capacity / 2 && (capacity - 8) % 8 == 0 {
        Init(capacity - 8, tableOk);
      }
    }

    /** The search of Free: the first slot holding p, or size. */
    method Position(p: int) returns (i: int)
      requires Valid()
      ensures 0 <= i <= size
      ensures i < size <==> hasTable && p in Entries()
      ensures i < size ==> i == FirstIndex(Entries(), p)
    {
      if !hasTable {
        return size;
      }
      ghost var held := Entries();
      i := 0;
      while i < size && table[i] != p
        invariant 0 <= i <= size
        invariant p !in held[..i]
      {
        assert held[..i + 1] == held[..i] + [held[i]];
        i := i + 1;
      }
      if i == size {
        assert held[..i] == held;
      } else {
        assert held[i] == p;
      }
    }

    /** The removal of Free: `_alloc[i] = _alloc[_size - 1]` unless i is
        the last slot, then `_alloc[--_size] = NULL`. */
    method Untrack(i: int)
      requires Valid() && hasTable && 0 <= i < size
      modifies this, table
      ensures Valid() && table == old(table) && released == old(released)
      ensures capacity == old(capacity) && isAllocated == old(isAllocated) && initialized == old(initialized)
      ensures Entries() == SwapRemove(old(Entries()), i)
    {
      ghost var held := Entries();
      if i == size - 1 {
        size := size - 1;
        table[size] := 0;
      } else {
        table[i] := table[size - 1];
        size := size - 1;
        table[size] := 0;
      }
      assert table[..size] == SwapRemove(held, i);
      SwapRemoveDistinct(held, i);
    }

    /** FreeAll: free every tracked block, from the last entry to the first,
        then release the table and reset the capacity. The mutex stays
        initialized. */
    method FreeAll()
      requires Valid()
      modifies this
      ensures Valid() && Entries() == [] && !Active() && !hasTable
      ensures capacity == 0 && initialized == old(initialized)
      ensures released == old(released) + Freed(old(Entries()), 0, |old(Entries())|)
      ensures !old(hasTable) ==> bytes == old(bytes)
      ensures old(hasTable) ==> bytes == 0
    {
      if !hasTable {
        return;
      }
      ghost var all := Entries();
      var n, freed := size, released;
      while n > 0
        modifies {}
        invariant 0 <= n <= |all|
        invariant freed + Freed(all, 0, n) == released + Freed(all, 0, |all|)
      {
        FreedStep(all, 0, n, freed, released + Freed(all, 0, |all|));
        assert table[n - 1] == all[n - 1] != 0;
        freed := freed + [table[n - 1]];
        n := n - 1;
      }
      size, released := 0, freed;
      hasTable, isAllocated := false, false;
      bytes, capacity := 0, 0;
    }

    /** offset(val): how many right shifts take val to 1. The source loops
        forever for any val below 1. */
    method Offset(val: int) returns (i: int)
      requires val >= 1
      ensures i == Log2(val)
    {
      var v := val;
      i := 0;
      while v != 1
        invariant v >= 1 && i + Log2(v) == Log2(val)
        decreases v
      {
        v := v / 2;
        i := i + 1;
      }
    }
  }

  /** The capacity Free asks Init for: half the table when less than half
      is used and the half is a multiple of 8, else 8 entries fewer when
      less than half is used, else the capacity as it is. */
  function ShrinkTarget(capacity: int, size: int): int
  {
    if size < capacity / 2 && (capacity / 2) % 8 == 0 then capacity / 2
    else if size < capacity / 2 && (capacity - 8) % 8 == 0 then capacity - 8
    else capacity
  }

  /** Shrinking never loses an entry and keeps the capacity a multiple of
      8, whether or not the table allocation succeeds. */
  lemma ShrinkKeepsEntries(capacity: int, size: int, tableOk: bool)
    requires 0 < size <= capacity && capacity % 8 == 0
    ensures var c := Reserved(capacity, size, ShrinkTarget(capacity, size), tableOk);
      size <= c <= capacity && c % 8 == 0
  {
  }

  /** The number of halvings that take v to 1: the position of v's highest
      set bit. */
  function Log2(v: int): nat
    requires v >= 1
  {
    if v == 1 then 0 else 1 + Log2(v / 2)
  }

  function Pow2(n: nat): (p: nat)
    ensures p >= 1
  {
    if n == 0 then 1 else 2 * Pow2(n - 1)
  }

  /** offset returns the position of the highest set bit, which for a power
      of two is its exponent. */
  lemma {:induction false} Log2Bounds(v: int)
    requires v >= 1
    ensures Pow2(Log2(v)) <= v < Pow2(Log2(v) + 1)
    decreases v
  {
    if v > 1 {
      Log2Bounds(v / 2);
    }
  }

  lemma {:induction false} Log2OfPower(n: nat)
    ensures Log2(Pow2(n)) == n
  {
    if n > 0 {
      Log2OfPower(n - 1);
      assert Pow2(n) / 2 == Pow2(n - 1);
    }
  }

  /** The IRQL ceiling Alloc asserts for a pool flag: APC_LEVEL when bit
      offset(POOL_FLAG_PAGED) of the flag is set, DISPATCH_LEVEL otherwise.
      That bit is bit 8. */
  function IrqlCeiling(poolFlag: nat): (irql: int)
    ensures irql == (if (poolFlag / 256) % 2 == 1 then ApcLevel else DispatchLevel)
  {
    Log2OfPower(8);
    assert PoolFlagPaged == Pow2(8);
    if (poolFlag / Pow2(Log2(PoolFlagPaged))) % 2 == 1 then ApcLevel else DispatchLevel
  }
}
