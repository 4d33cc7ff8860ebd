/** The fixed-capacity kernel array of CustomFuncs/Vector2.0.h. Like the one
    of CustomFuncs/Vector.h it lives in one page of non-cached memory
    allocated on the first push. For a pointer element type the page is cut
    in two: the first half holds the elements, the second half the table of
    pool blocks the vector owns (`_heap`), so that every distinct non-null
    pointer pushed is freed exactly once, when its element is dropped or when
    the whole vector is freed.

    The table is modelled where the source keeps it, in the page's own slots
    maxSize .. maxSize + count. The page allocation's outcome is supplied by
    the caller; ExFreePool calls are recorded in `released`. */
module TrackedVector {
  import opened Slots

  const PageSize: nat := 4096

  class Vector {
    /** is_pointer<T>::value */
    const isPointer: bool
    /** sizeof(T) in bytes. */
    const elementSize: nat
    /** How many elements of that size one page holds. */
    const pageSlots: nat
    /** Half of them: the elements' share of the page for a pointer element
        type. */
    const halfPage: nat
    /** `_maxSize`: how many elements may be pushed. */
    var maxSize: int
    /** The page, as machine words. */
    var elem: array<int>
    /** `_elem` is not null. */
    var hasBuffer: bool
    /** `_heap` is not null. */
    var hasHeap: bool
    /** `_allocated` */
    var isAllocated: bool
    var size: int
    /** `_count`: entries in the table of owned blocks. */
    var count: int
    /** Pool blocks handed to ExFreePool, in the order they were freed. */
    var released: seq<int>

    // Shape, Contents, Tracked and Valid read every field but `released`, so
    // that recording a free leaves them as they were.

    /** The layout of the page: before allocation the vector is empty and has
        no table; afterwards the elements fit below maxSize and, for a pointer
        element type, the table sits in the upper half of the page. */
    ghost predicate Shape()
      reads this`maxSize, this`elem, this`hasBuffer, this`hasHeap, this`isAllocated, this`size, this`count, elem
    {
      && halfPage + halfPage <= pageSlots
      && hasBuffer == isAllocated
      && hasHeap == (isAllocated && isPointer)
      && 0 <= size <= maxSize && 0 <= count <= maxSize
      && (!isPointer ==> maxSize == pageSlots)
      && (isAllocated ==> elem.Length == pageSlots && (isPointer ==> maxSize == halfPage))
      && (!isAllocated ==> size == 0)
      && (!hasHeap ==> count == 0)
    }

    function Contents(): seq<int>
      reads this`maxSize, this`elem, this`hasBuffer, this`hasHeap, this`isAllocated, this`size, this`count, elem
      requires Shape()
    {
      if isAllocated then elem[..size] else []
    }

    /** The table of owned blocks. */
    function Tracked(): seq<int>
      reads this`maxSize, this`elem, this`hasBuffer, this`hasHeap, this`isAllocated, this`size, this`count, elem
      requires Shape()
    {
      if hasHeap then elem[maxSize..maxSize + count] else []
    }

    /** The layout, and the table owning blocks among the elements. */
    ghost predicate Valid()
      reads this`maxSize, this`elem, this`hasBuffer, this`hasHeap, this`isAllocated, this`size, this`count, elem
    {
      Shape() && Owns(Tracked(), Contents())
    }

    constructor (isPointer: bool, elementSize: nat)
      requires elementSize > 0
      ensures Valid() && this.isPointer == isPointer && this.elementSize == elementSize
      ensures pageSlots == PageSize / elementSize && halfPage == pageSlots / 2
      ensures maxSize == pageSlots && !isAllocated && released == []
    {
      this.isPointer := isPointer;
      this.elementSize := elementSize;
      pageSlots := PageSize / elementSize;
      halfPage := PageSize / elementSize / 2;
      maxSize := PageSize / elementSize;
      elem := new int[0];
      hasBuffer, hasHeap, isAllocated := false, false, false;
      size, count, released := 0, 0, [];
    }

    /** at(index): the caller must keep the index in range (the source
        asserts it). */
    method At(index: int) returns (v: int)
      requires Valid() && 0 <= index < size
      ensures v == Contents()[index]
    {
      v := elem[index];
    }

    /** find(p): whether p is in the table. */
    method Find(p: int) returns (b: bool)
      requires Shape()
      ensures b == (p in Tracked())
    {
      if !hasHeap || count == 0 {
        return false;
      }
      var i := 0;
      while i < count
        invariant 0 <= i <= count
        invariant p !in elem[maxSize..maxSize + i]
      {
        if elem[maxSize + i] == p {
          assert elem[maxSize..maxSize + count][i] == p;
          return true;
        }
        assert elem[maxSize..maxSize + i + 1] == elem[maxSize..maxSize + i] + [elem[maxSize + i]];
        i := i + 1;
      }
      assert elem[maxSize..maxSize + count] == elem[maxSize..maxSize + i];
      return false;
    }

    /** add(p): append a non-null p to the table if the table has room. */
    method Add(p: int)
      requires Shape()
      modifies this, elem
      ensures Shape() && elem == old(elem) && released == old(released)
      ensures size == old(size) && maxSize == old(maxSize)
      ensures isAllocated == old(isAllocated) && hasHeap == old(hasHeap) && hasBuffer == old(hasBuffer)
      ensures Contents() == old(Contents())
      ensures Tracked() == if p != 0 && hasHeap && old(count) < maxSize then old(Tracked()) + [p] else old(Tracked())
    {
      if p == 0 {
        return;
      }
      if hasHeap && count < maxSize {
        elem[maxSize + count] := p;
        count := count + 1;
        assert elem[maxSize..maxSize + count] == old(elem[maxSize..maxSize + count]) + [p];
      }
    }

    /** remove(p): take the first table entry equal to a non-null p out of
        the table, moving the last entry into its place, and free it. */
    method Remove(p: int)
      requires Shape()
      modifies this, elem
      ensures Shape() && elem == old(elem)
      ensures size == old(size) && maxSize == old(maxSize)
      ensures isAllocated == old(isAllocated) && hasHeap == old(hasHeap) && hasBuffer == old(hasBuffer)
      ensures Contents() == old(Contents())
      ensures Tracked() == Untracked(old(Tracked()), p)
      ensures released == old(released) + Freeing(old(Tracked()), p)
    {
      ghost var table, log := Tracked(), released;
      if !hasHeap || count == 0 || p == 0 {
        UntrackedAbsent(table, p);
        assert log + [] == log;
        return;
      }
      var i := Position(p);
      if i < count {
        UntrackedAt(table, p, i);
        released := released + [p];
        TakeOut(i);
        assert released == log + Freeing(table, p);
      } else {
        UntrackedAbsent(table, p);
        assert log + [] == log;
      }
    }

    /** The search of remove: the first table slot holding p, or count. */
    method Position(p: int) returns (i: int)
      requires Shape() && hasHeap
      ensures 0 <= i <= count
      ensures i < count <==> p in Tracked()
      ensures i < count ==> i == FirstIndex(Tracked(), p)
    {
      ghost var table := Tracked();
      i := 0;
      while i < count && elem[maxSize + i] != p
        invariant 0 <= i <= count
        invariant p !in table[..i]
      {
        assert table[..i + 1] == table[..i] + [table[i]];
        i := i + 1;
      }
      if i == count {
        assert table[..i] == table;
      } else {
        assert table[i] == p;
      }
    }

    /** The removal of remove: the last table entry moves into slot i. */
    method TakeOut(i: int)
      requires Shape() && hasHeap && 0 <= i < count
      modifies this, elem
      ensures Shape() && elem == old(elem) && released == old(released)
      ensures size == old(size) && maxSize == old(maxSize)
      ensures isAllocated == old(isAllocated) && hasHeap == old(hasHeap) && hasBuffer == old(hasBuffer)
      ensures Contents() == old(Contents())
      ensures Tracked() == SwapRemove(old(Tracked()), i)
    {
      ghost var table := Tracked();
      elem[maxSize + i] := elem[maxSize + count - 1];
      count := count - 1;
      assert Tracked() == SwapRemove(table, i);
    }

    /** `_elem[_size++] = value`: the table, above every element slot, is
        left alone. */
    method Append(value: int)
      requires Shape() && isAllocated && size < maxSize
      modifies this, elem
      ensures Shape() && elem == old(elem) && released == old(released) && count == old(count)
      ensures maxSize == old(maxSize) && isAllocated == old(isAllocated) && hasHeap == old(hasHeap)
      ensures Contents() == old(Contents()) + [value] && Tracked() == old(Tracked())
    {
      ghost var t := Tracked();
      elem[size] := value;
      size := size + 1;
      assert forall j :: 0 <= j < |t| ==> elem[maxSize + j] == t[j];
      assert Tracked() == t;
    }

    /** `_elem[--_size] = NULL` */
    method DropLast()
      requires Shape() && isAllocated && 0 < size
      modifies this, elem
      ensures Shape() && elem == old(elem) && released == old(released) && count == old(count)
      ensures maxSize == old(maxSize) && isAllocated == old(isAllocated) && hasHeap == old(hasHeap)
      ensures size == old(size) - 1 && elem[size] == 0
      ensures Contents() == old(Contents())[..size] && Tracked() == old(Tracked())
    {
      ghost var t := Tracked();
      size := size - 1;
      elem[size] := 0;
      assert forall j :: 0 <= j < |t| ==> elem[maxSize + j] == t[j];
      assert Tracked() == t;
    }

    /** `_elem[index] = _elem[--_size]`: the last element moves into slot
        index; the vacated slot keeps its word. */
    method MoveLastTo(index: int)
      requires Shape() && isAllocated && 0 <= index < size
      modifies this, elem
      ensures Shape() && elem == old(elem) && released == old(released) && count == old(count)
      ensures maxSize == old(maxSize) && isAllocated == old(isAllocated) && hasHeap == old(hasHeap)
      ensures Contents() == SwapRemove(old(Contents()), index) && Tracked() == old(Tracked())
    {
      ghost var t, c := Tracked(), Contents();
      elem[index] := elem[size - 1];
      size := size - 1;
      assert forall j :: 0 <= j < |t| ==> elem[maxSize + j] == t[j];
      assert Tracked() == t;
      assert Contents() == SwapRemove(c, index);
    }

    /** allocate, with the table's share of the page computed from the page
        itself: a pointer vector gets half a page of elements whether or not
        it has been allocated and freed before. */
    method Allocate(allocOk: bool)
      requires Valid() && !isAllocated
      modifies this
      ensures Valid() && released == old(released) && size == 0 && count == 0
      ensures isAllocated == allocOk
      ensures isAllocated ==> fresh(elem) && maxSize == (if isPointer then halfPage else pageSlots)
      ensures !isAllocated ==> maxSize == old(maxSize)
    {
      if allocOk {
        elem := new int[pageSlots](_ => 0);
        if isPointer {
          maxSize := halfPage;
          hasHeap := true;
        }
        hasBuffer, isAllocated := true, true;
      }
    }

    /** push_back(value): allocate the page on first use; if there is room,
        append the value and, for a pointer element type, start owning it
        unless it is null or already owned. A value that does not fit is
        dropped. */
    method PushBack(value: int, allocOk: bool)
      requires Valid()
      modifies this, elem
      ensures Valid() && released == old(released)
      ensures isAllocated == (old(isAllocated) || allocOk)
      ensures isAllocated ==> maxSize == (if isPointer then halfPage else pageSlots)
      ensures isAllocated && old(size) < maxSize ==>
        && Contents() == old(Contents()) + [value]
        && Tracked() == (if isPointer && value != 0 && value !in old(Tracked()) then old(Tracked()) + [value] else old(Tracked()))
      ensures !(isAllocated && old(size) < maxSize) ==> Contents() == old(Contents()) && Tracked() == old(Tracked())
    {
      if !isAllocated {
        Allocate(allocOk);
      }
      if isAllocated && size < maxSize {
        ghost var table, held := Tracked(), Contents();
        OwnsSize(table, held);
        if isPointer {
          var owned := Find(value);
          if !owned {
            Add(value);
          }
        }
        ghost var mid := Tracked();
        Append(value);
        assert mid == table || mid == table + [value];
        OwnsPush(table, held, value);
      }
    }

    /** pop_back: drop the last element and zero its slot; for a pointer
        element type, first free the element if the vector owns it. */
    method PopBack()
      requires Valid()
      modifies this, elem
      ensures Valid() && elem == old(elem) && maxSize == old(maxSize) && isAllocated == old(isAllocated)
      ensures old(size) == 0 ==> Contents() == old(Contents()) && Tracked() == old(Tracked()) && released == old(released)
      ensures old(size) > 0 ==>
        && size == old(size) - 1 && elem[size] == 0
        && Contents() == old(Contents())[..size]
        && Tracked() == (if isPointer then Untracked(old(Tracked()), old(Contents())[size]) else old(Tracked()))
        && released == old(released) + (if isPointer then Freeing(old(Tracked()), old(Contents())[size]) else [])
    {
      if size == 0 {
        return;
      }
      if isPointer {
        PopOwned();
      } else {
        DropLast();
      }
    }

    /** pop_back for a pointer element type: remove(p) on the last element,
        then drop it. */
    method PopOwned()
      requires Valid() && isPointer && 0 < size
      modifies this, elem
      ensures Valid() && elem == old(elem) && maxSize == old(maxSize) && isAllocated == old(isAllocated)
      ensures size == old(size) - 1 && elem[size] == 0
      ensures Contents() == old(Contents())[..size]
      ensures Tracked() == Untracked(old(Tracked()), old(Contents())[size])
      ensures released == old(released) + Freeing(old(Tracked()), old(Contents())[size])
    {
      ghost var table, held := Tracked(), Contents();
      var p := elem[size - 1];
      Remove(p);
      DropLast();
      assert held == Contents() + [p];
      OwnsDrop(table, held, Contents(), p);
    }

    /** free(index): for a pointer element type and an index in range, free
        the element if the vector owns it and move the last element into its
        slot. The vacated last slot keeps its old word. Any other call
        changes nothing. */
    method FreeAt(index: int)
      requires Valid()
      modifies this, elem
      ensures Valid() && elem == old(elem) && maxSize == old(maxSize) && isAllocated == old(isAllocated)
      ensures !(isPointer && 0 <= index < old(size)) ==>
        Contents() == old(Contents()) && Tracked() == old(Tracked()) && released == old(released)
      ensures isPointer && 0 <= index < old(size) ==>
        && Contents() == SwapRemove(old(Contents()), index)
        && Tracked() == Untracked(old(Tracked()), old(Contents())[index])
        && released == old(released) + Freeing(old(Tracked()), old(Contents())[index])
    {
      if size == 0 || !hasBuffer || !(0 <= index < size) {
        return;
      }
      if isPointer {
        ghost var table, held := Tracked(), Contents();
        var p := elem[index];
        Remove(p);
        MoveLastTo(index);
        forall x | x in held && x != p
          ensures x in Contents()
        {
          SwapRemoveKeeps(held, index, x);
        }
        OwnsDrop(table, held, Contents(), p);
      }
    }

    /** free_all: free every owned block, from the last table entry to the
        first, drop the table, zero the elements from the last one down and
        release the page. */
    method FreeAll()
      requires Valid()
      modifies this, elem
      ensures Valid() && !isAllocated && !hasBuffer && size == 0 && count == 0
      ensures maxSize == old(maxSize)
      ensures released == old(released) + Freed(old(Tracked()), 0, |old(Tracked())|)
    {
      if !hasBuffer {
        return;
      }
      if hasHeap {
        ReleaseTable();
        hasHeap := false;
      }
      ZeroElements();
      hasBuffer, isAllocated := false, false;
    }

    /** The first loop of free_all: ExFreePool on every table entry, the
        last one first (the count is kept in a local and stored at the end). */
    method ReleaseTable()
      requires Valid() && hasHeap
      modifies this
      ensures Shape() && count == 0 && elem == old(elem)
      ensures size == old(size) && maxSize == old(maxSize)
      ensures isAllocated == old(isAllocated) && hasHeap == old(hasHeap) && hasBuffer == old(hasBuffer)
      ensures released == old(released) + Freed(old(Tracked()), 0, old(count))
    {
      ghost var all := Tracked();
      var n, freed := count, released;
      while n > 0
        modifies {}
        invariant 0 <= n <= |all|
        invariant freed + Freed(all, 0, n) == released + Freed(all, 0, |all|)
      {
        FreedStep(all, 0, n, freed, released + Freed(all, 0, |all|));
        assert elem[maxSize + n - 1] == all[n - 1] != 0;
        freed := freed + [elem[maxSize + n - 1]];
        n := n - 1;
      }
      count, released := 0, freed;
    }

    /** The second loop of free_all: zero the elements, the last one first. */
    method ZeroElements()
      requires 0 <= size <= elem.Length
      modifies this, elem
      ensures size == 0 && count == old(count) && elem == old(elem) && maxSize == old(maxSize)
      ensures isAllocated == old(isAllocated) && hasHeap == old(hasHeap) && hasBuffer == old(hasBuffer)
      ensures released == old(released)
      ensures forall i :: 0 <= i < old(size) ==> elem[i] == 0
      ensures elem[old(size)..] == old(elem[size..])
    {
      while size > 0
        invariant 0 <= size <= old(size) && count == old(count) && elem == old(elem) && maxSize == old(maxSize)
        invariant isAllocated == old(isAllocated) && hasHeap == old(hasHeap) && hasBuffer == old(hasBuffer)
        invariant released == old(released)
        invariant forall i :: size <= i < old(size) ==> elem[i] == 0
        invariant elem[old(size)..] == old(elem[size..])
      {
        size := size - 1;
        elem[size] := 0;
      }
    }
  }

  /** The table after remove(p): p taken out of it, if a non-null p is in it. */
  function Untracked(table: seq<int>, p: int): seq<int>
  {
    if p != 0 && p in table then SwapRemove(table, FirstIndex(table, p)) else table
  }

  /** What remove(p) frees. */
  function Freeing(table: seq<int>, p: int): seq<int>
  {
    if p != 0 && p in table then [p] else []
  }

  /** remove(p) of a non-null p found first at slot i frees p and swaps it out. */
  lemma UntrackedAt(table: seq<int>, p: int, i: int)
    requires p != 0 && 0 <= i < |table| && p in table && i == FirstIndex(table, p)
    ensures Untracked(table, p) == SwapRemove(table, i) && Freeing(table, p) == [p]
  {
  }

  /** remove(p) of a null or absent p changes nothing. */
  lemma UntrackedAbsent(table: seq<int>, p: int)
    requires p == 0 || p !in table
    ensures Untracked(table, p) == table && Freeing(table, p) == []
  {
  }

  /** The ownership invariant: the table holds distinct non-null blocks,
      each of them still an element. */
  predicate Owns(table: seq<int>, held: seq<int>)
  {
    && Distinct(table)
    && forall i :: 0 <= i < |table| ==> table[i] != 0 && table[i] in held
  }

  /** The table never has more entries than there are elements, so a push
      that fits the elements also fits the table. */
  lemma OwnsSize(table: seq<int>, held: seq<int>)
    requires Owns(table, held)
    ensures |table| <= |held|
  {
    DistinctWithin(table, held);
  }

  /** A pushed element keeps the invariant, and so does owning it when it is
      non-null and not owned yet. */
  lemma OwnsPush(table: seq<int>, held: seq<int>, v: int)
    requires Owns(table, held)
    ensures Owns(table, held + [v])
    ensures v != 0 && v !in table ==> Owns(table + [v], held + [v])
  {
    if v != 0 && v !in table {
      var t := table + [v];
      forall i, j | 0 <= i < j < |t|
        ensures t[i] != t[j]
      {
        if j == |table| {
          assert t[i] == table[i];
        }
      }
    }
  }

  /** Dropping one copy of p from the elements, and p from the table, keeps
      the invariant; afterwards the table holds no copy of p. */
  lemma OwnsDrop(table: seq<int>, held: seq<int>, rest: seq<int>, p: int)
    requires Owns(table, held)
    requires forall x :: x in held && x != p ==> x in rest
    ensures Owns(Untracked(table, p), rest)
    ensures p !in Untracked(table, p)
  {
    if p != 0 && p in table {
      var i := FirstIndex(table, p);
      SwapRemoveDistinct(table, i);
      var t := Untracked(table, p);
      forall k | 0 <= k < |t|
        ensures t[k] != p
      {
        var k' := if k == i then |table| - 1 else k;
        assert t[k] == table[k'] && k' != i;
      }
    }
  }

  /** allocate as written: `_maxSize` is halved from whatever it holds. */
  function AllocatedMaxSizeAsWritten(maxSize: int, isPointer: bool): int
  {
    if isPointer then maxSize / 2 else maxSize
  }

  /** free_all leaves `_maxSize` alone, so a pointer vector that is freed and
      pushed again is allocated with half the room it had: 256 pointers on a
      4096-byte page the first time, 128 the second. */
  lemma ReallocationHalvesRoomAsWritten()
    ensures AllocatedMaxSizeAsWritten(PageSize / 8, true) == 256
    ensures AllocatedMaxSizeAsWritten(AllocatedMaxSizeAsWritten(PageSize / 8, true), true) == 128
  {
  }
}
