/** The retention queue (PushItem), the drain protocol (Read) and the final
    drain at unload. The source keeps a LIST_ENTRY list and a USHORT count
    behind one mutex; each operation below is one critical section. */
module EventQueue {
  import opened Wire
  import opened Records

  /** Eviction fires once the count exceeds this, so the queue holds at most one more. */
  const EvictAbove: nat := 1024
  const MaxRetained: nat := EvictAbove + 1

  /** NTSTATUS is a signed 32-bit value; errors have the top bit set and are
      negative, so 0xC000009A is 0xC000009A - 2^32. */
  const StatusSuccess: int := 0
  const StatusInsufficientResources: int := 0xC000009A - 0x1_0000_0000

  /** The queue after one PushItem: drop the head when over the threshold, append at the tail. */
  function Retain(items: seq<Record>, r: Record): seq<Record>
  {
    (if |items| > EvictAbove then items[1..] else items) + [r]
  }

  /** The queue after a series of PushItem calls. */
  function RetainAll(items: seq<Record>, rs: seq<Record>): seq<Record>
    decreases |rs|
  {
    if rs == [] then items else RetainAll(Retain(items, rs[0]), rs[1..])
  }

  function Min(a: int, b: int): int { if a <= b then a else b }

  /** Drop-oldest: a queue of at most 1025 records that receives more records
      holds exactly the last 1025 of all it has seen, in their original order. */
  lemma {:induction false} RetainAllKeepsNewest(items: seq<Record>, rs: seq<Record>)
    requires |items| <= MaxRetained
    ensures var all := items + rs;
      RetainAll(items, rs) == all[|all| - Min(|all|, MaxRetained)..]
    decreases |rs|
  {
    var all := items + rs;
    if rs == [] {
      assert all == items;
    } else {
      var next := Retain(items, rs[0]);
      var dropped := if |items| > EvictAbove then 1 else 0;
      assert next == items[dropped..] + [rs[0]];
      RetainAllKeepsNewest(next, rs[1..]);
      var all' := next + rs[1..];
      assert all' == all[dropped..];
      assert |all'| - Min(|all'|, MaxRetained) + dropped == |all| - Min(|all|, MaxRetained);
    }
  }

  /** From an empty queue: N pushes leave the last min(N, 1025) records. */
  lemma RetainFromEmpty(rs: seq<Record>)
    ensures RetainAll([], rs) == rs[|rs| - Min(|rs|, MaxRetained)..]
    ensures |RetainAll([], rs)| <= MaxRetained
  {
    RetainAllKeepsNewest([], rs);
    assert [] + rs == rs;
  }

  /** How many records from the head fit one after another in `room` bytes:
      the drain stops at the first record whose Size exceeds what is left. */
  function Deliverable(items: seq<Record>, room: nat): (k: nat)
    ensures k <= |items|
  {
    if items == [] || items[0].header.size > room then 0
    else 1 + Deliverable(items[1..], room - items[0].header.size)
  }

  /** The count is characterised without recursion: the delivered prefix fits,
      and the record after it does not fit in what remains. */
  lemma {:induction false} DeliverableSpec(items: seq<Record>, room: nat)
    ensures var k := Deliverable(items, room);
      && TotalSize(items[..k]) <= room
      && (k < |items| ==> TotalSize(items[..k]) + items[k].header.size > room)
  {
    if items != [] && items[0].header.size <= room {
      DeliverableSpec(items[1..], room - items[0].header.size);
      var k := Deliverable(items, room);
      assert items[..k][1..] == items[1..][..k - 1];
    }
  }

  /** No other prefix length has both properties: the drain delivers the
      longest whole-record prefix that fits, and nothing beyond it. */
  lemma {:induction false} DeliverableUnique(items: seq<Record>, room: nat, k: nat)
    requires k <= |items|
    requires TotalSize(items[..k]) <= room
    requires k < |items| ==> TotalSize(items[..k]) + items[k].header.size > room
    ensures k == Deliverable(items, room)
  {
    if k > 0 {
      assert items[..k][1..] == items[1..][..k - 1];
      if k - 1 < |items| - 1 {
        assert items[1..][k - 1] == items[k];
      }
      DeliverableUnique(items[1..], room - items[0].header.size, k - 1);
    } else if items != [] {
      assert items[..0] == [];
    }
  }

  predicate AllConsistent(rs: seq<Record>)
  {
    forall i :: 0 <= i < |rs| ==> Consistent(rs[i])
  }

  /** The loop state of a drain part-way through: the first k records of
      `all` have gone out into `buffer`, `room` bytes are left. */
  ghost predicate Draining(all: seq<Record>, k: nat, buffer: seq<byte>, room: nat, len: nat)
  {
    && k <= |all|
    && buffer == Stream(all[..k])
    && |buffer| == TotalSize(all[..k])
    && |buffer| + room == len
    && Deliverable(all, len) == k + Deliverable(all[k..], room)
  }

  /** One record more goes out, its image appended to the buffer: the drain
      state carries over. */
  lemma DrainStep(all: seq<Record>, k: nat, buffer: seq<byte>, room: nat, len: nat, image: seq<byte>)
    requires Draining(all, k, buffer, room, len)
    requires k < |all| && all[k].header.size <= room
    requires image == Encode(all[k]) && |image| == all[k].header.size
    ensures Draining(all, k + 1, buffer + image, room - all[k].header.size, len)
  {
    var item := all[k];
    assert all[..k + 1] == all[..k] + [item];
    StreamAppend(all[..k], item);
    TotalSizeAppend(all[..k], item);
    assert all[k..][1..] == all[k + 1..];
  }

  /** When the drain stops, the k records it delivered are exactly the prefix
      Deliverable counts. */
  lemma DrainStops(all: seq<Record>, k: nat, buffer: seq<byte>, room: nat, len: nat)
    requires Draining(all, k, buffer, room, len)
    requires k == |all| || all[k].header.size > room
    ensures Deliverable(all, len) == k
  {
    assert k < |all| ==> all[k..][0] == all[k];
  }

  lemma ConsistentSuffix(rs: seq<Record>, k: nat)
    requires AllConsistent(rs) && k <= |rs|
    ensures AllConsistent(rs[k..])
  {
    assert forall i :: 0 <= i < |rs| - k ==> rs[k..][i] == rs[k + i];
  }

  /** The copy loop of Read over the list as it stands when the lock is taken:
      take records from the head while the next one fits in what is left. */
  method CopyOut(all: seq<Record>, len: u32) returns (k: nat, count: u32, buffer: seq<byte>)
    requires AllConsistent(all)
    ensures k == Deliverable(all, len)
    ensures buffer == Stream(all[..k])
    ensures count == |buffer| == TotalSize(all[..k]) <= len
  {
    k, count, buffer := 0, 0, [];
    var room: nat := len;
    while k < |all| && all[k].header.size <= room
      invariant Draining(all, k, buffer, room, len) && count == |buffer|
      decreases |all| - k
    {
      var item := all[k];
      var image := Encode(item);
      assert Consistent(item);
      DrainStep(all, k, buffer, room, len, image);
      buffer := buffer + image;
      room := room - item.header.size;
      count := count + item.header.size;
      k := k + 1;
    }
    DrainStops(all, k, buffer, room, len);
  }

  class Queue {
    /** The records in list order, head first. */
    var items: seq<Record>
    /** Globals.ItemsCount, a USHORT. */
    var itemsCount: int

    ghost predicate Valid()
      reads this
    {
      && itemsCount == |items|
      && |items| <= MaxRetained
      && AllConsistent(items)
    }

    constructor ()
      ensures Valid() && items == []
    {
      items := [];
      itemsCount := 0;
    }

    /** PushItem: evict the head when the count exceeds 1024, then append. */
    method PushItem(r: Record)
      requires Valid() && Consistent(r)
      modifies this
      ensures Valid()
      ensures items == Retain(old(items), r)
      ensures old(itemsCount) > EvictAbove ==> items == old(items)[1..] + [r]
      ensures old(itemsCount) <= EvictAbove ==> items == old(items) + [r]
    {
      if itemsCount > EvictAbove {
        items := items[1..];
        itemsCount := itemsCount - 1;
      }
      items := items + [r];
      itemsCount := (itemsCount + 1) % 0x1_0000;
    }

    /** Read: copy whole records from the head, back to back, while each fits
        in what is left of the caller's `len` bytes; the record that does not
        fit goes back to the head untouched. `mapped` is false when the
        caller's buffer could not be mapped. */
    method Read(len: u32, mapped: bool) returns (status: int, count: u32, buffer: seq<byte>)
      requires Valid()
      modifies this
      ensures Valid()
      ensures !mapped ==> status == StatusInsufficientResources && count == 0 && buffer == []
                          && items == old(items)
      ensures mapped ==> status == StatusSuccess
      ensures mapped ==>
        var k := Deliverable(old(items), len);
        && items == old(items)[k..]
        && buffer == Stream(old(items)[..k])
        && count == |buffer| == TotalSize(old(items)[..k]) <= len
    {
      status, count, buffer := StatusSuccess, 0, [];
      if !mapped {
        status := StatusInsufficientResources;
        return;
      }
      var k;
      k, count, buffer := CopyOut(items, len);
      ConsistentSuffix(items, k);
      items, itemsCount := items[k..], itemsCount - k;
    }

    /** The drain at unload: remove and free every queued record. The count is
        left as it was; the source never resets it, and nothing reads it afterwards. */
    method DrainAll()
      requires Valid()
      modifies this
      ensures items == [] && itemsCount == old(itemsCount)
    {
      while items != []
        invariant itemsCount == old(itemsCount)
        decreases |items|
      {
        items := items[1..];
      }
    }
  }

  /** A delivered buffer read back by the consumer is exactly the records
      removed from the head of the queue, in queue order. */
  lemma DeliveredFramesAreRecords(items: seq<Record>, len: nat)
    requires AllConsistent(items)
    ensures var delivered := items[..Deliverable(items, len)];
      Frames(Stream(delivered)) == Some(Images(delivered))
  {
    var delivered := items[..Deliverable(items, len)];
    FramesOfStream(delivered);
  }
}
