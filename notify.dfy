/** The three kernel callbacks that build telemetry records: OnProcessNotify,
    OnThreadNotify and ImageLoadCallback. Each one fills a freshly allocated
    FullItem (the queue link followed by the record) field by field and hands
    it to PushItem, or gives up and queues nothing.

    Inputs the kernel supplies are parameters: the two timestamps, the ANSI
    strings the Unicode-to-ANSI conversion produced, whether each allocation
    and lookup succeeded, and the bytes of the pool block the callbacks
    allocate but never write.

    Both creation and image callbacks sum their allocation size in a USHORT.
    The callbacks below are the corrected ones: they give up when that sum
    would wrap, where the source allocates a block smaller than the record
    it then writes (ProcessCreateAllocationWraps, ImageLoadAllocationWraps). */
module Notify {
  import opened Wire
  import opened Records
  import opened Basename
  import opened EventQueue

  /** KeQuerySystemTimePrecise and its local-time conversion. */
  datatype Stamp = Stamp(systemTime: u64, localTime: u64)

  /** The bytes of the pool block that a callback allocates but never writes:
      the header's padding after Type, the struct's tail padding, and the byte
      after each copied basename. Pool memory is not zeroed, so these are
      whatever the block held before, and they reach the reader as they are. */
  datatype Unwritten = Unwritten(typePad: u16, tailPad: u32, first: byte, second: byte)

  /** The Unicode-to-ANSI conversion yields an ANSI_STRING whose Length is a
      USHORT and whose buffer also holds a terminating NUL: at most 0xFFFE
      bytes. On a double-byte code page each of the 0x7FFF UTF-16 units a
      UNICODE_STRING holds can become two bytes, so that bound is reachable. */
  const MaxAnsiLength: nat := 0xFFFE

  /** The largest allocation size the callbacks' USHORT `allocSize` holds. */
  const MaxAllocation: nat := 0xFFFF

  /** sizeof(FullItem<T>): the LIST_ENTRY link in front of the record. */
  const ProcessCreateItemSize: nat := ListEntrySize + ProcessCreateInfoSize
  const ImageLoadItemSize: nat := ListEntrySize + ImageLoadInfoSize

  /** The bytes each callback asks for, computed without truncation. */
  function ProcessCreateAllocation(n: nat): nat
  {
    ProcessCreateItemSize + n + 1
  }

  function ImageLoadAllocation(n: nat, d: nat): nat
  {
    ImageLoadItemSize + n + d + 2
  }

  /** The queue after an optional push. */
  function Enqueued(items: seq<Record>, r: Option<Record>): seq<Record>
  {
    if r.Some? then Retain(items, r.value) else items
  }

  // ---------------------------------------------------------------- processes

  /** The record OnProcessNotify queues for a process creation, given the
      converted command line: the basename goes right after the fixed struct,
      followed by one allocated byte that is never written. There is none when
      the command line has no basename, or when the allocation the record
      needs does not fit the USHORT the callback sizes it in. */
  function ProcessCreateRecord(pid: u32, ppid: u32, commandLine: seq<byte>, stamp: Stamp, junk: Unwritten)
    : (r: Option<Record>)
    requires |commandLine| <= MaxAnsiLength
    ensures r.Some? <==> Extract(commandLine).Some? && ProcessCreateAllocation(Extract(commandLine).value.len) <= MaxAllocation
  {
    match Extract(commandLine)
    case None => Option.None
    case Some(range) =>
      ExtractShape(commandLine);
      var n := range.len;
      if ProcessCreateAllocation(n) > MaxAllocation then Option.None
      else
        Some(Record(Header(ProcessCreate, junk.typePad, ProcessCreateInfoSize + n + 1, stamp.systemTime, stamp.localTime),
                    ProcessCreateFields(ppid, pid, n, ProcessCreateInfoSize, junk.tailPad),
                    Span(commandLine, range) + [junk.first]))
  }

  /** The record OnProcessNotify queues for a process exit. */
  function ProcessExitRecord(pid: u32, stamp: Stamp, junk: Unwritten): Record
  {
    Record(Header(ProcessExit, junk.typePad, ProcessExitInfoSize, stamp.systemTime, stamp.localTime),
           ProcessExitFields(pid, junk.tailPad), [])
  }

  /** What one OnProcessNotify call queues. `commandLine` is None when
      CreateInfo->CommandLine is null or its copy or conversion failed;
      `allocOk` says whether the FullItem allocation succeeded. */
  function ProcessNotifyRecord(pid: u32, ppid: u32, create: bool, commandLine: Option<seq<byte>>,
                               allocOk: bool, stamp: Stamp, junk: Unwritten): Option<Record>
    requires commandLine.Some? ==> |commandLine.value| <= MaxAnsiLength
  {
    if !create then
      if allocOk then Some(ProcessExitRecord(pid, stamp, junk)) else Option.None
    else if commandLine.None? || !allocOk then Option.None
    else ProcessCreateRecord(pid, ppid, commandLine.value, stamp, junk)
  }

  /** OnProcessNotify: build the record and push it; `allocSize` is the size
      of the FullItem it allocates for a creation. */
  method OnProcessNotify(q: Queue, pid: u32, ppid: u32, create: bool, commandLine: Option<seq<byte>>,
                         allocOk: bool, stamp: Stamp, junk: Unwritten)
    returns (allocSize: nat)
    requires q.Valid()
    requires commandLine.Some? ==> |commandLine.value| <= MaxAnsiLength
    modifies q
    ensures q.Valid()
    ensures var r := ProcessNotifyRecord(pid, ppid, create, commandLine, allocOk, stamp, junk);
      && q.items == Enqueued(old(q.items), r)
      && (r.Some? && create ==> allocSize == ListEntrySize + r.value.header.size <= MaxAllocation)
  {
    allocSize := ProcessCreateItemSize;
    if !create {
      if !allocOk {
        return;
      }
      var r := Record(Header(ProcessExit, junk.typePad, ProcessExitInfoSize, stamp.systemTime, stamp.localTime),
                      ProcessExitFields(pid, junk.tailPad), []);
      q.PushItem(r);
      return;
    }
    if commandLine.None? {
      return;
    }
    var found, index, len := FindDllExePos(commandLine);
    if !found {
      return;
    }
    allocSize := ProcessCreateAllocation(len);
    if allocSize > MaxAllocation || !allocOk {
      return;
    }
    ExtractShape(commandLine.value);
    var payload := commandLine.value[index..index + len];
    var r := Record(Header(ProcessCreate, junk.typePad, ProcessCreateInfoSize + len + 1, stamp.systemTime, stamp.localTime),
                    ProcessCreateFields(ppid, pid, len, ProcessCreateInfoSize, junk.tailPad),
                    payload + [junk.first]);
    assert ProcessCreateRecord(pid, ppid, commandLine.value, stamp, junk) == Some(r);
    q.PushItem(r);
  }

  /** A created process's record: its Size counts the struct, the basename and
      the unwritten byte after it; CommandLineOffset is sizeof(ProcessCreateInfo),
      CommandLineLength the basename's length, and a reader that takes those
      bytes at that offset gets exactly the basename of the command line. */
  lemma ProcessCreateLayout(pid: u32, ppid: u32, commandLine: seq<byte>, stamp: Stamp, junk: Unwritten)
    requires |commandLine| <= MaxAnsiLength
    requires ProcessCreateRecord(pid, ppid, commandLine, stamp, junk).Some?
    ensures var r := ProcessCreateRecord(pid, ppid, commandLine, stamp, junk).value;
      var n := Extract(commandLine).value.len;
      && Consistent(r)
      && r.header.itemType == ProcessCreate
      && r.header.size == ProcessCreateInfoSize + n + 1
      && r.fields == ProcessCreateFields(ppid, pid, n, ProcessCreateInfoSize, junk.tailPad)
      && Slice(Encode(r), r.fields.commandLineOffset, r.fields.commandLineLength) == BasenameOf(commandLine)
  {
    var r := ProcessCreateRecord(pid, ppid, commandLine, stamp, junk).value;
    ExtractShape(commandLine);
    var range := Extract(commandLine).value;
    TrailerSlice(r, 0, range.len);
    assert r.trailer[0..range.len] == Span(commandLine, range);
  }

  /** Nothing is queued for a creation whose command line is missing, has no
      basename or a basename too long for the USHORT allocation, or when the
      allocation fails; an exit is queued unless its allocation fails. */
  lemma ProcessNotifyOutcome(pid: u32, ppid: u32, create: bool, commandLine: Option<seq<byte>>,
                             allocOk: bool, stamp: Stamp, junk: Unwritten)
    requires commandLine.Some? ==> |commandLine.value| <= MaxAnsiLength
    ensures var r := ProcessNotifyRecord(pid, ppid, create, commandLine, allocOk, stamp, junk);
      && (r.Some? <==> allocOk && (!create || (commandLine.Some? && Extract(commandLine.value).Some?
                                               && ProcessCreateAllocation(Extract(commandLine.value).value.len) <= MaxAllocation)))
      && (r.Some? ==> Consistent(r.value))
      && (r.Some? && !create ==>
            r.value.header.itemType == ProcessExit && r.value.header.size == ProcessExitInfoSize
            && r.value.fields.ProcessExitFields? && r.value.fields.processId == pid)
  {
    if create && commandLine.Some? && allocOk && ProcessCreateRecord(pid, ppid, commandLine.value, stamp, junk).Some? {
      ProcessCreateLayout(pid, ppid, commandLine.value, stamp, junk);
    }
  }

  /** The callback sums its creation allocation size in a USHORT. */
  function ProcessCreateAllocationAsWritten(n: nat): u16
  {
    ProcessCreateAllocation(n) % 0x1_0000
  }

  /** A basename of 65479 bytes or more, which a command line converted on a
      double-byte code page can hold, wraps that USHORT: the block allocated
      is smaller than the FullItem link and struct alone, let alone the
      basename the callback then copies into it. */
  lemma ProcessCreateAllocationWraps(n: nat)
    requires MaxAllocation < ProcessCreateAllocation(n) && n <= MaxAnsiLength
    ensures ProcessCreateAllocationAsWritten(n) < ProcessCreateItemSize
    ensures ProcessCreateAllocationAsWritten(n) < ProcessCreateAllocation(n)
  {
  }

  /** Every creation record the corrected callback queues is sized without
      wrap-around: the USHORT sum equals the link plus the record's Size. */
  lemma ProcessCreateAllocationHoldsRecord(pid: u32, ppid: u32, commandLine: seq<byte>, stamp: Stamp, junk: Unwritten)
    requires |commandLine| <= MaxAnsiLength
    requires ProcessCreateRecord(pid, ppid, commandLine, stamp, junk).Some?
    ensures var r := ProcessCreateRecord(pid, ppid, commandLine, stamp, junk).value;
      ProcessCreateAllocationAsWritten(r.fields.commandLineLength) == ListEntrySize + r.header.size
  {
    ProcessCreateLayout(pid, ppid, commandLine, stamp, junk);
  }

  // ------------------------------------------------------------------ threads

  /** The record OnThreadNotify queues when its allocation succeeds. */
  function ThreadRecord(pid: u32, tid: u32, create: bool, stamp: Stamp, junk: Unwritten): Record
  {
    Record(Header(if create then ThreadCreate else ThreadExit, junk.typePad, ThreadCreateExitInfoSize,
                  stamp.systemTime, stamp.localTime),
           ThreadFields(pid, tid), [])
  }

  /** OnThreadNotify: build the record and push it. */
  method OnThreadNotify(q: Queue, pid: u32, tid: u32, create: bool, allocOk: bool, stamp: Stamp, junk: Unwritten)
    requires q.Valid()
    modifies q
    ensures q.Valid()
    ensures q.items == if allocOk then Retain(old(q.items), ThreadRecord(pid, tid, create, stamp, junk)) else old(q.items)
  {
    if !allocOk {
      return;
    }
    var kind := if create then ThreadCreate else ThreadExit;
    var r := Record(Header(kind, junk.typePad, ThreadCreateExitInfoSize, stamp.systemTime, stamp.localTime),
                    ThreadFields(pid, tid), []);
    q.PushItem(r);
  }

  /** A thread record carries no payload, its tag is ThreadCreate exactly when
      the thread was created, and the reader gets both ids back. */
  lemma ThreadRecordLayout(pid: u32, tid: u32, create: bool, stamp: Stamp, junk: Unwritten)
    ensures var r := ThreadRecord(pid, tid, create, stamp, junk);
      && Consistent(r)
      && |Encode(r)| == ThreadCreateExitInfoSize
      && (r.header.itemType == ThreadCreate <==> create)
      && (r.header.itemType == ThreadExit <==> !create)
      && Decode(Encode(r)) == Some(r)
  {
    DecodeEncode(ThreadRecord(pid, tid, create, stamp, junk));
  }

  // ------------------------------------------------------------------- images

  /** Which parts of ImageLoadCallback's preparation succeeded. `lookedUp`:
      the process lookup and its image-name query; `extended`: the kernel
      supplied IMAGE_INFO_EX; `imageName`/`dllName`: the converted names,
      None when the temporary buffer or a conversion failed. */
  datatype ImageSource = ImageSource(lookedUp: bool, extended: bool,
                                     imageName: Option<seq<byte>>, dllName: Option<seq<byte>>)

  predicate NamesFit(src: ImageSource)
  {
    && (src.imageName.Some? ==> |src.imageName.value| <= MaxAnsiLength)
    && (src.dllName.Some? ==> |src.dllName.value| <= MaxAnsiLength)
  }

  /** The record ImageLoadCallback queues for two extracted basenames: the
      image name, an unwritten byte, the DLL name, another unwritten byte.
      There is none when either name has no basename, or when the allocation
      the record needs does not fit the USHORT the callback sizes it in. */
  function ImageLoadRecord(pid: u32, name: seq<byte>, dll: seq<byte>, stamp: Stamp, junk: Unwritten)
    : (r: Option<Record>)
    requires |name| <= MaxAnsiLength && |dll| <= MaxAnsiLength
    ensures r.Some? <==> && Extract(name).Some? && Extract(dll).Some?
                         && ImageLoadAllocation(Extract(name).value.len, Extract(dll).value.len) <= MaxAllocation
  {
    if Extract(name).None? || Extract(dll).None? then Option.None
    else
      var nr := Extract(name).value;
      var dr := Extract(dll).value;
      ExtractShape(name);
      ExtractShape(dll);
      var n := nr.len;
      var d := dr.len;
      if ImageLoadAllocation(n, d) > MaxAllocation then Option.None
      else
        Some(Record(Header(ImageLoad, junk.typePad, ImageLoadInfoSize + n + d + 2, stamp.systemTime, stamp.localTime),
                    ImageLoadFields(pid, n, ImageLoadInfoSize, d, ImageLoadInfoSize + n + 1, junk.tailPad),
                    Span(name, nr) + [junk.first] + Span(dll, dr) + [junk.second]))
  }

  /** What one ImageLoadCallback call queues. */
  function ImageNotifyRecord(pid: u32, src: ImageSource, allocOk: bool, stamp: Stamp, junk: Unwritten): Option<Record>
    requires NamesFit(src)
  {
    if !src.lookedUp || !src.extended || src.imageName.None? || src.dllName.None? || !allocOk then Option.None
    else ImageLoadRecord(pid, src.imageName.value, src.dllName.value, stamp, junk)
  }

  /** ImageLoadCallback: build the record and push it; `allocSize` is the
      size of the FullItem it allocates. */
  method ImageLoadCallback(q: Queue, pid: u32, src: ImageSource, allocOk: bool, stamp: Stamp, junk: Unwritten)
    returns (allocSize: nat)
    requires q.Valid() && NamesFit(src)
    modifies q
    ensures q.Valid()
    ensures var r := ImageNotifyRecord(pid, src, allocOk, stamp, junk);
      && q.items == Enqueued(old(q.items), r)
      && (r.Some? ==> allocSize == ListEntrySize + r.value.header.size <= MaxAllocation)
  {
    allocSize := ImageLoadItemSize;
    if !src.lookedUp {
      return;
    }
    if !src.extended || src.imageName.None? || src.dllName.None? {
      // Without both names the sizes stay 0 and the null-buffer check gives up.
      return;
    }
    var nameFound, nameIndex, nameLen := FindDllExePos(src.imageName);
    var dllFound, dllIndex, dllLen := FindDllExePos(src.dllName);
    if !nameFound || !dllFound {
      return;
    }
    allocSize := ImageLoadAllocation(nameLen, dllLen);
    if allocSize > MaxAllocation || !allocOk {
      return;
    }
    ExtractShape(src.imageName.value);
    ExtractShape(src.dllName.value);
    var name := src.imageName.value[nameIndex..nameIndex + nameLen];
    var dll := src.dllName.value[dllIndex..dllIndex + dllLen];
    var r := Record(Header(ImageLoad, junk.typePad, ImageLoadInfoSize + nameLen + dllLen + 2, stamp.systemTime, stamp.localTime),
                    ImageLoadFields(pid, nameLen, ImageLoadInfoSize, dllLen, ImageLoadInfoSize + nameLen + 1, junk.tailPad),
                    name + [junk.first] + dll + [junk.second]);
    assert ImageLoadRecord(pid, src.imageName.value, src.dllName.value, stamp, junk) == Some(r);
    q.PushItem(r);
  }

  /** An image record: Size counts the struct, both basenames and the two
      unwritten bytes; the image name sits at sizeof(ImageLoadInfo) and the
      DLL name one byte after it ends; the two ranges are disjoint, lie inside
      Size, and a reader taking them gets the two basenames. */
  lemma ImageLoadLayout(pid: u32, name: seq<byte>, dll: seq<byte>, stamp: Stamp, junk: Unwritten)
    requires |name| <= MaxAnsiLength && |dll| <= MaxAnsiLength
    requires ImageLoadRecord(pid, name, dll, stamp, junk).Some?
    ensures var r := ImageLoadRecord(pid, name, dll, stamp, junk).value;
      var f := r.fields;
      && Consistent(r)
      && r.header.itemType == ImageLoad
      && r.header.size == ImageLoadInfoSize + f.imageNameLength + f.dllNameLength + 2
      && f.imageNameOffset == ImageLoadInfoSize
      && f.dllNameOffset == f.imageNameOffset + f.imageNameLength + 1
      && f.imageNameOffset + f.imageNameLength < f.dllNameOffset
      && f.dllNameOffset + f.dllNameLength < r.header.size
      && Slice(Encode(r), f.imageNameOffset, f.imageNameLength) == BasenameOf(name)
      && Slice(Encode(r), f.dllNameOffset, f.dllNameLength) == BasenameOf(dll)
  {
    var r := ImageLoadRecord(pid, name, dll, stamp, junk).value;
    ExtractShape(name);
    ExtractShape(dll);
    var nr, dr := Extract(name).value, Extract(dll).value;
    var n, d := nr.len, dr.len;
    var trailer := Span(name, nr) + [junk.first] + Span(dll, dr) + [junk.second];
    assert r == Record(Header(ImageLoad, junk.typePad, ImageLoadInfoSize + n + d + 2, stamp.systemTime, stamp.localTime),
                       ImageLoadFields(pid, n, ImageLoadInfoSize, d, ImageLoadInfoSize + n + 1, junk.tailPad),
                       trailer);
    assert |trailer| == n + d + 2;
    TrailerSlice(r, 0, n);
    TrailerSlice(r, n + 1, d);
    assert trailer[0..n] == Span(name, nr);
    assert trailer[n + 1..n + 1 + d] == Span(dll, dr);
  }

  /** Nothing is queued when the process lookup fails, without extended info,
      when either name is unavailable or has no basename, when the record
      would not fit the USHORT allocation, or when the allocation fails. */
  lemma ImageNotifyOutcome(pid: u32, src: ImageSource, allocOk: bool, stamp: Stamp, junk: Unwritten)
    requires NamesFit(src)
    ensures var r := ImageNotifyRecord(pid, src, allocOk, stamp, junk);
      && (r.Some? <==> src.lookedUp && src.extended && allocOk
                       && src.imageName.Some? && Extract(src.imageName.value).Some?
                       && src.dllName.Some? && Extract(src.dllName.value).Some?
                       && ImageLoadAllocation(Extract(src.imageName.value).value.len,
                                              Extract(src.dllName.value).value.len) <= MaxAllocation)
      && (r.Some? ==> Consistent(r.value))
  {
    if ImageNotifyRecord(pid, src, allocOk, stamp, junk).Some? {
      ImageLoadLayout(pid, src.imageName.value, src.dllName.value, stamp, junk);
    }
  }

  /** The callback sums its image allocation size in a USHORT. */
  function ImageLoadAllocationAsWritten(n: nat, d: nat): u16
  {
    ImageLoadAllocation(n, d) % 0x1_0000
  }

  /** Two basenames 65478 bytes long together wrap that USHORT: the block
      allocated is smaller than the record the callback writes into it. */
  lemma ImageLoadAllocationWraps(n: nat, d: nat)
    requires MaxAllocation < ImageLoadAllocation(n, d) && n <= MaxAnsiLength && d <= MaxAnsiLength
    ensures ImageLoadAllocationAsWritten(n, d) < ImageLoadAllocation(n, d)
  {
  }

  /** Every image record the corrected callback queues is sized without
      wrap-around: the USHORT sum equals the link plus the record's Size. */
  lemma ImageLoadAllocationHoldsRecord(pid: u32, name: seq<byte>, dll: seq<byte>, stamp: Stamp, junk: Unwritten)
    requires |name| <= MaxAnsiLength && |dll| <= MaxAnsiLength
    requires ImageLoadRecord(pid, name, dll, stamp, junk).Some?
    ensures var r := ImageLoadRecord(pid, name, dll, stamp, junk).value;
      ImageLoadAllocationAsWritten(r.fields.imageNameLength, r.fields.dllNameLength) == ListEntrySize + r.header.size
  {
    ImageLoadLayout(pid, name, dll, stamp, junk);
  }
}
