/** The telemetry record layouts: the ItemType tag, the common ItemHeader and
    the four fixed structs that follow it, their x64 memory image and the
    consumer-side reading of a record stream. */
module Records {
  import opened Wire

  /** The record tag, a `short`-backed enumeration. */
  datatype ItemType = None | ProcessCreate | ProcessExit | ThreadCreate | ThreadExit | ImageLoad

  function TypeCode(t: ItemType): (c: u16)
  {
    match t
    case None => 0
    case ProcessCreate => 1
    case ProcessExit => 2
    case ThreadCreate => 3
    case ThreadExit => 4
    case ImageLoad => 5
  }

  /** The tag a 16-bit code stands for, if any. */
  function TypeOfCode(c: int): (t: Option<ItemType>)
    ensures t.Some? <==> 0 <= c <= 5
    ensures t.Some? ==> TypeCode(t.value) == c
  {
    if c == 0 then Some(ItemType.None)
    else if c == 1 then Some(ProcessCreate)
    else if c == 2 then Some(ProcessExit)
    else if c == 3 then Some(ThreadCreate)
    else if c == 4 then Some(ThreadExit)
    else if c == 5 then Some(ImageLoad)
    else Option.None
  }

  /** Distinct tags have distinct codes, and every code names its tag back. */
  lemma TypeCodeRoundTrip(t: ItemType)
    ensures TypeOfCode(TypeCode(t)) == Some(t)
    ensures TypeCode(t) <= 5
  {
  }

  // sizeof of each struct on x64: ItemHeader is {short, pad 2, ULONG, LARGE_INTEGER, LARGE_INTEGER}.
  const HeaderSize: nat := 24
  const ProcessCreateInfoSize: nat := 40
  const ProcessExitInfoSize: nat := 32
  const ThreadCreateExitInfoSize: nat := 32
  const ImageLoadInfoSize: nat := 40
  /** sizeof(LIST_ENTRY): FullItem<T> is the queue link followed by the record. */
  const ListEntrySize: nat := 16

  /** ItemHeader: readable before the variant is known. `typePad` is the
      alignment padding between the 2-byte Type and the 4-byte Size: no
      callback writes it, so it holds whatever the pool block held. */
  datatype Header = Header(itemType: ItemType, typePad: u16, size: u32, systemTime: u64, localTime: u64)

  /** The fields each struct adds after the header. `tailPad` is the 4-byte
      alignment padding that rounds a struct up to a multiple of 8; like the
      header's, it is never written. */
  datatype Fields =
    | ProcessCreateFields(parentProcessId: u32, processId: u32, commandLineLength: u16, commandLineOffset: u16,
                          tailPad: u32)
    | ProcessExitFields(processId: u32, tailPad: u32)
    | ThreadFields(processId: u32, threadId: u32)
    | ImageLoadFields(processId: u32, imageNameLength: u16, imageNameOffset: u16,
                      dllNameLength: u16, dllNameOffset: u16, tailPad: u32)

  /** A record: header, fixed fields, and the bytes the record holds after its fixed struct. */
  datatype Record = Record(header: Header, fields: Fields, trailer: seq<byte>)

  function FixedSize(f: Fields): (n: nat)
    ensures n >= HeaderSize + 8
  {
    match f
    case ProcessCreateFields(_, _, _, _, _) => ProcessCreateInfoSize
    case ProcessExitFields(_, _) => ProcessExitInfoSize
    case ThreadFields(_, _) => ThreadCreateExitInfoSize
    case ImageLoadFields(_, _, _, _, _, _) => ImageLoadInfoSize
  }

  /** Which struct follows a header with this tag. */
  predicate TagMatches(t: ItemType, f: Fields)
  {
    match f
    case ProcessCreateFields(_, _, _, _, _) => t == ProcessCreate
    case ProcessExitFields(_, _) => t == ProcessExit
    case ThreadFields(_, _) => t == ThreadCreate || t == ThreadExit
    case ImageLoadFields(_, _, _, _, _, _) => t == ImageLoad
  }

  /** The header's Size is the record's total length and its tag names its struct. */
  predicate Consistent(r: Record)
  {
    && TagMatches(r.header.itemType, r.fields)
    && r.header.size == FixedSize(r.fields) + |r.trailer|
  }

  function HeaderImage(h: Header): (bs: seq<byte>)
    ensures |bs| == HeaderSize
  {
    U16(TypeCode(h.itemType)) + U16(h.typePad) + U32(h.size) + U64(h.systemTime) + U64(h.localTime)
  }

  /** The bytes of the fixed struct after the header, padding included. */
  function FieldsImage(f: Fields): (bs: seq<byte>)
    ensures |bs| == FixedSize(f) - HeaderSize
  {
    match f
    case ProcessCreateFields(ppid, pid, len, off, pad) =>
      U32(ppid) + (U32(pid) + (U16(len) + (U16(off) + U32(pad))))
    case ProcessExitFields(pid, pad) =>
      U32(pid) + U32(pad)
    case ThreadFields(pid, tid) =>
      U32(pid) + U32(tid)
    case ImageLoadFields(pid, nlen, noff, dlen, doff, pad) =>
      U32(pid) + (U16(nlen) + (U16(noff) + (U16(dlen) + (U16(doff) + U32(pad)))))
  }

  /** The Size bytes a reader receives for one record. */
  function Encode(r: Record): (bs: seq<byte>)
    ensures |bs| == FixedSize(r.fields) + |r.trailer|
    ensures Consistent(r) ==> |bs| == r.header.size
  {
    HeaderImage(r.header) + FieldsImage(r.fields) + r.trailer
  }

  /** The word at bytes [at, at + n) of a record image. */
  function WordAt(bs: seq<byte>, at: nat, n: nat): nat
    requires at + n <= |bs|
  {
    FromLE(bs[at..at + n])
  }

  /** How a consumer reads one record of Size bytes: the header first, then the struct its tag names. */
  function Decode(bs: seq<byte>): (r: Option<Record>)
    ensures r.Some? ==> Consistent(r.value)
  {
    if |bs| < HeaderSize then Option.None
    else
      var t := TypeOfCode(WordAt(bs, 0, 2));
      var size := WordAt(bs, 4, 4);
      var h := Header(if t.Some? then t.value else ItemType.None, WordAt(bs, 2, 2), size, WordAt(bs, 8, 8),
                      WordAt(bs, 16, 8));
      if t.None? || size != |bs| then Option.None
      else match t.value
        case ProcessCreate =>
          if |bs| < ProcessCreateInfoSize then Option.None
          else Some(Record(h, ProcessCreateFields(WordAt(bs, 24, 4), WordAt(bs, 28, 4), WordAt(bs, 32, 2),
                                                  WordAt(bs, 34, 2), WordAt(bs, 36, 4)), bs[ProcessCreateInfoSize..]))
        case ProcessExit =>
          if |bs| < ProcessExitInfoSize then Option.None
          else Some(Record(h, ProcessExitFields(WordAt(bs, 24, 4), WordAt(bs, 28, 4)), bs[ProcessExitInfoSize..]))
        case ThreadCreate =>
          if |bs| < ThreadCreateExitInfoSize then Option.None
          else Some(Record(h, ThreadFields(WordAt(bs, 24, 4), WordAt(bs, 28, 4)), bs[ThreadCreateExitInfoSize..]))
        case ThreadExit =>
          if |bs| < ThreadCreateExitInfoSize then Option.None
          else Some(Record(h, ThreadFields(WordAt(bs, 24, 4), WordAt(bs, 28, 4)), bs[ThreadCreateExitInfoSize..]))
        case ImageLoad =>
          if |bs| < ImageLoadInfoSize then Option.None
          else Some(Record(h, ImageLoadFields(WordAt(bs, 24, 4), WordAt(bs, 28, 2), WordAt(bs, 30, 2),
                                              WordAt(bs, 32, 2), WordAt(bs, 34, 2), WordAt(bs, 36, 4)),
                           bs[ImageLoadInfoSize..]))
        case None => Option.None
  }

  /** Every field sits at its struct offset in the image. */
  lemma HeaderImageAt(r: Record)
    requires Consistent(r)
    ensures WordAt(Encode(r), 0, 2) == TypeCode(r.header.itemType)
    ensures WordAt(Encode(r), 2, 2) == r.header.typePad
    ensures WordAt(Encode(r), 4, 4) == r.header.size
    ensures WordAt(Encode(r), 8, 8) == r.header.systemTime
    ensures WordAt(Encode(r), 16, 8) == r.header.localTime
  {
    var h := r.header;
    var bs := Encode(r);
    assert bs[0..2] == U16(TypeCode(h.itemType));
    assert bs[2..4] == U16(h.typePad);
    assert bs[4..8] == U32(h.size);
    assert bs[8..16] == U64(h.systemTime);
    assert bs[16..24] == U64(h.localTime);
  }

  /** A record survives the trip through its memory image to the reader. */
  lemma DecodeEncode(r: Record)
    requires Consistent(r)
    ensures Decode(Encode(r)) == Some(r)
  {
    var bs := Encode(r);
    HeaderImageAt(r);
    TypeCodeRoundTrip(r.header.itemType);
    var fi := FieldsImage(r.fields);
    assert bs == HeaderImage(r.header) + fi + r.trailer;
    assert bs[HeaderSize..FixedSize(r.fields)] == fi;
    assert bs[FixedSize(r.fields)..] == r.trailer;
    FieldWordsAt(bs, r.fields);
  }

  /** Each field of the fixed struct reads back from its offset. */
  lemma FieldWordsAt(bs: seq<byte>, f: Fields)
    requires FixedSize(f) <= |bs| && bs[HeaderSize..FixedSize(f)] == FieldsImage(f)
    ensures match f
      case ProcessCreateFields(ppid, pid, len, off, pad) =>
        WordAt(bs, 24, 4) == ppid && WordAt(bs, 28, 4) == pid
        && WordAt(bs, 32, 2) == len && WordAt(bs, 34, 2) == off && WordAt(bs, 36, 4) == pad
      case ProcessExitFields(pid, pad) => WordAt(bs, 24, 4) == pid && WordAt(bs, 28, 4) == pad
      case ThreadFields(pid, tid) => WordAt(bs, 24, 4) == pid && WordAt(bs, 28, 4) == tid
      case ImageLoadFields(pid, nlen, noff, dlen, doff, pad) =>
        WordAt(bs, 24, 4) == pid && WordAt(bs, 28, 2) == nlen && WordAt(bs, 30, 2) == noff
        && WordAt(bs, 32, 2) == dlen && WordAt(bs, 34, 2) == doff && WordAt(bs, 36, 4) == pad
  {
    match f
    case ProcessCreateFields(ppid, pid, len, off, pad) =>
      Peel(bs, 24, U32(ppid), U32(pid) + (U16(len) + (U16(off) + U32(pad))));
      Peel(bs, 28, U32(pid), U16(len) + (U16(off) + U32(pad)));
      Peel(bs, 32, U16(len), U16(off) + U32(pad));
      Peel(bs, 34, U16(off), U32(pad));
    case ProcessExitFields(pid, pad) =>
      Peel(bs, 24, U32(pid), U32(pad));
    case ThreadFields(pid, tid) =>
      Peel(bs, 24, U32(pid), U32(tid));
    case ImageLoadFields(pid, nlen, noff, dlen, doff, pad) =>
      Peel(bs, 24, U32(pid), U16(nlen) + (U16(noff) + (U16(dlen) + (U16(doff) + U32(pad)))));
      Peel(bs, 28, U16(nlen), U16(noff) + (U16(dlen) + (U16(doff) + U32(pad))));
      Peel(bs, 30, U16(noff), U16(dlen) + (U16(doff) + U32(pad)));
      Peel(bs, 32, U16(dlen), U16(doff) + U32(pad));
      Peel(bs, 34, U16(doff), U32(pad));
  }

  /** A run of bytes that is x followed by y: x is at its start and y right after. */
  lemma Peel(bs: seq<byte>, at: nat, x: seq<byte>, y: seq<byte>)
    requires at + |x| + |y| <= |bs| && bs[at..at + |x| + |y|] == x + y
    ensures bs[at..at + |x|] == x && bs[at + |x|..at + |x| + |y|] == y
  {
    assert bs[at..at + |x|] == (x + y)[..|x|];
    assert bs[at + |x|..at + |x| + |y|] == (x + y)[|x|..];
  }

  /** The bytes [off, off + len) of a record, only when they lie inside it. */
  function Slice(bs: seq<byte>, off: nat, len: nat): (v: Option<seq<byte>>)
    ensures v.Some? <==> off + len <= |bs|
    ensures v.Some? ==> |v.value| == len && forall i :: 0 <= i < len ==> v.value[i] == bs[off + i]
  {
    if off + len <= |bs| then Some(bs[off..off + len]) else Option.None
  }

  /** A (length, offset) pair that points into the trailer reads back the trailer's bytes. */
  lemma TrailerSlice(r: Record, k: nat, n: nat)
    requires k + n <= |r.trailer|
    ensures Slice(Encode(r), FixedSize(r.fields) + k, n) == Some(r.trailer[k..k + n])
  {
    var fixed := HeaderImage(r.header) + FieldsImage(r.fields);
    var bs := fixed + r.trailer;
    assert Encode(r) == bs;
    assert |fixed| == FixedSize(r.fields);
    assert bs[|fixed| + k..|fixed| + k + n] == r.trailer[k..k + n];
  }

  /** The consumer's walk over a delivered buffer: read Size from the head's
      header, take that many bytes as one record, continue after it. The walk
      refuses a Size that cannot hold a header or runs past the end. */
  function Frames(bs: seq<byte>): (fs: Option<seq<seq<byte>>>)
    decreases |bs|
  {
    if bs == [] then Some([])
    else if |bs| < HeaderSize then Option.None
    else
      var size := WordAt(bs, 4, 4);
      if size < HeaderSize || size > |bs| then Option.None
      else
        var rest := Frames(bs[size..]);
        if rest.None? then Option.None else Some([bs[..size]] + rest.value)
  }

  /** The images of a list of records, in order. */
  function Images(rs: seq<Record>): (ims: seq<seq<byte>>)
    ensures |ims| == |rs|
  {
    if rs == [] then [] else [Encode(rs[0])] + Images(rs[1..])
  }

  /** Records copied back to back into one buffer. */
  function Stream(rs: seq<Record>): seq<byte>
  {
    if rs == [] then [] else Encode(rs[0]) + Stream(rs[1..])
  }

  lemma {:induction false} StreamAppend(rs: seq<Record>, r: Record)
    ensures Stream(rs + [r]) == Stream(rs) + Encode(r)
  {
    if rs == [] {
      assert [r][1..] == [];
    } else {
      assert (rs + [r])[1..] == rs[1..] + [r];
      StreamAppend(rs[1..], r);
    }
  }

  /** The sum of the Size fields of a list of records. */
  function TotalSize(rs: seq<Record>): nat
  {
    if rs == [] then 0 else rs[0].header.size + TotalSize(rs[1..])
  }

  lemma {:induction false} TotalSizeAppend(rs: seq<Record>, r: Record)
    ensures TotalSize(rs + [r]) == TotalSize(rs) + r.header.size
  {
    if rs == [] {
      assert [r][1..] == [];
    } else {
      assert (rs + [r])[1..] == rs[1..] + [r];
      TotalSizeAppend(rs[1..], r);
    }
  }

  /** Records copied back to back are split by the consumer into exactly those
      records, in order: the Size field alone frames the stream. */
  lemma {:induction false} FramesOfStream(rs: seq<Record>)
    requires forall i :: 0 <= i < |rs| ==> Consistent(rs[i])
    ensures Frames(Stream(rs)) == Some(Images(rs))
  {
    if rs != [] {
      var head := Encode(rs[0]);
      var bs := Stream(rs);
      HeaderImageAt(rs[0]);
      assert bs[4..8] == head[4..8];
      assert WordAt(bs, 4, 4) == |head|;
      assert bs[|head|..] == Stream(rs[1..]);
      assert bs[..|head|] == head;
      FramesOfStream(rs[1..]);
    }
  }
}
