# Kernel: telemetry driver, process registry and kernel containers, in Dafny

This project models the core of the `Kernel` repository, a set of Windows
kernel drivers and the containers they are built from.

- **Telemetry driver** (`ProcessThreadAndImageNotifyRoutines`):
  - Three kernel callbacks turn process, thread and image-load
    notifications into byte records. They share a common `ItemHeader`.
  - `FindDllExePos` extracts the basename of a command line or an image
    path.
  - `PushItem` keeps the newest 1025 records in a list.
  - The `Read` dispatch routine drains whole records into the caller's
    buffer.
  - `DriverEntry` and `UnloadDriver` acquire and release the device, the
    symbolic link and the three hooks in a fixed order.
- **Process registry** (`EnumerateAllProcesses`):
  - The driver keeps one `ProcessInfo` entry (30 PID slots, a name, a live
    count) per watched executable name.
  - It adds and removes PIDs from the process-notify routine.
  - It keeps a list of watched names for `IO_ADD_PROCESS` and
    `IO_REMOVE_PROCESS`.
  - It hides and reports entries through `IO_HIDE_PROCESS` and
    `IO_ACTIVE_PROCESSES`.
- **Containers**:
  - the growable array of `vector/vector.h`;
  - its guarded variant `vector/vector2.0.h`;
  - the one-page arrays of `CustomFuncs/Vector.h` and
    `CustomFuncs/Vector2.0.h`, the latter with its table of owned pool
    blocks;
  - the allocation tracker of `CustomFuncs/Alloc.h`.

Modules, one per file:

- `Wire`: bytes and little-endian words.
- `Records`: the record layouts of `common.h`, their encoding, and the
  consumer's decoding.
- `Basename`: `FindDllExePos`.
- `EventQueue`: `PushItem`, `Read` and the unload drain.
- `Notify`: the three callbacks.
- `Lifecycle`: `DriverEntry` and `UnloadDriver`.
- `ProcessRegistry`: `EnumerateAllProcesses/main.cpp`.
- `Growth`: the reserve policy shared by both growable arrays.
- `GrowableVector`, `GuardedVector`, `PageVector` and `TrackedVector`: the
  four arrays.
- `AllocTracker`: `Alloc.h`.
- `Slots`: machine-word slot helpers shared by the containers.

Modelling choices:

- The containers are classes over `array<int>`. An element is one machine
  word, and 0 stands for both `T{0}` and `NULL`. `isPointer` plays
  `is_pointer<T>::value`.
- Every pool or non-cached allocation is an outcome the caller supplies.
- Every `ExFreePool` of an element, a name or an entry is appended to a
  `released` sequence, so the order of the frees is part of each contract.
- Kernel inputs are parameters: timestamps, converted ANSI strings, PIDs,
  NTSTATUS values and the EPROCESS image name.
- Pool memory is not zeroed. The bytes a callback allocates but never
  writes are parameters (`Notify.Unwritten`): the header's padding after
  Type, each struct's tail padding, and the byte after each copied basename.
  Records carry them, and `Read` hands them to the reader as they are.

## Model

| member | source | states |
|---|---|---|
| Wire.LE | ProcessThreadAndImageNotifyRoutines/common.h:21-27 | an n-byte little-endian word is n bytes long |
| Wire.FromLE | ProcessThreadAndImageNotifyRoutines/user_main.cpp:70-77 | the value read from n bytes is below 256^n |
| Wire.FromLEOfLE | ProcessThreadAndImageNotifyRoutines/common.h:21-27 | reading back a little-endian word that was written gives the word |
| Wire.LEOfFromLE | ProcessThreadAndImageNotifyRoutines/common.h:21-27 | writing back a word that was read gives the bytes (the encoding is onto) |
| Wire.U16 | ProcessThreadAndImageNotifyRoutines/common.h:33-34 | a USHORT field is two bytes that read back as the value |
| Wire.U32 | ProcessThreadAndImageNotifyRoutines/common.h:24 | a ULONG field is four bytes that read back as the value |
| Wire.U64 | ProcessThreadAndImageNotifyRoutines/common.h:25-26 | a LARGE_INTEGER field is eight bytes that read back as the value |
| Records.TypeOfCode | ProcessThreadAndImageNotifyRoutines/common.h:11-19 | exactly the codes 0..5 name an ItemType, and the tag found encodes back to the code |
| Records.TypeCodeRoundTrip | ProcessThreadAndImageNotifyRoutines/common.h:11-19 | every ItemType's `short` code is at most 5 and decodes back to the tag |
| Records.FixedSize | ProcessThreadAndImageNotifyRoutines/common.h:29-55 | every record struct is at least the 24-byte header plus one 8-byte field group |
| Records.HeaderImage | ProcessThreadAndImageNotifyRoutines/common.h:21-27 | the ItemHeader image is 24 bytes: Type, the two padding bytes as the pool left them, Size, SystemTime, LocalTime |
| Records.FieldsImage | ProcessThreadAndImageNotifyRoutines/common.h:29-55 | the struct's fields after the header fill exactly the struct's size less the header |
| Records.Encode | ProcessThreadAndImageNotifyRoutines/common.h:21-55 | a consistent record's image is exactly its header's Size bytes |
| Records.Decode | ProcessThreadAndImageNotifyRoutines/user_main.cpp:69-126 | whatever the consumer decodes is a consistent record: Size covers its struct and its tag names that struct |
| Records.HeaderImageAt | ProcessThreadAndImageNotifyRoutines/common.h:21-27 | Type, the padding, Size, SystemTime and LocalTime sit at offsets 0, 2, 4, 8 and 16 of the image |
| Records.DecodeEncode | ProcessThreadAndImageNotifyRoutines/user_main.cpp:69-126 | every consistent record survives encoding and the consumer's decoding unchanged |
| Records.FieldWordsAt | ProcessThreadAndImageNotifyRoutines/common.h:29-55 | each struct field, tail padding included, reads back from its x64 offset |
| Records.Peel | ProcessThreadAndImageNotifyRoutines/common.h:21-55 | in an image made of two parts, each part is found at its offset |
| Records.Slice | ProcessThreadAndImageNotifyRoutines/user_main.cpp:76-77 | a (offset, length) pair yields bytes only when it lies inside the record, and then exactly those bytes |
| Records.TrailerSlice | ProcessThreadAndImageNotifyRoutines/user_main.cpp:115-117 | an (offset, length) pair into the trailer reads back the trailer's bytes |
| Records.Images | ProcessThreadAndImageNotifyRoutines/main.cpp:166 | one image per record, in order |
| Records.StreamAppend | ProcessThreadAndImageNotifyRoutines/main.cpp:166-169 | copying one more record appends its image to the buffer |
| Records.TotalSizeAppend | ProcessThreadAndImageNotifyRoutines/main.cpp:167-169 | the byte count grows by the appended record's Size |
| Records.FramesOfStream | ProcessThreadAndImageNotifyRoutines/user_main.cpp:67-130 | a buffer of records copied back to back is split by the consumer's `buffer += Size` walk into exactly those records' images |
| Basename.SeparatorBefore | ProcessThreadAndImageNotifyRoutines/main.cpp:408-415 | the walk back finds the nearest preceding '\\' or reports that there is none |
| Basename.FindDllExePos | ProcessThreadAndImageNotifyRoutines/main.cpp:395-420 | true exactly for a non-null string with an accepted suffix; the range returned is the extraction's |
| Basename.ScanShape | ProcessThreadAndImageNotifyRoutines/main.cpp:406-414 | the range found ends at the end of the ".dll"/".exe" suffix and starts right after a '\\' |
| Basename.ExtractShape | ProcessThreadAndImageNotifyRoutines/main.cpp:406-414 | the extracted range lies in the string, follows a '\\', holds no '\\', and ends with the 4-byte suffix |
| Basename.ScanFirst | ProcessThreadAndImageNotifyRoutines/main.cpp:399-417 | the scan succeeds exactly when an accepted suffix exists, and returns the leftmost one |
| Basename.ExtractFirst | ProcessThreadAndImageNotifyRoutines/main.cpp:399-417 | the extraction succeeds exactly when some suffix has a '\\' before it, and picks the leftmost |
| Basename.BasenameOf | ProcessThreadAndImageNotifyRoutines/main.cpp:395-420 | a basename exists exactly when the extraction succeeds |
| Basename.TwoSuffixesYieldFirst | ProcessThreadAndImageNotifyRoutines/main.cpp:399-417 | `C:\a.dll.exe` yields the range of `a.dll` |
| Basename.BareNameIsRejected | ProcessThreadAndImageNotifyRoutines/main.cpp:408-419 | a suffix with no '\\' before it is skipped and the call fails |
| EventQueue.RetainAllKeepsNewest | ProcessThreadAndImageNotifyRoutines/main.cpp:382-393 | pushes into a queue of at most 1025 records keep exactly the newest 1025 of old and new together, in order |
| EventQueue.RetainFromEmpty | ProcessThreadAndImageNotifyRoutines/main.cpp:382-393 | N pushes into an empty queue leave the last min(N, 1025) records |
| EventQueue.Deliverable | ProcessThreadAndImageNotifyRoutines/main.cpp:150-171 | the drain never delivers more records than are queued |
| EventQueue.DeliverableSpec | ProcessThreadAndImageNotifyRoutines/main.cpp:150-171 | the delivered prefix fits the caller's length, and the next record (if any) does not fit what is left |
| EventQueue.DeliverableUnique | ProcessThreadAndImageNotifyRoutines/main.cpp:150-171 | no other prefix length has both properties |
| EventQueue.DrainStep | ProcessThreadAndImageNotifyRoutines/main.cpp:155-170 | one more record that fits advances the loop state by its image and its Size |
| EventQueue.DrainStops | ProcessThreadAndImageNotifyRoutines/main.cpp:152-163 | the loop stops exactly after the deliverable prefix |
| EventQueue.ConsistentSuffix | ProcessThreadAndImageNotifyRoutines/main.cpp:155-170 | records left after a drain are still consistent |
| EventQueue.CopyOut | ProcessThreadAndImageNotifyRoutines/main.cpp:150-171 | the loop copies the deliverable prefix back to back, and the count is its total Size, within the length |
| EventQueue.Queue.constructor | ProcessThreadAndImageNotifyRoutines/data.h:28-33 | the list starts empty with a count of 0 |
| EventQueue.Queue.PushItem | ProcessThreadAndImageNotifyRoutines/main.cpp:382-393 | over 1024 records the head is evicted before the append, otherwise only the append; the count stays the list length |
| EventQueue.Queue.Read | ProcessThreadAndImageNotifyRoutines/main.cpp:136-175 | an unmapped buffer gives STATUS_INSUFFICIENT_RESOURCES and no change; otherwise the deliverable prefix leaves the head, the buffer is its records back to back, and the count (at most the length) is returned |
| EventQueue.Queue.DrainAll | ProcessThreadAndImageNotifyRoutines/main.cpp:98-102 | unloading empties the list and leaves the count as it was |
| EventQueue.DeliveredFramesAreRecords | ProcessThreadAndImageNotifyRoutines/main.cpp:136-175 | the consumer splits a delivered buffer into exactly the records removed from the head, in order |
| Notify.ProcessCreateRecord | ProcessThreadAndImageNotifyRoutines/main.cpp:181-239 | corrected: a creation record exists exactly when the command line has a basename and the link, struct, basename and trailing byte fit the USHORT allocation size |
| Notify.OnProcessNotify | ProcessThreadAndImageNotifyRoutines/main.cpp:177-260 | corrected: the queue is the old queue after pushing the record built for this notification, if any; a queued creation record was allocated exactly the link plus its Size, at most 0xFFFF |
| Notify.ProcessCreateLayout | ProcessThreadAndImageNotifyRoutines/main.cpp:220-236 | Size counts struct, basename and one unwritten byte; CommandLineOffset is sizeof(ProcessCreateInfo); the reader's slice is the basename |
| Notify.ProcessNotifyOutcome | ProcessThreadAndImageNotifyRoutines/main.cpp:179-259 | nothing is queued for a missing command line, no basename, a basename too long for the USHORT allocation, or a failed allocation; an exit record carries the PID and sizeof(ProcessExitInfo) |
| Notify.OnThreadNotify | ProcessThreadAndImageNotifyRoutines/main.cpp:262-281 | a thread record is pushed exactly when the allocation succeeds |
| Notify.ThreadRecordLayout | ProcessThreadAndImageNotifyRoutines/main.cpp:272-278 | the record is consistent, sizeof(ThreadCreateExitInfo) long, tagged ThreadCreate exactly on creation, and decodes back |
| Notify.ImageLoadRecord | ProcessThreadAndImageNotifyRoutines/main.cpp:333-374 | corrected: an image record exists exactly when both names have a basename and the record with its link fits the USHORT allocation size |
| Notify.ImageLoadCallback | ProcessThreadAndImageNotifyRoutines/main.cpp:283-380 | corrected: the queue receives the record built, and a queued record was allocated exactly the link plus its Size, at most 0xFFFF |
| Notify.ImageLoadLayout | ProcessThreadAndImageNotifyRoutines/main.cpp:355-374 | Size counts struct, both basenames and two unwritten bytes; the two name ranges are disjoint, inside Size, and read back as the basenames |
| Notify.ImageNotifyOutcome | ProcessThreadAndImageNotifyRoutines/main.cpp:295-367 | nothing is queued when the lookup fails, without extended info, without either name or basename, when the record does not fit the USHORT allocation, or when the allocation fails |
| Notify.ImageLoadAllocationWraps | ProcessThreadAndImageNotifyRoutines/main.cpp:286-343 | whenever the link and record need more than 0xFFFF bytes, the USHORT sum allocates fewer bytes than they need (54 for two 32766-byte basenames) |
| Notify.ImageLoadAllocationHoldsRecord | ProcessThreadAndImageNotifyRoutines/main.cpp:343-360 | for every record the corrected callback queues, the USHORT sum does not wrap: it is exactly the link plus the record's Size |
| Notify.ProcessCreateAllocationWraps | ProcessThreadAndImageNotifyRoutines/main.cpp:181-209 | a basename of 65479 bytes or more wraps the USHORT sum below the 56-byte FullItem alone, let alone the record |
| Notify.ProcessCreateAllocationHoldsRecord | ProcessThreadAndImageNotifyRoutines/main.cpp:181-226 | for every creation record the corrected callback queues, the USHORT sum does not wrap: it is exactly the link plus the record's Size |
| Lifecycle.Completed | ProcessThreadAndImageNotifyRoutines/main.cpp:20-64 | the steps before the first failing status succeed, and the one at the count fails |
| Lifecycle.ReadStatusesClassified | ProcessThreadAndImageNotifyRoutines/main.cpp:140-146 | NT_SUCCESS holds for STATUS_SUCCESS and fails for STATUS_INSUFFICIENT_RESOURCES, a negative 32-bit NTSTATUS |
| Lifecycle.ReleaseAll | ProcessThreadAndImageNotifyRoutines/main.cpp:66-77 | releases come in reverse acquisition order, one per resource |
| Lifecycle.AcquireAll | ProcessThreadAndImageNotifyRoutines/main.cpp:20-64 | acquisitions come in order, one per resource |
| Lifecycle.ReplayStep | ProcessThreadAndImageNotifyRoutines/main.cpp:20-77 | replaying a log step by step is replaying its prefix then applying the last step |
| Lifecycle.Driver.constructor | ProcessThreadAndImageNotifyRoutines/main.cpp:11-19 | nothing held, nothing logged, not loaded, an empty queue |
| Lifecycle.Driver.DriverEntry | ProcessThreadAndImageNotifyRoutines/main.cpp:11-86 | the first failing status is returned after the steps before it are released newest first; all succeeding leaves device, link and hooks held and the driver loaded |
| Lifecycle.Driver.SetUp | ProcessThreadAndImageNotifyRoutines/main.cpp:20-64 | the setup calls run in order and stop at the first failure, holding what succeeded |
| Lifecycle.Driver.Give | ProcessThreadAndImageNotifyRoutines/main.cpp:68-75 | a release returns the most recently acquired resource and logs it |
| Lifecycle.Driver.Unwind | ProcessThreadAndImageNotifyRoutines/main.cpp:66-77 | the failure path releases everything held, newest first |
| Lifecycle.Driver.UnloadDriver | ProcessThreadAndImageNotifyRoutines/main.cpp:90-105 | thread, process and image hooks, then link and device, are released before the queue is drained to empty |
| Lifecycle.ReplayAcquireAll | ProcessThreadAndImageNotifyRoutines/main.cpp:20-64 | a log of acquisitions holds exactly what it acquired, in order |
| Lifecycle.AcquireAllAppend | ProcessThreadAndImageNotifyRoutines/main.cpp:20-64 | acquiring one more resource appends one step |
| ProcessRegistry.FirstContaining | EnumerateAllProcesses/main.cpp:117-125 | -1 exactly when no string contains the substring; otherwise the first index whose string contains it |
| ProcessRegistry.Live | EnumerateAllProcesses/common.h:13-15 | the number of live PID slots never exceeds the slot count |
| ProcessRegistry.LiveUpdate | EnumerateAllProcesses/main.cpp:476-477 | writing one slot changes the live count by what leaves and what arrives |
| ProcessRegistry.LiveFull | EnumerateAllProcesses/main.cpp:470-482 | slots with no free one are all live, so a count below 30 means a free slot exists |
| ProcessRegistry.LiveZeros | EnumerateAllProcesses/main.cpp:495 | zeroed slots hold no live PID |
| ProcessRegistry.ProcessInfo.constructor | EnumerateAllProcesses/main.cpp:486-498 | a new entry is zeroed with the name copied, the PID in slot 0 and a count of 1, and is well formed |
| ProcessRegistry.FindPid | EnumerateAllProcesses/main.cpp:426-434 | true exactly when one of the 30 slots holds the PID |
| ProcessRegistry.InsertPid | EnumerateAllProcesses/main.cpp:470-482 | an absent PID goes into the first free slot when the count is below 30 and the count rises by one, else nothing changes; the count stays the live-slot count, no PID is held twice, and afterwards the PID is held unless the entry is full |
| ProcessRegistry.RemovePid | EnumerateAllProcesses/main.cpp:436-452 | true exactly for a non-null entry with live PIDs that holds the PID; then its first slot is zeroed and the count drops by one, else nothing changes; a nonzero PID is no longer held afterwards |
| ProcessRegistry.NamesOf | EnumerateAllProcesses/main.cpp:417 | the list of the entries' names, one per entry |
| ProcessRegistry.ContainsSelf | EnumerateAllProcesses/main.cpp:466-499 | a name contains itself, so an entry created for a name is found by it |
| ProcessRegistry.Registry.constructor | EnumerateAllProcesses/main.cpp:11-13 | the registry starts with no names and no entries |
| ProcessRegistry.Registry.Found | EnumerateAllProcesses/main.cpp:117-125 | the lambda returns the first index whose string contains the substring, else -1 |
| ProcessRegistry.Registry.RetProcByName | EnumerateAllProcesses/main.cpp:412-424 | the first entry whose name contains the name, with its index, or null and -1 |
| ProcessRegistry.Registry.AddName | EnumerateAllProcesses/main.cpp:129-162 | the request succeeds exactly when no listed name contains the new one; the name is appended only then and only if the allocation succeeds; afterwards a successful allocation leaves the name findable |
| ProcessRegistry.Registry.RemoveName | EnumerateAllProcesses/main.cpp:164-193 | true exactly when some name contains it; the first such name is freed and swap-removed, and the other names are kept as a multiset |
| ProcessRegistry.Registry.OnProcessCreate | EnumerateAllProcesses/main.cpp:454-503 | the matching entry gets the PID as InsertPid does; with none, a fresh entry (name, PID in slot 0, count 1) is appended if the allocation succeeds; other entries are untouched and the registry stays well formed; with a successful allocation the PID is then tracked under a matching name unless that entry is full |
| ProcessRegistry.Registry.OnProcessExit | EnumerateAllProcesses/main.cpp:504-527 | an entry holding more than one PID loses this PID; an entry holding at most one is freed and swap-removed whatever PID it held; other entries are untouched and the registry stays well formed |
| ProcessRegistry.Registry.InsertPidAt | EnumerateAllProcesses/main.cpp:469-482 | InsertPid on one entry leaves every other entry's slots and count alone |
| ProcessRegistry.Registry.RemovePidAt | EnumerateAllProcesses/main.cpp:514-518 | RemovePid on one entry leaves every other entry's slots and count alone |
| ProcessRegistry.Registry.Apart | EnumerateAllProcesses/main.cpp:486-499 | distinct entries have distinct PID arrays (each entry is its own allocation) |
| ProcessRegistry.Registry.DropEntry | EnumerateAllProcesses/main.cpp:519-525 | the entry is freed and swap-removed; every other entry stays in the list |
| ProcessRegistry.Registry.HideProcess | EnumerateAllProcesses/main.cpp:296-335 | corrected scan: afterwards exactly the entries whose name does not contain the name remain, and exactly the others were freed |
| ProcessRegistry.SwapRemoveDisjoint | EnumerateAllProcesses/main.cpp:319-322 | swap-removing an entry keeps the entries disjoint, removes that entry and adds none |
| ProcessRegistry.HideScanAsWritten | EnumerateAllProcesses/main.cpp:304-325 | the scan as written only ever drops names |
| ProcessRegistry.HideScanSkipsMovedEntry | EnumerateAllProcesses/main.cpp:304-325 | with entries "pad.exe" and "notepad.exe", hiding "pad" leaves "notepad.exe" although it contains "pad" |
| ProcessRegistry.ReportedBytes | EnumerateAllProcesses/main.cpp:262-283 | the bytes reported never exceed the caller's buffer, are whole entries, and cover every entry unless the buffer has no room for one more |
| ProcessRegistry.NonZero | EnumerateAllProcesses/main.cpp:276-280 | the packed PIDs are exactly the live ones, as many as the live count |
| ProcessRegistry.CopyOut | EnumerateAllProcesses/main.cpp:274-281 | the name and count are copied and the live PIDs are packed to the front of the caller's slots in slot order; the slots past them are untouched |
| Slots.Zeros | vector/vector.h:165 | a zeroed buffer of n words |
| Slots.FreedStep | vector/vector.h:240-251 | popping one slot carries the freed-so-far plus still-to-free accounting |
| Slots.FreedMembers | vector/vector.h:240-251 | a pop-and-free loop over a range frees exactly its non-null words |
| Slots.FreedReversed | CustomFuncs/Vector2.0.h:197-201 | over a range without nulls every word is freed once, the last first |
| Slots.SwapRemove | CustomFuncs/Vector2.0.h:252-253 | the removal drops one slot, keeps every other slot, and moves the last entry into the hole |
| Slots.SwapRemoveMultiset | EnumerateAllProcesses/main.cpp:172-182 | exactly the removed entry leaves the multiset of entries |
| Slots.FirstIndex | CustomFuncs/Vector2.0.h:248-251 | the first index holding p |
| Slots.SwapRemoveDistinct | CustomFuncs/Alloc.h:152-158 | a table without duplicates has none after a swap removal |
| Slots.SwapRemoveKeeps | CustomFuncs/Vector2.0.h:253 | every other entry survives a swap removal |
| Slots.DistinctWithin | CustomFuncs/Vector2.0.h:79-84 | a duplicate-free table whose entries are all elements is no longer than the elements |
| Growth.GrowthMakesRoom | vector/vector.h:138-143 | a reserve that succeeds always leaves room for the write |
| Growth.PushBackWritesPastBuffer | vector/vector.h:136-145 | as written, a full vector whose doubling fails is written one slot past its buffer |
| Growth.ResizeOutgrowsBuffer | vector/vector.h:192-197 | as written, a failed grow leaves the size above the capacity |
| GrowableVector.Vector.constructor | vector/vector.h:24-58 | no buffer, empty |
| GrowableVector.Vector.Sized | vector/vector.h:61-65 | an empty vector with the requested capacity if that allocation succeeds |
| GrowableVector.Vector.At | vector/vector.h:67-99 | the element for an index in range, except a null pointer slot's address; any other index gives the slot address |
| GrowableVector.Vector.Reserve | vector/vector.h:156-184 | a no-op for the current capacity, one below the size, or a failed allocation; otherwise a zeroed buffer of the new capacity that starts with the elements |
| GrowableVector.Vector.PushBack | vector/vector.h:135-145 | reserves 8 when empty and double when full; appends the value whenever there is room, always when the allocation succeeds |
| GrowableVector.Vector.PopBack | vector/vector.h:147-154 | drops the last element and zeroes its slot; no-op when empty |
| GrowableVector.Vector.Resize | vector/vector.h:186-211 | shrinking keeps a prefix, growing within capacity appends zeros, growing past it reserves and appends zeros if the reserve succeeds |
| GrowableVector.Vector.ShrinkTo | vector/vector.h:199-203 | pops down to the prefix of the new size |
| GrowableVector.Vector.GrowTo | vector/vector.h:205-209 | pushes zeros up to the new size |
| GrowableVector.Vector.ShrinkToFit | vector/vector.h:213-221 | a non-empty vector reserves exactly its size; the contents are unchanged |
| GrowableVector.Vector.Free | vector/vector.h:223-233 | the buffer is released; size and capacity are left as they were |
| GrowableVector.Vector.PoolPopBack | vector/vector.h:260-278 | for pointers, drops the last element and frees it when non-null; other types are left alone |
| GrowableVector.Vector.PoolFree | vector/vector.h:235-258 | for pointers, every non-null element is freed last to first and the vector emptied; the buffer is released |
| GrowableVector.Vector.FreeElements | vector/vector.h:240-251 | the pop-and-free loop frees the non-null elements last to first and empties the vector |
| GuardedVector.Vector.constructor | vector/vector2.0.h:42-48 | no buffer, no sentinel, empty |
| GuardedVector.Vector.At | vector/vector2.0.h:50-60 | the element slot in range, else the sentinel (null before the first reserve) |
| GuardedVector.Vector.Read | vector/vector2.0.h:85-106 | the element in range except a null pointer slot's address; out of range a pointer vector gives the slot address and others 0 |
| GuardedVector.Vector.Write | vector/vector2.0.h:108-126 | stores into an in-range slot unless it is a null pointer slot; otherwise nothing changes |
| GuardedVector.Vector.Reserve | vector/vector2.0.h:128-186 | the first growing call sets up the sentinel (a pointer one returns early when its block fails); then the buffer grows as in vector.h |
| GuardedVector.Vector.PushBack | vector/vector2.0.h:62-71 | reserves 8 or double, and appends whenever there is room |
| GuardedVector.Vector.PopBack | vector/vector2.0.h:73-83 | drops the last element and nulls its slot; no-op when empty |
| GuardedVector.Vector.Resize | vector/vector2.0.h:188-217 | as vector.h's resize, and shrinking frees each non-null pointer it pops, last first |
| GuardedVector.Vector.ShrinkTo | vector/vector2.0.h:201-209 | pops to the prefix, freeing the popped non-null pointers last first |
| GuardedVector.Vector.FreePointersDownTo | vector/vector2.0.h:203-208 | the pointer loop frees exactly the popped non-null elements, last first |
| GuardedVector.Vector.GrowTo | vector/vector2.0.h:211-216 | pushes zeros up to the new size |
| GuardedVector.Vector.ShrinkToFit | vector/vector2.0.h:219-227 | a non-empty vector reserves exactly its size |
| GuardedVector.Vector.Adjust | vector/vector2.0.h:263-270 | the elements after the index shift left over it; the size is unchanged, so the last element appears twice |
| PageVector.Vector.constructor | CustomFuncs/Vector.h:42-46 | no page, empty, room for PAGE_SIZE / sizeof(T) elements |
| PageVector.Vector.At | CustomFuncs/Vector.h:50-55 | the element at an in-range index |
| PageVector.Vector.Allocate | CustomFuncs/Vector.h:79-103 | a zeroed page exactly when the allocation succeeds |
| PageVector.Vector.PushBack | CustomFuncs/Vector.h:58-66 | allocates on first use and appends when the page has room; a push into a full page is dropped |
| PageVector.Vector.PopBack | CustomFuncs/Vector.h:69-76 | drops the last element and zeroes its slot; no-op when empty |
| PageVector.Vector.Free | CustomFuncs/Vector.h:106-115 | the page is released; size and allocated flag are left as they were |
| PageVector.PushesKeepPrefix | CustomFuncs/Vector.h:58-66 | n pushes into a fresh page keep the first PAGE_SIZE / sizeof(T) values |
| PageVector.KeptFrom | CustomFuncs/Vector.h:64-65 | pushing values into a page holding some keeps the longest prefix of both that fits |
| TrackedVector.Vector.constructor | CustomFuncs/Vector2.0.h:49-55 | no page, empty, no table, room for a page's worth of elements |
| TrackedVector.Vector.At | CustomFuncs/Vector2.0.h:58-68 | the element at an in-range index |
| TrackedVector.Vector.Find | CustomFuncs/Vector2.0.h:218-230 | true exactly when the table holds p |
| TrackedVector.Vector.Add | CustomFuncs/Vector2.0.h:232-240 | a non-null p is appended to the table when it has room; nothing else changes |
| TrackedVector.Vector.Remove | CustomFuncs/Vector2.0.h:242-258 | a non-null p in the table is freed and swap-removed from it; nothing else changes |
| TrackedVector.Vector.Position | CustomFuncs/Vector2.0.h:248-251 | the first table slot holding p, or the count when there is none |
| TrackedVector.Vector.TakeOut | CustomFuncs/Vector2.0.h:252-253 | the last table entry moves into the slot and the table shrinks by one |
| TrackedVector.Vector.Append | CustomFuncs/Vector2.0.h:84 | the value is appended; the table is untouched |
| TrackedVector.Vector.DropLast | CustomFuncs/Vector2.0.h:98-101 | the last element is dropped and its slot zeroed; the table is untouched |
| TrackedVector.Vector.MoveLastTo | CustomFuncs/Vector2.0.h:146 | the last element moves into the slot; the table is untouched |
| TrackedVector.Vector.Allocate | CustomFuncs/Vector2.0.h:105-134 | corrected: a zeroed page on success; a pointer vector gives half the page to the elements and puts the table above them |
| TrackedVector.Vector.PushBack | CustomFuncs/Vector2.0.h:71-86 | allocates on first use; with room the value is appended and a new non-null pointer is tracked; the table keeps owning distinct elements |
| TrackedVector.Vector.PopBack | CustomFuncs/Vector2.0.h:88-102 | drops the last element, freeing and untracking it when it is a tracked pointer |
| TrackedVector.Vector.PopOwned | CustomFuncs/Vector2.0.h:94-99 | for a pointer vector the last element is freed and untracked if the vector owns it, then dropped and its slot nulled |
| TrackedVector.Vector.FreeAt | CustomFuncs/Vector2.0.h:137-148 | for pointers and an in-range index, the element is freed if tracked and the last element moves into its slot |
| TrackedVector.Vector.FreeAll | CustomFuncs/Vector2.0.h:190-216 | every tracked block is freed, last table entry first; the vector is emptied and the page released |
| TrackedVector.Vector.ReleaseTable | CustomFuncs/Vector2.0.h:195-202 | the table's blocks are freed from the last entry to the first and the table emptied |
| TrackedVector.Vector.ZeroElements | CustomFuncs/Vector2.0.h:205-209 | the first `size` elements become 0, the rest of the buffer is untouched, and the size drops to 0 |
| TrackedVector.UntrackedAt | CustomFuncs/Vector2.0.h:249-256 | a non-null block found first at a slot is freed and swapped out of the table |
| TrackedVector.UntrackedAbsent | CustomFuncs/Vector2.0.h:244-258 | removing a null or untracked block changes nothing and frees nothing |
| TrackedVector.OwnsSize | CustomFuncs/Vector2.0.h:238 | the table never has more entries than the vector has elements |
| TrackedVector.OwnsPush | CustomFuncs/Vector2.0.h:79-84 | a pushed element keeps the ownership invariant, tracked or not |
| TrackedVector.OwnsDrop | CustomFuncs/Vector2.0.h:96-98 | dropping an element and untracking it keeps the invariant, and the block is no longer tracked |
| TrackedVector.ReallocationHalvesRoomAsWritten | CustomFuncs/Vector2.0.h:123-126 | as written, a pointer vector freed and allocated again has its room halved to 256 and then to 128 |
| AllocTracker.Tracker.constructor | CustomFuncs/Alloc.h:38-49 | no table, inactive, nothing tracked |
| AllocTracker.Tracker.Init | CustomFuncs/Alloc.h:60-97 | a no-op for the current capacity or one below the size; `_bytes` is set even when the allocation fails; on success a table of the new capacity keeps the entries |
| AllocTracker.Tracker.Alloc | CustomFuncs/Alloc.h:100-132 | grows the table (8 when empty, 8 more when full); the block is tracked and returned exactly when it is non-null and the tracker is active with room |
| AllocTracker.Tracker.Track | CustomFuncs/Alloc.h:119 | the block is appended to the entries |
| AllocTracker.Tracker.Free | CustomFuncs/Alloc.h:135-167 | true exactly for a non-null tracked p; it is freed, swap-removed and nulled; the table may shrink first, never below the entries |
| AllocTracker.Tracker.Shrink | CustomFuncs/Alloc.h:142-145 | the table shrinks to the target, keeping the entries |
| AllocTracker.Tracker.Position | CustomFuncs/Alloc.h:147-150 | the first slot holding p, or the size |
| AllocTracker.Tracker.Untrack | CustomFuncs/Alloc.h:152-158 | the last entry moves into the slot and the entries shrink by one |
| AllocTracker.Tracker.FreeAll | CustomFuncs/Alloc.h:170-191 | every entry is freed, last first; the table is released and capacity and bytes drop to 0 |
| AllocTracker.Tracker.Offset | CustomFuncs/Alloc.h:35-36 | the number of right shifts that take the value to 1 |
| AllocTracker.ShrinkKeepsEntries | CustomFuncs/Alloc.h:142-145 | shrinking never drops below the entries and keeps the capacity a multiple of 8 |
| AllocTracker.Pow2 | CustomFuncs/Alloc.h:35-36 | powers of two are positive |
| AllocTracker.Log2Bounds | CustomFuncs/Alloc.h:35-36 | offset returns the position of the highest set bit |
| AllocTracker.Log2OfPower | CustomFuncs/Alloc.h:103 | offset of a single-bit flag is that bit's index |
| AllocTracker.IrqlCeiling | CustomFuncs/Alloc.h:102-106 | APC_LEVEL when the POOL_FLAG_PAGED bit is set, DISPATCH_LEVEL otherwise |

## Left out

- Device and IRP plumbing is not modelled: IoCreateDevice, symbolic links, IrpComplete, CreateClose, the IoControl dispatch and MDL mapping. The `Read` routine's MDL mapping is only the `mapped` flag.
- Timestamps are parameters. So are the Unicode-to-ANSI conversions and the whole of `EnumerateAllProcesses/WString.h`: the callbacks receive the converted byte strings. A converted string is at most 0xFFFE bytes, the most an ANSI_STRING with its terminating NUL can hold.
- The mutexes and AutoLock are not modelled. Each operation is one critical section, so concurrency is not captured.
- FindProcess, HideByPid and the EPROCESS reads at fixed offsets are raw kernel memory. They are not modelled. HideProcess models the list removal of IO_HIDE_PROCESS only, not the unlinking of each PID from the OS process list. IO_UPDATE_PROCESS_LIST depends on FindProcess and is left out with it.
- The user-mode clients are not modelled. The record walk of `ProcessThreadAndImageNotifyRoutines/user_main.cpp` serves only as the reference decoder.
- Notify.OnProcessNotify and Notify.ImageLoadCallback model the corrected allocation: they queue nothing when the USHORT size would wrap. The source's undersized allocation and the writes past its end are stated by ProcessCreateAllocationWraps and ImageLoadAllocationWraps, not modelled as memory writes.
- Leaks on early-return paths are not modelled: freed strings and temporary buffers, and the record allocated but never pushed when the basename is empty. A callback that gives up simply queues nothing.
- ProcessRegistry.Registry.OnProcessCreate requires a nonzero PID and a name of at most 14 characters. The kernel guarantees both: a created process has a nonzero PID, and EPROCESS keeps a 15-byte NUL-terminated image name. Longer names and 15-byte names without a terminator are not modelled.
- ProcessRegistry.Registry.OnProcessExit requires a nonzero PID for the same reason. A PID of 0 would zero a free slot.
- The `found` lambda takes the name list by value. `vector/vector.h` defines no copy constructor, so the copy's destructor would pool-free the caller's strings and buffer. The `vector.h` that `EnumerateAllProcesses` builds against is not part of this model, so Registry.Found is modelled as a read-only search.
- The IO_ADD_PROCESS and IO_REMOVE_PROCESS cases fall through into the next case when an exception is raised. Structured exceptions are not modelled.
- The registry's names and entry lists are modelled as sequences, not as `vector<T>` instances. Their growth is the `GrowableVector` model's.
- AllocTracker.Tracker.Alloc requires that the pool does not hand out a block that is still tracked. The pool guarantees this for live blocks.
- AllocTracker: the IRQL ASSERTs are not enforced. IrqlCeiling states the ceiling but nothing checks the current IRQL.
- The two-argument `free(auto& p)` of `CustomFuncs/Vector2.0.h` is not modelled. It compares table slot `i` with element slot `i`, and no invariant of the model relates the two. So are `free()` of `vector/vector2.0.h`, which pops the last element rather than the one it frees, and its destructor-less teardown.
- TrackedVector.Vector.Remove appends the freed block to `released` before the table swap, while the source calls ExFreePool after it. The model records only the order of the frees, so the two agree.
- TrackedVector.Vector.ReleaseTable and FreeAll count down in a local and write `count` after the loop. The source decrements `_count` in place. The final state is the same.
- AllocTracker.Tracker.Init sets `bytes` even when the allocation fails, as the source does. Nothing else reads it.
- One allocation outcome stands for every allocation a vector call makes. A push that both grows and reallocates sees one outcome.

## Findings

| source | as written | input that shows it | evidently intended | confidence | as-written member | corrected member |
|---|---|---|---|---|---|---|
| vector/vector.h:136-145 | push_back writes `_elem[_size++]` after a reserve that may have failed | a full vector of n > 0 elements whose doubling allocation fails is written at slot n of an n-slot buffer | write only when the reserve left room | not executed | Growth.PushBackWritesPastBuffer | GrowableVector.Vector.PushBack |
| vector/vector.h:192-197 | resize sets `_size = newSize` after a reserve that may have failed | size 0, capacity 0, newSize 5, allocation fails: size 5 over a 0-slot buffer | set the size only when the reserve succeeded | not executed | Growth.ResizeOutgrowsBuffer | GrowableVector.Vector.Resize |
| vector/vector2.0.h:62-71 | push_back writes `_elem[_size++]` after a reserve that may have failed | as in the vector.h push_back row | write only when the reserve left room | not executed | Growth.PushBackWritesPastBuffer | GuardedVector.Vector.PushBack |
| vector/vector2.0.h:194-199 | resize sets `_size = newSize` after a reserve that may have failed | as in the vector.h resize row | set the size only when the reserve succeeded | not executed | Growth.ResizeOutgrowsBuffer | GuardedVector.Vector.Resize |
| ProcessThreadAndImageNotifyRoutines/main.cpp:181-209 | the creation allocation size is summed in a USHORT | a command line converted on a double-byte code page whose basename is 65480 bytes: 1 byte is allocated, and the 40-byte struct and the basename are written into it | refuse a record whose size does not fit the USHORT | not executed | Notify.ProcessCreateAllocationWraps | Notify.OnProcessNotify |
| ProcessThreadAndImageNotifyRoutines/main.cpp:286-343 | the image allocation size is summed in a USHORT | image and DLL basenames of 32766 bytes each: 54 bytes are allocated for a 65574-byte record | refuse a record whose size does not fit the USHORT | not executed; a basename lies inside one path component, so this needs components longer than NTFS allows | Notify.ImageLoadAllocationWraps | Notify.ImageLoadCallback |
| CustomFuncs/Vector2.0.h:125 | allocate halves `_maxSize` in place, and free_all never restores it | a `vector<T*>` allocated, freed with free_all and allocated again has room for 128 elements instead of 256 | give the elements half of a page's slots on every allocation | not executed | TrackedVector.ReallocationHalvesRoomAsWritten | TrackedVector.Vector.Allocate |
| EnumerateAllProcesses/main.cpp:304-325 | after swap-removing entry i the scan moves on to i + 1, so the entry moved into slot i is never examined | entries "pad.exe" then "notepad.exe", hide "pad": "notepad.exe" stays listed | examine slot i again after a removal | not executed | ProcessRegistry.HideScanSkipsMovedEntry | ProcessRegistry.Registry.HideProcess |
