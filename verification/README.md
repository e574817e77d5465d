# Panwrap, modelled and proved in Dafny

Panwrap is preloaded into a process that drives a Mali GPU. It overrides `open`, `close`, `ioctl`,
`mmap` and `munmap`, keeps its own picture of the driver's memory, and logs what the driver is asked
to do. One mutex guards the picture and the log, and the log's clock stands still while panwrap itself
is at work. This project models that state and proves what the code keeps on every input and every run.

* `Base.dfy` has 64-bit wrap-around arithmetic.
* `IntrusiveList.dfy` is the circular list as objects with `next` and `prev`, changed in place.
* `TrackerModel.dfy` is what the tracker stands for, two sequences; `Tracker.dfy` is the tracker on
  linked lists, proved to refine it.
* `Deref.dfy` is GPU address lookup and the checked dereference.
* `Script.dfy`, `Decoder.dfy` and `IoctlDecode.dfy` are the decode functions: the dereferences they
  make, how they end, and what they do to the indent.
* `FrozenClock.dfy` is the clock, in nanoseconds and as the source's timespecs.
* `Flags.dfy`, `HexText.dfy` and `Hexdump.dfy` are the printers, with parsers that read them back.
* `Interception.dfy` runs the overridden calls of any number of threads as interleaved steps over an
  abstract kernel; `InterceptionSafety.dfy` has the invariant and the theorems about all runs;
  `InterceptionHistory.dfy` says what becomes of each call over a history of steps: whether it is
  traced, what its critical section does, and what the application gets.

Five properties one might expect are false of the code. For each there is an input that shows it and a
lemma that says exactly when the property holds:

* A freeze while time is already frozen drops the frozen time before it, for any three moments
  (`NestedFreezeLosesTime`); the
  contract in the comment at `panwrap/panwrap-util.c:208-220` is kept exactly when this never happens
  at a later time (`ContractKeptIff`), and the wrappers never do it (`FreezesNeverNest`).
* An access wholly inside a mapping can abort, because the lookup also accepts the end address of a
  mapping (`BoundaryIsShadowed`, `InsideDerefSucceedsIff`).
* The pointer of a dereference is not `addr + (gpu_va - base)` in general (`TranslationMisses`,
  `TranslationExact`).
* The bounds check is not containment. Because its sum wraps, it lets through accesses that begin below
  an explicitly given mapping (`CheckPassesBelow`) and accesses of nearly 2^64 bytes
  (`WrappingSizePasses`); `SlipsThrough` describes all of them and `CheckExact` proves that there are no
  others. The decoder never makes such an access against an explicit mapping (`DecodePre`). But the size
  of an element buffer comes from GPU memory: one that wraps is let through, and floats behind the
  mapping are then read (`WrappingBufferEscapes`). A dereference without a mapping that goes through is
  contained exactly when its sum does not wrap (`NullDerefContained`, `BufferContainedIff`), and
  `FloatsInsideIff` says when every float read is inside.
* An attribute list that lies wholly in its mapping can abort, because each 8-byte entry is
  dereferenced with the 48 bytes of the tracker's own structure (`ShortListAborts`,
  `InBoundsListDecodesIff`).

Kernel assumptions of the step system: `mmap` succeeds and returns a range apart from every live one;
`munmap` removes no tracked mapping except one that starts at the address it is given (it may remove
that one, other untracked ones, or nothing). Log output is kept as far as a property needs it: the exact
characters for the printers, one entry per line for the step system.

## Model

| member | source | states |
|---|---|---|
| IntrusiveList.Link.ListInit | include/list.h:39-43 | the node is in no list: a ring of its own |
| IntrusiveList.ListAdd | include/list.h:45-58 | the entry becomes the first of a circle that is intact in both directions |
| IntrusiveList.ListDel | include/list.h:60-72 | the other nodes stay a ring in their order, the deleted node is a self-loop, and deleting it again changes nothing |
| IntrusiveList.ListIsEmpty | include/list.h:74-78 | true exactly for a list without entries |
| IntrusiveList.ForEachEntry | include/list.h:88-91 | terminates and visits each entry once, in list order |
| IntrusiveList.ForEachEntrySafe | include/list.h:93-97 | visits each entry once in order even when the body deletes current entries; exactly the deleted ones are gone, and they are self-loops |
| TrackerModel.Conservation | panwrap/panwrap-mmap.c:55-126 | on every trace, allocations tracked = pending + consumed and mappings made = live + unmapped, as multisets and as counts |
| TrackerModel.SameVaForLife | panwrap/panwrap-mmap.c:96-101 | on every trace, each tracked SAME_VA mapping has its CPU address as its GPU address |
| TrackerModel.MmapConsumesNewest | panwrap/panwrap-mmap.c:68-110 | an mmap consumes the newest pending allocation at its GPU address and puts one mapping in front, with its own length, address and protection, the allocation's flags, and the GPU address asked for unless the allocation is SAME_VA; it changes nothing when none is pending |
| TrackerModel.Provenance | panwrap/panwrap-mmap.c:68-110 | on every trace, each mapping comes from an mmap and an allocation tracked before it at the same GPU address, field by field |
| TrackerModel.MunmapDropsNewest | panwrap/panwrap-mmap.c:112-126 | a munmap takes out the newest mapping that starts at its address, and nothing else |
| TrackerModel.MapThenUnmap | panwrap/panwrap-mmap.c:68-126 | tracking, mapping and unmapping a fresh allocation restores the state, whatever was pending or mapped at the same addresses; in between the mapping is there with the fields it should have |
| Tracker.Lists.TrackAllocation | panwrap/panwrap-mmap.c:55-66 | the linked lists stay well formed and stand for the state with the allocation in front; the list of mappings is not touched |
| Tracker.Lists.TrackMmap | panwrap/panwrap-mmap.c:68-110 | the linked lists stay well formed and stand for the state of the abstract operation |
| Tracker.Lists.TrackMunmap | panwrap/panwrap-mmap.c:112-126 | the linked lists stay well formed; removes the newest mapping that starts at the address, or nothing; the wrapper does the same at panwrap/panwrap-syscall.c:979-992 |
| Tracker.Lists.FindMappedMem | panwrap/panwrap-mmap.c:128-138 | returns the first node whose mapping starts at the address, none before it does, or null when none does |
| Tracker.Lists.FindMappedMemContaining | panwrap/panwrap-mmap.c:140-150 | returns the first node whose closed CPU interval, with the end wrapping, holds the address, or null when none does |
| Tracker.Lists.FindMappedGpuMem | panwrap/panwrap-mmap.c:152-162 | returns the first node whose mapping has the GPU address, none before it does, or null when none does |
| Tracker.Lists.FindMappedGpuMemContaining | panwrap/panwrap-mmap.c:164-174 | returns the first node whose closed GPU interval, with the end wrapping, holds the address, or null when none does |
| Tracker.Replay | panwrap/panwrap-mmap.c:55-126 | any trace of calls on the linked lists ends in the state of the same abstract run |
| Deref.TranslationExact | panwrap/panwrap-mmap.h:75 | the pointer is addr + (gpu_va - base) exactly when 2*(base - addr) is 0 modulo 2^64 |
| Deref.TranslationMisses | panwrap/panwrap-mmap.h:75 | a mapping with different bases whose accesses are translated to elsewhere |
| Deref.CheckExact | panwrap/panwrap-mmap.h:71-72 | the check passes exactly the contained accesses and the ones of `SlipsThrough`, never both; so it means containment exactly for the accesses that are not among these, which include all that start in or above the mapping without wrapping |
| Deref.CheckPassesBelow | panwrap/panwrap-mmap.h:71-72 | an access that starts below its mapping and passes |
| Deref.NullDerefContained | panwrap/panwrap-mmap.h:64-76 | when a dereference without a mapping goes through, for every size; its bytes are all in the mapping found exactly when the sum of the check does not wrap |
| Deref.NullDerefSameVa | panwrap/panwrap-mmap.h:64-76 | on a SAME_VA mapping the pointer is the GPU address, and all bytes are in the CPU range exactly when the sum does not wrap |
| Deref.WrappingSizePasses | panwrap/panwrap-mmap.h:71-72 | an access of nearly 2^64 bytes that goes through in a mapping of one page |
| Deref.OwnerFoundIff | panwrap/panwrap-mmap.c:164-174 | over disjoint ranges the lookup finds the owner of an address unless a newer range ends exactly there, which then wins |
| Deref.InsideDerefSucceedsIff | panwrap/panwrap-mmap.h:64-76 | an access inside a mapping succeeds exactly when no newer mapping ends at its first byte |
| Deref.BoundaryIsShadowed | panwrap/panwrap-mmap.c:164-174 | two adjacent mappings in one order abort and in the other succeed |
| Decoder.DecodeAttributes | panwrap/panwrap-decoder.c:55-81 | how it ends for every memory contents, with a zero stride as a division by zero; what it dereferences; which floats are read, exactly when all of them lie in the mapping found, and that they do when the size does not wrap |
| Decoder.FloatsRead | panwrap/panwrap-decoder.c:65-79 | size / stride rows of stride / 4 floats; float i of any row is read at offset 4i, because no row advances the pointer |
| Decoder.BufferContainedIff | panwrap/panwrap-decoder.c:58-63 | an element buffer let through lies in the mapping found exactly when its size does not wrap, and then so does every float |
| Decoder.FloatsInsideIff | panwrap/panwrap-decoder.c:64-78 | all floats read lie in the mapping exactly when there is no row, no whole float in a row, or one row fits |
| Decoder.WrappingBufferEscapes | panwrap/panwrap-decoder.c:58-81 | a wrapping size: the decoding completes and a float behind the only mapping is read |
| Decoder.VisitWord | panwrap/panwrap-decoder.c:125-140 | one round of the attribute loop is a terminator, a decoded entry or a stop, each exactly on its condition |
| Decoder.AttributeList | panwrap/panwrap-decoder.c:122-141 | ends on all memory contents; completes exactly on decodable lists, having visited the entries before the first zero word once each in order |
| Decoder.InBoundsListDecodesIff | panwrap/panwrap-decoder.c:125-129 | a list inside its mapping is read to its end exactly when 40 more mapped bytes follow its last entry |
| Decoder.ShortListAborts | panwrap/panwrap-decoder.c:125-129 | a well-formed one-entry list that aborts |
| Decoder.DecodeVertexOrTilerJob | panwrap/panwrap-decoder.c:83-157 | completes exactly when payload, shader and attributes can be read; indent restored; explicit checks name a tracked mapping and decide containment |
| Decoder.TraceHwChain | panwrap/panwrap-decoder.c:159-207 | completes exactly when header and payload lie in the owner of the address and the payload decodes; stops only at a failing access or a stride of 0 just read; its accesses are those of `ChainAccessesAre`, and all of them if it completes |
| Decoder.ChainAccessesAre | panwrap/panwrap-decoder.c:83-207 | every access of a job chain by its position: header, payload by job type, shader and blob, and per list entry the word, the entry, its attribute and the elements |
| Decoder.ListAccessesAre | panwrap/panwrap-decoder.c:122-141 | every access of an attribute list by its position: four per entry, and only a word that is not zero has more than one |
| IoctlDecode.DecodeAtom | panwrap/panwrap-syscall.c:430-490 | indent restored; completes exactly when the atom's job chain decodes, with the accesses of that chain |
| IoctlDecode.DecodeJobSubmit | panwrap/panwrap-syscall.c:407-492 | indent restored for any number of atoms; completes exactly when every chain decodes or the stride is foreign; its accesses are those of the chains of all atoms in order |
| IoctlDecode.DecodeSync | panwrap/panwrap-syscall.c:352-388 | exactly which lines and indent changes: four lines when some mapping has the handle as its GPU address, five when none has, and a dump only towards the device |
| IoctlDecode.DecodePre | panwrap/panwrap-syscall.c:494-534 | for all arguments, mappings and memory the actions themselves keep the indent in bounds; the indent is back where it was, and every access succeeds, exactly when every job submitted decodes; it tracks nothing; explicit checks name a tracked mapping and decide containment |
| IoctlDecode.DecodeGpuProps | panwrap/panwrap-syscall.c:607-726 | indent restored |
| IoctlDecode.DecodePost | panwrap/panwrap-syscall.c:744-782 | balanced for all arguments and without anything that could end the process; MEM_ALLOC tracks its one allocation, with the flags cut to 32 bits, and all others none |
| ClockModel.Accounted | panwrap/panwrap-util.c:221-252 | on any history the frozen time accounted for never exceeds the time elapsed |
| ClockModel.ReadingsNeverDecrease | panwrap/panwrap-util.c:221-265 | on any history, nested freezes included, timestamps are never negative and never decrease |
| ClockModel.ReadingIsExactPlusLost | panwrap/panwrap-util.c:208-265 | the timestamp is the exact unfrozen time plus exactly what nested freezes dropped |
| ClockModel.ContractKeptIff | panwrap/panwrap-util.c:208-237 | all frozen time is removed from timestamps exactly when no freeze overwrites an earlier one at a later time |
| ClockModel.NestedFreezeLosesTime | panwrap/panwrap-util.c:221-237 | freezing at a, again at b and unfreezing at c leaves the time from a to b in the timestamp, for all moments |
| FrozenClock.Timespec.Add | panwrap/panwrap-util.c:173-183 | exact sum in nanoseconds, normalised, also when both are the same object |
| FrozenClock.Timespec.Subtract | panwrap/panwrap-util.c:185-195 | exact difference in nanoseconds, normalised |
| FrozenClock.Timekeeper.FreezeTime | panwrap/panwrap-util.c:221-237 | refines the freeze of the nanosecond clock; nothing when timestamps are off |
| FrozenClock.Timekeeper.UnfreezeTime | panwrap/panwrap-util.c:239-252 | refines the unfreeze of the nanosecond clock; nothing when off or not frozen |
| FrozenClock.Timekeeper.TimestampGet | panwrap/panwrap-util.c:254-265 | yields the timestamp of the nanosecond clock |
| Flags.LogDecodedFlags | panwrap/panwrap-util.c:37-67 | prints the characters of value, matched names and residual, with separators and parentheses only where they belong |
| Flags.TextReadsBack | panwrap/panwrap-util.c:37-67 | a strict parser recovers value, names and residual from the characters printed, for every table of names that are words |
| Flags.Conservation | panwrap/panwrap-util.c:45-59 | for every table and value, matched flags and residual share no bit and are the value, as bits and as a sum |
| Flags.DisjointTableMatchesExactly | panwrap/panwrap-util.c:45-59 | over a table of bit-disjoint flags exactly the contained flags are named |
| Flags.OrderDoesNotMatter | panwrap/panwrap-util.c:45-59 | two orders of a bit-disjoint table name the same flags and leave the same residual |
| Flags.JdReqResidual | panwrap/panwrap-syscall.c:134-153 | for every core_req that is no soft job the residual is the bits from 17 up |
| Hexdump.LogHexdump | panwrap/panwrap-util.c:69-111 | the loop over one reused column buffer prints the specified rows, which depend on the data alone |
| Hexdump.LogPadding | panwrap/panwrap-util.c:100-110 | a short last row gets blanks and dots, written before they are printed |
| Hexdump.DumpParses | panwrap/panwrap-util.c:69-111 | parsing a dump gives back the buffer |
| Hexdump.DumpRow | panwrap/panwrap-util.c:76-110 | a dump has one row for every 16 bytes begun, and row k shows bytes 16k to 16k + 15 |
| Hexdump.ColumnReads | panwrap/panwrap-util.c:80-110 | between the first and the last bar of row k stand 16 characters: the byte if it is printable and below 0xA0, and a dot if it is not or is not there |
| Hexdump.BytesShown | panwrap/panwrap-util.c:76-110 | where each byte stands in its row, as two lower-case digits behind a space, with one more space before every fourth; nothing but blanks from the last byte to the first bar |
| HexText.Hex2Digits | panwrap/panwrap-util.c:86 | two digits 0-9 or a-f, the higher one first |
| HexText.HexUpperDigits | panwrap/panwrap-util.c:78 | all digits 0-9 or A-F |
| HexText.HexLowerDigits | panwrap/panwrap-util.c:43 | all digits 0-9 or a-f, without a leading zero |
| Hexdump.RowParses | panwrap/panwrap-util.c:76-97 | a row reads back as its bytes whatever its right-hand column shows |
| Hexdump.RowOffset | panwrap/panwrap-util.c:77-78 | row k of the dump of any buffer begins with the offset 16k in eight upper-case digits |
| Hexdump.LogHexdumpTrimmed | panwrap/panwrap-util.c:117-145 | dumps up to the last non-zero byte and states the rest, or dumps in full, whenever the part dumped can be counted in an `int` |
| Hexdump.TrimmedDumpParses | panwrap/panwrap-util.c:117-145 | rows and trailer read back as the buffer; trimming is maximal; empty and all-zero buffers get no trailer |
| Interception.CodeDisciplined | panwrap/panwrap-syscall.c:787-997 | the code of every call locks at most once, touches shared state only inside, never nests freezes, balances the indent and leaves nothing unprocessed |
| InterceptionSafety.DecodedIoctl | panwrap/panwrap-syscall.c:857-922 | what the decode functions do is always a call the protocol admits: exactly their actions when they return, and their actions up to the fatal one otherwise; before the request nothing is tracked, after it only the allocation of MEM_ALLOC |
| InterceptionSafety.RunKeepsInv | panwrap/panwrap-syscall.c:787-997 | the invariant holds after every run of any number of threads |
| InterceptionSafety.TrackedMappingsAreLive | panwrap/panwrap-syscall.c:924-997 | whenever the mutex is free, tracked mappings are live in the kernel, pairwise apart, and start at different addresses |
| InterceptionSafety.OnlyHolderWrites | panwrap/panwrap-syscall.c:800-996 | tracker, freeze state, indent, log and mali_fd are only changed by the thread holding the mutex |
| InterceptionSafety.FreeMutexIsClean | panwrap/panwrap-syscall.c:881-920 | whenever the mutex is free time is not frozen and the indent is 0; the indent never exceeds 8 |
| InterceptionSafety.LinesNeverInterleave | panwrap/panwrap-syscall.c:800-996 | the log lines of one call are consecutive |
| InterceptionSafety.FreezesNeverNest | panwrap/panwrap-syscall.c:881-994 | no freeze is entered while frozen, and a traced ioctl itself is never inside a freeze |
| InterceptionSafety.TimestampsAreExact | panwrap/panwrap-util.c:221-265 | at any moment of any run the timestamp is elapsed time less the exact frozen time, and the stamps in the log never decrease |
| InterceptionSafety.SomeThreadGoesOn | panwrap/panwrap-syscall.c:787-997 | no deadlock: while the process lives and calls are under way, some thread has an allowed step of its own, or asks for memory the kernel does not have |
| InterceptionSafety.DerefsAreBacked | panwrap/panwrap-mmap.h:64-76 | in every interleaving, a dereference that goes through found a tracked mapping that is live in the kernel; its bytes are in it always for an explicit mapping, and exactly when the size does not wrap otherwise; for SAME_VA they are then live memory at their own addresses |
| InterceptionSafety.DecodingComesToItsEnd | panwrap/panwrap-syscall.c:881-920 | in every interleaving, an ioctl whose accesses all succeed on the mappings at its start is not aborted before it is decoded, and one with a failing access is never decoded to its end |
| InterceptionSafety.SameVaAccessesGoThrough | panwrap/panwrap-mmap.h:64-76 | with only SAME_VA memory mapped, an access inside a mapping yields its own address exactly when no newer mapping ends at its first byte |
| InterceptionHistory.SectionsAreAtomic | panwrap/panwrap-syscall.c:787-997 | in any interleaving, a critical section leaves tracker and mali_fd as if its thread had run alone |
| InterceptionHistory.MmapIsTracked | panwrap/panwrap-syscall.c:924-944 | when the mutex is next free after the kernel has mapped, the newest allocation pending at the offset is gone and the mapping made of it is tracked, field by field; with none pending nothing has changed |
| InterceptionHistory.MunmapIsUntracked | panwrap/panwrap-syscall.c:968-997 | when the mutex is next free, exactly the mapping that starts at the address is gone, and none that starts there is left |
| InterceptionHistory.IoctlIsTracked | panwrap/panwrap-syscall.c:881-922 | when the mutex is next free, what the decode functions tracked is pending, newest first, and mappings and device are as before |
| InterceptionHistory.OpenRemembersDevice | panwrap/panwrap-syscall.c:800-811 | when the mutex is next free, mali_fd is the fd of a successful open of /dev/mali0, and unchanged after any other |
| InterceptionHistory.CloseForgetsDevice | panwrap/panwrap-syscall.c:847-852 | when the mutex is next free, mali_fd is 0 if it was the fd closed |
| InterceptionHistory.MappingStays | panwrap/panwrap-syscall.c:924-997 | a tracked mapping stays tracked until a munmap of its address |
| InterceptionHistory.AllocationStays | panwrap/panwrap-syscall.c:924-944 | a pending allocation stays pending until an mmap at its GPU address |
| InterceptionHistory.MappingsComeFromMmaps | panwrap/panwrap-syscall.c:924-944 | in every state of every run, a tracked mapping is one the kernel made for an mmap with its fields, and an allocation with its flags had been tracked at the offset |
| InterceptionHistory.ResultsAreTheKernels | panwrap/panwrap-syscall.c:787-997 | the result a thread has yet to process is the one the kernel gave to its own call |
| InterceptionHistory.DeviceIsLastOpened | panwrap/panwrap-syscall.c:800-852 | mali_fd is the fd of the last open of /dev/mali0 processed, until a close of that fd is, and then 0 |
| InterceptionHistory.NoDeviceAtFirst | panwrap/panwrap-syscall.c:800-852 | before any such open mali_fd is 0 |
| InterceptionHistory.TracedAsSeen | panwrap/panwrap-syscall.c:842-934 | an ioctl is traced exactly if its fd was 0 or mali_fd at its one look; a close or an mmap exactly if there was a device at the first look and it was the call's fd at the second |
| InterceptionHistory.CallsAreTransparent | panwrap/panwrap-syscall.c:787-997 | a call that returns has made exactly one request, its own, traced or not; a traced ioctl decodes its arguments before it and the answer after it, in order |
| InterceptionHistory.RequestsAndMutex | panwrap/panwrap-syscall.c:787-997 | open and close ask the kernel outside the mutex; traced ioctl, mmap and munmap inside, with time running |
| InterceptionHistory.StepsAreLogged | panwrap/panwrap-syscall.c:787-997 | every operation writes exactly the lines its findings call for, for its call, at the current indent and time |

## Left out

- `dlopen`, `dlsym`, environment parsing, output files and `printf` itself: foreign calls and I/O.
- `MAP_FAILED`, failing clock reads and partial unmaps of tracked ranges: outside the kernel assumptions above; the source does not test for the first.
- The unused list heads at `panwrap/panwrap-syscall.c:110-111`: never read.
- Use after `free`: a freed entry is only taken out of its list.
- Enum and ioctl name tables, and the fields each ioctl prints: finite case reading; the decode functions keep their lines and indent only.
- What the pre-dependency loop and the vertex rows print: they index with the outer loop's variable and never advance by row.
- Bit-field layout and structure sizes: the sizes are constants of a 64-bit build, and structures are read through parameters from the pointer of a dereference.
- Memory changing while one job is decoded: the contents are fixed for one call of a decode function.
- The log prefix (timestamp text and indent spaces) in front of a hexdump row: not part of a record.
- Hexdump.LogHexdump: does not cover buffers of 2^31 bytes or more, because the source counts them in an `int`; the test `buf + i < data` is never true for a buffer that does not wrap and is not modelled.
- InterceptionSafety.RunKeepsInv: timestamps are taken to be enabled; with them off the clock operations do nothing.
- Decoder.TraceHwChain: takes no mapping whose length is within 304 bytes of 2^64, where the check's sum for an explicit mapping could wrap; the other decode functions inherit this. It states accesses and indent, not how many lines are logged while a job is decoded.
- IoctlDecode.DecodeGpuProps: states the indent, not the number of lines.
- Decoder.DecodeAttributes: counts rows and floats without bound, where the source compares an `int` with a `size_t`; the `int` overflows for 2^31 rows or floats in a row.
- The end of a failing dereference: the indent reset and the log lines of `__panwrap_deref_mem_err` (`panwrap/panwrap-mmap.c:219-249`) come after the last modelled action.
- Signals, `fork`, and calls of the overridden functions from inside a critical section.
