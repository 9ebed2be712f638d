# A verified model of mlx5ctl

mlx5ctl talks to ConnectX firmware through fixed-layout big-endian messages, as
chapter 12, "Command Reference", of the ConnectX Programming Reference Manual
describes them. This project models the parts of the tool that carry a protocol or
an algorithm, and proves what they are for:

- **Bits, Codec, FieldLaws, Layouts** - the accessor macros of `ifcutil.h`. They are
  written as the C expressions (`&`, `|`, `~`, shifts on machine words) and shown to
  compute `Get` and `Put`, which read and write the bits of a field one by one, counted
  from the most significant bit of byte 0. Everything else uses `Get` and `Put`.
  Layouts are lists of member widths; offsets are their prefix sums.
- **Machine** - what the program runs against. The device is an arbitrary function
  from everything it was ever asked to its next reply; the allocator is an arbitrary
  function to addresses. A statement about a run is therefore a statement about every
  device and every pattern of allocation failures. A terminated run asks finitely many
  questions, so `Env.lifetime` bounds them: later questions fail. The model keeps books
  of the live protection domains, registered buffers and memory keys that follow from
  the device's answers, whether its requests were sound or not, and counts unsound
  requests, refused releases, and handles given out although they were live. It keeps
  the addresses of the live blocks as well, and counts frees of any other address and
  live addresses handed out again. Only handles and addresses handed out twice are ever
  assumed away.
- **Register** - register access framing.
- **ResourceDump, Collectors** - the dump protocol: one request/reply round, and the
  inline and the registered-memory collector. Each collector is a method on arrays,
  proved to run a state machine (`InlineStep`, `UmemStep`) to its end.
- **EchoLaws, DumpRuns, DumpTheorems** - the invariant of every run of either
  collector against every device, and what follows from it: requests, sequence
  numbers, buffer sizes, the window, the counter.
- **Conversations** - the questions of one dump: the initial request, then its query
  with the cursor of each answer that has more to come, and nothing in between. Every
  run holds this conversation, and what the results below assume of a device's dumps
  they assume of its answers in it only.
- **HeapRuns** - what a run of either collector does to the heap.
- **Service, Completeness, ReferenceDevice** - devices that, in this conversation, serve
  a byte stream from the place a cursor names, in chunks of any sizes, empty ones
  included. For another query, a cursor they did not send, or once another command
  came in between, they may answer or refuse as they like. Every run collects a prefix
  of the stream; with a prompt device and the memory it asks for, a run collects all of
  it exactly up to a stated size, unless the device dies. Such devices exist for every
  stream; the one exhibited refuses every other query, and every dump once it was told,
  say, to destroy a key.
- **Segments, SegmentReads** - the segment walker against a serialiser; what parsing
  reads of each segment, and when all of it lies inside the memory block.
- **Mlx5Lib, RscDump, Lifecycle, CommandQuestions** - frames and acquisition of handles,
  the whole `rscdump`/`coredump` command, and what one run of it does to handles, heap,
  return code and the device's log.
- **Wire** - every command frame in plain numbers.
- **EndToEnd, ReferenceRuns** - from the device's segments to the parser's visits,
  through either collector and for the whole command; and devices against which all of
  it happens, including dumps that make the parser leave its block.
- **DiagCnt, CounterList, SetCommand, RegNames** - diagnostic parameters, the
  counter-list argument and both together, and register name lookup.

Code that changes buffers or objects step by step is a method with the specification
functions beside it; the lemmas are about those functions. Where the C code would
leave defined behaviour (copy past a buffer, overflow an `int`, read past a block) the
model stops with an explicit `Undefined`, `Overread` or `UndefinedRun`, and the
condition under which that happens is a lemma. Proofs use `hide` to keep definitions
that a step does not need out of the solver's way.

Points where the code decides, and the model follows it:

- `mlx5_ifc.h` and the code agree on all offsets used; the register's size is 256 bytes.
- The collector's first capacity is 4069 bytes, not 4096 (`rscdump.c:96`). Its doublings
  end at 4069 * 2^19 bytes, the last size whose double overflows an `int`; and because
  4069 is odd, inline dumps of 4069, 8137 and 8138 bytes can make the parser read past
  its block (`InlineOverreadIff`, `OverreadsOnlyAt`, `OverreadingRun`).
- The parser is given the registered buffer's size although the collector's block is
  1 MiB (`rscdump.c:422`); `UmemOverreadIff` says when that makes it read too far.
- Names in menu records are printed up to a NUL (`rscdump.c:260-262`), which need not be
  inside the name, the record or the segment; `MenuInsideIff` says when it is inside the
  block.
- The user guide describes the registered-memory mode as available (`README.md:1775`),
  but `mlx5u_umem_reg` always fails in this revision (`mlx5ctl_misc.c:346-349`). The
  model lets registration succeed or fail.
- Memory whose release the device refuses is freed all the same (`mlx5lib.c:128-130`,
  `mlx5lib.c:143-145`); an account of the command records this as `dangling`.
- The static `umem_buff` is not reset when its buffer is freed (`rscdump.c:524-527`);
  `DoRscDump` is stated for one call per process, which is how the tool runs.
- The temporary block of the registered-memory collector is never freed, nor is the
  inline one when the device fails before the first chunk; `HeapBalance` says exactly
  when.

## Model

| member | source | states |
|---|---|---|
| Codec.Set | ifcutil.h:70-76 | the in-place write leaves the buffer that SetField describes |
| Codec.Set64 | ifcutil.h:78-84 | the same for a 64-bit field |
| Codec.BigEndianBit | ifcutil.h:56-61 | bit i of a buffer, from its most significant end, is that bit of the big-endian word |
| Codec.BytesBit | ifcutil.h:56-61 | storing a word big-endian puts every bit where reading expects it |
| Codec.UpdateUnique | ifcutil.h:70-84 | a buffer with the field's bits replaced and no other is the one WriteBits makes |
| Codec.SameBufferBits | ifcutil.h:63-84 | two buffers with the same bits are the same, so bit-level laws determine the bytes |
| FieldLaws.GetFieldIsReadBits | ifcutil.h:63-65 | for every field inside a dword, GET's shift and mask yield the number formed by the field's bits, most significant first |
| FieldLaws.GetField64IsReadBits | ifcutil.h:67 | GET64 yields the number formed by the 64 bits |
| FieldLaws.SetFieldIsBitUpdate | ifcutil.h:70-76 | SET replaces exactly the field's bits by the low bits of the value and keeps every other bit of the buffer |
| FieldLaws.SetField64IsBitUpdate | ifcutil.h:78-84 | SET64 does the same for 64 bits |
| FieldLaws.SetFieldIsPut | ifcutil.h:70-76 | for any int, also a negative one, the dword expression writes the value modulo 2^width, bit by bit |
| FieldLaws.SetField64IsPut | ifcutil.h:78-84 | the same for a 64-bit field |
| FieldLaws.PutIsBitUpdate | ifcutil.h:70-84 | after a write the field's bits are those of the value modulo 2^width and every other bit is as before |
| FieldLaws.Load | ifcutil.h:63-67 | reading by dword or quadword, as the width asks, yields the field's bits |
| FieldLaws.Write | ifcutil.h:70-84 | the in-place write, by dword or quadword, puts the field's bits |
| FieldLaws.GetPut | ifcutil.h:63-84 | reading back a written field gives the value modulo 2^width |
| FieldLaws.GetPutElsewhere | ifcutil.h:63-84 | writing a field leaves every disjoint field's value alone |
| FieldLaws.PutsCommute | ifcutil.h:70-84 | writes of disjoint fields commute, byte for byte |
| FieldLaws.PutPut | ifcutil.h:70-84 | only the last write to a field is seen |
| FieldLaws.PutGet | ifcutil.h:63-84 | writing back what was read changes no byte |
| FieldLaws.GetAt | ifcutil.h:53-54 | a field of a structure at byte b of a frame is the same field of the sub-buffer that starts there |
| FieldLaws.PutTail | ifcutil.h:70-76 | a write leaves the bytes behind its dword alone |
| Layouts.MembersDisjoint | ifcutil.h:34-37 | in any layout, distinct members share no bit and lie inside the structure |
| Layouts.ResourceDumpMembers | mlx5_ifc.h:2187-2215 | the register's field offsets are the prefix sums of its member widths; 256 bytes, inline data at byte 48 |
| Layouts.SegmentMembers | mlx5_ifc.h:2217-2326 | offsets of the segment header and of the menu; the first segment after info and command, at byte 36; head 8 bytes, record 52, its last name at 36; sizes of error, notice, reference and resource segments |
| Layouts.CommandMembers | mlx5_ifc.h:9186-9215 | offsets of the register-access frames and of the short handle frames |
| Layouts.MkeyContextMembers | mlx5_ifc.h:3987-4037 | offsets of the key context's fields |
| Layouts.CreateMkeyMembers | mlx5_ifc.h:8616-8639 | the key context is at byte 16 of the create frame, mkey_umem_id at bit 800, 272 bytes in all |
| Layouts.DiagMembers | diag_cnt.c:131-153 | offsets of the diagnostic context; 24 bytes, 4 per counter |
| Layouts.CoreDumpMembers | mlx5_ifc.h:10053-10075 | offsets of the core-dump register's fields; 64 bytes |
| Machine.Host.Cmd | mlx5ctl_misc.c:282-309 | a command shows the device the input, and leaves its reply, its result and what it wrote to registered memory |
| Machine.CommandReply | mlx5ctl_misc.c:294-308 | a command about no handle succeeds exactly when the ioctl and the status byte say so, then shows the reply, and moves no handle |
| Machine.CommandResult | mlx5ctl_misc.c:294-308 | a command's result is the ioctl's if that is not 0, and otherwise the first byte of the reply |
| Machine.ConsistentIff | mlx5lib.c:74-146 | an exchange leaves an mkey without its pd or umem exactly if the device carries out the release of a pd or umem in use, or a key on a dead one; none of these is a sound request |
| Register.AccessRegister | reg.c:175-215 | the method on buffers computes AccessReg, and touches output, device and heap only |
| Register.FrameDecodes | reg.c:191-202 | for any payload, argument and id the request decodes to those head fields with the payload intact at byte 16 |
| Register.AccessRegMeaning | reg.c:179-214 | it succeeds exactly when both allocations and the command do; then the caller has the register's bytes as the device sent them, otherwise its buffer is unchanged; no handle moves, and on every path the heap is as before, with each block freed once |
| Register.AccessRegResult | reg.c:179-214 | the result is -12 without memory, the ioctl's if it fails, and otherwise the status byte of the device's reply |
| ResourceDump.DumpIter | rscdump.c:38-82 | the method on the two registers computes Iterate |
| ResourceDump.IterateMeaning | rscdump.c:48-81 | a round asks exactly the request; the reply is accepted if and only if it is in sequence, -5 and -121 are the errors; the request changes only to echo a reply with more to come |
| ResourceDump.ReplyRead | rscdump.c:59-68 | for every register: the size is bits 288-319 as a signed int, more is to come exactly if bit 0 is set, and the number in bits 12-15 continues the request's if it is 0 or one above |
| ResourceDump.CopyOutToIn | rscdump.c:70 | one in-place copy replaces the request's field by the reply's |
| ResourceDump.EchoInPlace | rscdump.c:70-77 | the seven in-place copies compute Echo |
| ResourceDump.StepProgress | rscdump.c:113-136 | every pass of either loop that goes on uses up one answer of the device |
| EchoLaws.EchoBit | rscdump.c:70-77 | after the seven writes each bit of the request is the reply's if it belongs to an echoed field and its old self otherwise |
| EchoLaws.EchoForgets | rscdump.c:64-77 | echoing two replies is echoing the last one |
| EchoLaws.EchoRule | rscdump.c:64-79 | cursor fields equal the reply's; segment_type, vhca_id, inline_dump, mkey, address and size equal the request's |
| Collectors.CollectInline | rscdump.c:91-139 | the collector's loop ends in the state Inline ends in: data, its address, capacity, status, device and heap; NULL exactly on a device error with nothing collected |
| Collectors.InlineRound | rscdump.c:113-136 | one pass of the loop is one InlineStep |
| Collectors.ReserveInline | rscdump.c:124-132 | realloc to twice the size keeps the bytes; the copy is made only where it fits |
| Collectors.CollectUmem | rscdump.c:141-192 | the same for the registered-memory collector and its counter |
| Collectors.UmemRound | rscdump.c:168-189 | one pass of the loop is one UmemStep |
| DumpRuns.StepFaithful | rscdump.c:113-189 | one step of either machine keeps the run invariant |
| DumpRuns.InlineRun | rscdump.c:91-139 | every run, however it ends: the buffer is its old bytes and the chunks of a prefix of whole accepted replies, each the device's answer to the initial request with the previous cursor; no handle moves |
| DumpRuns.UmemRun | rscdump.c:141-192 | the same although every chunk goes through one window |
| DumpRuns.UmemWindow | rscdump.c:183-184 | chunk i is the beginning of what the window holds after answers 0..i, each written over the ones before; where a reply announces more than the device wrote, the rest is stale |
| HeapRuns.InlineHolds | rscdump.c:99-139 | however a run ends, and however often its buffer was moved, the heap holds exactly the block its state names more than before, and nothing was freed that was not its own |
| HeapRuns.UmemHolds | rscdump.c:149-192 | the same for the temporary block of the other collector |
| DumpTheorems.InlineRequestAsks | rscdump.c:107-111 | the first request reads back as the arguments, each cut to its field |
| DumpTheorems.UmemRequestAsks | rscdump.c:156-164 | the same with key, address and size of the registered buffer |
| DumpTheorems.RequestRule | rscdump.c:64-79 | request i of a run is the initial one with exactly the cursor of reply i-1, which had more to come |
| DumpTheorems.InlineKeepsAsking | rscdump.c:64-79 | whatever the replies hold, every request of an inline dump reads back the caller's segment_type and vhca_id, cut to 16 bits, and inline_dump 1 |
| DumpTheorems.UmemKeepsAsking | rscdump.c:64-79 | through a registered buffer the same with inline_dump 0, and key, address and size in every request |
| Conversations.RunTalks | rscdump.c:64-79 | whatever the replies hold, request i of a run comes after its session's history, the initial request and i answers that had more to come, each asked with the query of the first and the cursor of the answer before |
| Conversations.OnlyThatQuery | rscdump.c:113-189 | since a dump began, nothing but questions with its query was asked |
| DumpTheorems.SequenceNumbers | rscdump.c:59-62 | every accepted reply is numbered by the replies since the last 0, or since the start |
| DumpTheorems.ZeroAmongSixteen | rscdump.c:59-62 | any 16 accepted replies in a row contain a 0 |
| DumpTheorems.CountsFromZero | rscdump.c:93 | both collectors' first request is numbered 0 |
| DumpTheorems.DoublingBuffer | rscdump.c:96-132 | however a run ends in defined behaviour, the capacity is the first one times a power of two; after a doubling it, and all bytes realloc copied so far, are below twice the data |
| DumpTheorems.InlineCapacity | rscdump.c:96-132 | the same for the command's own dump, which starts at 4069 bytes |
| DumpTheorems.RoomIff | rscdump.c:124-134 | from capacity 208 on, a chunk finds room exactly if it is at most 208 bytes, stays within the last capacity whose double is no int, and realloc succeeds where needed; a chunk of 0 to 208 bytes overflows exactly beyond that |
| DumpTheorems.FirstRoomIff | rscdump.c:99-134 | every first chunk of up to 208 bytes gets room if and only if the caller's total is 0, or at least 208 and its double an int |
| DumpTheorems.StepSpacious | rscdump.c:113-136 | every step of a run keeps what RoomIff needs, and its chunk overflows exactly if it passes the limit |
| DumpTheorems.FirstCeiling | rscdump.c:96-132 | from 4069, doubling ends at 4069 * 2^19 bytes |
| Conversations.NeverUndefined | rscdump.c:113-136 | if every reply of the dump announces at most 208 bytes, a run of any length holds no more than the limit and leaves defined behaviour only on a reply that would pass it |
| DumpTheorems.UmemCounts | rscdump.c:175-188 | the counter follows the chunks, and the loop's own stop needs it at 0 |
| DumpTheorems.RemainingAccount | rscdump.c:146-177 | from a positive size it stays positive; it plus the bytes collected is the size if and only if every chunk was smaller than what remained |
| DumpTheorems.FullOnlyWhenEmpty | rscdump.c:187-188 | of the two normal ends, the remain == 0 exit is taken exactly when the size was 0 modulo 2^32 |
| Service.TracePrefix | rscdump.c:113-189 | with a device that is honest in the conversation of this dump, exchange i belongs to it and moved the stream's bytes, maybe none, from where the chunks before it end |
| Service.CollectsPrefix | rscdump.c:91-192 | however a run ends, its bytes are a prefix of the stream; a run that ends normally has the whole stream |
| Completeness.InlineDump | rscdump.c:91-139 | a prompt device's stream, however it is cut, with empty chunks or not, is collected whole through inline replies if and only if it fits the last capacity doubling reaches; beyond, the size overflows; or the device dies. A device that sends no empty chunk before the end is asked at most once more than the stream has bytes |
| Completeness.InlineDumpIff | rscdump.c:91-139 | for the command's own dump: whole exactly up to 4069 * 2^19 bytes, while the device lives |
| Completeness.UmemDump | rscdump.c:141-192 | through the reused window, of any size that is not 0 as an int: whole if and only if it fits the temporary buffer of 1048576 bytes, or the device dies; a reply's size and whether more is to come are its own 32-bit and 1-bit fields |
| ReferenceDevice.EveryStreamIsServed | rscdump.c:64-68 | for every query, stream and history there is a device that is from then on honest and prompt, for either collector, refuses every other query and, once asked about any handle, every dump, and never writes more than 208 bytes into registered memory |
| ReferenceDevice.StartsAtTheStart | rscdump.c:107-164 | both first requests stand at its position 0 |
| EndToEnd.InlineShowsSegments | rscdump.c:411-430 | unless the device dies, the parser, run on the collected block, visits exactly the device's segments up to the first TERMINATE or ERROR, or all, for every list up to 4069 * 2^19 bytes |
| EndToEnd.UmemShowsSegments | rscdump.c:411-430 | also when it is given the window's size and unknown bytes behind the dump, if the dump ends in such a segment |
| EndToEnd.CollectorsAgree | rscdump.c:113-189 | two devices serving one stream, each for its own query, in its own chunks and to its own collector, are dumped to the same bytes, or to the shorter or longer beginning each lived to send |
| EndToEnd.CommandShowsInline | rscdump.c:411-529 | `rscdump` without a buffer, against a device serving its query segments long enough for their types, returns 0, visits exactly those up to the end, and leaves heap and handles alone, unless the device dies |
| EndToEnd.CommandShowsUmem | rscdump.c:411-529 | with a buffer it visits the same, and its handles come back exactly unless a release is refused |
| ReferenceRuns.EveryStreamIsDumped | rscdump.c:91-192 | for every stream and either collector's query there is such a device that is dumped to exactly that stream, if and only if it fits |
| ReferenceRuns.ReferenceRun | rscdump.c:491-529 | for every terminated list of segments there is a device, answering the command's query and no other, and no dump once asked about a handle, against which the command with a buffer shows them and which ends with the handles it had; the heap ends with the one leaked block |
| ReferenceRuns.InlineOverreadIff | rscdump.c:96-132 | an inline dump's size and block leave room for reading a header past the block if and only if the dump is 4069, 8137 or 8138 bytes long |
| ReferenceRuns.OverreadsOnlyAt | rscdump.c:374-430 | no run of the command, against any device, reads a header past its block with a dump of another size |
| ReferenceRuns.OverreadingRun | rscdump.c:374-430 | for each of the three there is a device against which every run of the command does: it serves one-dword NOTICE segments and a piece of the next |
| ReferenceRuns.UmemOverreadIff | rscdump.c:418-422 | a dump through a registered buffer has room for that if and only if the buffer is larger than the collector's 1 MiB |
| ReferenceRuns.UmemOverreadingRun | rscdump.c:411-430 | for every larger buffer whose size is an int there is a device against which every run of the command leaves the block: it serves 1 MiB of one-dword NOTICE segments |
| Segments.GetSegmentHeader | rscdump.c:289-293 | the two fields read, the length turned into bytes |
| Segments.HeaderBytes | rscdump.c:289-293 | a header byte by byte: a 16-bit length in dwords, then the type |
| Segments.TerminatesIff | rscdump.c:400-406 | the C loop stops after some number of passes if and only if the walk meets no segment of length 0 |
| Segments.RoundTrip | rscdump.c:289-407 | every list of serialised segments is visited one by one, in order, at their offsets, cut at its first TERMINATE or ERROR, given its own size; with any bytes behind it and any larger size if it has such a segment |
| Segments.RoundTripUpTo | rscdump.c:398-406 | given any size, the walk shows the segments up to the first that is final or reaches it |
| Segments.HeaderOfSerialised | rscdump.c:289-293 | a serialised segment's header decodes to its type and its length in bytes |
| Segments.WalkedBytes | rscdump.c:398-407 | serialising what a walk visited gives back the bytes it walked, if they are all in the block |
| Segments.TrailingBytes | rscdump.c:398-406 | a walk that ends in a final segment, or spins, within its total is the same in any larger block and size |
| Segments.TrailingIff | rscdump.c:398-406 | exactly these walks do not depend on what follows and on a larger size |
| Segments.TrailingDump | rscdump.c:420-426 | the same for a whole dump |
| Segments.NegativeSize | rscdump.c:395-405 | a buffer size that turns negative as an int makes the parser stop after one segment |
| Segments.OverreadIff | rscdump.c:398-406 | whatever a block of some length holds, the parser reads no header past it if and only if the dump's size, rounded up to a dword, fits; otherwise a list of one-dword NOTICE segments makes it |
| SegmentReads.PrintString | rscdump.c:260-262 | reads from a name up to the next NUL |
| SegmentReads.StringInsideIff | rscdump.c:260-262 | that stays inside the block exactly if a NUL follows in it |
| SegmentReads.ParseMenu | rscdump.c:265-282 | as many records as bytes 6 and 7 announce, record i at 8 + 52i of the segment; ok says whether the head, every record and every printed name lie inside the block |
| SegmentReads.MenuInsideIff | rscdump.c:242-282 | a menu is read inside the block if and only if its head is and, with records, the last name of the last record ends in it, although names may run into each other |
| SegmentReads.MenuTiling | rscdump.c:275-281 | every byte behind the head is in exactly one record, and n records end at 8 + 52n |
| SegmentReads.MenuOfSerialised | rscdump.c:265-282 | a serialised menu of n records announces n wherever it lies in a block, and those n records partition its bytes behind the head |
| SegmentReads.ParseSegment | rscdump.c:338-372 | ok says whether all that is read of a segment of any type lies inside the block: 48 bytes of an error or notice, 20 of a reference, and the announced end of a resource segment, whatever the block |
| SegmentReads.ParseResourceDump | rscdump.c:374-407 | the loop over the block computes WalkDump, stops at the first type 0xfffb or 0xfffc, and inside says whether all its reads were |
| SegmentReads.ShapelyIff | rscdump.c:295-336 | what a segment, alone in a block, needs to be read inside it: 48 bytes for an error or notice, 20 for a reference, 16 for a resource, 8 and a NUL behind its last name for a menu |
| SegmentReads.ContainedIff | rscdump.c:338-372 | such a segment is read inside its own bytes wherever it lies; the last one of a block is read inside the block only if it is one |
| SegmentReads.ParseStaysInside | rscdump.c:374-407 | if every segment reported is one, the whole parse stays inside the block, whatever follows |
| SegmentReads.LastMustBeShapely | rscdump.c:374-407 | when the block ends with the dump and every segment before the last is long enough, the whole parse stays inside if and only if the last one is |
| Mlx5Lib.KeyRoundTrip | mlx5lib.h:18-31 | a 24-bit index makes the key index * 256, comes back from it, and leaves the variant 0 |
| Mlx5Lib.IndexRoundTrip | mlx5lib.h:18-31 | a key comes back from its index without its variant |
| Mlx5Lib.AlignIsLeastMultiple | mlx5lib.c:85-87 | the aligned size is the least page multiple not below the size |
| Mlx5Lib.AlignCoversIff | mlx5lib.c:85-87 | it covers the size exactly up to the last page of the address space; beyond, it wraps to 0 |
| Mlx5Lib.AllocPdFrameDecodes | mlx5lib.c:19-20 | the frame asks for a pd, for the given uid |
| Mlx5Lib.DeallocPdFrameDecodes | mlx5lib.c:33-35 | the frame releases the pd's 24-bit number |
| Mlx5Lib.DestroyMkeyFrameDecodes | mlx5lib.c:79-80 | the frame for the key built from an index names exactly that index |
| Mlx5Lib.CreateMkeyFrameDecodes | mlx5lib.c:50-62 | every field of the create frame reads back as written, and mkey_7_0, in qpn's dword, is 0 |
| Mlx5Lib.AllocPdNumber | mlx5lib.c:13-27 | the device is asked exactly this frame; error and pd are its answer |
| Mlx5Lib.DeallocPdNumber | mlx5lib.c:29-38 | the same for the release |
| Mlx5Lib.CreateUmemMkey | mlx5lib.c:40-72 | the device is asked the create frame; on success the key is the answered index shifted by 8, its low byte the 0 of the frame |
| Mlx5Lib.DestroyKey | mlx5lib.c:74-83 | the device is asked the destroy frame of this key |
| Mlx5Lib.AllocPdEffect | mlx5lib.c:13-27 | success adds the returned pd to the live ones |
| Mlx5Lib.DeallocPdEffect | mlx5lib.c:29-38 | success takes that pd away |
| Mlx5Lib.CreateMkeyEffect | mlx5lib.c:40-72 | success makes a key on this pd and this umem |
| Mlx5Lib.DestroyMkeyEffect | mlx5lib.c:74-83 | destroying the key built from an index releases the key of that index |
| Mlx5Lib.AllocUmemMkeyBuff | mlx5lib.c:89-138 | the method on the struct and the zeroed memory runs Acquire, for every outcome of every call |
| Mlx5Lib.AcquiresIff | mlx5lib.c:95-132 | a buffer is acquired if and only if both blocks are granted, the device answers the registration with an id, and answers the creation of a key on it |
| Mlx5Lib.AcquireLog | mlx5lib.c:111-131 | the device is asked nothing, or the registration, or then the key, or then to take the registration back: exactly as far as it went |
| Mlx5Lib.AcquiredBlocks | mlx5lib.c:95-138 | on every path the heap gains exactly the buffer's two blocks, or nothing: what is freed was live and is freed once, provided malloc hands out no live address |
| Mlx5Lib.AcquireAllOrNothing | mlx5lib.c:89-138 | one buffer with its two blocks, umem and key more, or nothing more unless the device refused to give the umem up; exactly then memory was freed that is still registered, provided the handles at the start are consistent and neither the device nor malloc gives out a live handle or address |
| Mlx5Lib.AcquireKeepsParts | mlx5lib.c:111-131 | after each request of an acquisition, whatever its outcome, each mkey has its pd and its umem, provided the handles at the start are consistent and the device gives out no live one |
| Mlx5Lib.FreeUmemMkeyBuff | mlx5lib.c:140-146 | asks for the key, then the umem, then frees both blocks in any case, so that the heap loses exactly these two if they are live; the memory stays registered if the device refuses |
| RscDump.DumpInline | rscdump.c:411-430 | collect, parse and free without a registered buffer: visits, outcome, world |
| RscDump.DumpUmem | rscdump.c:411-430 | the same with one, parsed with the buffer's size; the temporary block stays allocated |
| RscDump.CoreDump | rscdump.c:532-561 | asks exactly once, with the buffer's address, size and key, and shows as many of its bytes as the reply announces: undefined if more than it has |
| RscDump.CoreRequestAsks | rscdump.c:543-547 | the core-dump request's fields read back |
| RscDump.DoRscDump | rscdump.c:491-529 | the whole command against every device and allocator is what DidRscDump says: acquisition, dump, parse, releases, visits, return code and world, request by request |
| Lifecycle.RanOnlyAsks | rscdump.c:411-430 | a dump, inline, through a buffer or of the core, asks only questions about no handle and moves none, also where it leaves defined behaviour |
| Lifecycle.TeardownBooks | mlx5lib.c:140-146 | released as key, umem, pd, everything comes back if and only if the device refuses none of the three, and then no request named a dead or busy handle |
| Lifecycle.KeysHaveTheirParts | rscdump.c:502-527 | at every point of every run that returns, whatever fails in it, an mkey is live only while its pd and umem are, if and only if the device did not first refuse to destroy the command's key and then take back what it uses, provided the handles at the start are consistent and the device gives out no live one |
| Lifecycle.BooksBalance | rscdump.c:502-527 | every run that returns ends with the live handles it found if and only if no release was refused; it freed registered memory exactly if its registration is still live, provided the handles at the start are consistent and the device gives out no live one |
| Lifecycle.CompletedLog | rscdump.c:502-527 | a completed run asks pd, registration, key, then only questions about no handle, then key, registration, pd back, in that order and once each |
| Lifecycle.ReturnCodes | rscdump.c:502-528 | the code is the pd's error, or -ENOMEM with the pd given back if no buffer was acquired, or 0; 0 exactly if no buffer is needed or one was acquired |
| Lifecycle.HeapBalance | rscdump.c:491-529 | on every path that returns, each block the command frees was live and is freed once, and the heap it leaves is the one it found and, in exactly the stated cases, the collector's block, provided malloc hands out no live address |
| Lifecycle.NoOverlaps | rscdump.c:491-529 | there are such allocators: to one that counts up no run of the command makes it hand out a live address |
| Lifecycle.OutcomeIff | rscdump.c:374-430 | `rscdump` never returns if and only if its parser stays inside its block and no number of passes ends its loop; it leaves defined behaviour if and only if the size in bytes is no int, the collector does, or the parser leaves its block |
| Wire.QuestionFrames | rscdump.c:49-56 | a dump's question is opcode 0x805, reading, of register 0xC000 with argument 0, the core dump's of 0x402e, and the request follows at byte 16 |
| Wire.RequestFields | rscdump.c:107-164 | both first requests by bit positions |
| Wire.HandleFrames | mlx5lib.c:13-83 | the four commands about pd and key by opcode and bit positions |
| Wire.DiagFrames | diag_cnt.c:191-284 | the set frame, opcode 0x820, with every field of the record and every counter by bit positions, over whatever its block held; the query's opcode 0x819 |
| CommandQuestions.DumpAsks | rscdump.c:491-529 | on every path of `rscdump`, also undefined ones, the log gains requests about handles and, between them, only dump questions: every one asks for the caller's type, 0xffff for a negative one, and the caller's vhca_id; the first for the caller's indexes; with a buffer, all for key 256 * index, its address and its size |
| CommandQuestions.CoreAsks | rscdump.c:532-561 | a core dump asks once, if it gets its memory, with type 2 and the key, size and address of the buffer; it leaves defined behaviour if and only if the answer announces a positive int above the buffer's size |
| CommandQuestions.CoreRunAsks | rscdump.c:491-529 | a completed `coredump` asks exactly that between acquiring its buffer and giving it back; without a buffer, nothing |
| DiagCnt.SetParam | diag_cnt.c:253-291 | the device is sent SetFrame over whatever the block held, and the block is freed, once |
| DiagCnt.SetFrameDecodes | diag_cnt.c:268-284 | the opcode is 0x820, and every field of the record and every counter, at byte 32 + 4i, reads back modulo its width |
| DiagCnt.DiagMovesNoHandle | diag_cnt.c:174-291 | neither the set command, opcode 0x820, nor the query, opcode 0x819, is about a handle: the books only gain the question |
| DiagCnt.QueryParam | diag_cnt.c:174-219 | the device is asked the query frame; read by read, ok says whether all parameters and counters lie inside the reply, exactly if ReadsFit, and then the view is ViewOf of the answer |
| DiagCnt.ReadsFitIff | diag_cnt.c:184-217 | they do, in a reply whose size is cut to 16 bits, exactly up to 16375 counters; for a negative number, which reads none, unless it is 16376 to 16379 modulo 2^14 |
| DiagCnt.RoundTrip | diag_cnt.c:174-291 | for any record of up to 16375 counters and any contents of both blocks, a query after a set shows, from the two answers of a device that remembers, the record cut to its widths |
| DiagCnt.SetThenQuery | diag_cnt.c:174-291 | the two methods one after the other do so, against a device that remembers this record's frame after the history it has |
| DiagCnt.RoundTripHappens | diag_cnt.c:174-291 | there is a device against which, after any history, both succeed and the query shows the record |
| CounterList.Tokenizer.Next | diag_cnt.c:389-393 | strtok's calls return the tokens of the string one by one |
| CounterList.ParseCounters | diag_cnt.c:381-394 | ENOMEM if malloc fails; otherwise the array has commas + 1 entries and its first entries are the tokens' numbers, cut to u32, in order |
| CounterList.TokensArePieces | diag_cnt.c:389-394 | the tokens are the non-empty pieces between commas, in order |
| CounterList.TokensFit | diag_cnt.c:381-394 | there are never more than commas + 1; exactly that many, and then all pieces in order, if and only if no piece is empty |
| SetCommand.DoSet | diag_cnt.c:381-423 | parses the list and sends the device the set frame of the record with exactly that array; no handle moves and the heap is as before, except that a failed frequency query leaves the array |
| SetCommand.PiecesAreSent | diag_cnt.c:253-423 | if no piece is empty, the frame the device gets has opcode 0x820, enable 1 and as many counters as there are pieces, and counter i is the number of piece i, cut to 16 bits |
| SetCommand.ArrayDeterminedIff | diag_cnt.c:381-394 | the text determines the array sent if and only if no piece is empty; otherwise its end is what malloc left |
| RegNames.Reg2Str | reg.c:117-124 | the name of the first entry with this id, or the placeholder |
| RegNames.IdFromStr | reg.c:154-163 | the least id in range that shows the name, or -1 |
| RegNames.ScanIsLookup | reg.c:117-163 | for every name but the placeholder the scan is table lookup, for any table of distinct names and ids in range |
| RegNames.PlaceholderScan | reg.c:117-163 | for the placeholder, in a table without an entry of that name, it returns the least id the table does not have |

## Left out

- CollectInline: a negative initial total is not modelled; the only caller passes 0.
- InlineDump: a device that sets more_dump for ever keeps the C loop running; in the model it dies after `lifetime` questions.
- TracePrefix: the place a request names is a function of its cursor fields, not of what the device did before.
- DoRscDump: an UndefinedRun or Hangs outcome is where the account ends; what the C program does after it is not modelled.
- DoSet: the flags and numbers before the list are a parameter, and so is the device frequency; the capability query that finds it is missing from the log.
- SetThenQuery: the tool runs the two commands in separate processes.
- A device that refused to release memory may still write to it when it is freed; the model records that the memory is dangling, not what such a write destroys.
- The ioctl, sysfs and open/close layer is not modelled; a command is one question to the device.
- A failed ioctl may leave anything in the reply buffer and the registered memory; the register's caller never sees it.
- Printing is left out (register dumps, verbosity output); the parser records what it visits and whether what it prints lies inside the block.
- Argument parsing (getopt, sscanf, atoi, the flag letters of `set`) is left out; strtoul is a parameter.
- In strtok the comma that ends a token is passed over, not overwritten with a NUL in the argument.
- The counter-value join of `diag_cnt.c:566-567` and the floating-point sample period are not modelled.
- devcaps.c, query_obj.c and the pretty printers of reg.c would only add straight-line uses of the accessors.
