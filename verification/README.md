# A verified model of sp-rtrace

sp-rtrace traces resource use of a process. Tracing modules encode events into a locked pipe buffer, a
pre-processor (`listener`) re-frames the byte stream and sends it on, and a post-processor decodes it
into a pointer-linked store, which it filters, sorts, compresses and prints as text that it can read
back. This project models the parts of that pipeline that are hard to get right and proves what they are
for. Every statement is about all inputs, all runs or all reachable states, except those that show by a
concrete input where a plain property fails.

| file | component |
|---|---|
| `ordering.dfy`, `dlist.dfy` | stable sorting as a specification, and the in-place merge sort of the doubly linked list |
| `htable.dfy`, `trace_store.dfy` | the hash table with cached buckets, and the store of calls with shared, counted backtraces |
| `leak_filter.dfy`, `leak_pass.dfy`, `store_filter.dfy` | what the leak filter keeps, the walk that edits list and index while it reads them, and the same filter on the whole store |
| `leaks_sort.dfy` | leak counts per backtrace and their sorting |
| `compression.dfy`, `comments.dfy`, `text_io.dfy`, `store_text.dfy` | the two text forms of a store at record level, where comments stand in them, their writer and their reader |
| `bytes.dfy`, `protocol.dfy`, `packet_writer.dfy` | packets, and the encoding and decoding of a traced call |
| `pipe_buffer.dfy` | the spin-locked double-size buffer as a state machine over threads, and as a class |
| `listener.dfy`, `binary_reader.dfy`, `pipeline.dfy` | packet reassembly and rewriting, decoding in chunks, and the whole way of a call |
| `emu_view.dfy`, `emu_heap.dfy` | the bootstrap allocator: its requests computed on bytes, and the methods over its byte array |
| `text_call.dfy` | one call record as a line of text, character by character |
| `density.dfy`, `sorted_array.dfy`, `name_registry.dfy`, `totals.dfy` | the page sweep, the mapping lookup, the name ids, the totals report |

Code that changes things in place is a class or a method with loops, proved against functions on values
(`Merge`, `Run`, `Packets`, `DecodeAll`, `Insert`, `Probe`, ...); the lemmas then say what those functions
mean. A pointer-linked list is a chain of heap nodes with a ghost sequence of them; the bytes of the
allocator are an array and `EmuView.View` is its value. Integers are unbounded except where the width
decides something: packet sizes, pointer sums and the size product of `calloc`, leak figures, counters
of the totals report, the comparison of calls, of leaks and of addresses, name ids and the numbers of a
printed call are cut or wrapped as the C types do.

What comes from outside is a parameter: the reads that the operating system delivers, the time of day,
the memory mappings the listener finds, the order in which threads run, the base address of the
allocator's array.

Results that are exact conditions, because the plain property does not hold for every input:

* Compression loses nothing if and only if no comment falls inside a group that has frames. A comment falls
  before the first call written that has a larger index than it and than every comment before it.
* When calls are written in index order, the comments read back as they were if and only if their indices
  ascend and each is that of a call, or zero before the first.
* Two calls are compared right if and only if the difference that decides, of timestamps or else of
  indices, lies strictly between -2^31 and 2^31; three calls that are too far apart run in a circle.
* The leak figures of the backtraces add up to the number and the size of all leaks if and only if no
  backtrace has 2^31 of either; two leaks of 0x7fffffff bytes behind one backtrace read as -2.
* Two backtraces are compared right if and only if the low 32 bits of the difference of their leaks, read
  as a signed integer, have its sign; below 2^32 leaks and bytes, if and only if that difference is a
  32-bit integer. A leak of 0xfffffffe bytes is listed before one of a single byte.
* The leak filter reads through a null pointer if and only if an allocation without a resource type meets
  a resource that is still held, as two such allocations of one id do.
* A request to the bootstrap allocator keeps its heap sound if and only if the end of the chunk does not
  wrap around the address space past the test; a first `calloc(1, 0x80000000)` does, wherever the array
  lies above 2^31. A chunk from `calloc` has the size asked for if and only if, besides, the product is
  below 2^31.
* Giving a call, or each of a group of calls, a backtrace keeps the store sound if and only if none had one.
* A printed call is read back if and only if it is `Printable`; a name such as `@b a` is not.
* The reader finds the end of a string in a packet if and only if the string has at most 65534 bytes.
* The pipe head stays within the sending size if and only if the group does.
* The mapping array stays in order if and only if a new range lies beside all others and the comparisons
  that place it are right, as those of addresses less than 2^63 apart are; an empty range at the start of
  another hides it.
* There is a free name id if and only if fewer than 2^32 names are registered.
* A counter of the totals report is exact if and only if the number behind it is below 2^32.

Where the code and its documentation differ, the model follows the code: the legend of the density map
gives ten percent to the digit 0, the code gives it to 1 (`Density.DigitMeaning` says exactly when they
agree, src/rtrace-pagemap/density_report.cpp:39-42 and 92).

## Model

| member | source | states |
|---|---|---|
| `Ordering.MergeSortIsStableSort` | src/common/dlist.c:301-341 | for every total preorder the split-and-merge recursion gives a sorted permutation in which elements that compare equal keep their order |
| `Ordering.StableSortUnique` | src/common/dlist.c:343-356 | there is only one stable sort of a sequence, so the specification leaves the method no freedom |
| `Ordering.SortForgetsOrder` | src/rtrace-postproc/parse_text.c:169-175 | without ties, sorting two permutations of each other gives the same sequence |
| `DList.PassFirst` | src/common/dlist.c:256-293 | the run over the first segment stops at the first node above the other segment's, or completes the merge |
| `DList.PassSecond` | src/common/dlist.c:256-293 | the run over the second segment stops at the first node not below the other segment's, or completes the merge |
| `DList.EnterSecond` | src/common/dlist.c:256-293 | relinking before the first segment's node leaves two intact chains, also at the very start |
| `DList.EnterFirst` | src/common/dlist.c:256-293 | relinking back leaves the merged part running on into the first segment |
| `DList.MergeRound` | src/common/dlist.c:256-293 | one round keeps the merge on track and uses up nodes, so the loop ends |
| `DList.MergeSegments` | src/common/dlist.c:256-293 | merging two chains in place leaves the chain of the stable merge, although outer links are stale |
| `DList.FindMiddle` | src/common/dlist.c:316-324 | the two-speed walk finds the middle node |
| `DList.SortSegment` | src/common/dlist.c:301-341 | a segment becomes the chain of its stable sort and its new ends are returned |
| `DList.SortPair` | src/common/dlist.c:304-315 | a segment of two nodes is exchanged when out of order |
| `DList.SortHalves` | src/common/dlist.c:325-341 | two sorted halves merge into the sort of the whole, with the right ends |
| `DList.List.Add` | src/common/dlist.c:65-80 | appends a node; links mirror each other and end in null |
| `DList.List.Remove` | src/common/dlist.c:184-192 | takes out one node anywhere in the list and nothing else |
| `DList.List.Sort` | src/common/dlist.c:343-356 | for every well-formed list and total preorder: a well-formed list of the same nodes, sorted and stable |
| `HTable.Table.Find` | src/common/htable.c:83-87 | finds the node stored under a key, or none if there is none |
| `HTable.Table.RemoveNode` | src/common/htable.c:89-96 | takes the node out of the bucket it remembers; all other keys keep their nodes |
| `HTable.Table.Store` | src/common/htable.c:98-110 | stores a node under its key and gives back the node it replaces |
| `TraceStore.Store.AddCall` | src/rtrace-postproc/parse_text.c:294 | a call without a backtrace joins the list and the store stays valid |
| `TraceStore.Store.Share` | src/common/rtrace_data.c:264-283 | gives the stored backtrace with the same frames, storing the new one if there is none |
| `TraceStore.Store.SetFtrace` | src/common/rtrace_data.c:264-285 | the call ends up with a stored backtrace of these frames, which gains exactly one reference, last; the store stays valid if and only if the call had no backtrace |
| `TraceStore.Store.AttachAll` | src/common/rtrace_data.c:234-245 | every call of a group becomes a user of the backtrace, in group order; the store stays sound if and only if none of them had one |
| `TraceStore.Store.FcallsSetFtrace` | src/common/rtrace_data.c:287-302 | a whole group shares one stored backtrace, with mutual pointers; the store stays sound if and only if no call of the group had one, and every backtrace stays in use unless the group is empty and the backtrace is new |
| `TraceStore.Store.FcallRemove` | src/common/rtrace_data.c:247-262 | one call leaves, its reference leaves with it, and the backtrace goes exactly when that was the last |
| `TraceStore.RefCountIsUsers` | src/common/rtrace_data.c:234-302 | in every valid store a reference count is the number of live calls that point at the backtrace, and not zero |
| `TraceStore.UniqueFrames` | src/common/rtrace_data.c:151-177 | no two stored backtraces have the same frames |
| `LeakFilter.RunExact` | src/rtrace-postproc/filter.c:152-193 | the one-pass filter with its index keeps exactly the calls that survive, in order; survival is said of the fields of the calls, resource type, id and whether the type is counted |
| `LeakFilter.KeyIsResource` | src/rtrace-postproc/filter.c:93-98 | the index takes two calls for one resource if and only if they have the same type, or none, and the same id |
| `LeakFilter.KeptStep` | src/rtrace-postproc/filter.c:152-193 | one more call changes the survivors as the callback does |
| `LeakFilter.IndexStep` | src/rtrace-postproc/filter.c:152-193 | the index holds, for every resource, the allocation that the next free would remove |
| `LeakFilter.SurvivesStep` | src/rtrace-postproc/filter.c:152-193 | how one more call changes the fate of an earlier one, for plain and for counted resources |
| `LeakFilter.FilterIdempotent` | src/rtrace-postproc/filter.c:376-389 | filtering a filtered list changes nothing |
| `LeakPass.UpdateIndex` | src/rtrace-postproc/filter.c:152-190 | the index changes as the step of the pure filter says, unless an untyped allocation finds its resource indexed |
| `LeakPass.CountDown` | src/rtrace-postproc/filter.c:174-189 | a free counts down and gives up the held allocation at zero |
| `LeakPass.RemoveFreed` | src/rtrace-postproc/filter.c:152-193 | list and table change as the step of the pure filter says, or a null pointer is read exactly at an untyped allocation of an indexed resource |
| `LeakPass.NextToVisit` | src/common/dlist.c:204-212 | whatever visited calls have been removed, the node read before the callback is the next of the original list |
| `LeakPass.Visit` | src/common/dlist.c:204-212 | one turn of the walk: the next node is right and the list is as the first calls leave it |
| `LeakPass.RunKeepsIndexed` | src/rtrace-postproc/filter.c:152-193 | the index never points at a call that has left the list, so only visited calls are removed |
| `LeakPass.TypesSufficeExactly` | src/rtrace-postproc/filter.c:157-161 | the condition on the list is the one that the callback meets at each call |
| `LeakPass.UntypedTwice` | src/rtrace-postproc/filter.c:157-161 | two untyped allocations of one id make the callback read a null pointer |
| `LeakPass.FilterLeaks` | src/rtrace-postproc/filter.c:376-389 | every call of the original list is visited once and the list ends as the survivors, in their order; a null pointer is read if and only if an untyped allocation meets a resource still held |
| `StoreFilter.BacktracesInUse` | src/common/rtrace_data.c:247-262 | the backtraces of a valid store are just those of its calls |
| `StoreFilter.FilterStore` | src/rtrace-postproc/filter.c:376-389 | filtering the whole store keeps it valid and leaves the survivors in order and just the backtraces they use |
| `LeaksSort.GroupsPartitionCalls` | src/rtrace-postproc/leaks_sort.c:56-66 | the calls behind the stored backtraces are the calls of the store, each once |
| `LeaksSort.CountLeaks` | src/rtrace-postproc/leaks_sort.c:42-47 | the loop gives the number and the sum of sizes of the calls behind one backtrace, cut to 32-bit integers |
| `LeaksSort.SumLeaks` | src/rtrace-postproc/filter.c:420-432 | adds every allocation to the slot below its type id, the first slot when it has no type, in a 32-bit count and a 64-bit size |
| `LeaksSort.SlotsConserved` | src/rtrace-postproc/filter.c:420-432 | the figures of the slots add up to the number and the size of all leaks if and only if every slot can hold its own |
| `LeaksSort.LeaksConserved` | src/rtrace-postproc/leaks_sort.c:42-66 | in any order, the figures of the backtraces add up to the number and the size of all leaks if and only if no backtrace has 2^31 of either |
| `LeaksSort.LeaksAgree` | src/rtrace-postproc/leaks_sort.c:88-96 | where every slot holds its own, backtraces and resource types agree if and only if no backtrace overflows |
| `LeaksSort.TwoLargeLeaks` | src/rtrace-postproc/leaks_sort.c:45 | two leaks of 0x7fffffff bytes behind one backtrace read as -2 |
| `LeaksSort.CompareLeaksSign` | src/rtrace-postproc/leaks_sort.c:68-86 | a comparison has the sign of the difference of the leaks themselves if and only if the low bits of that difference agree; below 2^32, if and only if it is a 32-bit integer |
| `LeaksSort.ExactFiguresRight` | src/rtrace-postproc/leaks_sort.c:68-86 | backtraces whose figures did not overflow are always compared right |
| `LeaksSort.CompareLeaksExact` | src/rtrace-postproc/leaks_sort.c:68-86 | on a set of backtraces all comparisons are right if and only if all differences of leaks agree; below 2^32, if and only if all are 32-bit integers |
| `LeaksSort.LargeLeakMisplaced` | src/rtrace-postproc/leaks_sort.c:70 | 0xfffffffe bytes are compared below a single byte |
| `LeaksSort.CompareLeaksTotal` | src/rtrace-postproc/leaks_sort.c:68-86 | where all comparisons are right they are a total preorder on the figures |
| `LeaksSort.CollectLeaks` | src/rtrace-postproc/leaks_sort.c:56-66 | one summary for every stored backtrace, none missing or twice |
| `LeaksSort.SortLeaks` | src/rtrace-postproc/leaks_sort.c:88-96 | the listed figures become a stable sort by the chosen order, ties as they were listed |
| `LeaksSort.SortStoreLeaks` | src/rtrace-postproc/leaks_sort.c:88-96 | the figures of all stored backtraces in sorted order, each once; where all comparisons are right, in the order of the leaks themselves, not only of their figures |
| `Compression.PlainRoundTrip` | src/rtrace-postproc/writer.c:108-130 | the uncompressed form reads back as the calls of the store, whatever the comments |
| `Compression.CompressedRoundTrip` | src/rtrace-postproc/writer.c:132-173 | the compressed form reads back as the store says if and only if no comment falls inside a group with frames |
| `Compression.GroupLoadsExactly` | src/rtrace-postproc/parse_text.c:215-368 | one group is loaded whole unless a comment cuts it and it has frames |
| `Compression.CompareCallsSign` | src/rtrace-postproc/parse_text.c:169-175 | two calls are compared right, both ways, if and only if the difference that decides lies strictly between -2^31 and 2^31 |
| `Compression.CompareCallsExact` | src/rtrace-postproc/parse_text.c:169-175 | on a set of calls the comparison is the order by timestamp and index if and only if all those differences fit |
| `Compression.CompareCallsTotal` | src/rtrace-postproc/parse_text.c:169-175 | then it is a total preorder |
| `Compression.CompareCallsCircle` | src/rtrace-postproc/parse_text.c:169-175 | three calls that compare in a circle when timestamps are far apart |
| `Compression.CompressionLosesNothing` | src/rtrace-postproc/parse_text.c:184-372 | both forms load to the same calls, order, arguments and backtraces if and only if no comment cuts a group |
| `Compression.SortedStoreRoundTrip` | src/rtrace-postproc/writer.c:316-334 | a store in call order reads back unchanged from either form |
| `Compression.DueExactly` | src/rtrace-postproc/writer.c:81-84 | with the cursor where earlier calls leave it, comments are written before a call if and only if it is the first to overtake some comment |
| `Compression.OutsideExactly` | src/rtrace-postproc/writer.c:132-173 | the cursor stops inside a group if and only if a comment falls there |
| `Compression.StrayIgnored` | src/rtrace-postproc/parse_text.c:223-251 | frames and arguments without a call before them change nothing |
| `Compression.NoteIgnored` | src/rtrace-postproc/parse_text.c:216-217 | a temporary comment anywhere in the input changes nothing |
| `Comments.PlainPlacesComments` | src/rtrace-postproc/writer.c:108-130 | the uncompressed form has the calls in order and every comment once, in order; a comment stands before a call if and only if that call, or one written earlier, has a larger index than it and than every comment before it |
| `Comments.CompressedPlacesComments` | src/rtrace-postproc/writer.c:132-173 | the same of the compressed form, whose calls stand group by group |
| `Comments.EveryCommentRead` | src/rtrace-postproc/parse_text.c:345-355 | the reader gives every comment of any input, in order, with the index of the last call before it |
| `Comments.CommentsRoundTrip` | src/rtrace-postproc/parse_text.c:184-372 | when calls are written in index order, the comments read back with index and text if and only if their indices ascend and each is that of a call, or zero before the first |
| `TextIO.WriteComments` | src/rtrace-postproc/writer.c:81-106 | writes the comments that are due and moves the cursor past them |
| `TextIO.WriteCall` | src/rtrace-postproc/writer.c:108-130 | writes comments, call and arguments of one call |
| `TextIO.WritePlainCalls` | src/rtrace-postproc/writer.c:316-334 | the loop over the calls writes the uncompressed form |
| `TextIO.WriteGroup` | src/rtrace-postproc/writer.c:132-173 | writes one group of the compressed form |
| `TextIO.WriteCompressedCalls` | src/rtrace-postproc/writer.c:316-334 | the loop over the backtraces writes the compressed form |
| `TextIO.LoadPending` | src/rtrace-postproc/parse_text.c:111-134 | gives the pending calls their backtrace and empties the pending list |
| `TextIO.ReadTextData` | src/rtrace-postproc/parse_text.c:184-372 | the reader's state machine loads the calls and the comments that reading record by record defines |
| `StoreText.StorePartition` | src/common/rtrace_data.c:234-302 | the backtraces of a valid store partition its calls, in any order of the backtraces |
| `StoreText.StoreCompression` | src/rtrace-postproc/writer.c:316-334 | for every valid store and every order of backtraces compression loses nothing unless a comment cuts a group |
| `StoreText.StoreRoundTrip` | src/rtrace-postproc/writer.c:316-334 | a valid store in call order reads back, from the uncompressed form always and from the compressed one unless a comment cuts a group, as its call list: records, arguments and the addresses of the backtraces |
| `Bytes.PacketIsFramed` | src/modules/sp_rtrace_main.c:150-168 | a packet built with its length is found again, whole, in front of any bytes |
| `Bytes.PacketsOfConcat` | src/rtrace/listener.c:231-250 | cutting the concatenation of framed packets gives those packets |
| `Bytes.EncodedByte` | src/common/sp_rtrace_proto.h:262-289 | the i-th byte of a number in a packet counts multiples of 256^i |
| `Protocol.StringRoundTrip` | src/common/sp_rtrace_proto.h:201-217 | decoding undoes encoding of every string that a packet can carry, and uses exactly its bytes; no string reads as empty |
| `Protocol.StringEndFound` | src/common/sp_rtrace_proto.h:291-312 | the reader finds the end of a string if and only if it has at most 65534 bytes, so that the padded length fits the 16-bit field |
| `Protocol.StringBytes` | src/common/sp_rtrace_proto.h:291-312 | two bytes for the padded length, the characters, and as few zeros as make the whole a multiple of four |
| `Protocol.NoStringBytes` | src/common/sp_rtrace_proto.h:307-311 | an absent string is four zeros |
| `Protocol.TypesSpelled` | src/common/sp_rtrace_proto.h:44-55 | the twelve packet types are those four letters, the first in the lowest byte |
| `Protocol.LettersSent` | src/common/sp_rtrace_proto.h:41 | a packet begins with the letters of its type |
| `Protocol.CallPacketBytes` | src/modules/sp_rtrace_main.c:810-826 | every field of a call packet stands at its offset |
| `Protocol.ArgBytes` | src/modules/sp_rtrace_main.c:828-842 | the count, then name and value of each argument in order |
| `Protocol.FrameBytes` | src/modules/sp_rtrace_main.c:844-852 | the count, then the frames in order, each as wide as a pointer |
| `Protocol.CallRoundTrip` | src/rtrace-postproc/parse_binary.c:217-249 | a call packet decodes to the call that was traced |
| `Protocol.ArgsRoundTrip` | src/rtrace-postproc/parse_binary.c:274-290 | an arguments packet decodes to the arguments, in order |
| `Protocol.FramesRoundTrip` | src/rtrace-postproc/parse_binary.c:251-272 | a backtrace packet decodes to the frames |
| `Protocol.GroupAligned` | src/modules/sp_rtrace_main.c:142-172 | every packet of a call has a length that is a multiple of four |
| `Protocol.GroupRoundTrip` | src/rtrace-postproc/parse_binary.c:364-443 | the packets of a call add one record, with its arguments and its backtrace |
| `Protocol.TraceAttaches` | src/rtrace-postproc/parse_binary.c:364-443 | a backtrace belongs to the last call if and only if nothing but arguments, output settings or an attachment came between; a packet of any other unlisted type ends decoding |
| `PacketWriter.Writer.WriteString` | src/common/sp_rtrace_proto.h:291-312 | copy and padding loops write the encoding of the string |
| `PacketWriter.Writer.EndPacket` | src/modules/sp_rtrace_main.c:165-172 | puts the length of what was written into the room left for it |
| `PacketWriter.Writer.WriteCallPacket` | src/modules/sp_rtrace_main.c:810-826 | writes the call packet behind what was written before |
| `PacketWriter.Writer.WriteArgsPacket` | src/modules/sp_rtrace_main.c:828-842 | writes the arguments packet, with the count put in afterwards |
| `PacketWriter.Writer.WriteTracePacket` | src/modules/sp_rtrace_main.c:844-852 | writes the backtrace packet |
| `PacketWriter.Writer.WriteFunctionCall` | src/modules/sp_rtrace_main.c:810-857 | the bytes written for a call are the concatenation of its packets |
| `PipeBuffer.NextInv` | src/modules/sp_rtrace_main.c:289-359 | every step of every thread keeps the invariant of buffer, lock and program counters |
| `PipeBuffer.EveryInterleavingSafe` | src/modules/sp_rtrace_main.c:289-359 | in every interleaving: writes and buffer make up the completed groups, which are the groups in lock order but for the one in hand; no group is split between two writes, no write is larger than the sending size, the head is within the sending size when the lock is free, the early return is not reached, and one thread holds the lock |
| `PipeBuffer.NeverBlocked` | src/modules/sp_rtrace_main.c:325-359 | in every interleaving the thread that has the lock can take a step of its own |
| `PipeBuffer.Pipe.Flush` | src/modules/sp_rtrace_main.c:306-323 | sends the buffered bytes and empties the buffer |
| `PipeBuffer.Pipe.MoveToStart` | src/modules/sp_rtrace_main.c:345-350 | the copying loop moves the last group to the start |
| `PipeBuffer.Pipe.Unlock` | src/modules/sp_rtrace_main.c:338-359 | no byte is lost for any group size, and the head stays within the sending size exactly when the group does |
| `Listener.Output.WriteData` | src/rtrace/listener.c:96-109 | appends to the output stream; without buffering every packet is a write, with it a write happens exactly when the buffer reaches the sending size |
| `Listener.Forward` | src/rtrace/listener.c:231-315 | sends the packet, the mappings in place of a new library, the handshake in front of output settings; in a process info packet without seconds the bytes of seconds and microseconds are the time of day and all others are as they came, and one with seconds is sent as it came |
| `Listener.RewriteFillsTime` | src/rtrace/listener.c:271-280 | the same of the stream that the listener has to send |
| `Listener.HandshakeIsWhole` | src/rtrace/listener.c:203-222 | a handshake of two bytes and as many more as the second says is cut off whole |
| `Listener.ProcessPacket` | src/rtrace/listener.c:231-315 | processes the packet in front, or reports that it is not whole yet |
| `Listener.ProcessPackets` | src/rtrace/listener.c:321-383 | takes all whole packets off the data and leaves less than one |
| `Listener.ReadBehind` | src/rtrace/listener.c:350-372 | the incomplete packet moves to the front and the next read follows it, inside the double buffer |
| `Listener.ProcessData` | src/rtrace/listener.c:321-383 | however a well-formed stream is cut into reads, with buffering or not, the output is the handshake and the rewriting of the packets of the one-shot parse |
| `BinaryReader.ReadPackets` | src/rtrace-postproc/parse_binary.c:319-360 | decodes whole packets up to one of unknown type |
| `BinaryReader.ReadBinaryData` | src/rtrace-postproc/parse_binary.c:452-511 | however the stream is cut into reads, the calls decoded are those of the packets of the whole stream |
| `BinaryReader.StoppedForGood` | src/rtrace-postproc/parse_binary.c:319-360 | after an unknown packet nothing more is decoded |
| `Pipeline.CallDelivered` | src/modules/sp_rtrace_main.c:810-857 | the packets of a call go through the listener untouched and together, and decode to its record |
| `Pipeline.CallsArrive` | src/rtrace/listener.c:231-315 | whatever packets come between calls and whatever mappings are added, the stream sent on can be read and exactly the traced calls decode, in order, each with its own arguments and backtrace |
| `Pipeline.PipeCarriesUnits` | src/modules/sp_rtrace_main.c:325-359 | in every interleaving the flushed pipe has carried the handshake and then the packets of the groups, unmixed |
| `Pipeline.CarryCalls` | src/rtrace-postproc/parse_binary.c:452-511 | from the threads to the records: for every interleaving, every cutting of both streams into reads and everything the listener adds, exactly the traced calls are decoded, in order |
| `EmuView.AllocKeeps` | src/modules/sp_rtrace_memory.c:173-194 | an allocation places an aligned chunk behind all others or ends the process; it breaks the heap if and only if its end wraps around past the test |
| `EmuView.PassesExactly` | src/modules/sp_rtrace_memory.c:185 | without wrapping the test is right; inside the heap every wrapping sum passes it |
| `EmuView.SpaceOfBytes` | src/modules/sp_rtrace_memory.c:185 | there are as many addresses as the bytes of a pointer have values |
| `EmuView.CallocKeeps` | src/modules/sp_rtrace_memory.c:202-211 | `calloc` gives a chunk of zeros or ends the process; it breaks the heap if and only if its size argument wraps past the test |
| `EmuView.CallocExactly` | src/modules/sp_rtrace_memory.c:202-211 | a chunk given by `calloc` is sound and of the size asked for if and only if the product is below 2^31 and does not wrap |
| `EmuView.CallocBreaks` | src/modules/sp_rtrace_memory.c:204-206 | a first `calloc` of 2^31 bytes breaks the heap wherever the array lies above 2^31 |
| `EmuView.MemalignKeeps` | src/modules/sp_rtrace_memory.c:213-224 | the chunk is aligned as asked and to eight; a request is refused if and only if the alignment is not the pointer size times a power of two |
| `EmuView.GoodAlignments` | src/modules/sp_rtrace_memory.c:215 | the test of the alignment accepts the pointer size times each power of two, and nothing else |
| `EmuView.FirstFit` | src/modules/sp_rtrace_memory.c:173-257 | every request that does not wrap gets the first aligned place that leaves room for a header behind the last chunk, or keeps its place when it resizes that chunk, and ends the process exactly when the chunk would reach the end |
| `EmuView.FreeKeeps` | src/modules/sp_rtrace_memory.c:226-232 | one chunk fewer; only the last one makes room; no other chunk changes |
| `EmuView.ReallocKeeps` | src/modules/sp_rtrace_memory.c:234-257 | the first bytes up to the smaller size are kept, in place for the last chunk and by copying for another, and no other chunk changes, if and only if the size does not wrap past the test |
| `EmuView.PerformKeeps` | src/modules/sp_rtrace_memory.c:173-257 | every request keeps the heap sound if and only if it does not wrap past the test, and then keeps every chunk that it does not name |
| `EmuView.RunSoundExactly` | src/modules/sp_rtrace_memory.c:173-257 | from the start, the heap is sound throughout a run of requests if and only if none of them wraps past the test |
| `EmuView.ChunksApart` | src/modules/sp_rtrace_memory.c:173-257 | in such a run chunks and headers are pairwise disjoint, inside the heap and aligned |
| `EmuView.ChunkLasts` | src/modules/sp_rtrace_memory.c:173-257 | in such a run a chunk keeps place, size and bytes as long as no request names it |
| `EmuHeap.Heap.AllocMem` | src/modules/sp_rtrace_memory.c:173-194 | the method over the bytes does what the computation says, in the arithmetic of pointers |
| `EmuHeap.Heap.EmuMalloc` | src/modules/sp_rtrace_memory.c:197-200 | as computed, and sound if and only if the size does not wrap past the test |
| `EmuHeap.Heap.EmuCalloc` | src/modules/sp_rtrace_memory.c:202-211 | the product, its cut and the clearing loop do as computed |
| `EmuHeap.Heap.EmuPosixMemalign` | src/modules/sp_rtrace_memory.c:213-224 | the test of the alignment and the allocation do as computed; refused if and only if the alignment is not the pointer size times a power of two |
| `EmuHeap.Heap.EmuFree` | src/modules/sp_rtrace_memory.c:226-232 | the last header is cleared, nothing else |
| `EmuHeap.Heap.CopyBytes` | src/modules/sp_rtrace_memory.c:247-254 | the copying loop moves bytes to a place behind them and touches no others |
| `EmuHeap.Heap.EmuRealloc` | src/modules/sp_rtrace_memory.c:234-257 | freeing, allocating and copying do as computed |
| `TextCall.PrintCall` | src/library/sp_rtrace_formatter.c:99-153 | appends the fields of the line in order; `None` when they do not fit the buffer |
| `TextCall.LineLaidOut` | src/library/sp_rtrace_formatter.c:99-153 | the line with its marks and blanks: index, context in hexadecimal, clock, name, type unless hidden, size and id |
| `TextCall.OthersPrintAsFrees` | src/library/sp_rtrace_formatter.c:144-149 | a record that is neither an allocation nor a free prints as a free |
| `TextCall.PrintClock` | src/library/sp_rtrace_formatter.c:114-122 | dividing remainders prints the hours, minutes, seconds and milliseconds of the time |
| `TextCall.ClockShape` | src/library/sp_rtrace_formatter.c:114-122 | below 100 hours the clock has twelve characters, each digit and mark at its place |
| `TextCall.TimeOfPrinting` | src/library/sp_rtrace_formatter.c:107-113 | a time of all ones prints as the moment of printing, and no other time depends on that moment |
| `TextCall.ScanInt` | src/library/sp_rtrace_parser.c:91 | the loops over blanks, sign, base prefix and digits read what a number conversion reads |
| `TextCall.NumberScanned` | src/library/sp_rtrace_parser.c:91 | blanks, a sign, for base sixteen a prefix, and digits up to the first other character scan as that number |
| `TextCall.DigitValues` | src/library/sp_rtrace_parser.c:91 | the values of the ten digits and of the letters in both cases |
| `TextCall.UnsignedWraps` | src/library/sp_rtrace_parser.c:97-104 | a negative number in an unsigned field counts down from the end of its range |
| `TextCall.FindLast` | src/library/sp_rtrace_parser.c:113-115 | the backward walk finds the last such character, or none |
| `TextCall.ParseBody` | src/library/sp_rtrace_parser.c:113-127 | the cursor stops at the arguments, with the name and the type between the marks found |
| `TextCall.ParseCall` | src/library/sp_rtrace_parser.c:78-154 | the loops that move a cursor over the line read what the specification of the line says, including refused lines and undefined behaviour |
| `TextCall.IntScanned` | src/library/sp_rtrace_parser.c:90-95 | scanning undoes the decimal printing of every integer |
| `TextCall.ContextRead` | src/library/sp_rtrace_parser.c:97-104 | the hexadecimal context is read back |
| `TextCall.TimeRead` | src/library/sp_rtrace_parser.c:105-112 | the printed time is read back if an integer holds it; otherwise the sum overflows |
| `TextCall.ArgsRead` | src/library/sp_rtrace_parser.c:128-137 | size and id of an allocation, id of a free are read back |
| `TextCall.BodyRead` | src/library/sp_rtrace_parser.c:113-137 | name, type and arguments are read back if and only if name and type can be told apart |
| `TextCall.FieldsRead` | src/library/sp_rtrace_parser.c:96-112 | the reader reaches the body exactly when no absent field is found in it; otherwise it starts inside the body |
| `TextCall.CallRoundTrip` | src/library/sp_rtrace_parser.c:78-154 | a printed call is read back if and only if it is printable; a type that is referred to and not hidden, or named, comes back by name, and any other is absent |
| `TextCall.PlainNames` | src/library/sp_rtrace_parser.c:96-112 | names that begin with neither `@` nor `[` are never mistaken |
| `TextCall.PlainTypes` | src/library/sp_rtrace_parser.c:120-127 | a type without a parenthesis is clear exactly when it is not empty, fits and has no angle brackets |
| `TextCall.PlainRoundTrip` | src/library/sp_rtrace_parser.c:78-154 | records with plain names and types, a time below 2^31 and no size for a free are read back |
| `TextCall.NameMistaken` | src/library/sp_rtrace_parser.c:96-104 | a name that is taken for a context |
| `TextCall.PrintableFits` | src/library/sp_rtrace_formatter.c:101 | whatever can be read back fits the print buffer |
| `Density.SweepPage` | src/rtrace-pagemap/density_report.cpp:65-88 | one page gets the bytes of all blocks that overlap it, and what is left is carried on |
| `Density.SweepBlocks` | src/rtrace-pagemap/density_report.cpp:68-84 | the inner loop adds the blocks that begin on the page |
| `Density.WriteMemoryMap` | src/rtrace-pagemap/density_report.cpp:50-97 | the sweep gives each page the sum of overlaps with all blocks; no page is marked as overfull |
| `Density.NoPageOverfull` | src/rtrace-pagemap/density_report.cpp:89-92 | no page holds more than its size |
| `Density.PagesAddUp` | src/rtrace-pagemap/density_report.cpp:57-94 | the pages add up to all bytes in use, cut to the area |
| `Density.DigitMeaning` | src/rtrace-pagemap/density_report.cpp:34-48 | a digit means what the legend says if and only if the page is not filled to whole tenths |
| `SortedArray.CompareSign` | src/rtrace-resolve/resolver.c:227-234 | the sign of a comparison is right if and only if the difference is a signed 64-bit number |
| `SortedArray.FarAddress` | src/rtrace-resolve/resolver.c:227-234 | an address more than 2^63 above a range that compares below it |
| `SortedArray.MakeRoom` | src/rtrace-resolve/sarray.c:61-65 | the shifting loop opens the gap where the range belongs |
| `SortedArray.SArray.Add` | src/rtrace-resolve/sarray.c:52-67 | the array becomes the old one with the range inserted, growing when full |
| `SortedArray.InsertChain` | src/rtrace-resolve/sarray.c:52-67 | the array stays in order if and only if the new range lies beside every other, and its start is compared right with every range above and with the nearest below unless that contains it |
| `SortedArray.AddedInAnyOrder` | src/rtrace-resolve/sarray.c:52-67 | after any sequence of additions of ranges with disjoint interiors the array holds just them; it is in address order if and only if each was placed right, as is always so when no starts are 2^63 apart |
| `SortedArray.EmptyRangeHides` | src/rtrace-resolve/resolver.c:227-234 | an empty range that goes behind another and hides its addresses |
| `SortedArray.SArray.Find` | src/rtrace-resolve/sarray.c:69-82 | binary search finds only ranges that contain the address, and one if there is one while the array is in order and the differences fit |
| `NameRegistry.CalcRawHash` | src/modules/sp_rtrace_shmposix.c:205-218 | the loop computes the hash of the signed characters |
| `NameRegistry.RoundArithmetic` | src/modules/sp_rtrace_shmposix.c:209-213 | a round multiplies and adds modulo 2^32 and mixes in the sum divided by 64 |
| `NameRegistry.CharacterIsSigned` | src/modules/sp_rtrace_shmposix.c:210 | a character above 0x7f counts as a negative number |
| `NameRegistry.FinalArithmetic` | src/modules/sp_rtrace_shmposix.c:214-216 | the three final steps, modulo 2^32 |
| `NameRegistry.ShortNames` | src/modules/sp_rtrace_shmposix.c:205-218 | the hashes of the empty name, of one letter and of one character above 0x7f |
| `NameRegistry.Registry.HashExists` | src/modules/sp_rtrace_shmposix.c:230-260 | the walk over all nodes says whether an id is taken |
| `NameRegistry.Registry.CalcHash` | src/modules/sp_rtrace_shmposix.c:268-275 | the probe ends, on the first free number from the hash on, around the end |
| `NameRegistry.Registry.GetHash` | src/modules/sp_rtrace_shmposix.c:286-303 | a known name gets its id, a new one is added with a free id, and nothing else changes |
| `NameRegistry.ProbeFree` | src/modules/sp_rtrace_shmposix.c:268-275 | by pigeonhole a probe over fewer than 2^32 taken ids ends on a free one |
| `NameRegistry.FreeLeft` | src/modules/sp_rtrace_shmposix.c:268-275 | there is a free id if and only if fewer than 2^32 are taken |
| `NameRegistry.DistinctIds` | src/modules/sp_rtrace_shmposix.c:286-303 | in every history distinct names have distinct ids, and just the requested names have one |
| `NameRegistry.IdStays` | src/modules/sp_rtrace_shmposix.c:286-303 | a name keeps its first id in every longer history |
| `Totals.NonFreedIsLive` | src/rtrace-timeline/resource_registry.cpp:36-70 | allocations less reported frees are the registered allocations and those replaced by another with the same id |
| `Totals.NeverNegative` | src/rtrace-timeline/processor.cpp:57-145 | the count and the size not freed are never negative, also when the report was given up |
| `Totals.FiguresExact` | src/rtrace-timeline/totals_generator.cpp:53-139 | counts and sizes, not freed and in all, are exact if and only if the numbers behind them fit the counters; the total of all contexts is the size not freed |
| `Totals.OverheadExact` | src/rtrace-timeline/totals_generator.cpp:77-81 | the overhead is the size not freed and a fixed amount for each allocation not freed |
| `Totals.PeakMoves` | src/rtrace-timeline/totals_generator.cpp:70-76 | an allocation that takes the size above the peak is the new peak, reached there first |
| `Totals.PeakStays` | src/rtrace-timeline/totals_generator.cpp:70-76 | any other report leaves the first maximum where it is |
| `Totals.PeakIsMaximum` | src/rtrace-timeline/totals_generator.cpp:70-76 | without overflow the peak is the maximum over all times |
| `Totals.ResourceTotals.ReportAlloc` | src/rtrace-timeline/totals_generator.cpp:53-108 | the figures are those of the reports seen and this one; without a time the report is given up |
| `Totals.ResourceTotals.ReportFree` | src/rtrace-timeline/totals_generator.cpp:110-139 | the figures are those of the reports seen and this one |
| `Totals.Processor.RegisterAlloc` | src/rtrace-timeline/processor.cpp:57-99 | registry and report follow the history, also for an id that is allocated again |
| `Totals.Processor.RegisterFree` | src/rtrace-timeline/processor.cpp:101-145 | a free is reported with the size of the allocation it ends, or not at all |

## Left out

- Function interception, dynamic linking, fork and exec, signals and pipes as objects of the operating system; the unlocked flush in the signal handler is not a thread step.
- `EmuHeap.Heap.AllocMem`: what happens after a write outside the array, or in a heap that a wrapping size has broken, is not modelled.
- `Listener.ProcessData`: is about reads that no signal interrupts, and about complete writes; the retry after an interrupted read goes on with a stale pointer (src/rtrace/listener.c:370-372). The handshake is assumed to come whole with the first read, at most 257 bytes, or the data is refused; the cached copy has room for 256 of these bytes in the source, and a first read of a single byte is left out.
- `BinaryReader.ReadBinaryData`: little-endian numbers and protocol headers of version 2 and later only; context, resource, process, module, attachment and mapping packets pass without being decoded.
- `LeakPass.FilterLeaks`: after a read through a null pointer nothing is promised but that the list is well formed.
- `TraceStore.Store.FcallsSetFtrace`: asks that no call is twice in the group, as in a list of calls just read.
- `TraceStore.Store.FcallRemove`: reference counts are unbounded integers and the lists of calls and references are sequences; the linked form of such lists is proved in `DList`. Call arguments and backtraces without frames are not told apart from absent ones.
- `HTable.Table.Store`: the buckets are sequences instead of linked lists.
- Shortening of stored backtraces (`filter_trim_backtraces`), after which they need not be unique; the model is of the store before it.
- `Compression.CompressionLosesNothing`: works on records, not characters, and without context records, whose data the reader does not copy; frames are addresses and resolved names together.
- `TextCall.ParseCall`: numbers that no C integer holds are undefined behaviour in the model, and so are names and types that do not fit their buffers; characters are not bytes of an encoding, and records are never masked out. `TextCall.PrintCall` takes the clock to be readable when a record asks for the time of printing.
- `Density.WriteMemoryMap`: asks for blocks in address order that do not overlap and begin in the area; the source itself says that other input is counted wrongly. Sizes are not negative.
- `LeaksSort.SortLeaks`: asks that the comparison is a total preorder on the figures, as it is where all comparisons are right; otherwise the sort promises nothing. `LeaksSort.SortStoreLeaks` asks the same.
- `NameRegistry.Registry.GetHash`: the search tree of the C library is a map; failing allocations are left out.
- `Totals.Processor.RegisterAlloc`: one resource type, not reference counted, and the context of all events; totals of other contexts can wrap below zero when a resource is freed in a context it was not allocated in. Event filters, data files and axis ranges are left out.
- `LeaksSort.LeaksConserved`: is about the accumulated arrays, for sizes that are not negative; the printed summary picks its slot by another rule (src/rtrace-postproc/writer.c:208). Sums that leave 32 bits wrap around, and sizes have 64 bits.
- The heap information packet, whose writer and reader disagree on the width of addresses.
- Sorted insertion into lists (src/common/dlist.c:82-158), which only the tests of the repository call, and the filters by context, resource, index and address, each of which keeps the calls that one test on a single call lets through.
- The reference-counted branch of the timeline registry, which its parser never enables; histograms and lifetimes; symbol lookup, name cache, gnuplot output, options and page flags.
