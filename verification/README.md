# alib-c: containers, framing decoder and timers, modelled and proved

alib-c is a C library of stateful objects. This project models five groups of
them as Dafny classes, proves each method against a function or a sequence, and
proves the library's promises about those:

- **Framing** (`Memory`, `BinaryBuffers`, `Framing`, `FramingTheorems`,
  `FramingSchedules`, `ComDataChecks`): the growable byte buffer, and the decoder of length-prefixed
  frames on top of it. The decoder is proved equal to a function on values, and
  that function is compared with a pure parser over every chunking of a stream and
  every schedule of calls.
- **Ring buffer** (`RBuffs`, `RingTheorems`, `RBuffIts`): a block of memory with
  two moving iterators refines a bounded first-in-first-out sequence.
- **Linked lists** (`DListItems`, `DLists`): chains of heap nodes refine sequence
  operations; the list object caches ends and length.
- **Slot arrays** (`SlotSeq`, `ArrayLists`, `ArrayListTheorems`, `MemPools`,
  `MemPoolTheorems`): scans without a bound test, compaction, order-preserving
  shrinking, and a block pool.
- **Timers** (`Timespecs`, `Timers`, `EventOrder`, `EventTheorems`,
  `EventSchedules`, `TimerEventHandlers`): normalised times, drift-free periodic
  events, an event list kept in order, and when the handler's thread follows a null
  pointer.

`AlibErrors` holds the error codes. A pointer into a block is an index into an
array; a list node is an object, and the chain it is in is a ghost sequence.
Allocation succeeds, `memcpy` copies in ascending order, and readings of the clock
are parameters. Machine widths are explicit where the code depends on them
(`size_t` sums that wrap, `int32_t` lengths and totals, `size_t` to `long`).

## Where the code does not do what it says

Each of these is a result about the code as it is, with the exact condition under
which the promise holds.

- A stream survives the wire exactly when every payload has at most INT32_MAX bytes
  and the last one is not empty, and a single payload exactly when its length is
  between 1 and INT32_MAX (`RoundTrip`, `OnePayloadRoundTrip`). An empty append
  before a header is read delivers an empty payload that was never sent
  (`DecoderAgreesWithParser`).
- A frame of length 0 makes the decoder forget that it has read a header, so its
  state depends on where the stream was cut (`ChunkingIndependence`). Over every
  schedule of appends, reads and processing calls nothing is lost exactly when each
  empty payload that is offered is read before the next call (`ScheduleDelivers`).
- `BinaryBuffer_remove` loses the last byte when the range stops just before it
  (`RemovedIsTheRangeUnlessItStopsOneShort`).
- `BinaryBuffer_replace` writes through a pointer that is stale when the buffer had
  to grow and was not extended in place (`Replace`), and a removal that starts beyond
  the length makes the buffer longer (`Remove`).
- `RBuff_pushback` counts in an `int32_t` (`NewCountIsExact`): over a run from the
  empty buffer the count is right and no byte is lost exactly when no push
  overwrites a byte or is too long (`NothingLostUnlessOverflow`).
- An iterator never reaches the end of a ring buffer whose end iterator rests on
  the end of the block (`TraversalEnds`).
- `DList_pull_out_count` and `DList_move` leave the cached end on the wrong node
  in some cases (`PullOutCount`, `Move`); a range that starts beyond the end takes
  the last node (`PullBeyond`). A count above 2^63, such as the largest one for "all
  the rest", turns negative as a `long`: a range from the first node takes that node
  alone, one from further behind takes all that follow and leaves nodes in neither
  list (`TakesTheRange`). `DList_insert_before` counts one node however many are
  inserted (`InsertItemBefore`).
- `ArrayList_resize` frees the items that no longer fit, although its comment
  says it does not; a resize to 0 drops them without freeing. After a resize beyond
  the maximum, an addition to the full list writes behind the array and reports
  success. Nothing else loses an item (`Conservation`, `OverrunHappens`).
- `MemPool` doubles past its maximum unless doubling the start capacity meets it
  (`CapacityWithinMaximum`).
- `memcpy_back` is documented to return its destination and returns the byte
  before it (`CopyBack`).
- `add_event` follows a null pointer exactly when the event belongs before the first
  one of the list, or has its time (`AddEvent`). A ringing timer is put back by the
  same code, so the handler's thread does so exactly when the timer stays first
  (`CheckHead`). Each check that rings reads the clock twice and moves the end by the
  gap between the readings. With nothing known about the gaps it is never so exactly
  when there is a single timer (`AnyClock`); a given run of two timers is decided by
  its gaps (`TwoTimersRun`). While the gaps add up to a budget at most, it is never so
  with two timers exactly when their periods are equal and their ends further apart
  than the budget, in either direction around the period (`TwoTimers`), and not with
  any number of timers of one period of which two are that far apart (`SpreadIsSafe`).
  If no time at all goes by between the two readings of a check, it is never so, with
  timers of one period, exactly when one of them ends within a period after the first
  and not together with it (`EqualPeriods`), and with any periods exactly when at
  every time at which timers ring one of them does not ring again before another one
  does (`AnyPeriods`). A timer added to an empty running handler is not begun
  (`AddEvent`).
- `timespec_fix_values_fast` leaves a full second of nanoseconds in place, so
  times may have two forms, which `timespec_cmp_fast` tells apart
  (`CmpFollowsTime`, `OneTimeTwoForms`).

## Model

| member | source | states |
|---|---|---|
| FramingTheorems.RoundTrip | source/ComDataCheck.c:64-207 | payloads, framed, concatenated and cut into any non-empty chunks, come back from the receiving loop exactly, in order, with nothing left over, if and only if each has at most INT32_MAX bytes and the last one is not empty; streams with a longer payload are shorter than 2^63 bytes |
| FramingTheorems.OnePayloadRoundTrip | source/ComDataCheck.c:189-207 | one payload framed by the sender is parsed back exactly when its length is from 1 to INT32_MAX |
| FramingTheorems.RoundTripFails | source/ComDataCheck.c:64-169 | with an empty last payload, exactly that payload is missing |
| FramingSchedules.ScheduleDelivers | source/ComDataCheck.c:6-181 | over every schedule of appends, reads followed by a clear, and processing calls: the frames of the payloads read, followed by what is held, are the stream, and the payloads read are the first ones of the parser, whose others are those of what is held, if and only if every offered empty payload is read before the next call |
| FramingSchedules.RunDelivers | source/ComDataCheck.c:6-181 | the same from any state on; each empty payload that is passed over costs its header and one payload, and nothing else |
| FramingSchedules.AppendAfterClear | source/ComDataCheck.c:71-80 | an append after a clear puts the new bytes behind those that were set aside |
| FramingSchedules.HeaderWrittenAgain | source/ComDataCheck.c:90-129 | any four bytes are the header of the length read from them |
| FramingTheorems.OversizeBreaksTheStream | source/ComDataCheck.c:189-207 | a stream shorter than 2^63 bytes with a payload of more than INT32_MAX bytes is not parsed back into its payloads |
| FramingTheorems.DecoderAgreesWithParser | source/ComDataCheck.c:6-181 | over every chunking the decoder ends in the state of the parser's rest, and delivers the parser's payloads if and only if no empty chunk arrives while a header is outstanding |
| FramingTheorems.RunParsesExactly | source/ComDataCheck.c:64-169 | from any rest on, chunks that deliver no payload that was never sent deliver exactly what parsing rest and chunks at once delivers |
| FramingTheorems.RunParses | source/ComDataCheck.c:64-169 | for any chunks the final state is the parser's, and the number delivered exceeds the parser's by the number of empty chunks that arrive while a header is outstanding |
| FramingTheorems.ParseUndoesFraming | source/ComDataCheck.c:189-207 | the parser inverts framing, whatever stream follows |
| FramingTheorems.ParseResumes | source/ComDataCheck.c:64-169 | parsing a stream in two parts, carrying the rest over, is parsing it at once |
| FramingTheorems.TrailingEmptyPayloadStaysBehind | source/ComDataCheck.c:90-145 | the frame of an empty last payload is left over as a bare header |
| FramingTheorems.ChunkingIndependence | source/ComDataCheck.c:6-153 | state and status after non-empty appends are a function of the concatenated bytes if and only if the first length is not 0 or at most one byte follows its header |
| FramingTheorems.AfterKeepsEveryByte | source/ComDataCheck.c:6-153 | that function loses, duplicates and reorders no byte; DATA_REMAINING exactly when bytes are set aside, WAITING exactly when at most a header was seen or the payload is short |
| FramingTheorems.DrainParses | source/ComDataCheck.c:6-40 | reading, clearing and processing while a payload is offered delivers what the parser finds |
| FramingTheorems.ReceiveStep | source/ComDataCheck.c:64-169 | one append of any length followed by that loop |
| FramingTheorems.AppendExtends | source/ComDataCheck.c:64-169 | an append to the state after `b` gives the state after `b` and the new bytes, also while bytes are set aside |
| FramingTheorems.FrameIsRecognised | source/ComDataCheck.c:90-129 | the decoder's view of a frame followed by other bytes is its payload and those bytes |
| Framing.HeaderRoundTrip | source/ComDataCheck.c:189-207 | a length survives its four bytes in network order |
| Framing.NetworkOrder | source/ComDataCheck.c:189-207 | headers compared from the first byte on have the order of their lengths |
| Framing.OperationsKeepSound | source/ComDataCheck.c:6-181 | every operation keeps the invariant that without an expected length at most a header is stored |
| Framing.ProcessKeeps | source/ComDataCheck.c:33-40 | processing adds no bytes, and when it waits nothing is set aside: why the mutual recursion ends |
| ComDataChecks.ComDataCheck.constructor | source/ComDataCheck.c:318-337 | a new object is in the initial state |
| ComDataChecks.ComDataCheck.Check | source/ComDataCheck.c:6-27 | the object moves as the value-level check does: surplus bytes move to the other buffer |
| ComDataChecks.ComDataCheck.ProcessBufferedData | source/ComDataCheck.c:33-40 | the same for processing what is set aside; terminates |
| ComDataChecks.ComDataCheck.Append | source/ComDataCheck.c:64-169 | the same for an append, with the mutual recursion, in every state, cleared ones included; an output object gathers the bytes and its length up to INT32_MAX |
| ComDataChecks.GatheringKeepsAll | source/ComDataCheck.c:150-168 | over a run of appends an output object holds all bytes in order; every append succeeds and the length is right while they fit a header, and the last one reports it when they do not |
| ComDataChecks.ComDataCheck.ReadHeader | source/ComDataCheck.c:90-129 | a header that arrives in two pieces is decoded from the bytes of both, and what follows it is stored |
| ComDataChecks.ComDataCheck.Clear | source/ComDataCheck.c:175-181 | forgets the payload and the length, keeps what is set aside |
| ComDataChecks.ComDataCheck.Send | source/ComDataCheck.c:189-207 | the bytes written are one frame of the buffer |
| BinaryBuffers.NextSizeSaturates | source/BinaryBuffer.c:5-18 | the step in wrapping arithmetic is the unbounded sum cut off at ULONG_MAX, and it grows |
| BinaryBuffers.GrowToBounds | source/BinaryBuffer.c:83-95 | the growth loop ends at least at the target, below target + min(target, max_expand), and a whole step above the old capacity at least |
| BinaryBuffers.RoomyBounds | source/BinaryBuffer.c:83-95 | making room keeps a capacity that suffices; otherwise it reaches the target and the minimum, grows by a whole step at least, and stays less than one beyond the target unless the minimum asks for more |
| BinaryBuffers.RoomySteps | source/BinaryBuffer.c:5-18 | the new capacity is the first of the capacities one step apart, in unbounded arithmetic cut off at ULONG_MAX, that reaches the target |
| BinaryBuffers.AppendsAreCheap | source/BinaryBuffer.c:127-145 | with no limit on the step a run of appends copies at most two bytes for each byte of the final contents |
| BinaryBuffers.BinaryBuffer.constructor | source/BinaryBuffer.c:522-557 | contents, capacity and limits of a new buffer |
| BinaryBuffers.BinaryBuffer.HardResize | source/BinaryBuffer.c:27-56 | exact capacity, contents cut to it |
| BinaryBuffers.BinaryBuffer.Resize | source/BinaryBuffer.c:108-116 | the same, not below the minimum |
| BinaryBuffers.BinaryBuffer.ExpandToTarget | source/BinaryBuffer.c:83-95 | terminates for all 64-bit sizes, reaches the target, keeps the contents |
| BinaryBuffers.BinaryBuffer.Append | source/BinaryBuffer.c:127-145 | exact concatenation; the capacity stays when there is room, and otherwise makes room as the growth loop does |
| BinaryBuffers.BinaryBuffer.Clear | source/BinaryBuffer.c:221-230 | empty, and memory beyond the minimum is given back |
| BinaryBuffers.BinaryBuffer.ExtractBuffer | source/BinaryBuffer.c:383-393 | the caller owns the old bytes, the object is empty |
| BinaryBuffers.BinaryBuffer.Remove | source/BinaryBuffer.c:252-272 | cuts the range, in either order of its ends; one that starts beyond the length only sets the length to its start, and the object stays valid if and only if that is within the capacity |
| BinaryBuffers.RemovedIsTheRangeUnlessItStopsOneShort | source/BinaryBuffer.c:263-269 | what is cut is the documented range if and only if it does not stop just before the last byte |
| BinaryBuffers.BinaryBuffer.Replace | source/BinaryBuffer.c:414-442 | prefix, new data, suffix, for every overlap of the moved tail, also when the block is extended in place; as many bytes that reach beyond the end are cut off there; when the buffer grows into another block it keeps its old bytes and gets the new length; a start beyond the length is an error |
| Memory.CopyBack | source/alib_string.c:204-220 | the destination holds the old source when it is not below it; the returned pointer is one before the destination |
| Memory.CopySafe | source/alib_string.c:231-241 | the destination holds the old source for every overlap, and nothing else changes |
| Memory.ConversionsWrap | source/ComDataCheck.c:189-207 | the conversions to `int32_t`, `size_t` and `long` differ from the number by a multiple of the number of values |
| RingTheorems.RunIsFifo | source/RBuff.c:127-234 | over any run in which no push miscounts, bytes leave in the order they came, and the rest is stored |
| RingTheorems.RunCounts | source/RBuff.c:183-234 | the count of stored bytes stays right over a run if and only if no push stores more bytes than an `int32_t` holds without the cut-off of a full buffer hiding it |
| RingTheorems.NothingLostUnlessOverflow | source/RBuff.c:183-234 | the count is right and the popped bytes and the stored ones are the whole pushed stream, if and only if no push overflowed and none miscounted |
| RingTheorems.RunLeavesTheEnd | source/RBuff.c:183-234 | what is stored after such a run is the end of the pushed stream |
| RingTheorems.PushInPieces | source/RBuff.c:183-234 | how a push is cut into pieces does not matter, and no piece miscounts when at most INT32_MAX bytes of the whole are stored |
| RingTheorems.SinglePopsAreOnePop | source/RBuff.c:163-180 | n single-byte pops are one pop of n bytes, then errors |
| RBuffs.OverwritingPush | source/RBuff.c:183-234 | an overwriting push leaves the last `size` bytes of contents and data |
| RBuffs.CautiousPush | source/RBuff.c:183-234 | without overwriting no stored byte changes, and of the last `size` bytes pushed the first ones that fit are appended |
| RBuffs.NewCountIsExact | source/RBuff.c:183-234 | the count is right if and only if the number of bytes fits an `int32_t`, or a full buffer's cut-off hides the error |
| RBuffs.NewCountWraps | source/RBuff.c:183-234 | a number of bytes that does not fit counts as the `int32_t` congruent to it, and a sum below zero or above the size as a full buffer |
| RBuffs.RingAdvances | source/RBuff.c:38-57 | moving the begin iterator rotates the ring |
| RBuffs.CopiedInTwoPieces | source/RBuff.c:23-34 | the oldest bytes are in at most two pieces of the block, wherever the end iterator rests |
| RBuffs.WrittenInOnePiece | source/RBuff.c:8-19 | a stretch that fits before the end of the block or the oldest byte lands right behind what is stored |
| RBuffs.WrittenInTwoPieces | source/RBuff.c:183-234 | a longer one does so around the end of the block |
| RBuffs.RBuff.constructor | source/RBuff.c:251-264 | empty over the given block |
| RBuffs.RBuff.Copy | source/RBuff.c:127-160 | writes the oldest bytes and changes nothing in the ring |
| RBuffs.RBuff.Popoff | source/RBuff.c:163-169 | returns and removes the oldest min(n, count) bytes |
| RBuffs.RBuff.PopoffByte | source/RBuff.c:171-180 | one byte, or an error when empty |
| RBuffs.RBuff.Pushback | source/RBuff.c:183-234 | the new contents are the pushed sequence in both modes, and up to INT32_MAX bytes count and result are the numbers of bytes |
| RBuffIts.Traversal | source/RBuffIt.c:37-87 | from a reset, `count` calls visit the stored bytes oldest first with indices 0, 1, 2 and so on, wherever the end iterator rests; then false if it is inside the block |
| RBuffIts.TraversalEnds | source/RBuffIt.c:60-87 | a traversal ends if and only if the buffer is empty or its end iterator is inside the block |
| RBuffIts.ParkedEndIsNeverMet | source/RBuffIt.c:60-87 | otherwise the k-th call stands k - 1 places behind the oldest byte around the block, for every k |
| RBuffIts.StepsAround | source/RBuffIt.c:60-87 | from any place a step goes to the next one around the block, or ends on the end iterator |
| RBuffIts.IndexIsTheDistance | source/RBuffIt.c:37-53 | the index of any place is its distance from the oldest byte around the block |
| RBuffIts.RBuffIt.Next | source/RBuffIt.c:60-87 | moves to the next position of the buffer's shape |
| RBuffIts.RBuffIt.GetIndex | source/RBuffIt.c:37-53 | the distance from the oldest byte, as an `int` |
| RBuffIts.RBuffIt.Reset | source/RBuffIt.c:116-121 | back to before the first byte |
| DListItems.InsertAfter | source/DListItem.c:19-38 | splices a whole chain behind a node; both links of every node, parents included |
| DListItems.InsertBefore | source/DListItem.c:53-70 | the same before any node but the first |
| DListItems.PushBack | source/DListItem.c:87-100 | joins a chain to the end of another, reached from any node |
| DListItems.PushForward | source/DListItem.c:116-130 | joins it to the start |
| DListItems.Move | source/DListItem.c:139-203 | the chain becomes "remove at from, insert at min(to, length - 1)", adjacent nodes included, and the node's final index is returned; bad indices change nothing |
| DListItems.MovedBack | source/DListItem.c:139-203 | a move keeps the order of all other nodes, and moving back undoes it |
| DListItems.MovedKeepsTheItems | source/DListItem.c:139-203 | a move keeps the nodes |
| DListItems.SplicedAndTakenOut | source/DListItem.c:19-70 | a chain spliced in stands at the index asked for, and taking it out undoes it, and the other way round |
| DListItems.PullOut | source/DListItem.c:288-311 | the node becomes a parentless chain of its own, the others close up |
| DListItems.PullOutCount | source/DListItem.c:332-356 | a stretch becomes a parentless chain and the others close up; when the walk to its end goes backward, all that follow are taken, those up to where it stops stay, and those between are linked in a circle |
| DListItems.TakesTheRange | source/DListItem.c:332-356 | in a chain of at most 2^63 - 1 nodes the documented stretch, and nothing else, is taken if and only if the count is at most 2^63, the stretch starts at the second node or there is one node only; what larger counts take |
| DListItems.Get | source/DListItem.c:373-389 | the node at an index, or the last one and the excess |
| DListItems.GetByRelativeIndex | source/DListItem.c:438-453 | the node at a distance in either direction, clamped, and the excess |
| DListItems.Count | source/DListItem.c:464-479 | the length of the chain, from any node |
| DListItems.Index | source/DListItem.c:485-498 | the position of a node |
| DListItems.SetListParent | source/DListItem.c:554-571 | every node of the chain gets the parent |
| DListItems.Delete | source/DListItem.c:621-645 | the chain closes up and the pointer moves to a neighbour |
| DLists.DList.PushBack | source/DList.c:11-29 | the list's sequence followed by the chain's; ends, length and parents right |
| DLists.DList.PushForward | source/DList.c:36-51 | the chain's followed by the list's |
| DLists.DList.Insert | source/DList.c:60-96 | the chain spliced in at min(index, length), unless before the first of several nodes |
| DLists.DList.InsertItemBefore | source/DList.c:127-144 | the chain spliced in before a node; the list stays valid if and only if it is a single node |
| DLists.DList.Remove | source/DList.c:218-249 | the sequence without the element; ends right for every position |
| DLists.DList.RemoveItem | source/DList.c:314-330 | the same for a node of the list, an error for any other |
| DLists.DList.PullOut | source/DList.c:409-433 | the sequence without the element, which is a detached chain |
| DLists.DList.PullOutCount | source/DList.c:448-478 | what is taken, what stays and what goes astray are those of the chain; begin, length and cached end; the list is valid if and only if the range starts at its first node, or the count is at most 2^63 and the range does not run past the end from inside, or a larger count takes the rest from the second node of two; a range that starts beyond the end starts at the last node |
| DLists.DList.PullBeyond | source/DList.c:448-478 | that case: the last node leaves as a chain of its own, the list keeps its ends on it unless the sum of the arguments is the length, and its other nodes close up, or go astray for a count above 2^63 |
| DLists.DList.Get | source/DList.c:497-509 | element `index`, reached from the nearer end |
| DLists.DList.Move | source/DList.c:159-178 | the moved sequence and the final index; the cached end is right if and only if the target is not the last index from below, and otherwise the old last node |
| DLists.CachedEndIsRight | source/DList.c:448-478 | when the end that is cached after a cut is the last node and no node is astray |
| ArrayLists.ArrayList.constructor | source/ArrayList.c:913-949 | all slots empty |
| ArrayLists.ArrayList.Add | source/ArrayList.c:61-103 | into the first empty slot, or behind all when the list may grow, to twice the capacity or the maximum, and the scan meets an empty slot; 0 for a null item or a full list at its maximum; a full list above its maximum keeps its slots, counts one more and reports success |
| ArrayLists.ArrayList.RemoveItem | source/ArrayList.c:111-151 | empties the first slot that holds the item, and frees it once or not at all |
| ArrayLists.ArrayList.RemoveByPtr | source/ArrayList.c:34-46 | empties one slot and frees its item |
| ArrayLists.ArrayList.Resize | source/ArrayList.c:264-333 | shrinking keeps the first items in order and frees each other one once; growing keeps every slot; `count` stays the number of items |
| ArrayLists.ArrayList.CopyFirst | source/ArrayList.c:291-301 | the scan without a bound test stays inside the array and copies the first items |
| ArrayLists.ArrayList.FreeFrom | source/ArrayList.c:304-308 | so does the one that frees the others |
| ArrayLists.ArrayList.Shrink | source/ArrayList.c:342-348 | capacity equal to `count`, same items in order |
| ArrayLists.ArrayList.Expand | source/ArrayList.c:352-369 | min(twice the capacity, maximum), 1 for an empty list, every slot kept |
| ArrayLists.ArrayList.Clear | source/ArrayList.c:230-248 | all slots empty, every item freed once |
| ArrayLists.ArrayList.Sift | source/ArrayList.c:386-421 | the first `count` slots full and the others empty: an item there stays, and the holes take the items from behind, the last one first; the corruption code exactly when `count` exceeds the number of items, and then `count` is repaired |
| ArrayLists.ArrayList.FindItemByValue | source/ArrayList.c:190-209 | the first item that meets the test, or null when none does; the scan stays inside the array |
| ArrayLists.ArrayList.GetByIndex | source/ArrayList.c:515-535 | the item at an index that skips empty slots |
| ArrayLists.ArrayList.GetItemIndex | source/ArrayList.c:549-574 | the index of the first occurrence, its inverse; -1 exactly when absent |
| ArrayListTheorems.Conservation | source/ArrayList.c:34-369 | over every run from creation each accepted item is in the list, freed or taken back exactly as often as it was accepted, if and only if no resize to 0 meets an item and no addition meets a full list above its maximum |
| ArrayListTheorems.RunBalances | source/ArrayList.c:34-369 | counting the lost ones, this holds in every run up to a write behind the array |
| ArrayListTheorems.RunLoses | source/ArrayList.c:34-369 | items are lost in exactly the runs that have such a resize or such an addition |
| ArrayListTheorems.OverrunHappens | source/ArrayList.c:61-103 | capacity 1, maximum 1, a resize to 2 and three additions: the third item is accepted and lost |
| ArrayListTheorems.RunStaysWithinMaximum | source/ArrayList.c:61-369 | the capacity stays within the maximum, and no addition writes behind the array, in every run whose resizes ask for no more |
| ArrayListTheorems.AdditionsAreCheap | source/ArrayList.c:61-103 | n additions to any list copy at most two slots each, and two for each item that was there |
| SlotSeq.ResizedItems | source/ArrayList.c:264-333 | kept items and freed items together are the old ones, in order |
| SlotSeq.ResizedSlots | source/ArrayList.c:264-333 | in a smaller list the items are in the first slots, in a larger one where they were |
| SlotSeq.AddedItems | source/ArrayList.c:61-103 | an addition adds its item and keeps the order of the others |
| SlotSeq.AddedSlots | source/ArrayList.c:61-103 | an addition changes the first empty slot and no other, and a full list doubles up to its maximum |
| SlotSeq.ExpansionDoubles | source/ArrayList.c:352-369 | the capacity that an expansion asks for |
| SlotSeq.RemovedItems | source/ArrayList.c:111-151 | a removal removes the first occurrence and nothing else |
| SlotSeq.RemovedSlots | source/ArrayList.c:111-151 | it empties that slot and changes no other |
| SlotSeq.FullIffAsManyItems | source/ArrayList.c:61-103 | `count` equals the capacity exactly when no slot is empty |
| MemPools.MemPool.constructor | source/MemPool.c:272-303 | every slot filled with a free block |
| MemPools.MemPool.Fill | source/MemPool.c:111-143 | the empty slots behind the last block get new, distinct, free blocks |
| MemPools.MemPool.Expand | source/MemPool.c:186-206 | min(twice the blocks, ULONG_MAX), although computed in wrapping arithmetic; fails exactly at the maximum, and not beyond it, at 0 and at ULONG_MAX |
| MemPools.MemPool.Reserve | source/MemPool.c:220-251 | hands out the first free block, after growing if there is none; exactly that block's state changes |
| MemPools.MemPool.Unreserve | source/MemPool.c:260-267 | frees exactly that block and clears the pointer; for a block that is free the source follows its null pool, and nothing is done here |
| MemPoolTheorems.ReserveIsSafe | source/MemPool.c:220-251 | a block that is handed out is held by nobody, and none is refused unless all are held and their number is the maximum, 0 or ULONG_MAX |
| MemPoolTheorems.GrowsWhenFull | source/MemPool.c:220-251 | a reservation doubles the pool if no block is free and it can grow, and leaves its size otherwise |
| MemPoolTheorems.RefusedAtTheLimit | source/MemPool.c:186-251 | after every run from a positive start capacity a reservation is refused if and only if as many blocks are held as the maximum, when doubling the start capacity meets it, and ULONG_MAX when not |
| MemPoolTheorems.RunAgrees | source/MemPool.c:220-267 | over every run the reserved blocks are those its users hold, and their number is the count |
| MemPoolTheorems.CapacityWithinMaximum | source/MemPool.c:186-206 | the capacity stays within the maximum in every run if and only if doubling the start capacity meets it |
| MemPoolTheorems.MeetsMaximumInWords | source/MemPool.c:186-206 | that is, if the maximum is ULONG_MAX or the start capacity doubled some number of times |
| Timespecs.Timespec.FixValuesFast | source/alib_time.c:10-30 | same total; no mixed signs; less than a second of nanoseconds unless the value was normal already |
| Timespecs.Timespec.FixValues | source/alib_time.c:38-47 | the same, and its error branch is never reached |
| Timespecs.FixedIsUnique | source/alib_time.c:10-30 | these conditions determine the result, which is a fixed point |
| Timespecs.FullSecondStays | source/alib_time.c:10-30 | a full second of nanoseconds that has the sign of the seconds is not carried |
| Timespecs.Subtract | source/alib_time.c:104-111 | exact and normal, also when the result is an operand |
| Timespecs.Add | source/alib_time.c:124-131 | exact and normal, also when the result is an operand |
| Timespecs.CmpFollowsTime | source/alib_time.c:60-75 | on fixed times the comparison never contradicts the order, and gives it exactly unless one time is written in two ways |
| Timespecs.CmpLooksAtSecondsFirst | source/alib_time.c:60-75 | of any two times, fixed or not, it orders the seconds first |
| Timespecs.CmpIsTotalOrder | source/alib_time.c:60-75 | antisymmetric, transitive, 0 only for equal values |
| Timespecs.Cmp | source/alib_time.c:84-90 | of any two times, after fixing copies |
| Timespecs.Timespec.Init | source/alib_time.c:137-141 | stores the fixed value |
| Timers.Timer.constructor | source/Timer.c:149-161 | run time fixed after the conversion to `long`, end time unset, rung |
| Timers.Timer.Begin | source/Timer.c:5-11 | ends one run time after now |
| Timers.Timer.BeginBefore | source/Timer.c:20-26 | the same less the interval |
| Timers.Timer.GetTimeStatus | source/Timer.c:89-128 | never an error; remaining and overrun time are the two parts of end - now; rings exactly when the end has come |
| Timers.Timer.Check | source/Timer.c:34-44 | rings when the end has come and stays rung |
| Timers.TimerEvent.Check | source/TimerEvent.c:34-77 | rings exactly when the end has come, and the next end is one run time after the old one plus the time between the two readings; freeing within the callback waits for its return |
| Timers.TimerEvent.Free | source/TimerEvent.c:230-253 | within a callback the event is only marked |
| Timers.CompareLeastRemainingTime | source/TimerEvent.c:92-102 | missing events first, otherwise faithful to the end times |
| Timers.ComparisonIsATotalOrder | source/TimerEvent.c:92-102 | fit for a sort, missing events included |
| Timers.NoDrift | source/TimerEvent.c:34-77 | after n rings the end is the first end + n run times + the time between the readings of the ringing checks, however late they came |
| Timers.RingsDependOnTheClockAlone | source/TimerEvent.c:34-77 | when the last check has left the end in the future, the number of rings up to now is that of an undisturbed timer whose end lies later by the time between the two readings of the ringing checks, whatever the checks were |
| Timers.CatchesUp | source/TimerEvent.c:34-77 | checked over and over at one instant, the timer rings once for every period that is due and then stops |
| TimerEventHandlers.TimerEventHandler.AddEvent | source/TimerEventHandler.c:14-78 | the event, and nothing else, is inserted where the search stops, and the list stays in order; the null pointer in front of the first node is followed if and only if the event belongs before the first one or has its time; its timer is begun if it is unset on a running handler with other events |
| EventOrder.InsertionKeepsSorted | source/TimerEventHandler.c:31-63 | that place keeps the list sorted by time although the search compares parts |
| EventOrder.PlaceIsRight | source/TimerEventHandler.c:31-63 | nothing before it is later, nothing behind it is earlier |
| TimerEventHandlers.TimerEventHandler.FindPlace | source/TimerEventHandler.c:31-63 | the loop over the nodes stops at that place |
| TimerEventHandlers.TimerEventHandler.Start | source/TimerEventHandler.c:224-252 | every timer begins; a list sorted by run time becomes one sorted by end time for any clock that does not run backward |
| TimerEventHandlers.TimerEventHandler.CheckHead | source/TimerEventHandler.c:170-218 | one pass of the loop: nothing before the first event is due; one that its callback frees leaves the list; otherwise it gets its next end time and moves to the place of that, or stays if that has 0 seconds; the null pointer is followed if and only if it would stay first before others; no other timer changes and the list stays in order |
| EventOrder.RingFitsBehind | source/TimerEventHandler.c:200-205 | written without a full second of nanoseconds, the next end of a ringing event makes it stay first if and only if it is not after the second one's, whatever the two readings |
| EventOrder.PutBackKeys | source/TimerEventHandler.c:200-205 | the end and run times of the list after a pass are the others with the first one's inserted at the place of its new end |
| EventTheorems.AnyClock | source/TimerEventHandler.c:170-218 | over all runs of passes that come when the first event is due or later, with any two readings in each check of a clock that does not run backward, timers in order never make the loop follow the null pointer if and only if there is a single one |
| EventTheorems.TwoTimersRun | source/TimerEventHandler.c:170-218 | a run of two timers, with canonical end times, follows the null pointer if and only if in one of its passes the other timer ends a period and the gap of the check after the first one, or later |
| EventTheorems.TwoTimers | source/TimerEventHandler.c:170-218 | over all runs whose gaps add up to a budget at most, two timers never make the loop follow the null pointer if and only if their periods are equal and their ends further apart than the budget, in either direction around the period; the budget may be 0 |
| EventTheorems.SpreadIsSafe | source/TimerEventHandler.c:170-218 | neither does a run of any number of timers with one period, if two of them are further apart than its gaps add up to and the earlier one ends before the first one would again |
| EventTheorems.EqualPeriods | source/TimerEventHandler.c:170-218 | over all runs in which both readings of each check are equal, timers with one period never make the loop follow the null pointer if and only if there is one timer, or one of them ends within a period after the first and not together with it |
| EventTheorems.PassKeepsOrder | source/TimerEventHandler.c:170-218 | a pass keeps the list in order, whatever the gap between the readings |
| EventTheorems.NextEndHasSeconds | source/TimerEventHandler.c:200-205 | the new end of a timer in such a list has seconds, so the event is put back |
| EventSchedules.AnyPeriods | source/TimerEventHandler.c:170-218 | over all runs in which both readings of each check are equal and times are canonical, timers with any periods in a list as the handler leaves it never make the loop follow the null pointer if and only if there is one timer, or at every time at which timers would ring one of them does not ring again before another one does |
| EventSchedules.CoveredIsSafe | source/TimerEventHandler.c:170-218 | the safe half of that, for each run |
| EventSchedules.UncoveredRuns | source/TimerEventHandler.c:170-218 | the failing half, for any list in order: from a time at which every ringing timer rings again before another one does, a run that follows the null pointer |
| EventSchedules.CoverageIsDecidable | source/TimerEventHandler.c:170-218 | every ring is covered if and only if those up to a common multiple of the periods after the last end are |
| EventSchedules.StartSettles | source/TimerEventHandler.c:236-239 | a list sorted by run time is, once all its timers have begun in order, as that theorem asks for it, if and only if the last timer began before the first one ends |
| EventSchedules.AdditionSettles | source/TimerEventHandler.c:31-63 | so it is after a timer that began when all others had begun is put into its place, if and only if the first event was not yet due |
| EventOrder.SumsInOrder | source/TimerEventHandler.c:237-239 | run times in order, begun in order, end in order |

## Left out

- DLists.DList.Insert: not before the first node of a non-empty list, where
  `DListItem_insert_before` follows a null pointer (source/DListItem.c:67).
- DListItems.InsertBefore: not before the first node, for the same reason.
- DLists.DList.InsertItemBefore: not before the first node, for the same reason.
- BinaryBuffers.BinaryBuffer.Replace: not for a range that ends beyond the length,
  unless the new data is as long and ends within the block: the source then copies
  some 2^64 bytes or writes behind the block; nor for a length that wraps. What the
  write through the stale pointer destroys is not modelled.
- BinaryBuffers.BinaryBuffer.Remove: not on an empty buffer when the bound of the
  range wraps and the source copies some 2^64 bytes.
- BinaryBuffers.BinaryBuffer.Append: two blocks are taken to fit one 64-bit
  address space together, as blocks that exist at the same time do.
- DLists.DList.PullOutCount: not on an empty list when the sum of the arguments is
  2^64, where the source follows a null pointer.
- DListItems.TakesTheRange: lists are taken to have less than 2^63 nodes, as nodes
  that exist at the same time do.
- DListItems.Index: the index is unbounded; the source counts in an `int`, which
  overflows beyond 2^31 - 1 nodes.
- FramingSchedules.ScheduleDelivers: no empty append while at most a header is held or
  an empty payload is offered (DecoderAgreesWithParser says what the former does), no
  processing call with nothing set aside, and no reading of what was not offered.
- BinaryBuffers.AppendsAreCheap: when a limit on the step applies, the bytes copied
  grow faster; a move is counted as copying the whole old block.
- ArrayLists.ArrayList.Add: what the write behind the array destroys; the runs in
  ArrayListTheorems end there, as those in RingTheorems end with a wrong count.
- MemPools.MemPool.Unreserve: the user data of blocks and its callbacks.
- Timespecs.Timespec.FixValuesFast: seconds and nanoseconds are unbounded; the
  overflow of `long` is undefined in C.
- Timers.TimerEvent.Check: what callbacks do beyond freeing their event.
- TimerEventHandlers.TimerEventHandler.CheckHead: the waiting, and what happens after
  the null pointer was followed.
- EventTheorems.AnyClock: all periods are positive, and the ends come at least a
  second after the clock's zero, so that none is taken for unset; no event is added or
  removed, or freed by its callback, within a run. The same holds for the other
  theorems about runs.
- EventSchedules.AnyPeriods: no gaps between the readings of a check, for which
  AnyClock says what happens; end times are written without a full second of
  nanoseconds; that a covered schedule is safe is proved for lists in which timers
  that end together stand in the order of their periods and every timer began before
  the first one ends. Passes preserve this (PassKeepsSettled); StartSettles and
  AdditionSettles say when the handler establishes it.
- TimerEventHandlers.TimerEventHandler.Start: the handler counts as running when
  the call returns; in the source its thread raises the flag.
- Threads, mutexes and condition variables; the `_tsafe` and `_lsafe` variants.
- Sockets and files: `ComDataCheck_recv`, `BinaryBuffer_append_file` and the like;
  of `ComDataCheck_send` only the bytes are modelled.
- Failing allocations; null object arguments.
- Data passed to an append or a push is a value: it does not overlap the buffer.
- Negative decoded lengths are modelled as the code has them, huge sizes; no
  promise is made about them.
- Freeing of nodes and values, and values other than as opaque references.
- Functions whose code does not do what they say and that nothing above needs:
  `BinaryBuffer_expand` reads an uninitialised size, `BinaryBuffer_insert` moves
  one byte too few, `RBuff_increment_it` on overflow, `RBuffIt_prev`,
  `DListItem_move_count`, `DList_insert_after`, `DList_remove_marked_items`,
  `ArrayList_set_max_cap`, `ArrayList_contains`, `ComDataCheck_set_mode`.
- Removing and moving several nodes, sorting, and getters and setters: they add
  nothing new.
- String, list-history, network, process and compression modules of the library.
