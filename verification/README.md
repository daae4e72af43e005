# C demo repository: lists, command fragmentation, two-process protocols, hash table, sockets

A Dafny model of the stateful core of a C repository, with proofs of what that core promises.
`dafny verify dfyconfig.toml` checks the whole project.

| part | modules | form |
|---|---|---|
| circular and single-headed intrusive lists, `include/kernel_list.h` | `KernelList`, `KernelHList` | classes with mutable `next`/`prev`/`first`/`pprev`; every method says which sequence edit it makes |
| command fragmentation and reassembly, `src/cmd_handle.c` | `CmdHandle` on `CmdPdu`, `CmdTransmit`, `CmdReassembly`, `CmdSession`, `CmdWritten` | buffer objects proved against functions on values; theorems about the functions and about whole runs |
| two-process protocols, `src/process_interactive.c` | `SharedSlot`, `Semaphore`, `ForkLoop`, `ForkRuns` | transition systems with arbitrary interleaving |
| chained hash table and hash loops, `src/c_STL.c` | `ChainedTable` on `HashChains`, `HashFunctions` | heap nodes in a bucket array refining a table of chains; loops against polynomials |
| packet splitter and connection table, `src/protocol_socket.c` | `MultiRx`, `TcpServer` on `ConnectionTable`, `ConnectionService`, `CallOutcomes` | loop with invariants; control block updated in place |

`Sequences` and `Arithmetic` hold shared vocabulary.

## Reading the list contracts

`Ring(s)` says that the nodes of the ghost sequence `s`, in this order, form a well-formed circle:
distinct nodes, `next` and `prev` inverse to each other. `RingUnique` shows that a head has only one
ring, so the sequence is a function of the heap. An operation's contract names the sequence before
and after; its `modifies` clause names single fields, so every unrelated node is untouched.
`HList(h, s)` does the same for the single-headed list, where `pprev` is a value of the datatype
`Cell`: a head's `first` or a node's `next`.

## Where the code and its evident intent differ

- `tx_cmd` copies a header (lines 191, 198) before it updates it (202-209), and always copies from
  the start of `data`. `CmdHandle` and all results about lengths, order of types, header bits and
  progress are about the code as written. The round trip is proved for the meant order (`AsMeant`:
  `fragment` and `sublen` set, header copied, `firstpkg` cleared, data advanced). `CmdWritten` says
  what the code as written does instead: `WrittenReadableIff` and `WrittenReadableRuns` when a frame
  can be split at all, and `WrittenArrivesIff` and `FirstSend` when, lengths aside, a message is sent
  whole. `FirstReachedWithZero`: every first fragment reaches the receiver with length 0, on which
  the code would copy 0 - 4 bytes; `PrematureCompletion`: were that length right, a truncated first
  fragment would be taken for a whole message. The receiver of the model stops at a length below 4,
  because nothing is defined from there on. With it, `NothingArrives` and `SteadyNeverArrives` show
  that no message is ever reported as long as payload bytes are not mistaken for headers,
  `HonestIff` says when they are not, and `GarbageExample` shows that they can be.
- With a budget below 8 the unsigned difference at line 181 wraps around, so the guard of line 185 is true and
  the frame exceeds its budget: `TxFitsIff` gives the exact condition.
- `list_swap` is an exchange unless the second entry is alone on its ring: `Swap` covers both.
- `Insert` looks for a duplicate at the bucket head only, so an old value can come back after a
  deletion (`DroppedKeyCanResurface`); `DropDeletesIff` says when `Dorp` deletes.
- `acceptTcpConnet` looks for a free slot and then stores at slot `connfd_alivenum`. An occupied
  slot is overwritten and that connection stays open for good: `AcceptLeaks` and `CloseThenAccept`
  state when. The server functions visit the first `connfd_alivenum` slots only. So after a call that
  closes a connection in front of one that it keeps (`RoundPackedIff`), one is not served any more,
  even before it is lost: `ServedIffPacked` gives the exact condition, and `UnservedForever` says that
  this is for good. At
  most fifteen connections can be lost, and fifteen can (`RunsKeepInv`, `FifteenCanBeLost`), so one
  can always still be served (`OneAlwaysServed`).
- The listening socket is never put into `read_set`, so the second accept of `rw_tcpserver` and
  `recv_tcpserver` never happens: `ListenerNeverSelected`.
- The customer tests for "end" after it has released the slot: `AllPrintedAtStop` says when the last
  message is missed, `EndCanBeMissed` shows a run.
- A producer that starts before the customer's reset may lose its first message:
  `ResetHarmlessIff` says when the reset is harmless, `FirstMessageLost` what happens otherwise, and
  `LostEndHangs` that with an end message lost the customer waits forever.
- The result of `semop` is ignored. Exclusion survives every failure of V, but not of P:
  `ExclusionIff` gives the steps that break it, `NeverStuckIff` what a failed V does.

## Model

| member | source | states |
|---|---|---|
| KernelList.RingUnique | include/kernel_list.h:33-37 | the links determine the ring: two rings with the same head are the same sequence |
| KernelList.RingRotate | include/kernel_list.h:33-37 | a ring may be read from any of its nodes |
| KernelList.RingLinked | include/kernel_list.h:33-37 | each node is its successor's predecessor and its predecessor's successor, around the ends too |
| KernelList.InitListHead | include/kernel_list.h:33-37 | the node is a ring of its own |
| KernelList.AddBetween | include/kernel_list.h:63-74 | inserts a node at any index of a ring, both ends and the singleton ring included |
| KernelList.Add | include/kernel_list.h:84-87 | the new node follows the given one |
| KernelList.AddTail | include/kernel_list.h:98-101 | the new node precedes the given one; it comes last if that is the head |
| KernelList.DelBetween | include/kernel_list.h:110-114 | takes out the entry between the two nodes and leaves its own links alone; a ring of one stays as it is |
| KernelList.Del | include/kernel_list.h:144-149 | the rest is a ring in the same order, the entry's links are poisoned |
| KernelList.DelInit | include/kernel_list.h:202-206 | the rest is a ring, the entry a ring of its own |
| KernelList.Replace | include/kernel_list.h:158-165 | the new node has the place of the old one, on a ring of any length |
| KernelList.ReplaceInit | include/kernel_list.h:174-179 | the same, and the old node is a ring of its own |
| KernelList.Move | include/kernel_list.h:213-217 | the entry leaves its ring and follows the head of the same or another ring; both rings stay well-formed |
| KernelList.MoveTail | include/kernel_list.h:224-229 | the same before the head |
| KernelList.BulkMoveTail | include/kernel_list.h:240-252 | a contiguous segment without the head goes to the tail in its order, for every segment, adjacent to the head or not |
| KernelList.IsFirst | include/kernel_list.h:259-263 | true exactly for the first entry (for the head on an empty list) |
| KernelList.IsLast | include/kernel_list.h:270-274 | true exactly for the last entry |
| KernelList.Empty | include/kernel_list.h:280-283 | true exactly when the head is alone |
| KernelList.EmptyCareful | include/kernel_list.h:298-302 | the same answer from both links |
| KernelList.IsSingular | include/kernel_list.h:340-343 | true exactly when there is one entry |
| KernelList.CutPositionCore | include/kernel_list.h:345-355 | prefix up to the entry on the new list, suffix on the old |
| KernelList.CutPosition | include/kernel_list.h:371-383 | splits the entries into exactly prefix and suffix, at the head and at the last entry too; an empty list leaves `list` alone, and so does an entry from elsewhere on a list of at most one |
| KernelList.CutBefore | include/kernel_list.h:399-413 | the same, the entry itself staying on the old list |
| KernelList.SpliceCore | include/kernel_list.h:415-427 | the donor's entries stand in order between two neighbours; the donor's head is on no part of it |
| KernelList.Splice | include/kernel_list.h:434-439 | donor's entries in order behind the given node; an empty donor changes nothing |
| KernelList.SpliceTail | include/kernel_list.h:446-451 | donor's entries in order at the tail |
| KernelList.SpliceInit | include/kernel_list.h:460-467 | the same at the front, and the donor is an empty list |
| KernelList.SpliceTailInit | include/kernel_list.h:477-484 | the same at the tail, and the donor is an empty list |
| KernelList.CutThenSplice | include/kernel_list.h:371-467 | cutting a non-empty list at any entry, head and last included, and splicing back restores the ring in order and empties the cut list |
| KernelList.CutBeforeThenSplice | include/kernel_list.h:399-467 | the same for the other cut, for every position |
| KernelList.SwapLinks | include/kernel_list.h:186-196 | every well-linked node's links after the swap are its links before with the two entries exchanged, wherever they are; with the second entry alone it is put in front of the first |
| KernelList.Conjugated | include/kernel_list.h:186-196 | links exchanged in that way form the ring with the two nodes exchanged |
| KernelList.Swap | include/kernel_list.h:186-196 | two distinct entries are exchanged, adjacent in either order, apart, or on two rings, unless the second is alone on its ring: then both stand side by side on the first ring |
| KernelList.RotateLeft | include/kernel_list.h:308-316 | the first entry becomes the last; an empty list stays |
| KernelList.RotateTimesShifts | include/kernel_list.h:308-316 | k left rotations of n entries shift them by k mod n |
| KernelList.RotateToFront | include/kernel_list.h:325-334 | the entries are rotated so that the chosen one comes first |
| KernelList.RotateToFrontIsRotation | include/kernel_list.h:325-334 | that is the same as so many left rotations |
| KernelList.SafeTurn | include/kernel_list.h:579-581 | one turn visits the next original entry and keeps the loop's view of the ring, deletion or not |
| KernelList.ForEachSafe | include/kernel_list.h:579-581 | terminates, visits each original entry once in order for any choice of deletions, and leaves exactly the entries not deleted |
| KernelList.KeptIff | include/kernel_list.h:579-581 | an entry is left exactly when the body does not delete it |
| KernelList.KeptInOrder | include/kernel_list.h:579-581 | the entries left are in their original order |
| KernelHList.PprevIsTheOnlyCell | include/kernel_list.h:806-814 | of all cells of a list, a node's `pprev` names the only one that points to it |
| KernelHList.HListUnique | include/kernel_list.h:765-769 | a head has only one list |
| KernelHList.InitNode | include/kernel_list.h:765-769 | the node is on no list |
| KernelHList.Unhashed | include/kernel_list.h:779-782 | true exactly for a NULL `pprev`: false for every node of a list and for a node deleted by `hlist_del` |
| KernelHList.Empty | include/kernel_list.h:801-804 | true exactly when no node hangs on the head |
| KernelHList.DelCore | include/kernel_list.h:806-814 | takes a node out without access to its head, first, middle or last |
| KernelHList.Del | include/kernel_list.h:823-828 | the same, the node's links poisoned, so that it stays in hashed state |
| KernelHList.DelInit | include/kernel_list.h:836-842 | deletes a linked node, leaves an unhashed one alone; afterwards it is unhashed. A poisoned node is not allowed |
| KernelHList.AddHead | include/kernel_list.h:852-860 | prepends |
| KernelHList.AddBefore | include/kernel_list.h:867-874 | inserts before any node, the first included |
| KernelHList.AddBehind | include/kernel_list.h:881-890 | inserts behind any node, the last included |
| KernelHList.IsSingularNode | include/kernel_list.h:921-926 | for a linked node: true exactly when it is the only one on that very head |
| KernelHList.MoveList | include/kernel_list.h:936-943 | the whole list changes heads in order, the old head is empty |
| CmdPdu.EncodeHdr | include/cmd_handle.h:15-48 | where each field of a header is in its four bytes: type, then `firstpkg`, `fragment` and `index` from the low bit upwards, then the length with the low byte first |
| CmdPdu.HdrRoundTrip | include/cmd_handle.h:15-48 | a header read back from its four bytes is the header written |
| CmdPdu.ParseSerialize | include/cmd_handle.h:15-48 | fragments that carry their own length can be told apart again in the byte stream |
| CmdPdu.SerializeParse | include/cmd_handle.h:15-48 | whatever splits consists of fragments with right lengths and is rebuilt byte by byte from them |
| CmdPdu.ReadableIff | include/cmd_handle.h:15-48 | a frame body reads back as its fragments exactly when every length field is right |
| CmdPdu.LeadingUpTo | src/cmd_handle.c:128-160 | taking fragments off one by one yields all of them up to the first one whose length stops the receiver |
| CmdPdu.LeadingIsPrefixIff | src/cmd_handle.c:128-160 | what is taken off is a prefix of what was put in exactly when the first wrong length, if any, stops the receiver |
| CmdReassembly.CompleteIffMessageRun | src/cmd_handle.c:17-67 | over every history, also with empty payloads: complete if and only if the history ends with a first fragment with data and continuations of the same index, all but the last marked; the buffer is then exactly their concatenation |
| CmdReassembly.RunHoldsAChain | src/cmd_handle.c:17-53 | at any moment the buffer is the concatenation of the fragments since some point, and these chain up |
| CmdReassembly.RunOfChain | src/cmd_handle.c:17-53 | a chain with a first fragment is held in full whatever the buffer contained before |
| CmdReassembly.NoFirstNeverComplete | src/cmd_handle.c:17-67 | continuations whose first fragment was never seen complete nothing |
| CmdReassembly.TypesAreIndependent | src/cmd_handle.c:17-53 | each type's buffer depends on its own fragments only, however they are interleaved |
| CmdReassembly.ReassemblyExact | src/cmd_handle.c:17-67 | the characterisation for the receiver as a whole, type by type |
| CmdTransmit.RoomExact | src/cmd_handle.c:181-187 | the room as computed with 32-bit wrap-around and conversion to int is the true difference, or exactly 2^64 - 2^32 more when that does not fit an int |
| CmdTransmit.RoomWraps | src/cmd_handle.c:181-187 | below what is already written, it is 2^64 less the shortage |
| CmdTransmit.TxTypeStep | src/cmd_handle.c:179-217 | one iteration touches one type and adds the fragment that accounts for its change |
| CmdTransmit.TxAccounts | src/cmd_handle.c:170-232 | conservation: one fragment for each type whose `len` fell; `wlen` is 8 plus, for each of these, 4 plus the decrease; untouched types are equal to before |
| CmdTransmit.FrameBytes | src/cmd_handle.c:170-232 | the bytes behind the MAC header number exactly what was charged |
| CmdTransmit.TxGreedy | src/cmd_handle.c:170-232 | budget of at least 8: there is a cut type with all earlier ones drained and all later ones untouched, `wlen` never exceeds the budget, and at most 4 bytes of it are unused if anything is left pending |
| CmdTransmit.TxFitsIff | src/cmd_handle.c:179-217 | the bytes written stay within the budget exactly when it is at least 8 or nothing is pending |
| CmdTransmit.PendingDrop | src/cmd_handle.c:202-209 | the total pending length never grows, and stays exactly when no type was touched |
| CmdTransmit.TxFirstDecides | src/cmd_handle.c:179-217 | the first pending type decides whether a call sends anything |
| CmdTransmit.TxProgress | src/cmd_handle.c:170-232 | the total pending length strictly decreases exactly when something is pending and the budget is above 12 (or below 8, by wrap-around) |
| CmdTransmit.LoneStep | src/cmd_handle.c:185-217 | a lone message shrinks by the budget less 12, or is drained |
| CmdTransmit.LoneMessageCalls | src/cmd_handle.c:170-232 | a lone message of n bytes under constant budget B takes exactly ceil(n / (B - 12)) calls |
| CmdSession.IndataInv | src/cmd_handle.c:250-283 | a message offered to an empty buffer starts a new one, `firstpkg` set and index advanced by 1 mod 64; one offered while bytes are pending leaves the message under way as it is |
| CmdSession.FragmentInv | src/cmd_handle.c:185-210 | one more fragment continues the current message as the headers promise, in either order of the steps |
| CmdSession.FrameOfType | src/cmd_handle.c:179-217 | a frame holds at most one fragment of each type, the one taken from its buffer |
| CmdSession.SenderRuns | src/cmd_handle.c:170-283 | over every run, as written and as meant: no message is replaced while bytes are pending, `firstpkg` is on exactly the first fragment, `index` is constant within a message and advances by 1 mod 64 |
| CmdSession.MeantFrameReadable | src/cmd_handle.c:185-210 | as meant, every frame can be split into its fragments |
| CmdSession.MeantTaken | src/cmd_handle.c:128-210 | as meant, the receiver takes exactly the fragments of the frame, one by one |
| CmdSession.ReceiverRuns | src/cmd_handle.c:17-53 | as meant, over every run the receive buffers are those of all fragments sent, taken one at a time |
| CmdSession.EndToEnd | src/cmd_handle.c:17-283 | round trip over every run with interleaved types and arbitrary budgets: the receiver holds exactly the bytes sent so far of the current message and reports complete exactly at its last fragment; until the next first fragment it holds the whole previous message, or nothing if there is none |
| CmdSession.TypeRoundTrip | src/cmd_handle.c:17-283 | the same for one type, from its invariant |
| CmdSession.BufferFits | src/cmd_handle.c:17-53 | as meant, over every run no receive buffer holds more than 4096 bytes |
| CmdSession.DeliveredFits | src/cmd_handle.c:17-53 | as meant, every fragment of every frame of every run has the right length field and fits into the buffer when its turn comes: what `rx_cmd_frag_combine` takes on trust |
| CmdWritten.WrittenReadableIff | src/cmd_handle.c:185-209 | as written, for all buffers and budgets: a frame can be split into its fragments exactly when each buffer sent from held the length of this very fragment before the call |
| CmdWritten.WrittenReadableRuns | src/cmd_handle.c:185-209 | as written, in every reachable state: exactly when no fragment is a first one and each is as long as the one before it of its message |
| CmdWritten.PendingType | src/cmd_handle.c:202-209 | as written, the length field of a pending message is 0 before its first fragment and then the length of the fragment before |
| CmdWritten.WrittenFrameUnreadable | src/cmd_handle.c:191-209 | as written, a frame that begins with a first fragment carries length 0 there and cannot be split at all, in every run |
| CmdWritten.WrittenArrivesIff | src/cmd_handle.c:185-209 | as written, in every run: lengths aside, the fragments of a message are a run that stands for this message exactly when there is one fragment with all its bytes; they are a run for any message exactly when there is one; the first length is always wrong |
| CmdWritten.TypeInCall | src/cmd_handle.c:179-217 | how many bytes of a type a call sends, from the room left when the loop comes to it |
| CmdWritten.FirstSend | src/cmd_handle.c:179-217 | as written, in every run: a message goes out whole exactly when the call that starts it has room for all its bytes and a header; with less room its first fragment stands for a message all the same |
| CmdWritten.FirstReachedWithZero | src/cmd_handle.c:40-50 | as written, in every reachable state: each first fragment of a frame has data and length 0, so that 0 - 4 bytes would be copied; when the lengths before it are right, the receiver takes all before it and then meets this header |
| CmdWritten.PrematureCompletion | src/cmd_handle.c:17-217 | with the length field of a truncated first fragment put right: the receiver takes it and reports a complete message, a proper prefix, while bytes of it are still pending, whatever its buffers contained |
| CmdWritten.HonestIff | src/cmd_handle.c:128-210 | as written, in every reachable state: the receiver takes nothing but fragments of the frame exactly when the first wrong length is below 4 or beyond the end |
| CmdWritten.NothingArrives | src/cmd_handle.c:17-217 | as written, over every run of such frames, with a receiver that combines each fragment before it looks at the next header and stops at a length it cannot act on: no receive buffer ever reports a message |
| CmdWritten.BeyondTheEnd | src/cmd_handle.c:128-133 | a fragment whose length runs past the end of such a frame, taken with any bytes behind it, completes nothing either |
| CmdWritten.SteadyNeverArrives | src/cmd_handle.c:17-217 | as written, that is so over every run with one type and a constant budget |
| CmdWritten.FirstFrame | src/cmd_handle.c:170-217 | as written, the frame after a first message, for any message, type and budget: one first fragment with length 0, cut to the room |
| CmdWritten.TruncatedExample | src/cmd_handle.c:185-209 | a run with a truncated, unreadable first fragment |
| CmdWritten.GarbageExample | src/cmd_handle.c:17-217 | a run in which the receiver reports a message that was never installed, found in the payload of another; its first frame holds only a fragment of length 0, at which the receiver of the model stops |
| CmdHandle.Memcpy | src/cmd_handle.c:40-48 | the bytes land in place, everything else in the array is as before |
| CmdHandle.MacHdr | src/cmd_handle.c:227-229 | in the bytes of the MAC header, low bytes first: type 0x41041, the length modulo 2^16, checksum 1 |
| CmdHandle.WriteMacHdr | src/cmd_handle.c:227-229 | the frame starts with these three fields, the fragments behind them and the bytes behind the frame stay |
| CmdHandle.ToInt32 | src/cmd_handle.c:223-230 | the returned int is in range and congruent to the unsigned difference modulo 2^32 |
| CmdHandle.CmdBuf.constructor | src/cmd_handle.c:290-319 | an empty buffer of zeros with its type and `firstpkg` |
| CmdHandle.CmdBuf.FragCombine | src/cmd_handle.c:17-53 | the in-place update realises the reassembly function: header, length and bytes |
| CmdHandle.CmdBuf.CheckComplete | src/cmd_handle.c:60-67 | the answer of the completeness test |
| CmdHandle.CmdBuf.WriteFragment | src/cmd_handle.c:185-210 | the frame grows by exactly the header as it was and the payload; the buffer is left as the fragment function says |
| CmdHandle.CmdBuf.IndataMessage | src/cmd_handle.c:250-283 | when nothing is pending: length, bytes, `firstpkg` set, `fragment` cleared, length field 0, index advanced by 1 mod 64; otherwise length, header and data are as before |
| CmdHandle.AllCmdBuf.constructor | src/cmd_handle.c:290-319 | the initial state of the sender or the receiver of a run |
| CmdHandle.AllCmdBuf.FragCombine | src/cmd_handle.c:17-53 | one type's buffer is combined, all others are untouched |
| CmdHandle.AllCmdBuf.FillType | src/cmd_handle.c:179-217 | one turn of the loop realises one step of the packing function, in the buffers and in the frame's bytes |
| CmdHandle.AllCmdBuf.FillFrame | src/cmd_handle.c:179-217 | the loop lays down exactly the serialised fragments behind the room for the MAC header |
| CmdHandle.AllCmdBuf.TxCmd | src/cmd_handle.c:170-232 | a call leaves the three MAC header fields (length the one returned by the accounting, checksum 1) and behind them exactly the serialised fragments in the array, everything behind the frame as before, and the buffers of the packing function; with nothing sent the array is untouched; the int returned is the room left modulo 2^32 |
| SharedSlot.ProducerKeepsInv | src/process_interactive.c:36-51 | every producer step keeps the handshake invariant |
| SharedSlot.CustomerKeepsInv | src/process_interactive.c:90-105 | every customer step keeps it |
| SharedSlot.RunsKeepInv | src/process_interactive.c:36-105 | it holds in every reachable state of every interleaving |
| SharedSlot.NoLossNoDuplicate | src/process_interactive.c:36-105 | the printed messages are a prefix of the written ones, each cut to 2048 characters, at most one behind |
| SharedSlot.AllPrintedAtStop | src/process_interactive.c:95-105 | when the customer stops it has printed everything but possibly the final end message, which is missed exactly when the producer has refilled the slot |
| SharedSlot.NothingAfterStop | src/process_interactive.c:36-51 | nothing is written after the customer has stopped |
| SharedSlot.NoDeadlock | src/process_interactive.c:36-105 | some step changes the state until both have stopped |
| SharedSlot.CutIs | src/process_interactive.c:45-45 | what is copied is the line up to 2048 characters |
| SharedSlot.EndsIff | src/process_interactive.c:47-51 | true exactly for lines that begin with "end" |
| SharedSlot.OneMessage | src/process_interactive.c:36-105 | from where both wait, any line goes through the slot: written, printed, and both go on or both stop |
| SharedSlot.Session | src/process_interactive.c:36-105 | for any lines of which only the last begins with "end" there is a run that prints exactly these lines and ends both processes |
| SharedSlot.EndCanBeMissed | src/process_interactive.c:99-100 | a run in which the end message is not printed |
| SharedSlot.BehavioursKeepInv | src/process_interactive.c:36-105 | the handshake invariant is kept from any state that has it |
| SharedSlot.ResetHarmlessIff | src/process_interactive.c:36-95 | over every behaviour before the customer's reset, with any leftover in the slot: the reset establishes the invariant exactly when it does not take down a flag that the producer raised |
| SharedSlot.NothingLost | src/process_interactive.c:36-105 | after a harmless reset nothing is lost or printed twice in any continuation |
| SharedSlot.FirstMessageLost | src/process_interactive.c:36-105 | after a harmful one the first message is never printed: what is printed is always a prefix of the messages behind it |
| SharedSlot.LostEndHangs | src/process_interactive.c:36-105 | if that message is an end message: in every continuation nothing is printed, the customer spins, and once the producer has finished nothing changes any more |
| SharedSlot.ResetCanLoseAMessage | src/process_interactive.c:90-95 | a run that starts before the customer's reset and loses a message |
| Semaphore.StepKeepsInv | src/process_interactive.c:381-462 | every step but a failing P keeps value plus processes inside at most 1 and the shape of the output |
| Semaphore.Exclusion | src/process_interactive.c:381-462 | in every interleaving in which no P fails: mutual exclusion, the output is a sequence of "AA" and "BB" blocks with at most one unfinished letter, and value plus processes inside is 1 until a V fails, then 0 |
| Semaphore.StepBreaksIff | src/process_interactive.c:381-403 | a step brings both processes inside exactly when it is a P that fails, or finds a positive value, while the other one is inside |
| Semaphore.ExclusionIff | src/process_interactive.c:381-462 | over every run with any failures: exclusion holds at every moment exactly when no step is such a P |
| Semaphore.Conservation | src/process_interactive.c:381-462 | over every run: value plus processes inside is 1 plus the failed Ps less the failed Vs |
| Semaphore.NeverStuckIff | src/process_interactive.c:419-462 | as long as no P fails, some process can move exactly when no V has failed |
| Semaphore.EntersIff | src/process_interactive.c:381-403 | P lets either process in exactly when the value is positive, taking one off, and touches nothing else |
| Semaphore.WholeTurn | src/process_interactive.c:419-462 | a process that finds the semaphore free prints its letter twice and leaves it free |
| Semaphore.GetsIn | src/process_interactive.c:419-462 | from every reachable state without failures, a process outside gets in after at most three steps of the other one and one of its own |
| Semaphore.FailureBreaksExclusion | src/process_interactive.c:381-403 | one ignored failure of P is enough for a mixed block |
| ForkLoop.RunsKeepInv | src/process_interactive.c:485-600 | the process-tree invariant over every run with failing forks and any interleaving |
| ForkLoop.RootStep | src/process_interactive.c:555-600 | every parent step keeps it |
| ForkLoop.ChildStep | src/process_interactive.c:485-580 | every child step keeps it |
| ForkLoop.FiveDistinctChildren | src/process_interactive.c:485-580 | at most five children, all of the one parent, with distinct indices below five; each fills in exactly its own entry of the twenty in its own table, with its pid and 5 to 25 seconds |
| ForkLoop.ParentExitsLast | src/process_interactive.c:585-600 | the parent exits only when no other process is left |
| ForkLoop.NoDeadlock | src/process_interactive.c:545-600 | until the parent has exited, something can happen |
| ForkLoop.ForkCanSucceed | src/process_interactive.c:555-571 | at the top of the loop a fork may create a child with any unused pid, at the same index |
| ForkRuns.FiveAttempts | src/process_interactive.c:555-573 | counted along every run: past the loop the parent has made exactly five attempts, one at each index 0 to 4; the processes that ever were are itself and those it created, each of them once there with its index |
| ForkRuns.AllStarted | src/process_interactive.c:555-573 | if no attempt failed, five different processes were created, one with each index 0 to 4 |
| ForkRuns.OnlyExitedGo | src/process_interactive.c:585-600 | a process disappears only after it has exited, when the parent waits |
| HashFunctions.PolyConcat | src/c_STL.c:18-74 | hash polynomials compose over concatenation |
| HashFunctions.PolyIsWeighted | src/c_STL.c:18-74 | the loop's scheme equals the closed-form sum of weighted characters |
| HashFunctions.HashConcat | src/c_STL.c:18-74 | the composition law in any modulus |
| HashFunctions.HashFun | src/c_STL.c:65-74 | the weighted sum of the signed characters in base 33, modulo 2^64 |
| HashFunctions.HarshString | src/c_STL.c:18-30 | shift and subtract computes the weighted sum in base 31, modulo 2^32, up to the first NUL |
| HashFunctions.BkdrHash | src/c_STL.c:33-42 | the weighted sum in base 131, modulo 2^31, of the characters before the first newline or NUL |
| HashFunctions.BeforeConcat | src/c_STL.c:33-42 | how that prefix composes |
| HashFunctions.LineHashConcat | src/c_STL.c:33-42 | the composition law of the line hash when the first part has no newline or NUL |
| HashChains.InsertPushes | src/c_STL.c:76-104 | Insert pushes on the key's stack, or overwrites the top at the bucket head; other keys keep theirs, and a bucket keeps its head key |
| HashChains.LookupIsTop | src/c_STL.c:106-128 | Get reads the top |
| HashChains.DropPops | src/c_STL.c:130-165 | Dorp pops, other keys keep their stacks, and the chain stays the same exactly for an absent key |
| HashChains.DropDeletesIff | src/c_STL.c:130-165 | Dorp deletes the key exactly when it has at most one node |
| HashChains.DistinctKeysShallow | src/c_STL.c:130-165 | with distinct keys in the chain that is always so |
| HashChains.GetIsLatest | src/c_STL.c:76-128 | under any run of inserts, Get returns the latest value inserted for the key |
| HashChains.GetAfter | src/c_STL.c:76-165 | one operation leaves what every other key reads unchanged |
| HashChains.KeysAreStacks | src/c_STL.c:76-165 | after any run with deletions, each key is a stack that only its own operations touch |
| HashChains.LoneKeyIsMap | src/c_STL.c:76-165 | over any run with deletions, a key whose hash modulo 100 no other key of the run shares is a map entry |
| HashChains.DroppedKeyCanResurface | src/c_STL.c:88-104 | a run in which a deleted key reads an older value |
| ChainedTable.HashTable.constructor | src/c_STL.c:59-63 | an empty table |
| ChainedTable.HashTable.ChainsDisjoint | src/c_STL.c:76-104 | a node occurs at one place of one chain only |
| ChainedTable.HashTable.Get | src/c_STL.c:106-128 | the node found holds the value the table of chains gives, null exactly when there is none |
| ChainedTable.HashTable.InsertFirst | src/c_STL.c:87-93 | an empty bucket gets the node, and the counter advances |
| ChainedTable.HashTable.InsertOver | src/c_STL.c:94-99 | the key at the head has its value replaced |
| ChainedTable.HashTable.InsertNext | src/c_STL.c:100-104 | the node goes behind the head and precedes every older duplicate |
| ChainedTable.HashTable.Insert | src/c_STL.c:76-104 | refines the insertion on chains; the nodes of the bucket afterwards: the new one alone, or the same with the head's value replaced, or the new one at index 1; chains stay acyclic, disjoint and in the right buckets |
| ChainedTable.HashTable.DropHead | src/c_STL.c:140-146 | the first node goes |
| ChainedTable.HashTable.DropBehind | src/c_STL.c:148-162 | the first node with the key goes, further back |
| ChainedTable.HashTable.Dorp | src/c_STL.c:130-165 | refines the removal on chains and returns true exactly when the key was present |
| ChainedTable.HashTable.Clear | src/c_STL.c:186-199 | every node of the table is freed exactly once, bucket by bucket |
| ChainedTable.AllNodesOnce | src/c_STL.c:186-199 | that list has each node once and no others |
| MultiRx.CheckHdrTil | src/protocol_socket.c:605-635 | in terms of the bytes: n is returned exactly when head 0xFB00, length n and tail 0x00BF stand where they belong and the packet ends within `len`; 0 otherwise |
| MultiRx.AcceptedIff | src/protocol_socket.c:605-635 | the same for the specification function |
| MultiRx.MultiDataRx | src/protocol_socket.c:676-694 | on any buffer: terminates; the delivered packets have the bytes of packets and tile a prefix without gap or overlap; it stops at the end or at the first offset where no packet starts |
| MultiRx.TilesUnique | src/protocol_socket.c:676-694 | those two facts determine the packets |
| MultiRx.DeliveredWellFormed | src/protocol_socket.c:605-694 | a delivered packet is well-formed as bytes exactly when it has room for a head and a tail |
| MultiRx.DispatchOfFrame | src/protocol_socket.c:637-673 | base data for type 0 with 260 bytes, length data for type 1 with 292, an error for any other length or type |
| MultiRx.FramesTile | src/protocol_socket.c:605-694 | well-formed packets laid end to end tile the buffer |
| MultiRx.FramesDelivered | src/protocol_socket.c:605-694 | a concatenation of well-formed packets is delivered packet by packet, all bytes consumed |
| ConnectionTable.FreeSlot | src/protocol_socket.c:497-516 | an admitted accept always finds a free slot |
| ConnectionTable.Stored | src/protocol_socket.c:514-529 | an admitted descriptor is in slot `connfd_alivenum` and both sets, and `max_fd` is the larger of the two |
| ConnectionTable.NotStored | src/protocol_socket.c:503-512 | with sixteen connections, or when accept fails, nothing changes |
| ConnectionTable.AcceptKeepsInv | src/protocol_socket.c:497-532 | an accept keeps: distinct occupied slots, each in both sets and at most `max_fd`, `connfd_alivenum` the number of open descriptors, at most 16 |
| ConnectionTable.CloseKeepsInv | src/protocol_socket.c:345-373 | a fatal error keeps it |
| ConnectionTable.AcceptLeaks | src/protocol_socket.c:514-529 | an accept loses the connection in slot `connfd_alivenum` exactly when that slot is occupied |
| ConnectionTable.CloseKeepsLeaks | src/protocol_socket.c:345-373 | a close neither loses nor recovers a connection |
| ConnectionTable.ClosePacked | src/protocol_socket.c:345-373 | the occupied slots stay the first ones exactly when the last connection is the one closed |
| ConnectionTable.CloseThenAccept | src/protocol_socket.c:345-529 | from a packed table, a close and an accept lose a connection exactly when the closed one was not the last |
| ConnectionTable.AcceptKeepsPacked | src/protocol_socket.c:497-532 | a packed table loses nothing by an accept |
| ConnectionTable.RoundKeepsInv | src/protocol_socket.c:305-490 | one whole call with any outcomes of accept, select, read and write keeps the invariant |
| ConnectionTable.RunsKeepInv | src/protocol_socket.c:305-532 | over every run: occupied slots at most `connfd_alivenum` at most 16, the difference being the lost connections, which never come back and are at most fifteen |
| CallOutcomes.LoopOutcome | src/protocol_socket.c:336-376 | the loop takes out of slots and sets exactly the descriptors that were selected for writing with something to send and on which write fails for good, or selected for reading and on which read fails for good; nothing else changes |
| CallOutcomes.CallOutcome | src/protocol_socket.c:305-490 | a whole call: the accepted connections are in, exactly those with a fatal error in a visited slot are out |
| CallOutcomes.ConnectionOutcome | src/protocol_socket.c:305-490 | for one connection in a visited slot: gone from slots, sets and open descriptors exactly on a fatal error, otherwise still in its place |
| CallOutcomes.NothingFails | src/protocol_socket.c:305-490 | a call in which no read and no write fails closes nothing |
| CallOutcomes.OneSided | src/protocol_socket.c:384-490 | send_tcpserver does not depend on what can be read, recv_tcpserver not on what can be written |
| ConnectionService.ServedIffPacked | src/protocol_socket.c:334-376 | every open connection is in a visited slot exactly when the occupied slots are the first `connfd_alivenum` ones |
| ConnectionService.SlotsPackedIff | src/protocol_socket.c:336-376 | the loop leaves a packed table packed exactly when the connections it closes are the last ones |
| ConnectionService.RoundPackedIff | src/protocol_socket.c:305-490 | so does a whole call, accepts included |
| ConnectionService.RoundKeepsUnserved | src/protocol_socket.c:305-490 | a call comes to no slot that holds an unserved connection, and leaves it open and unserved |
| ConnectionService.UnservedForever | src/protocol_socket.c:305-532 | over every run: a connection outside the visited slots is never read from, written to or closed again |
| ConnectionService.UnpackedForever | src/protocol_socket.c:305-532 | over every run: a table that is not packed never is again |
| ConnectionService.AdmittedIsServed | src/protocol_socket.c:497-532 | a new connection is admitted exactly below 16, and is then in a visited slot |
| ConnectionService.OneAlwaysServed | src/protocol_socket.c:305-532 | over every run from a table without losses: the next accept is admitted, or a visited slot holds a connection |
| ConnectionService.FifteenCanBeLost | src/protocol_socket.c:305-532 | for any listening socket there is a run from the zeroed block that loses fifteen connections |
| ConnectionService.ListenerNeverSelected | src/protocol_socket.c:328-334 | over every run from the zeroed block the listening socket is never selected, so that a call accepts at most once |
| TcpServer.TcpServerCrol.constructor | include/protocol_socket.h:13-24 | the zero-initialised control block with its listening socket: nothing set, nothing lost, packed |
| TcpServer.TcpServerCrol.AcceptTcpConnet | src/protocol_socket.c:497-532 | realises the accept on the table, the search loop always ending at a free slot |
| TcpServer.TcpServerCrol.CloseSlot | src/protocol_socket.c:345-349 | realises the close |
| TcpServer.TcpServerCrol.Serve | src/protocol_socket.c:305-490 | the three server functions realise a call on the table |
| TcpServer.TcpServerCrol.ServeSlots | src/protocol_socket.c:334-376 | the loop closes exactly the slots with a fatal error and goes over the number of slots fixed before the second accept |

## Left out

- Socket setup, `select`, `accept`, `read`, `write`, `shmget`, `semop`, `fork` and `wait` themselves: their outcomes are choices of the environment.
- `rx_cmd` (src/cmd_handle.c:104-162): its type codes do not match those sent, its handlers are empty and it does not advance past an incomplete message; the receiver is driven one fragment at a time, in the order of the loop of lines 128-160.
- The order of steps called `AsMeant` exists as functions only; no mutable object follows it, because the source has none.
- CmdBuf.FragCombine: requires a length field of at least 4 and that the bytes fit, because the code has no check and would write outside the buffer; `DeliveredFits` shows that every meant frame meets this.
- Deliver: the receiver stops at a header with a length below 4, where the code would copy a negative number of bytes, at one that runs past the frame, where the code would copy bytes from behind it (see `BeyondTheEnd`), and at an unknown type, where it would write behind the buffers.
- AllCmdBuf.TxCmd: requires the array to have room for the frame, which the C function takes on trust.
- `IndataMessage` takes any message of 1 to 4096 bytes where `tx_add_cmd` always fills in 100 bytes.
- SharedSlot: memory is sequentially consistent, copying the text is one step, and the text read is the string up to its terminator cut to 2048 characters; printf's read beyond an unterminated slot is not modelled.
- `READ_ONCE`/`WRITE_ONCE`, lockless readers and `container_of`: list operations are sequential and a node stands for its entry.
- LIST_POISON1 and LIST_POISON2 in a `list_head` and LIST_POISON1 in a `hlist_node` are modelled by null; a poisoned `pprev` has a value of its own.
- The debug hooks `__list_add_valid` and `__list_del_entry_valid`, which always accept.
- `SwapLinks` has the calls of `list_swap` written out, so that one contract covers all placements.
- `hlist_add_fake`, `hlist_fake` and the iteration macros other than `list_for_each_safe` are not modelled.
- ForEachSafe: the body deletes the entry at hand or not; a body that changes other entries is not modelled.
- `JSHash` (a mixing function without a closed form), `PrintHashTable`.
- HashTable.Insert: the new node that is not linked when the head's value is overwritten is simply dropped, as the C code drops it; copying of key strings is not modelled.
- HashTable.Clear: says which nodes are freed, in which order; the bucket pointers left dangling are not followed further.
- HarshString and BkdrHash: require the terminator the C loops run to.
- MultiRx: the handlers of the two message types are empty in the source; a packet is recorded with the dispatch chosen for it.
- Serve: the buffers passed to read and write and the number of bytes received; descriptors are assumed positive and not in use when accept returns them.
- `mmap_*`, `msgqueue_*`, channels and signal handlers: thin system-call demos.
- src/collectData.c, src/logging.c, src/common.c, src/route_algo.c, src/driver_module.c, src/kernelDemo.c, the websocket files and the multicast senders: file output, empty functions or comments.
