# Models and proofs for the lock-free table, the HTTP connection and the scheduling classes

Each `.dfy` file models one component of the repository and proves what the component
is for. `dafny verify dfyconfig.toml` checks all of them.

Concurrent code is a step system over values. One step is one shared read, store or
compare-and-swap, one semaphore operation, or one locked section; any number of threads
take their steps in any order, and a theorem about "every run" quantifies over every such
sequence of steps, of any length. Sequential code is a class or a set of methods with loops,
as in the source, and every method is proved against a function of its inputs and its old
state.

**The lock-free list** (`ListMachine`, `ListShape`, `ListInvariant`, `ListHistory`,
`ListRemoval`, `ListReclamation`, `ListBalance`, `ListWalk`, `ListProgress`, `SwapRace`).
`ListMachine` gives every program point of `insert`, `remove`, `lookup`, `lookupInternal`,
`retireNode` and `maybeFreeNodes` a step of its own. A marked pointer is a pair of node and
mark; addresses are never handed out twice, and a deleted node keeps its contents and joins
the set `freed`, so that a later access can be seen. The main results: every run is
linearizable; the chain is sorted and inserted nodes stay reachable until marked; a removal
returns only when its node is unlinked; every node is retired at most once and none is lost; a
thread left alone finishes its call; and no step touches a freed node **exactly when** the
exchange of the two hazard slots (lock_free_list.hpp:268-272) is taken as one step or there is
at most one thread. As the two stores that the code makes, the exchange leaves the node that
holds `*prev` in no slot for a moment; `SwapRace` builds, for any retirement threshold and any
two or more threads, a run that uses a freed node. With the exchange as one step, no
compare-and-swap of `*prev` expects an address that was freed since the thread found it there
(`NoAba`).

**The table on top** (`Words`, `SplitOrder`, `SequentialList`, `HashTable`). `Words` has the
C operators on 32-bit words as bit lists and shows that the five masked shifts are a bit
reversal. `HashTable` is the split-ordered table over the list, one operation at a time,
refining a map keyed by the 31 low bits of the key.

**Hazard-pointer scans** (`HazardPointers`): what a scan frees and keeps while other threads
change slots between any two of its reads.

**The buffer** (`Buffer`, `BufferIterator`) refines a byte queue; its iterator refines
indexing. **HTTP** (`HttpText`, `HttpGrammar`, `HttpParser`, `HttpConnection`): the parser's
scans as functions on text, the language they accept written out as texts, the parser proved
against the functions over the iterator, the printer, and the loops `doRead` and `readDone`.
The wire form is a subset of the request line of section 3.1.1 of RFC 7230, with pipelining as
in section 6.3.2 of RFC 7230. **The writer** (`ConnectionWriter`): the background writer of a
connection, for any interleaving of producers, writers, socket results and poll events.

**Scheduling** (`ThreadPool`, `Barrier`, `Descriptor`) and **statistics** (`RequestStats`).

Where the code and its comments disagree, the model follows the code, and the exact
condition under which the promise holds is a theorem:

- `appendFrom` promises that the other buffer will be empty (buffer.hpp:106-108). Its write
  position is not put right when its last chunk was empty, so the other buffer is usable
  afterwards exactly if its last chunk held something (`AppendFrom`, `AppendBreaksSource`).
- `byteCount` adds every chunk from the second on (buffer.cpp:216-218), also those read past
  and kept. It is the queue's length exactly if the read position is in the first chunk, or in
  an empty second one that is the last (`ByteCount`, `ByteCountExact`). Over any sequence of
  uses, chunks are kept only by an `appendFrom` that finds the chunk being read at its end, one
  for each such append; when it does is a function of the uses, and so is whether `byteCount`
  is right (`RunUses`, `CountsRightly`). `CountsTooMuch` makes it wrong.
- An iterator that starts at the end of an inner chunk never ends and never moves. `RunUses`
  says after which sequences of uses the read position is there: never after
  reserve/advance/appendFrom/consume alone (`StreamingMovesOn`) or write/reserve/consume alone
  (`ProducingMovesOn`), but mixing them leads there (`StuckIterator`), and so does `copyFrom`
  after everything has been consumed (`StuckByCopy`).
- `parseLine` looks at the byte behind a trailing '\r' even if there is none. A request cut in
  two is handled as if uncut exactly if the cut does not make the parser look there, or the
  byte there happens to be '\n' and it is not the request's last (`CutRequest`).
- `startWrite` on a buffer from which another writer has just sent everything writes zero bytes,
  takes the result 0 for a closed socket, and leaves `writing_` set with nobody writing
  (`StuckWriter`). As long as the socket takes something of every nonempty write or says EAGAIN,
  that is the only way: the flag stands with nobody writing exactly if a writer just elected by
  `startWrite` found `readSize()` to be 0 and went through with the write (`WriterLostExactlyWhen`).
- `getStats` sums all ten slots, up to almost two seconds, for a thread whose base slot began
  exactly one second ago. The bound then still holds exactly if the nine slots behind the base
  are empty and no request fell on the base's first tick (`SeenExact`).
- A descriptor's section with a NULL callback (io_manager.cpp:213) uses up the event or the
  request it answers without telling anybody (`LostWakeUp`); callbacks are lost exactly at the
  answering sections that had none (`AnyOrder`, `CalledAtMost`).

## Model

| member | source | states |
|---|---|---|
| ListHistory.Linearizability | lock_free_list.hpp:150-278 | For every run of any number of threads there is an assignment of steps to calls: each call that returned has a step of its own thread between call and return, no two calls share one, the results are those of a sequential map executing the calls in the order of these steps, and at every moment the abstract map is that execution's map |
| ListHistory.MapSteps | lock_free_list.hpp:176-202 | Only a successful insertion CAS and a successful marking CAS change the abstract map |
| ListInvariant.InvRun | lock_free_list.hpp:150-278 | The invariant (chain shape, order, what each program point knows) holds at every moment of every run |
| ListInvariant.CasInsertYes | lock_free_list.hpp:176-180 | A successful insertion CAS adds exactly its own key, absent before, with its own value |
| ListInvariant.CasMarkOk | lock_free_list.hpp:195-199 | The marking CAS, if it succeeds, removes exactly the key the call names; if not, nothing changes |
| ListInvariant.UnlinkYes | lock_free_list.hpp:202-203 | Physical deletion, when its CAS succeeds, by the remover or a helper, unlinks one reachable marked node and leaves the map alone |
| ListInvariant.SortedOverRun | lock_free_list.hpp:229-278 | At every moment of every run the keys along the links strictly ascend |
| ListInvariant.GrowsOverRun | lock_free_list.hpp:176-208 | Over any stretch of a run: a marked cell never changes again, published keys and values never change, an inserted unmarked node is reachable, an unlinked node is never linked again |
| ListRemoval.RemovedIsUnlinked | lock_free_list.hpp:202-207 | In every run, when a remove that marked a node returns, whether its own CAS or a lookup after it did the work, the node is no longer linked, and is in one thread's hands or freed |
| ListShape.LinkedIsShape | lock_free_list.hpp:103-109 | A set of cells closed under next, sorted and gap-free is exactly the set of reachable cells |
| ListShape.GapIsAbsent | lock_free_list.hpp:259-277 | Stopping between two neighbours whose keys enclose a key means that the key is absent |
| ListReclamation.CustodyRun | lock_free_list.hpp:103-109 | In every run every unlinked node is held by exactly one thread or freed, and only unlinked or never published nodes are freed |
| ListReclamation.RetiredOnce | lock_free_list.hpp:202-206 | Although remover and helpers race to unlink it, no node is handed to retireNode twice |
| ListReclamation.ReclamationSafety | hazard_pointers.hpp:197-235 | With the slot exchange as one step, or one thread, no step of any run reads, writes, compares or deletes a freed cell, while scans read one slot per step |
| ListReclamation.NoAba | hazard_pointers.hpp:23-24 | With the slot exchange as one step, or one thread: whenever a step of any run compares-and-swaps `*prev` from a node, the thread found that node behind the same `*prev` at an earlier step of its own; at every moment since, it was in the thread's first slot and not freed, and the thread tried no other CAS since, but for marking what it unlinks |
| ListBalance.NothingLost | lock_free_list.hpp:150-206 | In every run every node ever allocated is linked, freed, retired or about to be, or still belongs to the insert that made it |
| ListBalance.NothingLostAtRest | lock_free_list.hpp:150-206 | With all threads between calls, what is neither linked nor freed is on a retired list |
| ListBalance.RetiredBound | hazard_pointers.hpp:196-235 | In every run a thread is in a scan only after its list grew beyond the threshold, and outside scans the list is within the threshold or the number of slots |
| ListWalk.LooksTwice | lock_free_list.hpp:229-278 | No call finds its key, marks, or inserts before a node unless, after reading that node's key, it saw it behind `*prev` once more, with no CAS on `*prev` of its own since |
| ListWalk.StartSaves | lock_free_list.hpp:221-235 | A call with a start node never looks at a cell before it |
| ListWalk.SlotsStand | lock_free_list.hpp:237-271 | A thread's hazard slots are written only when its walk comes to a node or moves on |
| ListProgress.RankDrops | lock_free_list.hpp:150-278 | Every step of a call lowers the rank of its thread, so that it cannot go on for ever if no other thread moves |
| ListProgress.ObstructionFree | lock_free_list.hpp:150-278 | At every moment of every run each thread could finish its call by its own steps alone |
| SwapRace.UseAfterFree | lock_free_list.hpp:268-272 | With the exchange as two stores and two threads, there is a run with a step on a freed cell, for every retirement threshold |
| SwapRace.SafeExactlyWhen | lock_free_list.hpp:268-272 | Reclamation is safe in every run if and only if the exchange is one step or there is at most one thread, provided some key may be removed |
| Words.ReverseIsMirror | lock_free_hash_table.cpp:83-90 | The five masked shifts put bit i at place 31 - i, for every word |
| Words.ReverseTwice | lock_free_hash_table.cpp:83-90 | Reversing twice gives the word back |
| Words.StageBit | lock_free_hash_table.cpp:85-88 | One masked-shift line exchanges neighbouring runs of bits and nothing else |
| SplitOrder.ProgramKeys | lock_free_hash_table.cpp:92-99 | The two key functions compute the reversal of the key with its top bit set, and of the bucket number |
| SplitOrder.Parity | lock_free_hash_table.cpp:92-99 | Regular keys are odd and dummy keys even, so they never collide |
| SplitOrder.RegularInjective | lock_free_hash_table.cpp:92-95 | Two keys get the same regular key exactly if they agree modulo 2^31 |
| SplitOrder.BucketRange | lock_free_hash_table.cpp:27-31 | For size 2^i, key mod size is b exactly if the regular key lies strictly between the reversal of b and that plus 2^(32-i) |
| SplitOrder.ParentIndex | lock_free_hash_table.cpp:77-81 | The parent of a bucket is the bucket without its highest set bit, so a smaller one |
| SplitOrder.ParentDummy | lock_free_hash_table.cpp:62-75 | A parent's dummy key is below its child's |
| SequentialList.LockFreeList.LookupInternal | lock_free_list.hpp:221-278 | Wherever the walk starts, it stops between the last node below the key and the first at or above it, and finds the key exactly if it is listed |
| SequentialList.LockFreeList.Insert | lock_free_list.hpp:150-182 | Links the node at its place unless the key is there, and then hands back the node that holds it and changes nothing |
| SequentialList.LockFreeList.Remove | lock_free_list.hpp:185-209 | Unlinks exactly the node with the key, if there is one |
| SequentialList.LockFreeList.Lookup | lock_free_list.hpp:212-218 | Tells whether the key is listed and with which value |
| SequentialList.LockFreeList.CheckIntegrity | lock_free_list.hpp:281-299 | True exactly if the data strictly ascend along the links |
| HashTable.LockFreeHashTable.constructor | lock_free_hash_table.cpp:9-20 | The fresh table is the map from 0 to 0 |
| HashTable.LockFreeHashTable.InitializeBucket | lock_free_hash_table.cpp:62-75 | Terminates; the bucket and all its ancestors then point at listed dummies; no other bucket and no binding changes |
| HashTable.LockFreeHashTable.BucketFor | lock_free_hash_table.cpp:28-30 | The bucket's dummy is a place from which the list may be searched for the key |
| HashTable.LockFreeHashTable.InsertKey | lock_free_hash_table.cpp:27-43 | Binds key mod 2^31 unless it is bound, never overwrites, and doubles the table exactly when it holds more than ten keys a bucket |
| HashTable.LockFreeHashTable.Grow | lock_free_hash_table.cpp:36-41 | Doubling keeps every bucket and the shape, with size a power of two up to 2^28 |
| HashTable.LockFreeHashTable.RemoveKey | lock_free_hash_table.cpp:45-53 | Unbinds key mod 2^31 and tells whether it was bound; dummies stay |
| HashTable.LockFreeHashTable.FindKey | lock_free_hash_table.cpp:55-60 | Tells whether key mod 2^31 is bound and to what, and changes no binding |
| HashTable.LockFreeHashTable.GetCount | lock_free_hash_table.cpp:109-111 | The number of bound keys |
| HashTable.RunCalls | lock_free_hash_table.cpp:27-60 | Any sequence of calls on a fresh table is answered as by a map that starts as {0 -> 0}, across any doublings and bucket creations |
| HazardPointers.HazardPointers.MaybeFreeNodes | hazard_pointers.hpp:206-235 | With one value read from each slot, splits the retired list exactly into the nodes among these values, kept, and the rest, deleted and counted; what a slot holds all along is the value read there, so if all slots stand still the nodes kept are those they hold; other lists are untouched |
| HazardPointers.HazardPointers.Snapshot | hazard_pointers.hpp:210-219 | Reads every slot once, whatever other threads do to the slots between the reads; the snapshot is the set of the non-null values read, and a slot that holds one value all along is read with it |
| HazardPointers.HazardPointers.Sweep | hazard_pointers.hpp:221-234 | Deletes exactly the retired nodes that are not in the snapshot, each once |
| HazardPointers.HazardPointers.RetireNode | hazard_pointers.hpp:196-204 | Scans exactly when the list was at the threshold, and then deletes exactly the nodes read in no slot; otherwise only adds the node. The list stays within the threshold or the number of slots, whichever is larger, and nothing held all along is deleted |
| Buffers.Buffer.constructor | buffer.cpp:16-17 | A fresh buffer is the empty queue |
| Buffers.Buffer.Reserve | buffer.cpp:25-49 | Succeeds exactly up to a chunk's size, then guarantees the room, starts a new chunk only if the old one lacks it, and never changes the content |
| Buffers.Buffer.Advance | buffer.cpp:51-60 | Appends the bytes the producer put into the writing area, if they are more than none and fit, and else does nothing |
| Buffers.Buffer.Write | buffer.cpp:62-84 | Appends all of the data whatever its size, moves no byte that can be read already, and says where it leaves the write position and when it leaves the read position at the end of an inner chunk |
| Buffers.Buffer.AppendFrom | buffer.cpp:97-151 | The content is followed by all of the other's, and the write offset is that of the other's last filled chunk, or 0 behind a full one; a read chunk at its end is kept; the other is left valid and empty exactly if its last chunk held something; a consumed or empty source changes nothing |
| Buffers.AppendBreaksSource | buffer.cpp:138-150 | A source filled to the end of a chunk is left with a write position outside its chunks |
| Buffers.Buffer.CopyFrom | buffer.cpp:153-180 | The content is followed by the other's, which is unchanged; no byte that can be read already moves; where the write position ends, and exactly when the read position is left at the end of an inner chunk |
| Buffers.Buffer.Consume | buffer.cpp:182-208 | Drops exactly min(n, length) bytes and only chunks read to their end, and leaves the read position at a byte or at the end |
| Buffers.Buffer.DropChunks | buffer.cpp:229-238 | Takes exactly the first n chunks away and renumbers both positions |
| Buffers.Buffer.ByteCount | buffer.cpp:210-220 | The queue's length plus the bytes in chunks read past but kept |
| Buffers.Buffer.ByteCountExact | buffer.cpp:210-220 | That surplus is zero exactly if no chunk was kept, or one empty last chunk |
| Buffers.RunUses | buffer.hpp:13-55 | Any sequence of uses of a fresh buffer, with copies and appends from buffers whose chunks hold anything, acts as on a byte queue. From the uses alone follow the write offset, whether the read position is at the end of an inner chunk, and how many chunks are kept: one for each nonempty appendFrom that found the chunk being read at its end. byteCount is the queue's length if and only if none is kept, or one and the queue and the write chunk are empty |
| Buffers.KeptNone | buffer.cpp:132-136 | No chunk is kept if and only if no append of the sequence finds the chunk being read at its end |
| Buffers.NonemptyKeepsNone | buffer.cpp:132-136 | Without write and copyFrom, and with appends only onto a nonempty queue, no chunk is kept |
| Buffers.StreamingMovesOn | buffer.cpp:25-60 | reserve, advance, appendFrom and consume alone never leave the read position at the end of an inner chunk |
| Buffers.ProducingMovesOn | buffer.cpp:62-84 | Nor do reserve, write and consume alone |
| Buffers.StuckHasContent | buffer.cpp:182-208 | Whenever the read position is at the end of an inner chunk, there are bytes left to read |
| Buffers.CountsTooMuch | buffer.cpp:132-136 | Everything advanced and consumed, then an append: byteCount is more than what can be read |
| BufferIterators.BufferIterator.constructor | buffer.cpp:252-265 | A new iterator has read nothing, counts the buffer's byteCount, and is stuck exactly if the buffer's read position is at the end of an inner chunk |
| BufferIterators.BufferIterator.Next | buffer.hpp:222-232 | One byte further, or nowhere at the end; the same whether the fast path or slowNext is taken |
| BufferIterators.BufferIterator.SlowNext | buffer.cpp:278-294 | One byte further, into the next chunk when its chunk ends, with the budget recomputed |
| BufferIterators.BufferIterator.GetChar | buffer.hpp:234-236 | The k-th byte of the content after k steps; at the end the next byte of memory |
| BufferIterators.BufferIterator.Eob | buffer.hpp:214-220 | True exactly when all bytes have been read; never for a stuck iterator |
| BufferIterators.ReadAll | buffer.hpp:192-193 | k steps read the first k bytes, and consuming the count leaves exactly the rest |
| BufferIterators.StuckIterator | buffer.cpp:278-294 | An iterator that does not move or end although there is content |
| BufferIterators.StuckByCopy | buffer.cpp:153-180 | copyFrom of a full chunk behind a chunk that was read to its end leads to such an iterator |
| HttpParser.ParseString | http_parser.cpp:105-115 | The longest word with neither blank nor '\r', what ends it not stepped over; incomplete exactly if the text ends first |
| HttpParser.ParseLine | http_parser.cpp:117-134 | A line and its end as the grammar says, the byte behind a trailing '\r' included |
| HttpParser.SkipChar | http_parser.cpp:136-141 | Steps over the wanted byte, refuses another, asks for more at the end |
| HttpParser.SkipNewLine | http_parser.cpp:143-152 | Steps over '\r' '\n', refuses other bytes, asks for more at the end |
| HttpParser.ParseRequest | http_parser.cpp:11-57 | 0 with the request and the bytes used, 1 or -1, exactly as the grammar decides on the buffer's content |
| HttpGrammar.ParsedIff | http_parser.cpp:32-48 | The verdict is 0, with this request and these bytes used, if and only if these bytes are the request line in words without blank and '\r', any number of nonempty lines without '\r', each with its "\r\n", and "\r\n"; or all of the text and a '\n' that lies behind it are |
| HttpGrammar.IncompleteIff | http_parser.cpp:32-48 | Unless the parser looks past the text, the verdict is 1 if and only if the text begins such a request, or is a request line up to a blank behind the version |
| HttpGrammar.LooksPastText | http_parser.cpp:121-128 | The parser looks past the text if and only if that is a request line, header lines, and one more line cut behind its '\r' |
| HttpText.ParseStable | http_parser.cpp:11-57 | A verdict of 0 or -1 reached without looking past the input stands whatever arrives later |
| HttpText.PastMatters | http_parser.cpp:121-128 | The verdict depends on a byte behind the input exactly if the parser comes to a '\r' that is the last byte |
| HttpText.LooksPastIff | http_parser.cpp:121-128 | That happens exactly if the last byte is '\r' and what precedes it is a request line with unfinished headers |
| HttpText.PrefixIncomplete | http_parser.cpp:11-57 | A strict prefix of a request gives 1 exactly unless the parser looks past it, and then exactly if the byte there is '\n' and not the request's last |
| HttpText.DeliveryIndependence | http_connection.cpp:44-82 | A stream in any pieces, none ending in '\r', gives the same requests, the same status and the same leftover as in one piece |
| HttpText.DrainContinues | http_connection.cpp:49-81 | Draining a stream can be interrupted anywhere but behind a '\r' |
| HttpText.CutRequest | http_parser.cpp:121-128 | A request cut in two comes out whole with nothing left exactly unless the first part makes the parser look past it, up to the byte that lies there |
| HttpGrammar.ServeText | http_connection.cpp:49-95 | A request of the grammar at the front of a stream is handed over; draining goes on behind it unless its address is "quit", and then gives up with the rest unread |
| HttpGrammar.ServePrinted | http_connection.cpp:49-95 | The same for a printed request, whose address is then "/quit" |
| HttpGrammar.DrainSplits | http_connection.cpp:44-82 | For every stream that does not end in '\r': what was handled is a sequence of requests of the grammar, their texts and what is left make up the stream, only the last may be for "quit"; otherwise no request is at the front of what is left, and draining ends well exactly if that may still become one |
| HttpGrammar.LateNewLine | http_parser.cpp:121-128 | The shortest request, cut before its last byte, is refused |
| HttpGrammar.PrintParse | http_request.cpp:20-27 | A printed request whose fields have no blank, '\r' or NUL and whose address starts with a slash is parsed back without the slash |
| HttpGrammar.PrintParseIff | http_request.cpp:20-27 | Exactly those requests survive printing and parsing |
| HttpGrammar.PipelineRoundTrip | http_connection.cpp:49-81 | Any number of printed requests drained in sequence come out as they went in, with nothing left but what follows a request for "/quit" |
| HttpGrammar.ServedAll | http_connection.cpp:49-81 | If none is for "/quit", all of them come out and the buffer ends empty |
| HttpConnections.ToBuffer | http_request.cpp:20-27 | Appends method, address and version up to their first NULs, with their separators, to any buffer, and says exactly when the read position ends at the end of an inner chunk |
| HttpConnections.HTTPServerConnection.TakeRequest | http_connection.cpp:50-70 | Parses one request and consumes exactly its bytes, or leaves the content alone |
| HttpConnections.HTTPServerConnection.ReadDone | http_connection.cpp:44-82 | Terminates; the result, the requests handled and the bytes left are those of draining the content |
| HttpConnections.HTTPServerConnection.HandleRequest | http_connection.cpp:91-95 | The request is handled, and the server goes on unless its address is "quit" |
| HttpConnections.HTTPServerConnection.DoRead | connection.cpp:168-202 | However the socket cuts the stream, the requests handled and the bytes left are those of draining its pieces one by one |
| HttpConnections.PrintAndServe | http_connection.cpp:44-82 | Printing into a fresh buffer and running the connection's loop on it gives the requests back, wherever chunks end |
| ConnectionWriter.WriteIsProduce | buffer.cpp:62-84 | What write does to the output buffer is a step of the writer's machine and moves nothing that is being sent |
| ConnectionWriter.CopyIsProduce | buffer.cpp:153-180 | The same for copyFrom |
| ConnectionWriter.ConsumeIsShrink | buffer.cpp:182-208 | What consume does is the machine's step: after consuming bytes the readable area is empty only if the buffer is |
| ConnectionWriter.InvStep | connection.cpp:204-270 | Every step of producers, writers, socket, poller and pool keeps the invariant |
| ConnectionWriter.StreamIntact | connection.cpp:225-270 | In every run, what was sent followed by what is buffered and not in flight is everything appended, and at most one doWrite is looping, scheduled or waiting |
| ConnectionWriter.WritingMeansWriter | connection.cpp:257-261 | writing_ falls only when everything appended has been sent; there is a writer exactly as long as it stands and no doWrite has ended on an error or a result of 0 |
| ConnectionWriter.GaveUpMeansNobody | connection.cpp:241-253 | Once a doWrite has ended on an error or a result of 0, writing_ stands and no doWrite is looping, scheduled or waiting |
| ConnectionWriter.DeletedIsQuiet | connection.cpp:61-79 | No step is possible on a connection whose last reference was given back |
| ConnectionWriter.DeletedExactlyWhen | connection.cpp:61-79 | The connection is deleted exactly when nothing reads, waits, is scheduled or runs on it any more |
| ConnectionWriter.OffersAll | connection.cpp:231-235 | What a thread offers to the socket is all that was readable when it looked |
| ConnectionWriter.EagainWaits | connection.cpp:240-243 | After EAGAIN nothing is sent until a scheduled doWrite is taken up again |
| ConnectionWriter.ResumedByPolls | io_manager.cpp:218-267 | A doWrite is taken up again at most once for every event of the poller, and once for what it may have had in hand at the start |
| ConnectionWriter.EventKept | io_manager.cpp:218-267 | An event that nobody waits for is kept: the writer that next gives way, however late, is scheduled at once |
| ConnectionWriter.EmptyWriteIsFirst | connection.cpp:230-235 | A write of zero bytes is tried only right after startWrite found nothing readable |
| ConnectionWriter.WriterLostExactlyWhen | connection.cpp:204-270 | In every run whose socket takes something of every nonempty write or says EAGAIN: writing_ stands with no writer if and only if, earlier, a writer just elected by startWrite found readSize() to be 0 and settled the write of nothing |
| ConnectionWriter.StuckWriter | connection.cpp:204-270 | A run without errors after which writing_ stands, nobody writes, and bytes stay unsent |
| RequestStats.Counts.FinishedRequest | request_stats.cpp:33-67 | The request is counted in the slot of its tick, or of the base if that began at most a slot ago; the array then holds the last ten slots' counts modulo 2^32 |
| RequestStats.Counts.ZeroUpTo | request_stats.cpp:52-56 | Forgets exactly the slots behind the base up to the new one |
| RequestStats.Counts.AddTo | request_stats.cpp:82-91 | Adds exactly the counts of the slots from that after `now`'s round to the base, or none when the base is more than a second old |
| RequestStats.Counts.SeenBound | request_stats.cpp:69-92 | What one thread adds is at least the requests after now-9S and at most those after now-10S, unless its base began exactly at now-10S |
| RequestStats.Counts.SeenExact | request_stats.cpp:82-91 | In that case the bound holds exactly if the nine slots behind the base are empty and no request fell on the base's first tick |
| RequestStats.Counts.EmptySlot | request_stats.cpp:41-67 | Before 2^32 requests a slot is empty exactly if its counter is 0 |
| RequestStats.CountedTooLate | request_stats.cpp:82-91 | A request of 19 slots ago that is still counted |
| RequestStats.RequestStats.FinishedRequest | request_stats.cpp:33-38 | Records at the given thread and at no other; refuses a wrong thread number |
| RequestStats.RequestStats.GetStats | request_stats.cpp:69-94 | The sum over the threads modulo 2^32; if no base began at now-10S and fewer than 2^32 requests came after that, the number returned lies between the requests after now-9S and those after now-10S |
| RequestStats.RequestStats.StatsBound | request_stats.cpp:69-94 | That sum before wrapping lies between the number of requests after now-9S and after now-10S over all threads, if no base began at now-10S |
| RequestStats.PosDiffer | request_stats.hpp:102-105 | Ten consecutive slots are at ten different positions |
| ThreadPool.InvStep | thread_pool_fast.cpp:50-169 | Every step of adding, waking, running and queueing keeps the invariant |
| ThreadPool.FirstInFirstOut | thread_pool_fast.cpp:145-169 | In every run the tasks given away are the first that were added, each recorded for good with one worker, which holds it or has run it, and a worker holds no other; the rest waits in order, and only if no worker is idle |
| ThreadPool.NeverOverwritten | thread_pool_fast.cpp:88-94 | A worker that holds a task keeps it until it has run it |
| ThreadPool.StopFinishesAll | thread_pool_fast.cpp:121-143 | Once as many NULLs as workers were added and all workers are gone, each took exactly one NULL and every task added before the last NULL has run |
| ThreadPool.NothingAfterStop | thread_pool_fast.cpp:66-70 | A task added after as many NULLs as there are workers is never given away or run |
| ThreadPool.WorkGoesOn | thread_pool_fast.cpp:50-169 | In every run, while a task that was added has not run and some worker has not gone, a worker can go on |
| ThreadPool.LastBackFirstUsed | thread_pool_fast.cpp:145-169 | The worker that came back last gets the next task, and the other idle ones stay as they were |
| Barrier.InvStep | thread_barrier.hpp:59-75 | Every step of wait() keeps the invariant |
| Barrier.RoundsDoNotOverlap | thread_barrier.hpp:59-75 | In every run of any number of threads: at most one token is free and none while a thread holds it, nobody leaves a round before all participants came, and a round ends only when all have left |
| Barrier.NobodyRunsAhead | thread_barrier.hpp:59-75 | With one thread per participant, no thread has left a round that another has not reached, or reached one that another is a whole round behind |
| Barrier.NeverStuck | thread_barrier.hpp:59-75 | With as many threads in wait() as participants, or with all of a round in it, some thread in wait() can go on |
| Descriptors.Descriptor.ReadWhenReady | io_manager.cpp:201-216 | Answers exactly if a read event came that nothing answered, and is remembered otherwise; the callback is scheduled exactly if it answers and there is one |
| Descriptors.Descriptor.WriteWhenReady | io_manager.cpp:218-233 | The same for writing |
| Descriptors.Descriptor.ReadIfWaiting | io_manager.cpp:235-250 | Answers exactly if a request is unanswered, and is remembered otherwise; the callback is scheduled exactly if it answers and there is one |
| Descriptors.Descriptor.WriteIfWaiting | io_manager.cpp:252-267 | The same for writing |
| Descriptors.Descriptor.SetUpCalls | io_manager.cpp:189-199 | Sets both callbacks and leaves the flags and histories alone |
| Descriptors.FlagsMore | io_manager.cpp:201-267 | A locked section keeps the flags equal to what is unanswered in the history |
| Descriptors.AnyOrder | io_manager.cpp:189-267 | In any interleaving, with callbacks set and cleared in between: each direction's history is that direction's part of the interleaving in order; every section answers exactly if there was something to answer; the flags remember exactly what is unanswered and are never both set; the callbacks scheduled are those of the answering sections that had one, no more than requests or events |
| Descriptors.CalledAtMost | io_manager.cpp:213-215 | Every answering section schedules a callback exactly if every one of them had one |
| Descriptors.LostWakeUp | io_manager.cpp:213-215 | An event, then a request, without a callback: both are used up and nothing is scheduled |

## Left out

- HashTable.RunCalls: one operation at a time; the push onto `buckets_` while other threads read it (lock_free_hash_table.cpp:36-41) is a data race that no result here covers.
- ListReclamation.ReclamationSafety: assumes the slot exchange to be one step, or a single thread; without that it is false, as SwapRace.SafeExactlyWhen says.
- ListHistory.Linearizability: addresses are never handed out twice; that reuse of freed ones could not fool a compare-and-swap is ListReclamation.NoAba; a start node is assumed to be listed, never removed and below the key, as HashTable.LockFreeHashTable.BucketFor provides; an insert whose value pointer is NULL stores an arbitrary value.
- RequestStats.RequestStats.GetStats: reads the counters between two requests, not while one is being recorded; a second is ten slots exactly, without the rounding of ticks per second to a whole number of ticks per slot.
- ThreadPool.StopFinishesAll: stop() called from outside the pool; a stop() from one of the workers, which ends that worker after its task, is not modelled.
- Barrier.RoundsDoNotOverlap: the counter's increment is one step, since only the holder of the token touches it.
- HttpConnections.HTTPServerConnection.ReadDone: handleRequest is only whether it stops the connection (http_connection.cpp:91-95); the pages it writes are not modelled.
- ConnectionWriter.StreamIntact: the reading side is one reference that is held while startWrite is called; a socket never answers EAGAIN to a write of zero bytes.
- Descriptors.AnyOrder: whether there is a callback is read inside the locked section; the source reads the pointer just after unlocking.
- Hardware memory ordering, padding, alignment and the mark's place in the pointer: sequential consistency and a (node, mark) pair are assumed.
- ListReclamation.NoAba: the marking compare-and-swap, from the successor that the thread read in a node it keeps, is left out: it puts a mark beside the pointer it finds and leaves the pointer as it is, whatever node the address stands for by then.
- The sequential list under the table has no marks and no helping; those are in the step system.
- ListProgress.ObstructionFree: that under contention some call always finishes, and that a doWrite or a blocked wait ends under a fair scheduler, is not proved.
- Destructors of the list, the table, the buffer and the hazard-pointer records.
- `end()` of the buffer's iterator, whose position and chunk do not belong together (buffer.cpp:267-271), and iterator comparison.
- The destruction of a buffer chunk by dropChunks and appendFrom is taking it out of the deque; memory is not freed in the model.
- parseResponse, the client connection, startConnect and doConnect.
- `updateTime...` of the statistics, which add unsynchronised floating-point numbers.
- spinlock_mcs.hpp: lock() reads `tail_`, tries one compare-and-swap from it, and when that fails goes on as if it had swapped (line 37), so two threads can hold the lock.
- file_cache.cpp: goes on with a list iterator after erasing it (line 115), reads into the same writing area again and again without advancing (lines 54-75), and counts a pin after giving up the lock (lines 37-38); there is no cache contents these steps keep.
- list_set.cpp: removing the head drops the rest of the set (lines 67-68).
- circular_buffer.cpp, spinlock.hpp, thread_pool_normal.cpp, op_generator.cpp, param_map.cpp: an integer ring, a test-and-set lock, a pool with one queue under one lock, a generator of test operations and command-line parameters; no component modelled here uses them.
- Sockets, epoll, clocks, logging, signals, child processes, callback templates and thread-local storage; their results are parameters or nondeterministic choices.
