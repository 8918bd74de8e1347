# TestBase: a verified model

TestBase is a hardware-test platform from 2006: a Linux kernel module that hands out memory pages,
a dispatcher that shows a running test to many clients and lets them answer its questions, and a
support library. This project models the parts with hard state in Dafny and proves what they keep,
over every input and every run. `dafny verify dfyconfig.toml` checks it.

| files | what they model |
|---|---|
| `PageState`, `PageLifecycle`, `PageAccess`, `PageCounts`, `PageAllocator`, `PageFreeing`, `PageRuns`, `PageConservation` | the page allocator: two zones of 32 blocks, flat low blocks and two-level high blocks, the proc handlers as a class over the global tables |
| `PageReserve` | the clamps, the watermark and the reserve of a low-zone request, in 32-bit unsigned arithmetic |
| `PageListing` | the text listing of the blocks and its user-space parser |
| `QuestionText`, `QuestionProtocol` | the question and answer protocol: asker, listener, responders and box closers as atomic steps |
| `RingQueue` | the command ring, its growth, and how long a removed command stays readable |
| `Framing`, `Dispatch`, `Pipeline` | chunks to commands, the command loop of a server thread, and the two with the queue between them |
| `LogReplication`, `Notification` | the test log, the cursors and copies of its followers, and who is told of a change |
| `MemoryTable` | the slot table of mapped regions |
| `StringSearch` | `find` |
| `Ecb` | text encryption over any block cipher |
| `CacheTable` | the cache descriptors of the processor and the sizes looked up in them |
| `Rounding` | rounding of the clock rate and of a drive test's size |
| `DriveTest` | the write-and-restore drive test |

Code that changes state step by step is a class or a method with its loops, proved equal to a
specification function or to a step relation; the main results are lemmas about those functions over
whole runs. What the program cannot decide itself is open: the kernel's answer to each page request,
the free-page counts it reads, whether `vmalloc` succeeds, how the dispatcher's threads interleave,
what they change between two turns of the command loop (a `View`), what the processor's queries
answer, and how far a drive transfer gets.

## What the code does, where it is not what it says

The model keeps the code as it is. Each of these has a lemma that says exactly when the promise holds.

* A ring that grows while full loses its newest `front + 1` commands, and in a wrapped ring also the
  oldest: growth moves neither index and wipes the last old cell. A growing ring is a FIFO queue
  exactly as long as it never grows (`FifoUntilGrowth`, `WhenGrowthKeepsContents`); growth that laid
  the commands out afresh would keep it one (`FifoWithUnwrapping`). The wiped cells belong to no
  thread, so wherever the front stood the command loop never gets past the first of them
  (`GrowthBlocksTheLoop`).
* A low-zone allocation that stops early takes one page more than it records, and a refused high page
  takes one off the count. Pages are lost exactly by low-zone requests that are served in part and by
  high-zone requests in which a high page was refused, unless the block is one table with two pages
  or more (`WhenNothingIsStranded`, `HighZoneRoundTrip`, `NoPageIsLost`). A request for exactly what
  lies above the reserve is such a low-zone request when the zone also gives every page that was set
  aside for its array (`WhenAPageIsLost`).
* A refused high page also leaves page numbers below the count without a page. A write over a span
  passes them over and goes on behind them (`RecordedPagesResolve`, `Write`).
* The range check of the page handlers never refuses: `FALSE` is `~TRUE`, which is not zero
  (`RangeCheckNeverRefuses`). Reads and writes are modelled for pages within the block.
* A question with a bar after its first character cannot be answered by any packet
  (`AnswerableQuestions`).
* Several messages in one chunk arrive as one command, and a chunk that finds 2048 bytes buffered is
  dropped with them: the receiver finds the messages exactly when no chunk crosses a message's end and
  none finds the buffer at its limit (`MessagesArrive`). Frames up to 2048 bytes never meet the limit
  (`ShortMessagesArrive`); with chunks of at most k bytes, frames of 2048 + k bytes or more never
  arrive (`LongMessagesNeverArrive`).
* A client's copy of the log can lose a line when an update gives text to a line that was empty when
  it was sent, and keeps an old text when a new line is queued before an update has reached it
  (`CompleteExactlyWithoutRevival`, `InStepExactlyUnbroken`).
* Announcing every change does not help against a new status: it is announced by the request for new
  lines, which sends nothing to a client that has them all (`StatusIsNotDelivered`). What else the
  announcements miss is in `UpToDateExactlyWithoutMisses`.
* Only the connections of the first viewing thread are told of a change of the log, because the inner
  counter of the loop is not reset (`WhenEveryViewerIsTold`).
* Releasing a memory region twice releases slot 0 (`WhenReleaseHitsItsEntry`).
* An allocation that finds no free slot replaces the array that all earlier entry pointers point into.
  An owner's release is sure to hit its own entry exactly when no such allocation came between
  (`OwnerReleases`).
* A thread that wakes with a question pending asks it unless the last command it looked at ran or was
  a response: commands that run while the question waits can keep it from being asked
  (`HandleCommands`, `WhenPendingQuestionIsAsked`).
* The cache size is looked up in a second set of answers after a check of a first. When only the first
  has a descriptor the function ends without a result (`GetCache`).
* A drive test that reports success puts the region back, whatever it held, exactly when the
  restoring write covers what was overwritten and puts back no more than was saved. A region beyond
  the end of the device is not tested at all (`WhenTheRegionComesBack`, `WriteAndRestore`).

## Model

| member | source | states |
|---|---|---|
| PageRuns.EveryPageOwnedOnce | PageAllocator/page_alloc.c:199-328 | In every state that requests, frees and writes within the recorded counts can reach, whatever the kernel answers, no page is recorded twice or both recorded and free, over both zones, all blocks, the tables and the high pages in them. |
| PageConservation.NoPageIsLost | PageAllocator/page_alloc.c:586-664 | Over every run, with writes within the recorded counts, each page of the pool stays free or reachable by a free, and nothing else is, if and only if each low-zone request is served in full or not at all, and each high-zone request has no high page refused or has one table with at least two pages. |
| PageConservation.StepConserves | PageAllocator/page_alloc.c:836-887 | The same for one call: writes within the recorded counts and frees always conserve the pool, a request exactly under that condition on the kernel's answers. |
| PageRuns.LowZoneRoundTrip | PageAllocator/page_alloc.c:620-664 | Requesting low pages and freeing the block gives all pages back exactly when the loop completed or took nothing; otherwise its last page, alone, stays taken. |
| PageRuns.HighZoneRoundTrip | PageAllocator/page_alloc.c:211-248 | Requesting high pages and freeing the block gives back every table and every page in it, early stop or not, if and only if no high page was refused or the block is one table with at least two pages. |
| PageRuns.RequestLeavesOtherBlocks | PageAllocator/page_alloc.c:586-616 | A request leaves what every page number of every other block, in both zones, reads. |
| PageLifecycle.AllocateThenFree | PageAllocator/page_alloc.c:836-884 | Freeing a block leaves taken exactly the pages of the cells beyond the count's share of the array. |
| PageLifecycle.AllocateThenFreeBlocks | PageAllocator/page_alloc.c:878-883 | The round trip restores the block table except for the block itself, which ends empty if it was freed at all. |
| PageLifecycle.InstallTakes | PageAllocator/page_alloc.c:633-637 | An allocation takes exactly the pages of its cells from the free set, and takes none twice. |
| PageLifecycle.InstallTables | PageAllocator/page_alloc.c:211-238 | Each table page of an installed high block points to exactly the high pages it was filled with, in order. |
| PageLifecycle.ReleaseKeepsInv | PageAllocator/page_alloc.c:866-884 | Freeing a block never frees a page that is already free, and keeps single ownership. |
| PageCounts.WhenNothingIsStranded | PageAllocator/page_alloc.c:836-852 | Freeing a block reaches all it took if and only if the low-zone loop ran to its end or never began, or the high-zone one met no refusal or made a single table with at least two pages; in the low zone it otherwise misses exactly one. |
| PageCounts.MissesLowerTheCount | PageAllocator/page_alloc.c:226-232 | After k tables with a refusal among them the high count is at least two below 1024 k. |
| PageCounts.RefusalStrandsATable | PageAllocator/page_alloc.c:226-232 | A concrete request in which one refused high page leaves a whole full table out of the count's reach. |
| PageCounts.RecordedWithinArray | PageAllocator/page_alloc.c:866-875 | The recorded count reaches neither by a free nor by a page number past the pages that were handed out. |
| PageCounts.RecordedPagesResolve | PageAllocator/page_alloc.c:126-146 | Every page number below the recorded count reaches a page, and a write over all of them writes as many pages, if and only if no refusal left a hole below the count. |
| PageCounts.CleanCount | PageAllocator/page_alloc.c:224-235 | Without refusals the high count is 1024 for each table, or the whole request when it is smaller than a table. |
| PageAccess.ResolveInjective | PageAllocator/page_alloc.c:126-146 | Page numbers of all blocks of both zones denote different pages. |
| PageAccess.ReadAfterWrite | PageAllocator/page_alloc.c:924-958 | After a buffer is written over a span, every page number of the span that reaches a page reads back the buffer, and any other still reads nothing. |
| PageAccess.ReadIsContent | PageAllocator/page_alloc.c:126-192 | A read returns the first bytes of the page that the block's array records under the number, through its table in the high zone, and nothing when none is recorded. |
| PageAccess.ReadOutsideWrite | PageAllocator/page_alloc.c:924-958 | Every page number outside the span, in every block and zone, reads as before. |
| PageAccess.WriteSpanEffect | PageAllocator/page_alloc.c:153-192 | The full content of any page after a write over any span: the buffer over the old content inside the span, the old content outside. |
| PageAccess.PokeMovesNothing | PageAllocator/page_alloc.c:260-299 | Writing a data page hits no pointer table, so no page number changes its page. |
| PageAccess.RangeCheckNeverRefuses | PageAllocator/page_alloc.c:107-118 | As a C condition the range check holds for every page number, although its value tells the two cases apart. |
| PageAllocator.Allocator.AllocatePages | PageAllocator/page_alloc.c:199-252 | One call hands out nothing, or one page which in the high zone is a table filled until it is full, the request is met, or a page is refused, with the count moved accordingly. |
| PageAllocator.Allocator.Allocate | PageAllocator/page_alloc.c:498-708 | A request uses the first block without pages, changes nothing if it is turned away, and otherwise leaves in the block's array exactly what the kernel's answers give, under the code's count: the loop ends early only at the watermark or a refusal. |
| PageCounts.MetRequest | PageAllocator/page_alloc.c:620-664 | A request whose pages are all granted gets them all: n low pages, or n / 1024 full tables, or one table with n pages; and it records them all. |
| PageCounts.WhatIsRecorded | PageAllocator/page_alloc.c:643-664 | The recorded count is the number of high pages less the number of refusals if positive, or the low pages taken, less one after an early stop. |
| PageAllocator.Allocator.LetMyPagesGo | PageAllocator/page_alloc.c:814-892 | Exactly the flagged blocks of the zone that hold pages are freed; the result counts the array entries freed. |
| PageFreeing.WhatAFreeGivesBack | PageAllocator/page_alloc.c:832-887 | A free empties exactly the flagged blocks of its zone that record pages, gives back exactly the pages that their counts cover, with everything in the tables, and changes nothing else. |
| PageFreeing.EntriesOfOneMore | PageAllocator/page_alloc.c:836-866 | Each flagged block adds to the result its recorded pages, or in the high zone its whole tables, one at least if it records any page. |
| PageAllocator.Allocator.FreeHighPages | PageAllocator/page_alloc.c:306-328 | Exactly the pages a table points to become free. |
| PageAllocator.Allocator.GetMemPage | PageAllocator/page_alloc.c:126-146 | The pointer that the block's array holds for a page number and a sector: the page in the low zone, its table in the high zone. |
| PageAllocator.Allocator.GetHighPage | PageAllocator/page_alloc.c:260-299 | The pointer that a table holds for a page number and a sector. |
| PageAllocator.Allocator.WriteAction | PageAllocator/page_alloc.c:153-192 | Writes the buffer to the page that the number denotes and returns its length, or does nothing and returns 0 when the table holds none. |
| PageAllocator.Allocator.Read | PageAllocator/page_alloc.c:714-770 | Reads the first bytes of the page a page number denotes, and nothing when the pointer is null. |
| PageAllocator.Allocator.Write | PageAllocator/page_alloc.c:900-961 | Writes every page that the numbers of the span reach, passes over the others, and returns the buffer's length for each page written. |
| PageAccess.RecordedHasMemPage | PageAllocator/page_alloc.c:938-948 | In every reachable state the array pointer of a page number within the recorded count is not null, so that the loop never ends early on such a span. |
| PageReserve.StructureIsExact | PageAllocator/page_alloc.c:574-574 | The estimate of the page array equals the pages that the array of n + 1 pointers takes. |
| PageReserve.ClampValue | PageAllocator/page_alloc.c:553-584 | After both clamps the request and its array fit above the reserve, with a page to spare except for the request that asks for all of it. |
| PageReserve.WhenARequestIsServedWhole | PageAllocator/page_alloc.c:553-584 | A request is served at its own size if and only if it, its array and one page more are fewer than the pages above the reserve, or it asks for the only page there. |
| PageReserve.WhatOtherRequestsGet | PageAllocator/page_alloc.c:553-584 | Which other requests are turned away, and to what number each of the rest is cut, with the pages that then stay unused. |
| PageReserve.WhatARequestTakes | PageAllocator/page_alloc.c:553-664 | What a quiet low-zone request takes, case by case in terms of the request and the pages above the reserve. |
| PageReserve.WhenAPageIsLost | PageAllocator/page_alloc.c:553-664 | However many pages of its array come out of the zone, a quiet low-zone request takes one page more than it records if and only if it asks for all d pages above the reserve, d is at least 3, and d / 1024 + 1 of them go to the array; otherwise it records all it takes. |
| PageReserve.WhenTheWholeArrayIsInTheZone | PageAllocator/page_alloc.c:574-607 | For that request an array wholly in the zone takes as many exactly when the second clamp does not make it shorter by a page. |
| PageReserve.FillLowZone | PageAllocator/page_alloc.c:620-664 | The fill loop in a quiet zone stops at the watermark, leaves the reserve, and records one page fewer than it took if it stopped early. |
| PageReserve.ServeLowZone | PageAllocator/page_alloc.c:553-664 | A quiet low-zone request takes and records its own number when it fits, and less by its array when it does not; it never takes the zone below its reserve, whatever part of its page array is in the zone, and loses a page exactly in the boundary case. |
| PageListing.ListingRoundTrip | memoryTest/pageAllocator.c:210-235 | For every block table and every block number, the parser finds in the listing the recorded count, or 0 for an unallocated block or a number that is no block. |
| PageListing.ListingFits | PageAllocator/page_alloc.c:469-473 | The listing and its terminator fit 14 bytes for each allocated block and one more, and fit the reader's buffer. |
| PageListing.ProcAllocatePages | PageAllocator/page_alloc.c:447-491 | Produces the listing of the allocated blocks, in order, within the buffer sized for it. |
| PageListing.ListingExample | PageAllocator/page_alloc.c:478-486 | A listing to the letter. |
| PageListing.BlockSize | memoryTest/pageAllocator.c:210-235 | Tokenises any text and returns the count of the first entry for the block, or 0, with the blanks, signs and number bases that the two conversions accept. |
| PageListing.LookupIsFirst | memoryTest/pageAllocator.c:222-233 | Among any tokens the first one that scans as an entry of the block decides, and without one the result is 0. |
| PageListing.ScanWithPrefix | memoryTest/pageAllocator.c:224-224 | Digits after "0x" are read as hexadecimal and after "0" as octal. |
| PageListing.ScanNegative | memoryTest/pageAllocator.c:224-224 | A minus negates the index and wraps the count. |
| PageListing.ScanDecimal | memoryTest/pageAllocator.c:224-224 | A printed number scans back to its value under both conversions, although one takes a leading zero for octal and "0x" for hexadecimal. |
| QuestionProtocol.EveryRunIsAConversation | CommonLibrary/Prompt.c:97-143 | In every interleaving a waiting asker stands for exactly one token, an idle one for none, and the run looks like prompts that are settled and read one after the other. |
| QuestionProtocol.EveryAnswerIsForItsPrompt | TestDispatcher/TDCommandHandler.c:105-181 | Whatever an asker reads was settled after its own prompt, by one accepted answer to exactly that text or by one closed box, and nothing else settled in between. |
| QuestionProtocol.OneResponseEach | TestDispatcher/TDTestFunctions.c:681-760 | Prompts, settlements and receipts are equal in number up to the one prompt that is open: no responder and no closed box adds a second response. |
| QuestionProtocol.WaitingAskerCanBeServed | CommonLibrary/Prompt.c:131-137 | From every reachable state with a waiting asker at most four steps bring it an answer. |
| QuestionProtocol.SettledPrompt | TestDispatcher/TDCommandHandler.c:144-175 | A settled prompt has one settlement after its asking, and only refusals, deferrals and internal steps besides. |
| QuestionProtocol.AnswerIsTaken | TestDispatcher/TDCommandHandler.c:105-181 | For every question without a bar after its first character and every answer: the packet of both is deferred if the answer starts with "defer", and else accepted with the answer, cut to 299 characters, as the one new response, if that question is posted; otherwise it is refused. |
| QuestionProtocol.UnanswerableIsRefused | TestDispatcher/TDCommandHandler.c:130-144 | A posted question with a bar after its first character is refused every packet. |
| QuestionProtocol.MatchingAnswerArrives | CommonLibrary/Prompt.c:131-143 | A matching answer brings a waiting asker that very answer in two steps, cut to 299 characters and to the asker's buffer. |
| QuestionProtocol.ClosedBoxAnswersEmpty | TestDispatcher/TDTestFunctions.c:681-760 | Closing the box takes a posted question away and the asker then reads the empty response; without one it does nothing. |
| QuestionProtocol.Desk.UserRespondToQuestion | TestDispatcher/TDCommandHandler.c:105-181 | One response is accepted, deferred or refused as the step relation says; a deferral or refusal changes nothing. |
| QuestionProtocol.Desk.AnswerQuestion | TestDispatcher/TDTestFunctions.c:457-495 | Posts the next question from the listener's queue. |
| QuestionProtocol.Desk.CloseMessageBox | TestDispatcher/TDTestFunctions.c:681-708 | Takes a pending question away, leaving its response to be sent, and does nothing without one. |
| QuestionText.PacketRoundTrip | TestDispatcher/TDCommandHandler.c:119-141 | A packet built from a question and an answer is split back into them if and only if the question is not empty and has no bar after its first character. |
| QuestionText.AnswerableQuestions | TestDispatcher/TDCommandHandler.c:130-144 | The questions that some packet can answer are exactly those without a bar after the first character. |
| QuestionText.ParseResponse | TestDispatcher/TDCommandHandler.c:121-141 | The scanning loop yields the text up to the first bar after the first character, and the text behind that bar. |
| RingQueue.FifoUntilGrowth | TestDispatcher/DataStructures/queue.c:307-407 | Over every run of add, peek and get, a growing ring behaves as a FIFO queue if and only if no command arrives while it is full. |
| RingQueue.WhenGrowthKeepsContents | TestDispatcher/DataStructures/queue.c:267-283 | Growth in place keeps the queued commands exactly when the full ring's front index is 0 and the wiping spares the last old cell. |
| RingQueue.GrowthLosesCommands | TestDispatcher/DataStructures/queue.c:267-280 | What the code's growth and the addition after it leave: which commands survive, which cells are blank, and that the result is never the intended queue. |
| RingQueue.SizeAfterAdding | TestDispatcher/DataStructures/queue.c:307-345 | An addition doubles the ring exactly if it is full and may grow, writes the command behind the rear, wipes the cells from the last old one on when it grew, and leaves every other cell. |
| RingQueue.FifoWithUnwrapping | TestDispatcher/DataStructures/queue.c:267-283 | With growth that lays the commands out from index 0, in place of the code's, the ring is a FIFO queue over every run, whatever arrives and however often it grows. |
| RingQueue.OverflowWithoutGrowth | TestDispatcher/DataStructures/queue.c:309-342 | A ring that may not grow lets a command that finds it full overwrite the oldest one. |
| RingQueue.RemovedCommandSurvives | TestDispatcher/DataStructures/queue.c:390-407 | A removed command's cell is unchanged through as many further additions as are left until it is written, whatever is removed meanwhile, and one more overwrites it. |
| RingQueue.TakenCellIsReleased | TestDispatcher/DataStructures/queue.c:395-403 | After a removal that leaves s commands, capacity - s - 1 additions fit before the cell is written. |
| RingQueue.Queue.AddElement | TestDispatcher/DataStructures/queue.c:307-345 | Adds in place, growing first if the ring is full and may grow. |
| RingQueue.Queue.IncreaseQueueCapacity | TestDispatcher/DataStructures/queue.c:267-283 | The old cells but the last stay, everything behind them is blank, and the indices do not move. |
| RingQueue.Queue.GetFrontElement | TestDispatcher/DataStructures/queue.c:390-407 | Removes the front command and returns its cell, which keeps its content. |
| RingQueue.Queue.PeekAtFrontElement | TestDispatcher/DataStructures/queue.c:362-373 | Returns the front cell, or nothing for an empty queue. |
| Framing.MessagesArrive | TestDispatcher/TDServerThreads.c:500-592 | Newline-free messages of any length, sent in any split, are queued exactly as sent, in order, if and only if no chunk crosses a message's end and none finds 2048 bytes or more in the buffer. |
| Framing.ShortMessagesArrive | TestDispatcher/TDServerThreads.c:517-592 | When every message fits the 2048 bytes with its mark, that is if and only if no chunk crosses a message's end. |
| Framing.LongMessagesNeverArrive | TestDispatcher/TDServerThreads.c:500-514 | With chunks of at most k bytes, messages among which one has a frame of 2048 + k bytes or more are never queued as sent. |
| Framing.ResetDropsALongMessage | TestDispatcher/TDServerThreads.c:500-514 | A message of 2048 bytes or more sent whole and then its mark leaves nothing in the queue, although no chunk crosses its end. |
| Framing.CommandsUseNewlines | TestDispatcher/TDServerThreads.c:555-586 | However a stream is split, it yields at most a third as many commands as it has newlines. |
| Framing.BytesConserved | TestDispatcher/TDServerThreads.c:526-586 | Without a reset, the bytes received are the queued commands with their marks, in order, followed by the pending buffer. |
| Framing.BytesCounted | TestDispatcher/TDServerThreads.c:505-514 | With resets, the bytes received are those queued, pending and dropped. |
| Framing.ConnectionsDoNotMix | TestDispatcher/TDServerThreads.c:475-487 | However chunks of different connections interleave, each connection's commands are those of its own chunks. |
| Framing.CoalescedMessagesMerge | TestDispatcher/TDServerThreads.c:555-557 | Two messages that arrive in one chunk are queued as one command. |
| Framing.Receiver.PushThreadCommand | TestDispatcher/TDServerThreads.c:453-599 | An empty chunk or an unknown address is refused and changes nothing; otherwise the connection's buffer grows, is cut into a queued command, or is reset with an error. |
| Dispatch.TurnsTakeAPrefix | TestDispatcher/TDServerThreads.c:876-1007 | The loop removes one command a turn, in queue order, runs exactly those the conditions allow, and ends early only after a held-back command that did not run. |
| Dispatch.TurnRemovesAddressedOnly | TestDispatcher/TDServerThreads.c:900-986 | A turn shortens the queue exactly when the front command is addressed to the thread; otherwise it changes nothing. |
| Dispatch.NothingPassesAStranger | TestDispatcher/TDServerThreads.c:900-904 | No number of turns runs a command that is queued only behind one that is not addressed to the thread. |
| Dispatch.GrowthBlocksTheLoop | TestDispatcher/DataStructures/queue.c:267-283 | After a full ring has grown for a command, wherever its front was, no number of turns removes the first wiped cell or anything behind it: all but the oldest capacity - 1 - front places, or all but one. |
| Dispatch.GrowthSilencesCommands | TestDispatcher/TDServerThreads.c:900-904 | Commands that are only behind that cell never run: in an unwrapped ring the one it grew for among them, while in a wrapped ring that one comes up first. |
| Dispatch.ServerThread.HandleFront | TestDispatcher/TDServerThreads.c:880-986 | The scan over the connections removes and runs the front command under the conditions of the turn; while a question is pending, on a live connection that has not deferred it and with nobody else holding the repair lock, it runs exactly the responses. |
| Dispatch.WhatATurnDoes | TestDispatcher/TDServerThreads.c:880-990 | A command addressed to the thread is removed, and run exactly if its connection is alive and no question is pending, or it is a response by its bytes, or the connection deferred, or another address holds the repair lock. |
| Dispatch.DecisionByBytes | TestDispatcher/TDCommandHandler.c:1267-1315 | Each kind of command is told by its first three bytes or else by bytes 5 to 10. |
| Dispatch.ServerThread.HandleCommands | TestDispatcher/TDServerThreads.c:867-1016 | Without arrivals the loop ends within as many turns as commands are queued, having run and removed what the turns say; afterwards the question is asked exactly if it is pending then and the queue was empty, or the last command looked at was held back and did not run. |
| Dispatch.WhenPendingQuestionIsAsked | TestDispatcher/TDServerThreads.c:874-1016 | A question that is pending all along is asked if and only if the thread woke to an empty queue or some command that is no response does not run when it comes up. |
| Pipeline.MessagesAreQueued | TestDispatcher/TDServerThreads.c:500-586 | For messages no more than the queue holds, the ring holds exactly these messages afterwards if and only if no chunk crosses an end and none finds the buffer at its limit; in any case it holds what was cut, without having grown. |
| Pipeline.MessagesRunInOrder | TestDispatcher/TDServerThreads.c:876-1007 | The loop then runs all these messages, each once and in order, if and only if nothing holds one of them back in its turn. |
| Pipeline.RingReceives | TestDispatcher/TDServerThreads.c:574-574 | While they fit, the commands cut from a stream stand in the ring behind what it held. |
| Pipeline.OrderAcrossInterleavings | TestDispatcher/TDServerThreads.c:867-1013 | However arrivals on all connections and turns of the loop interleave, while commands fit: those removed, then those still queued, are the ones queued at first followed by every command cut from the chunks, each once and in order. |
| Pipeline.OrderKeptExactlyIfFits | TestDispatcher/TDServerThreads.c:453-1013 | For a growing ring, after every event the commands removed and then those queued are the first ones and those cut since, in order, if and only if no command is ever cut while the ring is full. |
| Pipeline.RemovedInOrderOfArrival | TestDispatcher/TDServerThreads.c:453-599 | From a new thread on, the commands removed are at any time a prefix of those cut. |
| Pipeline.LookKeepsOrder | TestDispatcher/TDServerThreads.c:880-986 | A turn moves the front command to the removed ones, marked with whether it ran, exactly when it is addressed to the thread. |
| LogReplication.CompleteExactlyWithoutRevival | TestDispatcher/TDCommandHandler.c:443-525 | Over every run a client holds every line with text below its cursor, in order and once each, at all times, if and only if no update gives text to a line its connection had skipped. |
| LogReplication.InStepExactlyUnbroken | TestDispatcher/TDServer.c:789-870 | Over every run the copy is complete and up to date but for the last line, at all times, if and only if no line that was never sent to it is given text and no line is queued when the last one has changed in text or status since the server last sent it there. |
| LogReplication.UpToDateExactlyWithoutMisses | TestDispatcher/TDTestFunctions.c:300-384 | Over every run in which each announcement is answered at once, a client is complete at all times and up to date to the last line after each change, if and only if no line that it was sent gets another status or loses its text, and no line that it was never sent is given text. |
| LogReplication.StatusIsNotDelivered | TestDispatcher/TDTestFunctions.c:300-308 | A new status is announced by a request that sends nothing to a client with all lines and leaves it out of date; the request for the last line would bring it up to date exactly when the line has text. |
| LogReplication.ShownStaysTrue | TestDispatcher/TDCommandHandler.c:443-525 | What the server has last sent of the last line, kept through every event, is what the client holds of it. |
| LogReplication.NewConnection | TestDispatcher/TDServer.c:789-796 | Both run theorems for a connection from the moment it is new, with nothing sent. |
| LogReplication.StepKeepsComplete | TestDispatcher/TDTestFunctions.c:327-389 | One event keeps a connection complete exactly when it does not revive a skipped line. |
| LogReplication.CursorsStayInLog | TestDispatcher/TDServer.c:820-845 | Over every run of log changes and requests no connection's cursor is ever beyond the log. |
| LogReplication.AskLastRefreshes | TestDispatcher/TDServer.c:829-832 | Asking for the last line brings a client at the end up to date exactly when the line has text or was up to date already. |
| LogReplication.UpdatingTextRevivesNothing | TestDispatcher/TDTestFunctions.c:327-342 | Updating a line that has text revives nothing, for any complete connection. |
| LogReplication.RevivedLineReplacesAnother | TestDispatcher/TDServer.c:829-832 | A concrete run in which an update of an empty line makes a client lose the line before it. |
| LogReplication.SentInOrder | TestDispatcher/TDCommandHandler.c:443-454 | A send delivers lines from the cursor on, in order, once each, as they are in the log. |
| LogReplication.SentHas | TestDispatcher/TDCommandHandler.c:451-454 | A send delivers every line from the cursor on that has text. |
| LogReplication.Server.SendTestData | TestDispatcher/TDCommandHandler.c:395-578 | Sends the lines with text from the cursor on, strips their newlines in the log, and moves the cursor to the end. |
| LogReplication.Server.HandleRequest | TestDispatcher/TDServer.c:789-846 | The three requests for log data act on cursor, log and client as the event says. |
| LogReplication.Server.QueueTestData | TestDispatcher/TDTestFunctions.c:359-375 | Appends a line with the first 80 characters of the text and the status of new lines. |
| LogReplication.Server.UpdateTestDataQueue | TestDispatcher/TDTestFunctions.c:327-342 | Gives the last line a new text and nothing else. |
| LogReplication.Server.UpdateTestDataStatus | TestDispatcher/TDTestFunctions.c:276-309 | Gives the last line a new status and nothing else. |
| LogReplication.QueuedLineArrives | TestDispatcher/TDTestFunctions.c:359-384 | A line queued and asked for, end to end: a client that had all lines gets exactly one more, with the first 80 characters less one newline at their end and the status of new lines. |
| LogReplication.UpdatedLineArrives | TestDispatcher/TDTestFunctions.c:327-342 | A line updated and asked for, end to end: it takes the place of the client's last line, or comes as a new one if it alone was missing, or does not come if the client has none or misses more. |
| LogReplication.StatusIsSet | TestDispatcher/TDTestFunctions.c:302-302 | A new status changes that of the last line alone. |
| LogReplication.AskAllReads | TestDispatcher/TDServer.c:789-806 | The request for everything brings each line with text once, in order, with its status and less one newline, and leaves the others alone. |
| LogReplication.AskNewReads | TestDispatcher/TDServer.c:800-806 | The request for new lines brings the same of the lines from the cursor on, behind what the client holds. |
| LogReplication.SendingStrips | TestDispatcher/TDCommandHandler.c:507-510 | Sending takes one newline off each line sent and changes no other. |
| Notification.UpdateUserQueues | TestDispatcher/TDTestFunctions.c:135-177 | The connections that are queued a command are the live ones of the first viewing thread. |
| Notification.WhoIsTold | TestDispatcher/TDTestFunctions.c:135-177 | The live connections of the first viewing thread are told, each once and in order, and nobody when no thread is viewing. |
| Notification.WhenEveryViewerIsTold | TestDispatcher/TDTestFunctions.c:144-152 | Every live connection of every viewing thread is told if and only if no viewing thread after the first has one. |
| MemoryTable.AllocateAddsARegion | CommonLibrary/memoryManager.c:11-57 | Allocation adds the region under the least marker that is not live and touches no other. |
| MemoryTable.ReleaseRemoves | CommonLibrary/memoryManager.c:59-89 | Deallocation removes the region in the slot that the marker names and no other, and empties the table exactly when no region is left. |
| MemoryTable.WhenReleaseHitsItsEntry | CommonLibrary/memoryManager.c:64-68 | Through a pointer into the table, deallocation removes its entry and no other exactly when the entry is live, or is slot 0, or slot 0 is not live. |
| MemoryTable.ArrayStaysWithoutGrowth | CommonLibrary/memoryManager.c:34-52 | While an entry is live, the array it is in is still the table exactly when no allocation since has found no free slot. |
| MemoryTable.OwnerReleases | CommonLibrary/memoryManager.c:55-68 | Releasing a live entry through the pointer its owner was given removes that entry and no other, whatever freed memory holds, if and only if no allocation since has grown the table. |
| MemoryTable.LengthIsPeak | CommonLibrary/memoryManager.c:25-53 | Over every run, through good pointers and stale ones, the table is as long as the most regions live at once since it was last empty. |
| MemoryTable.Manager.AllocateMemoryPointer | CommonLibrary/memoryManager.c:11-57 | First-fit scan, reuse or growth by one with a copy, and the array and slot of the entry; the array is replaced exactly when no slot was free. |
| MemoryTable.Manager.DeAllocateMemoryPointer | CommonLibrary/memoryManager.c:59-89 | Wipes the slot that the marker names, read from the pointer's array or as anything at all if that was freed, and returns true exactly when no live entry is left. |
| StringSearch.Find | CommonLibrary/StringFunctions.c:191-222 | Returns the least index at which the pattern occurs, and ERROR exactly when it does not occur. |
| StringSearch.ShiftIsSafe | CommonLibrary/StringFunctions.c:204-218 | No occurrence of the pattern ends within the stretch that the skip table jumps over. |
| StringSearch.SkipIsExact | CommonLibrary/StringFunctions.c:191-203 | The skip of a character is its distance from the last place before the pattern's final character, and one without such a place. |
| Ecb.RoundTrip | TestDispatcher/encryption/rijndael_encryption.h:18-82 | For any cipher and its inverse, decrypting an encrypted text gives the text filled up with zeros to whole blocks. |
| Ecb.CodebookLength | TestDispatcher/encryption/rijndael_encryption.h:29-48 | The output has 16 bytes for each started block of the input. |
| Ecb.EncryptionIsInjective | TestDispatcher/encryption/rijndael_encryption.h:18-49 | Two C strings encrypt to the same bytes exactly when they are equal. |
| Ecb.EncryptText | TestDispatcher/encryption/rijndael_encryption.h:18-49 | Refuses a buffer below 16 bytes a character; in any other each sixteen bytes are the encryption of the same sixteen of the text, filled up with zeros, and nothing beyond the result is written. |
| Ecb.CodebookIsTheCipher | TestDispatcher/encryption/rijndael_encryption.h:29-45 | Block k of the result is the cipher of block k of the text. |
| Ecb.DecryptText | TestDispatcher/encryption/rijndael_encryption.h:52-82 | Refuses a length that is not whole blocks; otherwise each sixteen bytes are the decryption of the same sixteen of the text, and nothing beyond is written. |
| CacheTable.TableJoinsToRegisters | CommonLibrary/cpuid.c:1021-1094 | For every sequence of answers, the four cells of each register joined from the highest byte down are the register if it is valid, its count byte apart, and zero if it is not. |
| CacheTable.AnswerInTable | CommonLibrary/cpuid.c:1021-1094 | The same for the four registers of an answer by name, with the count byte of the first left out. |
| CacheTable.GetCacheInfo | CommonLibrary/cpuid.c:1021-1094 | Fills the table in place with the bytes of all answers. |
| CacheTable.ListedHasSize | CommonLibrary/cpuid.c:326-334 | The checks and the lookups know the same descriptors. |
| CacheTable.DescriptorsOfSize | CommonLibrary/cpuid.c:829-938 | For every size of either cache, exactly which descriptors have it. |
| CacheTable.CheckForCache | CommonLibrary/cpuid.c:304-379 | True exactly when the processor is queried and its table holds a descriptor that has a size. |
| CacheTable.GetCache | CommonLibrary/cpuid.c:815-942 | The size of the first such descriptor in the second answers, 0 if the check fails, and no result at all exactly if only the first answers had one; with the same answers there is always a result, positive exactly when the check succeeds. |
| Rounding.NearestIsARounding | CommonLibrary/cpuid.c:776-786 | Rounding moves a rate by at most 76 down and 66 up, keeps order, and is idempotent. |
| Rounding.NearestStep | CommonLibrary/cpuid.c:776-786 | The result is the multiple of ten at or next below the multiple of 133 1/3 that is nearest to the rate. |
| Rounding.Nearest133 | CommonLibrary/cpuid.c:776-786 | In 32-bit arithmetic the result is that rounding if and only if tripling the rate and adding 200 does not overflow. |
| Rounding.NoBlockSizeIsNearer | driveTest/BlockDeviceLib.c:359-377 | The size is a positive whole number of blocks to which no other is nearer, within half a block of the request or else one block. |
| DriveTest.WhenTheRegionComesBack | driveTest/BlockDeviceLib.c:275-294 | Over all runs whose comparison passes, whatever device and buffers hold, the region is restored exactly when the bytes written are at most those put back, and these at most those saved. |
| DriveTest.WhenTheTestPasses | driveTest/BlockDeviceLib.c:281-291 | The comparison passes exactly when every byte checked beyond those written already held the pattern on the device, and every byte not checked held it in the buffer. |
| DriveTest.RegionAfterAt | driveTest/BlockDeviceLib.c:275-297 | The region after a run, byte by byte. |
| DriveTest.Device.WriteAndRestore | driveTest/BlockDeviceLib.c:254-301 | The test succeeds exactly when the comparison passes, and leaves the region as the transfers say; with complete transfers in range it succeeds and leaves every byte as it was; nothing outside the region is ever touched; beyond the device nothing is tested. |

## Left out

- PageAllocator.Allocator.Write: only for spans within the recorded count, beyond which the code reads past the pointer array, and for at most 4096 bytes a page, as the code copies the length it is told; neither has a defined result otherwise.
- PageAllocator.Allocator.Read: only for page numbers below the recorded count and at most 4096 bytes, for the same reasons.
- PageAllocator.Allocator.Allocate: the free-page counts are whatever the kernel reports; what they mean for the reserve of a quiet low zone is in `PageReserve`.
- PageReserve.ServeLowZone: the zone starts above its reserve and is smaller than 2^30 pages, so that the 32-bit size of the page array does not wrap.
- RingQueue.Queue.AddElement: a ring is not grown to 65536 cells or more, where the 16-bit capacity wraps and the code writes outside its array; what a fresh cell holds besides its thread number is fixed to blank.
- RingQueue.FifoUntilGrowth: for rings with at least two cells and commands that carry a thread number, as all of them do; an empty ring of one cell starts outside its array.
- Dispatch.ServerThread.HandleCommands: for commands addressed to the thread; with any other at the front the code's loop does not end (`Dispatch.TurnRemovesAddressedOnly`).
- Framing.MessagesArrive: for messages without a newline; what chunks with newlines yield is counted by `Framing.BytesCounted` and `Framing.CommandsUseNewlines`.
- Framing.Receiver.PushThreadCommand: commands of at most 32766 characters, as the queue takes their length as a 16-bit number.
- QuestionProtocol.Desk.UserRespondToQuestion: for packets with the whole header of 11 characters, which the code skips without looking.
- LogReplication.Server.UpdateTestDataQueue: for texts that fit the line's field, as the code copies without a bound.
- MemoryTable.Manager.AllocateMemoryPointer: the 16-bit length does not wrap; a table that was emptied is an empty table, where the code keeps a pointer to freed memory and frees it again.
- MemoryTable.Manager.DeAllocateMemoryPointer: what is read through a pointer into a freed array is a number below the table's length; with any other the code writes outside the table.
- PageRuns.EveryPageOwnedOnce: runs whose writes stay within the recorded count of a block and within a page, for the reasons given for `PageAllocator.Allocator.Write`.
- Dispatch.WhenPendingQuestionIsAsked: to which connections the question then goes, and what they are sent, is not modelled.
- CacheTable.GetCache: the number of answers is the same when the table is sized and when it is filled; another maker's processor gives no answers.
- Rounding.NoBlockSizeIsNearer: the quotient is exact, where the code divides in floating point, and sizes do not overflow; a device that cannot be opened gives 0.
- PageListing.BlockSize: scanned numbers do not overflow 32 bits, and "0x" without a digit is no number, as the C standard has it.
- StringSearch.Find: characters are codes 0 to 254, the entries of the skip table.
- LogReplication.Server.QueueTestData: lines are not empty when queued, as the code looks at the character before the end; the notification that follows is in `Notification`.
- Burn-in mode, which shortens the log, and the diagnostic log, which is kept like the test log.
- The length prefixes and envelope of log messages, and the running total of `sendall`.
- More than one outstanding prompt, lost inter-process messages, and the clearing of the pause flags when a question is posted.
- Scheduling, locking and mapping of pages in the kernel module, and its unloading.
- Connection slots, the timer of the repair lock, the database, board information, prompts on the console and the other hardware tests.
- The rounds of the block cipher: any pair of inverse functions on blocks stands for it.
