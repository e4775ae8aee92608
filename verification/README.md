# TinyAra kernel services and shell: a verified model

Five stateful parts of the system, each modelled in the form its C code has and proved to do what it
is for: the read/write buffer in front of a block device, the log ring, the TASH command line and
command registry, the CAN driver's FIFOs, and power management. State that the C code updates in
place is a class; what a call does to that state is a function on values; the laws are lemmas about
those functions over all inputs, all runs or all interleavings.

`dafny verify dfyconfig.toml` checks everything.

## How the parts are modelled

**Block buffer** (`BlockModel`, `BlockAgreement`, `BlockHandle`, `RwBuffer`). The specification is a flat store from
block number to contents. As long as flushes reach the device the write buffer refines it. Reads agree with it as long as
the read-ahead window is coherent, which a read can break: a reload may pick up blocks from the media
that are newer in the write buffer, and no later flush drops those copies. `RunIsFlatIffGuarded` gives
the exact condition on a run, `StaleRead` a run that violates it. Each public call and the timeout
flush is one step (the code does not hold `wrsem` while it buffers a write), device transfers succeed,
and both buffers are compiled in. The flush inside `rwb_writebuffer` (os/drivers/rwbuffer.c:264) hands its
callback the buffer structure instead of the device, and the callback of os/fs/driver/mtd/ftl.c:205 takes
it for its device structure, whose first member (os/fs/driver/mtd/ftl.c:72-76) is another one. `Callback`
says what then happens: the device is reached all the same, or the transfer goes astray and leaves
anything on the media. The class takes the callback of each write as a parameter. `RunIsFlatIffDirected`
says that the view is right whatever the callback does exactly in the runs without such a flush, that is
in which no buffered write leaves the sequence or lacks room behind the blocks held; in those runs
`RunViaIsRun` makes every result about `Run` and `Outputs` apply. `Flush`, `Buffer`, `Step` and `Run`
themselves are those of a callback that reaches the device. A size of zero blocks disables a buffer at
run time; the pass-through calls are then unreachable because the `else` binds to `return`, and the
model does what the code does: with a zero-sized write buffer writes are lost, with a zero-sized
read-ahead buffer reads deliver nothing (`DisabledBuffersLoseData`). A read past the end of the media
returns with `rhsem` still taken; `Play` runs calls on the class and says exactly which one blocks.

**Log ring** (`LogModel`, `LogFifo`, `LogOverflow`, `LogProgress`, `LogNotices`, `LogRing`). Producers run with interrupts off and are
one step; the draining task takes one step per statement, so every interleaving of its statements with
producers is a run. Messages contain no NUL byte and no resize is requested. What is accepted is printed
within a bounded number of task statements (`AcceptedIsPrinted`). Drops can go unreported;
`NoticesAreExactIff` says exactly when. `FlagComesDown` and `DropsArePrinted` bound, by the size of the
ring, the time until a raised flag is lowered and until a count is printed.
The overflow offset is zero until the first overflow, not -1, so a notice of zero drops can appear;
`FalseNoticeIff` says when. Runs start once `logm_task` has set the free count. It makes the log ready
one statement earlier, while that count is zero, and `WorksIffNothingEarly` says what a message logged
in between does.

**TASH** (`TashTokenizer`, `TashScanner`, `TashWords`, `TashQuoting`, `TashComments`, `TashGrammar`,
`CommandNames`, `CommandTable`). The scanner works in place on an array and is proved to run the argument lists of a
pure tokenizer on the original text, for every line, including lines with 31 or more tokens in a command: the 31st token is then the
unscanned rest of the line, or, if it starts with a quote, the command is dropped. `RoundTripIff` says
which argument lists quoting can express, `StartsCommentIff` which hashes start a comment, and `LineMeans`
what a line runs in terms of its structure instead of its scan. `strcmp` keeps
its result in a `signed char`, so it does not order all names. The sort leaves a table of distinct names
sorted exactly when it orders the names of that table, which it does for 7-bit names, in dictionary order
(`AsciiOrder`, `SortedIsDictionary`); two tables that no
arrangement sorts are given. Lookup does not depend on it.

**CAN FIFOs** (`CanMessages`, `CanBuffer`, `CanTransmit`, `CanReceive`). Unbounded positions in the sequence of
accepted messages stand behind the ring indices. The hardware is arbitrary: readiness, failures, how
many completions `dev_send` reports before it returns, what a sleeping caller wakes up to. One writer
at a time; completions are reported only for messages in flight; every `cr_msg` is NULL. Messages have at
most eight data bytes (standard identifiers, two-byte header). `Write` is given the messages of the
caller's buffer; `CanBuffer` says which buffers those are: the bytes left are computed unsigned, so the
loop stays inside the buffer exactly when the buffer does not end inside a message.

**Power management** (`PowerStates`, `PowerHistory`, `PowerMetrics`, `PowerReads`, `PowerChange`,
`PowerFilter`, `PowerGovernor`, `PowerDomain`). `time_t` is an unsigned 32-bit count, the window is a configured C `int`
(os/pm/Kconfig:37-39) and the wrap-around of the cutoff is modelled: `PruneKeepsWindowIff`. The metrics are
compared with a count of seconds. The last node is always credited the whole window because `isfirst` is
never cleared before it, and while the clock is below one window the wrapped cutoff credits 2^32 seconds
minus the window to the current state. So the totals are right exactly when the clock has run for one
window and the last change is not inside it (`MetricsExactIff`). The clock is read once for the window and
again for pruning; `TwoReads` says what a tick in between does and `NoDriftIff` when it does nothing.
Weights are positive and small enough for the 32-bit sum (`UsableIff`: no larger ones are safe); the clock
does not run backwards. `BusyWakesUp` restates the exit threshold after any run.

`RingIndex` and `Basics` hold shared arithmetic and vocabulary.

## Model

| member | source | states |
|---|---|---|
| BlockAgreement.OverlapIff | os/drivers/rwbuffer.c:133-146 | the overlap test is true exactly when the ranges meet, if only end to end |
| BlockAgreement.FlushKeeps | os/drivers/rwbuffer.c:172-194 | flushing changes nothing a client can see and leaves a consistent, empty write buffer |
| BlockAgreement.BufferIsOverlay | os/drivers/rwbuffer.c:246-289 | with a callback that reaches the device, buffering a write, with or without the flush before it, is an update of the flat store; the buffer never exceeds its size and expects the block after its last one |
| BlockAgreement.WriteIsOverlay | os/drivers/rwbuffer.c:814-874 | with such a callback a write of any size is the same update of the flat store |
| BlockAgreement.WriteIs | os/drivers/rwbuffer.c:814-874 | exactly which writes are appended, which flush first and which pass through, with what is then held and what is on the media; the window survives exactly the writes that do not reach it |
| BlockAgreement.WriteKeepsSeparate | os/drivers/rwbuffer.c:133-146 | the overlap test drops the window whenever a write could reach it, so window copies stay equal to the media and not dirty |
| BlockAgreement.ReadKeepsView | os/drivers/rwbuffer.c:720-808 | a read never changes the flat store |
| BlockAgreement.SettleIs | os/drivers/rwbuffer.c:730-746 | the write buffer is flushed before a read exactly if the read reaches the blocks held |
| BlockAgreement.WindowAfterRead | os/drivers/rwbuffer.c:752-795 | which window a read leaves: the one it found, if that has all blocks, otherwise the last full window counted from the first block it lacks, with the contents of the media |
| BlockAgreement.CoherentReadIsFlat | os/drivers/rwbuffer.c:727-808 | from a coherent state every read, also one past the end of the media, delivers the blocks of the flat store |
| BlockAgreement.CoherentIffReadsFlat | os/drivers/rwbuffer.c:756-773 | coherence of the window is equivalent to every possible read being right |
| BlockAgreement.ReadKeepsCoherentIff | os/drivers/rwbuffer.c:343-388 | a read keeps the window coherent if and only if the window it leaves loaded holds no block that is newer in the write buffer |
| BlockAgreement.ReadKeepsSeparateIff | os/drivers/rwbuffer.c:343-388 | a read keeps window and dirty range apart if and only if the window it leaves loaded avoids the dirty range |
| BlockAgreement.StepIsValid | os/drivers/rwbuffer.c:157-159 | every call keeps the bookkeeping of both buffers, enabled or not |
| BlockAgreement.RunRefinesFlat | os/drivers/rwbuffer.c:172-289 | with such a callback, over every run the buffered-or-media view is the flat store given the same writes |
| BlockAgreement.GuardedRunIsFlat | os/drivers/rwbuffer.c:720-874 | in every guarded run all reads return what the flat store would |
| BlockAgreement.RunIsFlatIffGuarded | os/drivers/rwbuffer.c:720-874 | a run is right at every point, for any read, if and only if every read in it was guarded |
| BlockAgreement.ApartRunIsFlat | os/drivers/rwbuffer.c:720-874 | if reload windows avoid dirty blocks, the window equals the media and is disjoint from the dirty range throughout, and all reads are right |
| BlockAgreement.StaleRead | os/drivers/rwbuffer.c:359-380 | without the guard a read returns the contents from before an earlier write |
| BlockAgreement.UnflushedIsReached | os/drivers/rwbuffer.c:275-286 | the state of that example is what one write to a fresh device leaves |
| BlockHandle.StepViaIsValid | os/drivers/rwbuffer.c:259-271 | whatever the callback does with the wrong handle the bookkeeping holds, and it matters only in a call that flushes through it |
| BlockHandle.BufferIsOverlayIff | os/drivers/rwbuffer.c:259-264 | buffering is the update of the flat store for every callback if and only if the write continues the sequence and fits |
| BlockHandle.UntouchedMediaIff | os/drivers/rwbuffer.c:264-271 | if the transfer leaves the media alone, the view is right if and only if every block held is overwritten or was on the media already |
| BlockHandle.RunViaIsRun | os/drivers/rwbuffer.c:246-289 | in a run without such a flush, or with callbacks that reach the device, states and outputs are those of the model |
| BlockHandle.DirectedRunIsFlat | os/drivers/rwbuffer.c:720-874 | in a run without such a flush and with guarded reads all reads return what the flat store would, whatever the callback does |
| BlockHandle.StrayIsSeen | os/drivers/rwbuffer.c:264 | what a transfer gone astray leaves is seen to the end of the run |
| BlockHandle.RunIsFlatIffDirected | os/drivers/rwbuffer.c:246-289 | the view after a run is the flat store for every callback if and only if no write of the run flushes through the wrong handle |
| BlockHandle.OutOfSequenceLosesBlock | os/fs/driver/mtd/ftl.c:203-205 | a write of block 5 and then of block 9, after which block 5 is as it was |
| RwBuffer.RwBuffer.constructor | os/drivers/rwbuffer.c:609-688 | both buffers start empty |
| RwBuffer.RwBuffer.WrFlush | os/drivers/rwbuffer.c:172-194 | the in-place code is the flush of the model |
| RwBuffer.RwBuffer.WrTimeout | os/drivers/rwbuffer.c:201-216 | the timeout is a flush |
| RwBuffer.RwBuffer.WriteBuffer | os/drivers/rwbuffer.c:246-289 | the in-place code is the buffering step for any callback on the wrong handle; it fails exactly when that flush fails, and a flush transfers at least one block |
| RwBuffer.RwBuffer.CopyIn | os/drivers/rwbuffer.c:280-283 | new blocks land behind those already buffered |
| RwBuffer.RwBuffer.Write | os/drivers/rwbuffer.c:814-874 | the in-place code is the write step for any such callback, and fails exactly when a flush inside it does |
| RwBuffer.RwBuffer.ResetRhBuffer | os/drivers/rwbuffer.c:297-303 | the window is empty afterwards |
| RwBuffer.RwBuffer.BufferRead | os/drivers/rwbuffer.c:311-335 | copies the requested blocks of the window behind those already delivered and touches nothing else |
| RwBuffer.RwBuffer.RhReload | os/drivers/rwbuffer.c:343-388 | loads a window that starts at the block asked for and ends with the buffer or the media, with the contents of the media, and fails without effect beyond the media |
| RwBuffer.RwBuffer.Turn | os/drivers/rwbuffer.c:753-787 | one turn of the read loop stays inside the window and does not change how the request ends |
| RwBuffer.RwBuffer.ReadLoop | os/drivers/rwbuffer.c:752-795 | from any valid window the loop terminates and delivers the requested blocks that exist; on error the semaphore stays taken |
| RwBuffer.RwBuffer.Read | os/drivers/rwbuffer.c:720-808 | the in-place code is the read step of the model; the caller's buffer is untouched beyond what was delivered |
| RwBuffer.FinishIsServe | os/drivers/rwbuffer.c:753-787 | serving turn by turn delivers the closed-form result and leaves the predicted window |
| RwBuffer.Call | os/drivers/rwbuffer.c:720-874 | one public call is one step of the model, and only a read past the media keeps the semaphore |
| RwBuffer.Play | os/drivers/rwbuffer.c:720-874 | calls in sequence, each with its callback, behave as a run of the model up to the first that blocks; a call blocks if and only if it takes the semaphore after a read that went past the media |
| LogModel.Cut | os/logm/logm.c:38-43 | what is stored of a message is a prefix, all of it unless the free space is used up to the terminator |
| LogRing.LogRing.constructor | os/logm/logm_process.c:70-75 | the ring starts empty and cleared, with all counters and the overflow offset zero |
| LogRing.LogRing.Putc | os/logm/logm.c:38-43 | a character is stored next unless only the terminator's byte is left |
| LogRing.LogRing.Format | os/logm/logm.c:82-90 | the message is stored from the tail on, cut to the free space |
| LogRing.LogRing.LogInternal | os/logm/logm.c:55-108 | a call is one producer step and returns the length stored, or 0 when refused |
| LogRing.LogRing.DrainStatement | os/logm/logm_process.c:82-99 | each statement of the drain loop is one task step |
| LogFifo.StoredAt | os/logm/logm.c:40-42 | bytes stored around the ring behind the bytes in use leave those as they are |
| LogFifo.CursorByte | os/logm/logm_process.c:84-86 | the byte under the task's cursor is the next byte of the message being read, or its terminator |
| LogFifo.ProduceKeepsInv | os/logm/logm.c:67-96 | a producer keeps the layout, the accounting and the flags, whatever statement the task is at |
| LogFifo.ConsumeKeepsInv | os/logm/logm_process.c:82-99 | every statement of the task keeps them |
| LogFifo.RunKeepsInv | os/logm/logm_process.c:81-110 | so does every interleaving |
| LogFifo.PrintedIsFifo | os/logm/logm_process.c:82-90 | the bytes printed are a prefix of the accepted messages in order, and all of them once the ring is drained |
| LogProgress.StepLowersRest | os/logm/logm_process.c:82-99 | each task statement brings the draining of the messages accepted so far closer, and no producer delays it |
| LogProgress.AcceptedIsPrinted | os/logm/logm_process.c:82-90 | whatever has been accepted is printed, completely and in order, within ten task statements per byte of the ring and seven more, whatever producers do |
| LogProgress.RefusedIff | os/logm/logm.c:67-79 | a message is refused if and only if the flag is up or the undrained messages with their terminators fill the ring |
| LogFifo.SpaceIsConserved | os/logm/logm.c:93-96 | free bytes plus length and terminator of every message not credited back is the buffer size; free is never negative |
| LogFifo.ProducerStoresElsewhere | os/logm/logm.c:38-43 | no slot a producer stores into holds a byte the task has yet to read |
| LogFifo.ProducerSparesUnreadBytes | os/logm/logm.c:38-43 | every byte the task has yet to read is the byte of its message before and after a producer |
| LogOverflow.TickLowersRank | os/logm/logm_process.c:82-94 | while the flag is up every statement of the task brings it closer to being lowered |
| LogOverflow.LogKeepsRank | os/logm/logm.c:67-71 | producers cannot delay that |
| LogOverflow.OverflowClears | os/logm/logm_process.c:92-94 | the overflow flag is down within a bounded number of task statements, whatever producers do |
| LogOverflow.FlagComesDown | os/logm/logm_process.c:92-94 | from boot on that takes at most two statements per byte of the ring and eight more |
| LogOverflow.DropCountIsBurst | os/logm/logm.c:67-79 | the drop count is the number of messages refused since the flag was raised, and a raised flag implies a pending message or a task about to lower it |
| LogOverflow.NoticesAreExactIff | os/logm/logm_process.c:96-99 | notices never overstate the drops, and account for all of them if and only if no drop was forgotten |
| LogOverflow.DropsCanGoUnreported | os/logm/logm_process.c:92-99 | an interleaving with two drops of which one is counted |
| LogOverflow.WorksIffNothingEarly | os/logm/logm_process.c:74-75 | if nothing is logged between readiness and the free count the log accepts messages; otherwise the flag stays up and every message of every run is refused |
| LogNotices.StepKeepsDue | os/logm/logm_process.c:92-99 | an outstanding count waits for the end of the newest message at the overflow, which the task has not compared yet or is about to report |
| LogNotices.StepLowersDueRank | os/logm/logm_process.c:82-99 | an event that neither prints nor forgets the count keeps it outstanding, and each task statement brings the report closer |
| LogNotices.OutstandingIsPrinted | os/logm/logm_process.c:96-99 | within a bounded number of task statements an outstanding count is printed, unless a later refusal makes the task forget it |
| LogNotices.DropsArePrinted | os/logm/logm_process.c:96-99 | from boot on that takes at most eight statements per byte of the ring and five more |
| LogNotices.StepKeepsQuiet | os/logm/logm_process.c:96-99 | until the first drop the offset is zero with nothing printed, or one notice of zero drops was printed because the head returned to zero |
| LogNotices.FalseNoticeIff | os/logm/logm_process.c:96-99 | a run without a drop prints exactly one notice, of zero drops, if some drained message ended at the end of the ring, and none otherwise; in any run only the first notice can be of zero drops |
| LogNotices.FalseNoticeIsReached | os/logm/logm_process.c:96-99 | a run with one message and no drop that prints such a notice |
| TashScanner.RemoveChar | apps/shell/tash_main.c:57-72 | one character is deleted and the rest of the string moved up; nothing before it or after the terminator changes |
| TashScanner.ScanVoid | apps/shell/tash_main.c:242-278 | between tokens one character is scanned as the tokenizer does; text before the cursor and after the string is untouched |
| TashScanner.ScanQuote | apps/shell/tash_main.c:280-295 | inside quotes likewise; no token start moves, nothing before the current token changes, and the remaining text shrinks |
| TashScanner.ScanWord | apps/shell/tash_main.c:297-333 | inside a word likewise, with the same guarantees |
| TashScanner.ScanCommand | apps/shell/tash_main.c:239-335 | the loop terminates with the tokenizer's view of the command |
| TashScanner.StringsAtEnd | apps/shell/tash_main.c:337-352 | at the end of a command the pointers in the vector denote exactly the tokenizer's arguments |
| TashScanner.ExecuteCmdline | apps/shell/tash_main.c:230-356 | the argument lists executed are those of the pure tokenizer on the original line, for every line; nothing past the string is written |
| TashQuoting.ScanEscaped | apps/shell/tash_main.c:280-295 | an escaped argument adds exactly itself to the token |
| TashQuoting.ScanKeepsPrefix | apps/shell/tash_main.c:239-335 | later text never changes finished arguments nor a token part that does not end in a backslash |
| TashQuoting.RenderRoundTrip | apps/shell/tash_main.c:230-356 | quoting any list of commands with 1 to 30 arguments each, none ending in a backslash, and scanning it gives the commands back |
| TashQuoting.RoundTripIff | apps/shell/tash_main.c:230-356 | quoting expresses an argument list if and only if it has 1 to 30 arguments and none ends in a backslash |
| TashWords.PlainLine | apps/shell/tash_main.c:239-335 | a line of plain words runs one command with these words; from the 31st word on they are one argument |
| TashWords.PlainLineWithComment | apps/shell/tash_main.c:250-256 | a comment after plain words leaves the words as the arguments |
| TashGrammar.LineMeans | apps/shell/tash_main.c:230-356 | every line built from tokens of bare and quoted pieces, spaces, semicolons and line feeds, with up to 30 tokens a command, runs what this structure says; a comment, an unclosed quotation and a token too many at its end included |
| TashGrammar.LeadingGap | apps/shell/tash_main.c:245-272 | a space, semicolon or line feed at the start of any line changes nothing |
| TashGrammar.WordsThenSeparator | apps/shell/tash_main.c:266-272 | words, any number of spaces and a semicolon or line feed are one command with these words, whatever follows |
| TashComments.CommandsMoveOn | apps/shell/tash_main.c:239-335 | what a line runs is decided one character at a time, across the ends of commands |
| TashComments.StartsCommentIff | apps/shell/tash_main.c:250-256 | whatever follows a hash is ignored if and only if the text before it leaves the scan at the start of a token, behind an earlier comment, or in a quotation beyond the limit on tokens |
| CommandNames.StrncmpZero | apps/shell/tash_command.c:249 | the comparison finds no difference if and only if the first bytes agree |
| CommandNames.StrcmpIs | lib/libc/string/lib_strcmp.c:66-75 | the result is the difference of the first bytes that differ, terminator included, as a signed char |
| CommandNames.AsciiOrder | lib/libc/string/lib_strcmp.c:66-75 | on 7-bit names a negative result means exactly dictionary order: a proper prefix, or the smaller byte at the first difference |
| CommandNames.AsciiOneWay | lib/libc/string/lib_strcmp.c:66-75 | on 7-bit names at most one of two different names is below the other |
| CommandNames.AsciiChains | lib/libc/string/lib_strcmp.c:66-75 | on 7-bit names the order is transitive |
| CommandNames.StrcmpDistinct | lib/libc/string/lib_strcmp.c:66-75 | for any names the result is zero only for equal ones, and a name above another has that one below it |
| CommandTable.SortedIsTotal | apps/shell/tash_command.c:118-139 | a sorted table of distinct names is one whose names strcmp orders: no two each below the other, and transitive |
| CommandTable.AsciiIsTotal | lib/libc/string/lib_strcmp.c:66-75 | strcmp orders every table of 7-bit names |
| CommandTable.SortedIsDictionary | apps/shell/tash_command.c:118-139 | a table of 7-bit names is sorted if and only if it is in dictionary order |
| CommandTable.NotTotalNeverSorted | apps/shell/tash_command.c:118-139 | a table whose names strcmp does not order is sorted in no arrangement |
| CommandTable.MutualPairCannotBeSorted | lib/libc/string/lib_strcmp.c:66-75 | names 0x81 and 0x01 are each below the other, so no arrangement of the two is sorted |
| CommandTable.CycleCannotBeSorted | lib/libc/string/lib_strcmp.c:66-75 | nor is any arrangement of 0x01, 0x64 and 0xc8, of which no two are each below the other |
| CommandTable.WideNamesCanBeSorted | lib/libc/string/lib_strcmp.c:66-75 | names 0x85 and 0x90 are ordered although they are not 7-bit |
| CommandTable.PermutesKeepsEntries | apps/shell/tash_command.c:118-139 | reordering commands with distinct names changes the meaning of no name |
| CommandTable.SiftSorts | apps/shell/tash_command.c:132-136 | inserting one element keeps the elements a gap apart in order |
| CommandTable.PassSorts | apps/shell/tash_command.c:131-137 | one pass leaves all elements a gap apart in order |
| CommandTable.PassPermutes | apps/shell/tash_command.c:131-137 | one pass is a permutation |
| CommandTable.Table.Find | apps/shell/tash_command.c:248-250 | the search finds the unique entry registered under the first 15 bytes of the name, or none |
| CommandTable.Table.Lookup | apps/shell/tash_command.c:240-277 | executing a name selects the callback and type registered for it |
| CommandTable.Table.Install | apps/shell/tash_command.c:294-326 | refused when full or when the first 15 bytes are taken, otherwise exactly that name is added; names stay distinct and the count within the limit |
| CommandTable.Table.InsertOne | apps/shell/tash_command.c:132-136 | the shift-and-place code is the insertion of the model |
| CommandTable.Table.GapPass | apps/shell/tash_command.c:131-137 | the loop is one pass |
| CommandTable.Table.SortCmds | apps/shell/tash_command.c:118-139 | the shrinking gaps terminate, end with gap 1, and leave a permutation; with distinct names it is sorted if and only if strcmp orders the names of the table, and with 7-bit names it is in dictionary order |
| CommandTable.Table.SortForHelp | apps/shell/tash_command.c:151-154 | afterwards every name means what it meant, the table is sorted if and only if strcmp orders its names, and 7-bit names are in dictionary order |
| CommandTable.AnyRun | apps/shell/tash_command.c:118-326 | over any sequence of installs and sorts a registered name keeps its meaning |
| CanMessages.LongestFitUnique | os/drivers/can.c:323-343 | the longest run of messages that fits is unique |
| CanMessages.TotalLengthIs | os/drivers/can.c:327 | the length of messages is two bytes for each header and one for each data byte |
| CanBuffer.TakesInsideIff | os/drivers/can.c:460-527 | the loop takes exactly the first n messages and stops if and only if the buffer ends with the last of them or one byte behind it |
| CanBuffer.StopsInsideIff | os/drivers/can.c:460-527 | the loop stays inside the buffer if and only if the buffer does not end inside a message |
| CanBuffer.SplitGoesOn | os/drivers/can.c:460 | otherwise the loop condition holds at every message of the next 2^32 - 2 bytes |
| CanBuffer.TakesMessagesIff | os/drivers/can.c:460-527 | the messages given to Write are those the loop takes if and only if the buffer is as long as they are, or one byte longer |
| CanTransmit.Transmitter.constructor | os/drivers/can.c:181-183 | the FIFO starts empty |
| CanTransmit.Transmitter.Indices | os/drivers/can.c:390-394 | comparing ring indices decides emptiness, fullness and what is in flight |
| CanTransmit.Transmitter.DevSend | os/drivers/can.c:401-412 | sending, each message on its own answer that the hardware is ready and with any number of completions before it returns, keeps order and ring |
| CanTransmit.Transmitter.SendNext | os/drivers/can.c:401-412 | the oldest queued message is taken off the queue and handed over |
| CanTransmit.Transmitter.Xmit | os/drivers/can.c:369-423 | terminates under re-entry, hands messages over in order until none is queued or the hardware takes no more, leaves interrupts on while messages are held and off when there are none, and returns the answer of the last send, EBUSY or EIO |
| CanTransmit.Transmitter.TxDone | os/drivers/can.c:795-828 | completes one message, sends more, and posts the semaphore once per completion if and only if a writer waits; without a message it changes nothing |
| CanTransmit.Transmitter.MakeRoom | os/drivers/can.c:465-511 | with a free slot nothing happens; without one a non-blocking caller gets EAGAIN at once, and a blocking one waits, idle hardware started before, until there is a slot or a wait fails, whose error it returns |
| CanTransmit.Transmitter.WaitOnce | os/drivers/can.c:485-508 | one wait, counted as a waiter only meanwhile, after starting hardware that said it was idle; the hardware is asked again after a wait that succeeds |
| CanTransmit.Transmitter.Append | os/drivers/can.c:517-523 | the message is the newest held, the others stay |
| CanTransmit.Transmitter.Write | os/drivers/can.c:429-545 | accepts a prefix of the messages in order and returns its length in bytes; free slots are used without waiting; a non-blocking write stops there and starts idle hardware if and only if all its messages fit; a blocking one waits if and only if they do not, and accepts all of them unless a wait fails, whose error it returns |
| CanTransmit.Retry | os/drivers/can.c:472-483 | with a full FIFO and nothing in flight every non-empty non-blocking write returns EAGAIN and changes nothing |
| CanTransmit.FillAndRetry | os/drivers/can.c:472-483 | a non-blocking write of FIFOSIZE or more messages to a device just opened reaches that state, with nothing handed over then or later |
| CanTransmit.AnyRun | os/drivers/can.c:369-828 | in every run what went to the hardware followed by what waits is what was accepted |
| CanReceive.Receiver.Receive | os/drivers/can.c:697-776 | refused exactly when FIFOSIZE - 1 messages are held, otherwise appended |
| CanReceive.Receiver.AwaitMessage | os/drivers/can.c:301-316 | not blocking, EAGAIN if and only if no message is held; blocking, it waits if and only if none is held, and returns with a message or with the error of the wait |
| CanReceive.Receiver.Drain | os/drivers/can.c:322-349 | takes the longest run of oldest messages that fits and returns its length |
| CanReceive.Receiver.Read | os/drivers/can.c:282-356 | the same for the whole call, with the cases of a short buffer and an empty FIFO |
| CanReceive.AnyRun | os/drivers/can.c:282-776 | over any run readers get the accepted messages in order without gaps |
| PowerHistory.PrunedMeans | os/pm/pm_metrics.c:36-62 | pruning keeps a non-empty tail in which no node but the first is older than the cutoff, and the first is if any was dropped, and the state in force at every instant from the cutoff on |
| PowerHistory.PruneKeepsWindowIff | os/pm/pm_metrics.c:51 | over the metrics window this holds if and only if the clock has run for one window or all changes share a second |
| PowerMetrics.ReportedEarly | os/pm/pm_metrics.c:76-94 | while the clock is below one window the current state is credited 2^32 minus the window and the others nothing |
| PowerMetrics.ReportedMeans | os/pm/pm_metrics.c:76-125 | from one window on each total is the number of seconds in that state, plus, for the current state, the part of the window before the last change |
| PowerMetrics.MetricsExactIff | os/pm/pm_metrics.c:76-104 | the totals are right for all states if and only if the clock has run for one window and the last change is not inside it |
| PowerMetrics.TotalTelescopes | os/pm/pm_metrics.c:99-104 | the times added before the last node sum to its time minus the later of window start and first time |
| PowerMetrics.TotalOfMetrics | os/pm/pm_metrics.c:76-104 | the four totals sum to the window plus the time in it between first and last change, or to 2^32 minus the window while the clock is below it |
| PowerReads.TwoReads | os/pm/pm_metrics.c:42-84 | pruning at a later reading subtracts the seconds of the window before the first node kept or, if that reading is the first past a whole window, adds those before the last change |
| PowerReads.NoDriftIff | os/pm/pm_metrics.c:42-84 | it changes no total if and only if no change later than the first node and the window start is older than the later cutoff; while the clock is below one window, if and only if the later reading is too, or prunes to the last change, or all changes share a second |
| PowerReads.TotalsFit | os/pm/pm_metrics.c:68-71 | every total fits 32 bits, whatever the two readings |
| PowerChange.PrepareResultIff | os/pm/pm_changestate.c:95-114 | the round succeeds if and only if every driver with the callback accepts |
| PowerChange.FirstRefusal | os/pm/pm_changestate.c:95-114 | a refused round returns what the first driver that refused answered |
| PowerChange.LaterCalls | os/pm/pm_changestate.c:102-111 | a prepare round makes prepare calls only, of one state, in registry order |
| PowerChange.AskedIff | os/pm/pm_changestate.c:102-111 | a driver is asked if and only if it has the callback and no earlier one refused; so a reverting round reaches a driver only if none before it refuses |
| PowerChange.NotifiedOnce | os/pm/pm_changestate.c:135-151 | every driver with the callback is notified once, in order, of one state |
| PowerChange.ChangeNotifiesOnce | os/pm/pm_changestate.c:185-258 | over a whole state change every driver with the callback is notified exactly once, of the final state, and the others never |
| PowerDomain.Domain.constructor | os/pm/pm_initialize.c:108-135 | a domain starts in NORMAL with an empty averaging window and one NORMAL history node |
| PowerDomain.Domain.PrepAll | os/pm/pm_changestate.c:95-114 | the loop makes the calls of one prepare round and returns the first refusal |
| PowerDomain.Domain.ChangeAll | os/pm/pm_changestate.c:135-151 | the loop makes the calls of one notify round |
| PowerDomain.Domain.PruneHistory | os/pm/pm_metrics.c:36-62 | the loop is the pruning of the model |
| PowerDomain.Domain.ChangeState | os/pm/pm_changestate.c:185-258 | all or nothing: the new state only if every driver accepted, otherwise the first refusal is returned; all callbacks in order, each driver notified once of the final state, and the last history node always records it; the clock is read for the node and again for pruning |
| PowerDomain.Domain.SumTotals | os/pm/pm_metrics.c:86-125 | the loop computes the totals of the model |
| PowerDomain.Domain.GetDomainMetrics | os/pm/pm_metrics.c:64-133 | the totals, with both readings of the clock, in terms of the history from before pruning; the exact totals and their sum when the readings agree on what counts |
| PowerFilter.AverageBetween | os/pm/pm_update.c:210-239 | the average lies between the bounds of its inputs and the sum fits 32 bits |
| PowerFilter.AverageIsQuotient | os/pm/pm_update.c:210-239 | the average is the weighted sum divided by the sum of the weights, rounded down |
| PowerFilter.DotRaised | os/pm/pm_update.c:228-235 | raising one stored value raises the sum by the weight of its place, oldest first |
| PowerFilter.DotOfZeros | os/pm/pm_update.c:228-235 | a window of zeros adds nothing |
| PowerFilter.UsableIff | os/pm/pm_update.c:220-235 | positive weights keep the sum in 32 bits for all samples if and only if their sum times 32767 fits |
| PowerFilter.RunBetween | os/pm/pm_update.c:204-245 | in every run all stored and assessed values lie between the smallest and the largest sample, so the 16-bit store loses nothing |
| PowerGovernor.CountIsQuiet | os/pm/pm_update.c:260-323 | in every run the count never exceeds the quiet updates since the last busy one |
| PowerGovernor.DeeperOnlyAfterQuiet | os/pm/pm_update.c:309-321 | a state deeper than the current one is newly recommended only as the next level, after as many quiet updates as it asks for |
| PowerGovernor.RecommendationLeadsByOne | os/pm/pm_update.c:286-323 | if changes follow the recommendation, it is never more than one level below the current state |
| PowerGovernor.QuietRecommendsExactly | os/pm/pm_update.c:309-321 | while no deeper level is recommended, quiet updates recommend the next one after exactly as many of them as the count still lacks, at least one, and then keep to it |
| PowerGovernor.BusyWithdraws | os/pm/pm_update.c:300-305 | after any run, activity above the threshold for going deeper withdraws a deeper recommendation at once and restarts the quiet count |
| PowerGovernor.QuietKeeps | os/pm/pm_update.c:286-309 | in the deepest state, and once the next level is recommended, quiet updates change nothing |
| PowerDomain.Domain.WeightedAverage | os/pm/pm_update.c:220-239 | the summing loop over the ring computes the filter's average, the quotient of weighted sum and sum of weights |
| PowerDomain.Domain.Store | os/pm/pm_update.c:241-245 | the oldest value is replaced and the ring still reads oldest first |
| PowerDomain.Domain.Recommend | os/pm/pm_update.c:260-323 | the threshold code is the assessment of the model |
| PowerDomain.Domain.Worker | os/pm/pm_update.c:170-324 | samples fill the window; then each average replaces the oldest value and is assessed |
| PowerDomain.Domain.Activity | os/pm/pm_activity.c:101-164 | the accumulator saturates at INT16_MAX, and a finished slice yields its sample |

## Left out

- Bytes inside a block: buffers are arrays of blocks, because every access of the buffer code is at a multiple of the block size.
- Device errors in the block buffer: a failed flush discards the buffered blocks and a failed reload ends the read, and transfers are taken to succeed.
- `rwb_invalidate_writebuffer`, `rwb_invalidate_readahead`: their tail cases keep the wrong number of blocks, so no agreement over runs holds; `rwb_mediaremoved` discards dirty data by design.
- Concurrent calls into the block buffer: each call is one step.
- Log resize: it may discard messages enqueued just before the request.
- Formatting of log messages, time stamps and the low-level output before start-up: a message is the formatted text.
- Reading the console line, scripts, help output and running commands: the scanner's result is the list of argument vectors.
- CommandTable.Table.Install: locking is not modelled, so the flag reset after unlocking is part of the same step.
- Interrupted waits in the CAN driver are retried without effect on the FIFO and are not separate steps; several writers at once are not modelled.
- CanTransmit.Transmitter.Write: what the loop takes from behind a buffer that ends inside a message is not modelled, because it is whatever the memory there holds.
- CAN data length codes above 8, extended identifiers, remote requests and open counting.
- PowerDomain.Domain.Worker: the work queue between the end of a slice and the worker is not modelled.
- Registration of drivers after start-up, `pm_checkstate`, procfs and the locks of power management.
