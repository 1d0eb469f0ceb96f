# Proofs about programs of this repository

Six programs that share little but their age, modelled in Dafny with the theorems their authors
relied on:

- **XMODEM** (`contrib/umodem`): sender and receiver of umodem 2.8 and the sender of 2.8c in 8-bit
  FTP 3 mode. `Xmodem` has one step of each side and the blocks of a file; `XmodemAttempts` counts
  the sender's attempts; `XmodemAsync` lets the sides run at their own pace over lossy queues, and
  `XmodemWrap` does so without a bound on repetitions; `XmodemRounds` pairs each packet with its
  response, and `XmodemRecovery` says which faults are got over; `XmodemText` is the text codec,
  `XmodemLossyText` text over lossy links; `XmodemCode` has the loops of `rfile` and `sfile` over
  their buffers.
- **ddb**, the debugger: breakpoints and run modes (`Ddb`, `DdbRuns`, `DdbListed`, `DdbModes`,
  `DdbUntil`, `DdbCode`), the line editor (`LineEditor`), the expression evaluator and its lexer
  (`DdbExpr`, `DdbParse`, `DdbLex`, `DdbLine`, `DdbOperators`, `DdbForms`, `DdbReader`, `DdbEval`),
  and the text dump (`DdbDump`, `DdbDumpCode`).
- **86sim**, the 8086 interpreter: string instructions (`Cpu`, `CpuFetch`, `CpuStrings`, `CpuCopy`,
  `CpuSearch`, `CpuLods`, `CpuCode`) and arithmetic (`CpuArith`, `CpuChain`, `CpuFlags`, `CpuShift`,
  `CpuAlu`).
- **ar**: byte format, list specification and the program with its three temporary files (`Ar`,
  `ArLists`, `ArReplace`, `ArCode`).
- **btoa and atob**: the text format, its laws, the checksums and the two programs (`Base85`,
  `Base85Laws`, `Base85Checks`, `Base85Code`).
- **tar**: blocking of records and alignment of entries (`Tar`).

`Basics`, `Sequences` and `Arithmetic` hold what several of them share.

Code that changes variables step by step is a class or a method with loops, proved equal to a
specification function (`Receive`, `StopAtPc`, `PressAll`, `StringInstruction`, `Climb`, `Btoa`,
`Deleted`, ...); the theorems are about the specification functions, so that they hold of the
programs. What comes from outside is a parameter: responses and packets, keys, traps and
instructions of the program being debugged, files, the clock, the device and its faulty sectors.
`dafny verify dfyconfig.toml` checks everything.

## Findings

Where the code does not do what it is meant to, the project has the input and the exact condition.

- The XMODEM receiver keeps sector numbers modulo 256. Up to 255 repeated deliveries it never writes
  a wrong block (`XmodemAsync.ReceivedIsPrefix`); with 256 it can, silently, while both sides go on
  (`XmodemAsync.PrefixBoundIsSharp`). Without a bound on repetitions, every run writes a prefix if and
  only if from block 33 on each block equals the one 256 after it
  (`XmodemWrap.EveryRunIffRepeats`); a file of at most 288 blocks is safe
  (`XmodemWrap.ShortFilesAreSafe`), and where two such blocks differ there is a run that writes the
  later one in place of the earlier (`XmodemAsync.WrongRun`).
- A repeated delivery is acknowledged again, and the sender takes the second acknowledgement for the
  next block's: one repetition can lose the last block of a transfer that both sides report as a
  success (`XmodemAsync.OneRepetitionLosesABlock`); with at most 255 repetitions never more blocks are
  lost than there were repetitions (`XmodemAsync.SuccessLosesAtMostDups`).
- A block that is acknowledged at its tenth attempt has failed: it gets through if and only if one of
  the first nine attempts is acknowledged with no CAN before (`XmodemAttempts.BlockGetsThrough`,
  `XmodemAttempts.TenthBlockFails`). The end of the file has one attempt more: the tenth EOT's
  acknowledgement is a success, the eleventh's a failure (`XmodemAttempts.EndGetsThrough`,
  `XmodemAttempts.EleventhEndFails`).
- A response lost at the very end cannot be made up for: once the receiver has finished, a sender
  that has not heard so fails, though every block has been written (`XmodemRecovery.LastReplyLost`);
  the end succeeds if and only if the one response to it is heard (`XmodemRecovery.EndRoundIff`).
- A text file survives the transfer if and only if it holds no Ctrl-Z (`XmodemText.TextRoundTrip`).
- In text mode a packet is unpacked before its checksum is compared, and what that does to the flags
  of the codec is kept when the packet is then refused. An event sets the receiver apart from one that
  gets every packet once if and only if it is such a packet and its characters leave the flags
  changed (`XmodemLossyText.FollowsIff`); one damaged packet with a Ctrl-Z in it makes a file of one
  letter arrive empty, and both sides report a success (`XmodemLossyText.DamageCutsText`).
- umodem 2.8 sends a further block after a binary file that fills its last block; 2.8c does not
  (`XmodemText.BinaryBlocksConcat`).
- A counted breakpoint loses count in three ways (`DdbRuns.Miscounts`): another trap, or an `int3` of
  the program's own, at a breakpoint that is being stepped over, and an `int3` of the program's own
  right before the breakpoint. Only then (`DdbRuns.StepAccounts`); `DdbRuns.CountIsLost` is a run
  that does.
- In ddb expressions a prefix operator cannot follow a multiplicative one: `2*-3` is a syntax error
  (`DdbParse.PrefixedFactorFails`).
- `a#b`, a rounded up to a multiple of b, divides towards zero: it is the least multiple not below a
  if and only if a is above -b or one more than a multiple (`DdbOperators.HashRoundsUpIff`); `-5#4` is
  0 and not -4 (`DdbOperators.HashGoesTooFar`).
- In the text dump an empty panic or version string still gets a data block, which a reader of the
  archive takes for the header of a nameless empty file (`DdbDumpCode.ReadAsWantedIff`).
- A dump block for which there is no room is dropped without an error being remembered, so that the
  message about insufficient space is never printed: on a device without faults no dump ends with an
  error, and one that ends without an error can be read back whole if and only if there was room for
  all of it (`DdbDumpCode.DumpSys`, `DdbDumpCode.CompleteIff`); `DdbDumpCode.TooSmall` is a dump
  without an error that cannot.
- ADC and SBB add the carry to the source first. When it is set, OF is inverted if and only if the
  source is the largest positive number, and AF if and only if the source ends in 15
  (`CpuFlags.OverflowIff`, `CpuFlags.HalfCarryIff`); `CpuFlags.Overflows` has 0 + 127 + 1.
- After a REP prefix a segment override is refused (`CpuStrings.NothingElseAfterRep`); the other
  order works (`CpuStrings.OverrideThenRep`).
- ar's `trim` overwrites trailing slashes in the arguments it looks at, so that `r` opens `dir/file`
  for an argument `dir/file/` once a member has been compared with it, and `dir/file/` otherwise: the
  slashes stay if and only if no member's search came as far as the argument
  (`ArLists.SlashesStayIff`); `ArLists.SlashOpened` has an archive of each kind.
- ar cuts a name of more than 14 characters in the header and then does not find it: giving `r` the
  same file again leaves the number of members as it was if and only if its name has at most 14
  characters; with a longer one there is a further copy each time (`ArLists.AgainIff`).

## Model

| member | source | states |
|---|---|---|
| XmodemAsync.SectorNumbersTell | contrib/umodem/umodem28/umodem.c:738-845 | among packets at most 256 ahead of the last block, the number modulo 256 tells the next block from all others, and the last one from all but the one 256 further |
| XmodemAsync.DeliverOutcome | contrib/umodem/umodem28/umodem.c:699-902 | the receiver with r blocks writes block r+1, acknowledges a repetition without writing, ends at EOT, and answers every other block with CAN and stops |
| XmodemAsync.StepKeepsInv | contrib/umodem/umodem28/umodem.c:699-1098 | as long as no packet is as far ahead as the wrap, every event of sender, receiver or line keeps the invariant: received blocks are a prefix, packets under way are in order and near it, acknowledgements are accounted for |
| XmodemAsync.RunKeepsInv | contrib/umodem/umodem28/umodem.c:699-1098 | the invariant holds in every run of any events with at most 255 repeated deliveries |
| XmodemAsync.ReceivedIsPrefix | contrib/umodem/umodem28/umodem.c:738-863 | in every run over FIFO links that lose, detectably damage and delay, with at most 255 repeated deliveries, what was written is a prefix of the blocks sent |
| XmodemAsync.AheadMeansCancel | contrib/umodem/umodem28/umodem.c:849-862 | a packet beyond the next one makes the receiver answer CAN and stop without writing |
| XmodemAsync.SuccessLosesAtMostDups | contrib/umodem/umodem28/umodem.c:1028-1098 | a sender that reports success has lost at most as many blocks at the end as there were repeated deliveries; with none the receiver is complete |
| XmodemAsync.PrefixBoundIsSharp | contrib/umodem/umodem28/umodem.c:738-836 | with 256 repeated deliveries and at least 289 blocks there is a run that writes block 289 in place of block 33 |
| XmodemAsync.WrongRun | contrib/umodem/umodem28/umodem.c:738-836 | for every block from 33 on that differs from the one 256 after it there is a run that writes the later one in its place |
| XmodemWrap.FarMeansLate | contrib/umodem/umodem28/umodem.c:845-848 | a sender far enough ahead for the numbers to be mistaken has used up repetitions of at least 32 blocks, as each is repeated at most 8 times |
| XmodemWrap.RunIsGood | contrib/umodem/umodem28/umodem.c:699-1098 | in every run, with any number of repetitions, the receiver has a prefix and the sides are where one of two invariants says, if blocks from 33 on equal those 256 after them |
| XmodemWrap.EveryRunIffRepeats | contrib/umodem/umodem28/umodem.c:738-863 | every run writes a prefix of the blocks if and only if from block 33 on each equals the one 256 after it |
| XmodemWrap.ShortFilesAreSafe | contrib/umodem/umodem28/umodem.c:738-863 | at most 288 blocks are never written wrong, in any run |
| XmodemAttempts.BlockGetsThrough | contrib/umodem/umodem28/umodem.c:1027-1083 | from any number of attempts, a block gets through if and only if one of the responses before the tenth attempt's is an acknowledgement with no CAN before it; otherwise the sender fails within the attempts left |
| XmodemAttempts.EndGetsThrough | contrib/umodem/umodem28/umodem.c:1089-1098 | the end of the file is a success if and only if one of the first RETRYMAX EOTs is acknowledged |
| XmodemAttempts.TenthBlockFails | contrib/umodem/umodem28/umodem.c:1082-1088 | an acknowledgement of a block's tenth attempt: the transfer has failed after ten transmissions |
| XmodemAttempts.EleventhEndFails | contrib/umodem/umodem28/umodem.c:1089-1098 | an acknowledgement of the tenth EOT is a success, of the eleventh a failure |
| XmodemAsync.OneRepetitionLosesABlock | contrib/umodem/umodem28/umodem.c:845-848 | there is a run with one repeated delivery in which both sides finish and the second of two blocks is missing |
| XmodemRounds.RoundKeepsInv | contrib/umodem/umodem28/umodem.c:699-1084 | one attempt, whatever is lost or damaged, keeps the sides in step and makes progress |
| XmodemRounds.NeverApart | contrib/umodem/umodem28/umodem.c:1028-1084 | when every attempt is a round, the two sides are at most one block apart, blocks are written once and in order, the phase error never happens and no block is sent more than RETRYMAX times |
| XmodemRounds.SuccessMeansComplete | contrib/umodem/umodem28/umodem.c:1082-1098 | in rounds, success of the sender means that the receiver has every block and has finished |
| XmodemRounds.EveryTransferEnds | contrib/umodem/umodem28/umodem.c:1082-1098 | after RETRYMAX rounds for each block and 22 more the sender has stopped |
| XmodemRounds.CleanLineSucceeds | contrib/umodem/umodem28/umodem.c:699-1098 | on a line without faults the transfer takes one round a block and two more, and succeeds |
| XmodemRecovery.EightFaultsForgiven | contrib/umodem/umodem28/umodem.c:699-1098 | a transfer in rounds with at most eight faults, packets lost or detectably damaged and responses lost or garbled, has written every block after nine rounds more than blocks, and the receiver has finished after ten |
| XmodemRecovery.NinthFaultFails | contrib/umodem/umodem28/umodem.c:1082-1088 | nine faults in a row make the sender give up on a block that has arrived |
| XmodemRecovery.NineErrorsForgiven | contrib/umodem/umodem28/umodem.c:897-902 | since its last accepted block the receiver goes on, and has answered k NAKs, if and only if it has refused fewer than 10; blocks repeated in between do not count |
| XmodemRecovery.OneByteDamage | contrib/umodem/umodem28/umodem.c:810-836 | a packet with one wrong byte anywhere is refused |
| XmodemRecovery.OneChangeNoticedIff | contrib/umodem/umodem28/umodem.c:809-813 | the checksum notices one changed character unless it is the same byte |
| XmodemRecovery.EndRoundIff | contrib/umodem/umodem28/umodem.c:1089-1098 | an attempt at the end of the file succeeds if and only if the receiver still waits, hears it and is heard |
| XmodemRecovery.LastReplyLost | contrib/umodem/umodem28/umodem.c:1089-1098 | once the receiver has finished unheard, the sender never reports success |
| XmodemRecovery.AnswersOnTheWire | contrib/umodem/umodem28/umodem.c:840-902 | the bytes the receiver answers: 6, 21, or 24 and 21 |
| XmodemRecovery.HeardOnTheWire | contrib/umodem/umodem28/umodem.c:1045-1083 | what the sender makes of any byte: 6 goes on, 24 ends, all else repeats |
| XmodemRecovery.PacketOnTheWire | contrib/umodem/umodem28/umodem.c:1029-1044 | number and complement, 128 bytes, and their sum, each modulo 256 |
| XmodemText.BinaryBlocksConcat | contrib/umodem/umodem28c/umodem.c:561-591 | the blocks of a binary file hold the file and then padding: ceil(n/128) of them in 2.8c, floor(n/128)+1 in 2.8 |
| XmodemText.BinaryPadding | contrib/umodem/umodem28/umodem.c:1000-1026 | a short last block of a binary file ends in the bytes of the block before it |
| XmodemText.ExpandIs | contrib/umodem/umodem28/umodem.c:1003-1018 | a carriage return goes before every line feed and nowhere else |
| XmodemText.TextBlocksConcat | contrib/umodem/umodem28/umodem.c:1000-1026 | the blocks of a text file are its bytes with CR before each LF and 1 to 128 Ctrl-Zs |
| XmodemText.TextForth | contrib/umodem/umodem28/umodem.c:747-808 | a text file without Ctrl-Z, sent and each packet received once, comes back exactly |
| XmodemText.TextRoundTrip | contrib/umodem/umodem28/umodem.c:747-808 | a text file comes back exactly if and only if it holds no Ctrl-Z, in both versions |
| XmodemText.TextTransfer | contrib/umodem/umodem28/umodem.c:738-836 | the receiver's file after each packet of a text file has come once is the file |
| XmodemLossyText.FollowsIff | contrib/umodem/umodem28/umodem.c:747-836 | an event keeps a text receiver with one that gets each packet once if and only if it is not a refused packet that leaves the text flags changed |
| XmodemLossyText.TextIsDecoded | contrib/umodem/umodem28/umodem.c:738-863 | in every such run over lossy queues the text written is that of the blocks received, each unpacked once |
| XmodemLossyText.TextInRounds | contrib/umodem/umodem28/umodem.c:738-836 | over links that lose packets and responses or damage them harmlessly, a sender that reports success has delivered the file, exactly if and only if it holds no Ctrl-Z |
| XmodemLossyText.HeadersSpoilNothing | contrib/umodem/umodem28/umodem.c:738-746 | packets whose number and complement do not add up are never unpacked, so that they are harmless |
| XmodemLossyText.DamageCutsText | contrib/umodem/umodem28/umodem.c:747-836 | there is a transfer, with one packet whose checksum is wrong, that both sides finish and whose file is cut short |
| XmodemText.BinaryTransfer | contrib/umodem/umodem28c/umodem.c:560-637 | after a successful binary transfer in rounds the file is a prefix of what was written, and the number of blocks is exact |
| XmodemCode.Receiver.TakeTextChar | contrib/umodem/umodem28/umodem.c:766-807 | one character in text mode does to buffer and flags what the codec says; the index stays within 129 |
| XmodemCode.Receiver.TakeData | contrib/umodem/umodem28/umodem.c:747-808 | the data loop leaves the unpacked packet in the 129-byte buffer and the checksum of the packet |
| XmodemCode.Receiver.Turn | contrib/umodem/umodem28/umodem.c:699-902 | one turn of the receive loop is the step function Receive on the receiver's variables |
| XmodemCode.Sender.Fill | contrib/umodem/umodem28/umodem.c:1000-1026 | the fill loop puts the next 128 bytes of the translated file in the buffer, padded at the end; 2.8c sends nothing when nothing is left |
| XmodemCode.Sender.Transmit | contrib/umodem/umodem28/umodem.c:1029-1044 | the packet sent is number, complement, data and checksum of the buffer |
| XmodemCode.Sender.Synchronize | contrib/umodem/umodem28/umodem.c:991-994 | the wait for the first NAK ends after at most RETRYMAX+1 responses as the step function does |
| XmodemCode.Sender.SendBlock | contrib/umodem/umodem28/umodem.c:1027-1083 | the retry loop ends after at most RETRYMAX responses, has said what the step function says, and succeeds if and only if one of the first nine is an acknowledgement with no CAN before it |
| XmodemCode.Sender.SendEnd | contrib/umodem/umodem28/umodem.c:1089-1098 | the EOT loop ends after at most RETRYMAX+1 responses as the step function does, and succeeds if and only if one of the first ten is an acknowledgement |
| XmodemCode.Sender.SendNext | contrib/umodem/umodem28/umodem.c:999-1084 | one pass of the outer loop sends exactly the next block of the file |
| XmodemCode.Sender.SendAll | contrib/umodem/umodem28/umodem.c:999-1084 | the outer loop ends and has sent all the blocks of the file in order, or has failed |
| XmodemCode.Sender.SendFile | contrib/umodem/umodem28/umodem.c:979-1098 | the whole of sfile, for any stream of responses, ends within 10 responses a block and 22 more, and its packets and outcome are those of the step function used in the theorems |
| DdbRuns.PlantIsPlanted | tools/ddb/db_break.c:177-192 | the planting loop puts the breakpoint instruction at exactly the listed addresses and saves what was there |
| DdbRuns.UnplantRestores | tools/ddb/db_break.c:194-209 | the clearing loop undoes it exactly |
| DdbRuns.FixupUndoesInt3 | tools/ddb/db_machdep.h:53-103 | the program counter after the fix-up is where the breakpoint instruction was, also when the instruction pointer wraps |
| DdbRuns.StepKeeps | tools/ddb/db_run.c:99-268 | every trap, instruction and command keeps the debugger's invariant |
| DdbRuns.RunKeeps | tools/ddb/db_run.c:99-268 | so does every run in which the program does not write at planted addresses |
| DdbRuns.MemoryIsOriginalOrPlanted | tools/ddb/db_run.c:99-268 | in every run memory is the program's own while commands are taken, and while breakpoints are planted differs from it by the breakpoint instruction at exactly the listed addresses; addresses are distinct and at most 100 |
| DdbRuns.ExecutesItsOwn | tools/ddb/db_run.c:222-268 | the program only ever meets its own instruction or a listed breakpoint |
| DdbRuns.StepAccounts | tools/ddb/db_run.c:126-141 | an event keeps the number of arrivals at a breakpoint and the number of counted hits together if and only if it is none of three named cases |
| DdbRuns.StopsOnEveryNthArrival | tools/ddb/db_run.c:126-141 | in every run without those cases, a breakpoint with count n has stopped the program on exactly every nth arrival |
| DdbRuns.CountIsLost | tools/ddb/db_run.c:126-141 | there is a run from the initial state in which two hits and one stop are counted without any arrival |
| DdbRuns.StepsExactlyN | tools/ddb/db_run.c:343-363 | `step n` stops after exactly n instructions when no breakpoint comes in between |
| DdbListed.DeleteIs | tools/ddb/db_break.c:116-138 | deleting takes exactly the breakpoint at the address away and leaves the others, with their entries, in order |
| DdbListed.DeleteUndoesSet | tools/ddb/db_break.c:91-138 | setting a new breakpoint and deleting it leaves the list as it was; its counts are the one given |
| DdbListed.EventLists | tools/ddb/db_break.c:91-138 | what is listed changes only by the two commands: set if the table of 100 has room, gone when deleted |
| DdbListed.FreeTrapsIff | tools/ddb/db_run.c:222-268 | a program that runs freely traps exactly where a breakpoint is listed or it has an int3 of its own |
| DdbListed.DeletedIsGone | tools/ddb/db_break.c:116-138 | in every run after a delete, up to the next set, memory there is the program's own, the program runs through, and no trap there counts |
| DdbListed.SetIsThere | tools/ddb/db_break.c:91-114 | in every run after a set, up to the next delete, a program that gets there is trapped |
| DdbModes.ProgramStep | tools/ddb/db_run.c:99-268 | under the debugger an instruction of the program does what it does; an int3 of its own is passed over, and only at a planted breakpoint the program stays |
| DdbModes.ContinuingStep | tools/ddb/db_run.c:120-268 | a continuing program runs freely, is stopped where a count runs out, and is otherwise stepped over the breakpoint and free again |
| DdbModes.ContinuesToBreakpoint | tools/ddb/db_run.c:120-268 | so in every run without int3s of its own it is stopped only at breakpoints |
| DdbModes.CountingStep | tools/ddb/db_run.c:173-175 | while instructions are counted only a breakpoint stops the program |
| DdbModes.OwnInt3Stops | tools/ddb/db_run.c:137-166 | an int3 of the program's own stops it right behind that instruction, in every mode |
| DdbModes.FaultStopsIff | tools/ddb/db_run.c:120-166 | another trap stops the program where it is if and only if there is no breakpoint or its count runs out |
| DdbModes.StrayTraceIgnored | tools/ddb/db_run.c:161-162 | a trace trap nobody asked for does not stop the program |
| DdbModes.DefaultCounts | tools/ddb/db_run.c:344-362 | without a count, commands count one |
| DdbUntil.UntilReturnStopsIff | tools/ddb/db_run.c:186-207 | `next` stops exactly when as many more returns as calls have been met, or a return from a trap |
| DdbUntil.UntilCallStopsIff | tools/ddb/db_run.c:208-218 | `until` stops exactly at the first call or return |
| DdbCode.Debugger.Alloc | tools/ddb/db_break.c:65-82 | an entry in neither list is handed out; it fails exactly when all 100 are in use |
| DdbCode.Debugger.Free | tools/ddb/db_break.c:84-89 | the entry goes to the free list; the breakpoints stay as they were |
| DdbCode.Debugger.FindBreakpoint | tools/ddb/db_break.c:140-154 | the walk along the links finds the first breakpoint with the address, or the null pointer |
| DdbCode.Debugger.SetBreakpoint | tools/ddb/db_break.c:91-115 | the new breakpoint is first in the list unless it was set before or the table is full; lists stay acyclic, disjoint and share out the table |
| DdbCode.Debugger.DeleteBreakpoint | tools/ddb/db_break.c:117-138 | exactly that breakpoint is unlinked and freed; the order of the others stays |
| DdbCode.Debugger.PlantAll | tools/ddb/db_break.c:177-192 | memory and saved bytes after the loop are those of the specification |
| DdbCode.Debugger.ClearAll | tools/ddb/db_break.c:194-209 | memory after the loop is that of the specification |
| DdbCode.Debugger.StopAtPc | tools/ddb/db_run.c:99-220 | all variables and the decision to stop are those of the specification |
| DdbCode.Debugger.RestartAtPc | tools/ddb/db_run.c:222-268 | all variables are those of the specification |
| LineEditor.Editor.DeleteForward | tools/ddb/db_input.c:102-120 | n characters after the cursor are gone from buffer and screen |
| LineEditor.Editor.DeleteBackward | tools/ddb/db_input.c:102-120 | n characters before the cursor are gone from buffer and screen, and the cursor is moved |
| LineEditor.Editor.Edit | tools/ddb/db_input.c:161-311 | every completed editing key changes the two halves of the line as specified, and keeps the screen showing it |
| LineEditor.Editor.InputChar | tools/ddb/db_input.c:122-313 | a character, with the escape state, does what the specification says; a final one is appended and ends the line |
| LineEditor.ReadLine | tools/ddb/db_input.c:321-367 | for any sequence of keys without history recall, the line is that of the two-list specification, the terminal shows exactly it with the cursor in place, and all writes stay within the buffer |
| LineEditor.MovesKeepText | tools/ddb/db_input.c:165-192 | cursor keys do not change the text |
| LineEditor.LineStaysSane | tools/ddb/db_input.c:295-310 | no keys take the line beyond its size or bring in a control character |
| LineEditor.CursorKeys | tools/ddb/db_input.c:165-192 | where ^A, ^E, ^B and ^F leave the cursor |
| LineEditor.ErasingKeys | tools/ddb/db_input.c:193-215 | what ^K, ^U, ^C, ^D, ^H and rubout leave of the text |
| LineEditor.TransposeKey | tools/ddb/db_input.c:216-227 | ^T exchanges the two characters before the cursor |
| LineEditor.TypingKey | tools/ddb/db_input.c:270-300 | a printable character goes in at the cursor if there is room |
| LineEditor.ArrowKeys | tools/ddb/db_input.c:130-165 | the right and left arrows, in both forms, are ^F and ^B |
| LineEditor.WordEraseRemovesAWord | tools/ddb/db_input.c:228-240 | ^W removes exactly the blanks before the cursor and the word before them |
| LineEditor.TypingGivesText | tools/ddb/db_input.c:295-310 | typing a text that fits gives that text |
| LineEditor.EraseUndoesTyping | tools/ddb/db_input.c:193-203 | erasing after typing a character anywhere restores the line |
| CpuStrings.TurnIsElement | tools/86sim/86sim.cc:49-62 | a pass while an instruction is being repeated fetches nothing and processes one element |
| CpuStrings.FirstTurn | tools/86sim/86sim.cc:49-62 | the first pass after the prefix fetches the instruction and processes one element |
| CpuStrings.OneOutcome | tools/86sim/86sim.cc:49-66 | the loop is deterministic |
| CpuStrings.RepBlock | tools/86sim/86sim.cc:297-322 | after j of exactly CX passes of REP MOVS or STOS, j elements are stored and nothing else is changed, CX, SI and DI are moved by j signed steps modulo 65536, for every legal block, direction and override |
| CpuStrings.RepOfNothing | tools/86sim/machos.h:310-318 | with CX = 0 the instruction is passed over in one pass and nothing is touched |
| CpuStrings.RepneWantsAComparison | tools/86sim/machos.h:312-313 | REPNE before an instruction that does not compare is an error |
| CpuStrings.OverrideThenRep | tools/86sim/86sim.cc:110-114 | a segment override before REP is kept for the whole string instruction |
| CpuStrings.NothingElseAfterRep | tools/86sim/86sim.cc:59-61 | after REP anything but a string instruction is an error that changes nothing |
| CpuLods.AloneIsOnce | tools/86sim/86sim.cc:297-339 | without a prefix a string instruction does what it does under REP with a count of one, and leaves CX alone |
| CpuLods.RepLods | tools/86sim/86sim.cc:323-328 | the j-th pass of REP LODS has left element j in AL or AX, the registers stepped and memory untouched |
| CpuFetch.OpcodesAre | tools/86sim/86sim.cc:297-339 | which opcodes are which string instruction, and their sizes |
| CpuFetch.AddressesWrap | tools/86sim/machos.h:172-196 | physical addresses have twenty bits |
| CpuFetch.WriteProtected | tools/86sim/machos.h:172-196 | a byte below the program, its first 256 bytes excepted, cannot be written; any other is, and nothing else |
| CpuFetch.PrefixesForgotten | tools/86sim/86sim.cc:50-58 | the prefixes of one instruction do not reach the next |
| CpuFetch.SegmentsAre | tools/86sim/machos.h:172-196 | data come from the override's segment or DS, the destination is always in ES |
| CpuFetch.StepsAre | tools/86sim/machos.h:303-330 | the index registers step by the size of the element, up or down |
| CpuCopy.PlainIsLegal | tools/86sim/machos.h:172-196 | an upward block inside segment and memory, whose source does not follow into the destination, is legal in the sense of RepBlock |
| CpuCopy.RepMovsCopies | tools/86sim/86sim.cc:297-302 | REP MOVS in both sizes leaves memory with the block copied and every other byte as it was |
| CpuCopy.RepStosFills | tools/86sim/86sim.cc:317-322 | REP STOS in both sizes leaves memory with the block filled with AL, or AL and AH in turn, and every other byte as it was |
| CpuSearch.ZeroMeansEqual | tools/86sim/machos.h:350-355 | after the comparison ZF says whether the operands are equal |
| CpuSearch.RepSearch | tools/86sim/86sim.cc:303-339 | REPNE and REPE SCAS and CMPS take exactly k passes, up to the first deciding element or all CX; registers are at k steps, ZF tells which, memory is untouched |
| CpuSearch.SearchLength | tools/86sim/86sim.cc:303-339 | there is exactly one such k |
| CpuSearch.FoundIff | tools/86sim/machos.h:310-318 | some element decides if and only if the last one compared does |
| CpuCode.Machine.PhysicalAddress | tools/86sim/machos.h:172-196 | the 20-bit address of segment and offset; an uninitialised or protected byte is an error, a written one becomes initialised |
| CpuCode.Machine.LoadSI | tools/86sim/machos.h:303-309 | the element at SI is read and SI stepped |
| CpuCode.Machine.StoreDI | tools/86sim/machos.h:325-330 | the element at DI is written and DI stepped |
| CpuCode.Machine.Repeat | tools/86sim/machos.h:310-318 | CX is counted down and the repetition decided as specified |
| CpuCode.Machine.DoString | tools/86sim/86sim.cc:297-339 | one element of a string instruction does what the specification says to the whole state |
| CpuCode.Machine.FetchOpcode | tools/86sim/86sim.cc:50-58 | the head of the loop leaves the state the specification says |
| CpuCode.Machine.Execute | tools/86sim/86sim.cc:59-66 | the rest of a pass does what the specification says |
| CpuCode.Machine.Pass | tools/86sim/86sim.cc:49-66 | one pass of the loop is one step of the specification, up to an opcode outside the model |
| CpuCode.Machine.Run | tools/86sim/86sim.cc:49-66 | the loop is a run of the specification, so that the theorems above are about it |
| CpuArith.TruncMeans | tools/86sim/machos.h:251-279 | the quotient meant is that truncated toward zero: the remainder is smaller than the divisor and has the dividend's sign |
| CpuArith.DivIsTrunc | tools/86sim/machos.h:251-279 | div, on unsigned words, computes the truncated signed quotient and remainder as bit patterns |
| CpuArith.Idiv8Divides | tools/86sim/86sim.cc:571-593 | IDIV by a byte overflows exactly when the divisor is 0 or the quotient does not fit; else AL and AH are quotient and remainder |
| CpuArith.Idiv16Divides | tools/86sim/86sim.cc:594-607 | the same for IDIV of DX:AX by a word |
| CpuArith.Imul8Multiplies | tools/86sim/86sim.cc:531-550 | IMUL of AL by a byte leaves the exact signed product in AX |
| CpuArith.Imul16Multiplies | tools/86sim/86sim.cc:551-566 | IMUL of AX by a word leaves the exact signed product in DX:AX |
| CpuChain.TrueCarry | tools/86sim/machos.h:341-367 | CF is the true carry or borrow of ADD, ADC, SUB and SBB, even when the carry in makes the source overflow |
| CpuFlags.OverflowIff | tools/86sim/machos.h:344-367 | OF tells whether the signed result does not fit, in both sizes, if and only if no carry is added to the largest source |
| CpuFlags.HalfCarryIff | tools/86sim/machos.h:341-342 | AF is the carry out of the low four bits of any operands if and only if no carry is added to a source ending in 15 |
| CpuFlags.ResultFlags | tools/86sim/machos.h:234-234 | SF: the result is negative; ZF: it is zero; PF: an even number of ones in its low byte |
| CpuFlags.ComparisonOrders | tools/86sim/machos.h:350-355 | after a comparison SF and OF differ exactly when the destination is less as signed, CF is set exactly when it is less unsigned |
| CpuFlags.Overflows | tools/86sim/machos.h:344-355 | -128 - 1 and 127 + 1 overflow a byte; 0 + 127 + 1 is not noticed |
| CpuFlags.PassOverflow | tools/86sim/machos.h:356-359 | after a pass of a shift or rotation OF tells whether the sign has changed |
| CpuFlags.DoubledOverflow | tools/86sim/86sim.cc:414-420 | after SHL by one OF tells whether twice the operand does not fit |
| CpuChain.ChainComputes | tools/86sim/machos.h:341-367 | a chain over n words computes the n-word sum or difference with CF the carry or borrow out, for every n |
| CpuChain.HalfCarry | tools/86sim/machos.h:341-343 | on packed digits AF is the carry or borrow between the digits |
| CpuChain.DecimalStep | tools/86sim/86sim.cc:115-130 | one byte with its DAA or DAS: digits in, digits out, CF the decimal carry or borrow |
| CpuChain.DecimalChainComputes | tools/86sim/86sim.cc:115-130 | a chain over n bytes of digits computes the decimal sum or difference with CF the decimal carry or borrow, for every n |
| CpuShift.LeftByCount | tools/86sim/86sim.cc:386-406 | ROL and RCL by any count turn operand (and CF) by the count modulo their length |
| CpuShift.RightByCount | tools/86sim/86sim.cc:395-413 | ROR and RCR turn them the other way |
| CpuShift.ThereAndBack | tools/86sim/86sim.cc:386-442 | ROL then ROR, and RCL then RCR, by the same count restore the operand, and CF with RCL |
| CpuShift.ShlMultiplies | tools/86sim/86sim.cc:414-420 | SHL by n multiplies by 2^n modulo the operand's size; CF is the last bit that left it |
| CpuShift.ShrDivides | tools/86sim/86sim.cc:421-427 | SHR by n divides by 2^n; CF is the last bit lost |
| CpuShift.SarDivides | tools/86sim/86sim.cc:428-438 | SAR by n divides the signed operand by 2^n rounding down; CF is the last bit lost |
| CpuAlu.Alu.DoALUOperation | tools/86sim/machos.h:360-372 | data and flags after ADD, ADC, SUB and SBB are those of the specification |
| CpuAlu.Alu.DecimalAdjust | tools/86sim/86sim.cc:115-130 | AL and flags after DAA and DAS are those of the specification |
| CpuAlu.Alu.Div | tools/86sim/machos.h:251-279 | data and remainder are those of the specification |
| CpuAlu.Alu.IdivByte | tools/86sim/86sim.cc:571-593 | registers and overflow are those of the specification |
| CpuAlu.Alu.IdivWord | tools/86sim/86sim.cc:594-607 | registers and overflow are those of the specification |
| CpuAlu.Alu.ImulByte | tools/86sim/86sim.cc:531-550 | AX is that of the specification |
| CpuAlu.Alu.ImulWord | tools/86sim/86sim.cc:551-566 | DX and AX are those of the specification |
| CpuAlu.Alu.ShiftLoop | tools/86sim/86sim.cc:380-444 | data and flags after the loop are those of the specification repeated count times |
| DdbParse.ParseShow | tools/ddb/db_expr.c:52-378 | an expression written for a precedence level is read back at that level with its value, whatever follows |
| DdbParse.Evaluates | tools/ddb/db_expr.c:380-384 | a whole expression, operators of a level to the left, gives the value of its tree, and the token after it is left unread |
| DdbParse.PrefixedFactorFails | tools/ddb/db_expr.c:164-207 | a prefix operator after a multiplicative one is an error |
| DdbOperators.ApplyMeans | tools/ddb/db_expr.c:164-378 | each of the 21 binary operators has exactly the result that is meant in plain integers and bits, or is an error where there is none |
| DdbOperators.PrefixMeans | tools/ddb/db_expr.c:116-162 | so have the four prefix operators |
| DdbOperators.TypedPair | tools/ddb/db_expr.c:164-378 | for any two binary operators on a line the one of the tighter class goes first, else the left one, and the value is what the two mean |
| DdbOperators.TypedPrefix | tools/ddb/db_expr.c:116-162 | a prefix operator is applied before a binary one |
| DdbOperators.TypedDifference | tools/ddb/db_expr.c:227-232 | x-y-z is the difference from the left |
| DdbOperators.MinusUndoesPlus | tools/ddb/db_expr.c:227-232 | what is added can be taken away again |
| DdbOperators.QuotientAndRemainder | tools/ddb/db_expr.c:192-200 | a = q*b + r with r smaller than b and of the sign of a |
| DdbOperators.HashRoundsUpIff | tools/ddb/db_expr.c:200-200 | # gives the least multiple not below a if and only if a is above -b or one more than a multiple |
| DdbOperators.HashGoesTooFar | tools/ddb/db_expr.c:200-200 | -5#4 is 0 |
| DdbForms.DigitsAre | tools/ddb/db_lex.c:201-217 | the digits of the three radices and their values |
| DdbForms.PrefixedForms | tools/ddb/db_lex.c:176-196 | 0o, 0t and 0x, in either case, give the radix |
| DdbForms.PlainForms | tools/ddb/db_lex.c:176-196 | other numbers are in the current radix, with or without a leading zero |
| DdbForms.PlainNames | tools/ddb/db_lex.c:230-270 | which characters stand for themselves in a name |
| DdbForms.LongNameIsError | tools/ddb/db_lex.c:258-262 | a name of 120 characters or more is an error |
| DdbForms.JunkEndsLine | tools/ddb/db_lex.c:340-349 | a character that starts no token ends the line |
| DdbForms.NamesMean | tools/ddb/db_expr.c:52-100 | a symbol or variable has the value it is given, and none is an error |
| DdbForms.UnclosedIsError | tools/ddb/db_expr.c:100-114 | parentheses that are not closed are an error |
| DdbLine.TokenReadsIff | tools/ddb/db_lex.c:164-349 | a token, in any form it can be written, is read as itself if and only if the character after it does not go on with it |
| DdbLine.DigitsRead | tools/ddb/db_lex.c:201-217 | digits in any radix are read as the number they stand for modulo 2^32 |
| DdbLine.LineReads | tools/ddb/db_lex.c:164-349 | tokens with any blanks, or none where the next does not go on with the last, are read back, whatever follows |
| DdbLine.SpacedIsWell | tools/ddb/db_lex.c:164-349 | every sequence of tokens can be written so, right in every radix |
| DdbLine.LineEvaluates | tools/ddb/db_expr.c:52-384 | from characters to value: a line beginning with an expression, however its tokens are written and spaced, evaluates to the tree's value in any radix, and leaves the rest |
| DdbLine.ExpressionHasALine | tools/ddb/db_expr.c:52-384 | every expression whose names fit can be written on a line and has its value there |
| DdbLine.TypedTogether | tools/ddb/db_expr.c:164-278 | typed without blanks, x+y*z is x plus the product, for numbers in any form |
| DdbReader.Lexer.ReadChar | tools/ddb/db_lex.c:105-119 | the next character of the line, or the one put back |
| DdbReader.Lexer.UnreadChar | tools/ddb/db_lex.c:121-126 | puts a character back into a place that is free |
| DdbReader.Lexer.NextToken | tools/ddb/db_lex.c:164-349 | the token, its number or name, and the characters left are those of the specification |
| DdbEval.Evaluator.ReadToken | tools/ddb/db_lex.c:137-149 | the next token, or the one put back, whose place is then free |
| DdbEval.Evaluator.UnreadToken | tools/ddb/db_lex.c:130-135 | puts a token back; the one place for it must be free, which every caller is proved to ensure |
| DdbEval.Evaluator.DoTerm | tools/ddb/db_expr.c:52-114 | answer, value and tokens left are those of the specification; false means that nothing was taken |
| DdbEval.Evaluator.DoUnary | tools/ddb/db_expr.c:116-162 | the same for prefix operators |
| DdbEval.Evaluator.DoLevel | tools/ddb/db_expr.c:164-378 | the same for the six levels of binary operators |
| DdbEval.Evaluator.DoLoop | tools/ddb/db_expr.c:164-378 | the loop over the operators of a level accumulates to the left as specified |
| DdbEval.Evaluator.Expression | tools/ddb/db_expr.c:380-384 | the mutually recursive evaluator over the lexer computes the specification on any line |
| Base85Laws.GroupDecodes | contrib/atob/atob.c:29-65 | a group written for a word is decoded to its four bytes |
| Base85Laws.BodyDecodes | contrib/atob/atob.c:110-121 | all groups are decoded, whatever follows |
| Base85Laws.UnwrapDecodes | contrib/atob/atob.c:110-113 | line breaks make no difference to the decoder |
| Base85Laws.WrappedLayout | contrib/atob/btoa.c:74-82 | a line break comes after every 78th character and nowhere else |
| Base85Laws.FieldsScan | contrib/atob/atob.c:122-124 | the numbers of the trailer are read back as they were printed |
| Base85Laws.LineSkipped | contrib/atob/atob.c:100-108 | a line before the header is skipped |
| Base85Laws.RoundTrip | contrib/atob/atob.c:100-136 | atob of btoa is the input, for every input shorter than 2^31 bytes; all three checksums and both lengths agree |
| Base85Checks.EorIs | contrib/atob/btoa.c:30-35 | a bit of the first checksum is set when an odd number of bytes have it |
| Base85Checks.SumIs | contrib/atob/btoa.c:33-33 | the second is the sum of the bytes and their number |
| Base85Checks.RotationIs | contrib/atob/btoa.c:34-41 | the third is turned left by one bit before a byte is added |
| Base85Checks.WrongByteRefused | contrib/atob/atob.c:122-128 | a text whose body stands for a file that differs in one byte from that of the trailer is refused |
| Base85Checks.TrailerLayout | contrib/atob/btoa.c:101-101 | the trailer is the count in decimal and hexadecimal and the three checksums |
| Base85Checks.TextLayout | contrib/atob/btoa.c:84-102 | header line, body in lines, trailer |
| Base85Checks.RefusedIff | contrib/atob/atob.c:29-65 | a character is refused exactly when it is no digit, or a z within a group |
| Base85Checks.CountDecides | contrib/atob/atob.c:129-136 | what is written is as long as the count says, cut short or followed by bytes of 255 |
| Base85Code.Encoder.WordOut | contrib/atob/btoa.c:55-72 | the characters put out are the group of the word |
| Base85Code.Encoder.Encode | contrib/atob/btoa.c:30-53 | a byte is added to those encoded, though the word is never cleared; the checksums follow |
| Base85Code.EncodeFile | contrib/atob/btoa.c:84-102 | the program's output is the specified text |
| Base85Code.Reader.Decode | contrib/atob/atob.c:29-65 | one character does to the variables what the specification says, or is refused |
| Base85Code.DecodeFile | contrib/atob/atob.c:85-136 | the program's output, or its refusal, is that specified for any text |
| Ar.HeaderBack | v7-usr/include/ar.h:1-9 | a header is read back as it was written |
| Ar.ParseBack | src/cmd/ar.c:515-544 | the bytes of any list of members are even and parse back to it |
| ArLists.MatchedIff | src/cmd/ar.c:565-579 | a member is matched if and only if fewer members of its name come before it than there are arguments of that name |
| ArLists.MovedIsPermutation | src/cmd/ar.c:244-268 | m permutes the members, headers and bodies unchanged |
| ArLists.ChosenInOrder | src/cmd/ar.c:244-268 | the members moved, and those left, keep their orders |
| ArLists.DeletedCounts | src/cmd/ar.c:182-198 | d removes as many first members of a name as there are arguments of that name |
| ArReplace.DeletedIsPicked | src/cmd/ar.c:182-198 | d leaves exactly the members before which as many of their name come as there are arguments of that name, or more, in order |
| ArReplace.MovedIsPicked | src/cmd/ar.c:244-268 | m puts the others, those it takes in order, and the rest one after another around the position |
| ArReplace.SplitIs | src/cmd/ar.c:581-606 | the place is before or after the first member of the position's name, or the end |
| ArReplace.PathIs | src/cmd/ar.c:565-579 | the file tried for a member is that of its own argument: the first member of a name takes the first argument of that name, and so on |
| ArReplace.MemberAfter | src/cmd/ar.c:150-180 | every member, in its place, has the contents of its file if that is there and, with u, newer, and is as it was otherwise |
| ArReplace.NewOnes | src/cmd/ar.c:420-438 | the files of the arguments left that open follow at the position, in order, with their contents |
| ArReplace.OneFileIn | src/cmd/ar.c:150-180 | r with one file that is there leaves a member of its name with its contents, unless u keeps one that is not older, when nothing changes |
| ArLists.ChoiceKeepsName | src/cmd/ar.c:150-180 | a replaced member keeps its name |
| ArLists.UpdatedCounts | src/cmd/ar.c:150-180 | r keeps every member under its name and adds what it finds of the arguments left |
| ArLists.UpdatedHasLarger | src/cmd/ar.c:420-438 | if all files are there and their names fit, r leaves of each name as many members as there were or as many as arguments, whichever is more |
| ArLists.AgainIff | src/cmd/ar.c:479-495 | r with the same file again leaves the number of members if and only if its name fits the header |
| ArLists.SlashesStayIff | src/cmd/ar.c:622-640 | an argument with slashes at its end is opened with them if and only if no member's search came as far as it |
| ArLists.SlashOpened | src/cmd/ar.c:622-640 | without members dir/file/ is opened, with one other member dir/file |
| ArLists.MadeIsNamed | src/cmd/ar.c:479-495 | the new member has the last component of the path as name, if it fits |
| ArCode.Archiver.CopyFil | src/cmd/ar.c:515-544 | the 512-byte loop copies or skips header, body and pad as asked |
| ArCode.Archiver.GetDir | src/cmd/ar.c:546-563 | the next header, or the end, at which the first two temporary files change places |
| ArCode.Archiver.Match | src/cmd/ar.c:565-579 | the first argument naming the member is used up; arguments looked at lose their trailing slashes |
| ArCode.Archiver.BaMatch | src/cmd/ar.c:581-606 | the list is split at the place the position says, once |
| ArCode.Archiver.MoveFil | src/cmd/ar.c:479-495 | a file becomes a member of the first temporary file |
| ArCode.Archiver.Install | src/cmd/ar.c:440-473 | the temporary files, first, third and second, are the new archive |
| ArCode.Archiver.Delete | src/cmd/ar.c:182-198 | the new archive reads back as exactly the list with the members deleted; no archive, no result |
| ArCode.Archiver.Move | src/cmd/ar.c:244-268 | the new archive reads back as exactly kept prefix, moved, kept suffix around the position |
| ArCode.Archiver.Replace | src/cmd/ar.c:150-180 | the new archive, made if there was none, reads back as the list with members replaced in place and new ones at the position, up to pad bytes; after r with one file it reads back with that file's contents |
| DdbDump.SizeBack | tools/ddb/db_textdump.c:207-230 | the size in a header is read back |
| DdbDump.NameBack | tools/ddb/db_textdump.c:207-230 | the name in a header is read back |
| DdbDump.TimeBack | tools/ddb/db_textdump.c:207-230 | the time in a header is read back |
| DdbDump.ChecksumBack | tools/ddb/db_textdump.c:188-201 | the checksum in a header is the sum of its bytes with blanks in its place |
| DdbDump.FormatGiven | tools/ddb/db_textdump.c:207-230 | a header says ustar, a plain file, mode 0600 |
| DdbDump.BlocksHold | tools/ddb/db_textdump.c:315-324 | the zero-padded blocks of some data hold exactly it |
| DdbDump.UntarOne | tools/ddb/db_textdump.c:301-325 | a file is recovered from the front of a stream with exactly its bytes |
| DdbDumpCode.FileNames | tools/ddb/db_textdump.c:144-147 | the names under which the files are found |
| DdbDumpCode.Dumper.WriteBlock | tools/ddb/db_textdump.c:240-256 | nothing is written outside the area between the first 64K and the end; a block without room is dropped and no error kept |
| DdbDumpCode.Dumper.WriteNext | tools/ddb/db_textdump.c:285-293 | the block is the next below those laid so far |
| DdbDumpCode.Dumper.WriteConfig | tools/ddb/db_textdump.c:301-325 | the file of the configuration is added to the stream |
| DdbDumpCode.Dumper.WriteMessages | tools/ddb/db_textdump.c:331-384 | the file of the messages, nuls left out, is added; its header is rewritten in its own place and nothing else is touched |
| DdbDumpCode.Dumper.Finish | tools/ddb/db_textdump.c:492-497 | trailer and header give 512 times the number of blocks in the stream |
| DdbDumpCode.Capture.Write | tools/ddb/db_capture.c:202-215 | captured text is appended as far as it fits |
| DdbDumpCode.ClipTwice | tools/ddb/db_capture.c:202-215 | writing in pieces keeps the same text as writing at once |
| DdbDumpCode.ClipIs | tools/ddb/db_capture.c:202-215 | what is kept is as long a beginning as there is room for |
| DdbDumpCode.NoNulsIs | tools/ddb/db_textdump.c:345-360 | exactly the nuls are left out of the messages |
| DdbDumpCode.Capture.Resize | tools/ddb/db_capture.c:122-167 | the text is kept as far as it fits the new size |
| DdbDumpCode.Capture.ZeroPad | tools/ddb/db_capture.c:244-253 | the text is followed by zeros up to a whole block |
| DdbDumpCode.Capture.Dump | tools/ddb/db_capture.c:301-318 | the captured text becomes a file of the stream, none if it is empty |
| DdbDumpCode.DumpSys | tools/ddb/db_textdump.c:429-516 | the blocks laid are trailer, stream and header; without write error reading down from the end gives them all if and only if there was room, and then the files; on a device without faults no error is kept |
| DdbDumpCode.CompleteIff | tools/ddb/db_textdump.c:240-256 | blocks laid without an error can all be read back if and only if there was room for them |
| DdbDumpCode.TooSmall | tools/ddb/db_textdump.c:240-256 | there is a device without faults on which a dump ends without an error and cannot be read back |
| DdbDumpCode.ReadDown | tools/ddb/db_textdump.c:285-293 | with room, block k below the end of the device is block k of the dump |
| DdbDumpCode.DumpUntars | tools/ddb/db_textdump.c:474-485 | the stream is an archive of the files that FilesRead lists, each with exactly its bytes |
| DdbDumpCode.DumpedFiles | tools/ddb/db_textdump.c:429-516 | from the device to the files: trailer, header and archive read downward |
| DdbDumpCode.ReadAsWantedIff | tools/ddb/db_textdump.c:386-424 | the files read are those wanted if and only if no wanted panic or version string is empty |
| Tar.Writer.WriteTape | tools/v7tar.c:944-966 | the record is added to those given |
| Tar.Writer.FlushTape | tools/v7tar.c:982-986 | all records given are on the tape |
| Tar.Reader.ReadTape | tools/v7tar.c:906-942 | the i-th record read is the i-th on the tape, whatever the block size, also when it is found out at the first read |
| Tar.PutBlocks | tools/v7tar.c:476-492 | exactly as many records as the size asks for, holding what was read of the file |
| Tar.BlocksAre | tools/v7tar.c:476-492 | a file takes the fewest records of 512 bytes that hold it |
| Tar.PutFile | tools/v7tar.c:434-492 | header and data of one file, or the header of a link, follow |
| Tar.PutAll | tools/v7tar.c:238-291 | the entries follow one another, then an empty record |
| Tar.PassTape | tools/v7tar.c:346-359 | exactly the data records of the entry are passed, none for a link |
| Tar.ReadData | tools/v7tar.c:545-561 | the bytes written out are exactly those of the file |
| Tar.Extract | tools/v7tar.c:497-571 | every getdir finds a header; what is extracted is what the entries say |
| Tar.ThroughArchive | tools/v7tar.c:497-571 | written with any block size and read with any, files and links, wanted or not, come out as they went in |

## Left out

Weaker than the source, or under conditions:

- XmodemAsync.ReceivedIsPrefix: packets are lost, or damaged so that header or checksum shows it; resynchronising inside a packet, and damage that the one-byte checksum misses, are not modelled.
- XmodemText.TextTransfer: each packet received once, with the code of the receiver; XmodemLossyText has text over links that lose, damage and repeat.
- XmodemLossyText.TextIsDecoded: runs in which no damaged packet leaves the text flags changed; what is written otherwise is not described, except by one run.
- XmodemRounds.NeverApart: an attempt is a round, that is, no response is delayed into the next attempt; XmodemAsync has the delays.
- DdbRuns.MemoryIsOriginalOrPlanted: the program runs in virtual-8086 mode and does not write at planted addresses; breakpoints are at addresses in memory; the byte saved in a new entry is taken as 0 until it is planted.
- DdbOperators.HashRoundsUpIff: `roundup` is the macro of the C library's `sys/param.h`, which is not in this repository.
- XmodemRecovery.EightFaultsForgiven: faults are those of rounds; a response that turns into CAN ends the transfer at once and is not among them.
- DdbRuns.StopsOnEveryNthArrival: counts of at least 1 and runs without the three cases under Findings; with a count below 1 the counter goes down without stopping and wraps in the program.
- LineEditor.ReadLine: without the history keys ^P and ^N and the up and down arrows, whose index moves irregularly; ^R is included.
- CpuCopy.RepMovsCopies: upward blocks inside segment and memory; CpuStrings.RepBlock has the general case.
- CpuArith.Imul8Multiplies: the product only; CF and OF after IMUL are set in the program's own sense and are not modelled.
- CpuChain.TrueCarry: CF only; CpuFlags has the other flags.
- DdbLine.LineEvaluates: expressions whose value is defined in C, that is, without shifts by 32 or more and without dividing the least integer by -1, which are errors in the model; in names only the characters that need it are escaped.
- DdbEval.Evaluator.Expression: after a syntax error only the fact of the error is stated, not what is left of the line; symbols, `$` variables and memory are maps in a parameter, the environment, and what is not in them is an error.
- Base85Code.DecodeFile: `scanf` without signs and without `0x` prefixes, which btoa never writes.
- ArCode.Archiver.Replace: the byte that pads a new odd member is whatever was in the buffer, so the result is exact up to pads.
- Ar.HeaderBack: the layout of a machine with 16-bit ints and little-endian longs, as the 8086 has.
- ArCode.Archiver.Delete: on a well-formed archive or a file without the magic number; archives cut short or with trailing rubbish, and the phase error they cause, are not modelled.
- DdbDumpCode.DumpSys: the contents of the two kernel dump headers are a function of the length, because their format is not part of this model; the block size is 512.
- Tar.ThroughArchive: header fields are values, not octal text, and checksums hold; disk files only, so that every read gives all it can; whether a link can be made is not asked.

Not modelled:

- XMODEM: 7-bit and FTP 1 modes, ARPA escapes, logging, terminal modes, VMS device calls.
- ddb: software single-stepping, instruction counts and their printing, watchpoints, scripts, `match` and `trace` printing, symbol lookup, the disassembler.
- 86sim: all other instructions, the cycle counter, system calls, FPU escapes, ports, interrupts, the stack check.
- ar: `x`, `t`, `p` and `q`, verbose output and modes, signals, failures to create or write files.
- text dump: `dump_write` itself beyond failing at given offsets, the encryption key that is put aside, the sysctl interface of the capture buffer beyond resizing.
- tar: update mode, the directory walk, mode and time of files, backing up the tape, pipes.
- other programs of the repository: libraries, small utilities, disk interleaving, game and floating-point code.
