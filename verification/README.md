# SolidSyslog: the store-and-forward pipeline

A model of what happens to a record between `Log` and the collector, and proofs of what the library promises
about it.

- **Ring** (`RingModel`, `CircularBuffer`). A byte ring with 16-bit length framing, a wrap point and policy-driven
  eviction, refining a queue of byte strings.
- **Block store** (`BlockDevice`, `SecurityPolicy`, `RecordLayout`, `RecordStore`, `SequenceSpace`, `GapWalk`,
  `RunOrder`, `SequenceModel`, `BlockSequence`, `StoreJournal`, `FailedCalls`, `StoreSteps`, `StoreReports`,
  `BlockStore`, `TornBlock`). A log of records over numbered blocks in a circular sequence space, byte for byte: presence map,
  rotation, eviction, disposal of drained blocks, resume after a power cut or a failed call, and the freeze at the
  first device call that fails. The security policy may answer anything; every answer is logged, and the store's
  outcomes are stated in terms of it.
- **Service** (`Surroundings`, `Service`). The pass that drains the ring into a store or past it, reports the
  library's own events, and sends. The store, the sender, the policy, the switch and the other tasks answer
  anything their contracts allow.
- **In line** (`StoreSeen`, `Delivery`). The block store does what Service was promised of a store, and the ring, the
  slot and the block store one behind the other deliver first in, first out.
- **Text** (`Utf8`, `Decimal`, `EscapedText`, `Formatter`, `MessageFormatter`). The bounded formatter and the RFC
  5424 header it prints, with a reader of that header.
- **Integrity** (`Crc16`, `Crc16Layout`). The CRC-16 policy, what it detects, and records as they lie in a block
  under it.
- **Files** (`FileBlockDevice`). Blocks kept one to a file through one handle.

`Journal` is the accounting all of it is stated in: a record accepted is waiting, in order, or settled with exactly
one fate. The store's ledger and its media are tied together by `StoreJournal.Fits`, and what a power cut leaves by
`StoreJournal.CutFaithful`: the device keeps, as a ghost set, every content its media could be left with at any
point of the call in hand, a torn append and a half-written flag included.

The modulus of the sequence space, `MaxBlocks`, the block size and the security policy's two functions are
parameters; the library's own modulus is 100.

## What the code does not keep

- The ring's eviction is minimal with respect to `RecordFits`, not to free bytes (`RingModel.RoomAboveHeadUncounted`;
  `RingModel.EvictionNotMinimalInBytes` reaches such a ring by writes and reads), and refusing a record that would
  not go into the ring even empty clears the full flag (`RingModel.LatchesRememberLast`).
- The comment at `Core/Source/SolidSyslogBlockSequence.c:260-264` says the library's own rotation never leaves every
  number present. It does, at every `MaxBlocks`. A rotation that acquires the new block and is stopped before it gives
  up an old one leaves the run one longer; a power cut stops it so, and so does a device call that fails, which
  freezes the store until the next start. After n rotations on end stopped so, every number is present if and only if
  n is at least the modulus less the blocks there were (`StoreSteps.CutsFillTheSpace`, with `StoreSteps.FailedAsCut`);
  such a sequence of writes and stops exists from every run without holes (`StoreSteps.CutRunExists`); and from a run
  within its ceiling no history in which cuts and failed calls together are fewer than the modulus less `MaxBlocks`
  does it, whatever a failed call makes of the block it was for (`StoreSteps.SpanWithinStops`). With `MaxBlocks` two
  short of the modulus one failed eviction is harmless and two are not.
- A run with every number present is found in its own order if and only if it begins at zero
  (`StoreSteps.FullRoundTakenUp`). Either way the number after the write block is the read block's, so the next
  rotation disposes of the oldest block, delivered or not, without counting that as an eviction; just after it the
  sequence reports one block and nothing unsent (`BlockSequence.BlockSequence.RotateToNextBlock`).
- The comments at `Core/Source/SolidSyslogBlockSequence.c:448-451` and `:534-536` say an eviction always costs records.
  It costs one if and only if something is left unsent in the evicted block from the cursor on
  (`SequenceModel.State.EvictionCost`), and is reported either way. A block torn by a power cut may be evicted for
  nothing: its records are all sent, and the cursor stands before what is torn (`TornBlock.EvictedForNothing`).
- A hole with as many numbers as are unused, and met before them, is taken for the unused ones. A restart finds the
  run as it was left if and only if no hole beats the unused numbers in this way (`GapWalk.RunFoundIffHolesYield`,
  `RunOrder.TakenUpIffHolesYield`).
- A text sent goes out behind one byte order mark if and only if it did not begin with two
  (`MessageFormatter.OneBomUnlessTwo`).
- `EscapedString` turns a valid four-byte character met with exactly three decoded bytes left into U+FFFD where it
  otherwise ends its output (`EscapedText.EscapedReadsBack`); `BoundedString` replaces a character its bound cuts
  through byte by byte.
- A prefix longer than 121 bytes may grow as it is sanitised until the two digits of the index fall off the path
  (`FileBlockDevice.LongPrefixMayCollide`).
- Reading, or asking the size of, a block that is absent leaves it present and empty on a file device
  (`FileBlockDevice.FileBlockDevice.Read`). The store asks only after blocks it holds.

## Model

| member | source | states |
|---|---|---|
| Journal.DeliveredThenWaiting | Core/Source/SolidSyslogBlockStore.c:205-592 | What was delivered, then what waits, is what was accepted, in order, less what was lost: nothing reordered, duplicated or invented |
| Journal.InLine | Core/Source/SolidSyslog.c:455-480 | Two queues in line lose nothing between them: out of the second, waiting in it, waiting in the first is what the first accepted in order less what each lost |
| Journal.FollowsRun | Core/Source/SolidSyslogBlockStore.c:205-592 | Over a run of any length, nothing accepted is rewritten and nothing settled taken back |
| Journal.PartBalanced | Core/Source/SolidSyslogBlockStore.c:205-592 | Some of a queue's items, in order, are accounted for as all of them are |
| Delivery.InOrder | Core/Source/SolidSyslog.c:462-591 | Three queues in line lose and reorder nothing but what each accounts for |
| Delivery.LogToSender | Core/Source/SolidSyslog.c:428-724 | First in, first out, from Log to the sender through a store that keeps records: those delivered from the store, then those waiting in it, the one held and those in the ring are what the ring accepted, in order, less what it evicted, what was dropped or refused on the way and what the store lost; the sender got copies of the delivered, in order, those within the slot as themselves and longer ones cut to it, and none of the buffer's any other way |
| StoreSeen.StoreSeen.Write | Core/Source/SolidSyslogBlockStore.c:205-276 | The block store's Write does what Service was promised: kept and behind what waits, lost or not retained, at the cost of the oldest alone; what it accepted is what it found and what it kept since; a record of one byte or more is refused exactly where the store refuses it, and the policy is asked to seal that record and no other |
| StoreSeen.StoreSeen.ReadNextUnsent | Core/Source/SolidSyslogBlockStore.c:380-418 | Hands out a copy of the oldest that waits, with some of the oldest gone or not |
| StoreSeen.StoreSeen.MarkSent | Core/Source/SolidSyslogBlockStore.c:560-592 | Asked of the record just handed out, takes that one out as delivered: what it delivered is what it was asked to mark |
| StoreSeen.StoreSeen.HasUnsent | Core/Source/SolidSyslogBlockStore.c:344-347 | Says nothing is unsent only where nothing waits, and of a frozen store always |
| StoreSeen.StaysInStep | Core/Source/SolidSyslog.c:579-715 | Answering alike, the store Service was promised and the block store agree at every step on what was kept, lent and asked to be marked, as Delivery.LogToSender takes them to |
| BlockStore.BlockStore.Write | Core/Source/SolidSyslogBlockStore.c:205-276 | Valid before and after; the ledger loses only the oldest waiting records, only where EvictedUnsent is set and exactly if the evicted block has one left unsent, and gains the record exactly when it was kept; LOST exactly when the policy would not seal this record; in bytes, a record that fits behind what an open block holds goes there, with nothing refused, rotated or evicted, and one that does not fit starts the next block, or is refused exactly at the ceiling under a policy other than Oldest; the run within its ceiling and without new holes; every point a power cut can stop it at shows every record not settled; reports by run; the threshold looked at exactly where preparing and appending do; a freeze under the name of an operation of a write, with a run of blocks at most one longer left; frozen, it does nothing and answers NOT_RETAINED |
| BlockStore.BlockStore.StoreRecord | Core/Source/SolidSyslogBlockStore.c:220-276 | A record of one byte or more: kept, lost exactly if the policy would not seal it, refused without the policy being asked, or not retained by a store this call froze; where it goes is said on the bytes of the blocks |
| BlockStore.BlockStore.AppendPrepared | Core/Source/SolidSyslogBlockStore.c:242-272 | Appending behind room that was made: the policy asked for one seal, the store frozen exactly if it answers NOT_RETAINED, and else the whole account of the write from the state before room was made |
| BlockStore.BlockStore.AppendWithRoom | Core/Source/SolidSyslogBlockStore.c:242-272 | With room made: the eviction reported by run, one seal asked for, and kept, lost or frozen by what seal and device answer |
| BlockStore.BlockStore.MakeRoom | Core/Source/SolidSyslogBlockStore.c:226-247 | Leaves the state it was called in, or that state rotated; preparing for a write evicts only the oldest waiting records and says so; refused, it changes nothing; the record last read is remembered exactly where the read stays in its block; a freeze is for a dispose, a rotation or a size, and no other |
| BlockStore.BlockStore.Prepare | Core/Source/SolidSyslogBlockStore.c:229-247 | What preparing does to the ledger and to every cut, before the store decides whether to freeze |
| BlockStore.BlockStore.AppendRecord | Core/Source/SolidSyslogBlockStore.c:249-272 | The three outcomes of an append: the record behind the others in the write block and in the ledger; nothing changed, exactly if the policy would not seal; or a store frozen by the append. Never onto a block that does not end on a record |
| BlockStore.BlockStore.NoteKept | Core/Source/SolidSyslogBlockStore.c:256-263 | A record kept clears the latches of refusals and of seal failures |
| BlockStore.BlockStore.ReadNextUnsent | Core/Source/SolidSyslogBlockStore.c:380-418 | Hands back the oldest waiting record the policy opened, having settled as rejected exactly those before it, each of which the policy was asked about, once, and rejected; with nothing unsent it changes nothing, freezes nothing and asks the policy nothing; finds nothing only where nothing waits or the last verdict was withheld; terminates; one report to a run of losses, damage left behind included; every cut on the way shows what waits; a freeze is for a size, a read or a dispose |
| BlockStore.BlockStore.ReadPastLosses | Core/Source/SolidSyslogBlockStore.c:385-413 | The step-past loop ends, by blocks between read and write and then bytes left in the read block; the verdicts asked for are one per record stepped past as rejected, and one for the record it rests on; a failed read freezes the store once, under the name of the call that failed |
| BlockStore.BlockStore.EndRead | Core/Source/SolidSyslogBlockStore.c:394-413 | Where stepping past ends: a message clears the latch of losses, a failed read freezes the store, and what is handed back is what the last verdict opened |
| BlockStore.JudgedNext | Core/Source/SolidSyslogBlockStore.c:387-392 | One verdict more, on the oldest waiting record not yet rejected, or none asked |
| BlockStore.BlockStore.ReadAndStepPast | Core/Source/SolidSyslogBlockStore.c:387-392 | One turn of the loop either moves nearer the end of what there is to read, comes to rest, or meets a device failure |
| BlockStore.BlockStore.ReadCurrent | Core/Source/SolidSyslogBlockStore.c:420-445 | What a read meets at the cursor, the block size coming first; the result is the policy's verdict on that record and no other, or there was none to ask about; a size that is not to be had is a failure, not an empty block |
| BlockStore.BlockStore.StepPast | Core/Source/SolidSyslogBlockStore.c:451-478 | A rejected record, an already finished one, the end of a block left behind and damage are stepped past; a record to hand back, or with no verdict, is not |
| BlockStore.BlockStore.StepPastRejected | Core/Source/SolidSyslogBlockStore.c:531-535 | A rejected record is left unmarked behind the cursor and settled as rejected |
| BlockStore.BlockStore.StepPastCurrent | Core/Source/SolidSyslogBlockStore.c:540-547 | The cursor moves past the record, as far as its header says, writing nothing |
| BlockStore.BlockStore.ReadNextBlockIfBehind | Core/Source/SolidSyslogBlockStore.c:486-498 | A block before the write block is given up once nothing in it waits; nothing waiting is lost by it |
| BlockStore.BlockStore.AbandonRestOfReadBlock | Core/Source/SolidSyslogBlockStore.c:505-524 | Damage behind the write block costs the rest of that block and no more; in the write block it closes the block to appends |
| BlockStore.BlockStore.MarkSent | Core/Source/SolidSyslogBlockStore.c:560-592 | The record last handed back, and no other, is settled as delivered; the sequence is as it was but for that record's flag, the cursor behind it, and its block, which goes if that drained it; a cut during the mark shows that record again or not, and every other as it was; a freeze is for a size, a dispose or the mark itself |
| BlockStore.BlockStore.ReadOnAfterMark | Core/Source/SolidSyslogBlockStore.c:576-586 | The cursor goes behind the marked record, and the block is given up if that was its last, the read starting on the one behind it; a freeze is for a size or a dispose |
| BlockStore.BlockStore.ReadOn | Core/Source/SolidSyslogBlockStore.c:576-586 | A block with nothing left behind the cursor is given up, and the store works on or is frozen for a size or a dispose |
| BlockStore.BlockStore.HasUnsent | Core/Source/SolidSyslogBlockStore.c:344-347 | Says nothing is unsent only where nothing waits; a frozen store always says so |
| BlockStore.BlockStore.Freeze | Core/Source/SolidSyslogBlockStore.c:184-193 | One freeze, named |
| BlockStore.BlockStore.FreezeIfDeviceFailed | Core/Source/SolidSyslogBlockStore.c:278-288 | Freezes exactly when the sequence met a failed device, under the operation it noted |
| BlockStore.BlockStore.Initialise | Core/Source/SolidSyslogBlockStore.c:50-73 | Takes up the run the device holds: everything unsent in it waits, in block order, nothing is settled; the run is one a rotation can go on from, every number present or not, and the store usable unless every number is; frozen, with the device left alone, by the first call that fails, under the name of an operation of a start, the blocks being those there were or what the call that failed left of the run taken up; the cursor rests where the scan of its block ends, with nothing unsent before it, the write block being closed to appends exactly if it does not end on a record; the latches are clear, and a loss is reported, once, exactly if a scan met damage before anything unsent; every cut on the way shows what waits |
| BlockStore.BlockStore.ResumeFromExistingBlock | Core/Source/SolidSyslogBlockStore.c:103-119 | The resume loop ends and leaves what waits as it was; the cursor comes to rest where a scan of its block ends, with nothing unsent before it; a loss is reported exactly if a scan met damage before anything unsent; the write block is closed exactly if it does not end on a record |
| BlockStore.BlockStore.ScanAndAbandon | Core/Source/SolidSyslogBlockStore.c:105-110 | A corrupt block is given up for the one behind it, and the run gets shorter |
| BlockStore.BlockStore.ScanReadBlock | Core/Source/SolidSyslogBlockStore.c:123-150 | The cursor is left at something unsent, or where the block holds nothing more that parses |
| BlockStore.BlockStore.CheckWriteBlock | Core/Source/SolidSyslogBlockStore.c:157-182 | After a restart the write block is closed to appends exactly if it was given up or does not end on a record |
| BlockStore.Restart | Core/Source/SolidSyslogBlockStore.c:50-182 | Built on what any cut in any operation left: frozen by a failed device, or one a rotation can go on from, usable wherever a number is unused; it waits to deliver exactly what was unsent at the cut wherever the cut left a number unused and no hole that beats the unused ones, so always where the run had no holes and two numbers unused |
| BlockStore.WhatIsTakenUp | Core/Source/SolidSyslogBlockSequence.c:122-154 | What a start makes of the media a cut left, for every order the cut may have left them in |
| StoreSteps.EveryOperationFollows | Core/Source/SolidSyslogBlockStore.c:205-592 | Whatever an operation does to the ledger it never rewrites it |
| StoreSteps.TakenUpAfterCut | Core/Source/SolidSyslogBlockSequence.c:122-154 | After a cut that left a number unused and no hole that beats the unused ones the run is found in its own order and shows what was unsent: some records already rejected in the block being read, then those waiting |
| StoreSteps.AtMostOneTwice | Core/Source/SolidSyslogBlockStore.c:560-592 | Cut while a record is being marked, a restart shows that record again or not; no record delivered before it is shown again |
| StoreSteps.FullRoundTakenUp | Core/Source/SolidSyslogBlockSequence.c:260-305 | A run that fills the sequence space is found in its own order exactly if it begins at zero; either way the number after its write block is its read block |
| StoreSteps.CutsFillTheSpace | Core/Source/SolidSyslogBlockSequence.c:433-465 | After n rotations, each stopped before its disposal and eviction and taken up again, with the appends that lead to each, every number is present if and only if n is at least the modulus less the blocks there were, for every ceiling; against the comment that the library never gets there |
| StoreSteps.CutRunExists | Core/Source/SolidSyslogBlockStore.c:205-276 | Such a sequence of writes, cuts and restarts exists from every run without holes, up to the one that fills the space |
| StoreSteps.SpanWithinStops | Core/Source/SolidSyslogBlockSequence.c:433-465 | Over any run of operations, power cuts and failed calls, each of the last two with the start after it, the blocks are at most the ceiling and one more to a cut or failure, so fewer of these than the modulus less the ceiling leave a number unused and no hole |
| StoreSteps.FailedAsCut | Core/Source/SolidSyslogBlockSequence.c:25-27 | What a cut leaves between the new block and the disposals of a rotation, a call that fails there may leave as well; at the ceiling there is always a disposal to fail |
| StoreSteps.StartedAgain | Core/Source/SolidSyslogBlockSequence.c:122-154 | A start that fails before it has taken a run up leaves what the failure before it may have left |
| FailedCalls.FailedRotation | Core/Source/SolidSyslogBlockSequence.c:433-465 | Whichever call of a rotation fails, and whatever it makes of its block, a run of blocks remains that is at most one longer, without holes if there were none |
| StoreSteps.WholeRunTakenUp | Core/Source/SolidSyslogBlockSequence.c:213-230 | After a cut in a run without holes and with two numbers unused, what is taken up shows what was unsent |
| StoreSteps.CleanOverStep | Core/Source/SolidSyslogBlockStore.c:451-524 | A read that met no damage since it began still has met none after a step past a whole record or the end of a block that parses |
| StoreSteps.CeilingKept | Core/Source/SolidSyslogBlockSequence.c:433-465 | A run at or below MaxBlocks stays there, and without holes, over every operation |
| StoreSteps.RoomMade | Core/Source/SolidSyslogBlockSequence.c:370-399 | What a write that may rotate does to the ledger, the run, and every cut |
| StoreSteps.PlacedIs | Core/Source/SolidSyslogBlockSequence.c:370-405 | A record goes behind what the write block holds exactly if the block takes appends and the bytes of both are within the block size; else to the start of the next block; it is refused exactly where it does not fit, at the ceiling, under another policy than Oldest |
| StoreSteps.PlacedWithinSize | Core/Source/SolidSyslogBlockSequence.c:401-405 | So no block grows past its size but to hold a single record |
| StoreSteps.RotationLedger | Core/Source/SolidSyslogBlockSequence.c:433-465 | A rotation costs the oldest waiting records its eviction takes and nothing else, and some exactly if the evicted block has one left unsent from the cursor on |
| StoreSteps.CutsAcrossAppend | Core/Source/SolidSyslogBlockStore.c:249-259 | Cuts before and inside an append show every record not yet settled, the new one only once whole |
| StoreSteps.RecordAppended | Core/Source/SolidSyslogBlockStore.c:256-259 | An append keeps the invariant and adds one waiting record, last |
| StoreSteps.SteppedPast | Core/Source/SolidSyslogBlockStore.c:540-547 | Stepping past a record takes it, and no other, from what is pending |
| StoreSteps.LeftBehind | Core/Source/SolidSyslogBlockStore.c:486-498 | Leaving a block with nothing readable left loses nothing waiting |
| StoreSteps.GaveUp | Core/Source/SolidSyslogBlockStore.c:505-524 | Giving up the write block at damage leaves nothing waiting and the block closed |
| StoreSteps.MarkSettles | Core/Source/SolidSyslogBlockStore.c:560-592 | A mark delivers one record; every cut in and after it says so or shows it still to send |
| StoreSteps.ReadOnCuts | Core/Source/SolidSyslogBlockStore.c:486-524 | Disposals while reading on leave media that show what waits |
| StoreJournal.AppendCutFaithful | Core/Source/SolidSyslogRecordStore.c:126-146 | A cut inside an append shows every record waiting before it, and the new one only once it is whole |
| StoreJournal.MarkCutFaithful | Core/Source/SolidSyslogRecordStore.c:545-581 | A cut inside the write of a sent flag, whatever byte it leaves, shows the record still to send, or gone |
| StoreJournal.RotationCutFaithful | Core/Source/SolidSyslogBlockSequence.c:433-465 | A cut anywhere in a rotation shows what was waiting less at most what the rotation evicts |
| StoreJournal.StateCutFaithful | Core/Source/SolidSyslogBlockStore.c:205-592 | A cut between device calls shows the ledger of the state it was cut in: the records skipped are of those settled by then, and what waits is what was not |
| StoreReports.ReportedOncePerRun | Core/Source/SolidSyslogBlockStore.c:290-342 | A refusal or seal failure is reported exactly when none of its kind came since the last record kept, an eviction exactly when the write that made room before it evicted nothing; a run of the store's operations raises these by StoreReports.RunOfTurns |
| StoreReports.LatchesRemember | Core/Source/SolidSyslogBlockStore.c:242-263 | What the three latches remember of every history of writes |
| StoreReports.RunOfTurns | Core/Source/SolidSyslogBlockStore.c:290-342 | Over any run of the store's reads and writes its latches are those its writes leave, and the reports of writes among all it raised are those its writes raise, in order |
| SequenceModel.State.RotationKeeps | Core/Source/SolidSyslogBlockSequence.c:433-465 | A rotation keeps the invariant, never leaves the run both longer and over its ceiling, and loses only the oldest waiting records |
| SequenceModel.State.RotationStartsEmpty | Core/Source/SolidSyslogBlockSequence.c:516-524 | After a rotation the write block is the next number, which was not there, and empty |
| SequenceModel.State.RotationGivesUp | Core/Source/SolidSyslogBlockSequence.c:433-465 | A rotation gives up a block read to its end, and then one more exactly if the numbers from the oldest left to the new one are more than the ceiling |
| SequenceModel.State.AfterMarkIs | Core/Source/SolidSyslogBlockSequence.c:695-712 | A mark writes 0x00 over one byte; a block marked to its end and no longer written goes, and otherwise the cursor is behind the mark |
| SequenceModel.State.UsedBytes | Core/Source/SolidSyslogBlockSequence.c:750-770 | The bytes in use are the block size for each number the run spans but the last, and what the last holds; a refusal is counted as a full store |
| SequenceModel.State.EvictionCost | Core/Source/SolidSyslogBlockSequence.c:446-464 | An eviction costs a record if and only if one is left unsent in the block from the cursor on, against the comment that it always does |
| TornBlock.EvictedForNothing | Core/Source/SolidSyslogBlockSequence.c:532-556 | From every append cut short, over a restart, two writes and a mark, an eviction that costs nothing |
| SequenceModel.State.RotatedCore | Core/Source/SolidSyslogBlockSequence.c:433-465 | The next number is of no block in the run: acquiring it disposes of none |
| SequenceModel.State.RotatedPending | Core/Source/SolidSyslogBlockSequence.c:516-524 | A new write block changes nothing that waits |
| SequenceModel.State.LeftPending | Core/Source/SolidSyslogBlockSequence.c:671-693 | Leaving the oldest block loses what the cursor had yet to reach in it and nothing else |
| SequenceModel.State.SteppedKeeps | Core/Source/SolidSyslogBlockStore.c:540-547 | Stepping moves one record from what is pending to what was skipped |
| SequenceModel.State.FlaggedKeeps | Core/Source/SolidSyslogRecordStore.c:568-581 | Writing one flag byte takes out one record or none, and leaves every boundary where it was |
| SequenceModel.State.MarkedKeeps | Core/Source/SolidSyslogRecordStore.c:545-566 | A marked record is the oldest pending, and the only one gone |
| SequenceModel.State.AppendedKeeps | Core/Source/SolidSyslogRecordStore.c:126-146 | An append adds its record last |
| SequenceModel.State.MediaIsSkippedThenPending | Core/Source/SolidSyslogBlockStore.c:101-119 | What the media holds unsent is what was skipped, then what is pending |
| SequenceModel.State.SettledCore | Core/Source/SolidSyslogBlockSequence.c:695-712 | Disposing of a drained block loses nothing |
| SequenceModel.State.RotationMovesRead | Core/Source/SolidSyslogBlockSequence.c:441-465 | The read moves exactly when a block was left behind it |
| SequenceModel.State.OneBlockIffAtWrite | Core/Source/SolidSyslogBlockSequence.c:651-654 | The read is at the write block exactly when the run is one block |
| BlockSequence.BlockSequence.constructor | Core/Source/SolidSyslogBlockSequence.c:60-93 | MaxBlocks as given between two and two short of the modulus, the nearer of these outside them |
| BlockSequence.BlockSequence.Open | Core/Source/SolidSyslogBlockSequence.c:122-154 | Takes up the present run unchanged, or starts one empty block; one look at the threshold wherever it ends ready; a device that fails is noted and left alone, with the blocks as they were, or nothing said of the one it was to acquire |
| BlockSequence.BlockSequence.ScanForExistingBlocks | Core/Source/SolidSyslogBlockSequence.c:213-230 | The presence map agrees with the device and the run is all it holds, oldest to newest either side of the largest gap |
| BlockSequence.BlockSequence.ScanForBlockPresence | Core/Source/SolidSyslogBlockSequence.c:243-258 | The map is the device, and the last present number is found, or -1 for none |
| BlockSequence.BlockSequence.PrepareForWrite | Core/Source/SolidSyslogBlockSequence.c:370-399 | Refuses exactly when the block is full, the run at its ceiling and the policy not Oldest; else rotates exactly when the block is full; says whether the read moved, and that it evicted exactly when it did; looks at the threshold ahead of a refusal, and where rotating does; goes for a run with every number present as well |
| BlockSequence.BlockSequence.RotateToNextBlock | Core/Source/SolidSyslogBlockSequence.c:433-465 | One new write block, the read block gone if drained, then at most one eviction; the cut with the new block there and nothing yet given up is among its cuts; the looks at the threshold these take; over a run with every number present the oldest block goes unannounced and one block, with nothing unsent, is what the sequence says it has; a failure is a dispose's, a rotation's or a size's, and the blocks are then as before that call, but for the one it was for |
| BlockSequence.BlockSequence.GiveUpOld | Core/Source/SolidSyslogBlockSequence.c:441-465 | The read block goes if it was drained, then the oldest if the run is still over its ceiling; a run of one block is left alone; a call that fails leaves the blocks as they were before it, but for the one it was for |
| BlockSequence.RotationIs | Core/Source/SolidSyslogBlockSequence.c:433-465 | The rotation's three steps, its cuts, its eviction and whether the read moves, each as the run makes it |
| BlockSequence.BlockSequence.AcquireEmptyBlock | Core/Source/SolidSyslogBlockSequence.c:476-501 | Whatever the number held is disposed of first, so an acquired block is empty; a failure is noted as a dispose's or as the operation it was acquired for |
| BlockSequence.BlockSequence.AdvanceWriteToNewBlock | Core/Source/SolidSyslogBlockSequence.c:516-524 | The write moves to a new, empty block the map and the run take in; failing is a rotation's failure, or a dispose's |
| BlockSequence.BlockSequence.EvictIfOverCeiling | Core/Source/SolidSyslogBlockSequence.c:453-464 | Evicts exactly when over the ceiling, one block, and sets EvictedUnsent exactly then, whether or not that costs a record |
| BlockSequence.BlockSequence.DiscardOldestBlock | Core/Source/SolidSyslogBlockSequence.c:534-556 | The oldest block gone and the read on the next present |
| BlockSequence.BlockSequence.NextPresentSequence | Core/Source/SolidSyslogBlockSequence.c:561-574 | Steps over holes to the first present number beyond, and ends |
| BlockSequence.BlockSequence.ReadBlockSize | Core/Source/SolidSyslogBlockSequence.c:624-649 | The size is the device's own, cached or not; a cached one is not asked for again; unknown, the device has failed |
| BlockSequence.BlockSequence.LeaveReadBlock | Core/Source/SolidSyslogBlockSequence.c:666-669 | The read leaves a block behind the write, which is disposed of |
| BlockSequence.BlockSequence.DisposeReadBlock | Core/Source/SolidSyslogBlockSequence.c:671-693 | A disposed read block leaves the run, the map and the cache; one look at the threshold, which re-arms below it |
| BlockSequence.BlockSequence.DisposeReadBlockIfDrained | Core/Source/SolidSyslogBlockSequence.c:695-712 | Disposes exactly when behind the write and read to its end |
| BlockSequence.BlockSequence.NoteRecordWritten | Core/Source/SolidSyslogBlockSequence.c:592-597 | The write position keeps up with the block, a write ends being at capacity, and one look at the threshold is taken of the bytes then in use |
| BlockSequence.BlockSequence.NotifyThresholdCrossed | Core/Source/SolidSyslogBlockSequence.c:323-348 | One look at the bytes in use; notified exactly where they are at the threshold or past it and the look before was not |
| BlockSequence.Watch.SawMore | Core/Source/SolidSyslogBlockSequence.c:323-348 | Looks in a row add up: notified at each rise from below the threshold, across operations |
| BlockSequence.BlockSequence.NoteDeviceFailure | Core/Source/SolidSyslogBlockSequence.c:169-186 | Only the first failure is named |
| BlockSequence.BlockSequence.DisposeBlock | Core/Source/SolidSyslogBlockSequence.c:504-514 | The map follows the device |
| BlockSequence.BlockSequence.AcquireBlock | Core/Source/SolidSyslogBlockSequence.c:157-167 | The map follows the device |
| GapWalk.LocateRunBoundaries | Core/Source/SolidSyslogBlockSequence.c:265-305 | For every modulus and map, the walk finds the first of the largest gaps counted from just after where it starts |
| GapWalk.RunFoundIffHolesYield | Core/Source/SolidSyslogBlockSequence.c:203-212 | The walk returns exactly the run's ends if and only if no hole has more numbers than are unused, or as many and is met first |
| RunOrder.ContiguousRunTakenUp | Core/Source/SolidSyslogBlockSequence.c:213-230 | A run without holes and short of the sequence space is taken up exactly as it was left, wherever the walk starts |
| RunOrder.TakenUpIffHolesYield | Core/Source/SolidSyslogBlockSequence.c:213-230 | A run with a number unused is taken up exactly as it was left if and only if no hole beats the unused numbers |
| RunOrder.LocatedIsRun | Core/Source/SolidSyslogBlockSequence.c:300-304 | What the walk locates takes in every present block, holes and all |
| RunOrder.OrderUnique | Core/Source/SolidSyslogBlockSequence.c:561-574 | Two orders of the same numbers from the same first are one: blocks around a hole keep their order |
| BlockSequence.SecondIsNext | Core/Source/SolidSyslogBlockSequence.c:561-574 | The first present number beyond the oldest is the next of the run |
| RecordLayout.Layout.AppendedReadsBack | Core/Source/SolidSyslogRecordStore.c:126-173 | What is appended to a block that ends on a record reads back as its message, last |
| RecordLayout.Layout.WholeIffRecord | Core/Source/SolidSyslogRecordStore.c:446-463 | Bytes read as a whole record if and only if they begin with the two magic bytes, a length of 1 to the largest message, that many bytes, a trailer and any flag; it is finished with exactly if that flag is 0x00 or 0x0F |
| RecordLayout.Layout.SealedIsRecord | Core/Source/SolidSyslogRecordStore.c:150-165 | What is written is such a record, its flag 0xFF |
| RecordLayout.Layout.TornAppendUnseen | Core/Source/SolidSyslogRecordStore.c:126-146 | An append cut short adds nothing that reads as a record and leaves the block unfit to append to |
| RecordLayout.Layout.MarkRemovesOne | Core/Source/SolidSyslogRecordStore.c:335-342 | A flag byte takes out its own record only at its two exact values |
| RecordLayout.Layout.SplitAtBoundary | Core/Source/SolidSyslogRecordStore.c:617-635 | A block reads the same whole or from any record boundary on |
| RecordLayout.Layout.NextBoundary | Core/Source/SolidSyslogRecordStore.c:716-723 | The record at a boundary ends at the next |
| RecordStore.RecordStore.Append | Core/Source/SolidSyslogRecordStore.c:126-146 | The policy is asked once, to seal this record; SEAL_FAILED exactly if it would not, with nothing written; else the sealed record is in the block, or the append failed |
| RecordStore.RecordStore.OpenRecord | Core/Source/SolidSyslogRecordStore.c:476-505 | Opened, rejected and no verdict become succeeded, rejected and could-not-open, one for one |
| SecurityPolicy.SecurityPolicy.SealRecord | Core/Interface/SolidSyslogSecurityPolicyDefinition.h:43-75 | The policy contract: seals or will not, and which is on record |
| SecurityPolicy.SecurityPolicy.OpenRecord | Core/Interface/SolidSyslogSecurityPolicyDefinition.h:43-75 | The policy contract: opens, rejects or withholds a verdict, and which, of what message, is on record |
| RecordStore.RecordStore.ReadRecordExtent | Core/Source/SolidSyslogRecordStore.c:345-365 | A record is whole within the data, corrupt, or past the end, exactly as the layout says; data that end before a header does are corrupt, and not a device failure; on a healthy device bytes whose first is not 0xA5 or whose second is not 0x5A are corrupt |
| RecordStore.RecordStore.ReadAndValidateRecord | Core/Source/SolidSyslogRecordStore.c:283-330 | The policy is asked only of a record that is whole and not marked, once; succeeded, rejected or could-not-open exactly as it opened, rejected or withheld; the message is the layout's |
| RecordStore.RecordStore.Read | Core/Source/SolidSyslogRecordStore.c:201-230 | The result is the policy's verdict where it was asked; the copy is the message cut to the room for it; the record is remembered exactly when its extent is known |
| RecordStore.RecordStore.MarkLastReadAsSent | Core/Source/SolidSyslogRecordStore.c:545-566 | One byte of the remembered record is written, and the cursor goes past it |
| RecordStore.RecordStore.FindFirstUnsent | Core/Source/SolidSyslogRecordStore.c:617-635 | Passes none but sent records; ends at an unsent one, or where the data give out, parsed or not |
| RecordStore.RecordStore.AdvancePastSentRecord | Core/Source/SolidSyslogRecordStore.c:637-688 | Advances past a finished record and no other |
| RecordStore.RecordStore.ReadFinishedWith | Core/Source/SolidSyslogRecordStore.c:693-714 | The flag alone says whether a record is finished with |
| RecordStore.RecordStore.ScanToEnd | Core/Source/SolidSyslogRecordStore.c:730-758 | Clean exactly when nothing but whole records follows a boundary |
| BlockDevice.BlockDevice.Append | Core/Interface/SolidSyslogBlockDevice.h:47-55 | The device contract: stored whole, or failed with nothing said of that block; a cut leaves any prefix |
| BlockDevice.BlockDevice.WriteAt | Core/Interface/SolidSyslogBlockDevice.h:57-67 | The device contract: one byte in place; a cut leaves any value |
| RingModel.WriteRefinesQueue | Core/Source/SolidSyslogCircularBuffer.c:244-274 | Counted in bytes held: a write appends exactly if its frame fits behind them or before the head; else it drops the shortest head prefix with which it does, or is refused exactly where the policy is not Oldest or the ring is too small for it |
| RingModel.EvictsFewest | Core/Source/SolidSyslogCircularBuffer.c:295-301 | No shorter prefix dropped would have made room, and none is dropped exactly if there was room |
| RingModel.Ring.FitsIffRoom | Core/Source/SolidSyslogCircularBuffer.c:411-428 | RecordFits is true exactly if as many bytes lie between the frames and the end of the ring, or fewer than lie before the head, of an unwrapped ring; and of a wrapped one fewer than between the frames and the head |
| RingModel.Ring.PlaceGoesBehind | Core/Source/SolidSyslogCircularBuffer.c:437-449 | A frame goes behind the frames held wherever that has room, and wraps only where it has not |
| RingModel.RoomAboveHeadUncounted | Core/Source/SolidSyslogCircularBuffer.c:411-428 | RecordFits overlooks room exactly where the ring is still wrapped with its head on the wrap point and the space above it would do |
| RingModel.EvictionNotMinimalInBytes | Core/Source/SolidSyslogCircularBuffer.c:411-428 | Writes and reads from an empty ring reach one that has the free bytes for a record, and would take it but for where the head stands, and turns it away |
| RingModel.Ring.FramesWithinCapacity | Core/Source/SolidSyslogCircularBuffer.c:443-449 | Framed bytes never exceed capacity |
| RingModel.Ring.TakeIsDequeue | Core/Source/SolidSyslogCircularBuffer.c:140-220 | Reading takes the oldest record |
| RingModel.Ring.PlaceIsEnqueue | Core/Source/SolidSyslogCircularBuffer.c:437-449 | Placing adds the newest, wrapped or not |
| RingModel.Ring.DropIsDequeue | Core/Source/SolidSyslogCircularBuffer.c:304-315 | Dropping the head takes the oldest record |
| RingModel.LatchesRememberLast | Core/Source/SolidSyslogCircularBuffer.c:319-355 | The latches and the full flag after any history of writes; refusing a record larger than the ring clears the flag |
| RingModel.ReportedOncePerRun | Core/Source/SolidSyslogCircularBuffer.c:319-379 | A refusal or an eviction is reported at the first write of each maximal run of its kind |
| RingModel.HandlerEnteredAtMostTwice | Core/Source/SolidSyslogCircularBuffer.c:222-238 | A handler that writes one record back on every report is entered at most twice |
| CircularBuffer.CircularBuffer.Read | Core/Source/SolidSyslogCircularBuffer.c:140-177 | Returns exactly the oldest record's bytes and removes it, or nothing where it is too large for the reader, reported once; a read that finds the ring empty is on record as such |
| CircularBuffer.CircularBuffer.Write | Core/Source/SolidSyslogCircularBuffer.c:222-238 | The bytes of the ring are the frames of the queue after it, which is the model's; the report is the run's |
| CircularBuffer.CircularBuffer.StoreApplyingPolicy | Core/Source/SolidSyslogCircularBuffer.c:244-274 | Evicts only under Oldest and only for a record an empty ring could hold |
| CircularBuffer.CircularBuffer.EvictUntilRecordFits | Core/Source/SolidSyslogCircularBuffer.c:295-301 | The eviction loop ends with room |
| CircularBuffer.CircularBuffer.DropHead | Core/Source/SolidSyslogCircularBuffer.c:304-315 | The head record is dropped, wrap marker and all |
| CircularBuffer.CircularBuffer.PlaceRecord | Core/Source/SolidSyslogCircularBuffer.c:437-449 | The frame goes at the tail, wrapped first where only the start has room, over no stored byte |
| CircularBuffer.CircularBuffer.StoreRecord | Core/Source/SolidSyslogCircularBuffer.c:443-449 | Length and bytes at the tail and no byte elsewhere |
| CircularBuffer.JournalAfterWriteBalanced | Core/Source/SolidSyslogCircularBuffer.c:222-355 | A write loses none but the oldest and accounts for each |
| Service.Logger.Service | Core/Source/SolidSyslog.c:379-407 | Nothing moves from a halt on, in the pass that halts and in every pass while the halt stands: from the moment LOGGER_HALTED is raised the store is offered nothing, read and asked to mark nothing, the sender is sent nothing, the buffer is not read and no event is looked for or taken; a halt that stands asks the policy, once, and nothing else; one event of that kind raised, and one call of OnHalt, to each change from running to halted, and none else; each event taken from the table is in the ledger of reports; unless halted, the store is read once in a pass that ends with no record held; HALTED, BLOCKED and READY each exactly when their conditions hold; IDLE only with no record held, the buffer found empty in this pass, nothing unsent and no event waiting but one turned down; among obliging surroundings each pass lightens what is on its way |
| Service.Logger.ServiceUntilIdle | Core/Source/SolidSyslog.c:428-453 | Among obliging surroundings Service comes to rest in at most one pass more than there were records and events on their way |
| Service.Logger.SentThenHeldThenBuffered | Core/Source/SolidSyslog.c:462-550 | Past a store without retention: the records sent, then the one held, then the buffer's are those the buffer accepted in order less those evicted and those dropped, which DropsReported accounts for |
| Service.Logger.EventInOnePlace | Core/Source/SolidSyslog.c:620-672 | Each event ever taken from the table is in one place: held as its own report, or kept or sent as that report; none is dropped, and nothing was reported that was not taken |
| Service.Logger.DropsReported | Core/Source/SolidSyslog.c:511-556 | The events of kind BUFFER_RECORDS_LOST the logger has raised are as many as the runs of records dropped one behind another, so at least one to any drop |
| Service.Logger.ProcessMessages | Core/Source/SolidSyslog.c:428-453 | The status of a pass, each exactly: HALTED if the logger is; else BLOCKED with a record held, or if sending from the store was blocked and nothing was taken from the buffer; else READY if something was taken, the store has something unsent or an event waits that was not turned down; else IDLE. After a halt nothing moves |
| Service.Logger.PassStatus | Core/Source/SolidSyslog.c:428-453 | The status and what is asked to find it: the store only where nothing was taken, an event only where the store has nothing |
| Service.Logger.KeptInLedger | Core/Source/SolidSyslog.c:552-591 | While the store keeps records, none of the buffer's goes to the sender but out of it, and what it keeps is what left the slot for it |
| Service.Logger.DrainBufferIntoStore | Core/Source/SolidSyslog.c:462-480 | Two stretches: in the first no record is taken from the buffer, in the second no event is; the second begins only once the record held from before and every event taken are settled; after a halt in either, nothing is; it says exactly whether a record was taken from the buffer |
| Service.Logger.DealWithWhatWaits | Core/Source/SolidSyslog.c:462-471 | The slot is free for the buffer only once what waited was dealt with, and every kind of event looked for unless one was turned down; nothing is taken from the buffer |
| Service.Logger.DrainBuffer | Core/Source/SolidSyslog.c:473-479 | The drain ends, however much other tasks still log |
| Service.Logger.DealAndHoldNext | Core/Source/SolidSyslog.c:473-477 | One turn of the drain takes a record from the buffer or ends it |
| Service.Logger.ApplyPolicyToHeldRecordIfBufferFull | Core/Source/SolidSyslog.c:490-509 | Behind a full buffer the policy is asked, once: Oldest drops the held record unless it is a report, Halt halts, and nothing else is done; the kinds raised are LOGGER_HALTED by the halt and BUFFER_RECORDS_LOST by a drop not behind another |
| Service.Logger.ApplyPolicyToHeldRecord | Core/Source/SolidSyslog.c:494-508 | The policy asked once, and its answer carried out: a drop, a halt or neither |
| Service.Logger.DropHeldRecord | Core/Source/SolidSyslog.c:513-527 | The held record is settled as dropped; BUFFER_RECORDS_LOST is raised exactly if the record settled before it was not dropped, and nothing else |
| Service.Logger.ReleaseSlot | Core/Source/SolidSyslog.c:513-546 | The slot freed, and its record in the ledger under the one fate it met |
| Service.Logger.HoldNextRecord | Core/Source/SolidSyslog.c:531-537 | The slot takes the buffer's oldest record, byte for byte |
| Service.Logger.ReadFromBuffer | Core/Source/SolidSyslog.c:533-534 | What the buffer hands on is what the slot holds and Service accounts for |
| Service.Logger.ReadOldest | Core/Source/SolidSyslogCircularBuffer.c:140-177 | The slot takes the oldest record or leaves the buffer as it was; with room for every record it finds nothing only in an empty buffer |
| Service.Logger.DealWithHeldRecord | Core/Source/SolidSyslog.c:541-550 | The slot is freed exactly by settling its record; one not taken was offered to store and sender, once each, and stays as it was; a buffer record dealt with ends a run of drops, a report does not |
| Service.Logger.SettleHeld | Core/Source/SolidSyslog.c:545-546 | What the store kept or the sender took enters its ledger under the fate it met, and what neither took stays held byte for byte |
| Service.Logger.SettleAndTell | Core/Source/SolidSyslog.c:545-558 | A buffer record settled ends a run of drops, and a report does not |
| Service.Logger.OfferToStore | Core/Source/SolidSyslog.c:581-582 | The held record is offered once, and kept exactly if the store says so |
| Service.Logger.SendHeldRecord | Core/Source/SolidSyslog.c:563-567 | Sent exactly if the sender accepted it, byte for byte |
| Service.Logger.StoreOrSenderTakesHeldRecord | Core/Source/SolidSyslog.c:563-567 | A record from the buffer goes to the sender only past a store that keeps nothing, and never after a halt |
| Service.Logger.StoreDealsWithHeldRecord | Core/Source/SolidSyslog.c:579-591 | A retaining store deals with a buffer record either way and with a report only by keeping it; its refusal halts exactly if the policy answers Halt |
| Service.Logger.ResumeIfPolicyChanged | Core/Source/SolidSyslog.c:411-414 | Only an answer other than Halt lifts a halt |
| Service.Logger.HaltIfPolicyHalts | Core/Source/SolidSyslog.c:597-603 | Halts, and raises LOGGER_HALTED, exactly when the policy answers Halt |
| Service.Logger.Halt | Core/Source/SolidSyslog.c:607-612 | Raises LOGGER_HALTED, that kind and once, with all that had gone by on record, and tells OnHalt once |
| Service.Logger.ReportPendingEvents | Core/Source/SolidSyslog.c:620-630 | One walk looks for every kind in the table's order, and takes each once; it ends early only at an event turned down, a report held or a halt; it leaves the slot free or says it is not |
| Service.Logger.ReportIfPending | Core/Source/SolidSyslog.c:642-659 | The switch is asked exactly of an event seen waiting; the walk stops at one turned down, which stays waiting, at a report not taken or at a halt; what was taken, and nothing else, enters the ledger, and is of this kind |
| Service.Logger.ReportOne | Core/Source/SolidSyslog.c:653-654 | At most one event of the kind taken, entered and dealt with; the walk goes on only with the slot free and no halt |
| Service.Logger.HoldPendingReport | Core/Source/SolidSyslog.c:666-672 | The event taken is the one held and entered; a take that finds nothing leaves the slot free |
| Service.Logger.FormatReport | Core/Source/SolidSyslog.c:674-689 | What the slot holds of a report is the report of the event taken |
| Service.Logger.SendOneFromStore | Core/Source/SolidSyslog.c:693-715 | A held record keeps its bytes, and the store is then not read; else it is read once, and what it gives, whole if it fits the slot, is sent once and marked exactly if the sender took it; blocked exactly if the sender did not, or the store gave nothing and says it has something unsent |
| Service.Logger.ForwardOne | Core/Source/SolidSyslog.c:699-706 | Sent and marked, or neither; a store that froze over it keeps nothing |
| Service.Logger.Forward | Core/Source/SolidSyslog.c:699-706 | The store is asked to mark a record exactly if the sender accepted it |
| Service.Logger.SendHandedOut | Core/Source/SolidSyslog.c:693-715 | What the store handed out, and no other, is asked of the sender |
| Service.Trail.EnteredHolds | Core/Source/SolidSyslog.c:541-567 | All the sender accepted and all the store kept of Service's own is in the ledgers as sent and as kept, and no more |
| Service.Trail.ForwardedHolds | Core/Source/SolidSyslog.c:693-715 | What was sent of the store's is what the store was asked to mark |
| Service.Books.EndedSound | Core/Source/SolidSyslog.c:541-591 | A record held is settled once, a report only as kept or sent, a buffer's record as sent only past a store that keeps nothing |
| Service.Books.HeldSound | Core/Source/SolidSyslog.c:531-537 | A record taken is held, and nothing taken before is forgotten |
| Service.Books.ReportedSound | Core/Source/SolidSyslog.c:666-672 | An event taken is held as its own report |
| Service.Logger.TakeNextFromStore | Core/Source/SolidSyslog.c:720-724 | With a record held the store is not read; else what is found is the oldest that waits, as much of it as the slot has room for |
| Service.Logger.IsReportWaiting | Core/Source/SolidSyslog.c:741-744 | An event keeps the loop going unless one was turned down this pass |
| Service.WriteHandsNothingOn | Core/Source/SolidSyslogCircularBuffer.c:222-238 | A write to the ring hands no record on to Service |
| Surroundings.Surroundings.AnyPending | Core/Source/SolidSyslogPendingEvents.c:143-151 | True exactly when some slot is pending |
| Surroundings.Surroundings.Take | Core/Source/SolidSyslogPendingEvents.c:153-169 | The slot's event, which is on record as taken, and the slot clear |
| Utf8.CodepointLengthIsCharLength | Core/Source/SolidSyslogFormatter.c:188-267 | The bit tests agree with the grammar of section 4 of RFC 3629 on every byte string |
| Utf8.CharsAreScalars | Core/Source/SolidSyslogFormatter.c:188-267 | That grammar has exactly the scalar values of Unicode: what is taken for a character encodes one by section 3 of RFC 3629, and every one so encoded is taken for a character |
| Utf8.OneByteReplaced | Core/Source/SolidSyslogFormatter.c:161-181 | Behind well-formed text, the first byte that starts no character becomes U+FFFD by itself |
| Utf8.CutSanitised | Core/Source/SolidSyslogFormatter.c:161-181 | Well-formed text cut anywhere comes to its longest well-formed prefix and one U+FFFD for each byte left of the character cut through |
| Utf8.SanitisedWellFormed | Core/Source/SolidSyslogFormatter.c:161-181 | Sanitised text is well formed, and is the source exactly if the source was |
| Utf8.TrimLeavesLongest | Core/Source/SolidSyslogFormatter.c:512-541 | Well-formed text cut anywhere and trimmed is its longest well-formed prefix |
| Formatter.Formatter.constructor | Core/Source/SolidSyslogFormatter.c:81-88 | Nothing written, the terminator in place where there is room for one |
| Formatter.Formatter.WriteChar | Core/Source/SolidSyslogFormatter.c:129-141 | The buffer stays the prefix of all that was written that leaves room for a terminator |
| Formatter.Formatter.BoundedString | Core/Source/SolidSyslogFormatter.c:161-181 | Appends the sanitised form of the first maxLength bytes: a character the bound cuts through becomes U+FFFD byte by byte |
| Formatter.Formatter.EscapedString | Core/Source/SolidSyslogFormatter.c:279-306 | Appends the escaped source, which reads back by `EscapedText.EscapedReadsBack`; the decoded length never passes the bound nor the remaining count zero |
| Formatter.Formatter.WriteUnit | Core/Source/SolidSyslogFormatter.c:321-403 | One step: a pair, a character, U+FFFD, or the end of the room |
| Formatter.Formatter.PrintUsAsciiString | Core/Source/SolidSyslogFormatter.c:405-438 | Each byte from 0x21 to 0x7E as it is, and a question mark for every other |
| Formatter.Formatter.AsciiCharacter | Core/Source/SolidSyslogFormatter.c:98-107 | A byte from 0x20 to 0x7E as it is, and a question mark for every other |
| Formatter.Formatter.Bom | Core/Source/SolidSyslogFormatter.c:109-116 | The byte order mark, well formed |
| Formatter.Formatter.Uint32 | Core/Source/SolidSyslogFormatter.c:440-477 | Appends the decimal digits; the divisor fits in 32 bits for every 32-bit value |
| Formatter.Formatter.CountOfDigits | Core/Source/SolidSyslogFormatter.c:460-472 | The count is that of the number's digits |
| Formatter.Formatter.TwoDigit | Core/Source/SolidSyslogFormatter.c:479-484 | The last two digits |
| Formatter.Formatter.FourDigit | Core/Source/SolidSyslogFormatter.c:486-493 | The last four digits |
| Formatter.Formatter.SixDigit | Core/Source/SolidSyslogFormatter.c:495-504 | The last six digits |
| Formatter.Formatter.AsFormattedBuffer | Core/Source/SolidSyslogFormatter.c:506-541 | The buffer holds the longest well-formed prefix of what it took, and zeros behind it, whatever the sources held and however often asked |
| Formatter.Formatter.RoomShowsAll | Core/Source/SolidSyslogFormatter.c:138-141 | With room nothing is cut: the buffer is all that was written |
| EscapedText.EscapedReadsBack | Core/Source/SolidSyslogFormatter.c:279-403 | Un-escaped by section 6.3.3 of RFC 5424 the output is the sanitised source as far as the bound lets it go, whole characters only, but that a four-byte one met with exactly three left becomes U+FFFD; none of the bytes 0x22, 0x5C and 0x5D stands unescaped; the decoded length is within the bound |
| EscapedText.GuardedEscapes | Core/Source/SolidSyslogFormatter.c:308-314 | Read from anywhere: a quote or a bracket has an odd number of backslashes before it, and a backslash with an even number before it is followed by a quote, a backslash or a bracket |
| EscapedText.UnitsOfSanitised | Core/Source/SolidSyslogFormatter.c:364-403 | The units so read are those of the sanitised source |
| EscapedText.EscapedWellFormed | Core/Source/SolidSyslogFormatter.c:279-306 | What is escaped is well formed |
| Decimal.DigitsParse | Core/Source/SolidSyslogFormatter.c:440-477 | Every number printed reads back as itself, without leading zeros |
| Decimal.FixedParses | Core/Source/SolidSyslogFormatter.c:479-504 | A fixed-width number reads back as its remainder by that power of ten |
| Decimal.SignedParses | Core/Source/SolidSyslogEventSd.c:84-97 | Every signed number printed reads back as itself |
| Decimal.WordDigits | Core/Source/SolidSyslogFormatter.c:440-449 | A 32-bit number takes at most ten digits and its divisor does not overflow |
| MessageFormatter.Format | Core/Source/SolidSyslogMessageFormatter.c:65-103 | What is printed reads back by section 6 of RFC 5424 as the fields given, then the structured data and the text |
| MessageFormatter.FormatHeader | Core/Source/SolidSyslogMessageFormatter.c:65-100 | No field is empty or holds a space; with room each is what the callback appended under the width section 6 of RFC 5424 allows it, or NILVALUE |
| MessageFormatter.HeaderReadsBack | Core/Source/SolidSyslogMessageFormatter.c:65-100 | A header is recovered field by field, whatever stands behind it |
| MessageFormatter.HeaderMeans | Core/Source/SolidSyslogMessageFormatter.c:65-100 | And the reader takes nothing else for a header: one to three digits in brackets, the version, and five fields of one or more printable bytes, a space behind each |
| MessageFormatter.PrivalComesApart | Core/Source/SolidSyslogMessageFormatter.c:112-145 | Facility by division and severity by remainder, or the pair that stands in for one out of range |
| MessageFormatter.PrivalReads | Core/Source/SolidSyslogMessageFormatter.c:105-110 | PRIVAL is recovered from its brackets |
| MessageFormatter.FieldWithinWidth | Core/Source/SolidSyslogHeaderField.c:23-53 | Over any appends a field is printable and runs past its width by at most nine digits, and not at all by text |
| MessageFormatter.FieldFilled | Core/Source/SolidSyslogHeaderField.c:23-53 | A field takes its appends in order and in full as long as they fit its width; where they do not, the width is used up, to the byte unless the last append printed is a number |
| MessageFormatter.HeaderField.PrintUsAscii | Core/Source/SolidSyslogHeaderField.c:23-30 | Text is cut to the smaller of its own bound and what is left, and what is left never underflows |
| MessageFormatter.HeaderField.Uint32 | Core/Source/SolidSyslogHeaderField.c:32-48 | Skipped once the field is full; a number that overruns leaves nothing |
| MessageFormatter.HeaderField.Run | Core/Source/SolidSyslogMessageFormatter.c:158-172 | With room, any run of appends comes to the field's text |
| MessageFormatter.FormatStringField | Core/Source/SolidSyslogMessageFormatter.c:158-178 | A field nothing was written to is NILVALUE |
| MessageFormatter.FormatMsgId | Core/Source/SolidSyslogMessageFormatter.c:180-193 | MSGID made printable and cut, NILVALUE for none |
| MessageFormatter.FormatMsg | Core/Source/SolidSyslogMessageFormatter.c:240-256 | The text behind a space and a byte order mark, sanitised; nothing for no text |
| MessageFormatter.TextWithinBound | Core/Source/SolidSyslogMessageFormatter.c:240-256 | Past the mark, text within the bound goes out whole exactly if it is well formed; well-formed text beyond it as its longest well-formed prefix within the bound, and U+FFFD for each further byte within it |
| MessageFormatter.OneBomUnlessTwo | Core/Source/SolidSyslogMessageFormatter.c:258-270 | A text that begins with one mark or none goes out behind exactly one, and only a text that begins with two goes out with two; a mark alone sends nothing |
| MessageFormatter.FormatStructuredData | Core/Source/SolidSyslogMessageFormatter.c:200-219 | What the elements print, or NILVALUE where there are none |
| MessageFormatter.PrintInt32 | Core/Source/SolidSyslogEventSd.c:84-97 | A 32-bit signed number, the least one included, printed as its sign and digits |
| Crc16.Compute | Core/Source/SolidSyslogCrc16.c:22-44 | The nested loops compute the register the polynomial division leaves |
| Crc16.CrcIsFeed | Core/Source/SolidSyslogCrc16.c:22-44 | Byte by byte or bit by bit the register is the same |
| Crc16.OneShift | Core/Source/SolidSyslogCrc16.c:31-41 | One shift is one step of division by x^16 + x^12 + x^5 + 1, bit by bit |
| Crc16.CheckValue | Tests/SolidSyslogCrc16Test.cpp:15-20 | The CRC of the ASCII digits 1 to 9 is 0x29B1, the published check value: it pins the register the policy starts from |
| Crc16.SealRecord | Core/Source/SolidSyslogCrc16Policy.c:44-54 | The trailer is the CRC, high byte first |
| Crc16.OpenRecord | Core/Source/SolidSyslogCrc16Policy.c:56-65 | Opens exactly when the trailer is the CRC of the content |
| Crc16.OpenedIffZeroRemainder | Core/Source/SolidSyslogCrc16Policy.c:56-65 | Opening is equivalent to the CRC of content and trailer being zero |
| Crc16.SealOpens | Core/Source/SolidSyslogCrc16Policy.c:44-65 | An unaltered sealed record always opens |
| Crc16.UndetectedIffNoRemainder | Core/Source/SolidSyslogCrc16Policy.c:56-65 | An altered record opens exactly if its difference leaves no remainder |
| Crc16.BurstDetected | Core/Source/SolidSyslogCrc16Policy.c:56-65 | Any error confined to sixteen consecutive bits is rejected, for every content length |
| Crc16.OddFlipsDetected | Core/Source/SolidSyslogCrc16Policy.c:56-65 | Any odd number of flipped bits is rejected, for every content length |
| Crc16.SeventeenBitsMissedIffGenerator | Core/Source/SolidSyslogCrc16Policy.c:56-65 | Of bursts of seventeen bits exactly the generator's own pattern goes undetected |
| Crc16Layout.SealedRecordOpens | Core/Source/SolidSyslogCrc16Policy.c:44-65 | A layout built on the CRC policy is one the store can be built on; a sealed record, read whole from a block, opens as its message |
| Crc16Layout.AlteredRecordRejected | Core/Source/SolidSyslogCrc16Policy.c:56-65 | A stored record of the same length altered within sixteen consecutive bits, or in an odd number of bits, is rejected |
| FileBlockDevice.NamesDistinctIffRoom | Core/Source/SolidSyslogFileBlockDevice.c:211-224 | Indices 0 to 99 have distinct filenames exactly if the prefix, as it is written, leaves room for both digits |
| FileBlockDevice.ShortPrefixHasRoom | Core/Source/SolidSyslogFileBlockDevice.c:29-38 | A well-formed prefix of at most 121 bytes leaves room, and the name is the prefix, the index in two digits and ".log" |
| FileBlockDevice.LongPrefixMayCollide | Core/Source/SolidSyslogFileBlockDevice.c:219-223 | A longer one cut through a character grows as it is sanitised, and names collide |
| FileBlockDevice.FileBlockDevice.FormatBlockFilename | Core/Source/SolidSyslogFileBlockDevice.c:211-224 | The name is the longest well-formed prefix of stem, digits and extension the path has room for |
| FileBlockDevice.FileBlockDevice.EnsureHandleOpenOnBlock | Core/Source/SolidSyslogFileBlockDevice.c:168-183 | Usable exactly if no file call failed; a handle usable before is left alone; a usable handle names the addressed block's file; re-pointing creates an absent file empty and changes nothing else |
| FileBlockDevice.FileBlockDevice.OpenHandleOnBlock | Core/Source/SolidSyslogFileBlockDevice.c:185-209 | Usable exactly if no file call failed; one that is not leaves the handle closed |
| FileBlockDevice.FileBlockDevice.Acquire | Core/Source/SolidSyslogFileBlockDevice.c:141-157 | Ready exactly if the index is at most 99 and no file call failed: the block is then empty and the others as they were |
| FileBlockDevice.FileBlockDevice.Dispose | Core/Source/SolidSyslogFileBlockDevice.c:228-244 | Disposed exactly if the index is at most 99 and no file call failed: the block is then gone and the others as they were, the handle closed first where it held it |
| FileBlockDevice.FileBlockDevice.CloseIfHoldingBlock | Core/Source/SolidSyslogFileBlockDevice.c:246-253 | The handle no longer holds the block |
| FileBlockDevice.FileBlockDevice.Exists | Core/Source/SolidSyslogFileBlockDevice.c:255-268 | Exactly whether the map holds the block |
| FileBlockDevice.FileBlockDevice.Read | Core/Source/SolidSyslogFileBlockDevice.c:271-292 | Succeeds exactly if the index is at most 99, the span within the block and no file call failed: then exactly the bytes asked for; a present block and every other unchanged; an absent block left present and empty unless a file call failed |
| FileBlockDevice.FileBlockDevice.Append | Core/Source/SolidSyslogFileBlockDevice.c:296-320 | Written exactly if the index is at most 99 and no file call failed: then at the block's current end; one that fails touches no other block |
| FileBlockDevice.FileBlockDevice.WriteAtEnd | Core/Source/SolidSyslogFileBlockDevice.c:310-320 | Behind the last byte of the file the handle is on, exactly if no file call failed |
| FileBlockDevice.FileBlockDevice.WriteAt | Core/Source/SolidSyslogFileBlockDevice.c:323-344 | Written exactly if the index is at most 99 and no file call failed: then in place; one that fails touches no other block |
| FileBlockDevice.FileBlockDevice.Size | Core/Source/SolidSyslogFileBlockDevice.c:348-365 | Known exactly if the index is at most 99 and no file call failed: the block's length |
| FileBlockDevice.File.Open | Core/Interface/SolidSyslogFileDefinition.h:24-28 | The file contract: creates an absent file empty, keeps a present one, at most one open |

## Left out

- BlockStore.BlockStore.Write: the records a cut shows are promised while no device call has failed; of a frozen store only which blocks are there, since a failed call says nothing of its block.
- BlockStore.BlockStore.Initialise: where every number is present the store is taken up ready to rotate, but its ledger is not followed past that; what the next rotation does there is `BlockSequence.BlockSequence.RotateToNextBlock`.
- BlockDevice.BlockDevice.WriteAt: one byte at a time, all that the store ever writes in place.
- MessageFormatter.FormatStructuredData: takes what the element printers leave as given, and does not run them.
- FileBlockDevice.FileBlockDevice.Read: and the other device calls are stated for prefixes whose filenames are distinct.
- Service.Logger.ServiceUntilIdle: the bound is for a sender that accepts, a store with room and a switch that is on.
- Delivery.LogToSender: the store has not frozen; once it has, records go past it and this order is not claimed.
- Threads: each locked section of the ring is one step, and other tasks run between any two steps of a pass, never inside one.
- Media that decay on their own: a block changes only by the calls made on it and by power cuts during them.
- The keyed security policies: a policy is two functions, a seal it may refuse, and a verdict on each stored record that may change from one read to the next.
- Callbacks (clock, host name, discard policy, threshold, switch, halt): arbitrary answers, and for header fields an arbitrary run of appends.
- The timestamp printer and structured data: the header takes the text they leave as given.
- The 32-bit widths of positions and sizes in a block: unbounded here; record lengths, ring frames and printed numbers keep theirs.
- The retry of a sender, datagrams, streams, TLS and resolvers: a send is accepted or not.
- Pool slots, Create and Destroy wrappers, error names and Null objects: only the Null store's answers are kept, as what a frozen store becomes.
- A call on a NULL handle and Service on a destroyed logger.
- Severity and source of an event: an event is its kind and a number that tells it from any other.
- The text of a report: any function of its event.
- GetTotalBytes and GetUsedBytes beyond their part in the threshold.
