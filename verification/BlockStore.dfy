/** The store-and-forward store: records appended to rotating blocks, read back oldest first, marked
    when sent; frozen for good by the first device call that fails. */
module BlockStore {
  import opened Bytes
  import opened BlockDevice
  import opened DiscardPolicy
  import opened RecordLayout
  import opened RecordStore
  import opened SecurityPolicy
  import opened SequenceModel
  import opened RunOrder
  import opened BlockSequence
  import opened StoreJournal
  import opened FailedCalls
  import opened StoreSteps
  import opened StoreOutcome
  import opened StoreReports
  import J = Journal

  class BlockStore {
    const device: BlockDevice
    const sequence: BlockSequence
    const records: RecordStore
    var frozen: bool
    var lossReported: bool
    var refusalReported: bool
    var evictionReported: bool
    var sealFailureReported: bool
    var reports: seq<Report>
    var freezes: seq<StoreError>

    ghost var journal: Ledger

    // The slot wired to its parts; Initialise takes up what the device holds.
    constructor (device: BlockDevice, sequence: BlockSequence, records: RecordStore)
      ensures this.device == device && this.sequence == sequence && this.records == records
      ensures !frozen && freezes == [] && reports == [] && journal == J.Journal([], [], [])
      ensures !lossReported && !refusalReported && !evictionReported && !sealFailureReported
    {
      this.device, this.sequence, this.records := device, sequence, records;
      frozen, freezes, reports := false, [], [];
      lossReported, refusalReported, evictionReported, sealFailureReported := false, false, false, false;
      journal := J.Journal([], [], []);
    }

    ghost predicate Wired() {
      sequence.device == device && sequence.lay == records.lay && records.lay.Sound()
    }

    // The record store's memory, if it has one, is of the record at the cursor.
    ghost predicate Remembered()
      reads sequence`read, sequence`cursor, sequence`write, sequence`position, sequence`writeBlockCorrupt,
            sequence`order,
            records, device`blocks
      requires Wired()
    {
      records.hasReadRecord ==>
        && sequence.Now().RecordAtCursor() && records.lastReadBlockIndex == sequence.read
        && records.lastSentFlagOffset == sequence.Now().FlagOffset()
    }

    ghost predicate Working()
      reads this`frozen, this`freezes, this`journal,
            sequence`read, sequence`cursor, sequence`write, sequence`position, sequence`writeBlockCorrupt,
            sequence`order, sequence`oldest, sequence`readBlockSizeKnown, sequence`readBlockSize,
            sequence`deviceFailed, sequence.present, records, device`blocks, device`failure, device`callsAfterFailure
    {
      && !frozen && freezes == [] && Wired()
      && sequence.Ready() && Fits(journal, sequence.Now()) && Remembered()
    }

    // Frozen once, by name, for the call that failed; the device has been left alone since.
    ghost predicate FrozenOnce()
      reads this`frozen, this`freezes, this`journal, device`failure, device`callsAfterFailure
    {
      && frozen && Wired() && journal.Balanced()
      && device.LeftAlone() && device.failure.FirstFailure?
      && |freezes| == 1 && Names(freezes[0], device.failure.call)
    }

    // And under one of these names.
    ghost predicate FrozenAs(among: set<StoreError>)
      reads this`frozen, this`freezes, this`journal, device`failure, device`callsAfterFailure
    {
      frozen && FrozenOnce() && |freezes| == 1 && freezes[0] in among
    }

    ghost predicate Valid()
      reads this`frozen, this`freezes, this`journal,
            sequence`read, sequence`cursor, sequence`write, sequence`position, sequence`writeBlockCorrupt,
            sequence`order, sequence`oldest, sequence`readBlockSizeKnown, sequence`readBlockSize,
            sequence`deviceFailed, sequence.present, records, device`blocks, device`failure, device`callsAfterFailure
    {
      Working() || FrozenOnce()
    }

    lemma WorkingIsSound()
      requires Working()
      ensures !frozen && freezes == [] && Wired() && sequence.Ready() && Valid() && journal.Balanced()
      ensures sequence.Now().Inv() && sequence.Now().Core() && Fits(journal, sequence.Now())
      ensures sequence.Now().lay == records.lay && sequence.Now().corrupt == sequence.writeBlockCorrupt
    {
      hide State.Inv;
      InvIsSound(sequence.Now());
      FitsBalanced(journal, sequence.Now());
    }

    lemma FrozenFrom(among: set<StoreError>)
      requires frozen && Wired() && journal.Balanced() && sequence.Failed(among)
      requires freezes == [sequence.failedOperation]
      ensures FrozenAs(among) && Valid()
    {
      hide journal.Balanced;
    }

    // ----- Freezing -----

    method Freeze(failedOperation: StoreError)
      modifies this`frozen, this`freezes
      ensures frozen && freezes == old(freezes) + [failedOperation]
    {
      freezes := freezes + [failedOperation];
      frozen := true;
    }

    method FreezeIfDeviceFailed() returns (failed: bool)
      modifies this`frozen, this`freezes
      ensures failed == sequence.deviceFailed
      ensures failed ==> frozen && freezes == old(freezes) + [sequence.failedOperation]
      ensures !failed ==> frozen == old(frozen) && freezes == old(freezes)
    {
      failed := sequence.deviceFailed;
      if failed {
        Freeze(sequence.failedOperation);
      }
    }

    // ----- Reports: one to a run -----

    ghost function LatchView(): Latches
      reads this`refusalReported, this`evictionReported, this`sealFailureReported
    {
      Latches(refusalReported, evictionReported, sealFailureReported)
    }

    // What a write that did not freeze the store raised, and the runs it started and ended.
    ghost predicate Raised(latches: Latches, raised: seq<Report>, w: StoreReports.Write)
      reads this`refusalReported, this`evictionReported, this`sealFailureReported, this`reports
    {
      Turned(latches, raised, Wrote(w), LatchView(), reports)
    }

    // Losses met by a read: one report if the run began there, none if it was already under way.
    ghost predicate LossesSince(reported: bool, raised: seq<Report>)
      reads this`lossReported, this`reports
    {
      LossesBetween(reported, raised, lossReported, reports)
    }

    ghost predicate LossesBetween(reported: bool, raised: seq<Report>, reportedNow: bool, raisedNow: seq<Report>) {
      && raised <= raisedNow && (forall i :: |raised| <= i < |raisedNow| ==> IsLoss(raisedNow[i]))
      && if reportedNow then |raisedNow| == |raised| + (if reported then 0 else 1)
         else !reported && raisedNow == raised
    }

    lemma LossesThrough(reported: bool, raised: seq<Report>, reportedThen: bool, raisedThen: seq<Report>)
      requires LossesBetween(reported, raised, reportedThen, raisedThen) && LossesSince(reportedThen, raisedThen)
      ensures LossesSince(reported, raised) && (reportedThen ==> lossReported)
    {
    }

    lemma LossesAre(reported: bool, raised: seq<Report>)
      requires LossesSince(reported, raised)
      ensures LossRun(reported, raised, false) && (lossReported ==> LossRun(reported, raised, true))
    {
    }

    method ReportRefusal()
      modifies this`refusalReported, this`reports
      ensures refusalReported && reports == old(reports) + if old(refusalReported) then [] else [RefusedReport]
    {
      if !refusalReported {
        reports := reports + [RefusedReport];
        refusalReported := true;
      }
    }

    method ReportEviction()
      modifies this`evictionReported, this`reports
      ensures evictionReported == sequence.evictedUnsent
      ensures reports ==
              old(reports) + if sequence.evictedUnsent && !old(evictionReported) then [EvictedReport] else []
    {
      if !sequence.evictedUnsent {
        evictionReported := false;
      } else if !evictionReported {
        reports := reports + [EvictedReport];
        evictionReported := true;
      }
    }

    method ReportSealFailed()
      modifies this`sealFailureReported, this`reports
      ensures sealFailureReported && reports == old(reports) + if old(sealFailureReported) then [] else [SealFailedReport]
    {
      if !sealFailureReported {
        reports := reports + [SealFailedReport];
        sealFailureReported := true;
      }
    }

    method ReportLoss(fault: Report)
      requires IsLoss(fault)
      modifies this`lossReported, this`reports
      ensures lossReported && reports == old(reports) + if old(lossReported) then [] else [fault]
    {
      if !lossReported {
        reports := reports + [fault];
        lossReported := true;
      }
    }

    // ----- Writing -----

    method Write(data: Record, policy: Policy) returns (result: WriteResult)
      requires Valid() && |data| <= records.lay.maxMessageSize
      modifies this, sequence, sequence.present, records, records.policy`sealings, device
      ensures Valid()
      ensures old(frozen) ==>
                && frozen && result == NotRetained && journal == old(journal) && reports == old(reports)
                && freezes == old(freezes) && device.blocks == old(device.blocks)
                && records.policy.sealings == old(records.policy.sealings)
      ensures frozen && !old(frozen) ==>
                && FrozenAs({DisposeFailed, RotateFailed, SizeFailed, AppendFailed})
                && FailureLeaves(device.blocks, old(sequence.Now()))
      ensures records.policy.sealings == old(records.policy.sealings) +
                if result == Lost then [Sealing(data, false)]
                else if result == Kept || (!old(frozen) && AppendHasFailed()) then [Sealing(data, true)]
                else []
      ensures !old(frozen) ==> Evicts(old(journal), journal, if result == Kept then [data] else [], sequence.evictedUnsent)
      ensures frozen ==> result == NotRetained
      ensures !frozen && data != [] ==>
                (result == NotRetained <==> old(sequence.Now()).Refuses(records.lay.RecordSize(|data|), policy))
      ensures !frozen && data == [] ==>
                result == NotRetained && reports == old(reports) && LatchView() == old(LatchView())
      ensures !frozen && data != [] ==>
                Raised(old(LatchView()), old(reports), StoreReports.Write(result, sequence.evictedUnsent))
      ensures !frozen && result == NotRetained ==> journal == old(journal) && device.blocks == old(device.blocks)
      ensures !frozen ==> WrittenFrom(old(sequence.Now()), old(journal))
      ensures !frozen ==>
                records.hasReadRecord == (old(records.hasReadRecord) && sequence.read == old(sequence.read))
      ensures !frozen && data != [] ==>
                Placed(old(sequence.Now()), data, policy, result == NotRetained, result == Kept, sequence.write,
                       device.blocks)
      ensures !frozen && data != [] ==> Costs(old(sequence.Now()), records.lay.RecordSize(|data|), policy, old(journal))
      ensures !frozen && data != [] ==>
                LooksTaken(old(sequence.Watched()), old(sequence.Now()), records.lay.RecordSize(|data|), policy,
                           result == Kept)
    {
      hide Fits, CutFaithful, RoomKept, Evicts, State.Core, State.Inv, State.Pending, State.Refuses, sequence.Ready;
      result := NotRetained;
      if !frozen {
        device.cuts := iset{device.blocks};
        NothingDone();
        if |data| > 0 {
          result := StoreRecord(data, policy);
        }
      }
    }

    // The run within its ceiling or no longer than it was, and every cut since showing what is not settled.
    ghost predicate WrittenFrom(start: State, before: Ledger)
      reads sequence`read, sequence`cursor, sequence`write, sequence`position, sequence`writeBlockCorrupt,
            sequence`order, sequence.device`blocks, this`journal, device`cuts
    {
      && start.Core() && sequence.Now().Core() && RoomKept(start, sequence.Now())
      && CutsFaithful(device.cuts, start, before, journal)
    }

    // The threshold was looked at where preparing does, and once more with a record written.
    ghost predicate LooksTaken(since: Watch, start: State, recordSize: nat, policy: Policy, kept: bool)
      reads sequence`read, sequence`cursor, sequence`write, sequence`position, sequence`writeBlockCorrupt,
            sequence`order, sequence.device`blocks, sequence`checks, sequence`thresholdCrossed,
            sequence`thresholdReports
    {
      && start.Core() && Span(start.order, start.modulus) < start.modulus && sequence.Now().Core()
      && since.Saw(sequence.Watched(), sequence.thresholdEnabled,
                   start.PreparedChecks(recordSize, policy) + if kept then [sequence.Now().Used()] else [])
    }

    // Records were evicted if and only if a rotation came to a block with some left to evict.
    ghost predicate Costs(start: State, recordSize: nat, policy: Policy, before: Ledger)
      reads this`journal
    {
      && start.Core() && Span(start.order, start.modulus) < start.modulus
      && (|journal.settled| > |before.settled| <==> start.Rotates(recordSize, policy) && start.EvictionCosts())
    }

    ghost predicate AppendHasFailed()
      reads this`frozen, this`freezes
    {
      frozen && |freezes| == 1 && freezes[0] == AppendFailed
    }

    lemma NothingDone()
      requires Working()
      ensures Evicts(journal, journal, [], sequence.evictedUnsent)
      ensures device.cuts == iset{device.blocks} ==> WrittenFrom(sequence.Now(), journal)
    {
      hide Fits, CutFaithful, Evicts, State.Core, State.Inv, State.Pending, sequence.Ready;
      sequence.ReadyIsSound();
      UnchangedCutFaithful(sequence.Now(), journal);
      NothingEvicted(journal, sequence.evictedUnsent);
    }

    // What a write that did not freeze the store leaves, and what it answered.
    ghost predicate Concluded(start: State, before: Ledger, since: Watch, latches: Latches, raised: seq<Report>,
                              data: Record, policy: Policy, result: WriteResult)
      reads this`journal, this`reports, this`refusalReported, this`evictionReported, this`sealFailureReported,
            sequence`read, sequence`cursor, sequence`write, sequence`position, sequence`writeBlockCorrupt,
            sequence`order, sequence`evictedUnsent, sequence.device`blocks, sequence`checks,
            sequence`thresholdCrossed, sequence`thresholdReports, device`blocks, device`cuts
    {
      && start.Core()
      && (result == NotRetained <==> start.Refuses(records.lay.RecordSize(|data|), policy))
      && Raised(latches, raised, StoreReports.Write(result, sequence.evictedUnsent))
      && (result == NotRetained ==> journal == before && device.blocks == start.blocks)
      && WrittenFrom(start, before)
      && Placed(start, data, policy, result == NotRetained, result == Kept, sequence.write, device.blocks)
      && Costs(start, records.lay.RecordSize(|data|), policy, before)
      && LooksTaken(since, start, records.lay.RecordSize(|data|), policy, result == Kept)
    }

    // What preparing has done by the time there is room, or none.
    ghost predicate RoomSince(start: State, before: Ledger, since: Watch, recordSize: nat, policy: Policy, prepared: bool)
      reads this`journal, sequence`read, sequence`cursor, sequence`write, sequence`position,
            sequence`writeBlockCorrupt, sequence`order, sequence`evictedUnsent, sequence.device`blocks, sequence`checks,
            sequence`thresholdCrossed, sequence`thresholdReports, device`cuts
    {
      && start.Inv() && start.lay == records.lay && RoomFor(start, recordSize, policy, prepared, before)
      && Evicts(before, journal, [], sequence.evictedUnsent)
      && (forall media :: media in device.cuts ==> CutFaithful(media, start, before, journal))
      && since.Saw(sequence.Watched(), sequence.thresholdEnabled, start.PreparedChecks(recordSize, policy))
    }

    // The freeze has said which operation failed.
    lemma FrozenUnder(among: set<StoreError>)
      requires FrozenAs(among) && among <= {DisposeFailed, RotateFailed, SizeFailed, AppendFailed}
      ensures Valid() && FrozenAs({DisposeFailed, RotateFailed, SizeFailed, AppendFailed})
      ensures AppendFailed !in among ==> !AppendHasFailed()
      ensures among == {AppendFailed} ==> AppendHasFailed()
    {
      hide Working;
    }

    method StoreRecord(data: Record, policy: Policy) returns (result: WriteResult)
      requires Working() && 0 < |data| <= records.lay.maxMessageSize
      requires device.cuts == iset{device.blocks}
      modifies this, sequence, sequence.present, records, records.policy`sealings, device
      ensures Valid()
      ensures frozen ==>
                && FrozenAs({DisposeFailed, RotateFailed, SizeFailed, AppendFailed})
                && FailureLeaves(device.blocks, old(sequence.Now()))
      ensures records.policy.sealings == old(records.policy.sealings) +
                if result == Lost then [Sealing(data, false)]
                else if result == Kept || AppendHasFailed() then [Sealing(data, true)]
                else []
      ensures Evicts(old(journal), journal, if result == Kept then [data] else [], sequence.evictedUnsent)
      ensures frozen ==> result == NotRetained
      ensures !frozen ==>
                records.hasReadRecord == (old(records.hasReadRecord) && sequence.read == old(sequence.read))
      ensures !frozen ==>
                Concluded(old(sequence.Now()), old(journal), old(sequence.Watched()), old(LatchView()), old(reports), data,
                          policy, result)
    {
      hide journal.Balanced, Valid, FrozenAs, Fits, Raised, sequence.Failed, State.Core, State.Inv, sequence.Ready,
        Working, FrozenOnce, Concluded, RoomSince, RoomFor, Evicts, Watch.Saw, FailureLeaves, CutFaithful,
        State.PreparedChecks;
      result := NotRetained;
      ghost var start, before := sequence.Now(), journal;
      WorkingIsSound();
      InvIsSound(start);
      ghost var since, latches, raised := sequence.Watched(), LatchView(), reports;
      var prepared := MakeRoom(records.lay.RecordSize(|data|), policy);
      if frozen {
        FrozenUnder({DisposeFailed, RotateFailed, SizeFailed});
      } else {
        if !prepared {
          ReportRefusal();
          RefusalConcludes(start, before, since, latches, raised, data, policy);
        } else {
          result := AppendPrepared(data, policy, start, before, since);
          if frozen {
            FrozenUnder({AppendFailed});
          }
        }
      }
    }

    lemma RoomIsSince(start: State, before: Ledger, since: Watch, recordSize: nat, policy: Policy, prepared: bool)
      requires start.Inv() && start.lay == records.lay && RoomFor(start, recordSize, policy, prepared, before)
      requires Evicts(before, journal, [], sequence.evictedUnsent)
      requires forall media :: media in device.cuts ==> CutFaithful(media, start, before, journal)
      requires start.Core() && Span(start.order, start.modulus) < start.modulus
      requires since.Saw(sequence.Watched(), sequence.thresholdEnabled, start.PreparedChecks(recordSize, policy))
      ensures RoomSince(start, before, since, recordSize, policy, prepared)
    {
    }

    lemma RefusalConcludes(start: State, before: Ledger, since: Watch, latches: Latches, raised: seq<Report>,
                           data: Record, policy: Policy)
      requires RoomSince(start, before, since, records.lay.RecordSize(|data|), policy, false) && Wired()
      requires 0 < |data| <= records.lay.maxMessageSize
      requires LatchView() == latches.(refusal := true)
      requires reports == raised + if latches.refusal then [] else [RefusedReport]
      ensures Concluded(start, before, since, latches, raised, data, policy, NotRetained)
    {
      hide State.Core, State.Inv, Evicts, CutFaithful, RoomKept, Watch.Saw, State.PreparedChecks, Placed, Latch,
        Costs, State.Refuses, State.Rotates, State.AfterRotation;
      InvIsSound(start);
      assert start.PreparedChecks(records.lay.RecordSize(|data|), policy) + [] ==
             start.PreparedChecks(records.lay.RecordSize(|data|), policy);
      RaisedBy(latches, raised, NotRetained, sequence.evictedUnsent);
      PlacedIs(start, start, start, data, policy, false);
    }

    method AppendPrepared(data: Record, policy: Policy, ghost start: State, ghost before: Ledger, ghost since: Watch)
      returns (result: WriteResult)
      requires Working() && 0 < |data| <= records.lay.maxMessageSize
      requires RoomSince(start, before, since, records.lay.RecordSize(|data|), policy, true)
      modifies this`frozen, this`freezes, this`journal, this`reports, this`refusalReported, this`evictionReported,
               this`sealFailureReported,
               sequence`position, sequence`atCapacity, sequence`thresholdCrossed, sequence`thresholdReports,
               sequence`checks, records.policy`sealings, device
      ensures Valid()
      ensures frozen ==> FrozenAs({AppendFailed}) && FailureLeaves(device.blocks, start)
      ensures records.policy.sealings == old(records.policy.sealings) + [Sealing(data, result != Lost)]
      ensures Evicts(before, journal, if result == Kept then [data] else [], sequence.evictedUnsent)
      ensures frozen <==> result == NotRetained
      ensures !frozen ==>
                Concluded(start, before, since, old(LatchView()), old(reports), data, policy, result)
    {
      hide State.Core, State.Inv, sequence.Ready, Working, FrozenOnce, FrozenAs, Concluded, RoomSince, Evicts,
        Watch.Saw, FailureLeaves, CutFaithful, RoomKept, Raised, State.PreparedChecks, State.Used, State.Appended;
      WorkingIsSound();
      RoomMeans(start, before, since, records.lay.RecordSize(|data|), policy);
      ghost var s := sequence.Now();
      s.Basics();
      ghost var used := start.PreparedChecks(records.lay.RecordSize(|data|), policy);
      result := AppendWithRoom(data, start, before, since, used);
      if !frozen {
        WorkingIsSound();
        AppendConcludes(start, before, since, old(LatchView()), old(reports), s, data, policy, result);
      }
    }

    lemma RoomMeans(start: State, before: Ledger, since: Watch, recordSize: nat, policy: Policy)
      requires RoomSince(start, before, since, recordSize, policy, true) && Wired()
      ensures start.Inv() && start.Core() && Span(start.order, start.modulus) < start.modulus && sequence.Now().Core()
      ensures start.lay == sequence.lay && start.modulus == sequence.modulus && !sequence.writeBlockCorrupt
      ensures RoomKept(start, sequence.Now()) && Evicts(before, journal, [], sequence.evictedUnsent)
      ensures forall media :: media in device.cuts ==> CutFaithful(media, start, before, journal)
      ensures since.Saw(sequence.Watched(), sequence.thresholdEnabled, start.PreparedChecks(recordSize, policy))
      ensures !start.Refuses(recordSize, policy) && Costs(start, recordSize, policy, before)
      ensures sequence.Now() == if start.Rotates(recordSize, policy) then start.AfterRotation() else start
    {
      hide State.Core, State.Inv, Evicts, CutFaithful, Watch.Saw, State.PreparedChecks, State.Refuses, State.Rotates,
        State.AfterRotation;
      InvIsSound(start);
    }

    lemma AppendConcludes(start: State, before: Ledger, since: Watch, latches: Latches, raised: seq<Report>, s: State,
                          data: Record, policy: Policy, result: WriteResult)
      requires start.Inv() && start.Core() && start.lay == records.lay && Wired() && sequence.Now().Core()
      requires 0 < |data| <= records.lay.maxMessageSize && result != NotRetained
      requires Span(start.order, start.modulus) < start.modulus && !start.Refuses(records.lay.RecordSize(|data|), policy)
      requires s == if start.Rotates(records.lay.RecordSize(|data|), policy) then start.AfterRotation() else start
      requires s.Inv() && s.write in s.blocks && |s.lay.seal(data).0| < 0x1_0000
      requires sequence.Now() == if result == Kept then s.Appended(data) else s
      requires RoomKept(start, sequence.Now()) && Costs(start, records.lay.RecordSize(|data|), policy, before)
      requires forall media :: media in device.cuts ==> CutFaithful(media, start, before, journal)
      requires Raised(latches, raised, StoreReports.Write(result, sequence.evictedUnsent))
      requires since.Saw(sequence.Watched(), sequence.thresholdEnabled,
                         start.PreparedChecks(records.lay.RecordSize(|data|), policy) +
                         if result == Kept then [sequence.Now().Used()] else [])
      ensures Concluded(start, before, since, latches, raised, data, policy, result)
    {
      hide State.Core, State.Inv, CutFaithful, RoomKept, Watch.Saw, State.PreparedChecks, Placed, Raised, Costs,
        State.Refuses, State.Rotates, State.AfterRotation, State.Used, State.Appended;
      PlacedIs(start, s, sequence.Now(), data, policy, result == Kept);
    }

    // The block has room. What the rotation evicted is reported before the record goes to its end.
    method AppendWithRoom(data: Record, ghost start: State, ghost before: Ledger, ghost watch: Watch,
                          ghost used: seq<nat>)
      returns (result: WriteResult)
      requires watch.Saw(sequence.Watched(), sequence.thresholdEnabled, used)
      requires Working() && 0 < |data| <= records.lay.maxMessageSize && !sequence.writeBlockCorrupt
      requires start.Core() && start.lay == sequence.lay && start.modulus == sequence.modulus
      requires RoomKept(start, sequence.Now()) && Evicts(before, journal, [], sequence.evictedUnsent)
      requires forall media :: media in device.cuts ==> CutFaithful(media, start, before, journal)
      modifies this`frozen, this`freezes, this`journal, this`reports, this`refusalReported, this`evictionReported,
               this`sealFailureReported,
               sequence`position, sequence`atCapacity, sequence`thresholdCrossed, sequence`thresholdReports,
               sequence`checks, records.policy`sealings, device
      ensures Valid() && (!frozen ==> Working())
      ensures frozen ==> FrozenAs({AppendFailed}) && FailureLeaves(device.blocks, start)
      ensures records.policy.sealings == old(records.policy.sealings) + [Sealing(data, result != Lost)]
      ensures Evicts(before, journal, if result == Kept then [data] else [], sequence.evictedUnsent)
      ensures frozen <==> result == NotRetained
      ensures journal.settled == old(journal).settled
      ensures !frozen ==>
                sequence.Now() == if result == Kept then old(sequence.Now()).Appended(data) else old(sequence.Now())
      ensures !frozen ==>
                Raised(old(LatchView()), old(reports), StoreReports.Write(result, sequence.evictedUnsent))
      ensures !frozen ==> RoomKept(start, sequence.Now())
      ensures !frozen ==> forall media :: media in device.cuts ==> CutFaithful(media, start, before, journal)
      ensures !frozen ==> watch.Saw(sequence.Watched(), sequence.thresholdEnabled,
                                    used + if result == Kept then [sequence.Now().Used()] else [])
    {
      hide Watch.Saw, State.Used, Fits, CutFaithful, RoomKept, Evicts, State.Appended, AppendCuts, State.Core,
        State.Inv, sequence.Ready, Working, FrozenOnce, Raised, Latch, Span, Contiguous, Layout.Sealed;
      ReportEviction();
      WorkingIsSound();
      ghost var s, j, cuts := sequence.Now(), journal, device.cuts;
      ghost var mid := sequence.Watched();
      result := AppendRecord(data, s, j);
      CutsAcrossAppend(start, before, s, j, cuts, data, sequence.evictedUnsent);
      if frozen {
        FailedInAppend(start, s, device.blocks);
      } else {
        WorkingIsSound();
        InvIsSound(sequence.Now());
        watch.SawMore(mid, sequence.Watched(), sequence.thresholdEnabled, used,
                      if result == Kept then [sequence.Now().Used()] else []);
        RaisedBy(old(LatchView()), old(reports), result, sequence.evictedUnsent);
      }
    }

    lemma FailedInAppend(start: State, s: State, media: Media)
      requires start.Core() && s.Core() && RoomKept(start, s) && Disturbed(s.blocks, media, s.write)
      ensures FailureLeaves(media, start)
    {
      AtWrite(s, media);
      LeavesFrom(start, s, media, 0);
    }

    lemma RaisedBy(l: Latches, raised: seq<Report>, result: WriteResult, evicted: bool)
      requires result == NotRetained ==>
                 LatchView() == l.(refusal := true) && reports == raised + if l.refusal then [] else [RefusedReport]
      requires result == Kept ==>
                 && LatchView() == Latches(false, evicted, false)
                 && reports == raised + if evicted && !l.eviction then [EvictedReport] else []
      requires result == Lost ==>
                 && LatchView() == Latches(l.refusal, evicted, true)
                 && reports == raised + (if evicted && !l.eviction then [EvictedReport] else []) +
                               if l.sealFailure then [] else [SealFailedReport]
      ensures Raised(l, raised, StoreReports.Write(result, evicted))
    {
    }

    // Space for one more record, which may take a block under Oldest; fails only with the store frozen.
    method MakeRoom(recordSize: nat, policy: Policy) returns (prepared: bool)
      requires Working() && device.cuts == iset{device.blocks}
      modifies this`frozen, this`freezes, this`journal, sequence, sequence.present, records`hasReadRecord, device
      ensures Valid() && (!frozen ==> Working())
      ensures frozen ==>
                FrozenAs({DisposeFailed, RotateFailed, SizeFailed}) && FailureLeaves(device.blocks, old(sequence.Now()))
      ensures Evicts(old(journal), journal, [], sequence.evictedUnsent)
      ensures !frozen ==>
                && RoomSince(old(sequence.Now()), old(journal), old(sequence.Watched()), recordSize, policy, prepared)
                && records.hasReadRecord == (old(records.hasReadRecord) && sequence.read == old(sequence.read))
    {
      hide RoomSince, CutFaithful, Watch.Saw, State.PreparedChecks, Span, FailureLeaves, State.AfterRotation,
        State.EvictionCosts, Fits, RoomFor, Evicts, State.Core, State.Inv, sequence.Ready, State.RecordAtCursor,
        State.FlagOffset, device.Healthy;
      ghost var start, before, since := sequence.Now(), journal, sequence.Watched();
      WorkingIsSound();
      InvIsSound(start);
      var readBlockChanged;
      prepared, readBlockChanged := Prepare(recordSize, policy);
      var failed := FreezeIfDeviceFailed();
      if !failed && readBlockChanged {
        records.ForgetLastRead();
      }
      if !failed {
        RoomIsSince(start, before, since, recordSize, policy, prepared);
      }
    }

    ghost predicate RoomFor(start: State, recordSize: nat, policy: Policy, prepared: bool, before: Ledger)
      reads sequence`read, sequence`cursor, sequence`write, sequence`position, sequence`writeBlockCorrupt,
            sequence`order, sequence.device`blocks, this`journal
    {
      && start.Core() && Span(start.order, start.modulus) < start.modulus && sequence.Now().Core()
      && prepared == !start.Refuses(recordSize, policy)
      && sequence.Now() == (if start.Rotates(recordSize, policy) then start.AfterRotation() else start)
      && (!prepared ==> journal == before && sequence.Now() == start)
      && (prepared ==> !sequence.writeBlockCorrupt)
      && RoomKept(start, sequence.Now()) && Costs(start, recordSize, policy, before)
    }

    lemma RoomIs(start: State, before: Ledger, recordSize: nat, policy: Policy, prepared: bool, e: nat)
      requires start.Core() && Span(start.order, start.modulus) < start.modulus && sequence.Now().Core()
      requires prepared == !start.Refuses(recordSize, policy) && RoomKept(start, sequence.Now())
      requires sequence.Now() == if start.Rotates(recordSize, policy) then start.AfterRotation() else start
      requires !prepared ==> journal == before && sequence.Now() == start
      requires prepared ==> !sequence.writeBlockCorrupt
      requires |journal.settled| == |before.settled| + e
      requires e > 0 <==> start.Rotates(recordSize, policy) && start.EvictionCosts()
      ensures RoomFor(start, recordSize, policy, prepared, before)
    {
      hide State.AfterRotation, State.Core, State.EvictionCosts, State.Refuses, State.Rotates, RoomKept;
    }

    method Prepare(recordSize: nat, policy: Policy) returns (prepared: bool, readBlockChanged: bool)
      requires Working() && device.cuts == iset{device.blocks}
      modifies this`journal, sequence, sequence.present, device
      ensures journal.Balanced()
      ensures Evicts(old(journal), journal, [], sequence.evictedUnsent)
      ensures sequence.deviceFailed ==>
                && sequence.Failed({DisposeFailed, RotateFailed, SizeFailed})
                && FailureLeaves(device.blocks, old(sequence.Now()))
      ensures !sequence.deviceFailed ==>
                && sequence.Ready() && Fits(journal, sequence.Now())
                && RoomFor(old(sequence.Now()), recordSize, policy, prepared, old(journal))
                && (!readBlockChanged && records.hasReadRecord ==> Remembered())
                && readBlockChanged == (sequence.read != old(sequence.read))
                && old(sequence.Watched()).Saw(sequence.Watched(), sequence.thresholdEnabled,
                                               old(sequence.Now()).PreparedChecks(recordSize, policy))
                && forall media :: media in device.cuts ==>
                     CutFaithful(media, old(sequence.Now()), old(journal), journal)
    {
      hide RoomFor, Costs, State.EvictionCosts, FailureLeaves, State.RotationFails, State.Rotated, Watch.Saw,
        State.PreparedChecks, Fits, CutFaithful, RoomKept, Evicts, State.Core, State.Inv, State.Pending,
        State.Skipped, sequence.Ready, State.AfterRotation, State.RotationCuts, State.RotationEvicts, State.Refuses,
        State.Rotates, Contiguous, Span, State.RecordAtCursor, State.FlagOffset, Ordered, device.Healthy,
        sequence.Failed, FrozenOnce, journal.Settle, journal.Balanced;
      sequence.ReadyIsSound();
      ghost var start, before := sequence.Now(), journal;
      ghost var e := RoomMade(start, before, recordSize, policy);
      prepared, readBlockChanged := sequence.PrepareForWrite(recordSize, policy);
      if sequence.deviceFailed {
        NothingEvicted(before, sequence.evictedUnsent);
        FailedRotation(start, device.blocks);
      } else {
        journal := journal.Settle(e, J.Evicted);
        EvictsAtMost(before, journal, start.Rotates(recordSize, policy) && start.RotationEvicts(), sequence.evictedUnsent);
        RoomIs(start, before, recordSize, policy, prepared, e);
      }
    }

    method AppendRecord(data: Record, ghost s: State, ghost j: Ledger) returns (result: WriteResult)
      requires Working() && 0 < |data| <= records.lay.maxMessageSize && !sequence.writeBlockCorrupt
      requires s == sequence.Now() && j == journal
      modifies this`frozen, this`freezes, this`journal, this`reports, this`refusalReported, this`sealFailureReported,
               sequence`position, sequence`atCapacity, sequence`thresholdCrossed, sequence`thresholdReports,
               sequence`checks, records.policy`sealings, device
      ensures Valid() && (!frozen ==> Working())
      ensures frozen ==> FrozenAs({AppendFailed}) && Disturbed(s.blocks, device.blocks, s.write)
      ensures records.policy.sealings == old(records.policy.sealings) + [Sealing(data, result != Lost)]
      ensures journal == if result == Kept then j.Accept(data) else j
      ensures frozen ==> result == NotRetained
      ensures !frozen ==> result != NotRetained
      ensures result == Kept ==> LatchView() == Latches(false, old(evictionReported), false) && reports == old(reports)
      ensures result == Lost ==>
                && LatchView() == Latches(old(refusalReported), old(evictionReported), true)
                && reports == old(reports) + if old(sealFailureReported) then [] else [SealFailedReport]
      ensures !frozen ==> sequence.Now() == if result == Kept then s.Appended(data) else s
      ensures !frozen ==>
                device.cuts == old(device.cuts) +
                  if result == Kept then AppendCuts(s.blocks, s.write, s.lay.Sealed(data)) else iset{}
      ensures sequence.evictedUnsent == old(sequence.evictedUnsent)
      ensures !frozen ==> old(sequence.Watched()).Saw(sequence.Watched(), sequence.thresholdEnabled,
                                                      if result == Kept then [sequence.Now().Used()] else [])
    {
      hide Fits, State.Pending, State.Skipped, AppendCuts, Layout.Sealed, State.Core, State.Inv, sequence.Agrees,
        sequence.Ready, Layout.RecordSize, j.Balanced, j.Accept, State.Appended, Working, FrozenOnce, FrozenAs,
        Watch.Saw, State.Used, sequence.MapAgrees;
      result := NotRetained;
      WorkingIsSound();
      AppendIsSound(s, j, data);
      sequence.Watched().SawNothing(sequence.thresholdEnabled);
      var appended := records.Append(device, sequence.write, data);
      match appended {
        case AppendSucceeded =>
          result := Kept;
          AppendedAgrees(s, data);
          NoteKept(data, s, j);
        case AppendDeviceFailed =>
          Freeze(AppendFailed);
          FrozenByCall(AppendFailed, {AppendFailed});
        case SealFailed =>
          result := Lost;
          ReportSealFailed();
          WorkingStill(s);
      }
    }

    // The sequence is as the state has it, whatever the device has become since.
    ghost predicate SequenceAt(s: State)
      reads sequence`read, sequence`cursor, sequence`write, sequence`position, sequence`writeBlockCorrupt,
            sequence`order, sequence`oldest, sequence`readBlockSizeKnown, sequence`readBlockSize,
            sequence`deviceFailed, sequence.present
    {
      && s == State(sequence.modulus, sequence.maxBlocks, sequence.maxBlockSize, sequence.lay, sequence.read,
                    sequence.cursor, sequence.write, sequence.position, sequence.writeBlockCorrupt, sequence.order,
                    s.blocks)
      && sequence.MapAgrees() && !sequence.deviceFailed
      && (sequence.readBlockSizeKnown ==>
            s.read != s.write && s.read in s.blocks && sequence.readBlockSize == |s.blocks[s.read]|)
    }

    lemma AppendIsSound(s: State, j: Ledger, data: Record)
      requires Working() && s == sequence.Now() && j == journal && !s.corrupt
      requires 0 < |data| <= records.lay.maxMessageSize
      ensures s.Inv() && s.Core() && s.write in s.blocks && s.lay == records.lay && s.write == sequence.write
      ensures SequenceAt(s) && device.Healthy() && j.Balanced() && Fits(j, s) && |s.lay.seal(data).0| < 0x1_0000
      ensures s.Appended(data) ==
              s.(position := s.position + s.lay.RecordSize(|data|),
                 blocks := s.blocks[s.write := s.blocks[s.write] + s.lay.Sealed(data)])
      ensures s.Appended(data).Inv() && Fits(j.Accept(data), s.Appended(data))
      ensures records.hasReadRecord ==>
                && s.RecordAtCursor() && s.Appended(data).RecordAtCursor() && records.lastReadBlockIndex == s.read
                && records.lastSentFlagOffset == s.FlagOffset() == s.Appended(data).FlagOffset()
    {
      hide Fits, State.Inv, State.Appended, sequence.MapAgrees;
      InvIsSound(s);
      FitsBalanced(j, s);
      RecordAppended(s, j, data);
      AppendedIs(s, data);
    }

    lemma AppendedAgrees(s: State, data: Record)
      requires SequenceAt(s) && s.write in s.blocks && Wired()
      requires |s.lay.seal(data).0| < 0x1_0000
      requires device.blocks == s.blocks[s.write := s.blocks[s.write] + s.lay.Sealed(data)]
      ensures sequence.Agrees() && !sequence.deviceFailed
    {
      hide sequence.MapAgrees;
    }

    lemma WorkingStill(s: State)
      requires !frozen && freezes == [] && Wired() && SequenceAt(s) && device.blocks == s.blocks && device.Healthy()
      requires s.Inv() && Fits(journal, s)
      requires records.hasReadRecord ==>
                 s.RecordAtCursor() && records.lastReadBlockIndex == s.read && records.lastSentFlagOffset == s.FlagOffset()
      ensures Working() && Valid() && sequence.Now() == s
    {
      hide Fits, State.Inv, sequence.MapAgrees;
      InvIsSound(s);
    }

    lemma FrozenByCall(error: StoreError, among: set<StoreError>)
      requires frozen && freezes == [error] && Wired() && journal.Balanced()
      requires device.LeftAlone() && device.failure.FirstFailure? && Names(error, device.failure.call) && error in among
      ensures FrozenAs(among) && Valid()
    {
      hide journal.Balanced;
    }

    // After a device append that succeeded: position, ledger and latches follow.
    method NoteKept(data: Record, ghost s: State, ghost j: Ledger)
      requires !frozen && freezes == [] && Wired() && journal == j && 0 < |data| <= records.lay.maxMessageSize
      requires sequence.Agrees() && device.Healthy() && !sequence.deviceFailed
      requires s.write in s.blocks && s.lay == records.lay
      requires sequence.Now().(position := s.position + records.lay.RecordSize(|data|)) == s.Appended(data)
      requires sequence.position == s.position && s.Appended(data).Inv() && Fits(j.Accept(data), s.Appended(data))
      requires records.hasReadRecord ==>
                 && s.Appended(data).RecordAtCursor() && records.lastReadBlockIndex == sequence.read
                 && records.lastSentFlagOffset == s.Appended(data).FlagOffset()
      modifies this`journal, this`refusalReported, this`sealFailureReported,
               sequence`position, sequence`atCapacity, sequence`thresholdCrossed, sequence`thresholdReports,
               sequence`checks
      ensures Working() && sequence.Now() == s.Appended(data) && journal == j.Accept(data)
      ensures LatchView() == Latches(false, old(evictionReported), false)
      ensures old(sequence.Watched()).Saw(sequence.Watched(), sequence.thresholdEnabled, [sequence.Now().Used()])
    {
      hide Fits, State.Core, State.Inv, sequence.MapAgrees, State.Appended, State.RecordAtCursor, State.FlagOffset,
        j.Accept, Layout.RecordSize, sequence.Ready, sequence.UsedBytes;
      sequence.NoteRecordWritten(records.lay.RecordSize(|data|));
      journal := journal.Accept(data);
      refusalReported := false;
      sealFailureReported := false;
    }

    // ----- What is left -----

    method HasUnsent() returns (r: bool)
      requires Valid()
      ensures frozen ==> !r
      ensures !frozen && !r ==> journal.waiting == []
      ensures !frozen && r ==> sequence.read != sequence.write || sequence.cursor < sequence.position
    {
      hide State.Pending, State.Skipped, Fits;
      r := !frozen && sequence.HasUnsent();
      if !frozen && !r {
        sequence.ReadyIsSound();
        NoneUnsent(sequence.Now(), journal);
      }
    }

    // True of a frozen store, and then for good.
    predicate IsTransient()
      reads this
    {
      frozen
    }

    // ----- Reading -----

    // Sound, but for what a restart has yet to learn of the write block's end.
    ghost predicate Resumed()
      reads this`frozen, this`freezes, this`journal,
            sequence`read, sequence`cursor, sequence`write, sequence`position, sequence`writeBlockCorrupt,
            sequence`order, sequence`oldest, sequence`readBlockSizeKnown, sequence`readBlockSize,
            sequence`deviceFailed, sequence.present, records, device`blocks, device`failure, device`callsAfterFailure
    {
      && !frozen && freezes == [] && Wired()
      && sequence.Rotating() && Fits(journal, sequence.Now()) && Remembered()
    }

    lemma ResumedIsSound()
      requires Resumed()
      ensures !frozen && freezes == [] && Wired() && sequence.Rotating() && device.Healthy() && !sequence.deviceFailed
      ensures sequence.Now().Core() && Fits(journal, sequence.Now()) && journal.Balanced()
      ensures sequence.lay == records.lay && SequenceAt(sequence.Now()) && MemoryAt(sequence.Now())
      ensures sequence.read in device.blocks && sequence.write in device.blocks
      ensures sequence.position == |device.blocks[sequence.write]| && sequence.cursor <= |device.blocks[sequence.read]|
    {
      hide sequence.MapAgrees, Ordered, Layout.Clean;
      FitsBalanced(journal, sequence.Now());
      sequence.Now().Basics();
    }

    // The record store's memory, if it has one, is of the record at the state's cursor.
    ghost predicate MemoryAt(t: State)
      reads records
    {
      records.hasReadRecord ==>
        t.RecordAtCursor() && records.lastReadBlockIndex == t.read && records.lastSentFlagOffset == t.FlagOffset()
    }

    lemma ResumedAt(t: State)
      requires !frozen && freezes == [] && Wired() && SequenceAt(t) && device.blocks == t.blocks && device.Healthy()
      requires t.Core() && Fits(journal, t) && MemoryAt(t)
      ensures Resumed() && sequence.Now() == t
    {
      hide Fits, sequence.MapAgrees, State.Core;
      t.Basics();
    }

    // What a read of the record at the cursor leaves to step past or hand back.
    ghost predicate Met(r: ReadResult)
      reads this`frozen, this`freezes, this`journal,
            sequence`read, sequence`cursor, sequence`write, sequence`position, sequence`writeBlockCorrupt,
            sequence`order, sequence`oldest, sequence`readBlockSizeKnown, sequence`readBlockSize,
            sequence`deviceFailed, sequence.present, records, device`blocks, device`failure, device`callsAfterFailure
    {
      && !frozen && freezes == [] && Wired()
      && sequence.Rotating() && Fits(journal, sequence.Now())
      && records.Reads(device.blocks[sequence.read], sequence.cursor, r)
      && if r in {ReadSucceeded, RecordRejected, AlreadyFinished} then
           records.Remembers(sequence.read, device.blocks[sequence.read], sequence.cursor)
         else Remembered()
    }

    // The device failed under a read, and the store has yet to freeze for it.
    ghost predicate MetFailure()
      reads this`frozen, this`freezes, this`journal, sequence`deviceFailed, sequence`failedOperation,
            device`failure, device`callsAfterFailure
    {
      && !frozen && freezes == [] && Wired() && journal.Balanced()
      && (sequence.deviceFailed ==> sequence.Failed({SizeFailed}))
      && (!sequence.deviceFailed ==> device.LeftAlone() && device.failure == FirstFailure(ReadCall))
    }

    method ReadCurrent(maxSize: nat) returns (r: ReadResult, data: Record)
      requires Resumed()
      modifies sequence`readBlockSize, sequence`readBlockSizeKnown, sequence`deviceFailed, sequence`failedOperation,
               records, records.policy`judged, device`failure, device`callsAfterFailure
      ensures var s := old(sequence.Now());
              && (r == ReadDeviceFailed || records.Reads(s.blocks[s.read], s.cursor, r))
              && records.policy.judged == old(records.policy.judged) + records.Answer(s.blocks[s.read], s.cursor, r)
      ensures r != ReadDeviceFailed ==> Met(r) && sequence.Now() == old(sequence.Now())
      ensures r == ReadDeviceFailed ==> MetFailure()
      ensures data == if r == ReadSucceeded && Met(r)
                      then Bounded(records.lay.Message(device.blocks[sequence.read][sequence.cursor..]), maxSize) else []
    {
      hide Fits, State.Core, Resumed, Met, MetFailure, sequence.Rotating, sequence.MapAgrees, sequence.Failed,
        records.Reads, records.Remembers, records.Answer, Bounded, Layout.Message, journal.Balanced,
        State.RecordAtCursor, State.FlagOffset;
      data := [];
      r := ReadDeviceFailed;
      ResumedIsSound();
      ghost var s := sequence.Now();
      NothingAnswered(s);
      var known, size := sequence.ReadBlockSize();
      if known {
        RotatingIsSound();
        r, data := records.Read(device, sequence.read, sequence.cursor, size, maxSize);
        if r != ReadDeviceFailed {
          MetAt(s, r);
        } else {
          FailedToRead();
        }
      } else {
        FailedToSize();
      }
    }

    lemma NothingAnswered(s: State)
      requires s.read in s.blocks && s.cursor <= |s.blocks[s.read]|
      ensures records.Answer(s.blocks[s.read], s.cursor, ReadDeviceFailed) == []
    {
    }

    lemma MetAt(s: State, r: ReadResult)
      requires !frozen && freezes == [] && Wired() && SequenceAt(s) && device.blocks == s.blocks && device.Healthy()
      requires s.Core() && Fits(journal, s) && records.Reads(s.blocks[s.read], s.cursor, r)
      requires if r in {ReadSucceeded, RecordRejected, AlreadyFinished} then
                 records.Remembers(s.read, s.blocks[s.read], s.cursor)
               else MemoryAt(s)
      ensures Met(r) && sequence.Now() == s
    {
      hide Fits, State.Core, sequence.MapAgrees, records.Reads;
      s.Basics();
    }

    lemma FailedToRead()
      requires !frozen && freezes == [] && Wired() && journal.Balanced() && !sequence.deviceFailed
      requires device.LeftAlone() && device.failure == FirstFailure(ReadCall)
      ensures MetFailure()
    {
      hide journal.Balanced;
    }

    lemma FailedToSize()
      requires !frozen && freezes == [] && Wired() && journal.Balanced() && sequence.Failed({SizeFailed})
      ensures MetFailure()
    {
      hide journal.Balanced;
    }

    // Leaves a block that lies before the write block; answers false at the write block itself and once frozen.
    method ReadNextBlockIfBehind() returns (movedOn: bool)
      requires Resumed() && NothingHere(sequence.Now())
      modifies this`frozen, this`freezes, sequence, sequence.present, records`hasReadRecord, device
      ensures sequence.deviceFailed ==>
                && !movedOn && FrozenAs({DisposeFailed})
                && Disturbed(old(device.blocks), device.blocks, old(sequence.read))
      ensures !sequence.deviceFailed ==> Resumed() && movedOn == (old(sequence.read) != old(sequence.write))
      ensures movedOn ==>
                && |old(sequence.order)| > 1 && sequence.Now() == old(sequence.Now()).Left()
                && device.cuts == old(device.cuts) + iset{device.blocks}
      ensures !movedOn && !sequence.deviceFailed ==>
                sequence.Now() == old(sequence.Now()) && device.cuts == old(device.cuts)
      ensures !old(records.hasReadRecord) ==> !records.hasReadRecord
    {
      hide Fits, State.Core, State.Left, sequence.Agrees, Span, NothingHere, State.RecordAtCursor, State.FlagOffset,
        journal.Balanced, NoLonger, Nearer;
      movedOn := false;
      if sequence.read != sequence.write {
        LeftBehind(sequence.Now(), journal);
        FitsBalanced(journal, sequence.Now());
        sequence.LeaveReadBlock();
        records.ForgetLastRead();
        var failed := FreezeIfDeviceFailed();
        movedOn := !failed;
      }
    }

    // Damage at the cursor: before the write block it costs this block's remainder, in the write block it ends
    // appends to it.
    method AbandonRestOfReadBlock() returns (movedOn: bool)
      requires Resumed() && NothingHere(sequence.Now())
      modifies this`frozen, this`freezes, this`lossReported, this`reports, sequence, sequence.present,
               records`hasReadRecord, device
      ensures sequence.deviceFailed ==>
                && !movedOn && FrozenAs({DisposeFailed})
                && Disturbed(old(device.blocks), device.blocks, old(sequence.read))
      ensures !sequence.deviceFailed ==> Resumed() && movedOn == (old(sequence.read) != old(sequence.write))
      ensures movedOn ==>
                && |old(sequence.order)| > 1 && sequence.Now() == old(sequence.Now()).Left()
                && device.cuts == old(device.cuts) + iset{device.blocks}
      ensures !movedOn && !sequence.deviceFailed ==>
                sequence.Now() == old(sequence.Now()).GivenUp() && device.cuts == old(device.cuts)
      ensures !old(records.hasReadRecord) ==> !records.hasReadRecord
      ensures LossesSince(old(lossReported), old(reports)) && (!sequence.deviceFailed ==> lossReported)
    {
      hide Fits, State.Core, State.Left, sequence.MapAgrees, Span, journal.Balanced, NoLonger, Nearer, Resumed,
        FrozenOnce, NothingHere, sequence.Rotating, MemoryAt;
      ghost var s := sequence.Now();
      ResumedIsSound();
      movedOn := ReadNextBlockIfBehind();
      if !sequence.deviceFailed {
        ReportLoss(CorruptReport);
        if !movedOn {
          ResumedIsSound();
          GaveUp(s, journal);
          NoMemoryOf(s);
          sequence.SetReadCursor(sequence.position);
          sequence.MarkWriteBlockCorrupt();
          NoMemory(s.GivenUp());
          ResumedAt(s.GivenUp());
        }
      }
    }

    lemma NoMemoryOf(s: State)
      requires MemoryAt(s) && NothingHere(s)
      ensures !records.hasReadRecord
    {
    }

    // The cursor moves past the record just read.
    method StepPastCurrent(ghost r: ReadResult) returns (stepped: bool)
      requires Met(r) && r in {RecordRejected, AlreadyFinished}
      modifies this`journal, sequence`cursor, records`hasReadRecord
      ensures stepped && Resumed() && sequence.Now() == old(sequence.Now()).Stepped()
      ensures journal == if r == RecordRejected then old(journal).Settle(1, J.Rejected) else old(journal)
    {
      hide Fits, State.Core, Met, Resumed, sequence.MapAgrees, journal.Balanced, journal.Settle, State.Stepped,
        MemoryAt;
      ghost var s := sequence.Now();
      StepIsSound(r);
      if r == RecordRejected {
        journal := journal.Settle(1, J.Rejected);
      }
      var next := records.StepPastLastRead();
      sequence.SetReadCursor(next);
      stepped := true;
      SteppedTo(s);
    }

    lemma StepIsSound(r: ReadResult)
      requires Met(r) && r in {RecordRejected, AlreadyFinished}
      ensures var s := sequence.Now();
              && !frozen && freezes == [] && Wired() && SequenceAt(s) && device.Healthy() && s.lay == records.lay
              && s.Core() && s.read in s.blocks && s.cursor <= |s.blocks[s.read]|
              && s.lay.Whole(s.blocks[s.read][s.cursor..]) && s.Stepped().Core()
              && records.lastSentFlagOffset + SENT_FLAG_SIZE == s.Stepped().cursor
              && (r == RecordRejected ==> journal.waiting != [])
              && Fits(if r == RecordRejected then journal.Settle(1, J.Rejected) else journal, s.Stepped())
    {
      hide Fits, State.Core, sequence.MapAgrees, NoLonger, Nearer, journal.Settle;
      sequence.Now().Basics();
      SteppedPast(sequence.Now(), journal);
    }

    lemma SteppedTo(s: State)
      requires s.Core() && s.lay.Whole(s.blocks[s.read][s.cursor..]) && s.Stepped().Core()
      requires SequenceAt(s.(cursor := sequence.cursor)) && sequence.cursor == s.Stepped().cursor
      requires !frozen && freezes == [] && Wired() && device.blocks == s.blocks && device.Healthy()
      requires Fits(journal, s.Stepped()) && !records.hasReadRecord
      ensures Resumed() && sequence.Now() == s.Stepped()
    {
      hide Fits, State.Core, sequence.MapAgrees;
      s.Basics();
      ResumedAt(s.Stepped());
    }

    method StepPastRejected() returns (stepped: bool)
      requires Met(RecordRejected)
      modifies this`lossReported, this`reports, this`journal, sequence`cursor, records`hasReadRecord
      ensures stepped && Resumed() && sequence.Now() == old(sequence.Now()).Stepped()
      ensures journal == old(journal).Settle(1, J.Rejected)
      ensures LossesSince(old(lossReported), old(reports)) && lossReported
    {
      hide Fits, State.Core, State.Inv, State.Stepped, sequence.MapAgrees, journal.Settle;
      ReportLoss(RejectedReport);
      stepped := StepPastCurrent(RecordRejected);
    }

    // True where there is more to look at. Neither a message found nor a withheld verdict moves the cursor.
    method StepPast(r: ReadResult) returns (stepped: bool)
      requires r != ReadDeviceFailed ==> Met(r)
      requires r == ReadDeviceFailed ==> MetFailure()
      modifies this`frozen, this`freezes, this`lossReported, this`reports, this`journal, sequence, sequence.present,
               records`hasReadRecord, device
      ensures LossesSince(old(lossReported), old(reports))
      ensures r == RecordRejected || (r == Corrupt && !sequence.deviceFailed) ==> lossReported
      ensures r !in {ReadDeviceFailed, Corrupt} && !sequence.deviceFailed ==>
                CleanStep(old(sequence.Now()), sequence.Now())
      ensures r == ReadDeviceFailed ==>
                !stepped && MetFailure() && journal == old(journal) && device.blocks == old(device.blocks)
      ensures r != ReadDeviceFailed && sequence.deviceFailed ==>
                && r in {EndOfData, Corrupt} && !stepped && FrozenAs({DisposeFailed}) && journal == old(journal)
                && Disturbed(old(device.blocks), device.blocks, old(sequence.read))
      ensures r != ReadDeviceFailed && !sequence.deviceFailed ==>
                && MovedOn(old(sequence.Now()), old(journal), if r == RecordRejected then 1 else 0)
                && device.cuts <= old(device.cuts) + iset{device.blocks}
                && (stepped ==>
                      && r in {RecordRejected, AlreadyFinished, EndOfData, Corrupt}
                      && Resumed() && Nearer(old(sequence.Now()), sequence.Now()))
                && (!stepped ==>
                      if r in {ReadSucceeded, CouldNotOpen} then
                        Met(r) && sequence.Now() == old(sequence.Now()) && journal == old(journal)
                      else r in {EndOfData, Corrupt} && Resumed() && journal.waiting == [])
    {
      hide Fits, State.Core, State.Inv, State.Left, State.GivenUp, Span, journal.Balanced, journal.Settle, NoLonger,
        Nearer, State.FlagOffset, Rejects, State.Stepped, sequence.Failed, Met, MetFailure, Resumed, FrozenOnce,
        sequence.Rotating, LossesSince;
      stepped := false;
      ghost var s := sequence.Now();
      NoLossesYet();
      if r != ReadDeviceFailed {
        MetIsSound(r);
        StepsFrom(s, journal);
      }
      if r == RecordRejected {
        stepped := StepPastRejected();
      } else if r == AlreadyFinished {
        stepped := StepPastCurrent(r);
      } else if r == EndOfData {
        stepped := ReadNextBlockIfBehind();
      } else if r == Corrupt {
        stepped := AbandonRestOfReadBlock();
      }
    }

    lemma NoLossesYet()
      ensures LossesSince(lossReported, reports)
    {
    }

    lemma MetIsSound(r: ReadResult)
      requires Met(r)
      ensures r != ReadDeviceFailed && !sequence.deviceFailed
      ensures var s := sequence.Now();
              && s.Core() && Fits(journal, s) && s.read < s.modulus && s.read in s.blocks && s.cursor <= |s.blocks[s.read]|
              && (r in {EndOfData, Corrupt} ==> Resumed() && NothingHere(s))
              && (r == EndOfData ==> s.cursor == |s.blocks[s.read]|)
              && (r !in {EndOfData, Corrupt} ==> s.lay.Whole(s.blocks[s.read][s.cursor..]))
              && (r == RecordRejected ==> s.RecordAtCursor())
    {
      hide Fits, State.Core, sequence.MapAgrees;
      sequence.Now().Basics();
    }

    // The cursor a step on, with that many more records rejected.
    ghost predicate MovedOn(s: State, j: Ledger, rejected: nat)
      reads this`journal,
            sequence`read, sequence`cursor, sequence`write, sequence`position, sequence`writeBlockCorrupt,
            sequence`order, sequence.device`blocks
    {
      && s.Core() && sequence.Now().Core() && NoLonger(s, sequence.Now()) && (s.Inv() ==> sequence.Now().Inv())
      && Rejects(j, journal, rejected)
    }

    // What a pass over the store has come to rest on.
    ghost predicate Rests(r: ReadResult, data: Record, maxSize: nat)
      reads this`frozen, this`freezes, this`journal,
            sequence`read, sequence`cursor, sequence`write, sequence`position, sequence`writeBlockCorrupt,
            sequence`order, sequence`oldest, sequence`readBlockSizeKnown, sequence`readBlockSize,
            sequence`deviceFailed, sequence.present, records, device`blocks, device`failure, device`callsAfterFailure
    {
      match r
      case ReadSucceeded =>
        Resumed() && records.hasReadRecord && journal.waiting != [] && data == Bounded(journal.waiting[0], maxSize)
      case CouldNotOpen => Resumed() && journal.waiting != [] && data == []
      case _ => Resumed() && journal.waiting == [] && data == []
    }

    // Where a pass that set out from a state has got to, and what it has lost on the way.
    ghost predicate Going(start: State, before: Ledger, rejected: nat)
      reads this`journal,
            sequence`read, sequence`cursor, sequence`write, sequence`position, sequence`writeBlockCorrupt,
            sequence`order, sequence.device`blocks, device`cuts
    {
      && MovedOn(start, before, rejected) && start.Inv()
      && CutsFaithful(device.cuts, start, before, journal)
    }

    /** Hands back the oldest record still to send, past any the policy rejected and anything damaged. What the
        policy said of the record it comes to rest on, if it came to one, is its answer. */
    method ReadNextUnsent(maxSize: nat)
      returns (found: bool, data: Record, ghost rejected: nat, ghost answer: seq<Verdict>)
      requires Valid()
      modifies this`frozen, this`freezes, this`lossReported, this`reports, this`journal, sequence, sequence.present,
               records, records.policy`judged, device
      ensures Valid()
      ensures old(frozen) ==> frozen && device.blocks == old(device.blocks) && journal == old(journal)
      ensures frozen && !old(frozen) ==>
                FrozenAs({SizeFailed, ReadFailed, DisposeFailed}) && FailureLeaves(device.blocks, old(sequence.Now()))
      ensures Rejects(old(journal), journal, rejected)
      ensures Judged(old(records.policy.judged), records.policy.judged, old(journal).waiting, rejected, answer)
      ensures found <==> data != []
      ensures LossRun(old(lossReported), old(reports),
                      rejected > 0 || (!frozen && !CleanOver(old(sequence.Now()), sequence.Now())))
      ensures found ==> !lossReported
      ensures frozen ==> !found
      ensures Ended(answer, data, maxSize)
      ensures !old(frozen) && !old(sequence.HasUnsent()) ==>
                !frozen && !found && device.blocks == old(device.blocks) && journal == old(journal) &&
                reports == old(reports) && records.policy.judged == old(records.policy.judged)
      ensures !frozen ==>
                && NoLonger(old(sequence.Now()), sequence.Now())
                && CutsFaithful(device.cuts, old(sequence.Now()), old(journal), journal)
    {
      hide Fits, State.Core, State.Inv, State.Pending, NoLonger, CutsFaithful, Rejects, journal.Settle, Bounded,
        sequence.Agrees, State.RecordAtCursor, State.FlagOffset, CutFaithful, sequence.Failed, CleanOver;
      data, rejected, answer := [], 0, [];
      RejectsNone(journal);
      NoneJudged(records.policy.judged, journal.waiting);
      if !frozen {
        device.cuts := iset{device.blocks};
        StartGoing();
        StartsClean();
        var unsent := HasUnsent();
        if unsent {
          data, rejected, answer := ReadPastLosses(maxSize);
        }
      }
      found := |data| > 0;
    }

    lemma StartGoing()
      requires Working() && device.cuts == iset{device.blocks}
      ensures Going(sequence.Now(), journal, 0) && Resumed()
    {
      sequence.ReadyIsSound();
      UnchangedCutFaithful(sequence.Now(), journal);
      NoLongerSelf(sequence.Now());
      RejectsNone(journal);
    }

    // The read has stepped on, or come to rest, or the device failed.
    ghost predicate StoppedOrGoing(r: ReadResult, stepped: bool, data: Record, maxSize: nat,
                                   start: State, before: Ledger, rejected: nat)
      reads this`frozen, this`freezes, this`journal,
            sequence`read, sequence`cursor, sequence`write, sequence`position, sequence`writeBlockCorrupt,
            sequence`order, sequence`oldest, sequence`readBlockSizeKnown, sequence`readBlockSize,
            sequence`deviceFailed, sequence`failedOperation, sequence.present, sequence.device`blocks, records,
            device`blocks, device`failure, device`callsAfterFailure, device`cuts
    {
      if stepped then Resumed() && Going(start, before, rejected)
      else if r == ReadDeviceFailed then
        MetFailure() && data == [] && Rejects(before, journal, rejected) && FailureLeaves(device.blocks, start)
      else if sequence.deviceFailed then
        && frozen && Ending(r) == [] && FrozenAs({DisposeFailed}) && data == [] && Rejects(before, journal, rejected)
        && FailureLeaves(device.blocks, start)
      else
        r != RecordRejected && r != AlreadyFinished && Rests(r, data, maxSize) && Going(start, before, rejected)
    }

    lemma SoundAfterStep(r: ReadResult)
      requires Resumed() || Met(r)
      ensures sequence.Now().Core() && Fits(journal, sequence.Now())
    {
    }

    lemma RestsAtEnd(r: ReadResult, maxSize: nat)
      requires Resumed() && journal.waiting == [] && r in {EndOfData, Corrupt}
      ensures Rests(r, [], maxSize)
    {
    }

    lemma RestsOnRecord(r: ReadResult, data: Record, maxSize: nat)
      requires Met(r) && r in {ReadSucceeded, CouldNotOpen}
      requires data == if r == ReadSucceeded
                       then Bounded(records.lay.Message(device.blocks[sequence.read][sequence.cursor..]), maxSize) else []
      ensures Rests(r, data, maxSize)
    {
      hide Fits, State.Core, Span, sequence.Agrees;
      sequence.Now().Basics();
      StepsFrom(sequence.Now(), journal);
    }

    lemma WorkingWhen()
      requires Resumed() && sequence.Now().Inv()
      ensures Working()
    {
    }

    ghost function BytesLeft(): int
      reads sequence`read, sequence`cursor, device`blocks
    {
      if sequence.read in device.blocks then |device.blocks[sequence.read]| - sequence.cursor else 0
    }

    method ReadAndStepPast(maxSize: nat, ghost start: State, ghost before: Ledger, ghost rejected: nat,
                           ghost since: seq<Judgement>, ghost lost: bool)
      returns (r: ReadResult, data: Record, stepped: bool, ghost nowRejected: nat, ghost nowLost: bool)
      requires Resumed() && Going(start, before, rejected)
      requires lost || CleanOver(start, sequence.Now())
      requires Judged(since, records.policy.judged, before.waiting, rejected, [])
      modifies this`frozen, this`freezes, this`lossReported, this`reports, this`journal, sequence, sequence.present,
               records, records.policy`judged, device
      ensures StoppedOrGoing(r, stepped, data, maxSize, start, before, nowRejected)
      ensures Judged(since, records.policy.judged, before.waiting, nowRejected, Ending(r))
      ensures stepped ==> Nearer(old(sequence.Now()), sequence.Now()) && data == [] && Ending(r) == []
      ensures stepped ==> r != ReadDeviceFailed && !sequence.deviceFailed
      ensures LossesSince(old(lossReported), old(reports)) && (nowLost && !lost ==> lossReported)
      ensures (lost ==> nowLost) && (nowRejected > rejected ==> nowLost)
      ensures r != ReadDeviceFailed && !sequence.deviceFailed ==> nowLost || CleanOver(start, sequence.Now())
    {
      hide Fits, State.Core, State.Inv, sequence.Agrees, Span, journal.Balanced, NoLonger, Nearer, Rejects,
        State.FlagOffset, CutsFaithful, sequence.Failed, journal.Settle, State.Stepped, State.RecordAtCursor,
        Remembered, Judged, records.Remembers, Met, LossesSince, Rests, Bounded, CleanOver, CleanStep, Going, MovedOn,
        MetFailure, Resumed, FrozenOnce;
      nowRejected, nowLost := rejected, lost;
      ghost var s, mid, cuts := sequence.Now(), journal, device.cuts;
      ResumedIsSound();
      GoingMeans(start, before, rejected);
      r, data := ReadCurrent(maxSize);
      JudgedNext(since, old(records.policy.judged), before, mid, rejected, s, records, r);
      stepped := StepPast(r);
      nowLost := lost || r == RecordRejected || (r == Corrupt && !sequence.deviceFailed);
      if r != ReadDeviceFailed && !sequence.deviceFailed {
        nowRejected := rejected + if r == RecordRejected then 1 else 0;
        GoneOn(start, before, mid, s, r, rejected, cuts);
        if !nowLost {
          CleanOverStep(start, s, sequence.Now());
        }
        if r == ReadSucceeded || r == CouldNotOpen {
          RestsOnRecord(r, data, maxSize);
        } else if !stepped {
          RestsAtEnd(r, maxSize);
        }
      } else {
        FailedReading(start, s, device.blocks);
      }
    }

    lemma FailedReading(start: State, s: State, media: Media)
      requires start.Core() && s.Core() && NoLonger(start, s) && Disturbed(s.blocks, media, s.read)
      ensures FailureLeaves(media, start)
    {
      AtRead(s, media);
      LeavesFrom(start, s, media, 0);
    }

    lemma GoingMeans(start: State, before: Ledger, rejected: nat)
      requires Going(start, before, rejected)
      ensures start.Inv() && start.Core() && sequence.Now().Core() && sequence.Now().Inv()
      ensures NoLonger(start, sequence.Now()) && Rejects(before, journal, rejected)
      ensures CutsFaithful(device.cuts, start, before, journal)
    {
      hide NoLonger, Rejects, CutsFaithful, State.Inv, State.Core;
    }

    // A step on, the run no longer, and every cut as faithful as before.
    lemma GoneOn(start: State, before: Ledger, mid: Ledger, s: State, r: ReadResult, rejected: nat, cuts: iset<Media>)
      requires Wired() && (Resumed() || Met(r))
      requires start.Inv() && start.Core() && s.Core() && s.Inv() && NoLonger(start, s) && Rejects(before, mid, rejected)
      requires CutsFaithful(cuts, start, before, mid) && device.cuts <= cuts + iset{device.blocks}
      requires MovedOn(s, mid, if r == RecordRejected then 1 else 0)
      ensures Going(start, before, rejected + if r == RecordRejected then 1 else 0)
    {
      hide NoLonger, Rejects, CutsFaithful, State.Inv, State.Core, Fits, Resumed, Met;
      SoundAfterStep(r);
      NoLongerTrans(start, s, sequence.Now());
      ReadOnCuts(start, before, mid, journal, sequence.Now(), rejected, if r == RecordRejected then 1 else 0, cuts,
                 device.cuts);
    }

    // Of consecutive losses only the first adds a report, and it names a loss.
    ghost predicate LossRun(reported: bool, raised: seq<Report>, lost: bool)
      reads this`reports
    {
      && raised <= reports && |reports| <= |raised| + (if reported then 0 else 1)
      && (forall i :: |raised| <= i < |reports| ==> IsLoss(reports[i]))
      && (lost && !reported ==> |reports| == |raised| + 1)
    }

    method ReadPastLosses(maxSize: nat) returns (data: Record, ghost rejected: nat, ghost answer: seq<Verdict>)
      requires Resumed() && Going(sequence.Now(), journal, 0)
      modifies this`frozen, this`freezes, this`lossReported, this`reports, this`journal, sequence, sequence.present,
               records, records.policy`judged, device
      ensures Valid()
      ensures frozen ==>
                && FrozenAs({SizeFailed, ReadFailed, DisposeFailed}) && data == []
                && FailureLeaves(device.blocks, old(sequence.Now()))
      ensures Rejects(old(journal), journal, rejected)
      ensures Judged(old(records.policy.judged), records.policy.judged, old(journal).waiting, rejected, answer)
      ensures LossRun(old(lossReported), old(reports),
                      rejected > 0 || (!frozen && !CleanOver(old(sequence.Now()), sequence.Now())))
      ensures data != [] ==> !lossReported
      ensures Ended(answer, data, maxSize)
      ensures !frozen ==>
                && NoLonger(old(sequence.Now()), sequence.Now())
                && CutsFaithful(device.cuts, old(sequence.Now()), old(journal), journal)
    {
      hide Resumed, FrozenOnce, MetFailure, Fits, State.Core, State.Inv, sequence.Agrees, Span, journal.Balanced,
        NoLonger, Rejects, State.RecordAtCursor, State.FlagOffset, CutsFaithful, Remembered, Judged, Going, Rests,
        Ended, CleanOver, LossRun, LossesBetween;
      ghost var start, before, since := sequence.Now(), journal, records.policy.judged;
      rejected := 0;
      ghost var lost := false;
      StartsClean();
      NoneJudged(since, before.waiting);
      var r, stepped;
      r, data, stepped, rejected, lost := ReadAndStepPast(maxSize, start, before, rejected, since, lost);
      while stepped
        invariant StoppedOrGoing(r, stepped, data, maxSize, start, before, rejected)
        invariant Judged(since, records.policy.judged, before.waiting, rejected, Ending(r))
        invariant stepped ==> Ending(r) == [] && r != ReadDeviceFailed && !sequence.deviceFailed
        invariant LossesSince(old(lossReported), old(reports)) && (lost ==> lossReported) && (rejected > 0 ==> lost)
        invariant r != ReadDeviceFailed && !sequence.deviceFailed ==> lost || CleanOver(start, sequence.Now())
        decreases stepped, |sequence.order|, BytesLeft()
      {
        ResumedIsSound();
        ghost var reported, raised := lossReported, reports;
        r, data, stepped, rejected, lost := ReadAndStepPast(maxSize, start, before, rejected, since, lost);
        LossesThrough(old(lossReported), old(reports), reported, raised);
        if stepped {
          ResumedIsSound();
        }
      }
      LossesAre(old(lossReported), old(reports));
      answer := Ending(r);
      EndRead(r, data, maxSize, start, before, rejected);
    }

    lemma StartsClean()
      requires Resumed()
      ensures CleanOver(sequence.Now(), sequence.Now())
    {
      ResumedIsSound();
      CleanOverSelf(sequence.Now());
    }

    // What a read that is over leaves: the answer on the oldest waiting record, or nothing waiting, or a freeze.
    ghost predicate Ended(answer: seq<Verdict>, data: Record, maxSize: nat)
      reads this`frozen, this`journal, records`hasReadRecord
    {
      && (answer == [] || (!frozen && journal.waiting != [] && (answer == [Opened] || answer == [NoVerdict])))
      && (data != [] ==> answer == [Opened] && records.hasReadRecord)
      && (answer == [Opened] ==> data == Bounded(journal.waiting[0], maxSize))
      && (!frozen && answer == [] ==> journal.waiting == [])
    }

    // Once nothing more is stepped past: a message clears the latch, a device that failed freezes.
    method EndRead(r: ReadResult, ghost data: Record, ghost maxSize: nat, ghost start: State, ghost before: Ledger,
                   ghost rejected: nat)
      requires StoppedOrGoing(r, false, data, maxSize, start, before, rejected)
      modifies this`frozen, this`freezes, this`lossReported
      ensures Valid()
      ensures frozen ==>
                && FrozenAs({SizeFailed, ReadFailed, DisposeFailed}) && data == []
                && FailureLeaves(device.blocks, start)
      ensures lossReported == (old(lossReported) && r != ReadSucceeded) && (data != [] ==> !lossReported)
      ensures old(frozen) || r == ReadDeviceFailed ==> frozen
      ensures Rejects(before, journal, rejected) && Ended(Ending(r), data, maxSize)
      ensures !frozen ==> NoLonger(start, sequence.Now()) && CutsFaithful(device.cuts, start, before, journal)
    {
      hide Fits, State.Core, State.Inv, sequence.Agrees, Span, journal.Balanced, NoLonger, Rejects,
        State.RecordAtCursor, State.FlagOffset, CutsFaithful, Remembered, Bounded;
      if r != ReadDeviceFailed && !sequence.deviceFailed {
        WorkingWhen();
      }
      if r == ReadSucceeded {
        lossReported := false;
      } else if r == ReadDeviceFailed {
        var failed := FreezeIfDeviceFailed();
        if !failed {
          Freeze(ReadFailed);
        }
      }
    }

    // ----- Marking -----

    /** The record last read is settled as delivered, and a block read to its end goes. */
    method MarkSent()
      requires Valid()
      modifies this`frozen, this`freezes, this`journal, sequence, sequence.present, records`hasReadRecord, device
      ensures Valid()
      ensures old(frozen) ==> frozen && device.blocks == old(device.blocks)
      ensures frozen && !old(frozen) ==>
                FrozenAs({SizeFailed, DisposeFailed, MarkSentFailed}) && FailureLeaves(device.blocks, old(sequence.Now()))
      ensures if old(frozen) || !old(records.hasReadRecord) then journal == old(journal) && frozen == old(frozen)
              else old(journal).waiting != [] && journal == old(journal).Settle(1, J.Delivered)
      ensures !frozen ==>
                && !records.hasReadRecord && NoLonger(old(sequence.Now()), sequence.Now())
                && sequence.Now() == (if old(records.hasReadRecord) then old(sequence.Now()).AfterMark()
                                      else old(sequence.Now()))
                && CutsFaithful(device.cuts, old(sequence.Now()), old(journal), journal)
    {
      hide State.AfterMark, FailureLeaves, Disturbed, Fits, State.Core, State.Inv, State.Stepped, sequence.MapAgrees,
        Span, journal.Balanced, Working, FrozenOnce, NoLonger, journal.Settle, State.Pending, State.Skipped,
        State.Settled, CutFaithful, State.RecordAtCursor, State.FlagOffset, OverwriteCuts, sequence.Ready, Going,
        Resumed;
      if !frozen {
        device.cuts := iset{device.blocks};
        ghost var s, j := sequence.Now(), journal;
        WorkingNow();
        if records.hasReadRecord {
          MarkIsSound(s, j);
          journal := journal.Settle(1, J.Delivered);
        }
        var marked, nextCursor := records.MarkLastReadAsSent(device);
        if marked == MarkDeviceFailed {
          Freeze(MarkSentFailed);
          FrozenByCall(MarkSentFailed, {SizeFailed, DisposeFailed, MarkSentFailed});
          FailedReading(s, s, device.blocks);
        } else if marked == MarkSucceeded {
          ReadOnAfterMark(nextCursor, s, j);
        } else {
          WorkingStill(s);
        }
      }
    }

    lemma WorkingNow()
      requires Valid() && !frozen && device.cuts == iset{device.blocks}
      ensures var s := sequence.Now();
              && freezes == [] && Wired() && SequenceAt(s) && device.Healthy() && s.Inv() && s.Core() && s.lay == records.lay
              && Fits(journal, s) && MemoryAt(s) && NoLonger(s, s)
              && CutsFaithful(device.cuts, s, journal, journal)
    {
      hide Fits, State.Inv, CutFaithful, NoLonger, sequence.MapAgrees;
      InvIsSound(sequence.Now());
      UnchangedCutFaithful(sequence.Now(), journal);
      NoLongerSelf(sequence.Now());
    }

    lemma MarkIsSound(s: State, j: Ledger)
      requires s.Inv() && Fits(j, s) && s.RecordAtCursor()
      ensures j.waiting != [] && j.Settle(1, J.Delivered).Balanced()
      ensures s.FlagOffset() < |s.blocks[s.read]|
      ensures s.Flagged(FLAG_SENT).blocks == Overwritten(s.blocks, s.read, s.FlagOffset(), FLAG_SENT)
    {
      hide Fits;
      MarkSettles(s, j);
      SettledBalance(s, j, J.Delivered);
    }

    method ReadOnAfterMark(nextCursor: nat, ghost s: State, ghost j: Ledger)
      requires !frozen && freezes == [] && Wired() && !records.hasReadRecord
      requires s.Inv() && s.RecordAtCursor() && Fits(j, s) && j.waiting != []
      requires SequenceAt(s) && device.Healthy()
      requires device.blocks == s.Flagged(FLAG_SENT).blocks && nextCursor == s.FlagOffset() + SENT_FLAG_SIZE
      requires device.cuts == iset{s.blocks} + OverwriteCuts(s.blocks, s.read, s.FlagOffset())
      requires journal == j.Settle(1, J.Delivered)
      modifies this`frozen, this`freezes, sequence, sequence.present, records`hasReadRecord, device
      ensures Valid() && journal == old(journal)
      ensures frozen ==> FrozenAs({SizeFailed, DisposeFailed}) && FailureLeaves(device.blocks, s)
      ensures !frozen ==>
                && !records.hasReadRecord && sequence.Now() == s.AfterMark() && NoLonger(s, sequence.Now())
                && CutsFaithful(device.cuts, s, j, journal)
    {
      hide State.AfterMark, FailureLeaves, Disturbed, Fits, State.Core, State.Inv, State.Stepped, sequence.MapAgrees,
        sequence.Rotating, Span, journal.Balanced, journal.Settle, Working, FrozenAs, FrozenOnce, NoLonger,
        State.Pending, State.Skipped, State.Settled, CutFaithful, OverwriteCuts, State.FlagOffset,
        State.RecordAtCursor, sequence.Failed;
      sequence.SetReadCursor(nextCursor);
      ghost var t := sequence.Now();
      MarkedIsSound(s, j, t);
      ReadingOn(s, t);
      ReadOn(t);
      if frozen {
        FailedReading(s, t, device.blocks);
      }
    }

    // The block the cursor is in is given up if that was the last of it.
    method ReadOn(ghost t: State)
      requires !frozen && freezes == [] && Wired() && !records.hasReadRecord && journal.Balanced()
      requires sequence.Rotating() && t == sequence.Now() && t.Core() && t.Settled().Inv() && Fits(journal, t.Settled())
      modifies this`frozen, this`freezes, sequence, sequence.present, records`hasReadRecord, device
      ensures Valid()
      ensures frozen ==> FrozenAs({SizeFailed, DisposeFailed}) && Disturbed(t.blocks, device.blocks, t.read)
      ensures !frozen ==>
                && !records.hasReadRecord && sequence.Now() == t.Settled()
                && (device.cuts == old(device.cuts) || device.cuts == old(device.cuts) + iset{device.blocks})
    {
      hide Fits, State.Core, State.Inv, sequence.MapAgrees, sequence.Rotating, journal.Balanced, Working, FrozenAs,
        FrozenOnce, State.Settled, State.Drained, sequence.Failed;
      var readBlockChanged := sequence.DisposeReadBlockIfDrained();
      if !sequence.deviceFailed {
        RotatingIsSound();
      }
      var failed := FreezeIfDeviceFailed();
      if failed {
        FrozenFrom({SizeFailed, DisposeFailed});
      } else {
        if readBlockChanged {
          records.ForgetLastRead();
        }
        WorkingStill(t.Settled());
      }
    }

    // The marked record behind the cursor, and the block disposed of if that was its last.
    lemma MarkedIsSound(s: State, j: Ledger, t: State)
      requires s.Inv() && Fits(j, s) && s.RecordAtCursor()
      requires t == s.Flagged(FLAG_SENT).(cursor := s.FlagOffset() + SENT_FLAG_SIZE)
      ensures j.waiting != [] && s.Core() && t == s.(cursor := t.cursor, blocks := t.blocks)
      ensures t.blocks.Keys == s.blocks.Keys && |t.blocks[s.read]| == |s.blocks[s.read]|
      ensures var after := j.Settle(1, J.Delivered);
              && after.Balanced() && t.Inv() && t.Core() && t.Settled().Inv() && t.Settled().Core()
              && Fits(after, t.Settled()) && NoLonger(s, t.Settled()) && t.Settled() == s.AfterMark()
              && CutFaithful(s.blocks, s, j, after) && CutFaithful(t.Settled().blocks, s, j, after)
              && forall media :: media in OverwriteCuts(s.blocks, s.read, s.FlagOffset()) ==>
                   CutFaithful(media, s, j, after)
    {
      hide Fits, State.Inv, State.Core, State.Settled, CutFaithful, OverwriteCuts, State.FlagOffset, NoLonger;
      InvIsSound(s);
      s.FlaggedBlock(FLAG_SENT);
      FlaggedKeys(s, FLAG_SENT);
      MarkSettles(s, j);
      SettledBalance(s, j, J.Delivered);
      InvIsSound(s.Flagged(FLAG_SENT).Stepped());
      InvIsSound(t.Settled());
    }

    lemma FlaggedKeys(s: State, value: byte)
      requires s.RecordAtCursor()
      ensures s.Flagged(value).blocks.Keys == s.blocks.Keys
    {
    }

    lemma ReadingOn(s: State, t: State)
      requires s.Core() && t.Core() && SequenceAt(s.(cursor := t.cursor)) && device.blocks == t.blocks
      requires device.Healthy() && Wired() && t == s.(cursor := t.cursor, blocks := t.blocks)
      requires t.blocks.Keys == s.blocks.Keys && |t.blocks[s.read]| == |s.blocks[s.read]|
      ensures sequence.Rotating()
    {
      hide State.Core, sequence.MapAgrees;
      s.Basics();
      t.Basics();
    }

    // ----- Starting up -----

    /** Takes up what the device holds. The ledger begins with what its run of blocks has still to send, all
        of it waiting; the state the run was taken up in is what a cut on the way is judged by. */
    method Initialise() returns (ghost first: State)
      requires Wired() && sequence.Fresh() && !frozen && freezes == [] && !records.hasReadRecord && journal.Balanced()
      requires device.cuts == iset{device.blocks}
      modifies this, sequence, sequence.present, records`hasReadRecord, device
      ensures frozen ==>
                && FrozenAs({SizeFailed, OpenFailed, ReadFailed, DisposeFailed})
                && FailedStart(first, old(device.blocks), device.blocks, sequence.modulus)
      ensures !frozen ==> sequence.Rotating() && AtFirstUnsent()
      ensures !frozen ==> (sequence.writeBlockCorrupt <==> !records.lay.Clean(device.blocks[sequence.write]))
      ensures !frozen ==>
                && StartsFrom(first, old(device.blocks))
                && first.Core() && first.lay == records.lay && first.modulus == sequence.modulus
                && journal == J.Journal(journal.waiting, [], journal.waiting)
                && journal.waiting == UnsentOver(records.lay, first.blocks, first.order)
                && (Span(first.order, first.modulus) < first.modulus ==> Working())
                && sequence.Now().Core() && NoLonger(first, sequence.Now())
                && forall media :: media in device.cuts ==>
                     media == old(device.blocks) || CutFaithful(media, first, journal, journal)
      ensures frozen || Span(first.order, first.modulus) < first.modulus ==> Valid()
      ensures LatchView() == Latches(false, false, false) && LossesSince(false, old(reports))
      ensures !frozen ==> (lossReported <==> MetDamage(|first.order|))
    {
      hide Layout.Clean, device.Healthy, AtFirstUnsent, StartsFrom, FailedStart, MetDamage, journal.Balanced,
        FailureLeaves, Disturbed, TakesUp, TakenUp, State.Core, Fits, State.Pending, State.Skipped, sequence.Agrees,
        Span, CutFaithful, NoLonger, Unscanned, Working, FrozenOnce, CutsShow, UnsentOver, sequence.Rotating,
        sequence.Failed, Watch.Saw, State.Used;
      lossReported, refusalReported, evictionReported, sealFailureReported := false, false, false, false;
      var ready := sequence.Open();
      first := sequence.Now();
      if ready {
        StartsAsFound(old(device.blocks));
        ghost var unsent, cuts := UnsentOver(records.lay, first.blocks, first.order), device.cuts;
        journal := J.Journal(unsent, [], unsent);
        OpenedUnscanned();
        ResumeFromExistingBlock(first);
        if !frozen {
          CutsSince(first, cuts, old(device.blocks));
        } else {
          StartFailed(first, old(device.blocks), device.blocks, sequence.modulus);
        }
      } else {
        Freeze(sequence.failedOperation);
        FrozenFrom({SizeFailed, OpenFailed});
        StartFailed(first, old(device.blocks), device.blocks, sequence.modulus);
      }
    }

    lemma StartsAsFound(was: Media)
      requires sequence.Rotating() && Wired()
      requires (exists s :: 0 <= s < sequence.modulus && s in was) ==>
                 && TakenUp(sequence.present[..], sequence.order, sequence.read, sequence.write)
                 && device.blocks == was
      requires (forall s :: 0 <= s < sequence.modulus ==> s !in was) ==>
                 sequence.order == [0] && device.blocks == was[0 := []]
      ensures sequence.Now().Core() && StartsFrom(sequence.Now(), was)
    {
      hide TakenUp, TakesUp;
      if exists s :: 0 <= s < sequence.modulus && s in was {
        TakesUpRun(sequence.Now(), sequence.present[..]);
      }
    }

    lemma OpenedUnscanned()
      requires sequence.Rotating() && sequence.cursor == 0 && !sequence.writeBlockCorrupt
      requires !frozen && freezes == [] && Wired() && !records.hasReadRecord
      requires var first := sequence.Now();
               var unsent := UnsentOver(records.lay, first.blocks, first.order);
               journal == J.Journal(unsent, [], unsent)
      ensures Unscanned(sequence.Now(), device.cuts)
      ensures sequence.Now().Core() && CutFaithful(sequence.Now().blocks, sequence.Now(), journal, journal)
    {
      hide State.Core, Fits, UnsentOver, CutFaithful, NoLonger, sequence.Agrees;
      LedgerOpens(sequence.Now());
      NoLongerSelf(sequence.Now());
    }

    lemma CutsSince(first: State, cuts: iset<Media>, was: Media)
      requires first.Core() && CutsShow(first, cuts) && CutFaithful(first.blocks, first, journal, journal)
      requires cuts == iset{was} || cuts == iset{was} + iset{first.blocks}
      ensures forall media :: media in device.cuts ==> media == was || CutFaithful(media, first, journal, journal)
    {
      hide CutFaithful, State.Core;
    }

    // Goes from block to block for as long as scans come upon damage and there is a block to go to.
    method ResumeFromExistingBlock(ghost first: State)
      requires Unscanned(first, device.cuts)
      modifies this`frozen, this`freezes, this`lossReported, this`reports, sequence, sequence.present,
               records`hasReadRecord, device
      ensures frozen ==>
                FrozenAs({SizeFailed, ReadFailed, DisposeFailed}) && FailureLeaves(device.blocks, first)
      ensures !frozen ==> sequence.Rotating() && AtFirstUnsent()
      ensures !frozen ==> (sequence.writeBlockCorrupt <==> !records.lay.Clean(device.blocks[sequence.write]))
      ensures LossesSince(old(lossReported), old(reports))
      ensures !frozen ==> (lossReported <==> old(lossReported) || MetDamage(|old(sequence.order)|))
      ensures !frozen ==>
                && sequence.Now().Core() && NoLonger(first, sequence.Now()) && CutsShow(first, old(device.cuts))
                && (Span(first.order, first.modulus) < first.modulus ==> Working())
    {
      hide MetDamage, Layout.Clean, LossesBetween, records.Found, journal.Balanced, FailureLeaves, Unscanned, Scanned,
        State.Core, Fits, Span, FrozenOnce, Resumed, CutsShow, NoLonger;
      ghost var cuts := device.cuts;
      var scanned, abandoned := ScanAndAbandon(first, cuts);
      while abandoned
        invariant if abandoned then Unscanned(first, cuts) else Scanned(scanned, first, cuts)
        invariant LossesSince(old(lossReported), old(reports))
        invariant abandoned ==> lossReported && |sequence.order| < |old(sequence.order)|
        invariant !abandoned && scanned != ScanDeviceFailed && !sequence.deviceFailed ==>
                    (lossReported <==> old(lossReported) || MetDamage(|old(sequence.order)|))
        decreases abandoned, |sequence.order|
      {
        ghost var reported, raised := lossReported, reports;
        scanned, abandoned := ScanAndAbandon(first, cuts);
        LossesThrough(old(lossReported), old(reports), reported, raised);
        LeftIsDamage(|old(sequence.order)|);
      }
      ScannedMeans(scanned, first, cuts);
      if scanned != ScanDeviceFailed && !sequence.deviceFailed {
        ghost var s := sequence.Now();
        CheckWriteBlock();
        if frozen {
          FailedReading(first, s, device.blocks);
        } else {
          CheckedMeans(first);
        }
      }
    }

    // A resume has come to a block it has not scanned.
    ghost predicate Unscanned(first: State, cuts: iset<Media>)
      reads this`frozen, this`freezes, this`journal,
            sequence`read, sequence`cursor, sequence`write, sequence`position, sequence`writeBlockCorrupt,
            sequence`order, sequence`oldest, sequence`readBlockSizeKnown, sequence`readBlockSize,
            sequence`deviceFailed, sequence.present, records, device`blocks, device`failure, device`callsAfterFailure,
            device`cuts
    {
      && Resumed() && !records.hasReadRecord && sequence.cursor == 0 && journal.settled == []
      && !sequence.writeBlockCorrupt && first.Core() && NoLonger(first, sequence.Now()) && CutsShow(first, cuts)
    }

    // Every cut since the first state shows what was waiting.
    ghost predicate CutsShow(first: State, cuts: iset<Media>)
      requires first.Core()
      reads this`journal, device`cuts
    {
      forall media :: media in device.cuts ==> media in cuts || CutFaithful(media, first, journal, journal)
    }

    // The cursor is where a scan of its block ends, with nothing unsent before it; what is behind it does not parse
    // only in the write block. A block given up is one that does not parse to its end.
    ghost predicate AtFirstUnsent()
      reads sequence`read, sequence`cursor, sequence`write, sequence`writeBlockCorrupt, device`blocks
    {
      && sequence.read in device.blocks && sequence.write in device.blocks
      && (sequence.writeBlockCorrupt ==> !records.lay.Clean(device.blocks[sequence.write]))
      && (records.Found(device.blocks[sequence.read], sequence.cursor, ScanClean) ||
          (sequence.read == sequence.write && sequence.writeBlockCorrupt &&
           records.Found(device.blocks[sequence.read], sequence.cursor, ScanCorrupt)))
    }

    // A scan met damage before anything unsent: in a block now left behind, or in the write block.
    ghost predicate MetDamage(blocksThen: nat)
      reads sequence`read, sequence`cursor, sequence`order, device`blocks
    {
      || |sequence.order| < blocksThen
      || (sequence.read in device.blocks && records.Found(device.blocks[sequence.read], sequence.cursor, ScanCorrupt))
    }

    lemma LeftIsDamage(blocksThen: nat)
      ensures |sequence.order| < blocksThen ==> MetDamage(blocksThen)
    {
    }

    // A resume has found where reading starts, or failed.
    ghost predicate Scanned(scanned: ScanResult, first: State, cuts: iset<Media>)
      reads this`frozen, this`freezes, this`journal,
            sequence`read, sequence`cursor, sequence`write, sequence`position, sequence`writeBlockCorrupt,
            sequence`order, sequence`oldest, sequence`readBlockSizeKnown, sequence`readBlockSize,
            sequence`deviceFailed, sequence.present, records, device`blocks, device`failure, device`callsAfterFailure,
            device`cuts
    {
      if scanned == ScanDeviceFailed || sequence.deviceFailed then
        FrozenAs({SizeFailed, ReadFailed, DisposeFailed}) && FailureLeaves(device.blocks, first)
      else
        && Resumed() && first.Core() && NoLonger(first, sequence.Now()) && CutsShow(first, cuts) && AtFirstUnsent()
        && (sequence.writeBlockCorrupt || records.lay.Clean(device.blocks[sequence.read][..sequence.cursor]))
    }

    lemma ScannedMeans(scanned: ScanResult, first: State, cuts: iset<Media>)
      requires Scanned(scanned, first, cuts)
      ensures scanned == ScanDeviceFailed || sequence.deviceFailed ==>
                && frozen && FrozenAs({SizeFailed, ReadFailed, DisposeFailed})
                && FailureLeaves(device.blocks, first)
      ensures scanned != ScanDeviceFailed && !sequence.deviceFailed ==>
                && Resumed() && Wired() && !frozen && first.Core() && sequence.Now().Core()
                && NoLonger(first, sequence.Now())
                && CutsShow(first, cuts) && AtFirstUnsent()
                && (sequence.writeBlockCorrupt || records.lay.Clean(device.blocks[sequence.read][..sequence.cursor]))
    {
    }

    lemma CheckedMeans(first: State)
      requires Resumed() && first.Core() && NoLonger(first, sequence.Now().(corrupt := false))
      requires !sequence.writeBlockCorrupt ==> records.lay.Clean(device.blocks[sequence.write])
      ensures sequence.Now().Core() && NoLonger(first, sequence.Now())
      ensures Span(first.order, first.modulus) < first.modulus ==> Working()
      ensures sequence.Rotating()
    {
    }

    method ScanAndAbandon(ghost first: State, ghost cuts: iset<Media>) returns (scanned: ScanResult, abandoned: bool)
      requires Unscanned(first, cuts)
      modifies this`frozen, this`freezes, this`lossReported, this`reports, sequence, sequence.present,
               records`hasReadRecord, device
      ensures if abandoned then Unscanned(first, cuts) else Scanned(scanned, first, cuts)
      ensures abandoned ==> |sequence.order| < |old(sequence.order)|
      ensures LossesSince(old(lossReported), old(reports)) && (abandoned ==> lossReported)
      ensures !abandoned && scanned != ScanDeviceFailed && !sequence.deviceFailed ==>
                && |sequence.order| == |old(sequence.order)|
                && (lossReported <==> old(lossReported) || MetDamage(|old(sequence.order)|))
    {
      hide MetDamage, FailureLeaves, Fits, Span, State.Core, State.Left, State.GivenUp, sequence.MapAgrees,
        NothingHere, NoLonger, CutFaithful, Layout.Clean, Layout.Unsent, Layout.Whole, Layout.FinishedWith;
      abandoned := false;
      ghost var unscanned := sequence.Now();
      scanned := ScanReadBlock();
      if scanned != ScanDeviceFailed {
        CursorNoLonger(first, unscanned, sequence.cursor);
      } else {
        FailedReading(first, unscanned, device.blocks);
      }
      if scanned == ScanCorrupt {
        ghost var s := sequence.Now();
        CorruptAhead(s, records, scanned);
        AbandonCuts(first, s, journal);
        abandoned := AbandonRestOfReadBlock();
        if sequence.deviceFailed {
          FailedReading(first, s, device.blocks);
        } else if !abandoned {
          ScanEnded(s, scanned);
        }
      } else if scanned == ScanClean {
        ScanEnded(sequence.Now(), scanned);
      }
    }

    lemma ScanEnded(s: State, scanned: ScanResult)
      requires Resumed() && s.Core() && records.Found(s.blocks[s.read], s.cursor, scanned) && !s.corrupt
      requires scanned == ScanClean ==> sequence.Now() == s
      requires scanned == ScanCorrupt ==> s.read == s.write && sequence.Now() == s.GivenUp()
      ensures AtFirstUnsent() && |sequence.order| == |s.order|
      ensures MetDamage(|s.order|) <==> scanned == ScanCorrupt
    {
      hide State.Core;
      ResumedIsSound();
      s.Basics();
      if scanned == ScanClean && s.cursor == |s.blocks[s.read]| {
        assert s.blocks[s.read][..s.cursor] == s.blocks[s.read];
      }
    }

    // Leaves the cursor on something unsent, or, where nothing is, as far as the block parses.
    method ScanReadBlock() returns (scanned: ScanResult)
      requires Resumed() && sequence.cursor == 0 && journal.settled == [] && !records.hasReadRecord
      modifies this`frozen, this`freezes, sequence`cursor, sequence`readBlockSize, sequence`readBlockSizeKnown,
               sequence`deviceFailed, sequence`failedOperation, device`failure, device`callsAfterFailure
      ensures scanned == ScanDeviceFailed ==> FrozenAs({SizeFailed, ReadFailed})
      ensures scanned != ScanDeviceFailed ==>
                && Resumed() && sequence.Now() == old(sequence.Now()).(cursor := sequence.cursor)
                && records.Found(device.blocks[sequence.read], sequence.cursor, scanned)
      ensures records.hasReadRecord == old(records.hasReadRecord)
    {
      hide State.Core, Fits, records.Found, journal.Balanced, Resumed, FrozenAs, sequence.MapAgrees,
        sequence.Rotating, sequence.Failed, MemoryAt;
      scanned := ScanDeviceFailed;
      ResumedIsSound();
      ghost var s := sequence.Now();
      var known, size := sequence.ReadBlockSize();
      if known {
        RotatingIsSound();
        var cursor;
        cursor, scanned := records.FindFirstUnsent(device, sequence.read, size);
        if scanned != ScanDeviceFailed {
          CursorFound(s, records, journal, cursor, scanned);
        }
        sequence.SetReadCursor(cursor);
        if scanned == ScanDeviceFailed {
          Freeze(ReadFailed);
          FrozenByCall(ReadFailed, {SizeFailed, ReadFailed});
        } else {
          NoMemory(s.(cursor := cursor));
          ResumedAt(s.(cursor := cursor));
        }
      } else {
        Freeze(SizeFailed);
        FailedSize();
        FrozenByCall(SizeFailed, {SizeFailed, ReadFailed});
      }
    }

    lemma NoMemory(s: State)
      requires !records.hasReadRecord
      ensures MemoryAt(s)
    {
    }

    lemma RotatingIsSound()
      requires sequence.Rotating() && Wired()
      ensures SequenceAt(sequence.Now()) && device.Healthy() && sequence.read in device.blocks
    {
      hide State.Core, sequence.MapAgrees;
      sequence.Now().Basics();
    }

    lemma FailedSize()
      requires sequence.Failed({SizeFailed})
      ensures sequence.device.LeftAlone() && sequence.device.failure.FirstFailure?
      ensures Names(SizeFailed, sequence.device.failure.call)
    {
    }

    // Torn or foreign bytes behind the last whole record bar this block from further appends.
    method CheckWriteBlock()
      requires Resumed() && (sequence.writeBlockCorrupt || records.lay.Clean(device.blocks[sequence.read][..sequence.cursor]))
      modifies this`frozen, this`freezes, sequence`writeBlockCorrupt, device`failure, device`callsAfterFailure
      ensures frozen ==> FrozenAs({ReadFailed})
      ensures !frozen ==>
                && Resumed() && sequence.Now() == old(sequence.Now()).(corrupt := sequence.writeBlockCorrupt)
                && (sequence.writeBlockCorrupt <==>
                      old(sequence.writeBlockCorrupt) || !records.lay.Clean(device.blocks[sequence.write]))
    {
      hide State.Core, Fits, journal.Balanced, Layout.Clean, Resumed, FrozenAs, sequence.MapAgrees, MemoryAt;
      ResumedIsSound();
      ghost var s := sequence.Now();
      s.Basics();
      var from := if sequence.read != sequence.write then 0 else sequence.cursor;
      var scanned := records.ScanToEnd(device, sequence.write, from, sequence.position);
      if scanned == ScanDeviceFailed {
        Freeze(ReadFailed);
        FrozenByCall(ReadFailed, {ReadFailed});
      } else {
        WriteBlockChecked(s, journal, scanned == ScanClean);
        if scanned == ScanCorrupt {
          sequence.MarkWriteBlockCorrupt();
        }
        MemoryAside(s, sequence.writeBlockCorrupt);
        ResumedAt(s.(corrupt := sequence.writeBlockCorrupt));
      }
    }

    lemma MemoryAside(s: State, corrupt: bool)
      requires MemoryAt(s)
      ensures MemoryAt(s.(corrupt := corrupt))
    {
    }
  }

  // The policy was asked to open each of so many of the oldest waiting records, all of which it rejected, and the
  // next of them if there is an answer besides.
  ghost predicate Judged(since: seq<Judgement>, judged: seq<Judgement>, waiting: seq<Record>, rejected: nat,
                         answer: seq<Verdict>)
  {
    && rejected <= |waiting| && (answer != [] ==> rejected < |waiting|)
    && judged == since + Each(waiting[..rejected], Verdict.Rejected) +
                 if answer == [] then [] else [Judgement(waiting[rejected], answer[0])]
  }

  lemma NoneJudged(judged: seq<Judgement>, waiting: seq<Record>)
    ensures Judged(judged, judged, waiting, 0, [])
  {
    assert Each(waiting[..0], Verdict.Rejected) == [];
  }

  // One answer more, to one record more rejected, or to the one the read rests on, or none.
  lemma JudgedNext(since: seq<Judgement>, was: seq<Judgement>, before: Ledger, mid: Ledger, rejected: nat, s: State,
                   records: RecordStore, r: ReadResult)
    requires s.Core() && Fits(mid, s) && Rejects(before, mid, rejected) && s.lay == records.lay
    requires r == ReadDeviceFailed || records.Reads(s.blocks[s.read], s.cursor, r)
    requires Judged(since, was, before.waiting, rejected, [])
    ensures Judged(since, was + records.Answer(s.blocks[s.read], s.cursor, r), before.waiting,
                   rejected + if r == RecordRejected then 1 else 0, Ending(r))
  {
    hide Fits, State.Core, Layout.Message, Layout.Whole, Layout.FinishedWith, Rejects, Each;
    s.Basics();
    if r in {ReadSucceeded, RecordRejected, CouldNotOpen} {
      OldestAtCursor(before, mid, rejected, s);
    }
    if r == RecordRejected {
      EachNext(before.waiting, rejected, Verdict.Rejected);
    }
  }

  // The record at the cursor is the oldest waiting that was not rejected.
  lemma OldestAtCursor(before: Ledger, mid: Ledger, rejected: nat, s: State)
    requires s.Core() && Fits(mid, s) && Rejects(before, mid, rejected) && s.RecordAtCursor()
    ensures rejected < |before.waiting|
    ensures before.waiting[rejected] == s.lay.Message(s.blocks[s.read][s.cursor..])
  {
    hide Fits, State.Core, Layout.Message, Layout.Whole, State.Pending, J.With;
    s.Basics();
    StepsFrom(s, mid);
  }

  // What the policy said of the record a read came to rest on.
  function Ending(r: ReadResult): seq<Verdict> {
    if r == ReadSucceeded || r == CouldNotOpen then [VerdictFor(r)] else []
  }

  lemma SettledBalance(s: State, j: Ledger, fate: J.Fate)
    requires s.Core() && Fits(j, s) && j.waiting != []
    ensures j.Settle(1, fate).Balanced()
  {
    j.SettleKeepsBalance(1, fate);
  }

  // A scan from the start of a block leaves nothing unsent behind it.
  lemma CursorFound(s: State, records: RecordStore, j: Ledger, cursor: nat, scanned: ScanResult)
    requires s.Core() && s.cursor == 0 && Fits(j, s) && j.settled == [] && s.lay == records.lay
    requires records.Found(s.blocks[s.read], cursor, scanned)
    ensures s.(cursor := cursor).Core() && Fits(j, s.(cursor := cursor))
    ensures scanned == ScanCorrupt ==> NothingHere(s.(cursor := cursor))
  {
    hide Ordered, UnsentOver, Layout.Clean, Layout.Unsent, Layout.Whole, Layout.FinishedWith;
    var b := s.blocks[s.read];
    assert b[0..] == b && b[..0] == [] && b[..|b|] == b;
    s.lay.NothingInNothing();
    if scanned == ScanClean {
      s.lay.SplitAtBoundary(b, cursor);
    } else {
      assert b[|b|..] == [];
    }
  }

  lemma LedgerOpens(s: State)
    requires s.Core() && s.cursor == 0
    ensures var unsent := UnsentOver(s.lay, s.blocks, s.order);
            && Fits(J.Journal(unsent, [], unsent), s)
            && CutFaithful(s.blocks, s, J.Journal(unsent, [], unsent), J.Journal(unsent, [], unsent))
  {
    hide Ordered, UnsentOver, Layout.Clean, Layout.Unsent, CutFaithful;
    var unsent := UnsentOver(s.lay, s.blocks, s.order);
    assert s.blocks[s.read][..0] == [];
    s.lay.NothingInNothing();
    s.MediaIsSkippedThenPending();
    assert [] + unsent == unsent;
    UnchangedCutFaithful(s, J.Journal(unsent, [], unsent));
  }

  // The write block is whole to its end exactly where the records from the last boundary known run to it.
  lemma WriteBlockChecked(s: State, j: Ledger, whole: bool)
    requires s.Core() && Fits(j, s) && (s.corrupt || s.lay.Clean(s.blocks[s.read][..s.cursor]))
    requires whole <==> s.lay.Clean(s.blocks[s.write][if s.read != s.write then 0 else s.cursor..])
    ensures s.(corrupt := true).Core() && Fits(j, s.(corrupt := true))
    ensures !s.corrupt ==> (whole <==> s.lay.Clean(s.blocks[s.write]))
  {
    hide Ordered, UnsentOver, Layout.Clean, Layout.Unsent;
    var b := s.blocks[s.write];
    assert b[0..] == b;
    if s.read == s.write && !s.corrupt {
      s.lay.SplitAtBoundary(b, s.cursor);
    }
    FitsMoved(j, s, s.(corrupt := true));
  }

  lemma CorruptAhead(s: State, records: RecordStore, scanned: ScanResult)
    requires s.Core() && s.lay == records.lay && scanned == ScanCorrupt
    requires records.Found(s.blocks[s.read], s.cursor, scanned)
    ensures NothingHere(s)
  {
    assert s.blocks[s.read][s.cursor..] == [];
  }

  // Leaving a block shows what was waiting, and so does what a resume found before it.
  lemma AbandonCuts(first: State, s: State, j: Ledger)
    requires first.Core() && s.Core() && Fits(j, s) && NoLonger(first, s) && NothingHere(s)
    ensures s.read != s.write ==>
              && |s.order| > 1 && s.Left().Core() && NoLonger(first, s.Left()) && CutFaithful(s.Left().blocks, first, j, j)
              && |s.Left().order| < |s.order| && s.Left().cursor == 0 && s.Left().corrupt == s.corrupt
    ensures s.read == s.write ==> s.GivenUp().Core() && s.GivenUp().corrupt && NoLonger(first, s.GivenUp())
  {
    hide Fits, Ordered, UnsentOver, Layout.Clean, Layout.Whole, State.Pending, State.Skipped, CutFaithful;
    if s.read != s.write {
      LeftBehind(s, j);
      NoLongerTrans(first, s, s.Left());
      assert j.waiting[0..] == j.waiting;
      StateCutFaithful(first, j, j, j, s.Left(), 0);
    } else {
      GaveUp(s, j);
      NoLongerTrans(first, s, s.GivenUp());
    }
  }

  lemma CursorNoLonger(first: State, s: State, cursor: nat)
    requires first.Core() && s.Core() && NoLonger(first, s) && s.(cursor := cursor).Core()
    ensures NoLonger(first, s.(cursor := cursor))
  {
  }

  // ----- Restart -----

  /** Power comes back after a cut anywhere in an operation: the store built on what the media holds either
      meets a device that fails, and freezes, or waits to deliver what was unsent at the cut. It does so for
      every run that left a number unused and whose holes are small, and so for every one without holes that
      had a number to spare. */
  method Restart(media: Media, lay: Layout, modulus: nat, maxBlocks: nat, maxBlockSize: nat,
                 ghost start: State, ghost before: Ledger, ghost after: Ledger)
    returns (store: BlockStore)
    requires lay.Sound() && 4 <= modulus && 2 <= maxBlocks && maxBlocks + 2 <= modulus
    requires start.Core() && start.lay == lay && start.modulus == modulus && start.maxBlocks == maxBlocks
    requires CutFaithful(media, start, before, after)
    ensures fresh(store) && store.records.lay == lay && store.sequence.modulus == modulus
    ensures store.sequence.maxBlocks == maxBlocks && store.sequence.maxBlockSize == maxBlockSize
    ensures store.frozen || (exists s :: 0 <= s < modulus && s !in media) ==> store.Valid()
    ensures !store.frozen ==>
              && store.journal == J.Journal(store.journal.waiting, [], store.journal.waiting)
              && store.sequence.Rotating() && store.AtFirstUnsent()
    ensures !store.frozen ==>
              forall order: seq<nat>, skipped: seq<Record>, k: nat, m: nat ::
                CutShown(media, start, before, after, order, skipped, k, m) &&
                Span(order, modulus) < modulus && HolesSmall(media, order, modulus) ==>
                  UnsentAtCut(store.journal.waiting, before, after, skipped, k, m)
    ensures !store.frozen && Span(start.order, modulus) + 1 < modulus && Contiguous(start.order, modulus) ==>
              store.Valid() && ShowsUnsent(store.journal.waiting, before, after)
  {
    hide BlockStore.Valid, State.Core, Fits, Ordered, Span, Contiguous, UnsentOver, CutFaithful, TakesUp, ShowsUnsent,
      NoLonger, CutShown, HolesSmall, UnsentAtCut;
    var device := new BlockDevice(media);
    var sequence := new BlockSequence(device, lay, modulus, maxBlocks, maxBlockSize, false);
    var policy := new SecurityPolicy(lay);
    var records := new RecordStore(policy);
    store := new BlockStore(device, sequence, records);
    SomeBlockShown(media, start, before, after);
    ghost var first := store.Initialise();
    if !store.frozen {
      WhatIsTakenUp(media, start, before, after, first);
    }
  }

  lemma WhatIsTakenUp(media: Media, start: State, before: Ledger, after: Ledger, first: State)
    requires start.Core() && CutFaithful(media, start, before, after)
    requires first.Core() && first.blocks == media && first.lay == start.lay && first.modulus == start.modulus
    requires TakesUp(first)
    ensures (exists s :: 0 <= s < start.modulus && s !in media) ==> Span(first.order, first.modulus) < first.modulus
    ensures forall order: seq<nat>, skipped: seq<Record>, k: nat, m: nat ::
              CutShown(media, start, before, after, order, skipped, k, m) &&
              Span(order, start.modulus) < start.modulus && HolesSmall(media, order, start.modulus) ==>
                UnsentAtCut(UnsentOver(first.lay, media, first.order), before, after, skipped, k, m)
    ensures Span(start.order, start.modulus) + 1 < start.modulus && Contiguous(start.order, start.modulus) ==>
              && Span(first.order, first.modulus) < first.modulus
              && ShowsUnsent(UnsentOver(first.lay, media, first.order), before, after)
  {
    hide UnsentOver, HolesSmall, ShowsUnsent, CutFaithful, Contiguous;
    forall order: seq<nat>, skipped: seq<Record>, k: nat, m: nat |
        CutShown(media, start, before, after, order, skipped, k, m) &&
        Span(order, start.modulus) < start.modulus && HolesSmall(media, order, start.modulus)
      ensures UnsentAtCut(UnsentOver(first.lay, media, first.order), before, after, skipped, k, m)
    {
      TakenUpAfterCut(media, start, before, after, first, order, skipped, k, m);
    }
    if Span(start.order, start.modulus) + 1 < start.modulus && Contiguous(start.order, start.modulus) {
      WholeRunTakenUp(media, start, before, after, first);
    }
  }

  lemma SomeBlockShown(media: Media, start: State, before: Ledger, after: Ledger)
    requires start.Core() && CutFaithful(media, start, before, after)
    ensures exists s :: 0 <= s < start.modulus && s in media
  {
    var order: seq<nat>, skipped: seq<Record>, k: nat, m: nat :|
      CutShown(media, start, before, after, order, skipped, k, m);
    assert order[0] in order;
  }
}
