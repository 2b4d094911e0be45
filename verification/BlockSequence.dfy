/** The rotating run of blocks: those present, and two places in it, one of the writes and one of the read. */
module BlockSequence {
  import opened Bytes
  import opened BlockDevice
  import opened DiscardPolicy
  import opened RecordLayout
  import opened SequenceSpace
  import opened SequenceModel
  import opened GapWalk
  import opened RunOrder

  datatype StoreError =
    | SizeFailed | OpenFailed | DisposeFailed | RotateFailed | ReadFailed | AppendFailed | MarkSentFailed | NoError

  // The error that reports a failed device call.
  predicate Names(error: StoreError, call: Call) {
    match call
    case AcquireCall => error == OpenFailed || error == RotateFailed
    case DisposeCall => error == DisposeFailed
    case ReadCall => error == ReadFailed
    case AppendCall => error == AppendFailed
    case WriteAtCall => error == MarkSentFailed
    case SizeCall => error == SizeFailed
  }

  // One look at the capacity threshold: the bytes in use, and the threshold the integrator answered with.
  datatype Check = Check(used: nat, threshold: nat)
  {
    predicate Above() {
      threshold != 0 && used >= threshold
    }
  }

  function Crossed(before: bool, checks: seq<Check>): bool {
    if checks == [] then before else checks[|checks| - 1].Above()
  }

  // How many of the checks found the threshold crossed where the one before had not.
  function Rises(before: bool, checks: seq<Check>): nat {
    if checks == [] then 0
    else
      var n := |checks| - 1;
      Rises(before, checks[..n]) + if checks[n].Above() && !Crossed(before, checks[..n]) then 1 else 0
  }

  lemma {:induction false} ChecksConcat(before: bool, a: seq<Check>, b: seq<Check>)
    ensures Crossed(before, a + b) == Crossed(Crossed(before, a), b)
    ensures Rises(before, a + b) == Rises(before, a) + Rises(Crossed(before, a), b)
  {
    if b == [] {
      assert a + b == a;
    } else {
      var n := |b| - 1;
      assert (a + b)[..|a| + n] == a + b[..n];
      ChecksConcat(before, a, b[..n]);
    }
  }

  // The looks taken so far, and what came of them.
  datatype Watch = Watch(checks: seq<Check>, crossed: bool, reports: nat)
  {
    // One look more for each of these counts of bytes in use, a crossing reported where one began.
    ghost predicate Saw(after: Watch, enabled: bool, used: seq<nat>) {
      && checks <= after.checks && |after.checks| == |checks| + (if enabled then |used| else 0)
      && (forall i :: |checks| <= i < |after.checks| ==> after.checks[i].used == used[i - |checks|])
      && after.crossed == Crossed(crossed, after.checks[|checks|..])
      && after.reports == reports + Rises(crossed, after.checks[|checks|..])
    }

    lemma SawMore(mid: Watch, after: Watch, enabled: bool, used: seq<nat>, more: seq<nat>)
      requires Saw(mid, enabled, used) && mid.Saw(after, enabled, more)
      ensures Saw(after, enabled, used + more)
    {
      hide Crossed, Rises;
      var a, b := mid.checks[|checks|..], after.checks[|mid.checks|..];
      assert after.checks[|checks|..] == a + b;
      ChecksConcat(crossed, a, b);
      forall i | |checks| <= i < |after.checks|
        ensures after.checks[i].used == (used + more)[i - |checks|]
      {
        if i < |mid.checks| {
          assert after.checks[i] == mid.checks[i];
        }
      }
    }

    lemma SawNothing(enabled: bool)
      ensures Saw(this, enabled, [])
    {
      assert checks[|checks|..] == [];
    }
  }

  lemma MapWithoutOldest(present: seq<bool>, order: seq<nat>)
    requires MapMatches(present, order) && Ordered(order, |present|)
    ensures MapMatches(present[order[0] := false], order[1..])
  {
    OrderedDistinct(order, |present|);
    assert order == [order[0]] + order[1..];
  }

  // A rotation step by step, as its two endings have it.
  ghost predicate RotationMeans(s: State) {
    && s.Core() && Span(s.order, s.modulus) < s.modulus && s.Rotated().Core() && s.Rotated().Settled().Core()
    && s.AfterRotation().Inv()
    && var r := s.Rotated().Settled();
       && s.RotationChecks() == (if s.Rotated().Drained() then [r.Used()] else [])
       && s.RotationCuts() == iset{s.Rotated().blocks, r.blocks, s.AfterRotation().blocks}
       && (s.RotationEvicts() <==> r.OverCeiling())
       && (r.OverCeiling() ==> |r.order| > 1 && s.AfterRotation() == r.Left())
       && (!r.OverCeiling() ==> s.AfterRotation() == r)
       && (s.AfterRotation().read != s.read <==> s.Rotated().Drained() || r.OverCeiling())
  }

  lemma RotationIs(s: State)
    requires s.Inv()
    ensures RotationMeans(s)
  {
    hide Ordered, Contiguous, Span, Layout.Unsent, Layout.Clean, UnsentOver, State.Core, State.Pending, State.Skipped,
      State.Left, State.Used;
    s.RotatedCore();
    s.RotationKeeps();
    s.RotationMovesRead();
    s.Rotated().SettledCore();
    if s.Rotated().Settled().OverCeiling() {
      s.Rotated().Settled().MoreThanOne();
    }
  }

  lemma MapWithNewest(present: seq<bool>, order: seq<nat>, next: nat)
    requires MapMatches(present, order) && next < |present|
    ensures MapMatches(present[next := true], order + [next])
  {
  }

  class BlockSequence {
    const device: BlockDevice
    ghost const lay: Layout
    const modulus: nat
    const maxBlocks: nat
    const maxBlockSize: nat
    const thresholdEnabled: bool
    const present: array<bool>
    var atCapacity: bool
    var thresholdCrossed: bool
    var thresholdReports: nat
    var oldest: nat
    var read: nat
    var write: nat
    var cursor: nat
    var readBlockSize: nat
    var readBlockSizeKnown: bool
    var position: nat
    var writeBlockCorrupt: bool
    var deviceFailed: bool
    var evictedUnsent: bool
    var failedOperation: StoreError

    ghost var order: seq<nat>
    ghost var checks: seq<Check>

    ghost function Now(): State
      reads this`read, this`cursor, this`write, this`position, this`writeBlockCorrupt, this`order, device`blocks
    {
      State(modulus, maxBlocks, maxBlockSize, lay, read, cursor, write, position, writeBlockCorrupt, order,
            device.blocks)
    }

    // The map agrees with the device, and a cached read size with the block's; none is held for the write block.
    ghost predicate Agrees()
      reads this`read, this`write, this`order, device`blocks, this`oldest, this`readBlockSizeKnown,
            this`readBlockSize, present
    {
      MapAgrees() && SizeAgrees()
    }

    ghost predicate MapAgrees()
      reads this`read, this`order, this`oldest, present
    {
      present.Length == modulus && oldest == read && MapMatches(present[..], order)
    }

    ghost predicate SizeAgrees()
      reads this`read, this`write, device`blocks, this`readBlockSizeKnown, this`readBlockSize
    {
      readBlockSizeKnown ==> read != write && read in device.blocks && readBlockSize == |device.blocks[read]|
    }

    lemma ReadyIsSound()
      requires Ready()
      ensures Now().Inv() && Now().Core() && Agrees() && device.Healthy() && !deviceFailed
      ensures read < modulus && write < modulus && oldest == read && order != [] && read == order[0]
      ensures read in device.blocks && write in device.blocks && write == order[|order| - 1]
      ensures position == |device.blocks[write]| && cursor <= |device.blocks[read]|
    {
    }

    // Sound, but for the write block's end and the length of the run.
    ghost predicate Rotating()
      reads this`read, this`cursor, this`write, this`position, this`writeBlockCorrupt, this`order, device`blocks,
            this`oldest, this`readBlockSizeKnown, this`readBlockSize, this`deviceFailed, present, device`failure,
              device`callsAfterFailure
    {
      Now().Core() && Agrees() && device.Healthy() && !deviceFailed
    }

    ghost predicate Ready()
      reads this`read, this`cursor, this`write, this`position, this`writeBlockCorrupt, this`order, device`blocks,
            this`oldest, this`readBlockSizeKnown, this`readBlockSize, this`deviceFailed, present, device`failure,
              device`callsAfterFailure
    {
      Now().Inv() && Agrees() && device.Healthy() && !deviceFailed
    }

    // Sound, with every sequence number taken.
    ghost predicate Full()
      reads this`read, this`cursor, this`write, this`position, this`writeBlockCorrupt, this`order, device`blocks,
            this`oldest, this`readBlockSizeKnown, this`readBlockSize, this`deviceFailed, present, device`failure,
              device`callsAfterFailure
    {
      Rotating() && Span(order, modulus) == modulus
    }

    // The first failure is noted under one of these names, and the device has not been called since.
    ghost predicate Failed(among: set<StoreError>)
      reads this`deviceFailed, this`failedOperation, device`failure, device`callsAfterFailure
    {
      && deviceFailed && device.LeftAlone() && device.failure.FirstFailure?
      && Names(failedOperation, device.failure.call) && failedOperation in among
    }

    ghost function Watched(): Watch
      reads this`checks, this`thresholdCrossed, this`thresholdReports
    {
      Watch(checks, thresholdCrossed, thresholdReports)
    }

    constructor (device: BlockDevice, ghost lay: Layout, modulus: nat, maxBlocks: nat, maxBlockSize: nat,
                 thresholdEnabled: bool)
      requires 4 <= modulus
      ensures this.device == device && this.lay == lay && this.modulus == modulus
      ensures 2 <= this.maxBlocks && this.maxBlocks + 2 <= modulus
      ensures 2 <= maxBlocks && maxBlocks + 2 <= modulus ==> this.maxBlocks == maxBlocks
      ensures maxBlocks < 2 ==> this.maxBlocks == 2
      ensures maxBlocks + 2 > modulus ==> this.maxBlocks == modulus - 2
      ensures this.maxBlockSize == maxBlockSize && this.thresholdEnabled == thresholdEnabled
      ensures present.Length == modulus && fresh(present)
      ensures !atCapacity && !thresholdCrossed && thresholdReports == 0 && checks == []
      ensures !writeBlockCorrupt && !deviceFailed && !evictedUnsent
      ensures oldest == read == write == cursor == position == 0 && !readBlockSizeKnown && order == [0]
    {
      this.device, this.lay, this.modulus := device, lay, modulus;
      this.maxBlocks := if maxBlocks < 2 then 2 else if maxBlocks > modulus - 2 then modulus - 2 else maxBlocks;
      this.maxBlockSize, this.thresholdEnabled := maxBlockSize, thresholdEnabled;
      atCapacity, thresholdCrossed, thresholdReports := false, false, 0;
      oldest, read, write, cursor, position := 0, 0, 0, 0, 0;
      readBlockSize, readBlockSizeKnown := 0, false;
      writeBlockCorrupt, deviceFailed, evictedUnsent, failedOperation := false, false, false, NoError;
      order, checks := [0], [];
      present := new bool[modulus](i => false);
    }

    // ----- Small steps -----

    method NoteDeviceFailure(operation: StoreError)
      modifies this`deviceFailed, this`failedOperation
      ensures deviceFailed
      ensures failedOperation == if old(deviceFailed) then old(failedOperation) else operation
    {
      if !deviceFailed {
        deviceFailed := true;
        failedOperation := operation;
      }
    }

    method StartReadingBlock(s: nat)
      modifies this`read, this`cursor, this`readBlockSizeKnown
      ensures read == s && cursor == 0 && !readBlockSizeKnown
    {
      read, cursor, readBlockSizeKnown := s, 0, false;
    }

    method SetReadCursor(c: nat)
      modifies this`cursor
      ensures cursor == c
    {
      cursor := c;
    }

    method MarkWriteBlockCorrupt()
      modifies this`writeBlockCorrupt
      ensures writeBlockCorrupt
    {
      writeBlockCorrupt := true;
    }

    function BlockCount(): nat
      reads this`oldest, this`write
      requires oldest < modulus && write < modulus
    {
      Dist(oldest, write, modulus) + 1
    }

    function TotalBytes(): nat {
      BytesIn(maxBlocks, maxBlockSize)
    }

    function UsedBytes(): nat
      reads this`atCapacity, this`oldest, this`write, this`position
      requires oldest < modulus && write < modulus
    {
      if atCapacity then TotalBytes() else BytesIn(BlockCount() - 1, maxBlockSize) + position
    }

    lemma UsedIs()
      requires order != [] && oldest == order[0] < modulus && write == order[|order| - 1] < modulus
      ensures UsedBytes() == if atCapacity then TotalBytes() else Now().Used()
    {
    }

    predicate HasUnsent()
      reads this`read, this`write, this`cursor, this`position
    {
      read != write || cursor < position
    }

    // Notified once per climb: a look that sees the fill at the limit or past it where the look before saw less.
    method NotifyThresholdCrossed()
      requires oldest < modulus && write < modulus
      modifies this`thresholdCrossed, this`thresholdReports, this`checks
      ensures old(Watched()).Saw(Watched(), thresholdEnabled, [UsedBytes()])
    {
      ghost var before := checks;
      if thresholdEnabled {
        var threshold: nat := *;
        checks := checks + [Check(UsedBytes(), threshold)];
        assert checks[|before|..] == [Check(UsedBytes(), threshold)];
        if !(threshold != 0 && UsedBytes() >= threshold) {
          thresholdCrossed := false;
        } else if !thresholdCrossed {
          thresholdCrossed := true;
          thresholdReports := thresholdReports + 1;
        }
      }
    }

    method CheckThreshold()
      requires Rotating()
      modifies this`thresholdCrossed, this`thresholdReports, this`checks
      ensures Rotating() && Now() == old(Now())
      ensures old(Watched()).Saw(Watched(), thresholdEnabled, [if atCapacity then TotalBytes() else Now().Used()])
    {
      hide Layout.Clean, Layout.Unsent, State.Core, Ordered, MapMatches, UnsentOver, UsedBytes, State.Used, Watch.Saw;
      Now().Basics();
      UsedIs();
      NotifyThresholdCrossed();
    }

    // ----- Finding the next block -----

    // Looks at one number after another for a block; the target is further on, so the search ends.
    method NextPresentSequence(current: nat, ghost target: nat) returns (next: nat)
      requires present.Length == modulus && current < modulus && target < modulus
      requires current != target && present[target]
      ensures next < modulus && present[next] && next != current
      ensures forall d :: 1 <= d < Dist(current, next, modulus) ==> !present[On(current, d, modulus)]
    {
      next := Next(current, modulus);
      ghost var d := 1;
      while !present[next]
        invariant 1 <= d <= Dist(current, target, modulus) && next == On(current, d, modulus)
        invariant forall e :: 1 <= e < d ==> !present[On(current, e, modulus)]
        decreases Dist(current, target, modulus) - d
      {
        next := Next(next, modulus);
        d := d + 1;
      }
    }

    method DisposeBlock(i: nat) returns (disposed: bool)
      requires present.Length == modulus && i < modulus && device.Healthy()
      modifies present, device
      ensures disposed ==>
                && device.Healthy() && device.blocks == old(device.blocks) - {i}
                && device.cuts == old(device.cuts) + iset{device.blocks}
                && present[..] == old(present[..])[i := false]
      ensures !disposed ==>
                && device.LeftAlone() && device.failure == FirstFailure(DisposeCall)
                && Disturbed(old(device.blocks), device.blocks, i) && present[..] == old(present[..])
    {
      disposed := device.Dispose(i);
      if disposed {
        present[i] := false;
      }
    }

    method AcquireBlock(i: nat) returns (acquired: bool)
      requires present.Length == modulus && i < modulus && device.Healthy()
      modifies present, device
      ensures acquired ==>
                && device.Healthy() && device.blocks == old(device.blocks)[i := []]
                && device.cuts == old(device.cuts) + iset{device.blocks}
                && present[..] == old(present[..])[i := true]
      ensures !acquired ==>
                && device.LeftAlone() && device.failure == FirstFailure(AcquireCall)
                && Disturbed(old(device.blocks), device.blocks, i) && present[..] == old(present[..])
    {
      acquired := device.Acquire(i);
      if acquired {
        present[i] := true;
      }
    }

    // ----- Leaving a block behind -----

    // With its old block out of the map, the read goes to the lowest number left in the run.
    method ReadOnFromNextPresent()
      requires present.Length == modulus && Ordered(order, modulus) && |order| > 1 && oldest == order[0]
      requires MapMatches(present[..], order[1..])
      modifies this`oldest, this`read, this`cursor, this`readBlockSizeKnown, this`order
      ensures order == old(order)[1..] && oldest == read == order[0] && cursor == 0 && !readBlockSizeKnown
    {
      SecondPresent(present[..], order);
      var next := NextPresentSequence(oldest, order[1]);
      SecondIsNext(order, present[..], next);
      oldest := next;
      StartReadingBlock(oldest);
      order := order[1..];
    }

    // Gives up the oldest block for the one after it, or notes that the device would not let it go.
    method DisposeOldestAndReadOn() returns (disposed: bool)
      requires Rotating() && |order| > 1
      modifies this`oldest, this`read, this`cursor, this`readBlockSizeKnown, this`order, this`deviceFailed,
               this`failedOperation, present, device
      ensures disposed ==>
                && Rotating() && Now() == old(Now()).Left()
                && device.cuts == old(device.cuts) + iset{device.blocks}
      ensures !disposed ==> Failed({DisposeFailed}) && Disturbed(old(device.blocks), device.blocks, old(read))
    {
      hide Layout.Unsent, Layout.Clean, MapMatches, UnsentOver, State.Core, Ordered, Span, Contiguous, State.Pending,
        State.Skipped, State.Left, SizeAgrees, Disturbed;
      ghost var s := Now();
      s.Basics();
      s.LeftCore();
      MapWithoutOldest(present[..], order);
      disposed := DisposeBlock(oldest);
      if disposed {
        ReadOnFromNextPresent();
        LeftAt(s);
      } else {
        NoteDeviceFailure(DisposeFailed);
      }
    }

    lemma LeftAt(s: State)
      requires s.Core() && |s.order| > 1 && s.Left().Core()
      requires Now() == s.(read := s.order[1], cursor := 0, order := s.order[1..], blocks := s.blocks - {s.read})
      requires present.Length == modulus && oldest == read && MapMatches(present[..], order) && !readBlockSizeKnown
      requires device.Healthy() && !deviceFailed
      ensures Rotating() && Now() == s.Left()
    {
      hide State.Core, MapMatches;
    }

    // ----- The read block -----

    // Answers from what was read before where it can; a device that cannot answer is noted as failed.
    method ReadBlockSize() returns (known: bool, size: nat)
      requires Rotating()
      modifies this`readBlockSize, this`readBlockSizeKnown, this`deviceFailed, this`failedOperation,
               device`failure, device`callsAfterFailure
      ensures known ==> Rotating() && Now() == old(Now()) && size == |device.blocks[read]|
      ensures !known ==> Failed({SizeFailed}) && device.failure == FirstFailure(SizeCall)
      ensures read == write || old(readBlockSizeKnown) ==> known
      ensures known ==> read == write || readBlockSizeKnown
    {
      hide Layout.Unsent, Layout.Clean, MapMatches, UnsentOver, State.Core, Ordered;
      Now().Basics();
      known := true;
      if read == write {
        size := position;
      } else if readBlockSizeKnown {
        size := readBlockSize;
      } else {
        known, size := device.Size(read);
        readBlockSize, readBlockSizeKnown := size, known;
        if !known {
          NoteDeviceFailure(SizeFailed);
        }
      }
    }

    // Called with nothing more to read here and the writes further on.
    method LeaveReadBlock()
      requires Rotating() && read != write
      modifies this, present, device
      ensures !deviceFailed ==>
                && Rotating() && |old(order)| > 1 && Now() == old(Now()).Left()
                && !atCapacity && old(Watched()).Saw(Watched(), thresholdEnabled, [Now().Used()])
                && device.cuts == old(device.cuts) + iset{device.blocks} && evictedUnsent == old(evictedUnsent)
      ensures deviceFailed ==> Failed({DisposeFailed}) && Disturbed(old(device.blocks), device.blocks, old(read))
    {
      Now().OneBlockIffAtWrite();
      var disposed := DisposeReadBlock();
    }

    method DisposeReadBlock() returns (disposed: bool)
      requires Rotating() && |order| > 1
      modifies this, present, device
      ensures disposed == !deviceFailed
      ensures disposed ==>
                && Rotating() && Now() == old(Now()).Left()
                && !atCapacity && old(Watched()).Saw(Watched(), thresholdEnabled, [Now().Used()])
                && device.cuts == old(device.cuts) + iset{device.blocks} && evictedUnsent == old(evictedUnsent)
      ensures !disposed ==> Failed({DisposeFailed}) && Disturbed(old(device.blocks), device.blocks, old(read))
    {
      hide Layout.Unsent, Layout.Clean, MapMatches, UnsentOver, State.Core, Ordered, Span, State.Left, State.Pending;
      disposed := DisposeOldestAndReadOn();
      if disposed {
        atCapacity := false;
        Now().Basics();
        CheckThreshold();
      }
    }

    method DisposeReadBlockIfDrained() returns (readBlockChanged: bool)
      requires Rotating() || (read == write && !deviceFailed)
      modifies this, present, device
      ensures old(read) == old(write) ==>
                !readBlockChanged && unchanged(this) && unchanged(present) && unchanged(device)
      ensures old(Rotating()) && !deviceFailed ==>
                && Rotating() && Now() == old(Now()).Settled() && readBlockChanged == old(Now()).Drained()
                && (readBlockChanged ==> device.cuts == old(device.cuts) + iset{device.blocks})
                && (!readBlockChanged ==> device.cuts == old(device.cuts))
                && evictedUnsent == old(evictedUnsent) && atCapacity == (old(atCapacity) && !readBlockChanged)
                && old(Watched()).Saw(Watched(), thresholdEnabled, if readBlockChanged then [Now().Used()] else [])
      ensures deviceFailed ==> Failed({SizeFailed, DisposeFailed}) && !readBlockChanged
      ensures deviceFailed && old(Rotating()) ==>
                && old(read) != old(write)
                && (device.blocks == old(device.blocks) ||
                    (old(Now()).Drained() && Disturbed(old(device.blocks), device.blocks, old(read))))
    {
      hide Layout.Unsent, Layout.Clean, MapMatches, UnsentOver, State.Core, Ordered, Watch.Saw, Names;
      readBlockChanged := false;
      Watched().SawNothing(thresholdEnabled);
      if read != write {
        Now().OneBlockIffAtWrite();
        Now().Basics();
        var known, size := ReadBlockSize();
        if known && cursor >= size {
          readBlockChanged := DisposeReadBlock();
        }
      }
    }

    // ----- Writing -----

    // Whatever the number still names is disposed of, so that the writes begin at offset zero.
    method AcquireEmptyBlock(i: nat) returns (ready: bool)
      requires device.Healthy() && !deviceFailed && present.Length == modulus && i < modulus
      modifies this`deviceFailed, this`failedOperation, present, device
      ensures ready ==>
                && device.Healthy() && !deviceFailed && device.blocks == old(device.blocks)[i := []]
                && present[..] == old(present[..])[i := true]
      ensures ready && i !in old(device.blocks) ==> device.cuts == old(device.cuts) + iset{device.blocks}
      ensures ready && i in old(device.blocks) ==>
                device.cuts == old(device.cuts) + iset{old(device.blocks) - {i}} + iset{device.blocks}
      ensures !ready ==> Failed({DisposeFailed, RotateFailed})
      ensures !ready && i !in old(device.blocks) ==> Disturbed(old(device.blocks), device.blocks, i)
    {
      ready := true;
      var exists_ := device.Exists(i);
      if exists_ {
        ready := DisposeBlock(i);
        if !ready {
          NoteDeviceFailure(DisposeFailed);
        }
      }
      if ready {
        ready := AcquireBlock(i);
        if !ready {
          NoteDeviceFailure(RotateFailed);
        }
      }
    }

    method DiscardOldestBlock() returns (readBlockChanged: bool)
      requires Rotating() && |order| > 1
      modifies this`evictedUnsent, this`oldest, this`read, this`cursor, this`readBlockSizeKnown, this`order,
               this`deviceFailed, this`failedOperation, present, device
      ensures readBlockChanged ==>
                && Rotating() && Now() == old(Now()).Left() && evictedUnsent
                && device.cuts == old(device.cuts) + iset{device.blocks}
      ensures !readBlockChanged ==>
                && Failed({DisposeFailed}) && Disturbed(old(device.blocks), device.blocks, old(read))
                && evictedUnsent == old(evictedUnsent)
    {
      hide Layout.Unsent, Layout.Clean, MapMatches, UnsentOver, State.Core, Ordered, Span, State.Left, State.Pending;
      readBlockChanged := DisposeOldestAndReadOn();
      if readBlockChanged {
        evictedUnsent := true;
      }
    }

    // The write moves on to a new, empty block, which the map and the run take in. Where every number is taken
    // the next is the oldest block's, disposed of unread.
    method AdvanceWriteToNewBlock() returns (acquired: bool)
      requires Rotating()
      modifies this`write, this`position, this`writeBlockCorrupt, this`order, this`deviceFailed, this`failedOperation,
               this`evictedUnsent, present, device
      ensures acquired ==>
                && Now() == old(Now()).Rotated() && MapAgrees() && !evictedUnsent && device.Healthy() && !deviceFailed
      ensures acquired && Next(old(write), modulus) !in old(device.blocks) ==>
                device.cuts == old(device.cuts) + iset{device.blocks}
      ensures !acquired ==> Failed({DisposeFailed, RotateFailed}) && write == old(write) && order == old(order)
      ensures !acquired && Next(old(write), modulus) !in old(device.blocks) ==>
                Disturbed(old(device.blocks), device.blocks, Next(old(write), modulus))
    {
      hide Layout.Unsent, Layout.Clean, MapMatches, State.Core, Names, SizeAgrees, device.Healthy;
      Now().Basics();
      var next := Next(write, modulus);
      MapWithNewest(present[..], order, next);
      acquired := AcquireEmptyBlock(next);
      if acquired {
        write := next;
        position := 0;
        writeBlockCorrupt := false;
        order := order + [next];
        evictedUnsent := false;
      }
    }

    // The write has overrun the read: a new, empty block where the oldest was, with nothing unsent in it and no
    // eviction noted.
    ghost predicate CameRound(blocks: Media)
      reads this`read, this`write, this`oldest, this`position, this`evictedUnsent, this`deviceFailed, device`blocks,
            device`failure, device`callsAfterFailure
    {
      && oldest == read == write < modulus && position == 0 && !evictedUnsent && !deviceFailed && device.Healthy()
      && device.blocks == blocks[read := []]
    }

    // A rotation that comes round loses the oldest block without a word, leaves the rest where no read goes, and
    // has nothing to say of either.
    method RotateToNextBlock() returns (acquired: bool, readBlockChanged: bool)
      requires Ready() || Full()
      modifies this, present, device
      ensures !deviceFailed && old(Ready()) ==>
                && acquired && Ready() && Now() == old(Now()).AfterRotation()
                && evictedUnsent == old(Now()).RotationEvicts()
                && readBlockChanged == (read != old(read))
                && device.cuts <= old(device.cuts) + old(Now()).RotationCuts()
                && old(Now()).Rotated().blocks in device.cuts
                && old(Watched()).Saw(Watched(), thresholdEnabled, old(Now()).RotationChecks())
      ensures !deviceFailed && old(Full()) ==>
                && acquired && !readBlockChanged && CameRound(old(device.blocks)) && read == old(read)
                && BlockCount() == 1 && !HasUnsent()
      ensures deviceFailed ==> Failed({DisposeFailed, RotateFailed, SizeFailed}) && (!acquired ==> !readBlockChanged)
      ensures deviceFailed && old(Ready()) ==> old(Now()).RotationFails(device.blocks)
    {
      hide Full, State.Drained, State.OverCeiling, Layout.Unsent, Layout.Clean, MapAgrees, SizeAgrees, UnsentOver,
        State.Core, Ordered, Span, Names, Watch.Saw, State.Used, device.Healthy, State.Inv, State.Left, State.Pending,
        State.Skipped, State.RotationCuts, State.RotationChecks, State.RotationEvicts, State.AfterRotation,
        State.Settled, State.RotationFails, Disturbed;
      readBlockChanged := false;
      ghost var before, full := Now(), Full();
      RotationIsSound();
      acquired := AdvanceWriteToNewBlock();
      if acquired {
        if !full {
          RotatingAfter(before);
        }
        readBlockChanged := GiveUpOld(before);
      } else if !full {
        FailedToAdvance(before, device.blocks);
      }
    }

    lemma FailedToAdvance(s: State, media: Media)
      requires s.Core() && Span(s.order, s.modulus) < s.modulus && Disturbed(s.blocks, media, Next(s.write, s.modulus))
      ensures s.RotationFails(media)
    {
      hide State.Core, Span, Disturbed;
    }

    // The old blocks a rotation leaves no room for: the one read, if it was done with, then the oldest.
    method GiveUpOld(ghost before: State) returns (readBlockChanged: bool)
      requires 2 <= maxBlocks && !deviceFailed && oldest == read < modulus && write < modulus
      requires read != write ==> before.Inv() && RotationMeans(before) && Rotating() && Now() == before.Rotated()
      modifies this, present, device
      ensures old(read) == old(write) ==>
                !readBlockChanged && unchanged(this) && unchanged(present) && unchanged(device)
      ensures old(read) != old(write) && !deviceFailed ==>
                && Ready() && Now() == before.AfterRotation()
                && evictedUnsent == (before.RotationEvicts() || old(evictedUnsent))
                && readBlockChanged == (read != old(read))
                && old(device.cuts) <= device.cuts <= old(device.cuts) + before.RotationCuts()
                && old(Watched()).Saw(Watched(), thresholdEnabled, before.RotationChecks())
      ensures old(read) != old(write) && deviceFailed ==> before.RotationFails(device.blocks)
      ensures deviceFailed ==> Failed({DisposeFailed, SizeFailed})
    {
      hide Layout.Unsent, Layout.Clean, MapAgrees, SizeAgrees, UnsentOver, State.Core, Ordered, Span, Names,
        Watch.Saw, State.Used, device.Healthy, State.Inv, State.Left, State.Pending, State.Skipped,
        State.RotationCuts, State.RotationChecks, State.RotationEvicts, State.AfterRotation, State.Settled,
        State.Drained, State.OverCeiling, Disturbed;
      readBlockChanged := DisposeReadBlockIfDrained();
      if !deviceFailed {
        var evicted := EvictIfOverCeiling();
        readBlockChanged := evicted || readBlockChanged;
      }
    }

    // The number after the write block's is of no block in the run, or, all being taken, the oldest block's.
    lemma RotationIsSound()
      requires Ready() || Full()
      ensures 2 <= maxBlocks && oldest == read < modulus && write < modulus && Rotating()
      ensures readBlockSizeKnown ==> read in device.blocks && readBlockSize == |device.blocks[read]|
      ensures Full() ==> !Ready() && Next(write, modulus) == read
      ensures Ready() ==>
                && Now().Inv() && Next(write, modulus) !in device.blocks && read != Next(write, modulus)
                && RotationMeans(Now())
    {
      if Ready() {
        Now().RotatedCore();
        RotationIs(Now());
      }
    }

    lemma RotatingAfter(s: State)
      requires s.Core() && s.Rotated().Core() && Now() == s.Rotated() && MapAgrees()
      requires readBlockSizeKnown ==> read in s.blocks && readBlockSize == |s.blocks[read]|
      requires read != write && device.Healthy() && !deviceFailed
      ensures Rotating()
    {
      hide State.Core, MapAgrees;
    }

    method EvictIfOverCeiling() returns (evicted: bool)
      requires Rotating() || (oldest == write < modulus && 2 <= maxBlocks && !deviceFailed)
      modifies this`evictedUnsent, this`oldest, this`read, this`cursor, this`readBlockSizeKnown, this`order,
               this`deviceFailed, this`failedOperation, present, device
      ensures old(oldest) == write ==> !evicted && unchanged(this) && unchanged(present) && unchanged(device)
      ensures !deviceFailed && old(Rotating()) ==>
                && Rotating() && evicted == old(Now()).OverCeiling()
                && (evicted ==> |old(order)| > 1 && Now() == old(Now()).Left() && evictedUnsent)
                && (!evicted ==> Now() == old(Now()) && evictedUnsent == old(evictedUnsent))
                && device.cuts <= old(device.cuts) + iset{device.blocks}
      ensures !evicted && !deviceFailed ==> device.cuts == old(device.cuts)
      ensures old(device.cuts) <= device.cuts || deviceFailed
      ensures deviceFailed ==> Failed({DisposeFailed})
      ensures deviceFailed && old(Rotating()) ==>
                old(Now()).OverCeiling() && Disturbed(old(device.blocks), device.blocks, old(read))
    {
      hide Layout.Unsent, Layout.Clean, MapMatches, UnsentOver, State.Core, Ordered, State.Left, State.Pending;
      evicted := false;
      if Rotating() {
        Now().Basics();
      }
      if BlockCount() > maxBlocks {
        Now().MoreThanOne();
        evicted := DiscardOldestBlock();
      }
    }

    method PrepareForWrite(recordSize: nat, policy: Policy) returns (spaceAvailable: bool, readBlockChanged: bool)
      requires Ready() || Full()
      modifies this, present, device
      ensures !deviceFailed ==> spaceAvailable == !old(Now()).Refuses(recordSize, policy)
      ensures !deviceFailed && old(Ready()) ==>
                && Ready()
                && Now() == (if old(Now()).Rotates(recordSize, policy) then old(Now()).AfterRotation() else old(Now()))
                && evictedUnsent == (if old(Now()).Rotates(recordSize, policy) then old(Now()).RotationEvicts()
                                     else old(evictedUnsent))
                && readBlockChanged == (read != old(read))
                && device.cuts <= old(device.cuts) +
                     (if old(Now()).Rotates(recordSize, policy) then old(Now()).RotationCuts() else iset{})
                && (old(Now()).Rotates(recordSize, policy) ==> old(Now()).Rotated().blocks in device.cuts)
                && old(Watched()).Saw(Watched(), thresholdEnabled, old(Now()).PreparedChecks(recordSize, policy))
      ensures !deviceFailed && old(Full()) && old(Now()).Rotates(recordSize, policy) ==>
                CameRound(old(device.blocks)) && read == old(read) && BlockCount() == 1 && !HasUnsent()
      ensures deviceFailed ==> Failed({DisposeFailed, RotateFailed, SizeFailed})
      ensures deviceFailed && old(Ready()) ==>
                old(Now()).Rotates(recordSize, policy) && old(Now()).RotationFails(device.blocks)
      ensures old(Now()).Refuses(recordSize, policy) ==> atCapacity && !deviceFailed
    {
      hide Layout.Unsent, Layout.Clean, MapMatches, UnsentOver, State.Core, Ordered, State.AfterRotation;
      Now().Basics();
      Watched().SawNothing(thresholdEnabled);
      readBlockChanged := false;
      spaceAvailable := true;
      var blockFull := writeBlockCorrupt || position + recordSize > maxBlockSize;
      if blockFull && BlockCount() >= maxBlocks && policy != Oldest {
        atCapacity := true;
        CheckThreshold();
        spaceAvailable := false;
      } else if blockFull {
        spaceAvailable, readBlockChanged := RotateToNextBlock();
      }
    }

    method NoteRecordWritten(recordSize: nat)
      requires Agrees() && device.Healthy() && !deviceFailed && Now().(position := position + recordSize).Inv()
      modifies this`position, this`atCapacity, this`thresholdCrossed, this`thresholdReports, this`checks
      ensures Ready() && Now() == old(Now()).(position := old(position) + recordSize) && !atCapacity
      ensures old(Watched()).Saw(Watched(), thresholdEnabled, [Now().Used()])
    {
      hide MapAgrees, State.Core, State.Inv, State.Used, UsedBytes, Watch.Saw;
      position := position + recordSize;
      atCapacity := false;
      assert Ready();
      ReadyIsSound();
      UsedIs();
      NotifyThresholdCrossed();
    }

    // ----- Opening -----

    // As the constructor leaves it, on a device not yet called.
    ghost predicate Fresh()
      reads this`read, this`cursor, this`write, this`position, this`writeBlockCorrupt, this`order, device`blocks,
            this`oldest, this`readBlockSizeKnown, this`readBlockSize, this`deviceFailed, present, device`failure,
              device`callsAfterFailure
    {
      && 4 <= modulus && 2 <= maxBlocks && maxBlocks + 2 <= modulus && present.Length == modulus
      && oldest == read == write == cursor == position == 0 && order == [0]
      && !readBlockSizeKnown && !writeBlockCorrupt && !deviceFailed && device.Healthy()
    }

    ghost predicate AnyPresent()
      reads device`blocks
    {
      exists s :: 0 <= s < modulus && s in device.blocks
    }

    // Asks the device for each number in turn; the answer is the highest it holds, negative for none.
    method ScanForBlockPresence() returns (lastPresent: int)
      requires present.Length == modulus && device.Healthy()
      modifies present, device`callsAfterFailure
      ensures device.Healthy()
      ensures forall s :: 0 <= s < modulus ==> (present[s] <==> s in device.blocks)
      ensures lastPresent == -1 <==> !AnyPresent()
      ensures lastPresent != -1 ==> 0 <= lastPresent < modulus && present[lastPresent]
      ensures forall s :: lastPresent < s < modulus ==> s !in device.blocks
    {
      lastPresent := -1;
      for s := 0 to modulus
        invariant device.Healthy() && -1 <= lastPresent < s
        invariant forall t :: 0 <= t < s ==> (present[t] <==> t in device.blocks)
        invariant lastPresent != -1 ==> present[lastPresent]
        invariant forall t :: lastPresent < t < s ==> t !in device.blocks
      {
        present[s] := device.Exists(s);
        if present[s] {
          lastPresent := s;
        }
      }
    }

    // Oldest and newest lie either side of the gap no other exceeds; reading begins at one, writing at the other.
    method ScanForExistingBlocks() returns (foundAny: bool)
      requires Fresh()
      modifies this`oldest, this`read, this`cursor, this`readBlockSizeKnown, this`write, this`order, present,
               device`callsAfterFailure
      ensures device.Healthy() && foundAny == AnyPresent() && cursor == 0 && !readBlockSizeKnown && oldest == read
      ensures forall s :: 0 <= s < modulus ==> (present[s] <==> s in device.blocks)
      ensures foundAny ==> TakenUp(present[..], order, read, write)
      ensures !foundAny ==>
                read == write == 0 && order == [0] && forall s :: 0 <= s < modulus ==> !present[s] && s !in device.blocks
    {
      hide TakenUp, Located;
      var lastPresent := ScanForBlockPresence();
      foundAny := lastPresent >= 0;
      if foundAny {
        var first, last := LocateRunBoundaries(present, lastPresent, 0, modulus - 1);
        order := TakeUp(present[..], lastPresent, first, last);
        oldest := first;
        StartReadingBlock(first);
        write := last;
      }
    }

    /** Takes up the run the device holds, or starts a new one; a device that fails is noted. */
    method Open() returns (ready: bool)
      requires Fresh()
      modifies this, present, device
      ensures ready == !deviceFailed
      ensures deviceFailed ==>
                && Failed({SizeFailed, OpenFailed})
                && (device.blocks == old(device.blocks) ||
                    (!old(AnyPresent()) && Disturbed(old(device.blocks), device.blocks, 0)))
      ensures ready ==>
                && Rotating() && cursor == 0 && !writeBlockCorrupt && evictedUnsent == old(evictedUnsent)
                && (old(AnyPresent()) ==>
                      && device.blocks == old(device.blocks) && device.cuts == old(device.cuts)
                      && TakenUp(present[..], order, read, write))
                && (!old(AnyPresent()) ==>
                      && device.blocks == old(device.blocks)[0 := []] && order == [0]
                      && device.cuts == old(device.cuts) + iset{device.blocks})
                && old(Watched()).Saw(Watched(), thresholdEnabled, [if atCapacity then TotalBytes() else Now().Used()])
    {
      hide State.Used, Watch.Saw, AnyPresent, Rotating, TakenUp, Layout.Clean, Layout.Unsent, State.Core, Ordered,
        Span, MapMatches, UnsentOver, Names;
      var foundExistingBlocks := ScanForExistingBlocks();
      if foundExistingBlocks {
        ready := OpenExisting();
      } else {
        ready := OpenNew();
      }
      if ready {
        CheckThreshold();
      }
    }

    method OpenExisting() returns (ready: bool)
      requires device.Healthy() && !deviceFailed && 2 <= maxBlocks && maxBlocks + 2 <= modulus == present.Length
      requires cursor == 0 && !readBlockSizeKnown && oldest == read && !writeBlockCorrupt
      requires forall s :: 0 <= s < modulus ==> (present[s] <==> s in device.blocks)
      requires TakenUp(present[..], order, read, write)
      modifies this`position, this`deviceFailed, this`failedOperation, device`failure, device`callsAfterFailure
      ensures ready ==> Rotating()
      ensures !ready ==> Failed({SizeFailed})
      ensures ready == !deviceFailed
    {
      hide Ordered, Layout.Clean, Layout.Unsent;
      var size;
      ready, size := device.Size(write);
      position := size;
      assert read in order && write in order;
      if ready {
        StartIsBoundary();
      } else {
        NoteDeviceFailure(SizeFailed);
      }
    }

    method OpenNew() returns (ready: bool)
      requires device.Healthy() && !deviceFailed && 2 <= maxBlocks && maxBlocks + 2 <= modulus == present.Length
      requires cursor == 0 && !readBlockSizeKnown && oldest == read == write == position == 0 && order == [0]
      requires forall s :: 0 <= s < modulus ==> !present[s] && s !in device.blocks
      modifies this`deviceFailed, this`failedOperation, present, device
      ensures ready ==>
                && Rotating() && device.blocks == old(device.blocks)[0 := []]
                && device.cuts == old(device.cuts) + iset{device.blocks}
      ensures !ready ==> Failed({OpenFailed}) && Disturbed(old(device.blocks), device.blocks, 0)
      ensures ready == !deviceFailed
    {
      hide Layout.Clean, Layout.Unsent;
      assert forall s :: 0 <= s < modulus ==> !present[..][s];
      ready := AcquireBlock(0);
      if !ready {
        NoteDeviceFailure(OpenFailed);
      }
    }

    lemma StartIsBoundary()
      requires read in device.blocks
      ensures lay.Clean(device.blocks[read][..0])
    {
      assert device.blocks[read][..0] == [];
    }
  }

  lemma SecondPresent(present: seq<bool>, order: seq<nat>)
    requires Ordered(order, |present|) && |order| > 1 && MapMatches(present, order[1..])
    ensures order[1] < |present| && order[0] != order[1] && present[order[1]]
  {
    OrderedDistinct(order, |present|);
    assert order[1..][0] == order[1];
  }

  // Going round from the oldest, the first block present beyond it is the second in order.
  lemma SecondIsNext(order: seq<nat>, present: seq<bool>, next: nat)
    requires Ordered(order, |present|) && |order| > 1 && MapMatches(present, order[1..])
    requires next < |present| && present[next] && next != order[0]
    requires forall d :: 1 <= d < Dist(order[0], next, |present|) ==> !present[On(order[0], d, |present|)]
    ensures next == order[1]
  {
    var k := Dist(order[0], order[1], |present|);
    assert order[1] in order[1..] && On(order[0], k, |present|) == order[1];
    assert k >= 1;
    var i :| 0 <= i < |order[1..]| && order[1..][i] == next;
    assert order[i + 1] == next;
  }
}
