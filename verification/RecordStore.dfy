/** Records in a block, one device call at a time: append, read, mark, and the two resume scans. */
module RecordStore {
  import opened Bytes
  import opened BlockDevice
  import opened RecordLayout
  import opened SecurityPolicy

  datatype AppendResult = AppendSucceeded | SealFailed | AppendDeviceFailed

  datatype ReadResult =
    | ReadSucceeded | EndOfData | Corrupt | RecordRejected | AlreadyFinished | CouldNotOpen | ReadDeviceFailed

  datatype MarkResult = MarkSucceeded | NothingRead | MarkDeviceFailed

  datatype ScanResult = ScanClean | ScanCorrupt | ScanDeviceFailed

  // The verdict behind what a read came to.
  function VerdictFor(r: ReadResult): Verdict {
    match r
    case ReadSucceeded => Opened
    case RecordRejected => Rejected
    case _ => NoVerdict
  }

  class RecordStore {
    const policy: SecurityPolicy
    const lay: Layout := policy.lay
    var hasReadRecord: bool
    var lastReadBlockIndex: nat
    var lastSentFlagOffset: nat

    constructor (policy: SecurityPolicy)
      ensures this.policy == policy && !hasReadRecord
    {
      this.policy := policy;
      hasReadRecord, lastReadBlockIndex, lastSentFlagOffset := false, 0, 0;
    }

    // The record last read is the one at an offset of a block.
    ghost predicate Remembers(index: nat, bytes: seq<byte>, offset: nat)
      reads this
    {
      && hasReadRecord && lastReadBlockIndex == index
      && offset <= |bytes| && lay.Whole(bytes[offset..])
      && lastSentFlagOffset == offset + lay.Size(bytes[offset..]) - SENT_FLAG_SIZE
    }

    method Append(device: BlockDevice, index: nat, data: Record) returns (r: AppendResult)
      requires lay.Sound() && |data| <= lay.maxMessageSize
      requires device.Healthy()
      modifies device, policy`sealings
      ensures policy.sealings == old(policy.sealings) + [Sealing(data, r != SealFailed)]
      ensures r == AppendSucceeded ==>
                && device.Healthy() && index in old(device.blocks)
                && device.blocks == old(device.blocks)[index := old(device.blocks)[index] + lay.Sealed(data)]
                && device.cuts == old(device.cuts) + AppendCuts(old(device.blocks), index, lay.Sealed(data))
      ensures r == SealFailed ==>
                device.Healthy() && device.blocks == old(device.blocks) && device.cuts == old(device.cuts)
      ensures r == AppendDeviceFailed ==>
                && device.LeftAlone() && device.failure == FirstFailure(AppendCall)
                && Disturbed(old(device.blocks), device.blocks, index)
    {
      var sealed, body, trailer := policy.SealRecord(data);
      r := SealFailed;
      if sealed {
        var appended := device.Append(index, lay.Assemble(body, trailer, FLAG_UNSENT));
        r := if appended then AppendSucceeded else AppendDeviceFailed;
      }
    }

    // ----- Reading -----

    method ReadSpan(device: BlockDevice, index: nat, offset: nat, count: nat, dataSize: nat)
      returns (r: ReadResult, data: seq<byte>)
      requires device.Healthy() && index in device.blocks && dataSize == |device.blocks[index]|
      modifies device`failure, device`callsAfterFailure
      ensures r == ReadSucceeded ==>
                device.Healthy() && offset + count <= dataSize && data == device.blocks[index][offset..offset + count]
      ensures r == Corrupt ==> device.Healthy()
      ensures r == Corrupt <==> offset + count > dataSize
      ensures r == ReadDeviceFailed ==> device.LeftAlone() && device.failure == FirstFailure(ReadCall)
      ensures r in {ReadSucceeded, Corrupt, ReadDeviceFailed}
    {
      r, data := Corrupt, [];
      if offset + count <= dataSize {
        var ok;
        ok, data := device.Read(index, offset, count);
        r := if ok then ReadSucceeded else ReadDeviceFailed;
      }
    }

    // How far a record reaches, from its header alone, if the data reach as far.
    method ReadRecordExtent(device: BlockDevice, index: nat, offset: nat, dataSize: nat)
      returns (r: ReadResult, length: nat)
      requires device.Healthy() && index in device.blocks && offset <= dataSize == |device.blocks[index]|
      modifies device`failure, device`callsAfterFailure
      ensures var s := device.blocks[index][offset..];
              && (r == ReadSucceeded ==> device.Healthy() && lay.Whole(s) && length == lay.HeaderLength(s))
              && (r == Corrupt ==> device.Healthy() && offset < dataSize && !lay.Whole(s))
              && (r == EndOfData ==> device.Healthy() && offset == dataSize)
      ensures var s := device.blocks[index][offset..];
              && (r == EndOfData <==> s == []) && (0 < |s| < 4 ==> r == Corrupt)
              && (|s| >= 4 && r != ReadDeviceFailed && (s[0] != 0xA5 || s[1] != 0x5A) ==> r == Corrupt)
      ensures r == ReadDeviceFailed ==> device.LeftAlone() && device.failure == FirstFailure(ReadCall)
      ensures r in {ReadSucceeded, Corrupt, EndOfData, ReadDeviceFailed}
    {
      r, length := EndOfData, 0;
      ghost var s := device.blocks[index][offset..];
      if offset < dataSize {
        var header;
        r, header := ReadSpan(device, index, offset, CONTENT_HEADER_SIZE, dataSize);
        if r == ReadSucceeded {
          assert header == s[..CONTENT_HEADER_SIZE];
          if lay.HeaderValid(header) {
            length := lay.HeaderLength(header);
            r := if offset + lay.RecordSize(length) <= dataSize then ReadSucceeded else Corrupt;
          } else {
            r := Corrupt;
          }
        }
      }
    }

    // One question to the policy, and its verdict as a result.
    method OpenRecord(body: Record, trailer: Record) returns (r: ReadResult, message: Record)
      modifies policy`judged
      ensures r in {ReadSucceeded, RecordRejected, CouldNotOpen} && message == lay.plain(body, trailer)
      ensures policy.judged == old(policy.judged) + [Judgement(message, VerdictFor(r))]
    {
      var verdict;
      verdict, message := policy.OpenRecord(body, trailer);
      match verdict {
        case Opened => r := ReadSucceeded;
        case Rejected => r := RecordRejected;
        case NoVerdict => r := CouldNotOpen;
      }
    }

    // What lies behind the header of a whole record: its body, its trailer and its flag.
    method ReadBehindHeader(device: BlockDevice, index: nat, offset: nat, length: nat, dataSize: nat)
      returns (r: ReadResult, body: Record, trailer: Record, flag: byte)
      requires device.Healthy() && index in device.blocks && offset <= dataSize == |device.blocks[index]|
      requires lay.Whole(device.blocks[index][offset..]) && length == lay.HeaderLength(device.blocks[index][offset..])
      modifies device`failure, device`callsAfterFailure
      ensures r == ReadSucceeded || r == ReadDeviceFailed
      ensures r == ReadSucceeded ==>
                var s := device.blocks[index][offset..];
                device.Healthy() && body == lay.Body(s) && trailer == lay.Trailer(s) && flag == lay.Flag(s)
      ensures r == ReadDeviceFailed ==> device.LeftAlone() && device.failure == FirstFailure(ReadCall)
    {
      ghost var b, s := device.blocks[index], device.blocks[index][offset..];
      SliceOfRest(b, offset, CONTENT_HEADER_SIZE, CONTENT_HEADER_SIZE + length);
      SliceOfRest(b, offset, CONTENT_HEADER_SIZE + length, lay.Size(s));
      trailer, flag := [], FLAG_UNSENT;
      r, body := ReadSpan(device, index, offset + CONTENT_HEADER_SIZE, length, dataSize);
      if r == ReadSucceeded {
        var tail;
        r, tail := ReadSpan(device, index, offset + CONTENT_HEADER_SIZE + length,
                            lay.trailerSize + SENT_FLAG_SIZE, dataSize);
        if r == ReadSucceeded {
          assert tail == s[CONTENT_HEADER_SIZE + length..lay.Size(s)];
          trailer, flag := tail[..lay.trailerSize], tail[lay.trailerSize];
        }
      }
    }

    // The policy comes last: it sees no record cut short and none sent already.
    method ReadAndValidateRecord(device: BlockDevice, index: nat, offset: nat, dataSize: nat)
      returns (r: ReadResult, length: nat, message: Record)
      requires device.Healthy() && index in device.blocks && offset <= dataSize == |device.blocks[index]|
      modifies policy`judged, device`failure, device`callsAfterFailure
      ensures r != ReadDeviceFailed ==> device.Healthy() && Reads(device.blocks[index], offset, r)
      ensures policy.judged == old(policy.judged) + Answer(device.blocks[index], offset, r)
      ensures r in {ReadSucceeded, RecordRejected, AlreadyFinished} ==>
                length == lay.HeaderLength(device.blocks[index][offset..])
      ensures r == ReadSucceeded ==> message == lay.Message(device.blocks[index][offset..])
      ensures r == ReadDeviceFailed ==> device.LeftAlone() && device.failure == FirstFailure(ReadCall)
    {
      hide lay.Whole, lay.Body, lay.Trailer, lay.Flag;
      message := [];
      r, length := ReadRecordExtent(device, index, offset, dataSize);
      if r == ReadSucceeded {
        var body, trailer, flag;
        r, body, trailer, flag := ReadBehindHeader(device, index, offset, length, dataSize);
        if r == ReadSucceeded {
          if flag == FLAG_SENT || flag == FLAG_DISCARDED {
            r := AlreadyFinished;
          } else {
            r, message := OpenRecord(body, trailer);
          }
        }
      }
    }

    // What a read of a healthy device may say of the bytes at an offset.
    ghost predicate Reads(bytes: seq<byte>, offset: nat, r: ReadResult)
      requires offset <= |bytes|
    {
      var s := bytes[offset..];
      match r
      case EndOfData => s == []
      case Corrupt => s != [] && !lay.Whole(s)
      case AlreadyFinished => lay.Whole(s) && lay.FinishedWith(s)
      case ReadSucceeded => lay.Whole(s) && !lay.FinishedWith(s)
      case RecordRejected => lay.Whole(s) && !lay.FinishedWith(s)
      case CouldNotOpen => lay.Whole(s) && !lay.FinishedWith(s)
      case ReadDeviceFailed => false
    }

    // What the policy was asked and answered where a read ended so: nothing, or one verdict on the record there.
    ghost function Answer(bytes: seq<byte>, offset: nat, r: ReadResult): seq<Judgement>
      requires offset <= |bytes|
    {
      var s := bytes[offset..];
      if lay.Whole(s) && r in {ReadSucceeded, RecordRejected, CouldNotOpen}
      then [Judgement(lay.Message(s), VerdictFor(r))] else []
    }

    method Read(device: BlockDevice, index: nat, offset: nat, dataSize: nat, maxSize: nat)
      returns (r: ReadResult, data: Record)
      requires device.Healthy() && index in device.blocks && offset <= dataSize == |device.blocks[index]|
      modifies this, policy`judged, device`failure, device`callsAfterFailure
      ensures policy.judged == old(policy.judged) + Answer(device.blocks[index], offset, r)
      ensures r != ReadDeviceFailed ==> device.Healthy() && Reads(device.blocks[index], offset, r)
      ensures r == ReadDeviceFailed ==> device.LeftAlone() && device.failure == FirstFailure(ReadCall)
      ensures r in {ReadSucceeded, RecordRejected, AlreadyFinished} ==> Remembers(index, device.blocks[index], offset)
      ensures r !in {ReadSucceeded, RecordRejected, AlreadyFinished} ==>
                && hasReadRecord == old(hasReadRecord) && lastReadBlockIndex == old(lastReadBlockIndex)
                && lastSentFlagOffset == old(lastSentFlagOffset)
      ensures data == if r == ReadSucceeded then Bounded(lay.Message(device.blocks[index][offset..]), maxSize) else []
    {
      data := [];
      var length, message;
      r, length, message := ReadAndValidateRecord(device, index, offset, dataSize);
      if r == ReadSucceeded || r == RecordRejected || r == AlreadyFinished {
        hasReadRecord := true;
        lastReadBlockIndex := index;
        lastSentFlagOffset := offset + CONTENT_HEADER_SIZE + length + lay.trailerSize;
      }
      if r == ReadSucceeded {
        data := Bounded(message, maxSize);
      }
    }

    // ----- After a read -----

    method MarkLastReadAsSent(device: BlockDevice) returns (r: MarkResult, nextCursor: nat)
      requires device.Healthy()
      modifies this`hasReadRecord, device
      ensures r == NothingRead <==> !old(hasReadRecord)
      ensures r == NothingRead ==>
                && device.Healthy() && device.blocks == old(device.blocks) && device.cuts == old(device.cuts)
                && !hasReadRecord
      ensures r == MarkSucceeded ==>
                && device.Healthy() && !hasReadRecord && nextCursor == lastSentFlagOffset + SENT_FLAG_SIZE
                && lastReadBlockIndex in old(device.blocks)
                && lastSentFlagOffset < |old(device.blocks)[lastReadBlockIndex]|
                && device.blocks == Overwritten(old(device.blocks), lastReadBlockIndex, lastSentFlagOffset, FLAG_SENT)
                && device.cuts ==
                   old(device.cuts) + OverwriteCuts(old(device.blocks), lastReadBlockIndex, lastSentFlagOffset)
      ensures r == MarkDeviceFailed ==>
                && device.LeftAlone() && device.failure == FirstFailure(WriteAtCall)
                && Disturbed(old(device.blocks), device.blocks, lastReadBlockIndex)
    {
      r, nextCursor := NothingRead, 0;
      if hasReadRecord {
        var ok := device.WriteAt(lastReadBlockIndex, lastSentFlagOffset, FLAG_SENT);
        r := MarkDeviceFailed;
        if ok {
          nextCursor := lastSentFlagOffset + SENT_FLAG_SIZE;
          hasReadRecord := false;
          r := MarkSucceeded;
        }
      }
    }

    method StepPastLastRead() returns (next: nat)
      modifies this`hasReadRecord
      ensures !hasReadRecord && next == lastSentFlagOffset + SENT_FLAG_SIZE
    {
      hasReadRecord := false;
      next := lastSentFlagOffset + SENT_FLAG_SIZE;
    }

    method ForgetLastRead()
      modifies this`hasReadRecord
      ensures !hasReadRecord
    {
      hasReadRecord := false;
    }

    // ----- Resume scans -----

    // Everything before the cursor is a record done with.
    ghost predicate DoneBefore(b: seq<byte>, cursor: nat) {
      cursor <= |b| && lay.Clean(b[..cursor]) && lay.Unsent(b[..cursor]) == []
    }

    // What the two ends of a scan mean: something unsent at the cursor, or nothing more that parses.
    ghost predicate Found(b: seq<byte>, cursor: nat, scanned: ScanResult) {
      match scanned
      case ScanClean =>
        DoneBefore(b, cursor) && (cursor < |b| ==> lay.Whole(b[cursor..]) && !lay.FinishedWith(b[cursor..]))
      case ScanCorrupt => cursor == |b| && lay.Unsent(b) == [] && !lay.Clean(b)
      case ScanDeviceFailed => false
    }

    /** Passes over sent records only; comes to rest on one that is not, or for want of one where the bytes
        give out, and says whether any of those did not parse. */
    method FindFirstUnsent(device: BlockDevice, index: nat, blockSize: nat) returns (cursor: nat, scanned: ScanResult)
      requires device.Healthy() && index in device.blocks && blockSize == |device.blocks[index]|
      modifies device`failure, device`callsAfterFailure
      ensures scanned == ScanDeviceFailed ==> device.LeftAlone() && device.failure == FirstFailure(ReadCall)
      ensures scanned != ScanDeviceFailed ==> device.Healthy() && Found(device.blocks[index], cursor, scanned)
      ensures cursor <= blockSize
    {
      hide lay.Clean, lay.Unsent, lay.Whole, lay.FinishedWith;
      cursor, scanned := 0, ScanClean;
      var scanning := true;
      assert DoneBefore(device.blocks[index], 0) by { NothingBeforeStart(device.blocks[index]); }
      while scanning && cursor < blockSize
        invariant cursor <= blockSize
        invariant scanned == ScanDeviceFailed ==> device.LeftAlone() && device.failure == FirstFailure(ReadCall)
        invariant scanned != ScanDeviceFailed ==> device.Healthy()
        invariant scanning ==> scanned == ScanClean && DoneBefore(device.blocks[index], cursor)
        invariant !scanning && scanned != ScanDeviceFailed ==> Found(device.blocks[index], cursor, scanned)
        decreases scanning, blockSize - cursor
      {
        scanning, cursor, scanned := AdvancePastSentRecord(device, index, cursor, blockSize);
      }
    }

    lemma NothingBeforeStart(b: seq<byte>)
      ensures DoneBefore(b, 0)
    {
      assert b[..0] == [];
    }

    // Decided by one flag byte, before any verdict.
    method ReadFinishedWith(device: BlockDevice, index: nat, offset: nat, dataSize: nat)
      returns (r: ReadResult, length: nat, finishedWith: bool)
      requires device.Healthy() && index in device.blocks && offset < dataSize == |device.blocks[index]|
      modifies device`failure, device`callsAfterFailure
      ensures r == ReadDeviceFailed ==> device.LeftAlone() && device.failure == FirstFailure(ReadCall)
      ensures r != ReadDeviceFailed ==> device.Healthy()
      ensures var s := device.blocks[index][offset..];
              && (r == ReadSucceeded ==>
                    lay.Whole(s) && length == lay.HeaderLength(s) && finishedWith == lay.FinishedWith(s))
              && (r == Corrupt ==> !lay.Whole(s))
      ensures r in {ReadSucceeded, Corrupt, ReadDeviceFailed}
      ensures finishedWith ==> r == ReadSucceeded
    {
      finishedWith := false;
      r, length := ReadRecordExtent(device, index, offset, dataSize);
      if r == ReadSucceeded {
        var flag;
        r, flag := ReadSpan(device, index, offset + CONTENT_HEADER_SIZE + length + lay.trailerSize,
                            SENT_FLAG_SIZE, dataSize);
        finishedWith := r == ReadSucceeded && (flag[0] == FLAG_SENT || flag[0] == FLAG_DISCARDED);
        assert r == ReadSucceeded ==> flag[0] == lay.Flag(device.blocks[index][offset..]);
      }
    }

    method AdvancePastSentRecord(device: BlockDevice, index: nat, cursor: nat, blockSize: nat)
      returns (advanced: bool, next: nat, scanned: ScanResult)
      requires device.Healthy() && index in device.blocks && cursor < blockSize == |device.blocks[index]|
      requires DoneBefore(device.blocks[index], cursor)
      modifies device`failure, device`callsAfterFailure
      ensures cursor <= next <= blockSize
      ensures scanned == ScanDeviceFailed ==> device.LeftAlone() && device.failure == FirstFailure(ReadCall)
      ensures scanned != ScanDeviceFailed ==> device.Healthy()
      ensures advanced ==> scanned == ScanClean && cursor < next && DoneBefore(device.blocks[index], next)
      ensures !advanced && scanned != ScanDeviceFailed ==> Found(device.blocks[index], next, scanned)
    {
      hide lay.Whole, lay.FinishedWith, lay.Message;
      advanced, next, scanned := false, cursor, ScanClean;
      var r, length, finishedWith := ReadFinishedWith(device, index, cursor, blockSize);
      if r == ReadDeviceFailed {
        next, scanned := blockSize, ScanDeviceFailed;
      } else if finishedWith {
        lay.NextBoundary(device.blocks[index], cursor);
        next := cursor + lay.RecordSize(length);
        advanced := true;
      } else if r == Corrupt {
        lay.SplitAtBoundary(device.blocks[index], cursor);
        next, scanned := blockSize, ScanCorrupt;
      }
    }

    lemma RestFrom(b: seq<byte>, position: nat, length: nat)
      requires position < |b| && lay.Whole(b[position..]) && length == lay.HeaderLength(b[position..])
      ensures position + lay.RecordSize(length) <= |b|
      ensures lay.Clean(b[position..]) <==> lay.Clean(b[position + lay.RecordSize(length)..])
    {
      assert lay.Rest(b[position..]) == b[position + lay.RecordSize(length)..];
    }

    /** Clean exactly if every byte from a boundary on belongs to a whole record. */
    method ScanToEnd(device: BlockDevice, index: nat, from: nat, blockSize: nat) returns (scanned: ScanResult)
      requires device.Healthy() && index in device.blocks && from <= blockSize == |device.blocks[index]|
      modifies device`failure, device`callsAfterFailure
      ensures scanned == ScanDeviceFailed ==> device.LeftAlone() && device.failure == FirstFailure(ReadCall)
      ensures scanned != ScanDeviceFailed ==>
                device.Healthy() && (scanned == ScanClean <==> lay.Clean(device.blocks[index][from..]))
    {
      hide lay.Whole;
      scanned := ScanClean;
      var position := from;
      ghost var b := device.blocks[index];
      while scanned == ScanClean && position < blockSize
        invariant position <= blockSize && device.blocks[index] == b
        invariant scanned == ScanDeviceFailed ==> device.LeftAlone() && device.failure == FirstFailure(ReadCall)
        invariant scanned != ScanDeviceFailed ==> device.Healthy()
        invariant scanned == ScanClean ==> (lay.Clean(b[from..]) <==> lay.Clean(b[position..]))
        invariant scanned == ScanCorrupt ==> !lay.Clean(b[from..])
        decreases scanned == ScanClean, blockSize - position
      {
        var r, length := ReadRecordExtent(device, index, position, blockSize);
        if r == ReadSucceeded {
          RestFrom(b, position, length);
          position := position + lay.RecordSize(length);
        } else {
          scanned := if r == ReadDeviceFailed then ScanDeviceFailed else ScanCorrupt;
        }
      }
    }
  }

  lemma SliceOfRest(b: seq<byte>, offset: nat, from: nat, to: nat)
    requires offset + from <= offset + to <= |b|
    ensures b[offset..][from..to] == b[offset + from..offset + to]
  {
  }
}
