/** The in-memory ring between Log and Service: length-prefixed records in a byte array, each
    locked section one atomic step. Proved to be the queue RingModel describes. */
module CircularBuffer {
  import opened Bytes
  import opened DiscardPolicy
  import opened RingModel
  import J = Journal

  datatype Report = NoReport | RecordTooLarge | RecordRefused | RecordsEvicted | RecordExceedsMaxMessageSize

  // ----- Framing -----

  function LengthBytes(n: nat): seq<byte>
    requires n < 0x1_0000
  {
    [(n % 256) as byte, (n / 256) as byte]
  }

  function Frame(r: Record): (f: seq<byte>)
    requires |r| < 0x1_0000
    ensures |f| == FrameSize(r)
  {
    LengthBytes(|r|) + r
  }

  predicate Framable(q: seq<Record>) {
    forall i :: 0 <= i < |q| ==> |q[i]| < 0x1_0000
  }

  function Encode(q: seq<Record>): (bytes: seq<byte>)
    requires Framable(q)
    ensures |bytes| == FramesSize(q)
  {
    if q == [] then [] else Frame(q[0]) + Encode(q[1..])
  }

  lemma {:induction false} EncodeSnoc(q: seq<Record>, r: Record)
    requires Framable(q) && |r| < 0x1_0000
    ensures Framable(q + [r])
    ensures Encode(q + [r]) == Encode(q) + Frame(r)
  {
    hide Frame;
    if q == [] {
      assert [] + [r] == [r];
      assert Encode([r]) == Frame(r) + Encode([r][1..]);
    } else {
      assert (q + [r])[1..] == q[1..] + [r];
      EncodeSnoc(q[1..], r);
    }
  }

  // The bytes between the indices are the frames of the records held.
  ghost predicate Framed(bytes: seq<byte>, s: Ring)
    requires s.Valid() && |bytes| == s.capacity
  {
    && Framable(s.upper) && Framable(s.lower)
    && bytes[s.head..if s.head <= s.tail then s.tail else s.wrapPoint] == Encode(s.upper)
    && (s.head > s.tail ==> bytes[..s.tail] == Encode(s.lower))
  }

  lemma HeadFrameBytes(bytes: seq<byte>, s: Ring)
    requires s.Valid() && |bytes| == s.capacity && Framed(bytes, s)
    requires s.upper != [] && s.head < s.wrapPoint
    ensures s.head + FrameSize(s.upper[0]) <= s.capacity
    ensures |s.upper[0]| < 0x1_0000 && bytes[s.head..s.head + FrameSize(s.upper[0])] == Frame(s.upper[0])
  {
    hide Encode, FramesSize;
    EncodedHead(bytes, s.head, if s.head <= s.tail then s.tail else s.wrapPoint, s.upper);
  }

  lemma EncodedHead(bytes: seq<byte>, from: nat, end: nat, q: seq<Record>)
    requires from <= end <= |bytes| && Framable(q) && q != [] && bytes[from..end] == Encode(q)
    ensures from + FrameSize(q[0]) <= end && |q[0]| < 0x1_0000
    ensures bytes[from..from + FrameSize(q[0])] == Frame(q[0])
  {
    var n, f, rest := FrameSize(q[0]), Frame(q[0]), Encode(q[1..]);
    hide Encode, Frame, FramesSize;
    assert bytes[from..end] == f + rest by {
      EncodeHead(q);
    }
    assert bytes[from..from + n] == bytes[from..end][..n];
    assert (f + rest)[..n] == f;
  }

  lemma FrameLength(bytes: seq<byte>, at: nat, r: Record)
    requires |r| < 0x1_0000 && at + FrameSize(r) <= |bytes| && bytes[at..at + FrameSize(r)] == Frame(r)
    ensures bytes[at] as int + 256 * (bytes[at + 1] as int) == |r|
  {
    var f := bytes[at..at + FrameSize(r)];
    assert bytes[at] == f[0] && bytes[at + 1] == f[1];
    assert Frame(r)[0] == (|r| % 256) as byte && Frame(r)[1] == (|r| / 256) as byte;
  }

  lemma EncodeHead(q: seq<Record>)
    requires Framable(q) && q != []
    ensures Encode(q) == Frame(q[0]) + Encode(q[1..])
  {
  }

  lemma TakeFramed(bytes: seq<byte>, s: Ring)
    requires s.Valid() && |bytes| == s.capacity && Framed(bytes, s)
    requires s.upper != [] && s.head < s.wrapPoint
    ensures s.Take().Valid() && Framed(bytes, s.Take())
  {
    hide Encode;
    s.TakeIsDequeue();
    EncodedTail(bytes, s.head, if s.head <= s.tail then s.tail else s.wrapPoint, s.upper);
  }

  lemma EncodedTail(bytes: seq<byte>, from: nat, end: nat, q: seq<Record>)
    requires from <= end <= |bytes| && Framable(q) && q != [] && bytes[from..end] == Encode(q)
    ensures from + FrameSize(q[0]) <= end
    ensures bytes[from + FrameSize(q[0])..end] == Encode(q[1..])
  {
    var n := FrameSize(q[0]);
    assert bytes[from..end] == Frame(q[0]) + Encode(q[1..]);
    assert bytes[from + n..end] == bytes[from..end][n..];
  }

  lemma EmptyFramed(bytes: seq<byte>)
    ensures Ring(|bytes|, 0, 0, |bytes|, [], []).Valid()
    ensures Framed(bytes, Ring(|bytes|, 0, 0, |bytes|, [], []))
  {
    assert bytes[0..0] == [];
  }

  // One frame written at an index, and no byte changed outside it.
  ghost predicate Stored(before: seq<byte>, after: seq<byte>, at: nat, r: Record)
    requires |r| < 0x1_0000 && at + FrameSize(r) <= |before| == |after|
  {
    && after[at..at + FrameSize(r)] == Frame(r)
    && forall i :: 0 <= i < |after| && !(at <= i < at + FrameSize(r)) ==> after[i] == before[i]
  }

  lemma PlaceFramedAfterWrap(before: seq<byte>, after: seq<byte>, s: Ring, r: Record)
    requires s.Valid() && |before| == |after| == s.capacity && Framed(before, s)
    requires |r| < 0x1_0000 && s.Fits(FrameSize(r)) && !s.FitsAtTail(FrameSize(r))
    requires Stored(before, after, 0, r)
    ensures s.Place(r).Valid() && Framed(after, s.Place(r))
  {
    s.PlaceIsEnqueue(r);
    assert after[s.head..s.tail] == before[s.head..s.tail];
    assert Encode([r]) == Frame(r) + Encode([r][1..]);
  }

  lemma PlaceFramedBelowHead(before: seq<byte>, after: seq<byte>, s: Ring, r: Record)
    requires s.Valid() && |before| == |after| == s.capacity && Framed(before, s)
    requires |r| < 0x1_0000 && s.FitsAtTail(FrameSize(r)) && s.IsWrapped()
    requires Stored(before, after, s.tail, r)
    ensures s.Place(r).Valid() && Framed(after, s.Place(r))
  {
    s.PlaceIsEnqueue(r);
    assert after[s.head..s.wrapPoint] == before[s.head..s.wrapPoint];
    assert after[..s.tail] == before[..s.tail];
    assert after[..s.tail + FrameSize(r)] == after[..s.tail] + after[s.tail..s.tail + FrameSize(r)];
    EncodeSnoc(s.lower, r);
  }

  lemma PlaceFramedAtEnd(before: seq<byte>, after: seq<byte>, s: Ring, r: Record)
    requires s.Valid() && |before| == |after| == s.capacity && Framed(before, s)
    requires |r| < 0x1_0000 && s.FitsAtTail(FrameSize(r)) && !s.IsWrapped()
    requires Stored(before, after, s.tail, r)
    ensures s.Place(r).Valid() && Framed(after, s.Place(r))
  {
    hide Encode, FramesSize;
    s.PlaceIsEnqueue(r);
    var end := s.tail + FrameSize(r);
    assert after[s.head..s.tail] == before[s.head..s.tail];
    assert after[s.head..end] == after[s.head..s.tail] + after[s.tail..end];
    EncodeSnoc(s.upper, r);
  }

  lemma PlaceFramed(before: seq<byte>, after: seq<byte>, s: Ring, r: Record)
    requires s.Valid() && |before| == |after| == s.capacity && Framed(before, s)
    requires |r| < 0x1_0000 && s.Fits(FrameSize(r))
    requires Stored(before, after, if s.FitsAtTail(FrameSize(r)) then s.tail else 0, r)
    ensures s.Place(r).Valid() && Framed(after, s.Place(r))
  {
    hide Framed, Stored;
    if !s.FitsAtTail(FrameSize(r)) {
      PlaceFramedAfterWrap(before, after, s, r);
    } else if s.IsWrapped() {
      PlaceFramedBelowHead(before, after, s, r);
    } else {
      PlaceFramedAtEnd(before, after, s, r);
    }
  }

  // A count of the reads, and of those that came upon an empty ring.
  datatype Readings = Readings(all: nat, empty: nat)

  class CircularBuffer {
    const ring: array<byte>
    const maxMessageSize: nat
    var head: nat
    var tail: nat
    var wrapPoint: nat
    var lossReported: bool
    var evictionReported: bool
    var tooLargeReported: bool
    var full: bool

    ghost var upper: seq<Record>
    ghost var lower: seq<Record>
    ghost var journal: J.Journal<Record>

    ghost var readings: Readings

    ghost function View(): Ring
      reads this
    {
      Ring(ring.Length, head, tail, wrapPoint, upper, lower)
    }

    ghost function LatchView(): Latches
      reads this
    {
      Latches(lossReported, evictionReported, full)
    }

    ghost function Queue(): seq<Record>
      reads this
    {
      upper + lower
    }

    ghost predicate Sound()
      reads this, ring
    {
      maxMessageSize < 0x1_0000 && View().Valid() && Framed(ring[..], View())
    }

    ghost predicate Valid()
      reads this, ring
    {
      Sound() && journal.waiting == Queue() && journal.Balanced()
    }

    constructor (ring: array<byte>, maxMessageSize: nat)
      requires maxMessageSize < 0x1_0000
      ensures Valid() && this.ring == ring && this.maxMessageSize == maxMessageSize
      ensures Queue() == [] && journal == J.Journal([], [], [])
      ensures LatchView() == Latches(false, false, false) && !tooLargeReported
    {
      this.ring := ring;
      this.maxMessageSize := maxMessageSize;
      lossReported, evictionReported, tooLargeReported, full := false, false, false, false;
      head, tail, wrapPoint := 0, 0, ring.Length;
      upper, lower := [], [];
      journal, readings := J.Journal([], [], []), Readings(0, 0);
      new;
      hide Framed;
      EmptyFramed(ring[..]);
    }

    method IsFull() returns (r: bool)
      ensures r == full
    {
      r := full;
    }

    // ----- Reading -----

    method Read(maxSize: nat) returns (delivered: bool, data: Record, report: Report)
      requires Valid()
      modifies this
      ensures Valid()
      ensures delivered <==> old(Queue()) != [] && |old(Queue())[0]| <= maxSize
      ensures delivered ==>
                && data == old(Queue())[0] && Queue() == old(Queue())[1..]
                && old(View()).AtHeadFrame().upper != [] && View() == old(View()).Take()
                && journal == old(journal).Settle(1, J.Delivered)
                && !full && !tooLargeReported && report == NoReport
      ensures !delivered ==>
                && data == [] && Queue() == old(Queue()) && journal == old(journal)
                && full == old(full)
                && tooLargeReported == (old(tooLargeReported) || Queue() != [])
                && report == if Queue() != [] && !old(tooLargeReported) then RecordTooLarge else NoReport
      ensures lossReported == old(lossReported) && evictionReported == old(evictionReported)
      ensures readings == Readings(old(readings).all + 1, old(readings).empty + if old(Queue()) == [] then 1 else 0)
    {
      hide Framed, FramesSize, journal.Settle, journal.Balanced, J.Items, J.With;
      data, report := [], NoReport;
      delivered := head != tail;
      View().EmptyIffNoRecords();
      readings := Readings(readings.all + 1, readings.empty + if delivered then 0 else 1);
      if delivered {
        StepOntoHeadFrame();
        var size := PeekRecordSize();
        if size <= maxSize {
          data := LoadRecord();
          full := false;
          tooLargeReported := false;
          DeliveredBalanced(journal);
          journal := journal.Settle(1, J.Delivered);
        } else {
          report := if tooLargeReported then NoReport else RecordTooLarge;
          tooLargeReported := true;
          delivered := false;
        }
      }
    }

    // Consumes the wrap marker where the head stands on it.
    method StepOntoHeadFrame()
      requires Sound() && head != tail
      modifies this`head, this`wrapPoint, this`upper, this`lower
      ensures Sound() && View() == old(View()).AtHeadFrame()
      ensures Queue() == old(Queue()) && upper != [] && head < wrapPoint && upper[0] == Queue()[0]
    {
      View().HeadFramePresent();
      if head >= wrapPoint {
        head := 0;
        wrapPoint := ring.Length;
        upper, lower := lower, [];
      }
    }

    method PeekRecordSize() returns (size: nat)
      requires Sound() && upper != [] && head < wrapPoint
      ensures size == |upper[0]|
    {
      hide Framed, Frame, Ring.Valid;
      HeadFrameBytes(ring[..], View());
      FrameLength(ring[..], head, upper[0]);
      size := ring[head] as int + 256 * (ring[head + 1] as int);
    }

    method LoadRecord() returns (data: Record)
      requires Sound() && upper != [] && head < wrapPoint
      modifies this`head, this`upper
      ensures Sound() && data == old(upper[0])
      ensures Queue() == old(Queue())[1..] && View() == old(View()).Take()
    {
      hide Framed;
      HeadFrameBytes(ring[..], View());
      var size := PeekRecordSize();
      data := ring[head + HEADER_BYTES..head + HEADER_BYTES + size];
      assert data == ring[..][head..head + FrameSize(upper[0])][HEADER_BYTES..];
      LeaveHeadFrame(size);
    }

    // The head moves past its frame.
    method LeaveHeadFrame(size: nat)
      requires Sound() && upper != [] && head < wrapPoint && size == |upper[0]|
      modifies this`head, this`upper
      ensures Sound() && View() == old(View()).Take()
      ensures Queue() == old(Queue())[1..]
    {
      hide Framed;
      View().TakeIsDequeue();
      TakeFramed(ring[..], View());
      head := head + HEADER_BYTES + size;
      upper := upper[1..];
    }

    // ----- Writing -----

    method Write(policy: Policy, data: Record) returns (report: Report)
      requires Valid()
      modifies this, ring
      ensures Valid() && tooLargeReported == old(tooLargeReported) && readings == old(readings)
      ensures |data| > maxMessageSize ==>
                && report == RecordExceedsMaxMessageSize && View() == old(View())
                && LatchView() == old(LatchView()) && journal == old(journal)
      ensures |data| <= maxMessageSize ==>
                && var (after, started) := RingModel.Write(Buffer(old(View()), old(LatchView())), policy, data);
                && Buffer(View(), LatchView()) == after
                && report == (match started case NoRun => NoReport case Refusals => RecordRefused
                              case Evictions => RecordsEvicted)
                && journal == JournalAfterWrite(old(journal), old(View()), policy, data)
    {
      hide OutcomeOf, Dropped, WriteRing, Framed;
      if |data| <= maxMessageSize {
        WriteRefinesQueue(View(), policy, data);
        ghost var before := View();
        var started := StoreApplyingPolicy(policy, data);
        report := match started case NoRun => NoReport case Refusals => RecordRefused case Evictions => RecordsEvicted;
        JournalAfterWriteBalanced(journal, before, policy, data);
        journal := JournalAfterWrite(journal, before, policy, data);
      } else {
        report := RecordExceedsMaxMessageSize;
      }
    }

    method StoreApplyingPolicy(policy: Policy, data: Record) returns (started: RunStarted)
      requires Sound() && |data| <= maxMessageSize
      modifies this, ring
      ensures Sound() && tooLargeReported == old(tooLargeReported) && journal == old(journal)
      ensures readings == old(readings)
      ensures (Buffer(View(), LatchView()), started) ==
              RingModel.Write(Buffer(old(View()), old(LatchView())), policy, data)
    {
      hide Ring.Valid, Framed, EvictUntilFits, Latch, Ring.Place;
      if head == tail {
        ResetToStart();
      }
      assert View() == ResetIfEmpty(old(View()));
      var recordBytes := HEADER_BYTES + |data|;
      var evicted := false;
      var fits := RecordFits(recordBytes);
      if !fits && recordBytes <= ring.Length && policy == Oldest {
        EvictUntilRecordFits(recordBytes);
        evicted := true;
      }
      fits := RecordFits(recordBytes);
      if fits {
        View().FitsOnlyIfCouldHold(recordBytes);
        started := KeepRecord(data, evicted);
      } else {
        started := RefuseRecord(recordBytes);
      }
    }

    method RecordFits(recordBytes: nat) returns (fits: bool)
      ensures fits == View().Fits(recordBytes)
    {
      var atTail := RecordFitsAtTail(recordBytes);
      fits := atTail || (!(head > tail) && recordBytes < head);
    }

    method RecordFitsAtTail(recordBytes: nat) returns (fits: bool)
      ensures fits == View().FitsAtTail(recordBytes)
    {
      if head > tail {
        fits := tail + recordBytes < head;
      } else {
        fits := tail + recordBytes <= ring.Length;
      }
    }

    method ResetToStart()
      requires Sound() && head == tail
      modifies this`head, this`tail, this`wrapPoint
      ensures Sound() && View() == old(View()).Reset()
    {
      View().EmptyIffNoRecords();
      head := 0;
      tail := 0;
      wrapPoint := ring.Length;
    }

    method EvictUntilRecordFits(recordBytes: nat)
      requires Sound() && recordBytes <= ring.Length
      requires View().IsEmpty() ==> View().Fits(recordBytes)
      modifies this`head, this`tail, this`wrapPoint, this`upper, this`lower
      ensures Sound() && View() == EvictUntilFits(old(View()), recordBytes)
      ensures View().Fits(recordBytes)
    {
      hide Framed;
      var fits := RecordFits(recordBytes);
      while !fits
        invariant Sound() && fits == View().Fits(recordBytes)
        invariant View().IsEmpty() ==> View().Fits(recordBytes)
        invariant EvictUntilFits(View(), recordBytes) == EvictUntilFits(old(View()), recordBytes)
        decreases |Queue()|
      {
        View().EmptyIffNoRecords();
        DropHead();
        View().EmptyIffNoRecords();
        fits := RecordFits(recordBytes);
      }
    }

    method DropHead()
      requires Sound() && head != tail
      modifies this`head, this`tail, this`wrapPoint, this`upper, this`lower
      ensures Sound() && old(View()).AtHeadFrame().upper != [] && View() == old(View()).Drop()
      ensures Queue() == old(Queue())[1..]
    {
      hide Framed;
      StepOntoHeadFrame();
      var size := PeekRecordSize();
      LeaveHeadFrame(size);
      if head == tail {
        ResetToStart();
      }
    }

    method KeepRecord(data: Record, evicted: bool) returns (started: RunStarted)
      requires Sound() && |data| <= maxMessageSize && View().Fits(FrameSize(data))
      modifies this, ring
      ensures Sound() && tooLargeReported == old(tooLargeReported) && journal == old(journal)
      ensures readings == old(readings)
      ensures View() == old(View()).Place(data)
      ensures (LatchView(), started) == Latch(old(LatchView()), if evicted then KeptByEvicting else Kept, true)
    {
      hide Framed;
      started := NoRun;
      PlaceRecord(data);
      lossReported := false;
      if evicted && !evictionReported {
        started := Evictions;
      }
      evictionReported := evicted;
      full := evicted;
    }

    // The frame goes at the tail, wrapped to the start first where only that has room.
    method PlaceRecord(data: Record)
      requires Sound() && |data| < 0x1_0000 && View().Fits(FrameSize(data))
      modifies this`wrapPoint, this`tail, this`upper, this`lower, ring
      ensures Sound() && View() == old(View()).Place(data)
    {
      hide Framed, Stored;
      var atTail := RecordFitsAtTail(HEADER_BYTES + |data|);
      ghost var before, bytes := View(), ring[..];
      if !atTail {
        wrapPoint := tail;
        tail := 0;
      }
      StoreRecord(data);
      upper, lower := before.Place(data).upper, before.Place(data).lower;
      PlaceFramed(bytes, ring[..], before, data);
    }

    method StoreRecord(data: Record)
      requires |data| < 0x1_0000 && tail + FrameSize(data) <= ring.Length
      modifies this`tail, ring
      ensures tail == old(tail) + FrameSize(data)
      ensures Stored(old(ring[..]), ring[..], old(tail), data)
    {
      ring[tail] := (|data| % 256) as byte;
      ring[tail + 1] := (|data| / 256) as byte;
      forall i | 0 <= i < |data| {
        ring[tail + HEADER_BYTES + i] := data[i];
      }
      tail := tail + HEADER_BYTES + |data|;
      assert ring[..][old(tail)..tail] == Frame(data);
    }

    method RefuseRecord(recordBytes: nat) returns (started: RunStarted)
      modifies this`lossReported, this`evictionReported, this`full
      ensures (LatchView(), started) == Latch(old(LatchView()), Refused, recordBytes <= ring.Length)
    {
      started := if lossReported then NoRun else Refusals;
      lossReported := true;
      evictionReported := false;
      full := recordBytes <= ring.Length;
    }
  }

  // ----- Accounting -----

  lemma DeliveredBalanced(j: J.Journal<Record>)
    requires j.Balanced() && j.waiting != []
    ensures j.Settle(1, J.Delivered).Balanced() && j.Settle(1, J.Delivered).waiting == j.waiting[1..]
  {
    j.SettleKeepsBalance(1, J.Delivered);
  }

  ghost function JournalAfterWrite(j: J.Journal<Record>, s: Ring, policy: Policy, r: Record): J.Journal<Record>
    requires s.Valid() && j.waiting == s.Queue()
  {
    WriteRefinesQueue(s, policy, r);
    if OutcomeOf(s, policy, r) == Refused then j
    else j.Settle(Dropped(s, policy, r), J.Evicted).Accept(r)
  }

  /** Over a write, a record taken is accepted behind the others and the records it cost are the oldest;
      none is lost unaccounted. */
  lemma JournalAfterWriteBalanced(j: J.Journal<Record>, s: Ring, policy: Policy, r: Record)
    requires s.Valid() && j.waiting == s.Queue() && j.Balanced()
    ensures JournalAfterWrite(j, s, policy, r).Balanced()
    ensures JournalAfterWrite(j, s, policy, r).waiting == WriteRing(s, policy, r).Queue()
  {
    WriteRefinesQueue(s, policy, r);
    if OutcomeOf(s, policy, r) != Refused {
      j.SettleKeepsBalance(Dropped(s, policy, r), J.Evicted);
      j.Settle(Dropped(s, policy, r), J.Evicted).AcceptKeepsBalance(r);
    }
  }
}
