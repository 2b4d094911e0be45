/** The circular buffer's indices and latches, with the records its frames hold.

    `upper` holds the records framed from the head up to the wrap point, `lower` those framed
    from the start of the ring up to the tail once the tail has wrapped. */
module RingModel {
  import opened Bytes
  import opened DiscardPolicy

  const HEADER_BYTES := 2

  // What a write opened by losing a record where the write before it lost none of that kind.
  datatype RunStarted = NoRun | Refusals | Evictions

  function FrameSize(r: Record): nat { HEADER_BYTES + |r| }

  function FramesSize(q: seq<Record>): nat {
    if q == [] then 0 else FrameSize(q[0]) + FramesSize(q[1..])
  }

  lemma {:induction false} FramesSizeConcat(a: seq<Record>, b: seq<Record>)
    ensures FramesSize(a + b) == FramesSize(a) + FramesSize(b)
  {
    if a == [] {
      assert a + b == b;
    } else {
      assert (a + b)[1..] == a[1..] + b;
      FramesSizeConcat(a[1..], b);
    }
  }

  datatype Latches = Latches(lossReported: bool, evictionReported: bool, full: bool)

  datatype Ring = Ring(capacity: nat, head: nat, tail: nat, wrapPoint: nat, upper: seq<Record>, lower: seq<Record>) {

    function Queue(): seq<Record> { upper + lower }

    predicate IsEmpty() { head == tail }

    predicate IsWrapped() { head > tail }

    predicate HeadAtWrapPoint() { head >= wrapPoint }

    // The indices and the frames they delimit agree.
    predicate Valid() {
      if head <= tail then
        tail <= capacity && wrapPoint == capacity && lower == [] && FramesSize(upper) == tail - head
      else
        head <= wrapPoint <= capacity && lower != [] &&
        FramesSize(upper) == wrapPoint - head && FramesSize(lower) == tail
    }

    function Reset(): Ring {
      this.(head := 0, tail := 0, wrapPoint := capacity)
    }

    function ConsumeWrapMarker(): Ring {
      this.(head := 0, wrapPoint := capacity, upper := lower, lower := [])
    }

    // The head moves past the wrap marker, where it stands on it.
    function AtHeadFrame(): Ring {
      if HeadAtWrapPoint() then ConsumeWrapMarker() else this
    }

    // The head record leaves, as a read takes it.
    function Take(): Ring
      requires AtHeadFrame().upper != []
    {
      var r := AtHeadFrame();
      r.(head := r.head + FrameSize(r.upper[0]), upper := r.upper[1..])
    }

    // The head record is dropped, as an eviction skips it.
    function Drop(): Ring
      requires AtHeadFrame().upper != []
    {
      var r := Take();
      if r.IsEmpty() then r.Reset() else r
    }

    predicate FitsAtTail(recordBytes: nat) {
      if IsWrapped() then tail + recordBytes < head else tail + recordBytes <= capacity
    }

    predicate FitsAfterWrap(recordBytes: nat) {
      !IsWrapped() && recordBytes < head
    }

    predicate Fits(recordBytes: nat) {
      FitsAtTail(recordBytes) || FitsAfterWrap(recordBytes)
    }

    // Where the frames held end: the upper ones from the head on, the lower ones from the start of the ring.
    function EndOfFrames(): nat {
      if lower == [] then head + FramesSize(upper) else FramesSize(lower)
    }

    // Counted from the frames held: so many bytes from their end to the ring's, or fewer than lie before the head;
    // once they have wrapped, fewer than there are from their end to the head.
    predicate HasRoom(recordBytes: nat) {
      if lower == [] then EndOfFrames() + recordBytes <= capacity || recordBytes < head
      else EndOfFrames() + recordBytes < head
    }

    lemma FitsIffRoom(recordBytes: nat)
      requires Valid()
      ensures Fits(recordBytes) <==> HasRoom(recordBytes)
      ensures FitsAtTail(recordBytes) <==>
              HasRoom(recordBytes) && (lower == [] ==> EndOfFrames() + recordBytes <= capacity)
    {
    }

    predicate CouldHoldWhenEmpty(recordBytes: nat) { recordBytes <= capacity }

    // The frame goes at the tail, or whole at the start where only that has room.
    function Place(r: Record): Ring {
      if !FitsAtTail(FrameSize(r)) then
        this.(wrapPoint := tail, tail := FrameSize(r), lower := [r])
      else if IsWrapped() then
        this.(tail := tail + FrameSize(r), lower := lower + [r])
      else
        this.(tail := tail + FrameSize(r), upper := upper + [r])
    }

    lemma EmptyIffNoRecords()
      requires Valid()
      ensures IsEmpty() <==> Queue() == []
    {
    }

    lemma HeadFramePresent()
      requires Valid() && !IsEmpty()
      ensures AtHeadFrame().Valid() && AtHeadFrame().upper != []
      ensures AtHeadFrame().Queue() == Queue()
      ensures AtHeadFrame().upper[0] == Queue()[0]
      ensures !AtHeadFrame().HeadAtWrapPoint()
    {
      if !HeadAtWrapPoint() {
        assert upper != [];
      } else {
        assert upper == [];
      }
    }

    lemma TakeIsDequeue()
      requires Valid() && !IsEmpty()
      ensures AtHeadFrame().upper != []
      ensures Take().Valid() && Take().Queue() == Queue()[1..] && Take().capacity == capacity
    {
      HeadFramePresent();
      var r := AtHeadFrame();
      assert (r.upper + r.lower)[1..] == r.upper[1..] + r.lower;
    }

    lemma DropIsDequeue()
      requires Valid() && !IsEmpty()
      ensures AtHeadFrame().upper != []
      ensures Drop().Valid() && Drop().Queue() == Queue()[1..] && Drop().capacity == capacity
    {
      TakeIsDequeue();
    }

    lemma PlaceIsEnqueue(r: Record)
      requires Valid() && Fits(FrameSize(r))
      ensures Place(r).Valid() && Place(r).Queue() == Queue() + [r] && Place(r).capacity == capacity
    {
      FramesSizeConcat(upper, [r]);
      FramesSizeConcat(lower, [r]);
      assert FramesSize([r]) == FrameSize(r) + FramesSize([r][1..]);
      assert upper + lower + [r] == upper + (lower + [r]);
    }

    /** A frame goes behind the frames held wherever there is room for it, and wraps only where there is none. */
    lemma PlaceGoesBehind(r: Record)
      requires Valid() && Fits(FrameSize(r))
      ensures Place(r).head == head
      ensures Place(r).EndOfFrames() ==
              if EndOfFrames() + 2 + |r| <= (if lower == [] then capacity else head - 1) then EndOfFrames() + 2 + |r|
              else 2 + |r|
      ensures Place(r).lower == [] <==> lower == [] && EndOfFrames() + 2 + |r| <= capacity
    {
      PlaceIsEnqueue(r);
    }

    lemma FitsOnlyIfCouldHold(recordBytes: nat)
      requires Valid() && Fits(recordBytes)
      ensures CouldHoldWhenEmpty(recordBytes)
    {
    }

    /** The frames held never need more bytes than the ring has. */
    lemma FramesWithinCapacity()
      requires Valid()
      ensures FramesSize(Queue()) <= capacity
      ensures head <= capacity && tail <= capacity
    {
      FramesSizeConcat(upper, lower);
    }

  }

  // ----- Making room -----

  // The ring once as many head records as the policy's eviction drops are gone.
  function EvictUntilFits(s: Ring, recordBytes: nat): Ring
    requires s.Valid() && s.CouldHoldWhenEmpty(recordBytes)
    requires s.IsEmpty() ==> s.Fits(recordBytes)
    decreases |s.Queue()|
  {
    if s.Fits(recordBytes) then s
    else
      s.DropIsDequeue();
      s.EmptyIffNoRecords();
      s.Drop().EmptyIffNoRecords();
      EvictUntilFits(s.Drop(), recordBytes)
  }

  // The ring with its k oldest records dropped.
  function DropMany(s: Ring, k: nat): Ring
    requires s.Valid() && k <= |s.Queue()|
    ensures DropMany(s, k).Valid() && DropMany(s, k).Queue() == s.Queue()[k..] && DropMany(s, k).capacity == s.capacity
    decreases k
  {
    if k == 0 then s
    else
      s.EmptyIffNoRecords();
      s.DropIsDequeue();
      DropMany(s.Drop(), k - 1)
  }

  /** An eviction drops a shortest run of the oldest records that makes the record fit:
      with fewer gone it would not. */
  lemma {:induction false} EvictsFewest(s: Ring, recordBytes: nat) returns (k: nat)
    requires s.Valid() && s.CouldHoldWhenEmpty(recordBytes)
    requires s.IsEmpty() ==> s.Fits(recordBytes)
    ensures k <= |s.Queue()|
    ensures EvictUntilFits(s, recordBytes) == DropMany(s, k) && (k == 0 <==> s.Fits(recordBytes))
    ensures DropMany(s, k).Fits(recordBytes)
    ensures forall j :: 0 <= j < k ==> !DropMany(s, j).Fits(recordBytes)
    decreases |s.Queue()|
  {
    if s.Fits(recordBytes) {
      k := 0;
    } else {
      s.EmptyIffNoRecords();
      s.DropIsDequeue();
      s.Drop().EmptyIffNoRecords();
      var k' := EvictsFewest(s.Drop(), recordBytes);
      k := k' + 1;
      forall j | 0 <= j < k
        ensures !DropMany(s, j).Fits(recordBytes)
      {
        if j > 0 {
          assert DropMany(s, j) == DropMany(s.Drop(), j - 1);
        }
      }
    }
  }

  // ----- One write, and the latches it leaves -----

  datatype Outcome = Kept | KeptByEvicting | Refused

  datatype Buffer = Buffer(ring: Ring, latches: Latches)

  predicate Evicts(s: Ring, policy: Policy, recordBytes: nat) {
    !s.Fits(recordBytes) && s.CouldHoldWhenEmpty(recordBytes) && policy == Oldest
  }

  function ResetIfEmpty(s: Ring): (r: Ring)
    requires s.Valid()
    ensures r.Valid() && r.Queue() == s.Queue() && r.capacity == s.capacity
  {
    if s.IsEmpty() then s.Reset() else s
  }

  function OutcomeOf(s: Ring, policy: Policy, r: Record): Outcome
    requires s.Valid()
  {
    if ResetIfEmpty(s).Fits(FrameSize(r)) then Kept
    else if Evicts(ResetIfEmpty(s), policy, FrameSize(r)) then KeptByEvicting
    else Refused
  }

  function WriteRing(s: Ring, policy: Policy, r: Record): Ring
    requires s.Valid()
  {
    var start := ResetIfEmpty(s);
    match OutcomeOf(s, policy, r)
    case Kept => start.Place(r)
    case KeptByEvicting => EvictUntilFits(start, FrameSize(r)).Place(r)
    case Refused => start
  }

  // How many of the oldest records the write costs.
  function Dropped(s: Ring, policy: Policy, r: Record): int
    requires s.Valid()
  {
    if OutcomeOf(s, policy, r) == KeptByEvicting then
      |s.Queue()| - |EvictUntilFits(ResetIfEmpty(s), FrameSize(r)).Queue()|
    else 0
  }

  function Latch(l: Latches, outcome: Outcome, couldHold: bool): (Latches, RunStarted) {
    match outcome
    case Kept => (Latches(false, false, false), NoRun)
    case KeptByEvicting => (Latches(false, true, true), if l.evictionReported then NoRun else Evictions)
    case Refused => (Latches(true, false, couldHold), if l.lossReported then NoRun else Refusals)
  }

  function Write(b: Buffer, policy: Policy, r: Record): (Buffer, RunStarted)
    requires b.ring.Valid()
  {
    var (latches, started) :=
      Latch(b.latches, OutcomeOf(b.ring, policy, r), b.ring.CouldHoldWhenEmpty(FrameSize(r)));
    (Buffer(WriteRing(b.ring, policy, r), latches), started)
  }

  /** A write appends its record, or appends it once the fewest oldest records that make room are
      dropped, or leaves the queue as it was; which of the three is decided by room and policy alone. */
  lemma WriteRefinesQueue(s: Ring, policy: Policy, r: Record)
    requires s.Valid()
    ensures WriteRing(s, policy, r).Valid() && WriteRing(s, policy, r).capacity == s.capacity
    ensures 0 <= Dropped(s, policy, r) <= |s.Queue()|
    ensures WriteRing(s, policy, r).Queue() ==
            if OutcomeOf(s, policy, r) == Refused then s.Queue() else s.Queue()[Dropped(s, policy, r)..] + [r]
    ensures Dropped(s, policy, r) > 0 <==> OutcomeOf(s, policy, r) == KeptByEvicting
    ensures OutcomeOf(s, policy, r) == Kept <==> HasRoomFor(s, FrameSize(r))
    ensures OutcomeOf(s, policy, r) == KeptByEvicting ==>
            && HasRoomFor(DropMany(s, Dropped(s, policy, r)), FrameSize(r))
            && forall j :: 0 <= j < Dropped(s, policy, r) ==> !HasRoomFor(DropMany(s, j), FrameSize(r))
    ensures OutcomeOf(s, policy, r) == Refused <==>
            !HasRoomFor(s, FrameSize(r)) && !(policy == Oldest && FrameSize(r) <= s.capacity)
  {
    hide Ring.Valid, Ring.Queue, Ring.Fits, Ring.HasRoom, HasRoomFor, DropMany, ResetIfEmpty, Ring.Place,
      EvictUntilFits, FrameSize;
    var start := ResetIfEmpty(s);
    RoomOnceReset(s, FrameSize(r));
    match OutcomeOf(s, policy, r)
    case Kept =>
      start.PlaceIsEnqueue(r);
    case KeptByEvicting =>
      var dropped := EvictsFewest(start, FrameSize(r));
      EvictUntilFits(start, FrameSize(r)).PlaceIsEnqueue(r);
      RoomAsDropped(s, dropped, FrameSize(r));
    case Refused =>
  }

  // An empty ring has room for all it can hold, wherever its indices stand.
  predicate HasRoomFor(s: Ring, recordBytes: nat) {
    if s.Queue() == [] then recordBytes <= s.capacity else s.HasRoom(recordBytes)
  }

  lemma RoomOnceReset(s: Ring, recordBytes: nat)
    requires s.Valid()
    ensures ResetIfEmpty(s).Fits(recordBytes) <==> HasRoomFor(s, recordBytes)
    ensures ResetIfEmpty(s).IsEmpty() <==> s.Queue() == []
    ensures s.Queue() != [] ==> ResetIfEmpty(s) == s
    ensures s.Queue() == [] ==> (ResetIfEmpty(s).Fits(recordBytes) <==> recordBytes <= s.capacity)
  {
    s.EmptyIffNoRecords();
    ResetIfEmpty(s).FitsIffRoom(recordBytes);
  }

  lemma RoomAsDropped(s: Ring, k: nat, recordBytes: nat)
    requires s.Valid() && s.Queue() != [] && k <= |s.Queue()|
    ensures forall j :: 0 <= j <= k ==> (HasRoomFor(DropMany(s, j), recordBytes) <==> DropMany(s, j).Fits(recordBytes))
  {
    forall j | 0 <= j <= k
      ensures HasRoomFor(DropMany(s, j), recordBytes) <==> DropMany(s, j).Fits(recordBytes)
    {
      DroppedIsReset(s, j, recordBytes);
    }
  }

  // What an eviction leaves of a ring that held something has been reset if nothing is left.
  lemma DroppedIsReset(s: Ring, j: nat, recordBytes: nat)
    requires s.Valid() && s.Queue() != [] && j <= |s.Queue()|
    ensures HasRoomFor(DropMany(s, j), recordBytes) <==> DropMany(s, j).Fits(recordBytes)
    decreases j
  {
    s.EmptyIffNoRecords();
    if j == 0 {
      s.FitsIffRoom(recordBytes);
    } else {
      s.DropIsDequeue();
      s.Drop().EmptyIffNoRecords();
      if s.Drop().Queue() != [] {
        DroppedIsReset(s.Drop(), j - 1, recordBytes);
      }
    }
  }

  /** Room is measured from the head, so while the head stands on the wrap marker the bytes above it
      do not count: a record is turned away from a ring whose next read would let it in exactly when it
      misses the gap below the head but not the one above the tail. */
  lemma RoomAboveHeadUncounted(s: Ring, recordBytes: nat)
    requires s.Valid() && !s.IsEmpty()
    ensures (!s.Fits(recordBytes) && s.AtHeadFrame().Fits(recordBytes)) <==>
            s.IsWrapped() && s.head == s.wrapPoint && s.head <= s.tail + recordBytes <= s.capacity
  {
  }

  // A write under a policy, or a read.
  datatype Move = Written(policy: Policy, r: Record) | TakenOut

  // The ring a run of writes and reads leaves, from an empty one.
  function AfterMoves(capacity: nat, moves: seq<Move>): (s: Ring)
    ensures s.Valid() && s.capacity == capacity
  {
    if moves == [] then Ring(capacity, 0, 0, capacity, [], [])
    else Moved(AfterMoves(capacity, moves[..|moves| - 1]), moves[|moves| - 1])
  }

  function Moved(s: Ring, move: Move): (t: Ring)
    requires s.Valid()
    ensures t.Valid() && t.capacity == s.capacity
  {
    match move
    case Written(policy, r) =>
      WriteRefinesQueue(s, policy, r);
      WriteRing(s, policy, r)
    case TakenOut =>
      if s.IsEmpty() then s
      else
        s.TakeIsDequeue();
        s.Take()
  }

  lemma OneMoveMore(capacity: nat, moves: seq<Move>, move: Move)
    ensures AfterMoves(capacity, moves + [move]) == Moved(AfterMoves(capacity, moves), move)
  {
    assert (moves + [move])[..|moves|] == moves;
  }

  lemma WrittenWithRoom(capacity: nat, moves: seq<Move>, r: Record)
    requires !AfterMoves(capacity, moves).IsEmpty() && AfterMoves(capacity, moves).Fits(FrameSize(r))
    ensures AfterMoves(capacity, moves + [Written(Newest, r)]) == AfterMoves(capacity, moves).Place(r)
  {
    OneMoveMore(capacity, moves, Written(Newest, r));
  }

  lemma TakenOutBelowWrap(capacity: nat, moves: seq<Move>)
    requires var s := AfterMoves(capacity, moves); !s.IsEmpty() && !s.HeadAtWrapPoint()
    ensures var s := AfterMoves(capacity, moves);
            && s.upper != []
            && AfterMoves(capacity, moves + [TakenOut]) ==
               s.(head := s.head + FrameSize(s.upper[0]), upper := s.upper[1..])
  {
    OneMoveMore(capacity, moves, TakenOut);
    AfterMoves(capacity, moves).HeadFramePresent();
  }

  lemma FirstWritten(capacity: nat, r: Record)
    requires FrameSize(r) <= capacity
    ensures AfterMoves(capacity, [Written(Newest, r)]) == Ring(capacity, 0, FrameSize(r), capacity, [r], [])
  {
    OneMoveMore(capacity, [], Written(Newest, r));
    assert [] + [Written(Newest, r)] == [Written(Newest, r)];
    assert AfterMoves(capacity, []) == Ring(capacity, 0, 0, capacity, [], []);
  }

  /** Such a ring is met: after three writes and two reads, twelve bytes hold one frame of five and turn seven
      away. */
  lemma EvictionNotMinimalInBytes()
    ensures exists capacity: nat, moves: seq<Move>, n: nat ::
              var s := AfterMoves(capacity, moves);
              !s.Fits(n) && FramesSize(s.Queue()) + n <= s.capacity && s.AtHeadFrame().Fits(n)
  {
    hide AfterMoves, FramesSize, Moved;
    var a, b, c: Record := [1, 2, 3, 4], [], [5, 6, 7];
    FirstWritten(12, a);
    var m := [Written(Newest, a)];
    WrittenWithRoom(12, m, b);
    m := m + [Written(Newest, b)];
    TakenOutBelowWrap(12, m);
    m := m + [TakenOut];
    assert AfterMoves(12, m) == Ring(12, 6, 8, 12, [b], []);
    WrittenWithRoom(12, m, c);
    m := m + [Written(Newest, c)];
    TakenOutBelowWrap(12, m);
    m := m + [TakenOut];
    var s := AfterMoves(12, m);
    assert s == Ring(12, 8, 5, 8, [], [c]);
    OneFrame(c);
    assert s.Queue() == [c];
    assert !s.Fits(7) && FramesSize(s.Queue()) + 7 <= s.capacity && s.AtHeadFrame().Fits(7);
  }

  lemma OneFrame(r: Record)
    ensures FramesSize([r]) == FrameSize(r)
  {
    assert FramesSize([r]) == FrameSize(r) + FramesSize([r][1..]);
  }

  // ----- One report to a run -----

  function LatchesAfter(history: seq<(Outcome, bool)>): Latches {
    if history == [] then Latches(false, false, false)
    else Latch(LatchesAfter(history[..|history| - 1]), history[|history| - 1].0, history[|history| - 1].1).0
  }

  function StartedAt(history: seq<(Outcome, bool)>, i: nat): RunStarted
    requires i < |history|
  {
    Latch(LatchesAfter(history[..i]), history[i].0, history[i].1).1
  }

  lemma LatchesRememberLast(history: seq<(Outcome, bool)>)
    ensures var l := LatchesAfter(history);
            && (l.lossReported <==> history != [] && history[|history| - 1].0 == Refused)
            && (l.evictionReported <==> history != [] && history[|history| - 1].0 == KeptByEvicting)
            && (l.full <==> history != [] && (history[|history| - 1].0 == KeptByEvicting ||
                                              history[|history| - 1] == (Refused, true)))
  {
  }

  /** Over every history of writes, a loss is reported at the first write of each maximal run of its
      kind and at no other. */
  lemma ReportedOncePerRun(history: seq<(Outcome, bool)>, i: nat)
    requires i < |history|
    ensures StartedAt(history, i) == Refusals <==>
            history[i].0 == Refused && (i == 0 || history[i - 1].0 != Refused)
    ensures StartedAt(history, i) == Evictions <==>
            history[i].0 == KeptByEvicting && (i == 0 || history[i - 1].0 != KeptByEvicting)
  {
    LatchesRememberLast(history[..i]);
  }

  // Once a write has started a run, the same record written again continues it or fits.
  lemma EchoStartsNothingNew(b: Buffer, policy: Policy, echo: Record)
    requires b.ring.Valid() && Write(b, policy, echo).1 != NoRun
    ensures WriteRing(b.ring, policy, echo).Valid()
    ensures Write(Write(b, policy, echo).0, policy, echo).1 == NoRun
  {
    WriteRefinesQueue(b.ring, policy, echo);
    if OutcomeOf(b.ring, policy, echo) == Refused {
      assert ResetIfEmpty(ResetIfEmpty(b.ring)) == ResetIfEmpty(b.ring);
    }
  }

  /** A handler that writes one fixed record on every report, under one policy, is entered at most
      twice for one write: by the time it has written twice there is nothing new to report. */
  lemma HandlerEnteredAtMostTwice(b: Buffer, policy: Policy, r: Record, echo: Record)
    requires b.ring.Valid()
    ensures WriteRing(b.ring, policy, r).Valid()
    ensures var b1 := Write(b, policy, r).0;
            var (b2, second) := Write(b1, policy, echo);
            second != NoRun ==> b2.ring.Valid() && Write(b2, policy, echo).1 == NoRun
  {
    WriteRefinesQueue(b.ring, policy, r);
    var b1 := Write(b, policy, r).0;
    if Write(b1, policy, echo).1 != NoRun {
      EchoStartsNothingNew(b1, policy, echo);
    }
  }
}
