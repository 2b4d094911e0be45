/** What each step of the store does to its ledger, to the run of blocks, and to what a power cut leaves. */
module StoreSteps {
  import opened Bytes
  import opened BlockDevice
  import opened DiscardPolicy
  import opened RecordLayout
  import opened SequenceModel
  import opened SequenceSpace
  import opened GapWalk
  import opened RunOrder
  import opened StoreJournal
  import opened FailedCalls
  import J = Journal

  // Over a write, some of the oldest waiting records are evicted and what was kept waits behind the rest.
  ghost predicate Evicts(before: Ledger, after: Ledger, kept: seq<Record>, evictedUnsent: bool) {
    var e := |after.settled| - |before.settled|;
    && 0 <= e <= |before.waiting| && (e > 0 ==> evictedUnsent)
    && after == J.Journal(before.accepted + kept, before.Settle(e, J.Evicted).settled, before.waiting[e..] + kept)
  }

  lemma FitsBalanced(j: Ledger, s: State)
    requires s.Core() && Fits(j, s)
    ensures j.Balanced()
  {
  }

  lemma SettleNothing(j: Ledger)
    ensures j.Settle(0, J.Evicted) == j
  {
  }

  lemma NothingEvicted(j: Ledger, evictedUnsent: bool)
    ensures Evicts(j, j, [], evictedUnsent)
  {
    SettleNothing(j);
  }

  lemma EvictsAtMost(before: Ledger, after: Ledger, evicts: bool, evictedUnsent: bool)
    requires Evicts(before, after, [], evicts) && (evicts ==> evictedUnsent)
    ensures Evicts(before, after, [], evictedUnsent)
  {
  }

  ghost predicate WithinCeiling(before: State, after: State)
    requires before.Core() && after.Core()
  {
    Span(after.order, after.modulus) <= Span(before.order, before.modulus) ||
    Span(after.order, after.modulus) <= after.maxBlocks
  }

  // The run no more than one block longer, and no longer if over the ceiling; no hole made in it.
  ghost predicate RoomKept(before: State, after: State)
    requires before.Core() && after.Core()
  {
    && WithinCeiling(before, after)
    && Span(after.order, after.modulus) <= Span(before.order, before.modulus) + 1
    && (Contiguous(before.order, before.modulus) ==> Contiguous(after.order, after.modulus))
    && after.modulus == before.modulus && after.maxBlocks == before.maxBlocks
  }

  /** A run at or below the ceiling stays there, and without holes. */
  lemma CeilingKept(before: State, after: State)
    requires before.Core() && after.Core() && (RoomKept(before, after) || NoLonger(before, after))
    requires Span(before.order, before.modulus) <= before.maxBlocks && Contiguous(before.order, before.modulus)
    ensures Span(after.order, after.modulus) <= after.maxBlocks && Contiguous(after.order, after.modulus)
  {
  }

  // ----- Writing -----

  // What preparing for a write does to the ledger, whether or not it rotates.
  lemma RoomMade(s: State, j: Ledger, recordSize: nat, policy: Policy) returns (e: nat)
    requires s.Inv() && Fits(j, s)
    ensures j.Balanced() && e <= |j.waiting|
    ensures var t, after := if s.Rotates(recordSize, policy) then s.AfterRotation() else s, j.Settle(e, J.Evicted);
            && t.Inv() && t.Core() && t.lay == s.lay && t.modulus == s.modulus
            && (!s.Refuses(recordSize, policy) ==> !t.corrupt)
            && (s.Refuses(recordSize, policy) ==> !s.Rotates(recordSize, policy))
            && Fits(after, t) && after.Balanced() && RoomKept(s, t)
            && Evicts(j, after, [], s.Rotates(recordSize, policy) && s.RotationEvicts())
            && (!s.Rotates(recordSize, policy) ==> after == j)
            && |after.settled| == |j.settled| + e
            && (e > 0 <==> s.Rotates(recordSize, policy) && s.EvictionCosts())
            && CutFaithful(s.blocks, s, j, after)
            && (s.Rotates(recordSize, policy) ==>
                  forall media :: media in s.RotationCuts() ==> CutFaithful(media, s, j, after))
            && (t.read == s.read && s.RecordAtCursor() ==> t.RecordAtCursor() && t.FlagOffset() == s.FlagOffset())
  {
    hide State.EvictionCosts, CutFaithful, Fits, Evicts, State.Pending, State.Skipped, State.AfterRotation,
      State.RotationCuts, State.RotationEvicts, Contiguous, Span, State.RecordAtCursor, State.FlagOffset, Ordered,
      Layout.Clean, State.Core, Layout.Unsent, UnsentOver;
    s.Basics();
    e := 0;
    FitsBalanced(j, s);
    if s.Rotates(recordSize, policy) {
      s.RotationKeeps();
      s.RotationSame();
      e := RotationLedger(s, j);
      FitsBalanced(j.Settle(e, J.Evicted), s.AfterRotation());
      if s.AfterRotation().read == s.read && s.RecordAtCursor() {
        s.RotationKeepsRecord();
      }
    } else {
      SettleNothing(j);
      UnchangedCutFaithful(s, j);
      NothingEvicted(j, false);
    }
  }

  lemma RotationLedger(s: State, j: Ledger) returns (e: nat)
    requires s.Inv() && Fits(j, s)
    ensures s.AfterRotation().Core() && e <= |j.waiting|
    ensures var after := j.Settle(e, J.Evicted);
            && Fits(after, s.AfterRotation()) && Evicts(j, after, [], s.RotationEvicts())
            && (e > 0 <==> s.EvictionCosts())
            && CutFaithful(s.blocks, s, j, after)
            && forall media :: media in s.RotationCuts() ==> CutFaithful(media, s, j, after)
  {
    hide State.EvictionCosts, CutFaithful, Fits, State.Pending, State.Skipped, State.AfterRotation,
      State.RotationCuts, State.RotationEvicts, Contiguous, Span, Ordered, Layout.Clean, State.Core, Layout.Unsent,
      UnsentOver;
    s.RotationKeeps();
    e := RotationFits(s, j);
    UnsettledCutFaithful(s, j, j.Settle(e, J.Evicted), s);
    forall media | media in s.RotationCuts()
      ensures CutFaithful(media, s, j, j.Settle(e, J.Evicted))
    {
      RotationCutFaithful(s, j, media);
    }
  }

  // The write block takes appends, and has so many bytes to spare.
  ghost predicate HasRoom(s: State, bytes: nat) {
    !s.corrupt && s.write in s.blocks && |s.blocks[s.write]| + bytes <= s.maxBlockSize
  }

  // Where a record that was not refused goes: behind what the write block holds if that has room, and first into the
  // next block if not; one is refused for want of room alone, at the ceiling, under another policy than Oldest.
  ghost predicate Placed(start: State, data: Record, policy: Policy, refused: bool, kept: bool, write: nat,
                         blocks: Media)
  {
    && start.Core() && |start.lay.seal(data).0| < 0x1_0000
    && var sealed := start.lay.Sealed(data);
       if HasRoom(start, |sealed|) then
         && !refused && write == start.write
         && blocks == (if kept then start.blocks[write := start.blocks[write] + sealed] else start.blocks)
       else
         && (refused <==> policy != Oldest && Span(start.order, start.modulus) >= start.maxBlocks)
         && (!refused ==>
               && write == Next(start.write, start.modulus) && write !in start.blocks && write in blocks
               && blocks[write] == if kept then sealed else [])
  }

  // What preparing leaves, and the record behind it if it was kept.
  lemma PlacedIs(start: State, s: State, t: State, data: Record, policy: Policy, kept: bool)
    requires start.Inv() && start.lay.Sound() && 0 < |data| <= start.lay.maxMessageSize
    requires s == if start.Rotates(start.lay.RecordSize(|data|), policy) then start.AfterRotation() else start
    requires var refused := start.Refuses(start.lay.RecordSize(|data|), policy);
             && (refused ==> t == s && !kept)
             && (!refused ==> s.Inv() && s.write in s.blocks && t == if kept then s.Appended(data) else s)
    ensures Placed(start, data, policy, start.Refuses(start.lay.RecordSize(|data|), policy), kept, t.write, t.blocks)
  {
    hide Layout.Unsent, Layout.Clean, Ordered, Contiguous, State.AfterRotation, Layout.Sealed, State.Core, State.Inv,
      State.Appended;
    start.lay.SealedWhole(data);
    InvIsSound(start);
    start.Basics();
    if start.Rotates(start.lay.RecordSize(|data|), policy) {
      start.RotationStartsEmpty();
      start.RotationSame();
      assert [] + start.lay.Sealed(data) == start.lay.Sealed(data);
    }
    if kept {
      AppendedIs(s, data);
    }
  }

  /** So no block grows past its size, but to hold a single record. */
  lemma PlacedWithinSize(start: State, data: Record, policy: Policy, refused: bool, write: nat, blocks: Media)
    requires Placed(start, data, policy, refused, true, write, blocks) && !refused
    ensures write in blocks && blocks[write] != [] &&
            (|blocks[write]| <= start.maxBlockSize || blocks[write] == start.lay.Sealed(data))
  {
  }

  lemma RecordAppended(s: State, j: Ledger, data: Record)
    requires s.Inv() && !s.corrupt && Fits(j, s) && s.lay.Sound() && 0 < |data| <= s.lay.maxMessageSize
    ensures j.Accept(data).Balanced()
    ensures s.write in s.blocks && s.Appended(data).Inv() && Fits(j.Accept(data), s.Appended(data))
    ensures s.RecordAtCursor() ==> s.Appended(data).RecordAtCursor() && s.Appended(data).FlagOffset() == s.FlagOffset()
  {
    hide Layout.Clean, Layout.Unsent, UnsentOver, State.Pending, State.Skipped, Layout.Sealed, Layout.Whole;
    s.AppendedKeeps(data);
    FitsAccepted(j, s, s.Appended(data), data);
    if s.RecordAtCursor() {
      s.ExtendedKeepsRecord(s.lay.Sealed(data));
    }
  }

  lemma AppendedIs(s: State, data: Record)
    requires s.write in s.blocks && s.lay.Sound() && 0 < |data| <= s.lay.maxMessageSize
    ensures s.Appended(data) ==
            s.(position := s.position + s.lay.RecordSize(|data|),
               blocks := s.blocks[s.write := s.blocks[s.write] + s.lay.Sealed(data)])
  {
    s.lay.SealedWhole(data);
  }

  // Whichever device call of a write the cut comes in, the ledger after the write accounts for the media.
  lemma CutsAcrossAppend(start: State, before: Ledger, s: State, j: Ledger, cuts: iset<Media>, data: Record,
                         evicted: bool)
    requires start.Core() && s.Inv() && !s.corrupt && Fits(j, s) && s.lay == start.lay && s.modulus == start.modulus
    requires s.lay.Sound() && 0 < |data| <= s.lay.maxMessageSize
    requires Evicts(before, j, [], evicted) && RoomKept(start, s)
    requires forall media :: media in cuts ==> CutFaithful(media, start, before, j)
    ensures forall media :: media in cuts ==> CutFaithful(media, start, before, j.Accept(data))
    ensures forall media :: media in AppendCuts(s.blocks, s.write, s.lay.Sealed(data)) ==>
              CutFaithful(media, start, before, j.Accept(data))
    ensures Evicts(before, j.Accept(data), [data], evicted)
    ensures s.Appended(data).Core() && RoomKept(start, s.Appended(data))
  {
    hide CutFaithful, Layout.Clean, Layout.Unsent, Contiguous, UnsentOver, Ordered;
    s.AppendedKeeps(data);
    var e := |j.settled| - |before.settled|;
    assert before.waiting[e..] + [] == before.waiting[e..] && before.accepted + [] == before.accepted;
    forall media | CutFaithful(media, start, before, j)
      ensures CutFaithful(media, start, before, j.Accept(data))
    {
      FaithfulStays(media, start, before, j, j.Accept(data), e);
    }
    forall media | media in AppendCuts(s.blocks, s.write, s.lay.Sealed(data))
      ensures CutFaithful(media, start, before, j.Accept(data))
    {
      AppendCutFaithful(start, before, j, s, data, media, e);
    }
  }

  // ----- Reading -----

  // The oldest k waiting records were rejected, and nothing else was settled.
  ghost predicate Rejects(before: Ledger, after: Ledger, k: nat) {
    k <= |before.waiting| && after == before.Settle(k, J.Rejected)
  }

  lemma RejectsNone(j: Ledger)
    ensures Rejects(j, j, 0)
  {
  }

  lemma RejectsOne(j: Ledger)
    requires j.waiting != []
    ensures Rejects(j, j.Settle(1, J.Rejected), 1)
  {
  }

  lemma RejectsOneMore(before: Ledger, mid: Ledger, k: nat)
    requires Rejects(before, mid, k) && mid.waiting != []
    ensures Rejects(before, mid.Settle(1, J.Rejected), k + 1)
  {
    var w := before.waiting;
    assert w[k..][..1] == [w[k]] && w[..k + 1] == w[..k] + [w[k]] && w[k..][1..] == w[k + 1..];
    assert J.With(w[..k + 1], J.Rejected) == J.With(w[..k], J.Rejected) + J.With([w[k]], J.Rejected);
  }

  // The run no longer, no hole made in it, the write where it was.
  ghost predicate NoLonger(before: State, after: State)
    requires before.Core() && after.Core()
  {
    && after.lay == before.lay && after.modulus == before.modulus && after.maxBlocks == before.maxBlocks
    && after.write == before.write && after.position == before.position
    && Span(after.order, after.modulus) <= Span(before.order, before.modulus)
    && (Contiguous(before.order, before.modulus) ==> Contiguous(after.order, after.modulus))
  }

  // Nearer the end of what there is to read: by whole blocks, then within a block.
  ghost predicate Nearer(before: State, after: State) {
    || |after.order| < |before.order|
    || (after.order == before.order && after.read == before.read && after.blocks == before.blocks &&
        before.cursor < after.cursor)
  }

  lemma SteppedPast(s: State, j: Ledger)
    requires s.Core() && Fits(j, s) && s.lay.Whole(s.blocks[s.read][s.cursor..])
    ensures var t := s.Stepped();
            && t.Core() && NoLonger(s, t) && Nearer(s, t) && t.order == s.order && t.blocks == s.blocks
            && t.cursor <= |s.blocks[s.read]| && (s.Inv() ==> t.Inv())
            && (s.lay.FinishedWith(s.blocks[s.read][s.cursor..]) ==> Fits(j, t))
            && (s.RecordAtCursor() ==>
                  && j.waiting != [] && j.waiting[0] == s.lay.Message(s.blocks[s.read][s.cursor..])
                  && Fits(j.Settle(1, J.Rejected), t))
  {
    hide Layout.Unsent, Layout.Clean, Layout.Whole, Layout.FinishedWith, Layout.Message, Ordered, UnsentOver,
      State.Pending, State.Skipped, j.Settle;
    s.SteppedKeeps();
    s.CursorNotAtEnd();
    s.lay.NextBoundary(s.blocks[s.read], s.cursor);
    var t := s.Stepped();
    if s.lay.FinishedWith(s.blocks[s.read][s.cursor..]) {
      assert s.Skipped() + [] == s.Skipped() && [] + t.Pending() == t.Pending();
      FitsMoved(j, s, t);
    } else {
      assert t.Pending() == s.Pending()[1..];
      FitsRejected(j, s, t);
    }
  }

  // Nothing reads on from the cursor in its block.
  ghost predicate NothingHere(s: State) {
    s.read in s.blocks && s.cursor <= |s.blocks[s.read]| && !s.lay.Whole(s.blocks[s.read][s.cursor..])
  }

  lemma LeftBehind(s: State, j: Ledger)
    requires s.Core() && Fits(j, s) && s.read != s.write && NothingHere(s)
    ensures |s.order| > 1
    ensures var t := s.Left();
            && t.Core() && Fits(j, t) && NoLonger(s, t) && Nearer(s, t) && t.blocks[t.write] == s.blocks[s.write]
            && (s.Inv() ==> t.Inv())
  {
    hide Layout.Clean, Layout.Whole, Ordered, UnsentOver, State.Pending, State.Skipped, Contiguous, Span;
    s.OneBlockIffAtWrite();
    s.LeftCore();
    s.LeftPending();
    assert s.lay.Unsent(s.blocks[s.read][s.cursor..]) == [];
    assert s.Pending() == s.Left().Pending();
    FitsMoved(j, s, s.Left());
  }

  lemma GaveUp(s: State, j: Ledger)
    requires s.Core() && Fits(j, s) && s.read == s.write && NothingHere(s)
    ensures s.GivenUp().Core() && Fits(j, s.GivenUp()) && NoLonger(s, s.GivenUp()) && j.waiting == []
    ensures s.Inv() ==> s.GivenUp().Inv()
  {
    hide Layout.Clean, Layout.Whole, Ordered, UnsentOver, State.Pending, State.Skipped;
    s.GivenUpKeeps();
    FitsMoved(j, s, s.GivenUp());
  }

  // A cursor that has caught up with the write position has nothing ahead of it.
  lemma NothingLeft(s: State, j: Ledger)
    requires s.Core() && Fits(j, s) && s.read == s.write && NothingHere(s)
    ensures j.waiting == []
  {
    GaveUp(s, j);
  }

  lemma NoneUnsent(s: State, j: Ledger)
    requires s.Core() && Fits(j, s) && s.read == s.write && s.cursor >= s.position
    ensures j.waiting == []
  {
    assert s.blocks[s.read][s.cursor..] == [];
    NothingLeft(s, j);
  }

  // Each way on from a state the read has met.
  lemma StepsFrom(s: State, j: Ledger)
    requires s.Core() && Fits(j, s)
    ensures Rejects(j, j, 0) && NoLonger(s, s)
    ensures s.lay.Whole(s.blocks[s.read][s.cursor..]) ==>
              && s.Stepped().Core() && NoLonger(s, s.Stepped()) && Nearer(s, s.Stepped())
              && (s.Inv() ==> s.Stepped().Inv())
              && (s.RecordAtCursor() ==>
                    && j.waiting != [] && j.waiting[0] == s.lay.Message(s.blocks[s.read][s.cursor..])
                    && Rejects(j, j.Settle(1, J.Rejected), 1))
    ensures !s.lay.Whole(s.blocks[s.read][s.cursor..]) ==>
              && NothingHere(s)
              && (s.read != s.write ==>
                    && |s.order| > 1 && s.Left().Core() && NoLonger(s, s.Left()) && Nearer(s, s.Left())
                    && (s.Inv() ==> s.Left().Inv()))
              && (s.read == s.write ==>
                    && j.waiting == [] && s.GivenUp().Core() && NoLonger(s, s.GivenUp())
                    && (s.Inv() ==> s.GivenUp().Inv()))
  {
    hide Fits, State.Stepped, State.Left, State.GivenUp, NoLonger, Nearer, Rejects, State.Inv, Layout.Whole;
    NoLongerSelf(s);
    RejectsNone(j);
    if s.lay.Whole(s.blocks[s.read][s.cursor..]) {
      SteppedPast(s, j);
      if s.RecordAtCursor() {
        RejectsOne(j);
      }
    } else if s.read != s.write {
      LeftBehind(s, j);
    } else {
      GaveUp(s, j);
    }
  }

  // ----- What a read goes over -----

  // From the cursor on, the blocks up to some place of the run parse without a remainder.
  ghost predicate CleanUpTo(s: State, k: nat) {
    && s.read in s.blocks && s.cursor <= |s.blocks[s.read]| && s.lay.Clean(s.blocks[s.read][s.cursor..])
    && forall i :: 0 < i < k && i < |s.order| ==> s.order[i] in s.blocks && s.lay.Clean(s.blocks[s.order[i]])
  }

  // The run has lost so many of its oldest blocks and the rest are as they were.
  ghost predicate LeftOf(s: State, order: seq<nat>, blocks: Media, k: nat) {
    && k <= |s.order| && order == s.order[k..]
    && forall b :: b in order ==> b in blocks && b in s.blocks && blocks[b] == s.blocks[b]
  }

  // All that was gone over from one state to the other parses: no damage was met.
  ghost predicate CleanOver(s: State, t: State) {
    && t.lay == s.lay && |t.order| <= |s.order| && LeftOf(s, t.order, t.blocks, |s.order| - |t.order|)
    && t.read in t.blocks && t.cursor <= |t.blocks[t.read]| && s.read in s.blocks
    && if |t.order| == |s.order| then
         s.cursor <= t.cursor <= |s.blocks[s.read]| && s.lay.Clean(s.blocks[s.read][s.cursor..t.cursor])
       else CleanUpTo(s, |s.order| - |t.order|) && s.lay.Clean(t.blocks[t.read][..t.cursor])
  }

  lemma CleanOverSelf(s: State)
    requires s.Core()
    ensures CleanOver(s, s)
  {
    assert s.order[0..] == s.order && s.blocks[s.read][s.cursor..s.cursor] == [];
  }

  lemma CleanOverRecord(start: State, s: State)
    requires start.Core() && s.Core() && CleanOver(start, s) && s.lay.Whole(s.blocks[s.read][s.cursor..])
    ensures s.Stepped().Core() && CleanOver(start, s.Stepped())
  {
    hide Ordered, Layout.Clean, Layout.Unsent, Layout.Whole, Layout.Size, LeftOf, CleanUpTo, State.Core;
    s.Basics();
    start.Basics();
    s.SteppedKeeps();
    var b, t := s.blocks[s.read], s.Stepped();
    s.CursorNotAtEnd();
    s.lay.NextBoundary(b, s.cursor);
    if |s.order| == |start.order| {
      NoneLeft(start, s);
      CleanOn(s.lay, b, start.cursor, s.cursor, t.cursor);
    }
  }

  lemma NoneLeft(start: State, s: State)
    requires start.Core() && s.Core() && LeftOf(start, s.order, s.blocks, 0)
    ensures s.read == start.read && s.blocks[s.read] == start.blocks[start.read]
  {
    assert s.order[0] in s.order;
  }

  // One record more that parses.
  lemma CleanOn(lay: Layout, b: seq<byte>, from: nat, at: nat, next: nat)
    requires from <= at <= next <= |b| && lay.Clean(b[from..at])
    requires lay.Whole(b[at..]) && next == at + lay.Size(b[at..])
    ensures lay.Clean(b[from..next])
  {
    hide Layout.Clean, Layout.Unsent;
    lay.FirstRecord(b[at..]);
    assert b[at..][..lay.Size(b[at..])] == b[at..next];
    assert b[from..next] == b[from..at] + b[at..next];
    lay.CleanConcat(b[from..at], b[at..next]);
  }

  lemma CleanOverBlock(start: State, s: State)
    requires start.Core() && s.Core() && CleanOver(start, s) && |s.order| > 1 && s.cursor == |s.blocks[s.read]|
    ensures s.Left().Core() && CleanOver(start, s.Left())
  {
    hide Ordered, Layout.Clean, Layout.Unsent, State.Core, State.Left, LeftOf, CleanUpTo;
    s.Basics();
    start.Basics();
    s.LeftCore();
    LeftStarts(s);
    var k := |start.order| - |s.order|;
    LeftOfNext(start, s, k);
    CleanUpToNext(start, s, k);
  }

  // A record stepped over, or a block left at its end, or nothing.
  ghost predicate CleanStep(s: State, t: State) {
    || t == s
    || (s.read in s.blocks && s.cursor <= |s.blocks[s.read]| && s.lay.Whole(s.blocks[s.read][s.cursor..]) &&
        t == s.Stepped())
    || (s.read in s.blocks && |s.order| > 1 && s.cursor == |s.blocks[s.read]| && t == s.Left())
  }

  lemma CleanOverStep(start: State, s: State, t: State)
    requires start.Core() && s.Core() && CleanOver(start, s) && CleanStep(s, t)
    ensures CleanOver(start, t)
  {
    hide CleanOver, State.Core, State.Left, State.Stepped, Layout.Whole;
    if s.read in s.blocks && s.cursor <= |s.blocks[s.read]| && s.lay.Whole(s.blocks[s.read][s.cursor..]) {
      CleanOverRecord(start, s);
    }
    if s.read in s.blocks && |s.order| > 1 && s.cursor == |s.blocks[s.read]| {
      CleanOverBlock(start, s);
    }
  }

  lemma LeftStarts(s: State)
    requires s.Core() && |s.order| > 1
    ensures var t := s.Left();
            && |t.order| == |s.order| - 1 && t.lay == s.lay && t.cursor == 0 && t.Core() && t.read in t.blocks
            && s.lay.Clean(t.blocks[t.read][..t.cursor])
  {
    s.LeftCore();
    s.lay.NothingInNothing();
    assert s.Left().blocks[s.Left().read][..0] == [];
  }

  lemma LeftOfNext(start: State, s: State, k: nat)
    requires s.Core() && LeftOf(start, s.order, s.blocks, k) && |s.order| > 1
    ensures LeftOf(start, s.Left().order, s.Left().blocks, k + 1)
  {
    hide Layout.Clean, Ordered;
    s.Basics();
    OrderedDistinct(s.order, s.modulus);
    assert s.Left().order == start.order[k + 1..];
    forall b | b in s.Left().order
      ensures b in s.Left().blocks && b in start.blocks && s.Left().blocks[b] == start.blocks[b]
    {
      assert b in s.order && b != s.order[0];
    }
  }

  lemma CleanUpToNext(start: State, s: State, k: nat)
    requires start.Core() && s.Core() && s.lay == start.lay && LeftOf(start, s.order, s.blocks, k) && s.cursor == |s.blocks[s.read]|
    requires if k == 0 then start.cursor <= s.cursor && s.lay.Clean(start.blocks[start.read][start.cursor..s.cursor])
             else CleanUpTo(start, k) && s.lay.Clean(s.blocks[s.read][..s.cursor])
    ensures CleanUpTo(start, k + 1)
  {
    hide Ordered, Layout.Clean;
    var b := s.blocks[s.read];
    assert s.read == s.order[0] == start.order[k] && s.read in s.order;
    assert b[..s.cursor] == b;
    assert k == 0 ==> b[start.cursor..s.cursor] == b[start.cursor..];
  }

  lemma NoLongerSelf(s: State)
    requires s.Core()
    ensures NoLonger(s, s)
  {
  }

  ghost predicate CutsFaithful(cuts: iset<Media>, start: State, before: Ledger, after: Ledger)
    requires start.Core()
  {
    forall media :: media in cuts ==> CutFaithful(media, start, before, after)
  }

  // Reading on, each disposal leaves media as faithful as those before it.
  lemma ReadOnCuts(start: State, before: Ledger, mid: Ledger, after: Ledger, s: State, k: nat, d: nat,
                   cuts: iset<Media>, cuts': iset<Media>)
    requires start.Core() && s.Core() && Fits(after, s) && NoLonger(start, s)
    requires Rejects(before, mid, k) && d <= 1 && Rejects(mid, after, d)
    requires CutsFaithful(cuts, start, before, mid) && cuts' <= cuts + iset{s.blocks}
    ensures Rejects(before, after, k + d) && CutsFaithful(cuts', start, before, after)
  {
    hide Fits, CutFaithful, State.Core, State.Pending, State.Skipped, Span, Contiguous;
    if d == 0 {
      assert mid.settled + J.With(mid.waiting[..0], J.Rejected) == mid.settled;
      assert after == mid;
    } else {
      RejectsOneMore(before, mid, k);
    }
    assert mid.settled <= after.settled;
    StateCutFaithful(start, before, after, after, s, k + d);
    forall media | CutFaithful(media, start, before, mid)
      ensures CutFaithful(media, start, before, after)
    {
      FaithfulStays(media, start, before, mid, after, k);
    }
  }

  lemma NoLongerTrans(a: State, b: State, c: State)
    requires a.Core() && b.Core() && c.Core() && NoLonger(a, b) && NoLonger(b, c)
    ensures NoLonger(a, c)
  {
  }

  // ----- Marking -----

  /** A record marked is delivered, and so says every cut from then on; one cut in the marking may say either. */
  lemma MarkSettles(s: State, j: Ledger)
    requires s.Inv() && Fits(j, s) && s.RecordAtCursor()
    ensures j.waiting != [] && s.FlagOffset() < |s.blocks[s.read]|
    ensures s.lay.Whole(s.Flagged(FLAG_SENT).blocks[s.read][s.cursor..])
    ensures var t, after := s.Flagged(FLAG_SENT).Stepped(), j.Settle(1, J.Delivered);
            && t.Inv() && Fits(after, t) && t == s.Flagged(FLAG_SENT).(cursor := s.FlagOffset() + SENT_FLAG_SIZE)
            && t.Settled().Inv() && Fits(after, t.Settled()) && NoLonger(s, t.Settled())
            && CutFaithful(s.blocks, s, j, after) && CutFaithful(t.Settled().blocks, s, j, after)
            && forall media :: media in OverwriteCuts(s.blocks, s.read, s.FlagOffset()) ==>
                 CutFaithful(media, s, j, after)
  {
    hide Layout.Unsent, Layout.Clean, Layout.Whole, Layout.FinishedWith, Layout.Message, Ordered, UnsentOver,
      CutFaithful, State.Pending, State.Skipped, Layout.Size, Contiguous;
    s.FlagInBlock();
    s.MarkedKeeps();
    var t, after := s.Flagged(FLAG_SENT).Stepped(), j.Settle(1, J.Delivered);
    FitsSettled(j, s, t, 1, J.Delivered);
    t.SettledCore();
    FitsMoved(after, t, t.Settled());
    UnsettledCutFaithful(s, j, after, s);
    assert after.settled[..|after.settled|] == after.settled;
    StateCutFaithful(s, j, after, after, t.Settled(), 1);
    forall media | media in OverwriteCuts(s.blocks, s.read, s.FlagOffset())
      ensures CutFaithful(media, s, j, after)
    {
      MarkCutFaithful(s, j, media);
    }
  }

  // ----- Over runs -----

  // Which of the sequence numbers the media holds a block of.
  function Presence(media: Media, modulus: nat): (present: seq<bool>)
    ensures |present| == modulus
  {
    seq(modulus, i requires 0 <= i < modulus => i in media)
  }

  // No hole of the run beats the numbers it leaves unused.
  ghost predicate HolesSmall(media: Media, order: seq<nat>, modulus: nat)
    requires Ordered(order, modulus) && Span(order, modulus) < modulus
  {
    forall from: nat :: LastPresent(Presence(media, modulus), from) ==>
      HolesYield(Presence(media, modulus), order[0], Span(order, modulus), from)
  }

  // A run that leaves a number unused is taken up in its own order exactly if its holes are small.
  ghost predicate TakesUp(first: State)
    requires first.Core()
  {
    && (Span(first.order, first.modulus) < first.modulus <==>
          exists s :: 0 <= s < first.modulus && s !in first.blocks)
    && (forall left: seq<nat> ::
          HoldsRun(first.blocks, left, first.modulus) && Span(left, first.modulus) < first.modulus ==>
            (first.order == left <==> HolesSmall(first.blocks, left, first.modulus)))
    && ((forall s :: 0 <= s < first.modulus ==> s in first.blocks) ==> first.read == 0)
  }

  // What a start makes of the media: the run it holds, or, if it holds none, one new block.
  ghost predicate StartsFrom(first: State, media: Media) {
    && first.Core()
    && if exists s :: 0 <= s < first.modulus && s in media then first.blocks == media && TakesUp(first)
       else first.order == [0] && first.blocks == media[0 := []]
  }

  // What a start that froze has left: the run it took up, but for the call that failed; or all as it was, but
  // for the block a first start was to acquire.
  ghost predicate FailedStart(first: State, was: Media, media: Media, modulus: nat) {
    || (StartsFrom(first, was) && first.modulus == modulus && FailureLeaves(media, first))
    || Untaken(was, media, modulus)
  }

  ghost predicate Untaken(was: Media, media: Media, modulus: nat) {
    media == was || ((forall s :: 0 <= s < modulus ==> s !in was) && Disturbed(was, media, 0))
  }

  lemma StartFailed(first: State, was: Media, media: Media, modulus: nat)
    requires || (StartsFrom(first, was) && first.modulus == modulus && FailureLeaves(media, first))
             || media == was || ((forall s :: 0 <= s < modulus ==> s !in was) && Disturbed(was, media, 0))
    ensures FailedStart(first, was, media, modulus)
  {
  }

  lemma TakesUpRun(first: State, present: seq<bool>)
    requires first.Core() && |present| == first.modulus && TakenUp(present, first.order, first.read, first.write)
    ensures TakesUp(first)
  {
    hide HolesYield, WalkFound;
    var m := first.modulus;
    assert present == Presence(first.blocks, m);
    forall left: seq<nat> | HoldsRun(first.blocks, left, m) && Span(left, m) < m
      ensures first.order == left <==> HolesSmall(first.blocks, left, m)
    {
      RunTakenUp(first.blocks, left, m, first.order, first.read, first.write);
    }
  }

  lemma RunTakenUp(media: Media, left: seq<nat>, modulus: nat, order: seq<nat>, first: nat, last: nat)
    requires HoldsRun(media, left, modulus) && Span(left, modulus) < modulus
    requires TakenUp(Presence(media, modulus), order, first, last)
    ensures order == left <==> HolesSmall(media, left, modulus)
  {
    hide HolesYield, Located;
    var present := Presence(media, modulus);
    BeyondAbsent(left, modulus, Span(left, modulus));
    assert !present[On(left[0], Span(left, modulus), modulus)];
    var from: nat, a: nat, b: nat :| LastPresent(present, from) && Located(present, from, a, b, first, last);
    TakenUpIffHolesYield(present, left, order, first, last, from);
    assert forall f: nat :: LastPresent(present, f) ==> f == from;
  }

  /** A run without holes is taken up in its own order. */
  lemma ContiguousTakenUp(first: State, left: seq<nat>)
    requires first.Core() && TakesUp(first)
    requires HoldsRun(first.blocks, left, first.modulus) && Span(left, first.modulus) < first.modulus
    requires Contiguous(left, first.modulus)
    ensures first.order == left
  {
    hide HolesSmall, Contiguous;
    WholeRunSmallHoles(first.blocks, left, first.modulus);
  }

  /** Whatever an operation does to the ledger, nothing accepted is rewritten and nothing settled taken back. */
  lemma EveryOperationFollows(before: Ledger, after: Ledger, kept: seq<Record>, evictedUnsent: bool, k: nat)
    requires before.Balanced()
    requires Evicts(before, after, kept, evictedUnsent) || Rejects(before, after, k) ||
             (before.waiting != [] && after == before.Settle(1, J.Delivered))
    ensures J.Follows(after, before)
  {
    if Rejects(before, after, k) {
      before.SettleKeepsBalance(k, J.Rejected);
    } else if before.waiting != [] && after == before.Settle(1, J.Delivered) {
      before.SettleKeepsBalance(1, J.Delivered);
    } else {
      var e := |after.settled| - |before.settled|;
      before.SettleKeepsBalance(e, J.Evicted);
      assert J.Items(after.settled) + (before.waiting[e..] + kept) ==
             J.Items(after.settled) + before.waiting[e..] + kept;
    }
  }

  // ----- Every number taken -----

  ghost predicate AllPresent(media: Media, modulus: nat) {
    forall s :: 0 <= s < modulus ==> s in media
  }

  lemma FullRunAllPresent(order: seq<nat>, modulus: nat)
    requires Ordered(order, modulus) && Contiguous(order, modulus) && Span(order, modulus) == modulus
    ensures forall s :: 0 <= s < modulus ==> s in order
  {
    forall s | 0 <= s < modulus
      ensures s in order
    {
      assert order[Dist(order[0], s, modulus)] == s;
    }
  }

  /** A run that fills the sequence space is taken up in its own order exactly if it begins at zero; either way
      the number its next rotation goes on to is the one read from. */
  lemma FullRoundTakenUp(first: State, left: seq<nat>)
    requires first.Core() && TakesUp(first)
    requires HoldsRun(first.blocks, left, first.modulus) && Contiguous(left, first.modulus)
    requires Span(left, first.modulus) == first.modulus
    ensures first.order == left <==> left[0] == 0
    ensures Span(first.order, first.modulus) == first.modulus && Next(first.write, first.modulus) == first.read
  {
    FullRunAllPresent(left, first.modulus);
    if left[0] == 0 {
      OrderUnique(first.order, left, first.modulus);
    }
  }

  // The write block filled with copies of a record until one more no longer fits.
  ghost function FilledWith(s: State, data: Record): (t: State)
    requires s.Inv() && s.lay.Sound() && 0 < |data| <= s.lay.maxMessageSize
    ensures t.Inv() && t.order == s.order && t.BlockIsFull(t.lay.RecordSize(|data|))
    ensures t.lay == s.lay && t.modulus == s.modulus && t.maxBlocks == s.maxBlocks
    decreases s.maxBlockSize - s.position
  {
    if s.BlockIsFull(s.lay.RecordSize(|data|)) then s
    else (s.AppendedKeeps(data); AppendedIs(s, data); FilledWith(s.Appended(data), data))
  }

  // The next write rotates, and power is cut once the new block is there: before any disposal or eviction.
  ghost function CutMedia(s: State, data: Record): (media: Media)
    requires s.Inv() && s.lay.Sound() && 0 < |data| <= s.lay.maxMessageSize
    ensures FilledWith(s, data).Rotates(s.lay.RecordSize(|data|), Oldest)
    ensures media in FilledWith(s, data).RotationCuts()
  {
    FilledWith(s, data).RotatedCore();
    FilledWith(s, data).Rotated().blocks
  }

  // A store can be written to, and the record is one it may be given.
  ghost predicate Takes(s: State, data: Record) {
    s.Inv() && s.lay.Sound() && 0 < |data| <= s.lay.maxMessageSize
  }

  // Filled, cut in the rotation that follows, and taken up again.
  ghost predicate CutBetween(s: State, data: Record, t: State) {
    && Takes(s, data) && t.Core() && t.blocks == CutMedia(s, data) && TakesUp(t)
    && t.modulus == s.modulus && t.lay == s.lay && t.maxBlocks == s.maxBlocks
  }

  ghost predicate CutRun(run: seq<State>, data: seq<Record>) {
    && |run| == |data| > 0 && Takes(run[|run| - 1], data[|run| - 1])
    && forall i :: 0 <= i < |run| - 1 ==> CutBetween(run[i], data[i], run[i + 1])
  }

  lemma CutRotation(s: State, data: Record)
    requires Takes(s, data) && Contiguous(s.order, s.modulus)
    ensures var order := s.order + [Next(s.write, s.modulus)];
            && HoldsRun(CutMedia(s, data), order, s.modulus) && Contiguous(order, s.modulus)
            && Span(order, s.modulus) == Span(s.order, s.modulus) + 1
            && (AllPresent(CutMedia(s, data), s.modulus) <==> Span(order, s.modulus) == s.modulus)
  {
    hide FilledWith, State.RotationCuts, State.Rotates, State.BlockIsFull, Layout.Clean, Layout.Unsent, AllPresent;
    var t := FilledWith(s, data);
    t.RotatedCore();
    PresentIffFull(t.Rotated().blocks, t.Rotated().order, s.modulus);
  }

  lemma PresentIffFull(media: Media, order: seq<nat>, modulus: nat)
    requires HoldsRun(media, order, modulus) && Contiguous(order, modulus)
    ensures AllPresent(media, modulus) <==> Span(order, modulus) == modulus
  {
    if Span(order, modulus) < modulus {
      BeyondAbsent(order, modulus, Span(order, modulus));
    } else {
      FullRunAllPresent(order, modulus);
    }
  }

  /** After n cuts, or calls that failed instead, each in the rotation the writes since the last lead to, every number
      is present if and only if n is at least the numbers the run had left unused: whatever the ceiling, since a
      rotation evicts at most one block and these never get to it. */
  lemma {:induction false} CutsFillTheSpace(run: seq<State>, data: seq<Record>)
    requires CutRun(run, data) && run[0].Core() && Contiguous(run[0].order, run[0].modulus)
    ensures var n, s, last := |run|, run[0], run[|run| - 1];
            && last.modulus == s.modulus && last.lay == s.lay && last.maxBlocks == s.maxBlocks
            && Contiguous(last.order, s.modulus) && last.order[0] == s.order[0]
            && Span(last.order, s.modulus) == Span(s.order, s.modulus) + n - 1
            && (AllPresent(CutMedia(last, data[n - 1]), s.modulus) <==> n >= s.modulus - Span(s.order, s.modulus))
    decreases |run|
  {
    hide FilledWith, Ordered, State.Core, TakesUp, CutMedia, Contiguous, CutBetween, State.Inv, AllPresent;
    var n := |run|;
    var last := run[n - 1];
    if n > 1 {
      assert CutBetween(run[n - 2], data[n - 2], last);
      CutIsSound(run[n - 2], data[n - 2], last);
      CutsFillTheSpace(run[..n - 1], data[..n - 1]);
      OneCutMore(run[n - 2], data[n - 2], last);
    }
    CutRotation(last, data[n - 1]);
  }

  lemma CutIsSound(s: State, data: Record, t: State)
    requires CutBetween(s, data, t)
    ensures Takes(s, data) && t.Core() && t.modulus == s.modulus && t.lay == s.lay && t.maxBlocks == s.maxBlocks
  {
  }

  // A restart that finds a number to spare takes the run up with the new block at its end.
  lemma OneCutMore(s: State, data: Record, t: State)
    requires CutBetween(s, data, t) && t.Inv() && Contiguous(s.order, s.modulus)
    ensures t.order == s.order + [Next(s.write, s.modulus)] && Contiguous(t.order, s.modulus)
    ensures Span(t.order, s.modulus) == Span(s.order, s.modulus) + 1
  {
    hide TakesUp, CutMedia, Contiguous, State.Inv, AllPresent;
    CutRotation(s, data);
    InvIsSound(t);
    TakenUpUnlessFull(t, s.order + [Next(s.write, s.modulus)]);
  }

  lemma InvIsSound(s: State)
    requires s.Inv()
    ensures s.Core() && Ordered(s.order, s.modulus) && Span(s.order, s.modulus) < s.modulus
    ensures s.write == s.order[|s.order| - 1] && s.write < s.modulus && s.maxBlocks + 2 <= s.modulus
  {
  }

  lemma TakenUpUnlessFull(first: State, left: seq<nat>)
    requires first.Core() && TakesUp(first) && HoldsRun(first.blocks, left, first.modulus)
    requires Contiguous(left, first.modulus) && Span(first.order, first.modulus) < first.modulus
    ensures first.order == left
  {
    if Span(left, first.modulus) == first.modulus {
      FullRunAllPresent(left, first.modulus);
    } else {
      ContiguousTakenUp(first, left);
    }
  }

  lemma OneBefore(order: seq<nat>, modulus: nat, j: nat)
    requires Ordered(order, modulus) && Contiguous(order, modulus) && 0 < j < |order|
    ensures Dist(order[j], order[j - 1], modulus) == modulus - 1
  {
    assert Dist(order[0], order[j - 1], modulus) == j - 1 && Dist(order[0], order[j], modulus) == j;
  }

  // A run without holes that leaves a number unused is the only order of its numbers that does.
  lemma ContiguousRunAlone(order: seq<nat>, left: seq<nat>, modulus: nat)
    requires Ordered(order, modulus) && Contiguous(order, modulus)
    requires left != [] && Ordered(left, modulus) && Span(left, modulus) < modulus
    requires forall s :: s in order <==> s in left
    ensures order == left
  {
    hide Ordered, Contiguous, Span;
    assert left[0] in left;
    var j :| 0 <= j < |order| && order[j] == left[0];
    assert j == 0 by {
      if j > 0 {
        assert order[j - 1] in left;
        OneBefore(order, modulus, j);
        LastIsFurthest(left, modulus, order[j - 1]);
        assert false;
      }
    }
    OrderUnique(order, left, modulus);
  }

  lemma SameRun(media: Media, order: seq<nat>, left: seq<nat>, modulus: nat)
    requires HoldsRun(media, order, modulus) && HoldsRun(media, left, modulus)
    ensures forall s :: s in order <==> s in left
  {
    forall s
      ensures s in order <==> s in left
    {
      if s >= modulus {
        assert s !in order && s !in left;
      }
    }
  }

  // A run without holes that leaves a number unused is one a restart would take up as it is.
  lemma TakesUpItself(s: State)
    requires s.Core() && Contiguous(s.order, s.modulus) && Span(s.order, s.modulus) < s.modulus
    ensures TakesUp(s)
  {
    hide HolesYield, Contiguous, LastPresent;
    var m := s.modulus;
    BeyondAbsent(s.order, m, Span(s.order, m));
    forall left: seq<nat> | HoldsRun(s.blocks, left, m) && Span(left, m) < m
      ensures s.order == left && HolesSmall(s.blocks, left, m)
    {
      SameRun(s.blocks, s.order, left, m);
      ContiguousRunAlone(s.order, left, m);
      WholeRunSmallHoles(s.blocks, left, m);
    }
  }

  lemma WholeRunSmallHoles(media: Media, left: seq<nat>, modulus: nat)
    requires HoldsRun(media, left, modulus) && Span(left, modulus) < modulus && Contiguous(left, modulus)
    ensures HolesSmall(media, left, modulus)
  {
    hide HolesYield;
    var present := Presence(media, modulus);
    forall from: nat | LastPresent(present, from)
      ensures HolesYield(present, left[0], Span(left, modulus), from)
    {
      NoHolesYield(present, left, from);
    }
  }

  lemma CutRunGrows(run: seq<State>, data: seq<Record>, next: State, more: Record)
    requires CutRun(run, data) && CutBetween(run[|run| - 1], data[|run| - 1], next) && Takes(next, more)
    ensures CutRun(run + [next], data + [more])
  {
    hide CutBetween, Takes;
    var longer, given := run + [next], data + [more];
    forall i | 0 <= i < |longer| - 1
      ensures CutBetween(longer[i], given[i], longer[i + 1])
    {
      assert longer[i] == run[i] && given[i] == data[i] && (i < |run| - 1 ==> longer[i + 1] == run[i + 1]);
    }
  }

  /** Such cuts can come one after another until every number is present, from any run without holes. */
  lemma {:induction false} CutRunExists(s: State, data: seq<Record>) returns (run: seq<State>)
    requires s.Inv() && s.lay.Sound() && Contiguous(s.order, s.modulus)
    requires 0 < |data| <= s.modulus - Span(s.order, s.modulus)
    requires forall i :: 0 <= i < |data| ==> 0 < |data[i]| <= s.lay.maxMessageSize
    ensures CutRun(run, data) && run[0] == s
    decreases |data|
  {
    hide TakesUp, Contiguous, CutMedia, State.Inv, CutBetween, State.Core, CutRun, AllPresent;
    var n := |data| - 1;
    if n == 0 {
      run := CutRunStarts(s, data[0]);
      assert data == [data[0]];
    } else {
      InvIsSound(s);
      run := CutRunExists(s, data[..n]);
      LastTakes(run, data[..n]);
      CutsFillTheSpace(run, data[..n]);
      var next := Recut(run[n - 1], data[n - 1]);
      CutRunGrows(run, data[..n], next, data[n]);
      assert data == data[..n] + [data[n]];
      run := run + [next];
    }
  }

  lemma CutRunStarts(s: State, data: Record) returns (run: seq<State>)
    requires Takes(s, data)
    ensures CutRun(run, [data]) && run == [s]
  {
    run := [s];
  }

  lemma LastTakes(run: seq<State>, data: seq<Record>)
    requires CutRun(run, data)
    ensures |run| == |data| > 0 && Takes(run[|run| - 1], data[|run| - 1]) && run[|run| - 1].Core()
  {
  }

  lemma Recut(s: State, data: Record) returns (next: State)
    requires Takes(s, data) && Contiguous(s.order, s.modulus) && Span(s.order, s.modulus) + 1 < s.modulus
    ensures next.Inv() && CutBetween(s, data, next) && next.lay == s.lay
  {
    hide TakesUp, Layout.Unsent;
    var t := FilledWith(s, data);
    t.RotatedCore();
    next := t.Rotated();
    TakesUpItself(next);
  }

  // An operation that comes to its end; or one that a cut or a failed device call stops, with the restart that
  // follows.
  datatype Step = Done | Cut | Failed

  ghost predicate Goes(s: State, t: State, step: Step) {
    && s.Core() && t.Core() && t.modulus == s.modulus && t.maxBlocks == s.maxBlocks
    && match step
       case Done => RoomKept(s, t) || NoLonger(s, t)
       case Cut => TakesUp(t) && exists before, after :: CutFaithful(t.blocks, s, before, after)
       case Failed => exists media :: FailureLeaves(media, s) && StartsFrom(t, media)
  }

  /** What a cut leaves before the disposals of a rotation, a call that fails in it may leave as well, and at the
      ceiling a disposal is called. */
  lemma FailedAsCut(s: State, data: Record, t: State)
    requires CutBetween(s, data, t)
    ensures var full := FilledWith(s, data);
            && Goes(full, t, Failed) && full.RotationFails(t.blocks)
            && full.Rotated().Core() && full.Rotated().Settled().Core()
            && (Span(s.order, s.modulus) >= s.maxBlocks ==>
                  full.Rotated().Drained() || full.Rotated().Settled().OverCeiling())
  {
    hide FilledWith, TakesUp, FailureLeaves, Ordered, Layout.Clean, Layout.Unsent, State.BlockIsFull, State.Rotates;
    var full := FilledWith(s, data);
    full.RotatedCore();
    full.RotatedSettledCore();
    FailedRotation(full, t.blocks);
    t.Basics();
    assert t.write in t.blocks && StartsFrom(t, t.blocks);
  }

  // How many of the steps were stopped short.
  function Stopped(steps: seq<Step>): nat {
    if steps == [] then 0 else Stopped(steps[..|steps| - 1]) + if steps[|steps| - 1].Done? then 0 else 1
  }

  /** Over any run of operations, cuts and failed calls from a store at or below its ceiling, the blocks are at most
      the ceiling and one more to a cut or failure: fewer of these than the numbers the ceiling leaves unused never
      take them all. */
  lemma {:induction false} SpanWithinStops(run: seq<State>, steps: seq<Step>)
    requires |run| == |steps| + 1 && run[0].Core()
    requires forall i :: 0 <= i < |steps| ==> Goes(run[i], run[i + 1], steps[i])
    requires Span(run[0].order, run[0].modulus) <= run[0].maxBlocks && Contiguous(run[0].order, run[0].modulus)
    ensures var s, last := run[0], run[|steps|];
            && last.Core() && last.modulus == s.modulus && last.maxBlocks == s.maxBlocks
            && Span(last.order, s.modulus) <= s.maxBlocks + Stopped(steps)
            && (s.maxBlocks + Stopped(steps) < s.modulus ==>
                  Contiguous(last.order, s.modulus) && !AllPresent(last.blocks, s.modulus))
    decreases |steps|
  {
    hide Goes, Contiguous;
    var n := |steps|;
    if n == 0 {
      BeyondAbsent(run[0].order, run[0].modulus, Span(run[0].order, run[0].modulus));
    } else {
      SpanWithinStops(run[..n], steps[..n - 1]);
      SpanGoes(run[n - 1], run[n], steps[n - 1], run[0].maxBlocks + Stopped(steps[..n - 1]));
    }
  }

  lemma SpanGoes(s: State, t: State, step: Step, most: nat)
    requires s.Core() && Goes(s, t, step) && s.maxBlocks <= most && Span(s.order, s.modulus) <= most
    requires most < s.modulus ==> Contiguous(s.order, s.modulus)
    ensures t.Core() && t.modulus == s.modulus && t.maxBlocks == s.maxBlocks
    ensures var most' := most + if step.Done? then 0 else 1;
            && Span(t.order, s.modulus) <= most'
            && (most' < s.modulus ==> Contiguous(t.order, s.modulus) && !AllPresent(t.blocks, s.modulus))
  {
    hide Contiguous, TakesUp, CutFaithful, FailureLeaves, StartsFrom;
    var most', modulus := most + if step.Done? then 0 else 1, s.modulus;
    if most' < modulus {
      match step {
        case Done =>
        case Cut =>
          var before, after :| CutFaithful(t.blocks, s, before, after);
          CutWithin(s, before, after, t);
        case Failed =>
          var media :| FailureLeaves(media, s) && StartsFrom(t, media);
          StartsWithin(s, media, t);
      }
      BeyondAbsent(t.order, modulus, Span(t.order, modulus));
    }
  }

  // After a cut, or a failed call, a run without holes is taken up whole, one block longer at most.
  lemma CutWithin(s: State, before: Ledger, after: Ledger, t: State)
    requires s.Core() && CutFaithful(t.blocks, s, before, after) && t.Core() && TakesUp(t) && t.modulus == s.modulus
    requires Contiguous(s.order, s.modulus) && Span(s.order, s.modulus) + 1 < s.modulus
    ensures Span(t.order, t.modulus) <= Span(s.order, s.modulus) + 1 && Contiguous(t.order, t.modulus)
  {
    hide Contiguous, TakesUp, Faithful;
    var order: seq<nat>, skipped: seq<Record>, k: nat, m: nat :|
      CutShown(t.blocks, s, before, after, order, skipped, k, m);
    ShownHolds(t.blocks, s, before, after, order, skipped, k, m);
    ContiguousTakenUp(t, order);
  }

  lemma StartsWithin(s: State, media: Media, t: State)
    requires FailureLeaves(media, s) && StartsFrom(t, media) && t.modulus == s.modulus
    requires Contiguous(s.order, s.modulus) && Span(s.order, s.modulus) + 1 < s.modulus
    ensures Span(t.order, t.modulus) <= Span(s.order, s.modulus) + 1 && Contiguous(t.order, t.modulus)
  {
    hide TakesUp, Contiguous;
    var order: seq<nat> :| Remains(media, order, s.modulus) && Within(order, s, 1);
    if order == [] {
      OneBlockRun(t.modulus);
    } else {
      assert order[0] in media;
      ContiguousTakenUp(t, order);
    }
  }

  lemma OneBlockRun(modulus: nat)
    requires 0 < modulus
    ensures Ordered([0], modulus) && Span([0], modulus) == 1 && Contiguous([0], modulus)
  {
  }

  // A start that fails before it has taken a run up may be tried again: what is there is still what the first
  // failure may have left.
  lemma StartedAgain(s: State, was: Media, media: Media)
    requires FailureLeaves(was, s) && Untaken(was, media, s.modulus)
    ensures FailureLeaves(media, s)
  {
    hide Contiguous;
    if media != was {
      DisturbedElsewhere(was, media, 0);
      OneBlockRun(s.modulus);
      assert if 0 in media then Remains(media, [0], s.modulus) && Within([0], s, 1)
             else Remains(media, [], s.modulus) && Within([], s, 1);
    }
  }

  lemma ShownHolds(media: Media, start: State, before: Ledger, after: Ledger, order: seq<nat>, skipped: seq<Record>,
                   k: nat, m: nat)
    requires start.Core() && CutShown(media, start, before, after, order, skipped, k, m)
    ensures HoldsRun(media, order, start.modulus)
  {
  }

  // What a restart takes up shows what was unsent at the cut: some records the policy had rejected in the
  // block being read, then the records waiting less those settled by then.
  ghost predicate ShowsUnsent(unsent: seq<Record>, before: Ledger, after: Ledger) {
    exists skipped: seq<Record>, k: nat, m: nat :: UnsentAtCut(unsent, before, after, skipped, k, m)
  }

  /** After a cut anywhere in an operation, the run the media holds is taken up in its own order, showing what was
      unsent at the cut, if it leaves a number unused and its holes are small. */
  lemma TakenUpAfterCut(media: Media, start: State, before: Ledger, after: Ledger, first: State,
                        order: seq<nat>, skipped: seq<Record>, k: nat, m: nat)
    requires start.Core() && CutShown(media, start, before, after, order, skipped, k, m)
    requires Span(order, start.modulus) < start.modulus && HolesSmall(media, order, start.modulus)
    requires first.Core() && first.blocks == media && first.lay == start.lay && first.modulus == start.modulus
    requires TakesUp(first)
    ensures first.order == order
    ensures UnsentAtCut(UnsentOver(first.lay, media, first.order), before, after, skipped, k, m)
  {
    hide UnsentOver, HolesSmall;
  }

  /** A store with no holes and a number to spare, as every one at or below its ceiling has, always is. */
  lemma WholeRunTakenUp(media: Media, start: State, before: Ledger, after: Ledger, first: State)
    requires start.Core() && Span(start.order, start.modulus) + 1 < start.modulus
    requires Contiguous(start.order, start.modulus) && CutFaithful(media, start, before, after)
    requires first.Core() && first.blocks == media && first.lay == start.lay && first.modulus == start.modulus
    requires TakesUp(first)
    ensures Span(first.order, first.modulus) < first.modulus && Contiguous(first.order, first.modulus)
    ensures ShowsUnsent(UnsentOver(first.lay, media, first.order), before, after)
  {
    hide UnsentOver, TakesUp, Contiguous, HolesSmall;
    var order: seq<nat>, skipped: seq<Record>, k: nat, m: nat :|
      CutShown(media, start, before, after, order, skipped, k, m);
    ContiguousTakenUp(first, order);
    assert UnsentAtCut(UnsentOver(first.lay, media, order), before, after, skipped, k, m);
  }

  /** Cut while a record is being marked, a restart shows that record again or not; never one delivered before. */
  lemma AtMostOneTwice(unsent: seq<Record>, before: Ledger)
    requires before.waiting != [] && ShowsUnsent(unsent, before, before.Settle(1, J.Delivered))
    ensures exists skipped: seq<Record> ::
              && (forall r :: r in skipped ==> r in J.WithFate(before.settled, J.Rejected))
              && (unsent == skipped + before.waiting || unsent == skipped + before.waiting[1..])
  {
    var after := before.Settle(1, J.Delivered);
    var skipped: seq<Record>, k: nat, m: nat :| UnsentAtCut(unsent, before, after, skipped, k, m);
    assert before.waiting[0..] == before.waiting;
    RejectedSoFar(before, m);
    assert unsent == skipped + before.waiting || unsent == skipped + before.waiting[1..];
  }

  lemma RejectedSoFar(before: Ledger, m: nat)
    requires before.waiting != [] && m <= |before.settled| + 1
    ensures var after := before.Settle(1, J.Delivered);
            forall r :: r in J.WithFate(after.settled[..m], J.Rejected) ==> r in J.WithFate(before.settled, J.Rejected)
  {
    var n := |before.settled|;
    var after := before.Settle(1, J.Delivered);
    if m <= n {
      assert after.settled[..m] == before.settled[..m] && before.settled == before.settled[..m] + before.settled[m..];
      J.WithFateConcat(before.settled[..m], before.settled[m..], J.Rejected);
    } else {
      assert after.settled[..m] == before.settled + J.With(before.waiting[..1], J.Delivered);
      J.WithFateConcat(before.settled, J.With(before.waiting[..1], J.Delivered), J.Rejected);
      J.WithFateOfWith(before.waiting[..1], J.Delivered, J.Rejected);
    }
  }
}
