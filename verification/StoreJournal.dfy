/** The store's promise about its records, over the state of its blocks: what it kept is delivered,
    lost with a stated fate, or still pending, in order; and what a power cut leaves says so too. */
module StoreJournal {
  import opened Bytes
  import opened BlockDevice
  import opened RecordLayout
  import opened SequenceModel
  import opened Journal

  type Ledger = Journal<Record>

  predicate SuffixOf<T(==)>(a: seq<T>, b: seq<T>) {
    |a| <= |b| && a == b[|b| - |a|..]
  }

  // The ledger's waiting records are the pending ones, and those skipped unmarked were rejected.
  ghost predicate Fits(j: Ledger, s: State)
    requires s.Core()
  {
    j.Balanced() && j.waiting == s.Pending() && SuffixOf(s.Skipped(), WithFate(j.settled, Rejected))
  }

  lemma SuffixExtends<T>(a: seq<T>, b: seq<T>, more: seq<T>)
    requires SuffixOf(a, b)
    ensures SuffixOf(a + more, b + more)
  {
  }

  // The oldest k waiting records meet a fate other than rejection.
  lemma FitsSettled(j: Ledger, s: State, s': State, k: nat, fate: Fate)
    requires s.Core() && s'.Core() && Fits(j, s) && fate != Rejected
    requires k <= |j.waiting| && s'.Pending() == s.Pending()[k..]
    requires s'.Skipped() == s.Skipped() || s'.Skipped() == []
    ensures Fits(j.Settle(k, fate), s')
  {
    j.SettleKeepsBalance(k, fate);
    WithFateConcat(j.settled, With(j.waiting[..k], fate), Rejected);
    WithFateOfWith(j.waiting[..k], fate, Rejected);
    assert WithFate(j.settled, Rejected) + [] == WithFate(j.settled, Rejected);
  }

  // Nothing settled, though the read may have left a block behind.
  lemma FitsMoved(j: Ledger, s: State, s': State)
    requires s.Core() && s'.Core() && Fits(j, s) && s'.Pending() == s.Pending()
    requires s'.Skipped() == s.Skipped() || s'.Skipped() == []
    ensures Fits(j, s')
  {
  }

  lemma FitsRejected(j: Ledger, s: State, s': State)
    requires s.Core() && s'.Core() && Fits(j, s) && j.waiting != []
    requires s'.Pending() == s.Pending()[1..] && s'.Skipped() == s.Skipped() + [j.waiting[0]]
    ensures Fits(j.Settle(1, Rejected), s')
  {
    j.SettleKeepsBalance(1, Rejected);
    WithFateConcat(j.settled, With(j.waiting[..1], Rejected), Rejected);
    WithFateOfWith(j.waiting[..1], Rejected, Rejected);
    assert j.waiting[..1] == [j.waiting[0]];
    SuffixExtends(s.Skipped(), WithFate(j.settled, Rejected), [j.waiting[0]]);
  }

  lemma FitsAccepted(j: Ledger, s: State, s': State, data: Record)
    requires s.Core() && s'.Core() && Fits(j, s)
    requires s'.Pending() == s.Pending() + [data] && s'.Skipped() == s.Skipped()
    ensures Fits(j.Accept(data), s')
  {
    j.AcceptKeepsBalance(data);
  }

  // ----- What a cut leaves -----

  // The media holds a run of blocks in this order, with nothing else in the sequence space.
  ghost predicate HoldsRun(media: Media, order: seq<nat>, modulus: nat) {
    Ordered(order, modulus) && forall s :: 0 <= s < modulus ==> (s in media <==> s in order)
  }

  // Cut between one ledger and the next, with m records settled: some records skipped of those settled by then,
  // then every record that was not. These are those waiting before less the k settled since, or those waiting
  // after, once all that the later ledger settles has been.
  ghost predicate UnsentAtCut(unsent: seq<Record>, before: Ledger, after: Ledger, skipped: seq<Record>, k: nat, m: nat) {
    && m <= |after.settled| && SuffixOf(skipped, WithFate(after.settled[..m], Rejected))
    && ((m == |before.settled| + k && k <= |before.waiting| && unsent == skipped + before.waiting[k..]) ||
        (m == |after.settled| && unsent == skipped + after.waiting))
  }

  ghost predicate Faithful(media: Media, lay: Layout, modulus: nat, before: Ledger, after: Ledger,
                           order: seq<nat>, skipped: seq<Record>, k: nat, m: nat)
  {
    HoldsRun(media, order, modulus) && UnsentAtCut(UnsentOver(lay, media, order), before, after, skipped, k, m)
  }

  // And the run it holds is no more than one block longer than it was, without holes if it had none.
  ghost predicate CutShown(media: Media, start: State, before: Ledger, after: Ledger,
                           order: seq<nat>, skipped: seq<Record>, k: nat, m: nat)
    requires start.Core()
  {
    && Faithful(media, start.lay, start.modulus, before, after, order, skipped, k, m)
    && Span(order, start.modulus) <= Span(start.order, start.modulus) + 1
    && (Contiguous(start.order, start.modulus) ==> Contiguous(order, start.modulus))
  }

  ghost predicate CutFaithful(media: Media, start: State, before: Ledger, after: Ledger)
    requires start.Core()
  {
    exists order: seq<nat>, skipped: seq<Record>, k: nat, m: nat ::
      CutShown(media, start, before, after, order, skipped, k, m)
  }

  // A cut that leaves the media as a state of the sequence has it, that state's ledger being j.
  lemma StateCutFaithful(start: State, before: Ledger, j: Ledger, after: Ledger, s: State, k: nat)
    requires start.Core() && s.Core() && Fits(j, s)
    requires s.lay == start.lay && s.modulus == start.modulus
    requires j.settled <= after.settled && k <= |before.waiting|
    requires (|j.settled| == |before.settled| + k && j.waiting == before.waiting[k..]) ||
             (|j.settled| == |after.settled| && j.waiting == after.waiting)
    requires Span(s.order, s.modulus) <= Span(start.order, s.modulus) + 1
    requires Contiguous(start.order, s.modulus) ==> Contiguous(s.order, s.modulus)
    ensures CutFaithful(s.blocks, start, before, after)
  {
    s.MediaIsSkippedThenPending();
    assert after.settled[..|j.settled|] == j.settled;
    assert CutShown(s.blocks, start, before, after, s.order, s.Skipped(), k, |j.settled|);
  }

  lemma UnchangedCutFaithful(s: State, j: Ledger)
    requires s.Core() && Fits(j, s)
    ensures CutFaithful(s.blocks, s, j, j)
  {
    hide Fits, State.Core, State.Pending, CutFaithful;
    assert j.waiting[0..] == j.waiting;
    StateCutFaithful(s, j, j, j, s, 0);
  }

  // More settled later leaves an earlier cut as faithful as it was.
  lemma FaithfulStays(media: Media, start: State, before: Ledger, mid: Ledger, after: Ledger, done: nat)
    requires start.Core() && CutFaithful(media, start, before, mid)
    requires mid.settled <= after.settled
    requires done <= |before.waiting| && mid.waiting == before.waiting[done..]
    requires |before.settled| + done == |mid.settled|
    ensures CutFaithful(media, start, before, after)
  {
    hide Ordered, Contiguous, UnsentOver, WithFate, Span;
    var order: seq<nat>, skipped: seq<Record>, k: nat, m: nat :|
      CutShown(media, start, before, mid, order, skipped, k, m);
    assert after.settled[..m] == mid.settled[..m];
    var k' := if m == |before.settled| + k then k else done;
    assert CutShown(media, start, before, after, order, skipped, k', m);
  }

  /** Cut during an append, the media show all that waited until then, followed by the new record if the last
      of its bytes is down. */
  lemma AppendCutFaithful(start: State, before: Ledger, j: Ledger, s: State, data: Record, media: Media, e: nat)
    requires start.Core() && s.Inv() && !s.corrupt && Fits(j, s) && s.lay == start.lay && s.modulus == start.modulus
    requires s.lay.Sound() && 0 < |data| <= s.lay.maxMessageSize
    requires media in AppendCuts(s.blocks, s.write, s.lay.Sealed(data))
    requires e <= |before.waiting| && j == before.Settle(e, Evicted)
    requires Span(s.order, s.modulus) <= Span(start.order, s.modulus) + 1
    requires Contiguous(start.order, s.modulus) ==> Contiguous(s.order, s.modulus)
    ensures CutFaithful(media, start, before, j) || CutFaithful(media, start, before, j.Accept(data))
  {
    hide Layout.Unsent, Layout.Clean, Ordered, UnsentOver, Contiguous, CutFaithful, Fits, State.Pending,
      State.Skipped;
    var sealed := s.lay.Sealed(data);
    var k: nat :| k <= |sealed| && media == Torn(s.blocks, s.write, sealed, k);
    if k == |sealed| {
      assert sealed[..k] == sealed;
      s.AppendedKeeps(data);
      FitsAccepted(j, s, s.Appended(data), data);
      StateCutFaithful(start, before, j.Accept(data), j.Accept(data), s.Appended(data), 0);
    } else {
      s.lay.TornAppendUnseen(s.blocks[s.write], data, k);
      assert s.lay.Unsent(s.blocks[s.write]) + [] == s.lay.Unsent(s.blocks[s.write]);
      s.WriteBlockExtended(sealed[..k], []);
      assert s.Pending() + [] == s.Pending();
      FitsMoved(j, s, s.Extended(sealed[..k]));
      StateCutFaithful(start, before, j, j, s.Extended(sealed[..k]), e);
    }
  }

  /** A cut inside the write of a sent flag shows the record still to send, or gone. */
  lemma MarkCutFaithful(start: State, j: Ledger, media: Media)
    requires start.Core() && Fits(j, start) && start.lay.Whole(start.blocks[start.read][start.cursor..])
    requires !start.lay.FinishedWith(start.blocks[start.read][start.cursor..])
    requires start.FlagOffset() < |start.blocks[start.read]|
    requires media in OverwriteCuts(start.blocks, start.read, start.FlagOffset())
    requires j.waiting != []
    ensures CutFaithful(media, start, j, j.Settle(1, Delivered))
  {
    var value: byte :| media == Overwritten(start.blocks, start.read, start.FlagOffset(), value);
    start.FlaggedKeeps(value);
    var s := start.Flagged(value);
    if value == FLAG_SENT || value == FLAG_DISCARDED {
      FitsSettled(j, start, s, 1, Delivered);
      StateCutFaithful(start, j, j.Settle(1, Delivered), j.Settle(1, Delivered), s, 1);
    } else {
      FitsMoved(j, start, s);
      assert j.waiting[0..] == j.waiting;
      StateCutFaithful(start, j, j, j.Settle(1, Delivered), s, 0);
    }
  }

  // A cut at a state that has moved on without settling anything.
  lemma UnsettledCutFaithful(start: State, j: Ledger, after: Ledger, s: State)
    requires start.Core() && s.Core() && Fits(j, start) && s.lay == start.lay && s.modulus == start.modulus
    requires s.Pending() == start.Pending() && (s.Skipped() == start.Skipped() || s.Skipped() == [])
    requires j.settled <= after.settled
    requires Span(s.order, s.modulus) <= Span(start.order, s.modulus) + 1
    requires Contiguous(start.order, s.modulus) ==> Contiguous(s.order, s.modulus)
    ensures CutFaithful(s.blocks, start, j, after)
  {
    hide State.Pending, State.Skipped, UnsentOver, Contiguous, CutFaithful;
    FitsMoved(j, start, s);
    assert j.waiting[0..] == j.waiting;
    StateCutFaithful(start, j, j, after, s, 0);
  }

  /** A cut anywhere in a rotation shows what was waiting, less at most what the rotation evicts. */
  lemma RotationCutFaithful(s: State, j: Ledger, media: Media)
    requires s.Inv() && Fits(j, s) && media in s.RotationCuts()
    ensures s.AfterRotation().Core() && |s.AfterRotation().Pending()| <= |j.waiting|
    ensures var e := |j.waiting| - |s.AfterRotation().Pending()|;
            && Fits(j.Settle(e, Evicted), s.AfterRotation())
            && CutFaithful(media, s, j, j.Settle(e, Evicted))
  {
    hide State.Pending, State.Skipped, UnsentOver, Layout.Clean, Layout.Unsent, Ordered, Contiguous, CutFaithful,
      Fits, State.AfterRotation, State.Settled, State.Rotated;
    var e := RotationFits(s, j);
    var after := j.Settle(e, Evicted);
    s.RotatedSettledCore();
    s.RotatedCore();
    s.RotatedPending();
    if media == s.Rotated().blocks {
      s.RotatedSame();
      UnsettledCutFaithful(s, j, after, s.Rotated());
    } else if media == s.Rotated().Settled().blocks {
      UnsettledCutFaithful(s, j, after, s.Rotated().Settled());
    } else {
      s.RotationKeeps();
      s.RotationSame();
      StateCutFaithful(s, j, after, after, s.AfterRotation(), e);
    }
  }

  lemma RotationFits(s: State, j: Ledger) returns (e: nat)
    requires s.Inv() && Fits(j, s)
    ensures s.AfterRotation().Inv() && |s.AfterRotation().Pending()| <= |j.waiting|
    ensures e == |j.waiting| - |s.AfterRotation().Pending()|
    ensures Fits(j.Settle(e, Evicted), s.AfterRotation())
    ensures !s.RotationEvicts() ==> e == 0
    ensures e > 0 <==> s.EvictionCosts()
  {
    hide State.Pending, State.Skipped, UnsentOver, Layout.Clean, Layout.Unsent, Ordered, Contiguous;
    s.RotationKeeps();
    s.EvictionCost();
    var k :| 0 <= k <= |s.Pending()| && s.AfterRotation().Pending() == s.Pending()[k..];
    e := k;
    FitsSettled(j, s, s.AfterRotation(), e, Evicted);
  }
}
