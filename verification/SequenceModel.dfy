/** The state of a block sequence as one value, the invariant its operations keep, and the records it
    has still to deliver. */
module SequenceModel {
  import opened Bytes
  import opened BlockDevice
  import opened DiscardPolicy
  import opened RecordLayout
  import opened SequenceSpace

  // ----- The present blocks in order -----

  // Going round from the first, each lies further on than the one before it.
  ghost predicate Ordered(order: seq<nat>, modulus: nat) {
    && order != [] && (forall i :: 0 <= i < |order| ==> order[i] < modulus)
    && forall i, j :: 0 <= i < j < |order| ==>
         Dist(order[0], order[i], modulus) < Dist(order[0], order[j], modulus)
  }

  // With no number skipped.
  ghost predicate Contiguous(order: seq<nat>, modulus: nat)
    requires Ordered(order, modulus)
  {
    forall i :: 0 <= i < |order| ==> Dist(order[0], order[i], modulus) == i
  }

  // How many sequence numbers the run spans, holes included.
  function Span(order: seq<nat>, modulus: nat): nat
    requires order != [] && order[0] < modulus && order[|order| - 1] < modulus
  {
    Dist(order[0], order[|order| - 1], modulus) + 1
  }

  lemma OrderedDistinct(order: seq<nat>, modulus: nat)
    requires Ordered(order, modulus)
    ensures forall i, j :: 0 <= i < j < |order| ==> order[i] != order[j]
  {
  }

  lemma OrderedTail(order: seq<nat>, modulus: nat)
    requires Ordered(order, modulus) && |order| > 1
    ensures Ordered(order[1..], modulus) && order[0] !in order[1..]
    ensures Span(order[1..], modulus) < Span(order, modulus)
    ensures Contiguous(order, modulus) ==> Contiguous(order[1..], modulus)
  {
    var tail := order[1..];
    forall i | 0 <= i < |tail|
      ensures Dist(tail[0], tail[i], modulus) == Dist(order[0], tail[i], modulus) - Dist(order[0], tail[0], modulus)
    {
      assert tail[i] == order[i + 1] && tail[0] == order[1];
      assert i > 0 ==> Dist(order[0], order[1], modulus) < Dist(order[0], order[i + 1], modulus);
    }
  }

  lemma OrderedSnoc(order: seq<nat>, modulus: nat)
    requires Ordered(order, modulus) && Span(order, modulus) < modulus
    ensures var next := Next(order[|order| - 1], modulus);
            && next !in order && Ordered(order + [next], modulus)
            && Span(order + [next], modulus) == Span(order, modulus) + 1
            && (Contiguous(order, modulus) ==> Contiguous(order + [next], modulus))
  {
    var next := Next(order[|order| - 1], modulus);
    assert Dist(order[0], next, modulus) == Span(order, modulus);
    forall i | 0 <= i < |order|
      ensures Dist(order[0], order[i], modulus) < Span(order, modulus)
    {
    }
  }

  // ----- What the media still has to deliver -----

  // The unsent records of the blocks, in block order.
  function UnsentOver(lay: Layout, blocks: Media, order: seq<nat>): seq<Record> {
    if order == [] then []
    else (if order[0] in blocks then lay.Unsent(blocks[order[0]]) else []) + UnsentOver(lay, blocks, order[1..])
  }

  lemma {:induction false} UnsentOverFrame(lay: Layout, blocks: Media, blocks': Media, order: seq<nat>)
    requires forall i :: 0 <= i < |order| ==>
               (order[i] in blocks <==> order[i] in blocks') &&
               (order[i] in blocks ==> blocks[order[i]] == blocks'[order[i]])
    ensures UnsentOver(lay, blocks, order) == UnsentOver(lay, blocks', order)
  {
    if order != [] {
      assert forall i :: 0 <= i < |order[1..]| ==> order[1..][i] == order[i + 1];
      UnsentOverFrame(lay, blocks, blocks', order[1..]);
    }
  }

  lemma {:induction false} UnsentOverSnoc(lay: Layout, blocks: Media, order: seq<nat>, last: nat)
    ensures UnsentOver(lay, blocks, order + [last]) ==
            UnsentOver(lay, blocks, order) + if last in blocks then lay.Unsent(blocks[last]) else []
  {
    if order == [] {
      assert [] + [last] == [last];
      assert UnsentOver(lay, blocks, [last][1..]) == [];
    } else {
      assert (order + [last])[1..] == order[1..] + [last];
      UnsentOverSnoc(lay, blocks, order[1..], last);
    }
  }

  lemma NothingOver(lay: Layout, blocks: Media)
    ensures UnsentOver(lay, blocks, []) == []
  {
  }

  lemma EmptyBlockAdds(lay: Layout, blocks: Media, order: seq<nat>, next: nat)
    requires next !in order
    ensures UnsentOver(lay, blocks[next := []], order + [next]) == UnsentOver(lay, blocks, order)
  {
    UnsentOverFrame(lay, blocks, blocks[next := []], order);
    UnsentOverSnoc(lay, blocks[next := []], order, next);
    assert lay.Unsent([]) == [];
  }

  // ----- The sequence's state -----

  function BytesIn(blocks: nat, blockSize: nat): nat {
    blocks * blockSize
  }

  datatype State = State(
    modulus: nat, maxBlocks: nat, maxBlockSize: nat,
    lay: Layout,
    read: nat, cursor: nat,
    write: nat, position: nat, corrupt: bool,
    order: seq<nat>,
    blocks: Media)
  {
    // The cursor is on a record boundary, or at the end of data it could not read to.
    ghost predicate CursorSound(b: seq<byte>) {
      cursor <= |b| && (cursor == |b| || lay.Clean(b[..cursor]))
    }

    // What holds between operations, and while a restart has yet to check the write block.
    ghost predicate Core() {
      && 2 <= maxBlocks && maxBlocks + 2 <= modulus
      && order != [] && Ordered(order, modulus)
      && (forall s :: 0 <= s < modulus ==> (s in blocks <==> s in order))
      && read == order[0] && write == order[|order| - 1]
      && read in blocks && write in blocks
      && position == |blocks[write]|
      && CursorSound(blocks[read])
    }

    lemma Basics()
      requires Core()
      ensures order != [] && Ordered(order, modulus) && read == order[0] && write == order[|order| - 1]
      ensures read < modulus && write < modulus && order[0] < modulus && read in blocks && write in blocks
      ensures position == |blocks[write]| && cursor <= |blocks[read]|
      ensures forall s :: 0 <= s < modulus ==> (s in blocks <==> s in order)
    {
    }

    // A write block that can be appended to ends on a record boundary.
    ghost predicate Inv() {
      Core() && Span(order, modulus) < modulus && (!corrupt ==> lay.Clean(blocks[write]))
    }

    // What waits unread, oldest first: from the cursor through the read block, then block after block.
    function Pending(): seq<Record>
      requires read in blocks && cursor <= |blocks[read]| && order != []
    {
      lay.Unsent(blocks[read][cursor..]) + UnsentOver(lay, blocks, order[1..])
    }

    // Left behind the cursor unmarked.
    function Skipped(): seq<Record>
      requires read in blocks && cursor <= |blocks[read]|
    {
      lay.Unsent(blocks[read][..cursor])
    }

    lemma MediaIsSkippedThenPending()
      requires Core()
      ensures UnsentOver(lay, blocks, order) == Skipped() + Pending()
    {
      hide Ordered, Layout.Unsent, Layout.Clean, Layout.Whole, Layout.FinishedWith, Layout.Message, Layout.Size;
      var b := blocks[read];
      if cursor == |b| {
        lay.NothingInNothing();
        assert b[..cursor] == b && b[cursor..] == [];
      } else {
        lay.SplitAtBoundary(b, cursor);
      }
    }

    lemma OneBlockIffAtWrite()
      requires Core()
      ensures read == write <==> |order| == 1
    {
      OrderedDistinct(order, modulus);
    }

    // ----- The ways the state moves on -----

    // A new, empty write block behind the others.
    function Rotated(): State
      requires write < modulus
    {
      var next := Next(write, modulus);
      this.(write := next, position := 0, corrupt := false, order := order + [next], blocks := blocks[next := []])
    }

    // Without the oldest block; reading begins over in the block that is oldest now.
    function Left(): State
      requires |order| > 1
    {
      this.(read := order[1], cursor := 0, order := order[1..], blocks := blocks - {read})
    }

    lemma RotatedCore()
      requires Core() && Span(order, modulus) < modulus
      ensures Rotated().Core() && lay.Clean(Rotated().blocks[Rotated().write]) && |Rotated().order| > 1
      ensures Next(write, modulus) !in blocks
      ensures Span(Rotated().order, modulus) == Span(order, modulus) + 1
      ensures Contiguous(order, modulus) ==> Contiguous(Rotated().order, modulus)
    {
      OrderedSnoc(order, modulus);
    }

    /** A new block changes nothing that is waiting. */
    lemma RotatedPending()
      requires Core() && Span(order, modulus) < modulus
      ensures Rotated().Core()
      ensures Rotated().Pending() == Pending() && Rotated().Skipped() == Skipped()
    {
      RotatedCore();
      var next := Next(write, modulus);
      EmptyBlockAdds(lay, blocks, order[1..], next);
      assert (order + [next])[1..] == order[1..] + [next];
    }

    lemma LeftCore()
      requires Core() && |order| > 1
      ensures Left().Core() && Left().blocks[write] == blocks[write]
      ensures Span(Left().order, modulus) < Span(order, modulus)
      ensures Contiguous(order, modulus) ==> Contiguous(Left().order, modulus)
    {
      OrderedTail(order, modulus);
      OrderedDistinct(order, modulus);
      assert order[1] in order;
      assert Left().blocks[Left().read][..0] == [];
    }

    /** Leaving a block loses what the cursor had yet to reach in it, and nothing else. */
    lemma LeftPending()
      requires Core() && |order| > 1
      ensures Left().Core() && Left().Skipped() == []
      ensures Pending() == lay.Unsent(blocks[read][cursor..]) + Left().Pending()
    {
      hide Ordered, Layout.Unsent, Layout.Clean, Layout.Whole;
      Basics();
      LeftCore();
      LeftUnsent();
      lay.NothingInNothing();
      var b := Left().blocks[Left().read];
      assert b[0..] == b && b[..0] == [];
      assert order[1..][0] == Left().read && order[1..][1..] == Left().order[1..];
    }

    lemma LeftUnsent()
      requires Core() && |order| > 1
      ensures UnsentOver(lay, blocks, order[1..]) == UnsentOver(lay, Left().blocks, order[1..])
    {
      hide UnsentOver, Layout.Unsent, Layout.Clean;
      OrderedTail(order, modulus);
      UnsentOverFrame(lay, blocks, Left().blocks, order[1..]);
    }

    // The record at the cursor stepped over, writing nothing.
    function Stepped(): State
      requires read in blocks && cursor <= |blocks[read]| && lay.Whole(blocks[read][cursor..])
    {
      this.(cursor := cursor + lay.Size(blocks[read][cursor..]))
    }

    lemma SteppedKeeps()
      requires Core() && lay.Whole(blocks[read][cursor..])
      ensures Stepped().Core()
      ensures var here := if lay.FinishedWith(blocks[read][cursor..]) then [] else [lay.Message(blocks[read][cursor..])];
              Pending() == here + Stepped().Pending() && Stepped().Skipped() == Skipped() + here
    {
      hide Ordered, Layout.Unsent, Layout.Clean, Layout.Whole, Layout.FinishedWith, Layout.Message, Layout.Size;
      CursorNotAtEnd();
      lay.NextBoundary(blocks[read], cursor);
    }

    lemma CursorNotAtEnd()
      requires Core() && lay.Whole(blocks[read][cursor..])
      ensures cursor < |blocks[read]| && lay.Clean(blocks[read][..cursor])
    {
    }

    // The cursor is on a record still to send.
    predicate RecordAtCursor() {
      && read in blocks && cursor <= |blocks[read]|
      && lay.Whole(blocks[read][cursor..]) && !lay.FinishedWith(blocks[read][cursor..])
    }

    // The record at the cursor marked, and the cursor past it.
    function FlagOffset(): nat
      requires read in blocks && cursor <= |blocks[read]| && lay.Whole(blocks[read][cursor..])
    {
      cursor + lay.Size(blocks[read][cursor..]) - SENT_FLAG_SIZE
    }

    lemma FlagInBlock()
      requires RecordAtCursor()
      ensures FlagOffset() < |blocks[read]|
    {
    }

    function Flagged(value: byte): State
      requires read in blocks && cursor <= |blocks[read]| && lay.Whole(blocks[read][cursor..])
    {
      this.(blocks := Overwritten(blocks, read, FlagOffset(), value))
    }

    lemma FlaggedBlock(value: byte)
      requires Core() && lay.Whole(blocks[read][cursor..]) && !lay.FinishedWith(blocks[read][cursor..])
      ensures var b, t := blocks[read], Flagged(value).blocks[read];
              && t[..cursor] == b[..cursor] && |t| == |b| && (lay.Clean(t) <==> lay.Clean(b))
              && t[cursor..] == b[cursor..][lay.Size(b[cursor..]) - SENT_FLAG_SIZE := value]
              && lay.Whole(t[cursor..]) && lay.Size(t[cursor..]) == lay.Size(b[cursor..])
    {
      hide Ordered, Layout.Unsent, Layout.Clean, Layout.Whole, Layout.FinishedWith, Layout.Message, Layout.Size;
      var b, t := blocks[read], Flagged(value).blocks[read];
      CursorNotAtEnd();
      lay.NextBoundary(b, cursor);
      assert t[..cursor] == b[..cursor];
      assert t[cursor..] == b[cursor..][lay.Size(b[cursor..]) - SENT_FLAG_SIZE := value];
      lay.FlagWritten(b[cursor..], value);
      lay.MarkRemovesOne(b[cursor..], value);
      lay.SplitAtBoundary(b, cursor);
      lay.SplitAtBoundary(t, cursor);
    }

    lemma FlaggedRest(value: byte)
      requires Core() && lay.Whole(blocks[read][cursor..])
      ensures UnsentOver(lay, Flagged(value).blocks, order[1..]) == UnsentOver(lay, blocks, order[1..])
    {
      hide Layout.Unsent, Layout.Clean, Layout.Whole, Layout.FinishedWith, Layout.Size;
      OrderedDistinct(order, modulus);
      UnsentOverFrame(lay, blocks, Flagged(value).blocks, order[1..]);
    }

    lemma FlaggedKeeps(value: byte)
      requires Core() && lay.Whole(blocks[read][cursor..]) && !lay.FinishedWith(blocks[read][cursor..])
      ensures Flagged(value).Core() && Flagged(value).Skipped() == Skipped()
      ensures lay.Clean(Flagged(value).blocks[write]) <==> lay.Clean(blocks[write])
      ensures Pending() != [] && Pending()[0] == lay.Message(blocks[read][cursor..])
      ensures Flagged(value).Pending() ==
              if value == FLAG_SENT || value == FLAG_DISCARDED then Pending()[1..] else Pending()
    {
      hide Ordered, Layout.Unsent, Layout.Clean, Layout.Whole, Layout.FinishedWith, Layout.Message, Layout.Size,
        UnsentOver;
      FlaggedBlock(value);
      FlaggedRest(value);
      var b := blocks[read];
      lay.MarkRemovesOne(b[cursor..], value);
    }

    lemma MarkedKeeps()
      requires Core() && lay.Whole(blocks[read][cursor..]) && !lay.FinishedWith(blocks[read][cursor..])
      ensures Flagged(FLAG_SENT).Core() && lay.Whole(Flagged(FLAG_SENT).blocks[read][cursor..])
      ensures var s := Flagged(FLAG_SENT).Stepped();
              && s.Core() && Pending() != [] && s.Pending() == Pending()[1..] && s.Skipped() == Skipped()
              && (lay.Clean(s.blocks[write]) <==> lay.Clean(blocks[write]))
              && s.cursor == FlagOffset() + SENT_FLAG_SIZE
    {
      FlaggedBlock(FLAG_SENT);
      FlaggedKeeps(FLAG_SENT);
      lay.FlagWritten(blocks[read][cursor..], FLAG_SENT);
      Flagged(FLAG_SENT).SteppedKeeps();
    }

    // A record appended to the write block.
    function Appended(data: Record): State
      requires write in blocks && |lay.seal(data).0| < 0x1_0000
    {
      Extended(lay.Sealed(data))
    }

    lemma AppendedKeeps(data: Record)
      requires Inv() && !corrupt && lay.Sound() && 0 < |data| <= lay.maxMessageSize
      ensures Appended(data).Inv()
      ensures Appended(data).Pending() == Pending() + [data] && Appended(data).Skipped() == Skipped()
    {
      lay.AppendedReadsBack(blocks[write], data);
      WriteBlockExtended(lay.Sealed(data), [data]);
    }

    // The write block grown, its new bytes reading as some records more.
    function Extended(bytes: seq<byte>): State
      requires write in blocks
    {
      this.(position := position + |bytes|, blocks := blocks[write := blocks[write] + bytes])
    }

    lemma ExtendedCore(bytes: seq<byte>)
      requires Inv() && !corrupt
      ensures Extended(bytes).Core()
    {
      hide Ordered, Layout.Unsent, Layout.Clean, UnsentOver;
      OneBlockIffAtWrite();
      if read == write {
        var b := blocks[write];
        assert (b + bytes)[..cursor] == b[..cursor];
        assert b[..|b|] == b;
      }
    }

    lemma ExtendedBlockRead(bytes: seq<byte>, adds: seq<Record>)
      requires Inv() && !corrupt && read == write
      requires lay.Unsent(blocks[write] + bytes) == lay.Unsent(blocks[write]) + adds
      ensures lay.Unsent((blocks[write] + bytes)[..cursor]) == Skipped()
      ensures lay.Unsent((blocks[write] + bytes)[cursor..]) == lay.Unsent(blocks[write][cursor..]) + adds
    {
      hide Ordered, Layout.Unsent, Layout.Clean, UnsentOver;
      var b := blocks[write];
      assert (b + bytes)[..cursor] == b[..cursor] && b[..|b|] == b;
      lay.SplitAtBoundary(b, cursor);
      lay.SplitAtBoundary(b + bytes, cursor);
      var before, after := lay.Unsent(b[cursor..]) + adds, lay.Unsent((b + bytes)[cursor..]);
      assert Skipped() + after == Skipped() + before;
      assert after == (Skipped() + after)[|Skipped()|..] && before == (Skipped() + before)[|Skipped()|..];
    }

    // What is added to the write block's bytes is added to what is pending.
    lemma WriteBlockExtended(bytes: seq<byte>, adds: seq<Record>)
      requires Inv() && !corrupt
      requires lay.Unsent(blocks[write] + bytes) == lay.Unsent(blocks[write]) + adds
      ensures var s := Extended(bytes);
              && s.Core() && s.Pending() == Pending() + adds && s.Skipped() == Skipped()
    {
      hide Ordered, Layout.Unsent, Layout.Clean, UnsentOver;
      var s, n := Extended(bytes), |order| - 1;
      ExtendedCore(bytes);
      OneBlockIffAtWrite();
      if read == write {
        ExtendedBlockRead(bytes, adds);
        assert order[1..] == [];
        UnsentOverFrame(lay, blocks, s.blocks, []);
        NothingOver(lay, blocks);
      } else {
        assert order[1..] == order[1..n] + [write];
        WriteNotBefore();
        UnsentOverFrame(lay, blocks, s.blocks, order[1..n]);
        UnsentOverSnoc(lay, blocks, order[1..n], write);
        UnsentOverSnoc(lay, s.blocks, order[1..n], write);
      }
    }

    lemma WriteNotBefore()
      requires Core()
      ensures forall i :: 0 <= i < |order| - 1 ==> order[i] != write
    {
      OrderedDistinct(order, modulus);
    }

    lemma ExtendedKeepsRecord(bytes: seq<byte>)
      requires Core() && RecordAtCursor()
      ensures Extended(bytes).RecordAtCursor() && Extended(bytes).FlagOffset() == FlagOffset()
    {
      if read == write {
        var b := blocks[read];
        assert (b + bytes)[cursor..] == b[cursor..] + bytes;
        lay.WholePrefix(b[cursor..], bytes);
      }
    }

    lemma RotationKeepsRecord()
      requires Inv() && RecordAtCursor() && AfterRotation().read == read
      ensures AfterRotation().RecordAtCursor() && AfterRotation().FlagOffset() == FlagOffset()
    {
      RotatedCore();
      RotationMovesRead();
    }

    // The rest of the write block given up: the cursor goes to its end and it takes no more.
    function GivenUp(): State {
      this.(cursor := position, corrupt := true)
    }

    lemma GivenUpKeeps()
      requires Core() && read == write && !lay.Whole(blocks[read][cursor..])
      ensures GivenUp().Core() && GivenUp().Pending() == Pending() == [] && GivenUp().Skipped() == Skipped()
    {
      OneBlockIffAtWrite();
      var b := blocks[read];
      assert b[..|b|] == b && b[|b|..] == [] && order[1..] == [];
      MediaIsSkippedThenPending();
      GivenUp().MediaIsSkippedThenPending();
      assert Skipped() + [] == Skipped() && GivenUp().Skipped() + [] == GivenUp().Skipped();
    }

    // ----- Rotation -----

    predicate BlockIsFull(recordSize: nat) {
      corrupt || position + recordSize > maxBlockSize
    }

    predicate AtCeiling()
      requires order != [] && order[0] < modulus && order[|order| - 1] < modulus
    {
      Span(order, modulus) >= maxBlocks
    }

    // The bytes in use: every block but the last counted whole.
    function Used(): nat
      requires order != [] && order[0] < modulus && order[|order| - 1] < modulus
    {
      BytesIn(Span(order, modulus) - 1, maxBlockSize) + position
    }

    // Everything in the read block has been read, and nothing more goes into it.
    predicate Drained()
      requires read in blocks
    {
      read != write && cursor >= |blocks[read]|
    }

    // A drained block is given up before anything else.
    ghost function Settled(): State
      requires Core()
    {
      if Drained() then (OneBlockIffAtWrite(); Left()) else this
    }

    // The record at the cursor sent: flagged and stepped past, and its block given up if that drained it.
    ghost function AfterMark(): State
      requires Core() && RecordAtCursor()
    {
      MarkedKeeps();
      Flagged(FLAG_SENT).Stepped().Settled()
    }

    /** A mark writes 0x00 over one byte; the block of a record that was its last goes unless it is still written
        to, and otherwise the cursor is behind the mark. */
    lemma AfterMarkIs()
      requires Core() && RecordAtCursor()
      ensures FlagOffset() + 1 <= |blocks[read]|
      ensures var t, end := AfterMark(), FlagOffset() + 1;
              if read != write && end == |blocks[read]| then
                |order| > 1 && t == this.(read := order[1], cursor := 0, order := order[1..], blocks := blocks - {read})
              else t == this.(cursor := end, blocks := blocks[read := blocks[read][FlagOffset() := 0x00]])
    {
      hide Ordered, Layout.Unsent, Layout.Clean, Layout.Whole, Layout.FinishedWith, Layout.Message, Layout.Size;
      FlagInBlock();
      MarkedKeeps();
      FlaggedBlock(FLAG_SENT);
      OneBlockIffAtWrite();
    }

    /** The bytes in use: a block's full size to each number the run spans but the last, and what that one holds. */
    lemma UsedBytes(recordSize: nat, policy: Policy)
      requires Core() && Span(order, modulus) < modulus
      ensures Used() == (Dist(order[0], write, modulus) * maxBlockSize) + |blocks[write]|
      ensures Refuses(recordSize, policy) ==> PreparedChecks(recordSize, policy) == [maxBlocks * maxBlockSize]
    {
    }

    ghost predicate OverCeiling()
      requires Core()
    {
      Span(order, modulus) > maxBlocks
    }

    // A rotation: a new write block, the read block if it was done with, then one eviction at most.
    ghost function AfterRotation(): State
      requires Core() && Span(order, modulus) < modulus
    {
      RotatedCore();
      Rotated().SettledCore();
      var s := Rotated().Settled();
      if s.OverCeiling() then (s.MoreThanOne(); s.Left()) else s
    }

    ghost predicate RotationEvicts()
      requires Core() && Span(order, modulus) < modulus
    {
      RotatedCore();
      Rotated().SettledCore();
      Rotated().Settled().OverCeiling()
    }

    /** A rotation gives up a block read to its end, and then one block more exactly if, from the oldest left to the
        new one, the run would span more numbers than the ceiling. */
    lemma RotationGivesUp()
      requires Core() && Span(order, modulus) < modulus
      ensures var next := Next(write, modulus);
              var all := order + [next];
              var kept := if cursor == |blocks[read]| then all[1..] else all;
              && kept != [] && (RotationEvicts() <==> Dist(kept[0], next, modulus) + 1 > maxBlocks)
              && AfterRotation().order == if RotationEvicts() then kept[1..] else kept
    {
      hide Layout.Unsent, Layout.Clean;
      RotatedCore();
      Rotated().SettledCore();
      if RotationEvicts() {
        Rotated().Settled().MoreThanOne();
      }
    }

    // And the block it evicts has something unsent from the cursor on.
    ghost predicate EvictionCosts()
      requires Core() && Span(order, modulus) < modulus
    {
      RotatedCore();
      Rotated().SettledCore();
      var s := Rotated().Settled();
      s.OverCeiling() && lay.Unsent(s.blocks[s.read][s.cursor..]) != []
    }

    lemma MoreThanOne()
      requires Core() && OverCeiling()
      ensures |order| > 1 && read != write
    {
      OneBlockIffAtWrite();
    }

    lemma SettledCore()
      requires Core()
      ensures Settled().Core() && Settled().write == write && Settled().blocks[write] == blocks[write]
      ensures Span(Settled().order, modulus) <= Span(order, modulus)
      ensures Contiguous(order, modulus) ==> Contiguous(Settled().order, modulus)
      ensures Settled().Pending() == Pending()
      ensures Settled().Skipped() == if Drained() then [] else Skipped()
    {
      if Drained() {
        OneBlockIffAtWrite();
        LeftCore();
        LeftPending();
        lay.NothingInNothing();
        assert blocks[read][cursor..] == [];
      }
    }

    /** A rotation keeps the invariant and never leaves the run longer than it was and over the ceiling;
        it loses only what an eviction takes, the oldest records waiting. */
    lemma RotationKeeps()
      requires Inv()
      ensures AfterRotation().Inv() && !AfterRotation().corrupt && AfterRotation().position == 0
      ensures Span(AfterRotation().order, modulus) <= Span(order, modulus) ||
              Span(AfterRotation().order, modulus) <= maxBlocks
      ensures Span(AfterRotation().order, modulus) <= Span(order, modulus) + 1
      ensures Contiguous(order, modulus) ==> Contiguous(AfterRotation().order, modulus)
      ensures !RotationEvicts() ==> AfterRotation().Pending() == Pending()
      ensures RotationEvicts() ==> AfterRotation().Skipped() == []
      ensures exists k :: 0 <= k <= |Pending()| && AfterRotation().Pending() == Pending()[k..]
      ensures AfterRotation().Skipped() == if AfterRotation().read == read then Skipped() else []
    {
      hide Ordered, Layout.Unsent, Layout.Clean, UnsentOver, State.Core;
      RotatedCore();
      RotatedPending();
      var r := Rotated();
      r.SettledCore();
      var s := r.Settled();
      if s.OverCeiling() {
        s.MoreThanOne();
        s.LeftCore();
        s.LeftPending();
        var k := |lay.Unsent(s.blocks[s.read][s.cursor..])|;
        assert s.Left().Pending() == s.Pending()[k..];
      } else {
        assert s.Pending()[0..] == s.Pending();
      }
    }

    /** An eviction takes a record that waits if and only if one is left unsent in the block from the cursor on. */
    lemma EvictionCost()
      requires Inv()
      ensures AfterRotation().Core() && |AfterRotation().Pending()| <= |Pending()|
      ensures |AfterRotation().Pending()| < |Pending()| <==> EvictionCosts()
      ensures EvictionCosts() ==> RotationEvicts()
    {
      hide Ordered, Layout.Unsent, Layout.Clean, UnsentOver, Core;
      RotationKeeps();
      RotatedSettledCore();
      var s := Rotated().Settled();
      if s.OverCeiling() {
        s.MoreThanOne();
        s.LeftPending();
      }
    }

    lemma RotatedSettledCore()
      requires Core() && Span(order, modulus) < modulus
      ensures Rotated().Core() && Rotated().Settled().Core()
      ensures Rotated().Settled().Pending() == Pending()
      ensures Rotated().Settled().Skipped() == Skipped() || Rotated().Settled().Skipped() == []
      ensures Rotated().Settled().modulus == modulus && Rotated().Settled().lay == lay
      ensures Span(Rotated().Settled().order, modulus) <= Span(order, modulus) + 1
      ensures Contiguous(order, modulus) ==> Contiguous(Rotated().Settled().order, modulus)
    {
      RotatedCore();
      RotatedPending();
      Rotated().SettledCore();
    }

    lemma RotationStartsEmpty()
      requires Inv()
      ensures AfterRotation().write == Next(write, modulus) && Next(write, modulus) !in blocks
      ensures AfterRotation().write in AfterRotation().blocks && AfterRotation().blocks[AfterRotation().write] == []
    {
      RotatedCore();
      Rotated().SettledCore();
      var s := Rotated().Settled();
      if s.OverCeiling() {
        s.MoreThanOne();
        s.LeftCore();
      }
    }

    lemma RotatedSame()
      requires write < modulus
      ensures Rotated().lay == lay && Rotated().modulus == modulus
    {
    }

    lemma RotationSame()
      requires Core() && Span(order, modulus) < modulus
      ensures AfterRotation().lay == lay && AfterRotation().modulus == modulus && AfterRotation().maxBlocks == maxBlocks
    {
    }

    predicate Refuses(recordSize: nat, policy: Policy)
      requires order != [] && order[0] < modulus && order[|order| - 1] < modulus
    {
      BlockIsFull(recordSize) && AtCeiling() && policy != Oldest
    }

    predicate Rotates(recordSize: nat, policy: Policy)
      requires order != [] && order[0] < modulus && order[|order| - 1] < modulus
    {
      BlockIsFull(recordSize) && !Refuses(recordSize, policy)
    }

    // What the media holds after each device call of a rotation.
    ghost function RotationCuts(): iset<Media>
      requires Core() && Span(order, modulus) < modulus
    {
      RotatedCore();
      iset{Rotated().blocks, Rotated().Settled().blocks, AfterRotation().blocks}
    }

    // What it may hold once a call of a rotation has failed: the new block's, with nothing said of that block; a
    // size, which changes nothing; a drained block's disposal; or the eviction.
    ghost predicate RotationFails(media: Media)
      requires Core() && Span(order, modulus) < modulus
    {
      RotatedCore();
      Rotated().SettledCore();
      var s := Rotated().Settled();
      || Disturbed(blocks, media, Next(write, modulus))
      || media == Rotated().blocks
      || (Rotated().Drained() && Disturbed(Rotated().blocks, media, read))
      || (s.OverCeiling() && Disturbed(s.blocks, media, s.read))
    }

    // The bytes in use each time a rotation looks at the threshold: once, if it disposes of a drained block.
    ghost function RotationChecks(): seq<nat>
      requires Core() && Span(order, modulus) < modulus
    {
      RotatedCore();
      Rotated().SettledCore();
      if Rotated().Drained() then [Rotated().Settled().Used()] else []
    }

    // And each time preparing for a write does: for a store counted full, if it refuses.
    ghost function PreparedChecks(recordSize: nat, policy: Policy): seq<nat>
      requires Core() && Span(order, modulus) < modulus
    {
      Basics();
      if Refuses(recordSize, policy) then [BytesIn(maxBlocks, maxBlockSize)]
      else if Rotates(recordSize, policy) then RotationChecks() else []
    }

    // The read moves exactly when a block was left behind it.
    lemma RotationMovesRead()
      requires Inv()
      ensures AfterRotation().read != read <==> Rotated().Core() && (Rotated().Drained() || RotationEvicts())
    {
      RotatedCore();
      var r := Rotated();
      OrderedDistinct(r.order, modulus);
      r.SettledCore();
      assert r.Drained() ==> r.Settled().read == r.order[1];
      if r.Settled().OverCeiling() {
        r.Settled().MoreThanOne();
        assert r.Settled().Left().read in r.order[1..];
      }
    }
  }
}
