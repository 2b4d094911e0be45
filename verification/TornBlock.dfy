/** An eviction that costs no record, and is noted all the same: a store at its ceiling, reached from a block that a
    power cut left torn. */
module TornBlock {
  import opened Bytes
  import opened BlockDevice
  import opened DiscardPolicy
  import opened RecordLayout
  import opened SequenceSpace
  import opened SequenceModel
  import opened StoreSteps

  // Room for one record to a block, two blocks at most, four numbers.
  function Store(lay: Layout, size: nat, cursor: nat, write: nat, position: nat, corrupt: bool, order: seq<nat>,
                 blocks: Media): State
  {
    State(4, 2, size, lay, 0, cursor, write, position, corrupt, order, blocks)
  }

  // One record whole, and as much of a second as there was time for.
  function TornBytes(lay: Layout, data: Record, k: nat): seq<byte>
    requires |lay.seal(data).0| < 0x1_0000 && k <= |lay.Sealed(data)|
  {
    lay.Sealed(data) + lay.Sealed(data)[..k]
  }

  // As a restart takes it up, closed to appends.
  function AsFound(lay: Layout, data: Record, k: nat): State
    requires |lay.seal(data).0| < 0x1_0000 && k <= |lay.Sealed(data)|
  {
    var b := TornBytes(lay, data, k);
    Store(lay, |lay.Sealed(data)|, 0, 0, |b|, true, [0], map[0 := b])
  }

  // With one record in a second block.
  function AsWritten(lay: Layout, data: Record, k: nat): State
    requires |lay.seal(data).0| < 0x1_0000 && k <= |lay.Sealed(data)|
  {
    var r := lay.Sealed(data);
    Store(lay, |r|, 0, 1, |r|, false, [0, 1], map[0 := TornBytes(lay, data, k), 1 := r])
  }

  lemma SealedSize(lay: Layout, data: Record)
    requires lay.Sound() && 0 < |data| <= lay.maxMessageSize
    ensures |lay.seal(data).0| < 0x1_0000 && |lay.Sealed(data)| == lay.RecordSize(|data|) > 0
  {
    lay.SealedWhole(data);
  }

  // A write that goes to a new block and evicts none, one whose rotation leaves the state so.
  ghost predicate MakesRoom(s: State, recordSize: nat, t: State) {
    s.Inv() && s.Rotates(recordSize, Oldest) && !s.RotationEvicts() && t == s.AfterRotation()
  }

  // The record written, and the one at the cursor sent and marked.
  ghost predicate WritesAndMarks(t: State, data: Record, u: State) {
    && t.Inv() && t.write in t.blocks && |t.lay.seal(data).0| < 0x1_0000
    && t.Appended(data).Inv() && t.Appended(data).RecordAtCursor() && u == t.Appended(data).AfterMark()
  }

  // A write that goes to a new block and evicts one with nothing in it to send.
  ghost predicate EvictsForNothing(u: State, recordSize: nat) {
    u.Inv() && u.Rotates(recordSize, Oldest) && u.RotationEvicts() && !u.EvictionCosts()
  }

  lemma FoundIsSound(s: State, lay: Layout, data: Record, k: nat)
    requires lay.Sound() && 0 < |data| <= lay.maxMessageSize && |lay.seal(data).0| < 0x1_0000
    requires 0 < k < |lay.Sealed(data)| && s == AsFound(lay, data, k)
    ensures s.Inv() && TakesUp(s)
  {
    hide Layout.Unsent, Layout.Clean, Layout.Whole, Layout.Sealed, TakesUp;
    s.lay.NothingInNothing();
    assert s.blocks[0][..0] == [];
    TakesUpItself(s);
  }

  lemma CutInAppend(lay: Layout, data: Record, k: nat)
    requires |lay.seal(data).0| < 0x1_0000 && k <= |lay.Sealed(data)|
    ensures AsFound(lay, data, k).blocks in AppendCuts(map[0 := lay.Sealed(data)], 0, lay.Sealed(data))
  {
    hide Layout.Sealed;
    var m := map[0 := lay.Sealed(data)];
    assert AsFound(lay, data, k).blocks == Torn(m, 0, lay.Sealed(data), k);
  }

  lemma RoomIsMade(s: State, t: State, lay: Layout, data: Record, k: nat)
    requires lay.Sound() && 0 < |data| <= lay.maxMessageSize && |lay.seal(data).0| < 0x1_0000
    requires 0 < k < |lay.Sealed(data)| && s == AsFound(lay, data, k)
    requires t == Store(lay, |lay.Sealed(data)|, 0, 1, 0, false, [0, 1], map[0 := TornBytes(lay, data, k), 1 := []])
    requires s.Inv()
    ensures MakesRoom(s, lay.RecordSize(|data|), t) && t.Inv()
  {
    hide Layout.Unsent, Layout.Clean, Layout.Whole, Layout.Sealed, State.Core, State.Inv;
    InvIsSound(s);
    s.RotatedCore();
    s.RotationKeeps();
    assert s.Rotated() == t;
  }

  lemma RecordIsWritten(t: State, w: State, lay: Layout, data: Record, k: nat)
    requires lay.Sound() && 0 < |data| <= lay.maxMessageSize && |lay.seal(data).0| < 0x1_0000
    requires 0 < k < |lay.Sealed(data)| && w == AsWritten(lay, data, k) && t.Inv()
    requires t == Store(lay, |lay.Sealed(data)|, 0, 1, 0, false, [0, 1], map[0 := TornBytes(lay, data, k), 1 := []])
    ensures t.write in t.blocks && w == t.Appended(data) && w.Inv() && w.RecordAtCursor()
  {
    hide Layout.Unsent, Layout.Clean, Layout.Whole, Layout.Sealed, Layout.FinishedWith, Layout.Message, State.Core,
      State.Inv;
    var r := lay.Sealed(data);
    assert [] + r == r;
    t.AppendedKeeps(data);
    lay.SealedWhole(data);
    lay.WholePrefix(r, r[..k]);
    assert TornBytes(lay, data, k)[0..] == TornBytes(lay, data, k);
  }

  // The mark changes the byte the first record ends with; what is torn lies behind it unchanged.
  lemma RecordIsMarked(w: State, u: State, lay: Layout, data: Record, k: nat)
    requires lay.Sound() && 0 < |data| <= lay.maxMessageSize && |lay.seal(data).0| < 0x1_0000
    requires 0 < k < |lay.Sealed(data)| && w == AsWritten(lay, data, k) && w.Inv() && w.RecordAtCursor()
    requires u == w.AfterMark()
    ensures u.Inv() && u.order == [0, 1] && u.modulus == 4 && u.maxBlocks == 2 && u.maxBlockSize == |lay.Sealed(data)|
    ensures u.lay == lay && u.read == 0 && u.write == 1 && u.position == |lay.Sealed(data)| && 0 in u.blocks
    ensures u.cursor == |lay.Sealed(data)| < |u.blocks[0]| && u.blocks[0][u.cursor..] == lay.Sealed(data)[..k]
  {
    hide Layout.Unsent, Layout.Clean, Layout.Whole, Layout.Sealed, Layout.FinishedWith, Layout.Message, State.Core;
    var r, b := lay.Sealed(data), TornBytes(lay, data, k);
    InvIsSound(w);
    w.MarkedKeeps();
    lay.SealedWhole(data);
    lay.WholePrefix(r, r[..k]);
    assert b[0..] == b;
    assert w.FlagOffset() == |r| - 1;
    assert w.Flagged(FLAG_SENT).blocks[0] == b[|r| - 1 := FLAG_SENT];
  }

  lemma TornIsEvicted(u: State, lay: Layout, data: Record, k: nat)
    requires lay.Sound() && 0 < |data| <= lay.maxMessageSize && |lay.seal(data).0| < 0x1_0000
    requires 0 < k < |lay.Sealed(data)|
    requires u.Inv() && u.order == [0, 1] && u.modulus == 4 && u.maxBlocks == 2 && u.maxBlockSize == |lay.Sealed(data)|
    requires u.lay == lay && u.read == 0 && u.write == 1 && u.position == |lay.Sealed(data)| && 0 in u.blocks
    requires u.cursor == |lay.Sealed(data)| < |u.blocks[0]| && u.blocks[0][u.cursor..] == lay.Sealed(data)[..k]
    ensures EvictsForNothing(u, lay.RecordSize(|data|))
  {
    hide Layout.Unsent, Layout.Clean, Layout.Whole, Layout.Sealed, State.Core, State.Inv;
    SealedSize(lay, data);
    InvIsSound(u);
    u.RotatedSettledCore();
    assert u.Rotated().Settled() == u.Rotated();
    lay.NothingInNothing();
    lay.TornAppendUnseen([], data, k);
    assert [] + lay.Sealed(data)[..k] == lay.Sealed(data)[..k];
  }

  /** The next write goes to a second block, the first record is sent and marked, and the write after that finds
      the torn block at the ceiling, with nothing in it to send and not read to its end. */
  lemma EvictedForNothing(lay: Layout, data: Record, k: nat) returns (s: State, t: State, u: State)
    requires lay.Sound() && 0 < |data| <= lay.maxMessageSize && 0 < k < lay.RecordSize(|data|)
    ensures |lay.seal(data).0| < 0x1_0000 && |lay.Sealed(data)| == lay.RecordSize(|data|)
    ensures s.Inv() && TakesUp(s) && s.lay == lay
    ensures s.blocks in AppendCuts(map[0 := lay.Sealed(data)], 0, lay.Sealed(data))
    ensures MakesRoom(s, lay.RecordSize(|data|), t) && WritesAndMarks(t, data, u)
    ensures EvictsForNothing(u, lay.RecordSize(|data|))
  {
    hide Layout.Unsent, Layout.Clean, Layout.Whole, Layout.Sealed, State.Core, State.Inv, TakesUp, EvictsForNothing,
      MakesRoom, TornBytes;
    SealedSize(lay, data);
    s := AsFound(lay, data, k);
    FoundIsSound(s, lay, data, k);
    CutInAppend(lay, data, k);
    t := Store(lay, |lay.Sealed(data)|, 0, 1, 0, false, [0, 1], map[0 := TornBytes(lay, data, k), 1 := []]);
    RoomIsMade(s, t, lay, data, k);
    var w := AsWritten(lay, data, k);
    RecordIsWritten(t, w, lay, data, k);
    InvIsSound(w);
    u := w.AfterMark();
    RecordIsMarked(w, u, lay, data, k);
    TornIsEvicted(u, lay, data, k);
  }
}
