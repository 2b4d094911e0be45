/** The block store as the store Service works with: each of its operations does what Service was promised of one,
    and what Service asked to be marked is what it delivered. */
module StoreSeen {
  import opened Bytes
  import opened DiscardPolicy
  import opened StoreOutcome
  import opened Surroundings
  import opened SequenceModel
  import opened StoreSteps
  import opened BlockStore
  import opened SecurityPolicy
  import StoreJournal
  import J = Journal

  function Copies(records: seq<Record>, maxSize: nat): seq<Record> {
    seq(|records|, i requires 0 <= i < |records| => Bounded(records[i], maxSize))
  }

  lemma OneCopyMore(records: seq<Record>, record: Record, maxSize: nat)
    ensures Copies(records + [record], maxSize) == Copies(records, maxSize) + [Bounded(record, maxSize)]
  {
  }

  // All a store has accepted is what it found and what it was had to keep since; all it has delivered, it handed out
  // a copy of and was asked to mark.
  ghost predicate Tallied(journal: J.Journal<Record>, found: seq<Record>, stored: seq<Record>, asked: seq<Record>,
                          capacity: nat)
  {
    && journal.Balanced() && journal.accepted == found + stored
    && asked == Copies(J.WithFate(journal.settled, J.Delivered), capacity)
  }

  ghost predicate Lends(journal: J.Journal<Record>, lent: seq<Record>, capacity: nat) {
    journal.waiting != [] && lent == [Bounded(journal.waiting[0], capacity)]
  }

  lemma EvictedTallied(before: J.Journal<Record>, after: J.Journal<Record>, kept: seq<Record>, evicted: bool,
                       found: seq<Record>, stored: seq<Record>, asked: seq<Record>, capacity: nat)
    requires Tallied(before, found, stored, asked, capacity) && Evicts(before, after, kept, evicted)
    ensures Tallied(after, found, stored + kept, asked, capacity)
    ensures exists gone: nat :: gone <= |before.waiting| && after.waiting == before.waiting[gone..] + kept
  {
    var e := |after.settled| - |before.settled|;
    before.SettleKeepsBalance(e, J.Evicted);
    J.WithOtherFate(before.settled, before.waiting[..e], J.Evicted, J.Delivered);
    assert J.Items(after.settled) + after.waiting == J.Items(after.settled) + before.waiting[e..] + kept;
    assert found + (stored + kept) == found + stored + kept;
  }

  lemma RejectedTallied(before: J.Journal<Record>, after: J.Journal<Record>, k: nat,
                        found: seq<Record>, stored: seq<Record>, asked: seq<Record>, capacity: nat)
    requires Tallied(before, found, stored, asked, capacity) && Rejects(before, after, k)
    ensures Tallied(after, found, stored, asked, capacity) && Less(before.waiting, after.waiting)
  {
    before.SettleKeepsBalance(k, J.Rejected);
    J.WithOtherFate(before.settled, before.waiting[..k], J.Rejected, J.Delivered);
  }

  lemma MarkedTallied(before: J.Journal<Record>, found: seq<Record>, stored: seq<Record>, asked: seq<Record>,
                      lent: seq<Record>, capacity: nat)
    requires Tallied(before, found, stored, asked, capacity) && Lends(before, lent, capacity)
    ensures Tallied(before.Settle(1, J.Delivered), found, stored, asked + lent, capacity)
  {
    var first := before.waiting[0];
    assert before.waiting[..1] == [first];
    before.SettleKeepsBalance(1, J.Delivered);
    J.WithFateConcat(before.settled, J.With([first], J.Delivered), J.Delivered);
    J.WithFateOfWith([first], J.Delivered, J.Delivered);
    OneCopyMore(J.WithFate(before.settled, J.Delivered), first, capacity);
  }

  // Two stores that have kept, lent and been asked to mark the same.
  ghost predicate InStep(a: Shelf, b: Shelf) {
    a.stored == b.stored && a.asked == b.asked && a.lent == b.lent
  }

  /** What Service was promised of a store and what it was answered leave no choice of what was kept, lent and asked:
      a store that answers alike stays in step. */
  lemma StaysInStep(a: Shelf, b: Shelf, a': Shelf, b': Shelf, data: Record, r: WriteResult, maxSize: nat, handsOut: bool)
    requires InStep(a, b)
    ensures MayWrite(a, data, r, a') && MayWrite(b, data, r, b') ==> InStep(a', b')
    ensures MayHandOut(a, maxSize, handsOut, data, a') && MayHandOut(b, maxSize, handsOut, data, b') ==> InStep(a', b')
    ensures MayMark(a, a') && MayMark(b, b') ==> InStep(a', b')
  {
  }

  lemma BeginsTallied(store: BlockStore, capacity: nat)
    requires store.Valid() && store.journal.settled == []
    ensures Tallied(store.journal, store.journal.accepted, [], [], capacity)
  {
    hide store.sequence.Ready, StoreJournal.Fits, store.Remembered;
    if !store.frozen {
      store.WorkingIsSound();
    }
    assert store.journal.accepted + [] == store.journal.accepted;
  }

  class StoreSeen {
    const store: BlockStore
    const capacity: nat

    // What the store had taken up when Service began; what it has kept of Service's since, what it was asked to mark,
    // and the copy it handed out last, while nothing else was asked of it.
    ghost const found: seq<Record>
    ghost var stored: seq<Record>
    ghost var asked: seq<Record>
    ghost var lent: seq<Record>

    // A store as Initialise leaves it.
    constructor (store: BlockStore, capacity: nat)
      requires store.Valid() && store.journal.settled == []
      ensures Valid() && this.store == store && this.capacity == capacity && found == store.journal.accepted
      ensures stored == asked == lent == []
    {
      hide BlockStore.Valid;
      this.store, this.capacity, found := store, capacity, store.journal.accepted;
      stored, asked, lent := [], [], [];
      BeginsTallied(store, capacity);
    }

    ghost function ShelfNow(): Shelf
      reads this, store`frozen, store`journal
    {
      Shelf(store.frozen, if store.frozen then [] else store.journal.waiting, stored, asked, lent)
    }

    ghost predicate Valid()
      reads this, store, store.sequence, store.sequence.present, store.records, store.device
    {
      && store.Valid() && Tallied(store.journal, found, stored, asked, capacity)
      && (lent != [] ==> !store.frozen && store.records.hasReadRecord && Lends(store.journal, lent, capacity))
    }

    lemma StoreTallied()
      requires Valid()
      ensures Tallied(store.journal, found, stored, asked, capacity)
    {
    }

    method Write(data: Record, policy: Policy) returns (r: WriteResult)
      requires Valid() && |data| <= store.records.lay.maxMessageSize
      modifies this`stored, this`lent, store, store.sequence, store.sequence.present, store.records,
               store.records.policy`sealings, store.device
      ensures Valid() && MayWrite(old(ShelfNow()), data, r, ShelfNow())
      ensures !store.frozen && data != [] ==>
                && (r == NotRetained <==>
                      old(store.sequence.Now()).Refuses(store.records.lay.RecordSize(|data|), policy))
                && store.records.policy.sealings == old(store.records.policy.sealings) +
                     if r == NotRetained then [] else [Sealing(data, r == Kept)]
    {
      hide Placed, NoLonger, BlockStore.Valid, store.WrittenFrom, store.LooksTaken, store.Costs, store.FrozenAs,
        store.Raised, Tallied, Evicts, Lends, State.Refuses, State.Core, State.Inv;
      ghost var before, wasFrozen := store.journal, store.frozen;
      r := store.Write(data, policy);
      ghost var kept := if r == Kept then [data] else [];
      if !wasFrozen {
        EvictedTallied(before, store.journal, kept, store.sequence.evictedUnsent, found, stored, asked, capacity);
      }
      assert stored + [] == stored;
      stored, lent := stored + kept, [];
    }

    method ReadNextUnsent() returns (handsOut: bool, data: Record)
      requires Valid()
      modifies this`lent, store, store.sequence, store.sequence.present, store.records,
               store.records.policy`judged, store.device
      ensures Valid() && MayHandOut(old(ShelfNow()), capacity, handsOut, data, ShelfNow())
    {
      hide State.Core, CutsFaithful, NoLonger, CleanOver, BlockStore.Valid, Tallied, Rejects, Judged, Less;
      ghost var before := store.journal;
      ghost var rejected, answer;
      handsOut, data, rejected, answer := store.ReadNextUnsent(capacity);
      RejectedTallied(before, store.journal, rejected, found, stored, asked, capacity);
      lent := if handsOut then [data] else [];
    }

    method MarkSent()
      requires Valid() && lent != []
      modifies this`asked, this`lent, store, store.sequence, store.sequence.present, store.records, store.device
      ensures Valid() && MayMark(old(ShelfNow()), ShelfNow())
    {
      hide NoLonger, State.AfterMark, State.Settled, State.Core, BlockStore.Valid, Tallied;
      MarkedTallied(store.journal, found, stored, asked, lent, capacity);
      store.MarkSent();
      asked, lent := asked + lent, [];
    }

    method HasUnsent() returns (r: bool)
      requires Valid()
      ensures MaySayUnsent(ShelfNow(), r)
    {
      r := store.HasUnsent();
    }
  }
}
