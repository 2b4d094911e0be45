/** What Service works among: a store, a sender, a table of events the library raised, a policy and a switch
    from the integrator, and other tasks. Each may answer anything its contract allows.

    An obliging surrounding is the one progress is promised in: a sender that accepts, a store with room that
    does not fail, and nothing new logged or raised from outside. */
module Surroundings {
  import opened Bytes
  import opened DiscardPolicy
  import opened StoreOutcome

  const KIND_COUNT := 16

  datatype Event = Event(kind: nat, number: nat)

  datatype Slot = Clear | Pending(event: Event)

  function PendingCount(slots: seq<Slot>): nat {
    if slots == [] then 0 else (if slots[0].Pending? then 1 else 0) + PendingCount(slots[1..])
  }

  lemma {:induction false} PendingCountUpdate(slots: seq<Slot>, i: nat, slot: Slot)
    requires i < |slots|
    ensures PendingCount(slots[i := slot]) ==
            PendingCount(slots) + (if slot.Pending? then 1 else 0) - (if slots[i].Pending? then 1 else 0)
  {
    if i > 0 {
      assert slots[i := slot][1..] == slots[1..][i - 1 := slot];
      PendingCountUpdate(slots[1..], i - 1, slot);
    } else {
      assert slots[i := slot][1..] == slots[1..];
    }
  }

  lemma {:induction false} NonePending(slots: seq<Slot>)
    ensures PendingCount(slots) == 0 <==> forall i :: 0 <= i < |slots| ==> slots[i].Clear?
  {
    if slots != [] {
      NonePending(slots[1..]);
      assert forall i :: 0 < i < |slots| ==> slots[i] == slots[1..][i - 1];
    }
  }

  // The store as Service sees it: whether it keeps nothing, what it has still to hand out, what it has kept and been
  // asked to mark, and the copy it handed out last, while nothing else was asked of it.
  datatype Shelf = Shelf(
    keepsNothing: bool, backlog: seq<Record>, stored: seq<Record>, asked: seq<Record>, lent: seq<Record>)

  ghost predicate Later(before: Shelf, after: Shelf) {
    (before.keepsNothing ==> after.keepsNothing) && (after.keepsNothing ==> after.backlog == [])
  }

  // The oldest of the backlog may be gone, and nothing else.
  ghost predicate Less(before: seq<Record>, after: seq<Record>) {
    exists gone: nat :: gone <= |before| && after == before[gone..]
  }

  ghost predicate MayWrite(before: Shelf, data: Record, r: WriteResult, after: Shelf) {
    var kept := if r == Kept then [data] else [];
    && Later(before, after) && after.asked == before.asked && after.lent == []
    && after.stored == before.stored + kept && (after.keepsNothing ==> r == NotRetained)
    && (!after.keepsNothing ==>
          exists gone: nat :: gone <= |before.backlog| && after.backlog == before.backlog[gone..] + kept)
  }

  ghost predicate MayHandOut(before: Shelf, maxSize: nat, found: bool, data: Record, after: Shelf) {
    && Later(before, after) && after.asked == before.asked && after.stored == before.stored
    && after.lent == (if found then [data] else [])
    && (found ==> after.backlog != [] && data == Bounded(after.backlog[0], maxSize))
    && (!after.keepsNothing ==> Less(before.backlog, after.backlog))
  }

  ghost predicate MayMark(before: Shelf, after: Shelf) {
    && Later(before, after) && after.stored == before.stored
    && after.asked == before.asked + before.lent && after.lent == []
    && (!after.keepsNothing && before.backlog != [] ==> after.backlog == before.backlog[1..])
  }

  ghost predicate MaySayUnsent(shelf: Shelf, r: bool) {
    (shelf.backlog != [] && !shelf.keepsNothing ==> r) && (shelf.keepsNothing ==> !r)
  }

  // How often the store was offered a record, the sender was, and the policy was asked; and what the store answered
  // each time it was read, and each time it was asked what it has unsent.
  datatype Calls = Calls(offers: nat, readouts: seq<bool>, unsents: seq<bool>, sends: nat, questions: nat)

  // What has gone by: the calls, the records sent, stored and asked to be marked, the kinds looked for, the events
  // taken, the switch's answers, and how often the buffer was read.
  datatype Moves = Moves(
    calls: Calls, sent: seq<Record>, stored: seq<Record>, asked: seq<Record>, looked: seq<nat>, taken: seq<Event>,
    switched: seq<bool>, readings: nat)

  class Surroundings {
    const obliging: bool
    // Without retention from the start; and without it now, be it from the start or by freezing.
    const neverKeeps: bool
    var keepsNothing: bool
    var backlog: seq<Record>
    var slots: seq<Slot>
    var raised: nat
    var recordsToCome: nat

    // What went by: the records the sender accepted, those the store kept, the copy the store last handed out, if
    // nothing else was asked of it since, and those it was asked to mark; the kinds of the events the logger raised,
    // and what had gone by when it raised the last; those it looked for in the table, and the events it took from
    // there; what the switch answered, and the last answer of the policy, the store and the sender.
    ghost var sent: seq<Record>
    ghost var stored: seq<Record>
    ghost var handed: Record
    ghost var lent: bool
    ghost var asked: seq<Record>
    ghost var kinds: seq<nat>
    ghost var looked: seq<nat>
    ghost var taken: seq<Event>
    ghost var switched: seq<bool>
    ghost var calls: Calls
    ghost var movesAtRaise: Moves
    ghost var lastPolicy: Policy
    ghost var lastWrite: WriteResult
    ghost var lastSend: bool

    constructor (obliging: bool, neverKeeps: bool, recordsToCome: nat)
      ensures Valid() && this.obliging == obliging && this.neverKeeps == neverKeeps
      ensures sent == stored == asked == [] && kinds == [] && taken == []
    {
      this.obliging, this.neverKeeps, keepsNothing := obliging, neverKeeps, neverKeeps;
      backlog, raised, this.recordsToCome := [], 0, recordsToCome;
      sent, stored, asked, kinds, looked, taken, switched := [], [], [], [], [], [], [];
      calls, lent := Calls(0, [], [], 0, 0), false;
      slots := seq(KIND_COUNT, i => Clear);
    }

    ghost predicate Valid()
      reads this`slots, this`keepsNothing, this`backlog
    {
      && |slots| == KIND_COUNT && (forall i :: 0 <= i < KIND_COUNT && slots[i].Pending? ==> slots[i].event.kind == i)
      && (neverKeeps ==> keepsNothing) && (keepsNothing ==> backlog == [])
    }

    ghost function ShelfNow(): Shelf
      reads this`keepsNothing, this`backlog, this`stored, this`asked, this`handed, this`lent
    {
      Shelf(keepsNothing, backlog, stored, asked, if lent then [handed] else [])
    }

    // ----- The store -----

    // A failing device freezes the store, which loses its backlog with it.
    method MayFreeze()
      requires Valid()
      modifies this`keepsNothing, this`backlog
      ensures Valid() && (old(keepsNothing) ==> keepsNothing)
      ensures obliging || keepsNothing == old(keepsNothing) ==>
                keepsNothing == old(keepsNothing) && backlog == old(backlog)
    {
      var fails: bool := *;
      if fails && !obliging && !keepsNothing {
        keepsNothing, backlog := true, [];
      }
    }

    method StoreWrite(data: Record) returns (r: WriteResult)
      requires Valid()
      modifies this`keepsNothing, this`backlog, this`stored, this`lastWrite, this`calls, this`lent
      ensures Valid() && MayWrite(old(ShelfNow()), data, r, ShelfNow())
      ensures old(keepsNothing) ==> keepsNothing
      ensures calls == old(calls).(offers := old(calls).offers + 1)
      ensures lastWrite == r && stored == if r == Kept then old(stored) + [data] else old(stored)
      ensures keepsNothing ==> r == NotRetained
      ensures r == Kept ==> exists evicted: nat :: evicted <= |old(backlog)| && backlog == old(backlog)[evicted..] + [data]
      ensures obliging ==>
                && keepsNothing == old(keepsNothing)
                && (keepsNothing ==> backlog == old(backlog))
                && (!keepsNothing ==> r == Kept && backlog == old(backlog) + [data])
    {
      calls := calls.(offers := calls.offers + 1);
      MayFreeze();
      r := NotRetained;
      if !keepsNothing {
        var evicted: nat :| evicted <= |backlog|;
        r := *;
        if obliging {
          r, evicted := Kept, 0;
        }
        assert backlog[0..] == backlog;
        backlog := backlog[evicted..] + if r == Kept then [data] else [];
      }
      lastWrite, stored, lent := r, if r == Kept then stored + [data] else stored, false;
    }

    predicate IsTransient()
      reads this
    {
      keepsNothing
    }

    method ReadNextUnsent(maxSize: nat) returns (found: bool, data: Record)
      requires Valid()
      modifies this`keepsNothing, this`backlog, this`handed, this`calls, this`lent
      ensures Valid() && MayHandOut(old(ShelfNow()), maxSize, found, data, ShelfNow())
      ensures old(keepsNothing) ==> keepsNothing
      ensures calls == old(calls).(readouts := old(calls).readouts + [found])
      ensures found == lent && (found ==> handed == data)
      ensures found ==> backlog != [] && data == Bounded(backlog[0], maxSize)
      ensures obliging ==>
                keepsNothing == old(keepsNothing) && backlog == old(backlog) && found == (backlog != [])
    {
      ghost var was := backlog;
      MayFreeze();
      assert backlog == was ==> was[0..] == backlog;
      var handsOut: bool := *;
      found := backlog != [] && (handsOut || obliging);
      data := if found then Bounded(backlog[0], maxSize) else [];
      handed, lent := data, found;
      calls := calls.(readouts := calls.readouts + [found]);
    }

    // Asked only of the record just handed out.
    method MarkSent()
      requires Valid() && lent
      modifies this`keepsNothing, this`backlog, this`asked, this`lent
      ensures Valid() && MayMark(old(ShelfNow()), ShelfNow())
      ensures (old(keepsNothing) ==> keepsNothing) && asked == old(asked) + [handed]
      ensures obliging ==>
                && keepsNothing == old(keepsNothing)
                && backlog == if old(backlog) == [] then [] else old(backlog)[1..]
    {
      asked, lent := asked + [handed], false;
      MayFreeze();
      if backlog != [] {
        backlog := backlog[1..];
      }
    }

    method HasUnsent() returns (r: bool)
      modifies this`calls
      ensures calls == old(calls).(unsents := old(calls).unsents + [r])
      ensures MaySayUnsent(ShelfNow(), r) && (obliging ==> r == (backlog != [] && !keepsNothing))
    {
      var damaged: bool := *;
      r := !keepsNothing && (backlog != [] || (damaged && !obliging));
      calls := calls.(unsents := calls.unsents + [r]);
    }

    // ----- The sender, the policy and the switch -----

    method Send(data: Record) returns (accepted: bool)
      modifies this`sent, this`lastSend, this`calls
      ensures calls == old(calls).(sends := old(calls).sends + 1)
      ensures lastSend == accepted && sent == if accepted then old(sent) + [data] else old(sent)
      ensures obliging ==> accepted
    {
      calls := calls.(sends := calls.sends + 1);
      accepted := *;
      accepted := accepted || obliging;
      lastSend, sent := accepted, if accepted then sent + [data] else sent;
    }

    method AskPolicy() returns (policy: Policy)
      modifies this`lastPolicy, this`calls
      ensures calls == old(calls).(questions := old(calls).questions + 1)
      ensures lastPolicy == policy
      ensures obliging ==> policy != Halt
    {
      calls := calls.(questions := calls.questions + 1);
      policy := *;
      if obliging && policy == Halt {
        policy := Newest;
      }
      lastPolicy := policy;
    }

    method IsReportingOn() returns (on: bool)
      modifies this`switched
      ensures switched == old(switched) + [on]
      ensures obliging ==> on
    {
      on := *;
      on := on || obliging;
      switched := switched + [on];
    }

    // ----- The library's own events -----

    method Raise(kind: nat, ghost moves: Moves)
      requires Valid() && kind < KIND_COUNT
      modifies this`slots, this`raised, this`kinds, this`movesAtRaise
      ensures Valid() && slots == old(slots)[kind := Pending(Event(kind, old(raised)))] && raised == old(raised) + 1
      ensures kinds == old(kinds) + [kind] && movesAtRaise == moves
    {
      kinds, movesAtRaise := kinds + [kind], moves;
      slots := slots[kind := Pending(Event(kind, raised))];
      raised := raised + 1;
    }

    method IsPending(i: nat) returns (pending: bool)
      requires Valid() && i < KIND_COUNT
      modifies this`looked
      ensures pending == slots[i].Pending? && looked == old(looked) + [i]
    {
      pending := slots[i].Pending?;
      looked := looked + [i];
    }

    method AnyPending() returns (any: bool)
      requires Valid()
      ensures any <==> exists i :: 0 <= i < KIND_COUNT && slots[i].Pending?
    {
      any := false;
      for i := 0 to KIND_COUNT
        invariant any <==> exists j :: 0 <= j < i && slots[j].Pending?
      {
        any := any || slots[i].Pending?;
      }
    }

    method Take(i: nat) returns (slot: Slot)
      requires Valid() && i < KIND_COUNT
      modifies this`slots, this`taken
      ensures Valid() && slot == old(slots)[i] && slots == old(slots)[i := Clear]
      ensures taken == old(taken) + if slot.Pending? then [slot.event] else []
    {
      slot := slots[i];
      slots := slots[i := Clear];
      taken := taken + if slot.Pending? then [slot.event] else [];
    }

    // Other tasks raise events, and another logger's pass takes them.
    method Stir()
      requires Valid()
      modifies this`slots
      ensures Valid() && (obliging ==> slots == old(slots))
    {
      var stirred: seq<Slot> := *;
      if |stirred| == KIND_COUNT && !obliging &&
         forall i :: 0 <= i < KIND_COUNT ==> stirred[i].Pending? ==> stirred[i].event.kind == i {
        slots := stirred;
      }
    }
  }
}
