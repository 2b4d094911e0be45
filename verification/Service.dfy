/** One pass of the logger: first whatever an earlier pass could not place, then reports of the library's
    events, then everything the buffer has, into the store or past it, and last a single record of the store's. */
module Service {
  import opened Bytes
  import opened DiscardPolicy
  import opened RingModel
  import opened CircularBuffer
  import opened Surroundings
  import opened StoreOutcome
  import J = Journal

  datatype Status = Idle | Ready | Blocked | Stopped

  const BUFFER_RECORDS_LOST := 6
  const LOGGER_HALTED := 13

  // How many of the events raised are of one kind.
  function Count(kinds: seq<nat>, kind: nat): nat {
    if kinds == [] then 0 else Count(kinds[..|kinds| - 1], kind) + if kinds[|kinds| - 1] == kind then 1 else 0
  }

  lemma CountOneMore(kinds: seq<nat>, more: nat, kind: nat)
    ensures Count(kinds + [more], kind) == Count(kinds, kind) + if more == kind then 1 else 0
  {
    assert (kinds + [more])[..|kinds|] == kinds;
  }

  // ----- What the ledgers promise -----

  ghost predicate AllFates<T>(settled: seq<J.Settled<T>>, fates: set<J.Fate>) {
    forall i :: 0 <= i < |settled| ==> settled[i].fate in fates
  }

  ghost predicate NoneDelivered<T>(settled: seq<J.Settled<T>>) {
    forall i :: 0 <= i < |settled| ==> settled[i].fate != J.Delivered
  }

  // No report was dropped; with a store that never keeps anything every record of the buffer's was sent or
  // dropped, and none went straight to the sender past a store that keeps records.
  ghost predicate Fair(app: seq<J.Settled<Record>>, reports: seq<J.Settled<Event>>, neverKeeps: bool, keepsNothing: bool) {
    && AllFates(reports, {J.Stored, J.Delivered})
    && (neverKeeps ==> AllFates(app, {J.Delivered, J.Dropped}))
    && (!keepsNothing ==> NoneDelivered(app))
  }

  lemma {:induction false} NoneOfFate<T>(settled: seq<J.Settled<T>>)
    ensures NoneDelivered(settled) ==> J.WithFate(settled, J.Delivered) == []
  {
    if settled != [] && NoneDelivered(settled) {
      NoneOfFate(settled[..|settled| - 1]);
    }
  }

  lemma FairWithApp(app: seq<J.Settled<Record>>, reports: seq<J.Settled<Event>>, neverKeeps: bool, keepsNothing: bool,
                    record: Record, fate: J.Fate)
    requires Fair(app, reports, neverKeeps, keepsNothing)
    requires (neverKeeps ==> fate == J.Delivered || fate == J.Dropped) && (fate == J.Delivered ==> keepsNothing)
    ensures Fair(app + J.With([record], fate), reports, neverKeeps, keepsNothing)
  {
  }

  lemma FairWithReport(app: seq<J.Settled<Record>>, reports: seq<J.Settled<Event>>, neverKeeps: bool,
                       keepsNothing: bool, event: Event, fate: J.Fate)
    requires Fair(app, reports, neverKeeps, keepsNothing) && (fate == J.Stored || fate == J.Delivered)
    ensures Fair(app, reports + J.With([event], fate), neverKeeps, keepsNothing)
  {
  }

  ghost predicate NoneLarger(q: seq<Record>, limit: nat) {
    forall i :: 0 <= i < |q| ==> |q[i]| <= limit
  }

  lemma NoneLargerBehind(q: seq<Record>, limit: nat)
    requires q != []
    ensures NoneLarger(q, limit) ==> NoneLarger(q[1..], limit) && |q[0]| <= limit
  {
  }

  // What a buffer has handed on.
  function HandedOn(j: J.Journal<Record>): seq<Record> {
    J.WithFate(j.settled, J.Delivered)
  }

  lemma HandedOnOneMore(j: J.Journal<Record>)
    requires j.waiting != []
    ensures HandedOn(j.Settle(1, J.Delivered)) == HandedOn(j) + [j.waiting[0]]
  {
    J.WithFateConcat(j.settled, J.With(j.waiting[..1], J.Delivered), J.Delivered);
    J.WithFateOfWith(j.waiting[..1], J.Delivered, J.Delivered);
  }

  lemma EvictingHandsNothingOn(j: J.Journal<Record>, n: nat)
    requires n <= |j.waiting|
    ensures HandedOn(j.Settle(n, J.Evicted)) == HandedOn(j)
  {
    J.WithFateConcat(j.settled, J.With(j.waiting[..n], J.Evicted), J.Delivered);
    J.WithFateOfWith(j.waiting[..n], J.Evicted, J.Delivered);
  }

  lemma NoneLargerWith(q: seq<Record>, n: nat, r: Record, limit: nat)
    requires NoneLarger(q, limit) && n <= |q| && |r| <= limit
    ensures NoneLarger(q[n..] + [r], limit)
  {
  }

  // A write to the ring hands nothing on, and leaves no record larger than those written.
  lemma WriteHandsNothingOn(j: J.Journal<Record>, s: Ring, policy: Policy, r: Record, limit: nat)
    requires s.Valid() && j.waiting == s.Queue()
    ensures HandedOn(JournalAfterWrite(j, s, policy, r)) == HandedOn(j)
    ensures NoneLarger(s.Queue(), limit) && |r| <= limit ==> NoneLarger(WriteRing(s, policy, r).Queue(), limit)
  {
    hide Ring.Valid, Ring.Queue, Dropped, OutcomeOf, WriteRing, J.WithFate, J.With, NoneLarger, DropMany, Ring.Fits,
      ResetIfEmpty;
    WriteRefinesQueue(s, policy, r);
    if OutcomeOf(s, policy, r) != Refused {
      EvictingHandsNothingOn(j, Dropped(s, policy, r));
      if NoneLarger(s.Queue(), limit) && |r| <= limit {
        NoneLargerWith(s.Queue(), Dropped(s, policy, r), r, limit);
      }
    }
  }

  // ----- Records dropped, and what was said of it -----

  predicate EndsInDrop(settled: seq<J.Settled<Record>>) {
    settled != [] && settled[|settled| - 1].fate == J.Dropped
  }

  // How many runs of records dropped one after another.
  function DropRuns(settled: seq<J.Settled<Record>>): nat {
    if settled == [] then 0
    else
      var before := settled[..|settled| - 1];
      DropRuns(before) + if EndsInDrop(settled) && !EndsInDrop(before) then 1 else 0
  }

  // One event raised to a run of drops, and the run still on exactly while the flag says so.
  ghost predicate DropsTold(settled: seq<J.Settled<Record>>, told: bool, kinds: seq<nat>) {
    told == EndsInDrop(settled) && Count(kinds, BUFFER_RECORDS_LOST) == DropRuns(settled)
  }

  lemma OneSettledMore(settled: seq<J.Settled<Record>>, record: Record, fate: J.Fate, told: bool, kinds: seq<nat>)
    requires DropsTold(settled, told, kinds)
    ensures if fate == J.Dropped then
              DropsTold(settled + J.With([record], fate), true, if told then kinds else kinds + [BUFFER_RECORDS_LOST])
            else DropsTold(settled + J.With([record], fate), false, kinds)
  {
    hide Count;
    CountOneMore(kinds, BUFFER_RECORDS_LOST, BUFFER_RECORDS_LOST);
    assert (settled + J.With([record], fate))[..|settled|] == settled;
  }

  lemma OneRaisedMore(settled: seq<J.Settled<Record>>, told: bool, kinds: seq<nat>, kind: nat)
    requires DropsTold(settled, told, kinds) && kind != BUFFER_RECORDS_LOST
    ensures DropsTold(settled, told, kinds + [kind])
  {
    CountOneMore(kinds, kind, BUFFER_RECORDS_LOST);
  }

  lemma {:induction false} SomeDropRun(settled: seq<J.Settled<Record>>, i: nat)
    requires i < |settled| && settled[i].fate == J.Dropped
    ensures DropRuns(settled) > 0
  {
    var before := settled[..|settled| - 1];
    if i < |before| {
      SomeDropRun(before, i);
    } else if EndsInDrop(before) {
      SomeDropRun(before, |before| - 1);
    }
  }

  lemma TellsOfDrop(settled: seq<J.Settled<Record>>, told: bool, kinds: seq<nat>)
    requires DropsTold(settled, told, kinds)
    ensures told == EndsInDrop(settled)
  {
  }

  // ----- Where what was sent and what was kept came from -----

  datatype Origin = FromApp(record: Record) | FromReport(event: Event) | FromStore(record: Record)

  function OriginBytes(o: Origin, render: Event -> Record): Record {
    if o.FromReport? then render(o.event) else o.record
  }

  function BytesOf(log: seq<Origin>, render: Event -> Record): (bytes: seq<Record>)
    ensures |bytes| == |log|
  {
    seq(|log|, i requires 0 <= i < |log| => OriginBytes(log[i], render))
  }

  function AppsOf(log: seq<Origin>): seq<Record> {
    if log == [] then []
    else AppsOf(log[..|log| - 1]) + if log[|log| - 1].FromApp? then [log[|log| - 1].record] else []
  }

  function ReportsOf(log: seq<Origin>): seq<Event> {
    if log == [] then []
    else ReportsOf(log[..|log| - 1]) + if log[|log| - 1].FromReport? then [log[|log| - 1].event] else []
  }

  function StoredOf(log: seq<Origin>): seq<Record> {
    if log == [] then []
    else StoredOf(log[..|log| - 1]) + if log[|log| - 1].FromStore? then [log[|log| - 1].record] else []
  }

  lemma OneMore(log: seq<Origin>, o: Origin, render: Event -> Record)
    ensures BytesOf(log + [o], render) == BytesOf(log, render) + [OriginBytes(o, render)]
    ensures AppsOf(log + [o]) == AppsOf(log) + if o.FromApp? then [o.record] else []
    ensures ReportsOf(log + [o]) == ReportsOf(log) + if o.FromReport? then [o.event] else []
    ensures StoredOf(log + [o]) == StoredOf(log) + if o.FromStore? then [o.record] else []
  {
    assert (log + [o])[..|log|] == log;
  }

  // What went by outside, what the logs say of it, and what the ledgers settled.
  datatype Trail = Trail(
    sent: seq<Record>, stored: seq<Record>, asked: seq<Record>,
    sentLog: seq<Origin>, keptLog: seq<Origin>, inHand: seq<(J.Fate, Record)>,
    app: seq<J.Settled<Record>>, reports: seq<J.Settled<Event>>, render: Event -> Record)
  {
    function InHand(fate: J.Fate): seq<Record> {
      if inHand != [] && inHand[0].0 == fate then [inHand[0].1] else []
    }

    ghost predicate Holds() {
      && sent == BytesOf(sentLog, render) + InHand(J.Delivered)
      && stored == BytesOf(keptLog, render) + InHand(J.Stored)
      && AppsOf(sentLog) == J.WithFate(app, J.Delivered) && AppsOf(keptLog) == J.WithFate(app, J.Stored)
      && ReportsOf(sentLog) == J.WithFate(reports, J.Delivered)
      && ReportsOf(keptLog) == J.WithFate(reports, J.Stored)
      && StoredOf(sentLog) == asked
    }

    function Taken(fate: J.Fate, record: Record): Trail {
      this.(sent := if fate == J.Delivered then sent + [record] else sent,
            stored := if fate == J.Stored then stored + [record] else stored,
            inHand := [(fate, record)])
    }

    lemma TakenHolds(fate: J.Fate, record: Record)
      requires Holds() && inHand == []
      ensures Taken(fate, record).Holds()
    {
    }

    // The record in hand enters its ledger, and the log of where it went.
    function Entered(fate: J.Fate, o: Origin): Trail
      requires !o.FromStore?
    {
      this.(sentLog := if fate == J.Delivered then sentLog + [o] else sentLog,
            keptLog := if fate == J.Stored then keptLog + [o] else keptLog,
            inHand := [],
            app := if o.FromApp? then app + J.With([o.record], fate) else app,
            reports := if o.FromReport? then reports + J.With([o.event], fate) else reports)
    }

    lemma EnteredHolds(fate: J.Fate, o: Origin)
      requires Holds() && !o.FromStore?
      requires inHand == if fate == J.Delivered || fate == J.Stored then [(fate, OriginBytes(o, render))] else []
      ensures Entered(fate, o).Holds()
    {
      hide BytesOf, AppsOf, ReportsOf, StoredOf, J.WithFate, J.With;
      OneMore(sentLog, o, render);
      OneMore(keptLog, o, render);
      if o.FromApp? {
        SettledOne(app, o.record, fate, J.Delivered);
        SettledOne(app, o.record, fate, J.Stored);
      } else {
        SettledOne(reports, o.event, fate, J.Delivered);
        SettledOne(reports, o.event, fate, J.Stored);
      }
    }

    // A record of the store's own sent, and the store asked to mark it.
    function Forwarded(record: Record): Trail {
      this.(sent := sent + [record], asked := asked + [record], sentLog := sentLog + [FromStore(record)])
    }

    lemma ForwardedHolds(record: Record)
      requires Holds() && inHand == []
      ensures Forwarded(record).Holds()
    {
      hide BytesOf, AppsOf, ReportsOf, StoredOf;
      OneMore(sentLog, FromStore(record), render);
    }
  }

  lemma SettledOne<T>(settled: seq<J.Settled<T>>, x: T, fate: J.Fate, asked: J.Fate)
    ensures J.WithFate(settled + J.With([x], fate), asked) ==
            J.WithFate(settled, asked) + if fate == asked then [x] else []
  {
    J.WithFateConcat(settled, J.With([x], fate), asked);
    J.WithFateOfWith([x], fate, asked);
  }

  // The ledgers of the records taken from the buffer and of the events taken from the table, and the slot.
  datatype Books = Books(
    app: J.Journal<Record>, reports: J.Journal<Event>,
    holds: bool, isReport: bool, record: Record, event: Event,
    neverKeeps: bool, keepsNothing: bool, render: Event -> Record)
  {
    // A record taken and not settled is the one held, byte for byte.
    ghost predicate Sound() {
      && app.Balanced() && reports.Balanced()
      && app.waiting == (if holds && !isReport then [record] else [])
      && reports.waiting == (if holds && isReport then [event] else [])
      && (holds && isReport ==> record == render(event))
      && Fair(app.settled, reports.settled, neverKeeps, keepsNothing)
    }

    ghost predicate Follows(earlier: Books) {
      J.Follows(app, earlier.app) && J.Follows(reports, earlier.reports)
    }

    function Held(data: Record): Books {
      this.(app := app.Accept(data), holds := true, isReport := false, record := data)
    }

    lemma HeldSound(data: Record)
      requires Sound() && !holds
      ensures Held(data).Sound() && Held(data).Follows(this)
    {
      app.AcceptKeepsBalance(data);
    }

    function Reported(e: Event): Books {
      this.(reports := reports.Accept(e), holds := true, isReport := true, record := render(e), event := e)
    }

    lemma ReportedSound(e: Event)
      requires Sound() && !holds
      ensures Reported(e).Sound() && Reported(e).Follows(this)
    {
      reports.AcceptKeepsBalance(e);
    }

    // What is in a free slot is nobody's.
    lemma FreeSlot(data: Record, reportLast: bool)
      requires Sound() && !holds
      ensures this.(record := data, isReport := reportLast).Sound()
    {
    }

    function Origin(): Origin {
      if isReport then FromReport(event) else FromApp(record)
    }

    ghost predicate MayEnd(fate: J.Fate) {
      if isReport then fate == J.Stored || fate == J.Delivered
      else (neverKeeps ==> fate == J.Delivered || fate == J.Dropped) && (fate == J.Delivered ==> keepsNothing)
    }

    function Ended(fate: J.Fate): Books
      requires if isReport then |reports.waiting| > 0 else |app.waiting| > 0
    {
      if isReport then this.(reports := reports.Settle(1, fate), holds := false)
      else this.(app := app.Settle(1, fate), holds := false)
    }

    lemma EndedSound(fate: J.Fate)
      requires Sound() && holds && MayEnd(fate)
      ensures if isReport then |reports.waiting| > 0 else |app.waiting| > 0
      ensures Ended(fate).Sound() && Ended(fate).Follows(this)
      ensures Ended(fate).app.settled == if isReport then app.settled else app.settled + J.With([record], fate)
      ensures Ended(fate).reports.settled == if isReport then reports.settled + J.With([event], fate) else reports.settled
      ensures Ended(fate).app.accepted == app.accepted && Ended(fate).reports.accepted == reports.accepted
      ensures OriginBytes(Origin(), render) == record
    {
      hide Fair;
      if isReport {
        assert reports.waiting[..1] == [event];
        reports.SettleKeepsBalance(1, fate);
        FairWithReport(app.settled, reports.settled, neverKeeps, keepsNothing, event, fate);
      } else {
        assert app.waiting[..1] == [record];
        app.SettleKeepsBalance(1, fate);
        FairWithApp(app.settled, reports.settled, neverKeeps, keepsNothing, record, fate);
      }
    }

    lemma FrozenSound()
      requires Sound()
      ensures this.(keepsNothing := true).Sound()
    {
    }

    lemma FollowsItself()
      requires Sound()
      ensures Follows(this)
    {
    }
  }

  lemma NothingYet(books: Books, trail: Trail, limit: nat)
    requires books.app == J.Journal([], [], []) && books.reports == J.Journal([], [], []) && !books.holds
    requires trail == Trail([], [], [], [], [], [], [], [], trail.render)
    ensures books.Sound() && trail.Holds() && HandedOn(J.Journal([], [], [])) == [] && NoneLarger([], limit)
    ensures Count([], LOGGER_HALTED) == 0 && DropsTold(books.app.settled, false, [])
  {
  }

  // Events in the table's order, each kind once.
  ghost predicate InTableOrder(events: seq<Event>, below: nat) {
    && (forall i :: 0 <= i < |events| ==> events[i].kind < below)
    && (forall i, j :: 0 <= i < j < |events| ==> events[i].kind < events[j].kind)
  }

  lemma NextInOrder(before: seq<Event>, after: seq<Event>, from: nat, kind: nat)
    requires from <= |before| && InTableOrder(before[from..], kind)
    requires after == before ||
             (|after| == |before| + 1 && after == before + [after[|before|]] && after[|before|].kind == kind)
    ensures from <= |after| && InTableOrder(after[from..], kind + 1)
  {
    if after != before {
      assert after[from..] == before[from..] + [after[|before|]];
    }
  }

  // A record of the backlog's, whole if there is room for it.
  ghost predicate CopyOfOne(copy: Record, backlog: seq<Record>, maxSize: nat) {
    exists i :: 0 <= i < |backlog| && copy == Bounded(backlog[i], maxSize)
  }

  lemma IsCopyOfOne(before: seq<Record>, after: seq<Record>, maxSize: nat)
    requires Less(before, after) && after != []
    ensures CopyOfOne(Bounded(after[0], maxSize), before, maxSize)
  {
    var gone: nat :| gone <= |before| && after == before[gone..];
    assert after[0] == before[gone];
  }

  function UpTo(n: nat): seq<nat> {
    seq(n, i => i)
  }

  class Logger {
    const buffer: CircularBuffer
    const around: Surroundings
    const hasSlot: bool
    const recordCapacity: nat
    const render: Event -> Record
    var record: Record
    var holdsRecord: bool
    var heldRecordIsReport: bool
    var heldRecordLossReported: bool
    var reportTurnedDown: bool
    var halted: bool
    var onHaltCalls: nat

    // The event the slot holds a report of, and the ledgers of the records taken from the buffer and of the events
    // taken from the table.
    ghost var heldEvent: Event
    ghost var app: J.Journal<Record>
    ghost var reports: J.Journal<Event>

    // What the sender accepted and what the store kept, by where each came from; and, until its ledger has
    // it, how the record in the slot ended.
    ghost var sentLog: seq<Origin>
    ghost var keptLog: seq<Origin>
    ghost var inHand: seq<(J.Fate, Record)>

    constructor (buffer: CircularBuffer, around: Surroundings, hasSlot: bool, recordCapacity: nat,
                 render: Event -> Record)
      requires buffer.Valid() && buffer.journal == J.Journal([], [], []) && buffer.Queue() == [] && around.Valid()
      requires around.sent == around.stored == around.asked == [] && around.kinds == [] && around.taken == []
      requires hasSlot ==> buffer.maxMessageSize <= recordCapacity
      ensures this.buffer == buffer && this.around == around && this.hasSlot == hasSlot
      ensures this.recordCapacity == recordCapacity && this.render == render
      ensures Valid() && !halted && !holdsRecord && !heldRecordIsReport && !reportTurnedDown
      ensures app == J.Journal([], [], []) && reports == J.Journal([], [], [])
    {
      hide DropsTold, CircularBuffer.Valid, Books.Sound, Trail.Holds, Surroundings.Valid, HandedOn, NoneLarger, Count;
      this.buffer, this.around, this.hasSlot, this.recordCapacity, this.render :=
        buffer, around, hasSlot, recordCapacity, render;
      record, holdsRecord, heldRecordIsReport, heldRecordLossReported := [], false, false, false;
      reportTurnedDown, halted, onHaltCalls := false, false, 0;
      heldEvent := Event(0, 0);
      app, reports := J.Journal([], [], []), J.Journal([], [], []);
      sentLog, keptLog, inHand := [], [], [];
      new;
      NothingYet(BooksNow(), TrailNow(), recordCapacity);
      assert Accounted() && Traced();
      assert Linked();
    }

    // Every record the buffer handed on is in the ledger, and none it holds is too large for the slot.
    ghost predicate Linked()
      reads this`app, buffer, buffer.ring
    {
      && buffer.Valid() && app.accepted == HandedOn(buffer.journal)
      && (hasSlot ==> buffer.maxMessageSize <= recordCapacity && NoneLarger(buffer.Queue(), recordCapacity))
    }

    ghost function BooksNow(): Books
      reads this`app, this`reports, this`holdsRecord, this`heldRecordIsReport, this`record, this`heldEvent,
            around`keepsNothing
    {
      Books(app, reports, holdsRecord, heldRecordIsReport, record, heldEvent, around.neverKeeps, around.keepsNothing,
            render)
    }

    ghost predicate Accounted()
      reads this`app, this`reports, this`holdsRecord, this`heldRecordIsReport, this`record, this`heldEvent,
            around`keepsNothing
    {
      BooksNow().Sound()
    }

    // All that has gone by but the policy's answers, which may come while a halt stands.
    ghost function MovesNow(): Moves
      reads around`calls, around`sent, around`stored, around`asked, around`looked, around`taken, around`switched,
            buffer`readings
    {
      Moves(around.calls.(questions := 0), around.sent, around.stored, around.asked, around.looked, around.taken,
            around.switched, buffer.readings.all)
    }

    // The last event raised before a halt was the halt's, and nothing has moved since; each halt was raised, and told
    // to the integrator, once.
    ghost predicate Still()
      reads this`halted, this`onHaltCalls, around`kinds, around`movesAtRaise, around`calls, around`sent, around`stored,
            around`asked, around`looked, around`taken, around`switched, buffer`readings
    {
      && (halted ==> around.kinds != [] && around.kinds[|around.kinds| - 1] == LOGGER_HALTED)
      && (halted ==> around.movesAtRaise == MovesNow())
      && HaltsRaised() == onHaltCalls
    }

    ghost function HaltsRaised(): nat
      reads around`kinds
    {
      Count(around.kinds, LOGGER_HALTED)
    }

    ghost function TrailNow(): Trail
      reads this`app, this`reports, this`sentLog, this`keptLog, this`inHand, around`sent, around`stored, around`asked
    {
      Trail(around.sent, around.stored, around.asked, sentLog, keptLog, inHand, app.settled, reports.settled, render)
    }

    // All the sender accepted and all the store kept is in the ledgers as sent and as kept, and no more; the
    // store was asked to mark exactly the records of its own that were sent.
    ghost predicate Traced()
      reads this`app, this`reports, this`sentLog, this`keptLog, this`inHand, around`sent, around`stored, around`asked
    {
      TrailNow().Holds()
    }

    // A store that comes to keep nothing takes nothing out of the ledgers.
    twostate lemma StillAccounted()
      requires old(Accounted()) && old(BooksNow()).(keepsNothing := around.keepsNothing) == BooksNow()
      requires old(around.keepsNothing) ==> around.keepsNothing
      ensures Accounted()
    {
      hide DropsTold, Books.Sound;
      old(BooksNow()).FrozenSound();
    }

    // Every event ever taken from the table is in the ledger of reports.
    ghost predicate Sound()
      reads this, buffer, buffer.ring, around
    {
      around.Valid() && Linked() && Accounted() && Still() && Traced() && reports.accepted == around.taken
    }

    ghost predicate Valid()
      reads this, buffer, buffer.ring, around
    {
      Sound() && inHand == [] && DropsTold(app.settled, heldRecordLossReported, around.kinds)
    }

    // Records and events on their way, wherever they are.
    ghost function Load(): nat
      reads this`holdsRecord, buffer, around
    {
      |buffer.Queue()| + |around.backlog| + PendingCount(around.slots) + if holdsRecord then 1 else 0
    }

    // No event was looked for or taken since, nor the switch asked.
    twostate predicate TableLeftAlone()
      reads around
    {
      around.looked == old(around.looked) && around.taken == old(around.taken) && around.switched == old(around.switched)
    }

    // The store was not read since, nor asked what it has unsent.
    twostate predicate StoreNotRead()
      reads around
    {
      && around.calls.readouts == old(around.calls).readouts && around.calls.unsents == old(around.calls).unsents
    }

    // What was wrong with sending from the store: the sender turned down the record the store gave, or the store gave
    // none and has one unsent.
    twostate predicate StoreBlocked()
      reads around
    {
      var was, now := old(around.calls), around.calls;
      if was.readouts < now.readouts && now.readouts[|was.readouts|] then !around.lastSend
      else was.unsents < now.unsents && now.unsents[|was.unsents|]
    }

    // The store's last word was that it has something unsent.
    ghost predicate UnsentSaid()
      reads around`calls
    {
      var said := around.calls.unsents;
      said != [] && said[|said| - 1]
    }

    // An event waits that the switch has not turned down in this pass.
    ghost predicate ReportWaits()
      reads this`reportTurnedDown, around`slots
    {
      hasSlot && !reportTurnedDown && PendingCount(around.slots) > 0
    }

    // A read of the buffer since has found nothing there.
    twostate predicate FoundEmpty()
      reads buffer
    {
      buffer.readings.empty > old(buffer.readings).empty
    }

    // ----- Other tasks, between any two steps -----

    // The buffer changed only by what other tasks logged, of which there is less to come.
    twostate predicate OnlyOthersLogged()
      reads around, buffer
    {
      && around.recordsToCome <= old(around.recordsToCome) && buffer.readings == old(buffer.readings)
      && (around.recordsToCome == old(around.recordsToCome) ==> buffer.Queue() == old(buffer.Queue()))
      && (around.obliging ==> around.recordsToCome == old(around.recordsToCome))
    }

    method OtherTasks()
      requires around.Valid() && Linked()
      modifies buffer, buffer.ring, around`slots, around`recordsToCome
      ensures around.Valid() && Linked() && OnlyOthersLogged()
      ensures around.obliging ==> around.slots == old(around.slots)
    {
      hide DropsTold, buffer.Sound, NoneLarger, HandedOn;
      around.Stir();
      var logging: bool := *;
      while logging && !around.obliging && around.recordsToCome > 0
        invariant around.Valid() && Linked() && OnlyOthersLogged()
        invariant around.obliging ==> around.slots == old(around.slots)
        decreases around.recordsToCome
      {
        around.recordsToCome := around.recordsToCome - 1;
        var policy: Policy := *;
        var data: Record := *;
        LogOne(policy, data);
        logging := *;
      }
    }

    method LogOne(policy: Policy, data: Record)
      requires Linked()
      modifies buffer, buffer.ring
      ensures Linked() && buffer.readings == old(buffer.readings)
    {
      hide DropsTold, buffer.Sound, NoneLarger, HandedOn, JournalAfterWrite, WriteRing;
      BufferIsSound();
      WriteHandsNothingOn(buffer.journal, buffer.View(), policy, data, recordCapacity);
      var report := buffer.Write(policy, data);
      BufferIsSound();
    }

    lemma BufferIsSound()
      requires buffer.Valid()
      ensures buffer.View().Valid() && buffer.journal.waiting == buffer.View().Queue() == buffer.Queue()
    {
    }

    // ----- The held record -----

    method Raise(kind: nat)
      requires around.Valid() && Linked() && kind < KIND_COUNT
      modifies buffer, buffer.ring, around`slots, around`raised, around`kinds, around`movesAtRaise, around`recordsToCome
      ensures around.Valid() && Linked() && OnlyOthersLogged() && (around.obliging ==> Load() <= old(Load()) + 1)
      ensures around.kinds == old(around.kinds) + [kind] && around.movesAtRaise == old(MovesNow()) == MovesNow()
      ensures HaltsRaised() == old(HaltsRaised()) + if kind == LOGGER_HALTED then 1 else 0
    {
      hide DropsTold, buffer.Valid, HandedOn, NoneLarger;
      CountOneMore(around.kinds, kind, LOGGER_HALTED);
      PendingCountUpdate(around.slots, kind, Pending(Event(kind, around.raised)));
      OtherTasks();
      ghost var before := around.slots;
      around.Raise(kind, MovesNow());
      PendingCountUpdate(before, kind, around.slots[kind]);
    }

    // The order matters: a callback that never returns must find the event raised.
    method Halt()
      requires Valid() && !halted
      modifies this`halted, this`onHaltCalls,
               buffer, buffer.ring, around`slots, around`raised, around`kinds, around`movesAtRaise, around`recordsToCome
      ensures Valid() && halted && OnlyOthersLogged()
      ensures around.kinds == old(around.kinds) + [LOGGER_HALTED] && around.movesAtRaise == old(MovesNow()) == MovesNow()
      ensures HaltsRaised() == old(HaltsRaised()) + 1 && onHaltCalls == old(onHaltCalls) + 1
    {
      hide DropsTold, Linked, Accounted, Traced, around.Valid, Count;
      halted := true;
      Raise(LOGGER_HALTED);
      onHaltCalls := onHaltCalls + 1;
      OneRaisedMore(app.settled, heldRecordLossReported, old(around.kinds), LOGGER_HALTED);
    }

    // The held record is older than all the buffer has, so with the buffer full it is the one Oldest costs,
    // unless it is a report; Halt stops the logger.
    method ApplyPolicyToHeldRecordIfBufferFull()
      requires Valid() && !halted
      modifies this, buffer, buffer.ring, around
      ensures Valid() && Onward(old(app), old(reports)) && OnlyOthersLogged() && buffer.readings == old(buffer.readings)
      ensures TableLeftAlone()
      ensures HaltsRaised() == old(HaltsRaised()) + if halted then 1 else 0
      ensures var decided := old(holdsRecord) && old(buffer.full);
              && around.calls == old(around.calls).(
                   questions := old(around.calls).questions + if decided then 1 else 0)
              && halted == (decided && around.lastPolicy == DiscardPolicy.Halt)
              && var drops := decided && around.lastPolicy == Oldest && !old(heldRecordIsReport);
              && app == (if drops then old(app).Settle(1, J.Dropped) else old(app)) && reports == old(reports)
              && holdsRecord == (old(holdsRecord) && !drops)
              && around.kinds == old(around.kinds) +
                   (if halted then [LOGGER_HALTED]
                    else if drops && !EndsInDrop(old(app).settled) then [BUFFER_RECORDS_LOST] else [])
      ensures record == old(record) && heldRecordIsReport == old(heldRecordIsReport)
      ensures around.obliging ==> !halted && Load() <= old(Load())
      ensures reportTurnedDown == old(reportTurnedDown)
    {
      hide DropRuns, EndsInDrop, DropsTold, HaltsRaised, Linked, Accounted, Traced, around.Valid, PendingCount,
        J.Follows, app.Settle;
      StaysOnward();
      var full := buffer.IsFull();
      if holdsRecord && full {
        ApplyPolicyToHeldRecord();
      }
    }

    method ApplyPolicyToHeldRecord()
      requires Valid() && !halted && holdsRecord
      modifies this`halted, this`onHaltCalls, this`holdsRecord, this`heldRecordLossReported, this`app,
               this`reports, this`sentLog, this`keptLog, this`inHand, buffer, buffer.ring, around`slots,
               around`raised, around`kinds, around`movesAtRaise, around`recordsToCome,
               around`lastPolicy, around`calls
      ensures Valid() && Onward(old(app), old(reports)) && OnlyOthersLogged()
      ensures HaltsRaised() == old(HaltsRaised()) + if halted then 1 else 0
      ensures around.calls == old(around.calls).(questions := old(around.calls).questions + 1)
      ensures halted == (around.lastPolicy == DiscardPolicy.Halt) && reports == old(reports)
      ensures var drops := around.lastPolicy == Oldest && !heldRecordIsReport;
              && app == (if drops then old(app).Settle(1, J.Dropped) else old(app)) && holdsRecord == !drops
              && around.kinds == old(around.kinds) +
                   (if halted then [LOGGER_HALTED]
                    else if drops && !EndsInDrop(old(app).settled) then [BUFFER_RECORDS_LOST] else [])
      ensures around.obliging ==> !halted && Load() <= old(Load())
    {
      hide DropRuns, EndsInDrop, DropsTold, HaltsRaised, Linked, Accounted, Traced, around.Valid, PendingCount,
        J.Follows, app.Settle;
      StaysOnward();
      var policy := around.AskPolicy();
      if policy == Oldest && !heldRecordIsReport {
        DropHeldRecord();
      } else if policy == DiscardPolicy.Halt {
        Halt();
      }
    }

    // What was in the ledgers stays as it was written there.
    ghost predicate Onward(appBefore: J.Journal<Record>, reportsBefore: J.Journal<Event>)
      reads this`app, this`reports
    {
      J.Follows(app, appBefore) && J.Follows(reports, reportsBefore)
    }

    lemma DroppingEnds()
      requires holdsRecord && !heldRecordIsReport
      ensures BooksNow().MayEnd(J.Dropped)
    {
    }

    method DropHeldRecord()
      requires Valid() && !halted && holdsRecord && !heldRecordIsReport
      modifies this`holdsRecord, this`heldRecordLossReported, this`app, this`reports, this`sentLog, this`keptLog,
               this`inHand, buffer, buffer.ring, around`slots, around`raised, around`kinds, around`movesAtRaise,
               around`recordsToCome
      ensures Valid() && !holdsRecord && app == old(app).Settle(1, J.Dropped) && reports == old(reports)
      ensures Onward(old(app), old(reports)) && heldRecordLossReported && OnlyOthersLogged()
      ensures around.kinds ==
              old(around.kinds) + if EndsInDrop(old(app).settled) then [] else [BUFFER_RECORDS_LOST]
      ensures HaltsRaised() == old(HaltsRaised())
      ensures around.obliging ==> Load() <= old(Load())
    {
      hide DropsTold, Linked, Accounted, Traced, around.Valid, PendingCount, J.Follows, Count, Books.MayEnd,
        Books.Sound, app.Settle;
      DroppingEnds();
      TellsOfDrop(app.settled, heldRecordLossReported, around.kinds);
      var runStarted := !heldRecordLossReported;
      OneSettledMore(app.settled, record, J.Dropped, heldRecordLossReported, around.kinds);
      ReleaseSlot(J.Dropped);
      heldRecordLossReported := true;
      if runStarted {
        Raise(BUFFER_RECORDS_LOST);
      }
    }

    // Fills the slot from the buffer, if that has anything.
    method HoldNextRecord() returns (held: bool)
      requires Valid() && !halted && !holdsRecord
      modifies this`record, this`holdsRecord, this`heldRecordIsReport, this`app,
               buffer, buffer.ring, around`slots, around`recordsToCome
      ensures Valid() && Onward(old(app), reports) && buffer.readings.empty >= old(buffer.readings).empty
      ensures held == holdsRecord && !heldRecordIsReport
      ensures app.accepted == old(app.accepted) + if held then [record] else []
      ensures around.recordsToCome <= old(around.recordsToCome)
      ensures around.recordsToCome == old(around.recordsToCome) ==>
                |buffer.Queue()| + (if held then 1 else 0) <= |old(buffer.Queue())|
      ensures around.obliging ==>
                && around.recordsToCome == old(around.recordsToCome) && around.slots == old(around.slots)
                && |buffer.Queue()| + (if held then 1 else 0) == |old(buffer.Queue())|
      ensures !held && hasSlot ==> FoundEmpty() && (around.obliging ==> buffer.Queue() == [])
    {
      hide DropsTold, Linked, PendingCount, Books.Sound, Trail.Holds, J.Follows, around.Valid;
      BooksNow().FreeSlot(record, false);
      heldRecordIsReport := false;
      held := ReadFromBuffer();
    }

    // What the buffer hands on enters the slot, and the ledger of the records to be settled.
    method ReadFromBuffer() returns (delivered: bool)
      requires around.Valid() && Linked() && Accounted() && Traced() && !holdsRecord && !heldRecordIsReport
      modifies this`app, this`record, this`holdsRecord, buffer, buffer.ring, around`slots,
               around`recordsToCome
      ensures around.Valid() && Linked() && Accounted() && Traced() && Onward(old(app), reports)
      ensures app.settled == old(app.settled) && buffer.readings.empty >= old(buffer.readings).empty
      ensures delivered == holdsRecord && app.accepted == old(app.accepted) + if delivered then [record] else []
      ensures around.recordsToCome <= old(around.recordsToCome)
      ensures around.recordsToCome == old(around.recordsToCome) ==>
                |buffer.Queue()| + (if delivered then 1 else 0) <= |old(buffer.Queue())|
      ensures around.obliging ==>
                && around.recordsToCome == old(around.recordsToCome) && around.slots == old(around.slots)
                && |buffer.Queue()| + (if delivered then 1 else 0) == |old(buffer.Queue())|
      ensures !delivered && hasSlot ==> FoundEmpty() && buffer.Queue() == []
    {
      hide DropsTold, buffer.Valid, HandedOn, NoneLarger, Accounted, Traced, J.Follows, PendingCount, around.Valid;
      StaysOnward();
      OtherTasks();
      var data;
      delivered, data := ReadOldest();
      if delivered {
        HoldRecord(data);
      }
    }

    method HoldRecord(data: Record)
      requires Accounted() && Traced() && !holdsRecord && !heldRecordIsReport
      modifies this`app, this`record, this`holdsRecord
      ensures Accounted() && Traced() && Onward(old(app), reports)
      ensures holdsRecord && record == data && app == old(app).Accept(data)
    {
      hide DropsTold, Books.Sound, Trail.Holds, J.Follows;
      ghost var books, trail := BooksNow(), TrailNow();
      books.HeldSound(data);
      holdsRecord := true;
      record := data;
      app := app.Accept(data);
      assert BooksNow() == books.Held(data) && TrailNow() == trail;
    }

    // The read is bounded by the slot; a larger record would not be handed on.
    method ReadOldest() returns (delivered: bool, data: Record)
      requires buffer.Valid()
      modifies buffer
      ensures buffer.Valid()
      ensures delivered ==> old(buffer.Queue()) != [] && data == old(buffer.Queue())[0]
      ensures buffer.Queue() == if delivered then old(buffer.Queue())[1..] else old(buffer.Queue())
      ensures buffer.readings ==
              Readings(old(buffer.readings).all + 1, old(buffer.readings).empty + if old(buffer.Queue()) == [] then 1 else 0)
      ensures HandedOn(buffer.journal) == old(HandedOn(buffer.journal)) + if delivered then [data] else []
      ensures NoneLarger(old(buffer.Queue()), recordCapacity) ==>
                NoneLarger(buffer.Queue(), recordCapacity) && delivered == (old(buffer.Queue()) != [])
    {
      hide DropsTold, buffer.Sound, HandedOn, buffer.View, Ring.Take, Ring.AtHeadFrame, buffer.journal.Settle,
        NoneLarger;
      if buffer.Queue() != [] {
        HandedOnOneMore(buffer.journal);
        NoneLargerBehind(buffer.Queue(), recordCapacity);
      }
      var report;
      delivered, data, report := buffer.Read(recordCapacity);
    }

    // Tries to empty the slot. What neither store nor sender took stays in it, byte for byte.
    method DealWithHeldRecord() returns (free: bool)
      requires Valid() && !halted
      modifies this, buffer, buffer.ring, around
      ensures Valid() && Onward(old(app), old(reports)) && OnlyOthersLogged()
      ensures free == !holdsRecord && reportTurnedDown == old(reportTurnedDown)
      ensures TableLeftAlone() && StoreNotRead()
      ensures around.calls.offers == old(around.calls).offers + if old(holdsRecord) then 1 else 0
      ensures holdsRecord && !halted ==> around.calls.sends == old(around.calls).sends + 1
      ensures around.kinds == old(around.kinds) + if halted then [LOGGER_HALTED] else []
      ensures HaltsRaised() == old(HaltsRaised()) + if halted then 1 else 0
      ensures !old(holdsRecord) ==> !holdsRecord && !halted && MovesNow() == old(MovesNow()) && app == old(app)
      ensures app.accepted == old(app.accepted) && reports.accepted == old(reports.accepted)
      ensures if heldRecordIsReport then app == old(app) else reports == old(reports)
      ensures heldRecordIsReport == old(heldRecordIsReport)
      ensures holdsRecord ==>
                && record == old(record) && app == old(app) && reports == old(reports)
                && (halted || !around.lastSend)
      ensures around.obliging ==>
                && free && !halted && around.slots == old(around.slots)
                && |around.backlog| <= |old(around.backlog)| + if old(holdsRecord) then 1 else 0
    {
      hide DropsTold, Still, Linked, Traced, Accounted, around.Valid, MayEndAs, PendingCount, Count, app.Settle,
        J.Follows;
      StaysOnward();
      if holdsRecord {
        var taken, fate := StoreOrSenderTakesHeldRecord();
        assert old(around.kinds) + [] == old(around.kinds);
        OneRaisedMore(app.settled, heldRecordLossReported, old(around.kinds), LOGGER_HALTED);
        SettleAndTell(taken, fate);
      }
      free := !holdsRecord;
    }

    // With a record of the buffer's dealt with, drops before it are over; a report leaves them as they are.
    method SettleAndTell(taken: bool, ghost fate: J.Fate)
      requires Sound() && holdsRecord && Ended(taken, fate) && (taken ==> fate != J.Dropped)
      requires DropsTold(app.settled, heldRecordLossReported, around.kinds)
      modifies this`holdsRecord, this`heldRecordLossReported, this`app, this`reports, this`sentLog, this`keptLog,
               this`inHand
      ensures Valid() && holdsRecord == !taken && Onward(old(app), old(reports))
      ensures app.accepted == old(app.accepted) && reports.accepted == old(reports.accepted)
      ensures if heldRecordIsReport then app == old(app) else reports == old(reports)
      ensures !taken ==> app == old(app) && reports == old(reports)
    {
      hide DropsTold, Linked, Accounted, Traced, around.Valid, Still, J.With, J.Follows, Ended;
      OneSettledMore(app.settled, record, fate, heldRecordLossReported, around.kinds);
      SettleHeld(taken, fate);
      heldRecordLossReported := heldRecordLossReported && !(!holdsRecord && !heldRecordIsReport);
    }

    // How the record in the slot ended, where something has it.
    ghost predicate Ended(taken: bool, fate: J.Fate)
      reads this`app, this`reports, this`holdsRecord, this`heldRecordIsReport, this`inHand, this`record,
            this`heldEvent, around`keepsNothing
    {
      && (taken ==> MayEndAs(fate))
      && inHand == if taken && fate != J.Rejected then [(fate, record)] else []
    }

    // The slot is free once its record is taken, and the record's ledger says what became of it.
    method SettleHeld(taken: bool, ghost fate: J.Fate)
      requires Sound() && holdsRecord && Ended(taken, fate)
      modifies this`holdsRecord, this`app, this`reports, this`sentLog, this`keptLog, this`inHand
      ensures Sound() && inHand == [] && holdsRecord == !taken && Onward(old(app), old(reports))
      ensures app.accepted == old(app.accepted) && reports.accepted == old(reports.accepted)
      ensures if heldRecordIsReport then app == old(app) else reports == old(reports)
      ensures !taken ==> app == old(app) && reports == old(reports)
      ensures taken ==>
                if heldRecordIsReport then
                  app == old(app) && reports.settled == old(reports.settled) + J.With([heldEvent], fate)
                else reports == old(reports) && app.settled == old(app.settled) + J.With([record], fate)
    {
      hide DropsTold, Linked, Accounted, Traced, around.Valid, J.Follows, Books.MayEnd, Books.Sound, J.With,
        app.Settle;
      StaysOnward();
      if taken {
        ReleaseSlot(fate);
      }
    }

    // The slot is free, and its record in the ledger as what became of it.
    method ReleaseSlot(ghost fate: J.Fate)
      requires Sound() && holdsRecord && BooksNow().MayEnd(fate)
      requires inHand == if fate == J.Stored || fate == J.Delivered then [(fate, record)] else []
      modifies this`holdsRecord, this`app, this`reports, this`sentLog, this`keptLog, this`inHand
      ensures Sound() && inHand == [] && !holdsRecord && Onward(old(app), old(reports))
      ensures app.accepted == old(app.accepted) && reports.accepted == old(reports.accepted)
      ensures if heldRecordIsReport then
                && app == old(app) && reports == old(reports).Settle(1, fate)
                && reports.settled == old(reports.settled) + J.With([heldEvent], fate)
              else
                && reports == old(reports) && app == old(app).Settle(1, fate)
                && app.settled == old(app.settled) + J.With([record], fate)
    {
      hide DropsTold, buffer.Valid, HandedOn, NoneLarger, Trail.Holds, Books.Sound, J.With, J.Follows, around.Valid,
        Count;
      ghost var books := BooksNow();
      books.EndedSound(fate);
      TrailNow().EnteredHolds(fate, books.Origin());
      EnterInHand(fate);
      holdsRecord := false;
      assert BooksNow() == books.Ended(fate);
    }

    // The record in hand enters its ledger and the log of where it went.
    ghost method EnterInHand(fate: J.Fate)
      requires BooksNow().Sound() && BooksNow().holds && BooksNow().MayEnd(fate)
      requires TrailNow().Entered(fate, BooksNow().Origin()).Holds()
      modifies this`app, this`reports, this`sentLog, this`keptLog, this`inHand
      ensures Traced() && inHand == []
      ensures if heldRecordIsReport then |old(reports.waiting)| > 0 else |old(app.waiting)| > 0
      ensures app == old(BooksNow()).Ended(fate).app && reports == old(BooksNow()).Ended(fate).reports
      ensures app.accepted == old(app.accepted) && reports.accepted == old(reports.accepted)
    {
      hide DropsTold, Books.Sound, Trail.Holds, J.With;
      var books := BooksNow();
      books.EndedSound(fate);
      var trail := TrailNow().Entered(fate, books.Origin());
      sentLog, keptLog, inHand := trail.sentLog, trail.keptLog, [];
      app, reports := books.Ended(fate).app, books.Ended(fate).reports;
      assert TrailNow() == trail;
    }

    // How a held record may be done with: kept by the store, taken by the sender, or, if it came from the
    // buffer, refused by a store that keeps records. It goes past a store only if the store keeps nothing.
    ghost predicate MayEndAs(fate: J.Fate)
      reads this`app, this`reports, this`holdsRecord, this`heldRecordIsReport, this`record, this`heldEvent,
            around`keepsNothing
    {
      (fate == J.Stored || fate == J.Delivered || fate == J.Rejected) && BooksNow().MayEnd(fate)
    }

    method StoreOrSenderTakesHeldRecord() returns (taken: bool, ghost fate: J.Fate)
      requires Valid() && !halted && holdsRecord
      modifies this`halted, this`onHaltCalls, this`inHand,
               buffer, buffer.ring, around
      ensures Sound() && OnlyOthersLogged() && Ended(taken, fate) && (!taken ==> halted || !around.lastSend)
      ensures taken ==> fate != J.Dropped
      ensures around.calls.offers == old(around.calls).offers + 1 && StoreNotRead()
      ensures around.calls.sends == old(around.calls).sends +
                if (taken && fate == J.Delivered) || (!taken && !halted) then 1 else 0
      ensures TableLeftAlone()
      ensures around.kinds == old(around.kinds) + if halted then [LOGGER_HALTED] else []
      ensures HaltsRaised() == old(HaltsRaised()) + if halted then 1 else 0
      ensures around.obliging ==>
                && taken && !halted && around.slots == old(around.slots)
                && |around.backlog| <= |old(around.backlog)| + 1
    {
      hide DropsTold, buffer.Valid, Accounted, Traced, HandedOn, NoneLarger, PendingCount;
      taken, fate := StoreDealsWithHeldRecord();
      if !taken && !halted {
        fate := J.Delivered;
        taken := SendHeldRecord();
      }
    }

    method SendHeldRecord() returns (taken: bool)
      requires around.Valid() && Linked() && Traced() && inHand == [] && !halted
      modifies this`inHand, buffer, buffer.ring, around`slots, around`recordsToCome, around`sent,
               around`lastSend, around`calls
      ensures around.Valid() && Linked() && Traced() && OnlyOthersLogged()
      ensures around.calls == old(around.calls).(sends := old(around.calls).sends + 1)
      ensures taken == around.lastSend && inHand == if taken then [(J.Delivered, record)] else []
      ensures around.obliging ==> taken && around.slots == old(around.slots)
    {
      hide DropsTold, Linked, Trail.Holds, PendingCount;
      OtherTasks();
      TrailNow().TakenHolds(J.Delivered, record);
      ghost var trail := TrailNow().Taken(J.Delivered, record);
      taken := around.Send(record);
      if taken {
        inHand := [(J.Delivered, record)];
        assert TrailNow() == trail;
      }
    }

    // With a retaining store a buffer record is done with whatever the answer, a report only if kept. Being
    // refused halts the logger exactly if the policy then answers Halt.
    method StoreDealsWithHeldRecord() returns (dealt: bool, ghost fate: J.Fate)
      requires Valid() && !halted && holdsRecord
      modifies this`halted, this`onHaltCalls, this`inHand,
               buffer, buffer.ring, around
      ensures Sound() && OnlyOthersLogged() && Ended(dealt, fate) && (dealt ==> fate != J.Delivered)
      ensures var refused := around.lastWrite == NotRetained && !around.keepsNothing;
              && dealt == (around.lastWrite == WriteResult.Kept ||
                           ((refused || around.lastWrite == Lost) && !heldRecordIsReport))
              && halted == (refused && around.lastPolicy == DiscardPolicy.Halt)
              && around.calls == old(around.calls).(
                   offers := old(around.calls).offers + 1,
                   questions := old(around.calls).questions + if refused then 1 else 0)
      ensures TableLeftAlone()
      ensures around.kinds == old(around.kinds) + if halted then [LOGGER_HALTED] else []
      ensures HaltsRaised() == old(HaltsRaised()) + if halted then 1 else 0
      ensures around.obliging ==>
                && !halted && around.slots == old(around.slots)
                && |around.backlog| <= |old(around.backlog)| + 1
    {
      hide Count, DropsTold, buffer.Valid, HandedOn, NoneLarger, Traced, Accounted, PendingCount;
      var result := OfferToStore();
      var refused := result == NotRetained && !around.IsTransient();
      var notKept := refused || result == Lost;
      if refused {
        HaltIfPolicyHalts();
      }
      dealt := result == WriteResult.Kept || (notKept && !heldRecordIsReport);
      fate := if result == WriteResult.Kept then J.Stored else J.Rejected;
    }

    method OfferToStore() returns (result: WriteResult)
      requires Valid() && !halted && holdsRecord
      modifies this`inHand, buffer, buffer.ring, around`slots, around`recordsToCome, around`keepsNothing,
               around`backlog, around`stored, around`lastWrite, around`calls, around`lent
      ensures Sound() && OnlyOthersLogged() && result == around.lastWrite
      ensures around.calls == old(around.calls).(offers := old(around.calls).offers + 1)
      ensures inHand == if result == WriteResult.Kept then [(J.Stored, record)] else []
      ensures around.keepsNothing ==> result == NotRetained
      ensures around.obliging ==>
                && around.slots == old(around.slots) && around.keepsNothing == old(around.keepsNothing)
                && (around.keepsNothing || result == WriteResult.Kept)
                && |around.backlog| <= |old(around.backlog)| + 1
    {
      hide DropsTold, Linked, Traced, Accounted, around.Valid, PendingCount, Count;
      OtherTasks();
      result := WriteHeldRecord();
      StillAccounted();
    }

    method WriteHeldRecord() returns (result: WriteResult)
      requires around.Valid() && Traced() && inHand == [] && !halted
      modifies this`inHand, around`keepsNothing, around`backlog, around`stored, around`lastWrite, around`calls,
               around`lent
      ensures around.Valid() && Traced() && result == around.lastWrite
      ensures around.calls == old(around.calls).(offers := old(around.calls).offers + 1)
      ensures inHand == if result == WriteResult.Kept then [(J.Stored, record)] else []
      ensures (old(around.keepsNothing) ==> around.keepsNothing) && (around.keepsNothing ==> result == NotRetained)
      ensures around.obliging ==>
                && around.keepsNothing == old(around.keepsNothing)
                && (around.keepsNothing || result == WriteResult.Kept)
                && |around.backlog| <= |old(around.backlog)| + 1
    {
      hide DropsTold, Trail.Holds;
      TrailNow().TakenHolds(J.Stored, record);
      ghost var before, trail := TrailNow(), TrailNow().Taken(J.Stored, record);
      result := around.StoreWrite(record);
      if result == WriteResult.Kept {
        inHand := [(J.Stored, record)];
        assert TrailNow() == trail;
      } else {
        assert TrailNow() == before;
      }
    }

    method HaltIfPolicyHalts()
      requires Valid() && !halted && !around.obliging
      modifies this`halted, this`onHaltCalls,
               buffer, buffer.ring, around`slots, around`raised, around`kinds, around`movesAtRaise, around`recordsToCome,
               around`lastPolicy, around`calls
      ensures Valid() && OnlyOthersLogged() && halted == (around.lastPolicy == DiscardPolicy.Halt)
      ensures around.calls == old(around.calls).(questions := old(around.calls).questions + 1)
      ensures around.kinds == old(around.kinds) + if halted then [LOGGER_HALTED] else []
      ensures HaltsRaised() == old(HaltsRaised()) + if halted then 1 else 0
    {
      hide DropsTold, buffer.Valid, Accounted, HandedOn, NoneLarger, Traced;
      var policy := around.AskPolicy();
      if policy == DiscardPolicy.Halt {
        Halt();
      }
    }

    // ----- The library's own events -----

    // One walk over all kinds in ascending order, cut short by a report nothing took, by a halt or by the switch.
    method ReportPendingEvents() returns (free: bool, ghost walked: nat)
      requires Valid() && !halted && !holdsRecord && !reportTurnedDown
      modifies this, buffer, buffer.ring, around
      ensures Valid() && Onward(old(app), old(reports)) && OnlyOthersLogged()
      ensures free == !holdsRecord && app == old(app)
      ensures StoreNotRead()
      ensures walked <= KIND_COUNT && around.looked == old(around.looked) + UpTo(walked)
      ensures walked < KIND_COUNT ==> !hasSlot || holdsRecord || halted || reportTurnedDown
      ensures InTableOrder(reports.accepted[|old(reports.accepted)|..], KIND_COUNT)
      ensures HaltsRaised() == old(HaltsRaised()) + if halted then 1 else 0
      ensures around.obliging ==>
                && free && !halted && !reportTurnedDown && Load() <= old(Load())
                && (hasSlot ==> PendingCount(around.slots) == 0)
    {
      hide DropsTold, buffer.Valid, Accounted, Traced, Linked, HandedOn, NoneLarger, PendingCount;
      StaysOnward();
      var walking := hasSlot;
      var index := 0;
      while index < KIND_COUNT && walking
        invariant index <= KIND_COUNT
        invariant Valid() && Onward(old(app), old(reports)) && OnlyOthersLogged()
        invariant app == old(app)
        invariant walking ==> !holdsRecord && !halted && !reportTurnedDown
        invariant !walking ==> !hasSlot || holdsRecord || halted || reportTurnedDown
        invariant StoreNotRead()
        invariant around.looked == old(around.looked) + UpTo(index)
        invariant |old(reports.accepted)| <= |reports.accepted|
        invariant InTableOrder(reports.accepted[|old(reports.accepted)|..], index)
        invariant HaltsRaised() == old(HaltsRaised()) + if halted then 1 else 0
        invariant around.obliging ==>
                    && walking == hasSlot && !holdsRecord && !halted && !reportTurnedDown && Load() <= old(Load())
                    && (hasSlot ==> forall i :: 0 <= i < index ==> around.slots[i].Clear?)
      {
        ghost var appBefore, reportsBefore := app, reports;
        walking := ReportIfPending(index);
        OnwardThrough(old(app), old(reports), appBefore, reportsBefore);
        NextInOrder(reportsBefore.accepted, reports.accepted, |old(reports.accepted)|, index);
        assert UpTo(index) + [index] == UpTo(index + 1);
        index := index + 1;
      }
      NonePending(around.slots);
      walked := index;
      free := !holdsRecord;
    }

    lemma StaysOnward()
      requires Accounted()
      ensures Onward(app, reports)
    {
      BooksNow().FollowsItself();
    }

    lemma OnwardThrough(app0: J.Journal<Record>, reports0: J.Journal<Event>, app1: J.Journal<Record>,
                        reports1: J.Journal<Event>)
      requires J.Follows(app1, app0) && J.Follows(reports1, reports0) && Onward(app1, reports1)
      ensures Onward(app0, reports0)
    {
    }

    // A kind turned down is left pending, and ends the walk.
    method ReportIfPending(index: nat) returns (goesOn: bool)
      requires Valid() && !halted && !holdsRecord && !reportTurnedDown && index < KIND_COUNT
      modifies this, buffer, buffer.ring, around
      ensures Valid() && Onward(old(app), old(reports)) && OnlyOthersLogged()
      ensures app == old(app)
      ensures goesOn ==> !holdsRecord && !halted && !reportTurnedDown
      ensures around.looked == old(around.looked) + [index] && StoreNotRead()
      ensures around.switched == old(around.switched) +
                if old(around.slots)[index].Pending? then [!reportTurnedDown] else []
      ensures reports.accepted == old(reports.accepted) ||
              (|reports.accepted| == |old(reports.accepted)| + 1 &&
               reports.accepted == old(reports.accepted) + [reports.accepted[|old(reports.accepted)|]] &&
               reports.accepted[|old(reports.accepted)|].kind == index)
      ensures reportTurnedDown ==>
                && !goesOn && reports == old(reports) && around.slots == old(around.slots)
                && around.slots[index].Pending?
      ensures !goesOn ==> reportTurnedDown || holdsRecord || halted
      ensures HaltsRaised() == old(HaltsRaised()) + if halted then 1 else 0
      ensures around.obliging ==>
                && goesOn && !holdsRecord && !halted && Load() <= old(Load())
                && around.slots == old(around.slots)[index := Clear]
    {
      hide Count, J.Follows, DropsTold, buffer.Valid, Accounted, Traced, Linked, HandedOn, NoneLarger, PendingCount;
      StaysOnward();
      goesOn := true;
      var pending := around.IsPending(index);
      if pending {
        goesOn := around.IsReportingOn();
        reportTurnedDown := !goesOn;
        if goesOn {
          goesOn := ReportOne(index);
        }
      }
    }

    method ReportOne(index: nat) returns (goesOn: bool)
      requires Valid() && !halted && !holdsRecord && !reportTurnedDown && index < KIND_COUNT
      requires around.slots[index].Pending?
      modifies this, buffer, buffer.ring, around
      ensures Valid() && Onward(old(app), old(reports)) && OnlyOthersLogged() && app == old(app)
      ensures goesOn == (!holdsRecord && !halted) && !reportTurnedDown
      ensures around.looked == old(around.looked) && around.switched == old(around.switched)
      ensures StoreNotRead()
      ensures reports.accepted == old(reports.accepted) ||
              (|reports.accepted| == |old(reports.accepted)| + 1 &&
               reports.accepted == old(reports.accepted) + [reports.accepted[|old(reports.accepted)|]] &&
               reports.accepted[|old(reports.accepted)|].kind == index)
      ensures HaltsRaised() == old(HaltsRaised()) + if halted then 1 else 0
      ensures around.obliging ==>
                goesOn && Load() <= old(Load()) && around.slots == old(around.slots)[index := Clear]
    {
      hide Count, J.Follows, DropsTold, buffer.Valid, Accounted, Traced, Linked, HandedOn, NoneLarger, PendingCount;
      StaysOnward();
      PendingCountUpdate(around.slots, index, Clear);
      HoldPendingReport(index);
      ghost var appBefore, reportsBefore := app, reports;
      var free := DealWithHeldRecord();
      OnwardThrough(old(app), old(reports), appBefore, reportsBefore);
      goesOn := free && !halted;
    }

    // The event seen pending may be gone by now, taken by another logger; then nothing is held.
    method HoldPendingReport(index: nat)
      requires Valid() && !halted && !holdsRecord && index < KIND_COUNT
      modifies this`record, this`holdsRecord, this`heldRecordIsReport, this`heldEvent, this`reports,
               buffer, buffer.ring, around`slots, around`taken, around`recordsToCome
      ensures Valid() && Onward(old(app), old(reports)) && OnlyOthersLogged()
      ensures heldRecordIsReport == holdsRecord
      ensures holdsRecord ==> heldEvent.kind == index && reports == old(reports).Accept(heldEvent)
      ensures !holdsRecord ==> reports == old(reports)
      ensures reportTurnedDown == old(reportTurnedDown)
      ensures around.obliging ==>
                && around.slots == old(around.slots)[index := Clear]
                && holdsRecord == old(around.slots)[index].Pending?
    {
      hide DropsTold, buffer.Valid, Accounted, Traced, Linked, HandedOn, NoneLarger;
      OtherTasks();
      var slot := around.Take(index);
      FormatReport(slot);
    }

    // Formats into the slot in either case; without an event what is there is nobody's.
    method FormatReport(slot: Slot)
      requires around.Valid() && Linked() && Accounted() && Still() && Traced() && inHand == []
      requires DropsTold(app.settled, heldRecordLossReported, around.kinds) && !halted && !holdsRecord
      requires around.taken == reports.accepted + if slot.Pending? then [slot.event] else []
      modifies this`record, this`holdsRecord, this`heldRecordIsReport, this`heldEvent, this`reports
      ensures Valid() && Onward(app, old(reports)) && holdsRecord == slot.Pending?
      ensures heldRecordIsReport == holdsRecord
      ensures holdsRecord ==> heldEvent == slot.event && reports == old(reports).Accept(heldEvent)
      ensures !holdsRecord ==> reports == old(reports)
    {
      hide DropsTold, Linked, Books.Sound, Trail.Holds, around.Valid, J.Follows, Count;
      StaysOnward();
      var leftOver: Event := *;
      if slot.Pending? {
        HoldReport(slot.event);
      } else {
        BooksNow().FreeSlot(render(leftOver), false);
        record, heldRecordIsReport := render(leftOver), false;
      }
    }

    method HoldReport(event: Event)
      requires Accounted() && Traced() && !holdsRecord
      modifies this`reports, this`record, this`holdsRecord, this`heldRecordIsReport, this`heldEvent
      ensures Accounted() && Traced() && Onward(app, old(reports))
      ensures holdsRecord && heldRecordIsReport && heldEvent == event && reports == old(reports).Accept(event)
    {
      hide DropsTold, Books.Sound, Trail.Holds, J.Follows;
      ghost var books, trail := BooksNow(), TrailNow();
      books.ReportedSound(event);
      record, holdsRecord, heldRecordIsReport := render(event), true, true;
      heldEvent := event;
      reports := reports.Accept(event);
      assert BooksNow() == books.Reported(event) && TrailNow() == trail;
    }

    // ----- The pass -----

    // Two stretches, with the ledgers between them returned: in the first nothing is taken from the buffer, in
    // the second no event is, and the second begins only with nothing left over from the first.
    method DrainBufferIntoStore()
      returns (drained: bool, ghost appBefore: J.Journal<Record>, ghost reportsBefore: J.Journal<Event>)
      requires Valid() && !halted && !reportTurnedDown
      modifies this, buffer, buffer.ring, around
      ensures StoreNotRead()
      ensures drained <==> app.accepted != old(app.accepted)
      ensures Valid() && Onward(old(app), old(reports))
      ensures appBefore.accepted == old(app.accepted) && Onward(appBefore, reportsBefore) && reports == reportsBefore
      ensures app != appBefore ==> appBefore.waiting == [] && reportsBefore.waiting == []
      ensures HaltsRaised() == old(HaltsRaised()) + if halted then 1 else 0
      ensures !halted && !holdsRecord && hasSlot ==> FoundEmpty()
      ensures around.obliging && hasSlot ==>
                && !halted && !holdsRecord && !reportTurnedDown && Load() <= old(Load())
                && buffer.Queue() == [] && PendingCount(around.slots) == 0
                && (drained ==> 0 < old(Load()))
    {
      hide DropsTold, Valid, PendingCount;
      drained := false;
      var dealtWith := DealWithWhatWaits();
      appBefore, reportsBefore := app, reports;
      SlotIsAccounted();
      if dealtWith && !halted {
        drained := DrainBuffer();
        OnwardThrough(old(app), old(reports), appBefore, reportsBefore);
      }
    }

    // The first stretch: a leftover from earlier, then the reports.
    method DealWithWhatWaits() returns (dealtWith: bool)
      requires Valid() && !halted && !reportTurnedDown
      modifies this, buffer, buffer.ring, around
      ensures Valid() && Onward(old(app), old(reports))
      ensures HaltsRaised() == old(HaltsRaised()) + if halted then 1 else 0
      ensures buffer.readings == old(buffer.readings) && StoreNotRead()
      ensures !holdsRecord && !halted && !reportTurnedDown && hasSlot ==>
                around.looked == old(around.looked) + UpTo(KIND_COUNT)
      ensures app.accepted == old(app.accepted) && (!halted ==> dealtWith == !holdsRecord)
      ensures around.obliging && hasSlot ==>
                && !halted && !holdsRecord && !reportTurnedDown && Load() <= old(Load())
                && PendingCount(around.slots) == 0
    {
      hide DropsTold, buffer.Valid, Accounted, Traced, Linked, HandedOn, NoneLarger, PendingCount;
      StaysOnward();
      OtherTasks();
      ApplyPolicyToHeldRecordIfBufferFull();
      dealtWith := false;
      if !halted {
        ghost var app1, reports1 := app, reports;
        dealtWith := DealWithHeldRecord();
        OnwardThrough(old(app), old(reports), app1, reports1);
      }
      if dealtWith && !halted {
        ghost var app2, reports2 := app, reports;
        ghost var walked;
        dealtWith, walked := ReportPendingEvents();
        OnwardThrough(old(app), old(reports), app2, reports2);
      }
    }

    lemma SlotIsAccounted()
      requires Valid()
      ensures Onward(app, reports) && (!holdsRecord ==> app.waiting == [] && reports.waiting == [])
    {
      BooksNow().FollowsItself();
    }

    method DrainBuffer() returns (drained: bool)
      requires Valid() && !halted && !holdsRecord
      modifies this, buffer, buffer.ring, around
      ensures StoreNotRead()
      ensures drained <==> app.accepted != old(app.accepted)
      ensures Valid() && Onward(old(app), old(reports)) && reports == old(reports)
      ensures HaltsRaised() == old(HaltsRaised()) + if halted then 1 else 0
      ensures !halted && !holdsRecord && hasSlot ==> FoundEmpty()
      ensures around.obliging && hasSlot ==>
                && !halted && !holdsRecord && reportTurnedDown == old(reportTurnedDown) && Load() <= old(Load())
                && buffer.Queue() == [] && around.slots == old(around.slots)
                && (drained ==> 0 < old(Load()))
    {
      hide DropsTold, Accounted, Traced, Linked, HandedOn, NoneLarger, PendingCount;
      drained := false;
      var held := HoldNextRecord();
      while held
        invariant drained || held <==> app.accepted != old(app.accepted)
        invariant |app.accepted| >= |old(app.accepted)|
        invariant Valid() && Onward(old(app), old(reports))
        invariant buffer.readings.empty >= old(buffer.readings).empty && StoreNotRead()
        invariant reports == old(reports) && !heldRecordIsReport && (held ==> holdsRecord && !halted)
        invariant HaltsRaised() == old(HaltsRaised()) + if halted then 1 else 0
        invariant !held && !halted && !holdsRecord && hasSlot ==> FoundEmpty()
        invariant around.obliging && hasSlot ==>
                    && !halted && reportTurnedDown == old(reportTurnedDown) && Load() <= old(Load())
                    && around.slots == old(around.slots) && (!held ==> buffer.Queue() == [] && !holdsRecord)
                    && (drained || held ==> 0 < old(Load()))
        decreases around.recordsToCome, |buffer.Queue()|, held
      {
        drained := true;
        held := DealAndHoldNext();
      }
    }

    method DealAndHoldNext() returns (held: bool)
      requires Valid() && !halted && holdsRecord && !heldRecordIsReport
      modifies this, buffer, buffer.ring, around
      ensures Valid() && Onward(old(app), old(reports))
      ensures buffer.readings.empty >= old(buffer.readings).empty && StoreNotRead()
      ensures app.accepted == old(app.accepted) + if held then [record] else []
      ensures reports == old(reports) && !heldRecordIsReport && (held ==> holdsRecord && !halted)
      ensures HaltsRaised() == old(HaltsRaised()) + if halted then 1 else 0
      ensures !held && !halted && !holdsRecord && hasSlot ==> FoundEmpty()
      ensures around.recordsToCome <= old(around.recordsToCome)
      ensures around.recordsToCome == old(around.recordsToCome) ==>
                |buffer.Queue()| + (if held then 1 else 0) <= |old(buffer.Queue())|
      ensures around.obliging && hasSlot ==>
                && !halted && reportTurnedDown == old(reportTurnedDown) && Load() <= old(Load())
                && around.slots == old(around.slots) && (!held ==> buffer.Queue() == [] && !holdsRecord)
    {
      hide DropsTold, buffer.Valid, Accounted, Traced, Linked, HandedOn, NoneLarger, PendingCount;
      var dealtWith := DealWithHeldRecord();
      ghost var app1, reports1 := app, reports;
      held := false;
      if dealtWith && !halted {
        held := HoldNextRecord();
        OnwardThrough(old(app), old(reports), app1, reports1);
      }
    }

    // At most one record of the store's goes out; without an acceptance the store is not told to mark it.
    method SendOneFromStore() returns (blocked: bool)
      requires Valid() && !halted
      modifies this`record, this`sentLog, buffer, buffer.ring, around
      ensures buffer.readings == old(buffer.readings)
      ensures |around.calls.readouts| == |old(around.calls).readouts| + if holdsRecord then 0 else 1
      ensures var found := !holdsRecord && around.calls.readouts[|old(around.calls).readouts|];
              && blocked == StoreBlocked()
              && around.calls == old(around.calls).(
                   readouts := old(around.calls).readouts + (if holdsRecord then [] else [found]),
                   unsents := old(around.calls).unsents + (if found then [] else [blocked]),
                   sends := old(around.calls).sends + if found then 1 else 0)
              && around.asked == old(around.asked) + if found && !blocked then [around.handed] else []
      ensures around.sent == old(around.sent) + around.asked[|old(around.asked)|..]
      ensures around.asked != old(around.asked) ==> CopyOfOne(around.handed, old(around.backlog), recordCapacity)
      ensures Valid() && (holdsRecord ==> record == old(record))
      ensures around.obliging ==>
                && around.slots == old(around.slots) && buffer.Queue() == old(buffer.Queue())
                && (!holdsRecord ==>
                      !blocked && around.backlog == if old(around.backlog) == [] then [] else old(around.backlog)[1..])
    {
      hide CopyOfOne, Less, Bounded, DropsTold, Linked, Traced, Accounted, around.Valid, PendingCount, Count;
      var found := TakeNextFromStore();
      if found {
        IsCopyOfOne(old(around.backlog), around.backlog, recordCapacity);
        blocked := SendHandedOut();
      } else {
        blocked := around.HasUnsent();
      }
    }

    method SendHandedOut() returns (blocked: bool)
      requires Valid() && around.lent && around.handed == record && !halted
      modifies this`sentLog, buffer, buffer.ring, around`slots, around`recordsToCome, around`sent, around`lastSend,
               around`calls, around`keepsNothing, around`backlog, around`asked, around`lent
      ensures Valid() && buffer.readings == old(buffer.readings)
      ensures around.calls == old(around.calls).(sends := old(around.calls).sends + 1) && blocked == !around.lastSend
      ensures around.sent == old(around.sent) + if blocked then [] else [around.handed]
      ensures around.asked == old(around.asked) + if blocked then [] else [around.handed]
      ensures around.obliging ==>
                && !blocked && around.backlog == (if old(around.backlog) == [] then [] else old(around.backlog)[1..])
                && around.slots == old(around.slots) && buffer.Queue() == old(buffer.Queue())
    {
      hide DropsTold, Linked, Traced, Accounted, around.Valid, PendingCount, Count;
      OtherTasks();
      var accepted := ForwardOne();
      blocked := !accepted;
    }

    method ForwardOne() returns (accepted: bool)
      requires Valid() && around.lent && around.handed == record && !halted
      modifies this`sentLog, around`sent, around`lastSend, around`calls, around`keepsNothing, around`backlog,
               around`asked, around`lent
      ensures Valid() && around.calls == old(around.calls).(sends := old(around.calls).sends + 1)
      ensures accepted == around.lastSend
      ensures around.sent == if accepted then old(around.sent) + [record] else old(around.sent)
      ensures around.asked == if accepted then old(around.asked) + [record] else old(around.asked)
      ensures !accepted ==> around.backlog == old(around.backlog)
      ensures around.obliging ==>
                accepted && around.backlog == if old(around.backlog) == [] then [] else old(around.backlog)[1..]
    {
      hide DropsTold, Linked, Traced, Accounted, around.Valid, Count;
      accepted := Forward();
      StillAccounted();
    }

    // Accepted and marked, or neither.
    method Forward() returns (accepted: bool)
      requires around.Valid() && Traced() && inHand == [] && around.lent && around.handed == record && !halted
      modifies this`sentLog, around`sent, around`lastSend, around`calls, around`keepsNothing, around`backlog,
               around`asked, around`lent
      ensures around.Valid() && Traced() && (old(around.keepsNothing) ==> around.keepsNothing)
      ensures accepted == around.lastSend && around.calls == old(around.calls).(sends := old(around.calls).sends + 1)
      ensures around.sent == if accepted then old(around.sent) + [record] else old(around.sent)
      ensures around.asked == if accepted then old(around.asked) + [record] else old(around.asked)
      ensures !accepted ==> around.backlog == old(around.backlog) && around.keepsNothing == old(around.keepsNothing)
      ensures around.obliging ==>
                && accepted && around.keepsNothing == old(around.keepsNothing)
                && around.backlog == if old(around.backlog) == [] then [] else old(around.backlog)[1..]
    {
      hide DropsTold, Trail.Holds;
      TrailNow().ForwardedHolds(record);
      ghost var trail := TrailNow().Forwarded(record);
      accepted := around.Send(record);
      if accepted {
        around.MarkSent();
        sentLog := sentLog + [FromStore(record)];
        assert TrailNow() == trail;
      }
    }

    // The slot doubles as staging space, so a held record keeps the store from being read.
    method TakeNextFromStore() returns (found: bool)
      requires Valid() && !halted
      modifies this`record, around`keepsNothing, around`backlog, around`handed, around`calls, around`lent
      ensures Valid() && (holdsRecord ==> !found && record == old(record) && around.backlog == old(around.backlog))
      ensures around.calls ==
                old(around.calls).(readouts := old(around.calls).readouts + if holdsRecord then [] else [found])
      ensures found ==>
                && around.lent && around.backlog != []
                && around.handed == record == Bounded(around.backlog[0], recordCapacity)
      ensures found ==> Less(old(around.backlog), around.backlog)
      ensures around.obliging && !holdsRecord ==>
                && around.keepsNothing == old(around.keepsNothing) && around.backlog == old(around.backlog)
                && found == (around.backlog != [])
    {
      hide MayHandOut, Linked, around.Valid, MovesNow, DropsTold, buffer.Valid, HandedOn, NoneLarger, Traced,
        PendingCount, Books.Sound;
      ghost var books := BooksNow();
      books.FrozenSound();
      found := false;
      if !holdsRecord {
        var data;
        found, data := around.ReadNextUnsent(recordCapacity);
        assert BooksNow() == books || BooksNow() == books.(keepsNothing := true);
        if found {
          BooksNow().FreeSlot(data, heldRecordIsReport);
          record := data;
        }
      }
    }

    method IsReportWaiting() returns (waiting: bool)
      requires around.Valid()
      ensures waiting == ReportWaits()
    {
      NonePending(around.slots);
      var any := around.AnyPending();
      waiting := hasSlot && !reportTurnedDown && any;
    }

    method ProcessMessages() returns (status: Status)
      requires Valid() && !halted
      modifies this, buffer, buffer.ring, around
      ensures Valid() && Onward(old(app), old(reports))
      ensures HaltsRaised() == old(HaltsRaised()) + if halted then 1 else 0
      ensures !halted ==> |around.calls.readouts| == |old(around.calls).readouts| + if holdsRecord then 0 else 1
      ensures status == Stopped <==> halted
      ensures status == Blocked <==> !halted && (holdsRecord || (StoreBlocked() && app.accepted == old(app.accepted)))
      ensures status == Ready <==>
              !halted && status != Blocked && (app.accepted != old(app.accepted) || UnsentSaid() || ReportWaits())
      ensures status == Idle ==> AllQuiet() && (hasSlot ==> FoundEmpty())
      ensures around.obliging && hasSlot ==>
                && !halted && (status == Idle ==> Load() == 0)
                && (Load() < old(Load()) || (Load() == 0 == old(Load()) && status == Idle))
    {
      hide DropsTold, Count, buffer.Valid, Accounted, Traced, Linked, HandedOn, NoneLarger, PendingCount;
      reportTurnedDown := false;
      var drained, app1, reports1 := DrainBufferIntoStore();
      var storeBlocked := false;
      if !halted {
        storeBlocked := SendOneFromStore();
      }
      status := PassStatus(drained, storeBlocked);
    }

    method PassStatus(drained: bool, storeBlocked: bool) returns (status: Status)
      requires Valid()
      modifies around`calls
      ensures Valid() && old(around.calls).unsents <= around.calls.unsents
      ensures around.calls == old(around.calls).(unsents := around.calls.unsents)
      ensures status == Stopped <==> halted
      ensures status == Blocked <==> !halted && (holdsRecord || (storeBlocked && !drained))
      ensures status == Ready <==> !halted && status != Blocked && (drained || UnsentSaid() || ReportWaits())
      ensures status == Idle ==> AllQuiet() && !drained
      ensures around.obliging && status == Ready ==> drained || around.backlog != [] || PendingCount(around.slots) > 0
    {
      hide DropsTold, Count, Linked, Accounted, Traced, PendingCount;
      status := Idle;
      if halted {
        status := Stopped;
      } else if holdsRecord || (storeBlocked && !drained) {
        status := Blocked;
      } else {
        var more := drained;
        if !more {
          more := around.HasUnsent();
        }
        if !more {
          more := IsReportWaiting();
        }
        if more {
          status := Ready;
        }
      }
    }

    // No record held, none in the buffer when it was read, none in the store, and no event waiting but those
    // the switch turned down.
    ghost predicate AllQuiet()
      reads this`holdsRecord, this`reportTurnedDown, around
    {
      && !holdsRecord && (around.keepsNothing || around.backlog == [])
      && (hasSlot ==> reportTurnedDown || PendingCount(around.slots) == 0)
    }

    // Only a policy that answers something else lifts a halt.
    method ResumeIfPolicyChanged()
      requires Valid()
      modifies this`halted, around`lastPolicy, around`calls
      ensures Valid() && halted == (old(halted) && around.lastPolicy == DiscardPolicy.Halt)
      ensures around.obliging ==> !halted
      ensures around.calls == old(around.calls).(
                questions := old(around.calls).questions + if old(halted) then 1 else 0)
    {
      hide DropsTold, buffer.Valid, HandedOn, NoneLarger, Traced, Accounted;
      if halted {
        var policy := around.AskPolicy();
        halted := policy == DiscardPolicy.Halt;
      }
    }

    /** One pass, or none: with a halt that stands nothing moves, and it stands as long as the policy answers Halt. */
    method Service() returns (status: Status, ghost stood: bool)
      requires Valid()
      modifies this, buffer, buffer.ring, around
      ensures Valid() && Onward(old(app), old(reports))
      ensures stood ==>
                && old(halted) && halted && status == Stopped
                && MovesNow() == old(MovesNow()) && app == old(app) && reports == old(reports)
                && record == old(record) && holdsRecord == old(holdsRecord)
                && around.backlog == old(around.backlog) && buffer.Queue() == old(buffer.Queue())
                && around.lastPolicy == DiscardPolicy.Halt
                && around.sent == old(around.sent) && around.stored == old(around.stored)
                && around.asked == old(around.asked) && around.kinds == old(around.kinds) && TableLeftAlone()
                && around.calls == old(around.calls).(questions := old(around.calls).questions + 1)
      ensures HaltsRaised() == old(HaltsRaised()) + if halted && !stood then 1 else 0
      ensures !halted ==> |around.calls.readouts| == |old(around.calls).readouts| + if holdsRecord then 0 else 1
      ensures status == Stopped <==> halted
      ensures status == Blocked <==> !halted && (holdsRecord || (StoreBlocked() && app.accepted == old(app.accepted)))
      ensures status == Ready <==>
              !halted && status != Blocked && (app.accepted != old(app.accepted) || UnsentSaid() || ReportWaits())
      ensures status == Idle ==> AllQuiet() && (hasSlot ==> FoundEmpty())
      ensures around.obliging && hasSlot ==>
                && !halted && (status == Idle ==> Load() == 0)
                && (Load() < old(Load()) || (Load() == 0 == old(Load()) && status == Idle))
    {
      hide DropsTold, buffer.Valid, HandedOn, NoneLarger, PendingCount, Traced, Accounted;
      StaysOnward();
      ResumeIfPolicyChanged();
      stood := halted;
      if !halted {
        status := ProcessMessages();
      } else {
        status := Stopped;
      }
    }

    /** Among obliging surroundings Service comes to rest in no more passes than there were records and events
        on their way, and one. */
    method ServiceUntilIdle() returns (passes: nat)
      requires Valid() && around.obliging && hasSlot
      modifies this, buffer, buffer.ring, around
      ensures Valid() && AllQuiet() && passes <= old(Load()) + 1
      ensures buffer.Queue() == [] && around.backlog == [] && !holdsRecord
    {
      hide DropsTold, buffer.Valid, Accounted, Traced, Linked, HandedOn, NoneLarger, PendingCount;
      var status, stood := Service();
      passes := 1;
      while status != Idle
        invariant Valid()
        invariant status != Idle ==> passes + Load() <= old(Load())
        invariant status == Idle ==> AllQuiet() && Load() == 0 && passes <= old(Load()) + 1
        decreases Load(), status != Idle
      {
        status, stood := Service();
        passes := passes + 1;
      }
    }

    /** Past a store without retention: records sent, the one held and those in the buffer make up, in that
        order, all the buffer accepted except what it evicted and what was dropped with a report. */
    lemma SentThenHeldThenBuffered()
      requires Valid() && around.neverKeeps
      ensures AllFates(app.settled, {J.Delivered, J.Dropped})
      ensures var entered := J.Survivors(buffer.journal, |buffer.journal.accepted|);
              var whole := J.Journal(entered, app.settled, app.waiting + buffer.Queue());
              && whole.Balanced()
              && J.Survivors(whole, |entered|) ==
                 J.WithFate(app.settled, J.Delivered) + (if holdsRecord && !heldRecordIsReport then [record] else []) +
                 buffer.Queue()
    {
      J.InLine(buffer.journal, app);
    }

    // What the ledgers say while the store keeps records.
    lemma KeptInLedger()
      requires Valid() && !around.keepsNothing
      ensures buffer.journal.Balanced() && buffer.journal.waiting == buffer.Queue()
      ensures app.Balanced() && app.accepted == J.WithFate(buffer.journal.settled, J.Delivered)
      ensures app.waiting == if holdsRecord && !heldRecordIsReport then [record] else []
      ensures NoneDelivered(app.settled) && AppsOf(sentLog) == []
      ensures AppsOf(keptLog) == J.WithFate(app.settled, J.Stored)
      ensures around.stored == BytesOf(keptLog, render) && around.sent == BytesOf(sentLog, render)
      ensures StoredOf(sentLog) == around.asked
    {
      hide DropsTold, buffer.Sound, BytesOf, AppsOf, ReportsOf, StoredOf, around.Valid, Still, NoneLarger;
      NoneOfFate(app.settled);
    }

    /** Each event ever taken from the table is in one place: held as its own report, or kept by the store or
        accepted by the sender as that report; none is dropped, and none was reported that was not taken. */
    lemma EventInOnePlace()
      requires Valid()
      ensures around.taken == J.Items(reports.settled) + if holdsRecord && heldRecordIsReport then [heldEvent] else []
      ensures holdsRecord && heldRecordIsReport ==> record == render(heldEvent)
      ensures AllFates(reports.settled, {J.Stored, J.Delivered})
      ensures ReportsOf(keptLog) == J.WithFate(reports.settled, J.Stored) && around.stored == BytesOf(keptLog, render)
      ensures ReportsOf(sentLog) == J.WithFate(reports.settled, J.Delivered) && around.sent == BytesOf(sentLog, render)
    {
      hide Linked, DropsTold, BytesOf, ReportsOf, AppsOf, StoredOf;
    }

    /** Every run of records dropped one after another has raised one event, and no other has. */
    lemma DropsReported()
      requires Valid()
      ensures Count(around.kinds, BUFFER_RECORDS_LOST) == DropRuns(app.settled)
      ensures forall i :: 0 <= i < |app.settled| && app.settled[i].fate == J.Dropped ==>
                Count(around.kinds, BUFFER_RECORDS_LOST) > 0
    {
      hide Linked, Accounted, Traced, Count;
      forall i | 0 <= i < |app.settled| && app.settled[i].fate == J.Dropped
        ensures DropRuns(app.settled) > 0
      {
        SomeDropRun(app.settled, i);
      }
    }
  }
}
