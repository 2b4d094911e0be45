/** A record's way out through a store that keeps records: the ring, the slot and the block store in line. */
module Delivery {
  import opened Bytes
  import opened Surroundings
  import opened Service
  import opened StoreSeen
  import J = Journal

  // Which of the records a store has accepted are the buffer's: none it had found, and of those it was given since,
  // the ones that were no reports.
  function OfBuffer(found: nat, log: seq<Origin>): (picks: seq<bool>)
    ensures |picks| == found + |log|
  {
    seq(found, i => false) + seq(|log|, i requires 0 <= i < |log| => log[i].FromApp?)
  }

  lemma {:induction false} AppsArePicked(log: seq<Origin>, render: Event -> Record)
    ensures J.Picked(BytesOf(log, render), seq(|log|, i requires 0 <= i < |log| => log[i].FromApp?)) == AppsOf(log)
  {
    if log != [] {
      var n := |log| - 1;
      AppsArePicked(log[..n], render);
      assert BytesOf(log, render)[..n] == BytesOf(log[..n], render);
      assert seq(|log|, i requires 0 <= i < |log| => log[i].FromApp?)[..n] ==
             seq(n, i requires 0 <= i < n => log[..n][i].FromApp?);
    }
  }

  lemma BufferPicked(found: seq<Record>, log: seq<Origin>, render: Event -> Record)
    ensures J.Picked(found + BytesOf(log, render), OfBuffer(|found|, log)) == AppsOf(log)
  {
    var none := seq(|found|, i => false);
    var apps := seq(|log|, i requires 0 <= i < |log| => log[i].FromApp?);
    J.PickedConcat(found, BytesOf(log, render), none, apps);
    J.NonePicked(found, none);
    AppsArePicked(log, render);
  }

  /** Three queues in line: what the store delivered of the buffer's records, then those waiting in it, the one held
      and those in the ring are, in this order, what the ring accepted, less what it evicted, what was dropped or
      refused on the way to the store, and what the store lost. */
  lemma InOrder(ring: J.Journal<Record>, app: J.Journal<Record>, kept: J.Journal<Record>)
    requires ring.Balanced() && app.Balanced() && kept.Balanced()
    requires app.accepted == J.WithFate(ring.settled, J.Delivered)
    requires forall i :: 0 <= i < |app.settled| ==> app.settled[i].fate != J.Delivered
    requires kept.accepted == J.WithFate(app.settled, J.Stored)
    ensures var entered := J.Survivors(ring, |ring.accepted|);
            var taken := J.Journal(entered, J.HandedDown(app.settled, J.Stored), app.waiting + ring.waiting);
            && taken.Balanced()
            && var passed := J.Survivors(taken, |entered|);
               var whole := J.Journal(passed, kept.settled, kept.waiting + taken.waiting);
               && whole.Balanced()
               && J.Survivors(whole, |passed|) ==
                  J.WithFate(kept.settled, J.Delivered) + kept.waiting + app.waiting + ring.waiting
  {
    J.InLine(ring, app);
    J.HandedDownWithFate(app.settled, J.Stored);
    var entered := J.Survivors(ring, |ring.accepted|);
    var taken := J.Journal(entered, J.HandedDown(app.settled, J.Stored), app.waiting + ring.waiting);
    J.InLine(taken, kept);
    assert J.WithFate(kept.settled, J.Delivered) + kept.waiting + (app.waiting + ring.waiting) ==
           J.WithFate(kept.settled, J.Delivered) + kept.waiting + app.waiting + ring.waiting;
  }

  /** First in, first out, all the way. */
  lemma LogToSender(logger: Logger, seen: StoreSeen)
    requires logger.Valid() && seen.Valid() && !logger.around.keepsNothing
    requires logger.around.stored == seen.stored && logger.around.asked == seen.asked
    requires seen.capacity == logger.recordCapacity
    ensures seen.store.journal.Balanced() && |seen.store.journal.accepted| == |seen.found| + |logger.keptLog|
    ensures var ring, app := logger.buffer.journal, logger.app;
            var kept := J.Part(seen.store.journal, OfBuffer(|seen.found|, logger.keptLog));
            var entered := J.Survivors(ring, |ring.accepted|);
            var taken := J.Journal(entered, J.HandedDown(app.settled, J.Stored), app.waiting + ring.waiting);
            && kept.Balanced() && taken.Balanced()
            && var passed := J.Survivors(taken, |entered|);
               var whole := J.Journal(passed, kept.settled, kept.waiting + taken.waiting);
               && whole.Balanced()
               && J.Survivors(whole, |passed|) ==
                  J.WithFate(kept.settled, J.Delivered) + kept.waiting +
                  (if logger.holdsRecord && !logger.heldRecordIsReport then [logger.record] else []) +
                  logger.buffer.Queue()
    ensures logger.around.sent == BytesOf(logger.sentLog, logger.render) && AppsOf(logger.sentLog) == []
    ensures var delivered := J.WithFate(seen.store.journal.settled, J.Delivered);
            && StoredOf(logger.sentLog) == Copies(delivered, logger.recordCapacity)
            && ((forall i :: 0 <= i < |delivered| ==> |delivered[i]| <= logger.recordCapacity) ==>
                  StoredOf(logger.sentLog) == delivered)
  {
    hide Logger.Valid, StoreSeen.Valid, BytesOf, AppsOf, StoredOf, J.Picked, J.WithFate;
    logger.KeptInLedger();
    seen.StoreTallied();
    BufferPicked(seen.found, logger.keptLog, logger.render);
    var picks := OfBuffer(|seen.found|, logger.keptLog);
    J.PartBalanced(seen.store.journal, picks);
    InOrder(logger.buffer.journal, logger.app, J.Part(seen.store.journal, picks));
  }
}
