/** What the store raises, a freeze apart: one report to a run of losses of a kind. */
module StoreReports {
  import opened StoreOutcome

  datatype Report = RefusedReport | EvictedReport | SealFailedReport | RejectedReport | CorruptReport

  datatype Latches = Latches(refusal: bool, eviction: bool, sealFailure: bool)

  // A write that was not frozen, by its result and whether the last rotation evicted.
  datatype Write = Write(result: WriteResult, evicted: bool)

  // Keeping a record clears two latches; the third is cleared by a rotation without eviction.
  function Latch(l: Latches, w: Write): (Latches, seq<Report>) {
    var evictions := if w.evicted && !l.eviction then [EvictedReport] else [];
    match w.result
    case NotRetained => (l.(refusal := true), if l.refusal then [] else [RefusedReport])
    case Kept => (Latches(false, w.evicted, false), evictions)
    case Lost => (Latches(l.refusal, w.evicted, true), evictions + if l.sealFailure then [] else [SealFailedReport])
  }

  function After(history: seq<Write>): Latches {
    if history == [] then Latches(false, false, false)
    else Latch(After(history[..|history| - 1]), history[|history| - 1]).0
  }

  function RaisedAt(history: seq<Write>, i: nat): seq<Report>
    requires i < |history|
  {
    Latch(After(history[..i]), history[i]).1
  }

  // What a run of writes raised, in order.
  function RaisedBy(history: seq<Write>): seq<Report> {
    if history == [] then []
    else RaisedBy(history[..|history| - 1]) + RaisedAt(history, |history| - 1)
  }

  // One operation of a store: a write, or a read that may report losses of its own.
  datatype Turn = Wrote(w: Write) | Read(losses: seq<Report>)

  predicate IsLoss(r: Report) {
    r == RejectedReport || r == CorruptReport
  }

  // What an operation does to the latches and to what was raised.
  ghost predicate Turned(latches: Latches, raised: seq<Report>, turn: Turn, latches': Latches, raised': seq<Report>) {
    match turn
    case Wrote(w) => latches' == Latch(latches, w).0 && raised' == raised + Latch(latches, w).1
    case Read(losses) => latches' == latches && raised' == raised + losses && forall r :: r in losses ==> IsLoss(r)
  }

  function Writes(turns: seq<Turn>): seq<Write> {
    if turns == [] then []
    else
      var last := turns[|turns| - 1];
      Writes(turns[..|turns| - 1]) + if last.Wrote? then [last.w] else []
  }

  // The reports that are of writes.
  function OfWrites(reports: seq<Report>): seq<Report> {
    if reports == [] then []
    else
      var last := reports[|reports| - 1];
      OfWrites(reports[..|reports| - 1]) + if IsLoss(last) then [] else [last]
  }

  lemma {:induction false} OfWritesConcat(a: seq<Report>, b: seq<Report>)
    ensures OfWrites(a + b) == OfWrites(a) + OfWrites(b)
  {
    if b == [] {
      assert a + b == a;
    } else {
      var n := |b| - 1;
      assert (a + b)[..|a| + n] == a + b[..n];
      OfWritesConcat(a, b[..n]);
    }
  }

  lemma {:induction false} NoneOfWrites(losses: seq<Report>)
    requires forall r :: r in losses ==> IsLoss(r)
    ensures OfWrites(losses) == []
  {
    if losses != [] {
      var n := |losses| - 1;
      assert losses[n] in losses && forall r :: r in losses[..n] ==> r in losses;
      NoneOfWrites(losses[..n]);
    }
  }

  lemma {:induction false} AllOfWrites(raised: seq<Report>)
    requires forall r :: r in raised ==> !IsLoss(r)
    ensures OfWrites(raised) == raised
  {
    if raised != [] {
      var n := |raised| - 1;
      assert raised[n] in raised && raised == raised[..n] + [raised[n]];
      assert forall r :: r in raised[..n] ==> r in raised;
      AllOfWrites(raised[..n]);
    }
  }

  lemma HistoryGrows(history: seq<Write>, w: Write)
    ensures After(history + [w]) == Latch(After(history), w).0
    ensures RaisedBy(history + [w]) == RaisedBy(history) + Latch(After(history), w).1
  {
    assert (history + [w])[..|history|] == history;
  }

  /** Over any run of a store's operations, the latches are those its writes leave, and of what was raised the
      reports of writes are those its writes raise, in order. */
  lemma {:induction false} RunOfTurns(latches: seq<Latches>, raised: seq<seq<Report>>, turns: seq<Turn>)
    requires |latches| == |raised| == |turns| + 1 && latches[0] == Latches(false, false, false) && raised[0] == []
    requires forall i :: 0 <= i < |turns| ==> Turned(latches[i], raised[i], turns[i], latches[i + 1], raised[i + 1])
    ensures latches[|turns|] == After(Writes(turns))
    ensures OfWrites(raised[|turns|]) == RaisedBy(Writes(turns))
    decreases |turns|
  {
    hide Latch, After, RaisedBy;
    var n := |turns| - 1;
    if n < 0 {
      assert turns == [] && raised[|turns|] == [];
      NothingWritten();
    } else {
      RunOfTurns(latches[..n + 1], raised[..n + 1], turns[..n]);
      assert Turned(latches[n], raised[n], turns[n], latches[n + 1], raised[n + 1]);
      match turns[n]
      case Wrote(w) =>
        HistoryGrows(Writes(turns[..n]), w);
        OfWritesConcat(raised[n], Latch(latches[n], w).1);
        LatchRaisesNoLoss(latches[n], w);
        AllOfWrites(Latch(latches[n], w).1);
      case Read(losses) =>
        OfWritesConcat(raised[n], losses);
        NoneOfWrites(losses);
        assert Writes(turns) == Writes(turns[..n]) + [] == Writes(turns[..n]);
    }
  }

  lemma NothingWritten()
    ensures After([]) == Latches(false, false, false) && RaisedBy([]) == []
  {
  }

  lemma LatchRaisesNoLoss(l: Latches, w: Write)
    ensures forall r :: r in Latch(l, w).1 ==> !IsLoss(r)
  {
  }

  // Some write of this result came before i with none kept since.
  ghost predicate InRun(history: seq<Write>, i: nat, result: WriteResult)
    requires i <= |history|
  {
    exists j :: 0 <= j < i && history[j].result == result && NoneKept(history, j, i)
  }

  ghost predicate NoneKept(history: seq<Write>, j: nat, i: nat)
    requires i <= |history|
  {
    forall k :: j <= k < i ==> history[k].result != Kept
  }

  // The last write that made room evicted.
  predicate LastEvicted(history: seq<Write>) {
    history != [] &&
    var last := history[|history| - 1];
    if last.result == NotRetained then LastEvicted(history[..|history| - 1]) else last.evicted
  }

  lemma {:induction false} LatchesRemember(history: seq<Write>)
    ensures After(history).refusal <==> InRun(history, |history|, NotRetained)
    ensures After(history).sealFailure <==> InRun(history, |history|, Lost)
    ensures After(history).eviction <==> LastEvicted(history)
    decreases |history|
  {
    if history != [] {
      var n := |history| - 1;
      var before := history[..n];
      LatchesRemember(before);
      RunGrows(history, NotRetained);
      RunGrows(history, Lost);
    }
  }

  lemma RunGrows(history: seq<Write>, result: WriteResult)
    requires history != [] && result != Kept
    ensures var n := |history| - 1;
            InRun(history, n + 1, result) <==>
            history[n].result != Kept && (history[n].result == result || InRun(history[..n], n, result))
  {
    var n := |history| - 1;
    var before := history[..n];
    if InRun(before, n, result) && history[n].result != Kept {
      var j :| 0 <= j < n && before[j].result == result && NoneKept(before, j, n);
      assert NoneKept(history, j, n + 1);
    }
    if history[n].result == result {
      assert NoneKept(history, n, n + 1);
    }
    if InRun(history, n + 1, result) {
      var j :| 0 <= j < n + 1 && history[j].result == result && NoneKept(history, j, n + 1);
      assert j < n ==> NoneKept(before, j, n);
    }
  }

  /** Over every run of writes, a refusal or a seal failure is reported exactly when none of its kind came since
      the last record kept, and an eviction exactly when the write that made room before it evicted nothing. */
  lemma ReportedOncePerRun(history: seq<Write>, i: nat)
    requires i < |history|
    ensures RefusedReport in RaisedAt(history, i) <==>
            history[i].result == NotRetained && !InRun(history[..i], i, NotRetained)
    ensures SealFailedReport in RaisedAt(history, i) <==>
            history[i].result == Lost && !InRun(history[..i], i, Lost)
    ensures EvictedReport in RaisedAt(history, i) <==>
            history[i].result != NotRetained && history[i].evicted && !LastEvicted(history[..i])
  {
    LatchesRemember(history[..i]);
  }
}
