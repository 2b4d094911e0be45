/** First-in first-out accounting: every item a queue has accepted is either still waiting,
    in order, or settled with exactly one fate. */
module Journal {

  datatype Fate = Delivered | Stored | Rejected | Evicted | Dropped

  datatype Settled<T> = Settled(item: T, fate: Fate)

  datatype Journal<T> = Journal(accepted: seq<T>, settled: seq<Settled<T>>, waiting: seq<T>) {

    // Nothing reordered, duplicated, invented or forgotten.
    ghost predicate Balanced() {
      accepted == Items(settled) + waiting
    }

    function Accept(x: T): Journal<T> {
      Journal(accepted + [x], settled, waiting + [x])
    }

    // The oldest k waiting items meet one fate.
    function Settle(k: nat, fate: Fate): Journal<T>
      requires k <= |waiting|
    {
      Journal(accepted, settled + With(waiting[..k], fate), waiting[k..])
    }

    lemma AcceptKeepsBalance(x: T)
      requires Balanced()
      ensures Accept(x).Balanced()
    {
      assert Items(settled) + (waiting + [x]) == Items(settled) + waiting + [x];
    }

    lemma SettleKeepsBalance(k: nat, fate: Fate)
      requires Balanced() && k <= |waiting|
      ensures Settle(k, fate).Balanced()
    {
      ItemsConcat(settled, With(waiting[..k], fate));
      ItemsOfWith(waiting[..k], fate);
      assert waiting[..k] + waiting[k..] == waiting;
    }
  }

  function Items<T>(s: seq<Settled<T>>): (r: seq<T>)
    ensures |r| == |s|
  {
    seq(|s|, i requires 0 <= i < |s| => s[i].item)
  }

  function With<T>(items: seq<T>, fate: Fate): (r: seq<Settled<T>>)
    ensures |r| == |items|
  {
    seq(|items|, i requires 0 <= i < |items| => Settled(items[i], fate))
  }

  lemma ItemsConcat<T>(a: seq<Settled<T>>, b: seq<Settled<T>>)
    ensures Items(a + b) == Items(a) + Items(b)
  {
  }

  lemma ItemsOfWith<T>(items: seq<T>, fate: Fate)
    ensures Items(With(items, fate)) == items
  {
  }

  // The items settled with one fate, in order.
  function WithFate<T>(s: seq<Settled<T>>, fate: Fate): seq<T> {
    if s == [] then []
    else WithFate(s[..|s| - 1], fate) + if s[|s| - 1].fate == fate then [s[|s| - 1].item] else []
  }

  lemma {:induction false} WithFateConcat<T>(a: seq<Settled<T>>, b: seq<Settled<T>>, fate: Fate)
    ensures WithFate(a + b, fate) == WithFate(a, fate) + WithFate(b, fate)
  {
    if b == [] {
      assert a + b == a;
    } else {
      assert (a + b)[..|a + b| - 1] == a + b[..|b| - 1];
      WithFateConcat(a, b[..|b| - 1], fate);
    }
  }

  lemma {:induction false} WithFateOfWith<T>(items: seq<T>, given: Fate, asked: Fate)
    ensures WithFate(With(items, given), asked) == if given == asked then items else []
  {
    if items != [] {
      var n := |items| - 1;
      WithFateOfWith(items[..n], given, asked);
      assert With(items, given)[..n] == With(items[..n], given);
      assert items[..n] + [items[n]] == items;
    }
  }

  lemma WithOtherFate<T>(settled: seq<Settled<T>>, items: seq<T>, given: Fate, asked: Fate)
    requires given != asked
    ensures WithFate(settled + With(items, given), asked) == WithFate(settled, asked)
  {
    WithFateConcat(settled, With(items, given), asked);
    WithFateOfWith(items, given, asked);
  }

  // The accepted items that were not lost: those delivered and those still waiting.
  function Survivors<T>(j: Journal<T>, upTo: nat): seq<T>
    requires upTo <= |j.accepted|
  {
    if upTo == 0 then []
    else
      Survivors(j, upTo - 1) +
      if upTo - 1 < |j.settled| && j.settled[upTo - 1].fate != Delivered then [] else [j.accepted[upTo - 1]]
  }

  /** What was delivered, followed by what still waits, is what was accepted, in order, less what was lost. */
  lemma {:induction false} DeliveredThenWaiting<T>(j: Journal<T>, upTo: nat)
    requires j.Balanced() && upTo <= |j.accepted|
    ensures upTo <= |j.settled| ==> Survivors(j, upTo) == WithFate(j.settled[..upTo], Delivered)
    ensures |j.settled| <= upTo ==>
            Survivors(j, upTo) == WithFate(j.settled, Delivered) + j.waiting[..upTo - |j.settled|]
  {
    var n := |j.settled|;
    if upTo == 0 {
      assert j.settled[..0] == [];
    } else {
      DeliveredThenWaiting(j, upTo - 1);
      if upTo <= n {
        assert j.settled[..upTo][..upTo - 1] == j.settled[..upTo - 1];
        assert j.accepted[upTo - 1] == Items(j.settled)[upTo - 1];
        assert j.settled[..n] == j.settled;
      } else {
        assert j.settled[..n] == j.settled;
        assert j.accepted[upTo - 1] == j.waiting[upTo - 1 - n];
        assert j.waiting[..upTo - n] == j.waiting[..upTo - 1 - n] + [j.waiting[upTo - 1 - n]];
      }
    }
  }

  // One journal follows another: more may be accepted, more settled, nothing rewritten.
  ghost predicate Follows<T>(later: Journal<T>, earlier: Journal<T>) {
    later.Balanced() && earlier.accepted <= later.accepted && earlier.settled <= later.settled
  }

  lemma {:induction false} FollowsRun<T>(run: seq<Journal<T>>)
    requires run != [] && run[0].Balanced()
    requires forall i :: 0 < i < |run| ==> Follows(run[i], run[i - 1])
    ensures Follows(run[|run| - 1], run[0])
  {
    if |run| > 1 {
      FollowsRun(run[..|run| - 1]);
    }
  }

  /** Two queues in line, everything the first delivers entering the second: what came out of the second, what
      waits in it, then what waits in the first is what the first accepted, in order, less what each lost. */
  lemma InLine<T>(first: Journal<T>, second: Journal<T>)
    requires first.Balanced() && second.Balanced()
    requires second.accepted == WithFate(first.settled, Delivered)
    ensures var entered := Survivors(first, |first.accepted|);
            var whole := Journal(entered, second.settled, second.waiting + first.waiting);
            && whole.Balanced()
            && Survivors(whole, |entered|) == WithFate(second.settled, Delivered) + second.waiting + first.waiting
  {
    var entered := Survivors(first, |first.accepted|);
    DeliveredThenWaiting(first, |first.accepted|);
    assert first.waiting[..|first.accepted| - |first.settled|] == first.waiting;
    var whole := Journal(entered, second.settled, second.waiting + first.waiting);
    assert Items(second.settled) + second.waiting + first.waiting ==
           Items(second.settled) + (second.waiting + first.waiting);
    DeliveredThenWaiting(whole, |entered|);
    assert whole.waiting[..|entered| - |whole.settled|] == whole.waiting;
  }

  // ----- Part of a queue -----

  function Picked<T>(items: seq<T>, picks: seq<bool>): seq<T>
    requires |items| == |picks|
  {
    if items == [] then []
    else
      var n := |items| - 1;
      Picked(items[..n], picks[..n]) + if picks[n] then [items[n]] else []
  }

  lemma {:induction false} PickedConcat<T>(a: seq<T>, b: seq<T>, p: seq<bool>, q: seq<bool>)
    requires |a| == |p| && |b| == |q|
    ensures Picked(a + b, p + q) == Picked(a, p) + Picked(b, q)
  {
    if b == [] {
      assert a + b == a && p + q == p;
    } else {
      var n := |b| - 1;
      assert (a + b)[..|a| + n] == a + b[..n] && (p + q)[..|a| + n] == p + q[..n];
      PickedConcat(a, b[..n], p, q[..n]);
    }
  }

  lemma {:induction false} PickedItems<T>(settled: seq<Settled<T>>, picks: seq<bool>)
    requires |settled| == |picks|
    ensures Items(Picked(settled, picks)) == Picked(Items(settled), picks)
  {
    if settled != [] {
      var n := |settled| - 1;
      PickedItems(settled[..n], picks[..n]);
      assert Items(settled)[..n] == Items(settled[..n]);
      ItemsConcat(Picked(settled[..n], picks[..n]), if picks[n] then [settled[n]] else []);
    }
  }

  lemma {:induction false} NonePicked<T>(items: seq<T>, picks: seq<bool>)
    requires |items| == |picks| && forall i :: 0 <= i < |picks| ==> !picks[i]
    ensures Picked(items, picks) == []
  {
    if items != [] {
      NonePicked(items[..|items| - 1], picks[..|items| - 1]);
    }
  }

  // A queue's accounts of some of its items.
  ghost function Part<T>(j: Journal<T>, picks: seq<bool>): Journal<T>
    requires j.Balanced() && |picks| == |j.accepted|
  {
    var n := |j.settled|;
    Journal(Picked(j.accepted, picks), Picked(j.settled, picks[..n]), Picked(j.waiting, picks[n..]))
  }

  lemma PartBalanced<T>(j: Journal<T>, picks: seq<bool>)
    requires j.Balanced() && |picks| == |j.accepted|
    ensures Part(j, picks).Balanced()
  {
    var n := |j.settled|;
    assert picks[..n] + picks[n..] == picks;
    PickedConcat(Items(j.settled), j.waiting, picks[..n], picks[n..]);
    PickedItems(j.settled, picks[..n]);
  }

  // The same accounts, with one fate read as delivery to what comes next.
  function HandedDown<T>(settled: seq<Settled<T>>, fate: Fate): (r: seq<Settled<T>>)
    ensures |r| == |settled|
  {
    seq(|settled|, i requires 0 <= i < |settled| =>
      if settled[i].fate == fate then Settled(settled[i].item, Delivered) else settled[i])
  }

  lemma {:induction false} HandedDownWithFate<T>(settled: seq<Settled<T>>, fate: Fate)
    requires forall i :: 0 <= i < |settled| ==> settled[i].fate != Delivered
    ensures Items(HandedDown(settled, fate)) == Items(settled)
    ensures WithFate(HandedDown(settled, fate), Delivered) == WithFate(settled, fate)
  {
    if settled != [] {
      var n := |settled| - 1;
      HandedDownWithFate(settled[..n], fate);
      assert HandedDown(settled, fate)[..n] == HandedDown(settled[..n], fate);
    }
  }
}
