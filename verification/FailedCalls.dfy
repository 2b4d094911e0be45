/** What a device call that fails may make of a run of blocks: it says nothing of the one block it was for, which
    may be gone, or there with any bytes. */
module FailedCalls {
  import opened BlockDevice
  import opened SequenceSpace
  import opened SequenceModel
  import opened StoreJournal

  // The media holds the run, or, where the run is empty, no block.
  ghost predicate Remains(media: Media, order: seq<nat>, modulus: nat) {
    if order == [] then forall s :: 0 <= s < modulus ==> s !in media else HoldsRun(media, order, modulus)
  }

  // Longer than the run was by so many blocks at most, and without holes if that had none.
  ghost predicate Within(order: seq<nat>, start: State, more: nat)
    requires start.Core()
  {
    order != [] ==>
      && Ordered(order, start.modulus) && Span(order, start.modulus) <= Span(start.order, start.modulus) + more
      && (Contiguous(start.order, start.modulus) ==> Contiguous(order, start.modulus))
  }

  ghost predicate Leaves(media: Media, start: State, more: nat)
    requires start.Core()
  {
    exists order: seq<nat> :: Remains(media, order, start.modulus) && Within(order, start, more)
  }

  // With or without its newest block.
  lemma AtWrite(s: State, media: Media)
    requires s.Core() && Disturbed(s.blocks, media, s.write)
    ensures Leaves(media, s, 0)
  {
    hide Ordered, Contiguous, Span, State.Core, Within;
    s.Basics();
    DisturbedElsewhere(s.blocks, media, s.write);
    if s.write in media {
      Holding(s, media);
    } else {
      var n := |s.order| - 1;
      OrderedDistinct(s.order, s.modulus);
      forall k | 0 <= k < s.modulus
        ensures k in media <==> k in s.order[..n]
      {
        assert k in s.order <==> k in s.order[..n] || k == s.order[n];
      }
      InitWithin(s);
      assert Remains(media, s.order[..n], s.modulus);
    }
  }

  lemma InitWithin(s: State)
    requires s.Core()
    ensures var init := s.order[..|s.order| - 1];
            Within(init, s, 0) && (init != [] ==> Ordered(init, s.modulus))
  {
    OrderedInit(s.order, s.modulus);
  }

  // With or without its oldest block.
  lemma AtRead(s: State, media: Media)
    requires s.Core() && Disturbed(s.blocks, media, s.read)
    ensures Leaves(media, s, 0)
  {
    hide Ordered, Contiguous, Span, State.Core, Within;
    s.Basics();
    DisturbedElsewhere(s.blocks, media, s.read);
    if s.read in media {
      Holding(s, media);
    } else {
      OrderedDistinct(s.order, s.modulus);
      forall k | 0 <= k < s.modulus
        ensures k in media <==> k in s.order[1..]
      {
        assert k in s.order <==> k == s.order[0] || k in s.order[1..];
      }
      TailWithin(s);
      assert Remains(media, s.order[1..], s.modulus);
    }
  }

  lemma TailWithin(s: State)
    requires s.Core()
    ensures Within(s.order[1..], s, 0) && (s.order[1..] != [] ==> Ordered(s.order[1..], s.modulus))
  {
    if |s.order| > 1 {
      OrderedTail(s.order, s.modulus);
    }
  }

  // With or without the block it was to go on to.
  lemma AtNext(s: State, media: Media)
    requires s.Core() && Span(s.order, s.modulus) < s.modulus && Disturbed(s.blocks, media, Next(s.write, s.modulus))
    ensures Leaves(media, s, 1)
  {
    hide Ordered, Contiguous, Span;
    var next := Next(s.write, s.modulus);
    s.Basics();
    s.RotatedCore();
    DisturbedElsewhere(s.blocks, media, next);
    if next in media {
      var order := s.order + [next];
      assert Remains(media, order, s.modulus) && Within(order, s, 1);
    } else {
      assert Remains(media, s.order, s.modulus) && Within(s.order, s, 1);
    }
  }

  lemma DisturbedElsewhere(before: Media, after: Media, i: nat)
    requires Disturbed(before, after, i)
    ensures forall s :: s != i ==> (s in after <==> s in before)
  {
    forall s | s != i
      ensures s in after <==> s in before
    {
      assert s in after <==> s in after - {i};
      assert s in before <==> s in before - {i};
    }
  }

  // The same blocks, whatever is in them.
  lemma Holding(s: State, media: Media)
    requires s.Core() && forall k :: 0 <= k < s.modulus ==> (k in media <==> k in s.blocks)
    ensures Leaves(media, s, 0)
  {
    hide Ordered, Contiguous, Span;
    s.Basics();
    assert Remains(media, s.order, s.modulus) && Within(s.order, s, 0);
  }

  lemma OrderedInit(order: seq<nat>, modulus: nat)
    requires Ordered(order, modulus)
    ensures var init := order[..|order| - 1];
            init != [] ==>
              && Ordered(init, modulus) && Span(init, modulus) <= Span(order, modulus)
              && (Contiguous(order, modulus) ==> Contiguous(init, modulus))
  {
  }

  /** A call that fails in a rotation leaves the run at most one block longer, as one that fails to evict does. */
  lemma FailedRotation(s: State, media: Media)
    requires s.Inv() && s.RotationFails(media)
    ensures FailureLeaves(media, s)
  {
    hide State.Core, Ordered, Contiguous, Span, Leaves, State.Settled, State.Rotated;
    s.RotatedCore();
    s.RotatedSame();
    s.RotatedSettledCore();
    var t := s.Rotated();
    if Disturbed(s.blocks, media, Next(s.write, s.modulus)) {
      AtNext(s, media);
    } else if media == t.blocks || Disturbed(t.blocks, media, s.read) {
      ReadStays(s);
      AtRead(t, media);
      LeavesFrom(s, t, media, 0);
    } else {
      AtRead(t.Settled(), media);
      LeavesFrom(s, t.Settled(), media, 0);
    }
  }

  lemma ReadStays(s: State)
    requires s.Core()
    ensures s.Rotated().read == s.read
  {
  }

  // A run no more than one block longer, a call having failed in an operation that began at a state.
  ghost predicate FailureLeaves(media: Media, start: State) {
    start.Core() && Leaves(media, start, 1)
  }

  lemma LeavesFrom(start: State, s: State, media: Media, more: nat)
    requires start.Core() && s.Core() && s.modulus == start.modulus && Leaves(media, s, more)
    requires Span(s.order, s.modulus) + more <= Span(start.order, start.modulus) + 1
    requires Contiguous(start.order, start.modulus) ==> Contiguous(s.order, s.modulus)
    ensures FailureLeaves(media, start)
  {
    var order: seq<nat> :| Remains(media, order, s.modulus) && Within(order, s, more);
    assert Within(order, start, 1);
  }
}
