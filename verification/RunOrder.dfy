/** The blocks of a run in order, read off the presence map from its oldest. */
module RunOrder {
  import opened SequenceSpace
  import opened SequenceModel
  import opened GapWalk

  // A number is marked present exactly when its block is one of the run's.
  ghost predicate MapMatches(present: seq<bool>, order: seq<nat>) {
    forall s :: 0 <= s < |present| ==> (present[s] <==> s in order)
  }

  // The numbers present from place d up to place n, counted round from the oldest.
  function OrderFrom(present: seq<bool>, oldest: nat, d: nat, n: nat): seq<nat>
    requires oldest < |present| && d <= n <= |present|
    decreases n - d
  {
    if d == n then []
    else
      (if present[On(oldest, d, |present|)] then [On(oldest, d, |present|)] else []) +
      OrderFrom(present, oldest, d + 1, n)
  }

  // The number lies at a place of the window and is present.
  ghost predicate InWindow(present: seq<bool>, oldest: nat, d: nat, n: nat, s: nat)
    requires oldest < |present| && d <= n <= |present|
  {
    s < |present| && present[s] && d <= Dist(oldest, s, |present|) < n
  }

  lemma {:induction false} OrderFromHolds(present: seq<bool>, oldest: nat, d: nat, n: nat)
    requires oldest < |present| && d <= n <= |present|
    ensures forall s :: s in OrderFrom(present, oldest, d, n) <==> InWindow(present, oldest, d, n, s)
    decreases n - d
  {
    if d < n {
      OrderFromHolds(present, oldest, d + 1, n);
      var here, rest := On(oldest, d, |present|), OrderFrom(present, oldest, d + 1, n);
      var head := if present[here] then [here] else [];
      assert OrderFrom(present, oldest, d, n) == head + rest;
      forall s
        ensures s in head + rest <==> InWindow(present, oldest, d, n, s)
      {
        assert s in head + rest <==> s in head || s in rest;
        assert InWindow(present, oldest, d, n, s) <==>
               (present[here] && s == here) || InWindow(present, oldest, d + 1, n, s);
      }
    }
  }

  lemma {:induction false} OrderFromAscends(present: seq<bool>, oldest: nat, d: nat, n: nat, i: nat, j: nat)
    requires oldest < |present| && d <= n <= |present|
    requires i < j < |OrderFrom(present, oldest, d, n)|
    ensures var o := OrderFrom(present, oldest, d, n);
            o[i] < |present| && o[j] < |present| && Dist(oldest, o[i], |present|) < Dist(oldest, o[j], |present|)
    decreases n - d
  {
    hide On;
    OrderFromHolds(present, oldest, d, n);
    var o, rest := OrderFrom(present, oldest, d, n), OrderFrom(present, oldest, d + 1, n);
    assert o[i] in o && o[j] in o;
    if present[On(oldest, d, |present|)] {
      OrderFromHolds(present, oldest, d + 1, n);
      if i == 0 {
        assert o[j] == rest[j - 1] && rest[j - 1] in rest;
      } else {
        OrderFromAscends(present, oldest, d + 1, n, i - 1, j - 1);
      }
    } else {
      OrderFromAscends(present, oldest, d + 1, n, i, j);
    }
  }

  // Between its ends, both present, the map reads off as the run's order.
  lemma OrderOfRun(present: seq<bool>, oldest: nat, n: nat)
    requires oldest < |present| && 0 < n <= |present|
    requires present[oldest] && present[On(oldest, n - 1, |present|)]
    requires forall d :: n <= d < |present| ==> !present[On(oldest, d, |present|)]
    ensures var o := OrderFrom(present, oldest, 0, n);
            && Ordered(o, |present|) && o[0] == oldest && o[|o| - 1] == On(oldest, n - 1, |present|)
            && Span(o, |present|) == n
            && forall s :: 0 <= s < |present| ==> (present[s] <==> s in o)
  {
    OrderStarts(present, oldest, n);
    NewestLast(present, oldest, n);
    OrderFromHolds(present, oldest, 0, n);
    forall s | 0 <= s < |present|
      ensures present[s] <==> s in OrderFrom(present, oldest, 0, n)
    {
      assert On(oldest, Dist(oldest, s, |present|), |present|) == s;
    }
  }

  lemma OrderStarts(present: seq<bool>, oldest: nat, n: nat)
    requires oldest < |present| && 0 < n <= |present| && present[oldest]
    ensures var o := OrderFrom(present, oldest, 0, n);
            Ordered(o, |present|) && o[0] == oldest
  {
    var o := OrderFrom(present, oldest, 0, n);
    OrderFromHolds(present, oldest, 0, n);
    assert On(oldest, 0, |present|) == oldest;
    assert o[0] == oldest;
    assert forall i :: 0 <= i < |o| ==> o[i] in o;
    forall i, j | 0 <= i < j < |o|
      ensures o[i] < |present| && o[j] < |present| && Dist(o[0], o[i], |present|) < Dist(o[0], o[j], |present|)
    {
      OrderFromAscends(present, oldest, 0, n, i, j);
    }
  }

  lemma NewestLast(present: seq<bool>, oldest: nat, n: nat)
    requires oldest < |present| && 0 < n <= |present|
    requires present[On(oldest, n - 1, |present|)]
    ensures var o := OrderFrom(present, oldest, 0, n);
            o != [] && o[|o| - 1] == On(oldest, n - 1, |present|)
  {
    var o, newest := OrderFrom(present, oldest, 0, n), On(oldest, n - 1, |present|);
    OrderFromHolds(present, oldest, 0, n);
    assert newest in o;
    assert o[|o| - 1] in o;
    var i :| 0 <= i < |o| && o[i] == newest;
    if i < |o| - 1 {
      OrderFromAscends(present, oldest, 0, n, i, |o| - 1);
    }
  }

  // What the walk locates is a run that takes in every block present.
  lemma LocatedIsRun(present: seq<bool>, from: nat, a: nat, b: nat, oldest: nat, newest: nat)
    requires from < |present| && present[from] && Located(present, from, a, b, oldest, newest)
    ensures oldest < |present| && 0 < b - a < |present|
    ensures IsRun(present, oldest, |present| - (b - a)) && newest == On(oldest, |present| - (b - a) - 1, |present|)
  {
    var m, n, p := |present|, |present| - (b - a), Round(present, from);
    assert p[0] && p[m];
    assert !Hole(p, a - 1, b) && !Hole(p, a, b + 1);
    assert p[a - 1] && p[b];
    forall d | n <= d < m
      ensures !present[On(oldest, d, m)]
    {
      assert !p[d + b - m];
    }
  }

  lemma LastIsFurthest(order: seq<nat>, modulus: nat, s: nat)
    requires Ordered(order, modulus) && s in order
    ensures s < modulus && Dist(order[0], s, modulus) < Span(order, modulus)
  {
    var i :| 0 <= i < |order| && order[i] == s;
    assert i < |order| - 1 ==> Dist(order[0], order[i], modulus) < Dist(order[0], order[|order| - 1], modulus);
  }

  lemma LastsAgree(o: seq<nat>, p: seq<nat>, modulus: nat)
    requires Ordered(o, modulus) && Ordered(p, modulus) && o[0] == p[0]
    requires forall s :: s in o <==> s in p
    ensures o[|o| - 1] == p[|p| - 1]
  {
    var x, y := o[|o| - 1], p[|p| - 1];
    assert x in o && y in p;
    LastIsFurthest(o, modulus, y);
    LastIsFurthest(p, modulus, x);
    assert On(o[0], Dist(o[0], x, modulus), modulus) == x && On(o[0], Dist(o[0], y, modulus), modulus) == y;
  }

  lemma AllButLast(o: seq<nat>, modulus: nat)
    requires Ordered(o, modulus) && |o| > 1
    ensures Ordered(o[..|o| - 1], modulus) && o == o[..|o| - 1] + [o[|o| - 1]]
    ensures forall s :: s in o[..|o| - 1] <==> s in o && s != o[|o| - 1]
  {
    OrderedDistinct(o, modulus);
    forall s
      ensures s in o[..|o| - 1] <==> s in o && s != o[|o| - 1]
    {
      LastApart(o, s);
    }
  }

  lemma LastApart(o: seq<nat>, s: nat)
    requires o != [] && forall i, j :: 0 <= i < j < |o| ==> o[i] != o[j]
    ensures s in o[..|o| - 1] <==> s in o && s != o[|o| - 1]
  {
    assert o == o[..|o| - 1] + [o[|o| - 1]];
  }

  lemma OneAlone(o: seq<nat>, p: seq<nat>, modulus: nat)
    requires Ordered(o, modulus) && Ordered(p, modulus) && |o| == 1 && o[0] == p[0] == p[|p| - 1]
    ensures o == p
  {
    OrderedDistinct(p, modulus);
    assert |p| == 1;
  }

  // Two orders of the same numbers from the same first are one.
  lemma {:induction false} OrderUnique(o: seq<nat>, p: seq<nat>, modulus: nat)
    requires Ordered(o, modulus) && Ordered(p, modulus) && o[0] == p[0]
    requires forall s :: s in o <==> s in p
    ensures o == p
    decreases |o|
  {
    LastsAgree(o, p, modulus);
    if |o| == 1 {
      OneAlone(o, p, modulus);
    } else if |p| == 1 {
      OneAlone(p, o, modulus);
    } else {
      assert |o| > 1 && |p| > 1;
      hide Ordered;
      AllButLast(o, modulus);
      AllButLast(p, modulus);
      var o', p' := o[..|o| - 1], p[..|p| - 1];
      assert o'[0] == o[0] && p'[0] == p[0];
      forall s
        ensures s in o' <==> s in p'
      {
        assert s in o <==> s in p;
      }
      OrderUnique(o', p', modulus);
    }
  }

  // The highest number present, where the walk starts.
  ghost predicate LastPresent(present: seq<bool>, from: nat) {
    from < |present| && present[from] && forall s :: from < s < |present| ==> !present[s]
  }

  // A run taken up from a presence map: its order, and where the walk found its ends.
  ghost predicate TakenUp(present: seq<bool>, order: seq<nat>, first: nat, last: nat) {
    && Ordered(order, |present|) && MapMatches(present, order) && first == order[0] && last == order[|order| - 1]
    && (Span(order, |present|) < |present| <==> exists s :: 0 <= s < |present| && !present[s])
    && ((exists s :: 0 <= s < |present| && !present[s]) ==> WalkFound(present, first, last))
    && ((forall s :: 0 <= s < |present| ==> present[s]) ==> first == 0)
  }

  ghost predicate WalkFound(present: seq<bool>, first: nat, last: nat) {
    exists from: nat, a: nat, b: nat :: LastPresent(present, from) && Located(present, from, a, b, first, last)
  }

  lemma TakeUp(present: seq<bool>, from: nat, first: nat, last: nat) returns (order: seq<nat>)
    requires LastPresent(present, from)
    requires (forall s :: 0 <= s < |present| ==> present[s]) ==> first == 0 && last == |present| - 1
    requires (exists s :: 0 <= s < |present| && !present[s]) ==>
               exists a: nat, b: nat :: Located(present, from, a, b, first, last)
    ensures TakenUp(present, order, first, last)
  {
    if forall s :: 0 <= s < |present| ==> present[s] {
      OrderOfRun(present, 0, |present|);
      order := OrderFrom(present, 0, 0, |present|);
    } else {
      var a: nat, b: nat :| Located(present, from, a, b, first, last);
      order := TakeUpLocated(present, from, a, b, first, last);
    }
  }

  lemma TakeUpLocated(present: seq<bool>, from: nat, a: nat, b: nat, first: nat, last: nat) returns (order: seq<nat>)
    requires LastPresent(present, from) && Located(present, from, a, b, first, last)
    ensures TakenUp(present, order, first, last)
  {
    hide IsRun, Located;
    assert WalkFound(present, first, last);
    LocatedIsRun(present, from, a, b, first, last);
    assert !present[On(first, |present| - 1, |present|)];
    OrderOfRun(present, first, |present| - (b - a));
    order := OrderFrom(present, first, 0, |present| - (b - a));
  }

  // Nothing is present beyond a run's last block.
  lemma BeyondAbsent(o: seq<nat>, modulus: nat, d: nat)
    requires Ordered(o, modulus) && Span(o, modulus) <= d < modulus
    ensures On(o[0], d, modulus) !in o
  {
    var beyond := On(o[0], d, modulus);
    assert Dist(o[0], beyond, modulus) == d;
    forall i | 0 <= i < |o|
      ensures o[i] != beyond
    {
      assert i == |o| - 1 || Dist(o[0], o[i], modulus) < Dist(o[0], o[|o| - 1], modulus);
    }
  }

  lemma RunInMap(present: seq<bool>, left: seq<nat>)
    requires Ordered(left, |present|) && Span(left, |present|) < |present| && MapMatches(present, left)
    ensures IsRun(present, left[0], Span(left, |present|))
    ensures On(left[0], Span(left, |present|) - 1, |present|) == left[|left| - 1]
  {
    var m, n := |present|, Span(left, |present|);
    assert On(left[0], n - 1, m) == left[|left| - 1];
    assert left[0] in left && left[|left| - 1] in left;
    forall d | n <= d < m
      ensures !present[On(left[0], d, m)]
    {
      BeyondAbsent(left, m, d);
    }
  }

  /** A run shorter than the sequence space is taken up exactly as it was left if and only if none of its holes
      beats the numbers it leaves unused. */
  lemma TakenUpIffHolesYield(present: seq<bool>, left: seq<nat>, order: seq<nat>, first: nat, last: nat, from: nat)
    requires Ordered(left, |present|) && Span(left, |present|) < |present| && MapMatches(present, left)
    requires TakenUp(present, order, first, last) && LastPresent(present, from)
    ensures order == left <==> HolesYield(present, left[0], Span(left, |present|), from)
  {
    hide HolesYield, IsRun, Located;
    var m, n := |present|, Span(left, |present|);
    BeyondAbsent(left, m, n);
    assert !present[On(left[0], n, m)];
    RunInMap(present, left);
    var a: nat, b: nat :| Located(present, from, a, b, first, last);
    RunFoundIffHolesYield(present, left[0], n, from, a, b, first, last);
    if first == left[0] {
      SameNumbers(present, left, order);
      OrderUnique(order, left, m);
    }
  }

  lemma NoHolesYield(present: seq<bool>, left: seq<nat>, from: nat)
    requires Ordered(left, |present|) && Contiguous(left, |present|) && Span(left, |present|) < |present|
    requires MapMatches(present, left) && LastPresent(present, from)
    ensures HolesYield(present, left[0], Span(left, |present|), from)
  {
    var m, n := |present|, |left|;
    assert Dist(left[0], left[n - 1], m) == n - 1;
    forall c: nat, d: nat
      ensures !HoleInRun(present, left[0], n, c, d)
    {
      if c < d <= n {
        assert Dist(left[0], left[c], m) == c;
        assert left[c] in left && On(left[0], c, m) == left[c];
      }
    }
  }

  /** A run without holes, shorter than the sequence space, is taken up exactly as it was left. */
  lemma ContiguousRunTakenUp(present: seq<bool>, left: seq<nat>, order: seq<nat>, first: nat, last: nat, from: nat)
    requires Ordered(left, |present|) && Contiguous(left, |present|) && Span(left, |present|) < |present|
    requires MapMatches(present, left) && TakenUp(present, order, first, last) && LastPresent(present, from)
    ensures order == left
  {
    NoHolesYield(present, left, from);
    TakenUpIffHolesYield(present, left, order, first, last, from);
  }

  lemma SameNumbers(present: seq<bool>, o: seq<nat>, p: seq<nat>)
    requires Ordered(o, |present|) && Ordered(p, |present|) && MapMatches(present, o) && MapMatches(present, p)
    ensures forall s :: s in o <==> s in p
  {
    forall s
      ensures s in o <==> s in p
    {
      if s >= |present| {
        assert s !in o && s !in p;
      }
    }
  }
}
