/** How a restart finds the blocks to resume: it walks the presence map for its widest gap and takes the rest. */
module GapWalk {
  import opened SequenceSpace

  // Consecutive numbers with no block: the first, and their count.
  datatype Gap = Gap(start: nat, length: nat)

  // The presence map read once round from a number, which both ends of the list show.
  function Round(present: seq<bool>, from: nat): (p: seq<bool>)
    requires from < |present|
    ensures |p| == |present| + 1
  {
    seq(|present| + 1, i requires 0 <= i <= |present| => present[On(from, i, |present|)])
  }

  // Nothing is present from a up to b.
  predicate Hole(p: seq<bool>, a: nat, b: nat)
    requires a <= b <= |p|
  {
    forall i :: a <= i < b ==> !p[i]
  }

  // The hole from a up to b is the first of the longest.
  ghost predicate Largest(p: seq<bool>, a: nat, b: nat) {
    && a < b <= |p| && Hole(p, a, b)
    && forall c: nat, d: nat :: c <= d <= |p| && Hole(p, c, d) ==> d - c <= b - a && (c < a ==> d - c < b - a)
  }

  // No hole within the first n is longer than the one from `at`, and none before it as long.
  ghost predicate LongestSoFar(p: seq<bool>, n: nat, at: nat, length: nat)
    requires n <= |p|
  {
    forall c: nat, d: nat :: c <= d <= n && Hole(p, c, d) ==> d - c <= length && (c < at ==> d - c < length)
  }

  // The next place either ends the hole in hand or makes it one longer.
  lemma LongestGrows(p: seq<bool>, n: nat, at: nat, length: nat, current: nat)
    requires 0 < n < |p| && LongestSoFar(p, n, at, length)
    requires current < n && current <= length && p[n - current - 1]
    requires at + length <= n
    ensures p[n] ==> LongestSoFar(p, n + 1, at, length)
    ensures !p[n] && current + 1 <= length ==> LongestSoFar(p, n + 1, at, length)
    ensures !p[n] && current + 1 > length ==> LongestSoFar(p, n + 1, n - current, current + 1)
  {
    forall c: nat, d: nat | c <= d <= n + 1 && Hole(p, c, d)
      ensures p[n] && c < d ==> d <= n
      ensures !p[n] && d == n + 1 && c < d ==> d - c <= current + 1
      ensures d <= n ==> d - c <= length && (c < at ==> d - c < length)
    {
      assert !(c <= n - current - 1 < d);
    }
  }

  ghost predicate Located(present: seq<bool>, from: nat, a: nat, b: nat, oldest: nat, newest: nat)
    requires from < |present|
  {
    && 0 < a && Largest(Round(present, from), a, b) && b <= |present|
    && oldest == On(from, b, |present|) && newest == On(from, a - 1, |present|)
  }

  // What the walk knows after a number of steps round from a present number.
  ghost predicate Walked(present: seq<bool>, from: nat, step: nat, index: nat, current: Gap, largest: Gap, at: nat)
    requires from < |present| && step <= |present|
  {
    var p := Round(present, from);
    && index == On(from, step, |present|)
    && current.length <= step && current.length <= largest.length && at + largest.length <= step + 1
    && Hole(p, step + 1 - current.length, step + 1) && p[step - current.length]
    && (current.length > 0 ==> current.start == On(from, step + 1 - current.length, |present|))
    && Hole(p, at, at + largest.length) && LongestSoFar(p, step + 1, at, largest.length)
    && (largest.length > 0 ==> 0 < at && largest.start == On(from, at, |present|))
  }

  function StepCurrent(current: Gap, index: nat, isPresent: bool): Gap {
    if isPresent then current.(length := 0)
    else Gap(if current.length == 0 then index else current.start, current.length + 1)
  }

  lemma WalkStep(present: seq<bool>, from: nat, step: nat, index: nat, current: Gap, largest: Gap, at: nat)
    requires from < |present| && step < |present|
    requires Walked(present, from, step, index, current, largest, at)
    ensures var i := Next(index, |present|);
            var c := StepCurrent(current, i, present[i]);
            if c.length > largest.length then Walked(present, from, step + 1, i, c, c, step + 2 - c.length)
            else Walked(present, from, step + 1, i, c, largest, at)
  {
    var p := Round(present, from);
    LongestGrows(p, step + 1, at, largest.length, current.length);
    assert present[Next(index, |present|)] == p[step + 1];
    hide Round, LongestSoFar;
  }

  lemma WalkStarts(present: seq<bool>, from: nat)
    requires from < |present| && present[from]
    ensures Walked(present, from, 0, from, Gap(0, 0), Gap(0, 0), 0)
  {
    assert Round(present, from)[0];
  }

  // The walk's own arithmetic on the largest gap's start gives the places either side of it.
  lemma WalkEnds(present: seq<bool>, from: nat, index: nat, current: Gap, largest: Gap, at: nat)
    requires from < |present| && present[from]
    requires Walked(present, from, |present|, index, current, largest, at) && largest.length > 0
    ensures at + largest.length <= |present| && largest.start < |present|
    ensures (largest.start + largest.length) % |present| == On(from, at + largest.length, |present|)
    ensures Prev(largest.start, |present|) == On(from, at - 1, |present|)
  {
    assert Round(present, from)[|present|];
    OnceRound(largest.start + largest.length, |present|);
  }

  lemma WalkDone(present: seq<bool>, from: nat, index: nat, current: Gap, largest: Gap, at: nat)
    requires from < |present| && present[from]
    requires Walked(present, from, |present|, index, current, largest, at)
    ensures largest.length == 0 ==> forall s :: 0 <= s < |present| ==> present[s]
    ensures at + largest.length <= |present| + 1
    ensures largest.length > 0 ==>
              && at + largest.length <= |present| && 0 < at
              && Located(present, from, at, at + largest.length,
                         On(from, at + largest.length, |present|), On(from, at - 1, |present|))
              && !present[largest.start]
  {
    var p := Round(present, from);
    assert p[|present|];
    if largest.length == 0 {
      forall s | 0 <= s < |present|
        ensures present[s]
      {
        var i := Dist(from, s, |present|);
        assert p[i] == present[s];
        assert p[i] || Hole(p, i, i + 1);
      }
    } else {
      assert !p[at];
      assert at + largest.length != |p|;
    }
  }

  method LocateRunBoundaries(present: array<bool>, lastPresent: nat, defaultOldest: nat, defaultNewest: nat)
    returns (oldest: nat, newest: nat)
    requires lastPresent < present.Length && present[lastPresent]
    ensures (forall s :: 0 <= s < present.Length ==> present[s]) ==>
              oldest == defaultOldest && newest == defaultNewest
    ensures (exists s :: 0 <= s < present.Length && !present[s]) ==>
              exists a, b :: Located(present[..], lastPresent, a, b, oldest, newest)
  {
    hide Walked, Located;
    oldest, newest := defaultOldest, defaultNewest;
    var modulus := present.Length;
    var largest, current := Gap(0, 0), Gap(0, 0);
    var index: nat := lastPresent;
    ghost var at: nat := 0;
    WalkStarts(present[..], lastPresent);
    for step := 0 to modulus
      invariant index < modulus && current.length <= step
      invariant Walked(present[..], lastPresent, step, index, current, largest, at)
    {
      WalkStep(present[..], lastPresent, step, index, current, largest, at);
      index := Next(index, modulus);
      if present[index] {
        current := current.(length := 0);
      } else {
        if current.length == 0 {
          current := current.(start := index);
        }
        current := current.(length := current.length + 1);
        if current.length > largest.length {
          largest := current;
          at := step + 2 - current.length;
        }
      }
    }
    WalkDone(present[..], lastPresent, index, current, largest, at);
    if largest.length > 0 {
      WalkEnds(present[..], lastPresent, index, current, largest, at);
      oldest := (largest.start + largest.length) % modulus;
      newest := Prev(largest.start, modulus);
    }
  }

  // ----- What the boundaries mean for a run of blocks -----

  // The run's n places from its oldest: both ends present, nothing present in the free gap beyond.
  predicate IsRun(present: seq<bool>, oldest: nat, n: nat)
    requires oldest < |present| && 0 < n < |present|
  {
    && present[oldest] && present[On(oldest, n - 1, |present|)]
    && forall d :: n <= d < |present| ==> !present[On(oldest, d, |present|)]
  }

  // A hole inside the run, by its places from the oldest.
  predicate HoleInRun(present: seq<bool>, oldest: nat, n: nat, c: nat, d: nat)
    requires oldest < |present| && 0 < n < |present|
  {
    c < d <= n && forall i :: c <= i < d ==> !present[On(oldest, i, |present|)]
  }

  // No hole beats the unused numbers: each has fewer, or as many and a walk from `from` comes to it later.
  ghost predicate HolesYield(present: seq<bool>, oldest: nat, n: nat, from: nat)
    requires oldest < |present| && 0 < n < |present| && from < |present|
  {
    forall c: nat, d: nat :: HoleInRun(present, oldest, n, c, d) ==>
      d - c < |present| - n || (d - c == |present| - n && c < Dist(oldest, from, |present|))
  }

  lemma RoundFromRun(present: seq<bool>, oldest: nat, from: nat, i: nat)
    requires oldest < |present| && from < |present| && i <= |present|
    ensures var e := Dist(oldest, from, |present|);
            Round(present, from)[i] ==
            present[On(oldest, if e + i < |present| then e + i else e + i - |present|, |present|)]
  {
  }

  lemma FreeGapInRound(present: seq<bool>, oldest: nat, n: nat, from: nat)
    requires oldest < |present| && 0 < n < |present| && from < |present|
    requires IsRun(present, oldest, n) && present[from]
    ensures var e, m := Dist(oldest, from, |present|), |present|;
            e < n && Hole(Round(present, from), n - e, m - e) && (e < n - 1 ==> Round(present, from)[n - e - 1])
            && Round(present, from)[m - e]
  {
    var e, m := Dist(oldest, from, |present|), |present|;
    assert On(oldest, e, m) == from;
    forall i | n - e <= i < m - e
      ensures !Round(present, from)[i]
    {
      RoundFromRun(present, oldest, from, i);
    }
    RoundFromRun(present, oldest, from, m - e);
    if e < n - 1 { RoundFromRun(present, oldest, from, n - e - 1); }
  }

  lemma RunHoleInRound(present: seq<bool>, oldest: nat, n: nat, from: nat, c: nat, d: nat)
    requires oldest < |present| && 0 < n < |present| && from < |present|
    requires IsRun(present, oldest, n) && present[from] && HoleInRun(present, oldest, n, c, d)
    ensures var e, m := Dist(oldest, from, |present|), |present|;
            if e < c then Hole(Round(present, from), c - e, d - e)
            else d <= e && Hole(Round(present, from), c + m - e, d + m - e)
  {
    var e, m := Dist(oldest, from, |present|), |present|;
    assert On(oldest, e, m) == from;
    if e < c {
      forall i | c - e <= i < d - e
        ensures !Round(present, from)[i]
      {
        RoundFromRun(present, oldest, from, i);
      }
    } else {
      assert d <= e;
      forall i | c + m - e <= i < d + m - e
        ensures !Round(present, from)[i]
      {
        RoundFromRun(present, oldest, from, i);
      }
    }
  }

  lemma RoundHoleInRun(present: seq<bool>, oldest: nat, n: nat, from: nat, a: nat, b: nat)
    requires oldest < |present| && 0 < n < |present| && from < |present|
    requires IsRun(present, oldest, n) && present[from]
    requires 0 < a < b <= |present| && Hole(Round(present, from), a, b)
    ensures var e, m := Dist(oldest, from, |present|), |present|;
            || (n - e <= a && b <= m - e)
            || HoleInRun(present, oldest, n, a + e, b + e)
            || (m - e < a && HoleInRun(present, oldest, n, a + e - m, b + e - m))
  {
    var e, m := Dist(oldest, from, |present|), |present|;
    FreeGapInRound(present, oldest, n, from);
    assert !(a <= m - e < b);
    assert e < n - 1 ==> !(a <= n - e - 1 < b);
    if b <= n - e - 1 {
      forall i | a + e <= i < b + e
        ensures !present[On(oldest, i, m)]
      {
        RoundFromRun(present, oldest, from, i - e);
      }
    } else if m - e < a {
      forall i | a + e - m <= i < b + e - m
        ensures !present[On(oldest, i, m)]
      {
        RoundFromRun(present, oldest, from, i + m - e);
      }
    }
  }

  /** The walk finds the run's own oldest and newest exactly when no hole inside the run is longer than
      the free gap, or as long and met before it. A run without holes is always found. */
  lemma RunFoundIffHolesYield(present: seq<bool>, oldest: nat, n: nat, from: nat, a: nat, b: nat, o: nat, w: nat)
    requires oldest < |present| && 0 < n < |present| && from < |present|
    requires IsRun(present, oldest, n) && present[from]
    requires Located(present, from, a, b, o, w)
    ensures (o == oldest && w == On(oldest, n - 1, |present|)) <==> HolesYield(present, oldest, n, from)
  {
    var e, m := Dist(oldest, from, |present|), |present|;
    FreeGapInRound(present, oldest, n, from);
    RoundHoleInRun(present, oldest, n, from, a, b);
    if HolesYield(present, oldest, n, from) {
      assert b - a >= m - n;
      assert a == n - e && b == m - e;
    }
    if o == oldest && w == On(oldest, n - 1, m) {
      assert b == m - e && a == n - e;
      forall c: nat, d: nat | HoleInRun(present, oldest, n, c, d)
        ensures d - c < m - n || (d - c == m - n && c < e)
      {
        RunHoleInRound(present, oldest, n, from, c, d);
      }
    }
  }
}
