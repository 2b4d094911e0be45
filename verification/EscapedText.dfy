/** PARAM-VALUE escaping, section 6.3.3 of RFC 5424, under a bound on what the reader decodes. */
module EscapedText {
  import opened Bytes
  import opened Utf8

  const QUOTE: byte := 0x22
  const BACKSLASH: byte := 0x5C
  const CLOSE_BRACKET: byte := 0x5D

  predicate NeedsEscape(b: byte) {
    b == QUOTE || b == BACKSLASH || b == CLOSE_BRACKET
  }

  predicate Fits(advance: nat, budget: nat) {
    0 < advance <= budget
  }

  // What the writer puts out from an index on, with so many decoded bytes left.
  function Escaped(source: CString, i: nat, budget: nat): seq<byte>
    requires i <= |source|
    decreases |source| - i
  {
    if i == |source| then []
    else if NeedsEscape(source[i]) then
      if Fits(1, budget) then [BACKSLASH, source[i]] + Escaped(source, i + 1, budget - 1) else []
    else
      var n := CharLength(source[i..]);
      if Fits(n, budget) then source[i..i + n] + Escaped(source, i + n, budget - n)
      else if Fits(3, budget) then REPLACEMENT + Escaped(source, i + 1, budget - 3)
      else []
  }

  lemma EscapedAtEnd(source: CString, budget: nat)
    ensures Escaped(source, |source|, budget) == []
  {
  }

  lemma EscapedStep(source: CString, i: nat, budget: nat)
    requires i < |source|
    ensures var n := CharLength(source[i..]);
            Escaped(source, i, budget) ==
            if NeedsEscape(source[i]) then
              if Fits(1, budget) then [BACKSLASH, source[i]] + Escaped(source, i + 1, budget - 1) else []
            else if Fits(n, budget) then source[i..i + n] + Escaped(source, i + n, budget - n)
            else if Fits(3, budget) then REPLACEMENT + Escaped(source, i + 1, budget - 3)
            else []
  {
  }

  // ----- The reader -----

  // The quotation mark, the backslash and the closing bracket of section 6.3.3 of RFC 5424.
  predicate MustBeEscaped(b: byte) {
    b == 0x22 || b == 0x5C || b == 0x5D
  }

  // A backslash before one of the three stands for it; any other byte stands for itself.
  function Unescape(s: seq<byte>): seq<byte> {
    if s == [] then []
    else if |s| >= 2 && s[0] == 0x5C && MustBeEscaped(s[1]) then [s[1]] + Unescape(s[2..])
    else [s[0]] + Unescape(s[1..])
  }

  // Each of the three stands only behind a backslash of its own.
  predicate Guarded(s: seq<byte>) {
    || s == []
    || (|s| >= 2 && s[0] == 0x5C && MustBeEscaped(s[1]) && Guarded(s[2..]))
    || (!MustBeEscaped(s[0]) && Guarded(s[1..]))
  }

  // How many backslashes stand just before an index.
  function BackslashesBefore(s: seq<byte>, i: nat): nat
    requires i <= |s|
  {
    if i == 0 || s[i - 1] != 0x5C then 0 else 1 + BackslashesBefore(s, i - 1)
  }

  // Read from anywhere: a quotation mark or a closing bracket has an odd number of backslashes before it, and a
  // backslash with an even number before it is followed by one of the three.
  ghost predicate EscapedAt(s: seq<byte>, i: nat)
    requires i < |s|
  {
    && (s[i] == 0x22 || s[i] == 0x5D ==> BackslashesBefore(s, i) % 2 == 1)
    && (s[i] == 0x5C && BackslashesBefore(s, i) % 2 == 0 ==> i + 1 < |s| && MustBeEscaped(s[i + 1]))
  }

  lemma {:induction false} RunBehind(s: seq<byte>, n: nat, i: nat)
    requires n == 1 || n == 2
    requires n <= i <= |s| && (if n == 1 then s[0] != 0x5C else s[0] == 0x5C)
    ensures BackslashesBefore(s, i) % 2 == BackslashesBefore(s[n..], i - n) % 2
    decreases i
  {
    assert i > n ==> s[i - 1] == s[n..][i - n - 1];
    if i > n && s[i - 1] == 0x5C {
      RunBehind(s, n, i - 1);
    } else if i == n {
      assert BackslashesBefore(s, 1) == if s[0] == 0x5C then 1 else 0;
    }
  }

  /** In guarded text each of the three is escaped, wherever it stands. */
  lemma {:induction false} GuardedEscapes(s: seq<byte>, i: nat)
    requires Guarded(s) && i < |s|
    ensures EscapedAt(s, i)
  {
    var n := if MustBeEscaped(s[0]) then 2 else 1;
    if i >= n {
      GuardedEscapes(s[n..], i - n);
      RunBehind(s, n, i);
      assert s[n..][i - n] == s[i] && (i + 1 < |s| ==> s[n..][i - n + 1] == s[i + 1]);
    } else if i == 1 {
      assert BackslashesBefore(s, 1) == 1;
    }
  }

  predicate Plain(s: seq<byte>) {
    forall i :: 0 <= i < |s| ==> !MustBeEscaped(s[i])
  }

  lemma {:induction false} PlainFirst(a: seq<byte>, b: seq<byte>)
    requires Plain(a)
    ensures Unescape(a + b) == a + Unescape(b)
    ensures Guarded(a + b) <==> Guarded(b)
  {
    if a == [] {
      assert a + b == b;
    } else {
      assert (a + b)[1..] == a[1..] + b;
      PlainFirst(a[1..], b);
      assert a == [a[0]] + a[1..];
    }
  }

  lemma PairFirst(c: byte, b: seq<byte>)
    requires MustBeEscaped(c)
    ensures Unescape([BACKSLASH, c] + b) == [c] + Unescape(b)
    ensures Guarded([BACKSLASH, c] + b) <==> Guarded(b)
  {
    assert ([BACKSLASH, c] + b)[2..] == b;
  }

  // ----- What the reader gets -----

  // The characters of a text, each byte that starts none standing as U+FFFD.
  function Units(s: seq<byte>): seq<seq<byte>>
    decreases |s|
  {
    if s == [] then []
    else if CharLength(s) > 0 then [s[..CharLength(s)]] + Units(s[CharLength(s)..])
    else [REPLACEMENT] + Units(s[1..])
  }

  function Flat(units: seq<seq<byte>>): seq<byte> {
    if units == [] then [] else units[0] + Flat(units[1..])
  }

  lemma {:induction false} UnitsOfSanitised(s: seq<byte>)
    ensures Flat(Units(s)) == Sanitised(s)
    decreases |s|
  {
    if s != [] {
      var n := if CharLength(s) > 0 then CharLength(s) else 1;
      UnitsOfSanitised(s[n..]);
      assert Units(s)[1..] == Units(s[n..]);
    }
  }

  // The decoded text is the first k units, all that fit; or those and U+FFFD, where a character of four bytes
  // met exactly three left.
  ghost predicate DecodesTo(d: seq<byte>, units: seq<seq<byte>>, budget: nat, k: nat) {
    && k <= |units| && |Flat(units[..k])| <= budget
    && (k < |units| ==> |units[k]| > budget - |Flat(units[..k])|)
    && d == Flat(units[..k]) +
            if k < |units| && |units[k]| == 4 && budget - |Flat(units[..k])| == 3 then REPLACEMENT else []
  }

  ghost predicate ReadsBack(text: seq<byte>, units: seq<seq<byte>>, budget: nat, k: nat) {
    && DecodesTo(Unescape(text), units, budget, k) && Guarded(text) && |Unescape(text)| <= budget
  }

  // How one unit is written: as it is, or behind a backslash.
  predicate Writes(piece: seq<byte>, unit: seq<byte>) {
    || (piece == unit && Plain(unit))
    || (|unit| == 1 && MustBeEscaped(unit[0]) && piece == [BACKSLASH, unit[0]])
  }

  lemma OneUnitMore(text: seq<byte>, units: seq<seq<byte>>, budget: nat, k: nat, piece: seq<byte>, unit: seq<byte>)
    requires ReadsBack(text, units, budget, k) && Writes(piece, unit)
    ensures ReadsBack(piece + text, [unit] + units, budget + |unit|, k + 1)
  {
    if piece == unit {
      PlainFirst(piece, text);
    } else {
      PairFirst(unit[0], text);
    }
    assert Unescape(piece + text) == unit + Unescape(text);
    assert ([unit] + units)[..k + 1] == [unit] + units[..k];
    assert ([unit] + units[..k])[1..] == units[..k];
    assert Flat([unit] + units[..k]) == unit + Flat(units[..k]);
  }

  lemma NothingFits(units: seq<seq<byte>>, budget: nat)
    requires units == [] || (|units[0]| > budget && !(|units[0]| == 4 && budget == 3))
    ensures ReadsBack([], units, budget, 0)
  {
    assert units[..0] == [];
  }

  lemma FourMetThree(units: seq<seq<byte>>)
    requires units != [] && |units[0]| == 4
    ensures ReadsBack(REPLACEMENT, units, 3, 0)
  {
    assert units[..0] == [];
    PlainFirst(REPLACEMENT, []);
    assert REPLACEMENT + [] == REPLACEMENT;
  }

  lemma EscapedNothing(source: CString, i: nat)
    requires i <= |source|
    ensures Escaped(source, i, 0) == []
  {
  }

  lemma UnitsStep(source: CString, i: nat)
    requires i < |source|
    ensures var n := CharLength(source[i..]);
            && (n > 0 ==> Units(source[i..]) == [source[i..i + n]] + Units(source[i + n..]))
            && (n == 0 ==> Units(source[i..]) == [REPLACEMENT] + Units(source[i + 1..]))
            && (NeedsEscape(source[i]) ==> n == 1)
            && (n > 0 && !NeedsEscape(source[i]) ==> Plain(source[i..i + n]))
  {
    var s := source[i..];
    var n := CharLength(s);
    assert s[..n] == source[i..i + n] && s[n..] == source[i + n..] && s[1..] == source[i + 1..];
    if n > 0 && !NeedsEscape(source[i]) {
      assert forall k :: 0 <= k < n ==> s[k] == source[i..i + n][k];
      assert n > 1 ==> forall k :: 0 <= k < n ==> s[k] >= 0x80;
    }
  }

  /** Un-escaped, the output is the sanitised source as far as the bound lets it go, whole characters only, but
      that a character of four bytes met with exactly three left becomes U+FFFD. None of the three characters
      stands unescaped, and what the reader decodes stays within the bound. */
  lemma {:induction false} EscapedReadsBack(source: CString, i: nat, budget: nat) returns (k: nat)
    requires i <= |source|
    ensures ReadsBack(Escaped(source, i, budget), Units(source[i..]), budget, k)
    decreases |source| - i
  {
    hide CharLength, ReadsBack, Units, Writes;
    k := 0;
    if i == |source| {
      NoUnits(source[i..]);
      NothingFits(Units(source[i..]), budget);
    } else {
      var n := NextPiece(source, i, budget);
      if n > 0 {
        k := EscapedReadsBack(source, i + n, budget - |FirstUnit(source, i)|);
        OneUnitMore(Escaped(source, i + n, budget - |FirstUnit(source, i)|), Units(source[i + n..]),
                    budget - |FirstUnit(source, i)|, k, FirstPiece(source, i), FirstUnit(source, i));
        k := k + 1;
      } else if |FirstUnit(source, i)| == 4 && budget == 3 {
        FourMetThree(Units(source[i..]));
      } else {
        NothingFits(Units(source[i..]), budget);
      }
    }
  }

  lemma NoUnits(s: seq<byte>)
    requires s == []
    ensures Units(s) == []
  {
  }

  function FirstUnit(source: CString, i: nat): seq<byte>
    requires i < |source|
  {
    var n := CharLength(source[i..]);
    if n > 0 then source[i..i + n] else REPLACEMENT
  }

  function FirstPiece(source: CString, i: nat): seq<byte>
    requires i < |source|
  {
    if NeedsEscape(source[i]) then [BACKSLASH, source[i]] else FirstUnit(source, i)
  }

  // How far the writer moves: past the first unit where it fits, and nowhere where it does not.
  lemma NextPiece(source: CString, i: nat, budget: nat) returns (n: nat)
    requires i < |source|
    ensures Units(source[i..]) != [] && Units(source[i..])[0] == FirstUnit(source, i)
    ensures n > 0 <==> |FirstUnit(source, i)| <= budget
    ensures n > 0 ==>
              && i + n <= |source| && Units(source[i..]) == [FirstUnit(source, i)] + Units(source[i + n..])
              && Writes(FirstPiece(source, i), FirstUnit(source, i))
              && Escaped(source, i, budget) ==
                 FirstPiece(source, i) + Escaped(source, i + n, budget - |FirstUnit(source, i)|)
    ensures n == 0 ==>
              Escaped(source, i, budget) == if |FirstUnit(source, i)| == 4 && budget == 3 then REPLACEMENT else []
  {
    hide CharLength, Escaped, Units;
    UnitsStep(source, i);
    EscapedStep(source, i, budget);
    n := 0;
    if |FirstUnit(source, i)| <= budget {
      n := if CharLength(source[i..]) > 0 then CharLength(source[i..]) else 1;
    } else if budget == 3 {
      EscapedNothing(source, i + 1);
    }
  }

  lemma {:induction false} EscapedWellFormed(source: CString, i: nat, budget: nat)
    requires i <= |source|
    ensures WellFormed(Escaped(source, i, budget))
    decreases |source| - i
  {
    hide CharLength, FirstPiece, FirstUnit, Units;
    if i < |source| {
      var n := NextPiece(source, i, budget);
      ReplacementWellFormed();
      if n > 0 {
        var rest := budget - |FirstUnit(source, i)|;
        EscapedWellFormed(source, i + n, rest);
        PieceWellFormed(source, i);
        WellFormedConcat(FirstPiece(source, i), Escaped(source, i + n, rest));
      }
    }
  }

  lemma PieceWellFormed(source: CString, i: nat)
    requires i < |source|
    ensures WellFormed(FirstPiece(source, i))
  {
    hide CharLength;
    ReplacementWellFormed();
    if NeedsEscape(source[i]) {
      PairWellFormed(source[i]);
    } else if CharLength(source[i..]) > 0 {
      WholeCharWellFormed(source[i..]);
      assert source[i..][..CharLength(source[i..])] == source[i..i + CharLength(source[i..])];
    }
  }

  lemma PairWellFormed(c: byte)
    requires c < 0x80
    ensures WellFormed([BACKSLASH, c])
  {
    assert [BACKSLASH, c][1..] == [c] && [c][1..] == [];
  }
}
