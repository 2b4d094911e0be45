/** UTF-8 as section 4 of RFC 3629 defines it, the formatter's own test for it, and what a cut or a bad byte
    leaves of it. */
module Utf8 {
  import opened Bytes

  // A C string: the terminator stands after the last byte and appears nowhere before it.
  type CString = s: seq<byte> | forall i :: 0 <= i < |s| ==> s[i] != 0

  // U+FFFD
  const REPLACEMENT: seq<byte> := [0xEF, 0xBF, 0xBD]

  // ----- The grammar -----

  predicate Tail(b: byte) {
    0x80 <= b <= 0xBF
  }

  // How many bytes the character at the front takes, or zero where there is none.
  function CharLength(s: seq<byte>): (n: nat)
    ensures n <= 4 && n <= |s|
  {
    if s == [] then 0
    else if s[0] <= 0x7F then 1
    else if |s| >= 2 && 0xC2 <= s[0] <= 0xDF && Tail(s[1]) then 2
    else if |s| >= 3 && Tail(s[2]) && (
              || (s[0] == 0xE0 && 0xA0 <= s[1] <= 0xBF)
              || (0xE1 <= s[0] <= 0xEC && Tail(s[1]))
              || (s[0] == 0xED && 0x80 <= s[1] <= 0x9F)
              || (0xEE <= s[0] <= 0xEF && Tail(s[1]))) then 3
    else if |s| >= 4 && Tail(s[2]) && Tail(s[3]) && (
              || (s[0] == 0xF0 && 0x90 <= s[1] <= 0xBF)
              || (0xF1 <= s[0] <= 0xF3 && Tail(s[1]))
              || (s[0] == 0xF4 && 0x80 <= s[1] <= 0x8F)) then 4
    else 0
  }

  predicate WellFormed(s: seq<byte>)
    decreases |s|
  {
    s == [] || (CharLength(s) > 0 && WellFormed(s[CharLength(s)..]))
  }

  // The scalar values of Unicode: every code point but the surrogates.
  predicate IsScalar(c: nat) {
    c <= 0x10FFFF && !(0xD800 <= c <= 0xDFFF)
  }

  // Section 3 of RFC 3629: a scalar value in as many octets as it takes.
  function Encoded(c: nat): (octets: seq<byte>)
    requires c <= 0x10FFFF
    ensures octets != []
  {
    if c <= 0x7F then [c as byte]
    else if c <= 0x7FF then [(0xC0 + c / 0x40) as byte, SixBits(c)]
    else if c <= 0xFFFF then [(0xE0 + c / 0x1000) as byte, SixBits(c / 0x40), SixBits(c)]
    else [(0xF0 + c / 0x40000) as byte, SixBits(c / 0x1000), SixBits(c / 0x40), SixBits(c)]
  }

  function SixBits(c: nat): byte {
    (0x80 + c % 0x40) as byte
  }

  function Decoded(s: seq<byte>): nat
    requires CharLength(s) > 0
  {
    var n := CharLength(s);
    if n == 1 then s[0] as nat
    else if n == 2 then (s[0] as nat - 0xC0) * 0x40 + (s[1] as nat - 0x80)
    else if n == 3 then (s[0] as nat - 0xE0) * 0x1000 + (s[1] as nat - 0x80) * 0x40 + (s[2] as nat - 0x80)
    else (s[0] as nat - 0xF0) * 0x40000 + (s[1] as nat - 0x80) * 0x1000 + (s[2] as nat - 0x80) * 0x40 +
         (s[3] as nat - 0x80)
  }

  lemma LastSixBits(c: nat, q: nat, b: nat)
    requires 0x80 <= b <= 0xBF && c == q * 0x40 + (b - 0x80)
    ensures c / 0x40 == q && SixBits(c) as nat == b
  {
  }

  lemma HighBits(c: nat)
    ensures c / 0x1000 == c / 0x40 / 0x40 && c / 0x40000 == c / 0x40 / 0x40 / 0x40
  {
  }

  lemma TwoOctets(a: byte, b: byte)
    requires 0xC2 <= a <= 0xDF && Tail(b)
    ensures Encoded((a as nat - 0xC0) * 0x40 + (b as nat - 0x80)) == [a, b]
  {
    hide SixBits;
    LastSixBits((a as nat - 0xC0) * 0x40 + (b as nat - 0x80), a as nat - 0xC0, b as nat);
  }

  lemma ThreeOctets(a: byte, b: byte, c: byte)
    requires 0xE0 <= a <= 0xEF && Tail(b) && Tail(c) && (a == 0xE0 ==> b >= 0xA0)
    ensures Encoded((a as nat - 0xE0) * 0x1000 + (b as nat - 0x80) * 0x40 + (c as nat - 0x80)) == [a, b, c]
  {
    hide SixBits;
    var q := (a as nat - 0xE0) * 0x40 + (b as nat - 0x80);
    var v := q * 0x40 + (c as nat - 0x80);
    HighBits(v);
    LastSixBits(v, q, c as nat);
    LastSixBits(q, a as nat - 0xE0, b as nat);
  }

  lemma FourOctets(a: byte, b: byte, c: byte, d: byte)
    requires 0xF0 <= a <= 0xF4 && Tail(b) && Tail(c) && Tail(d)
    requires (a == 0xF0 ==> b >= 0x90) && (a == 0xF4 ==> b <= 0x8F)
    ensures Encoded((a as nat - 0xF0) * 0x40000 + (b as nat - 0x80) * 0x1000 + (c as nat - 0x80) * 0x40 +
                    (d as nat - 0x80)) == [a, b, c, d]
  {
    hide SixBits;
    var p := (a as nat - 0xF0) * 0x40 + (b as nat - 0x80);
    var q := p * 0x40 + (c as nat - 0x80);
    var v := q * 0x40 + (d as nat - 0x80);
    HighBits(v);
    LastSixBits(v, q, d as nat);
    LastSixBits(q, p, c as nat);
    LastSixBits(p, a as nat - 0xF0, b as nat);
  }

  lemma CharDecodes(s: seq<byte>)
    requires CharLength(s) > 0
    ensures IsScalar(Decoded(s)) && s[..CharLength(s)] == Encoded(Decoded(s))
  {
    hide Encoded;
    match CharLength(s)
    case 1 => assert s[..1] == [s[0]] == Encoded(s[0] as nat) by { OneOctet(s[0]); }
    case 2 => TwoOctets(s[0], s[1]);
    case 3 => ThreeOctets(s[0], s[1], s[2]);
    case 4 => FourOctets(s[0], s[1], s[2], s[3]);
    case _ =>
  }

  lemma OneOctet(a: byte)
    requires a <= 0x7F
    ensures Encoded(a as nat) == [a]
  {
  }

  lemma SixBitsApart(c: nat)
    ensures c == c / 0x40 * 0x40 + (SixBits(c) as nat - 0x80) && Tail(SixBits(c))
  {
  }

  lemma EncodedIsChar(c: nat, s: seq<byte>)
    requires IsScalar(c) && Encoded(c) <= s
    ensures CharLength(s) == |Encoded(c)| && Decoded(s) == c
  {
    hide SixBits;
    assert forall i :: 0 <= i < |Encoded(c)| ==> s[i] == Encoded(c)[i];
    HighBits(c);
    SixBitsApart(c);
    SixBitsApart(c / 0x40);
    SixBitsApart(c / 0x1000);
  }

  /** The grammar has exactly the scalar values, each in its own octets: what it takes for a character encodes one,
      and every one so encoded is taken for a character. */
  lemma CharsAreScalars(s: seq<byte>)
    ensures CharLength(s) > 0 ==> IsScalar(Decoded(s)) && s[..CharLength(s)] == Encoded(Decoded(s))
    ensures forall c: nat :: IsScalar(c) && Encoded(c) <= s ==> CharLength(s) == |Encoded(c)| && Decoded(s) == c
  {
    hide CharLength, Decoded, Encoded;
    if CharLength(s) > 0 {
      CharDecodes(s);
    }
    forall c: nat | IsScalar(c) && Encoded(c) <= s
      ensures CharLength(s) == |Encoded(c)| && Decoded(s) == c
    {
      EncodedIsChar(c, s);
    }
  }

  // A character is itself wherever it stands.
  lemma CharLengthPrefix(a: seq<byte>, b: seq<byte>)
    requires CharLength(a) > 0
    ensures CharLength(a + b) == CharLength(a)
    ensures (a + b)[CharLength(a)..] == a[CharLength(a)..] + b
    ensures (a + b)[..CharLength(a)] == a[..CharLength(a)]
  {
  }

  lemma CharLengthCut(s: seq<byte>, k: nat)
    requires k <= |s|
    ensures CharLength(s[..k]) == if CharLength(s) <= k then CharLength(s) else 0
  {
  }

  lemma {:induction false} WellFormedConcat(a: seq<byte>, b: seq<byte>)
    requires WellFormed(a)
    ensures WellFormed(a + b) <==> WellFormed(b)
    decreases |a|
  {
    if a == [] {
      assert a + b == b;
    } else {
      CharLengthPrefix(a, b);
      WellFormedConcat(a[CharLength(a)..], b);
    }
  }

  lemma WholeCharWellFormed(s: seq<byte>)
    requires CharLength(s) > 0
    ensures WellFormed(s[..CharLength(s)])
  {
    CharLengthCut(s, CharLength(s));
    assert s[..CharLength(s)][CharLength(s)..] == [];
  }

  lemma ReplacementWellFormed()
    ensures CharLength(REPLACEMENT) == 3 && WellFormed(REPLACEMENT)
  {
    assert REPLACEMENT[3..] == [];
  }

  // ----- The formatter's test -----

  predicate IsAsciiByte(b: byte) { b < 0x80 }

  predicate IsContinuationByte(b: byte) { b / 0x40 == 0x80 / 0x40 }

  predicate IsTwoByteLead(b: byte) { b / 0x20 == 0xC0 / 0x20 }

  predicate IsThreeByteLead(b: byte) { b / 0x10 == 0xE0 / 0x10 }

  predicate IsFourByteLead(b: byte) { b / 0x08 == 0xF0 / 0x08 }

  predicate IsOverlongTwoByteLead(b: byte) { b / 0x02 == 0xC0 / 0x02 }

  predicate IsOverlongThreeByteEncoding(lead: byte, c1: byte) { lead == 0xE0 && c1 / 0x20 == 0x80 / 0x20 }

  predicate IsUtf16SurrogateEncoding(lead: byte, c1: byte) { lead == 0xED && c1 / 0x20 == 0xA0 / 0x20 }

  predicate IsOverlongFourByteEncoding(lead: byte, c1: byte) { lead == 0xF0 && c1 / 0x10 == 0x80 / 0x10 }

  predicate IsAboveUnicodeMaxEncoding(lead: byte, c1: byte) {
    (lead == 0xF4 && c1 / 0x10 != 0x80 / 0x10) || 0xF5 <= lead <= 0xF7
  }

  predicate IsValidTwoByte(lead: byte, c1: byte) {
    IsTwoByteLead(lead) && !IsOverlongTwoByteLead(lead) && IsContinuationByte(c1)
  }

  predicate IsValidThreeByte(lead: byte, c1: byte, c2: byte) {
    && IsThreeByteLead(lead) && IsContinuationByte(c1) && IsContinuationByte(c2)
    && !IsOverlongThreeByteEncoding(lead, c1) && !IsUtf16SurrogateEncoding(lead, c1)
  }

  predicate IsValidFourByte(lead: byte, c1: byte, c2: byte, c3: byte) {
    && IsFourByteLead(lead) && IsContinuationByte(c1) && IsContinuationByte(c2) && IsContinuationByte(c3)
    && !IsOverlongFourByteEncoding(lead, c1) && !IsAboveUnicodeMaxEncoding(lead, c1)
  }

  // The byte at an index, the terminator standing after the last.
  function At(source: CString, i: nat): byte
    requires i <= |source|
  {
    if i < |source| then source[i] else 0
  }

  // Reads on only past a byte that is not the terminator.
  function CodepointLength(source: CString, i: nat): nat
    requires i <= |source|
  {
    if IsAsciiByte(At(source, i)) then 1
    else if At(source, i + 1) != 0 && IsValidTwoByte(At(source, i), At(source, i + 1)) then 2
    else if At(source, i + 1) != 0 && At(source, i + 2) != 0 &&
            IsValidThreeByte(At(source, i), At(source, i + 1), At(source, i + 2)) then 3
    else if At(source, i + 1) != 0 && At(source, i + 2) != 0 && At(source, i + 3) != 0 &&
            IsValidFourByte(At(source, i), At(source, i + 1), At(source, i + 2), At(source, i + 3)) then 4
    else 0
  }

  /** The bit tests and the grammar agree on every byte string, at every index short of its terminator. */
  lemma CodepointLengthIsCharLength(source: CString, i: nat)
    requires i < |source|
    ensures CodepointLength(source, i) == CharLength(source[i..])
  {
    assert forall k :: 0 <= k < |source| - i ==> source[i..][k] == source[i + k];
  }

  // ----- Sanitising -----

  // Each byte that starts no character becomes U+FFFD.
  function Sanitised(s: seq<byte>): seq<byte>
    decreases |s|
  {
    if s == [] then []
    else if CharLength(s) > 0 then s[..CharLength(s)] + Sanitised(s[CharLength(s)..])
    else REPLACEMENT + Sanitised(s[1..])
  }

  /** Sanitising yields well-formed text, and changes text exactly if it was not well formed. */
  lemma {:induction false} SanitisedWellFormed(s: seq<byte>)
    ensures WellFormed(Sanitised(s))
    ensures WellFormed(s) <==> Sanitised(s) == s
    decreases |s|
  {
    hide CharLength;
    if s != [] {
      var n := CharLength(s);
      if n > 0 {
        SanitisedWellFormed(s[n..]);
        WholeCharWellFormed(s);
        WellFormedConcat(s[..n], Sanitised(s[n..]));
        assert s == s[..n] + s[n..];
        assert Sanitised(s)[n..] == Sanitised(s[n..]);
      } else {
        SanitisedWellFormed(s[1..]);
        ReplacementWellFormed();
        WellFormedConcat(REPLACEMENT, Sanitised(s[1..]));
        CharLengthPrefix(REPLACEMENT, Sanitised(s[1..]));
      }
    }
  }

  // Well-formed text in front stays as it is.
  lemma {:induction false} SanitisedPast(a: seq<byte>, b: seq<byte>)
    requires WellFormed(a)
    ensures Sanitised(a + b) == a + Sanitised(b)
    decreases |a|
  {
    hide CharLength;
    if a == [] {
      assert a + b == b;
    } else {
      var n := CharLength(a);
      CharLengthPrefix(a, b);
      SanitisedPast(a[n..], b);
      assert a == a[..n] + a[n..];
    }
  }

  /** The first byte that starts no character becomes U+FFFD, by itself, and what is behind it is read afresh. */
  lemma OneByteReplaced(a: seq<byte>, b: seq<byte>)
    requires WellFormed(a) && b != [] && CharLength(b) == 0
    ensures Sanitised(a + b) == a + [0xEF, 0xBF, 0xBD] + Sanitised(b[1..])
  {
    hide CharLength, WellFormed;
    SanitisedPast(a, b);
  }

  // A mark of U+FFFD for each of so many bytes.
  function Marks(n: nat): (marks: seq<byte>)
    ensures |marks| == 3 * n
  {
    if n == 0 then [] else [0xEF, 0xBF, 0xBD] + Marks(n - 1)
  }

  lemma {:induction false} TailsSanitised(s: seq<byte>)
    requires forall i :: 0 <= i < |s| ==> Tail(s[i])
    ensures Sanitised(s) == Marks(|s|)
  {
    if s != [] {
      TailsSanitised(s[1..]);
    }
  }

  /** Well-formed text cut anywhere and sanitised is its longest well-formed prefix, and a mark for each byte
      left of the character that was cut through. */
  lemma CutSanitised(s: seq<byte>, p: nat, t: nat)
    requires WellFormed(s) && p <= |s| && LongestWellFormed(s, p, t)
    ensures Sanitised(s[..p]) == s[..t] + Marks(p - t)
  {
    hide CharLength, WellFormed, Sanitised;
    var u := BoundaryBefore(s, p);
    var rest := s[t..p];
    assert u == t by {
      if u < t {
        CutCharIllFormed(s, u, t);
      }
    }
    assert s[..p] == s[..t] + rest;
    if t < p {
      RestOfCut(s, t, p);
      OneByteReplaced(s[..t], rest);
      assert rest[1..] == s[t + 1..p];
      TailsSanitised(s[t + 1..p]);
    } else {
      SanitisedWellFormed(s[..p]);
    }
  }

  lemma RestOfCut(s: seq<byte>, t: nat, p: nat)
    requires t < p <= |s| && p < t + CharLength(s[t..])
    ensures CharLength(s[t..p]) == 0 && forall i :: t < i < p ==> Tail(s[i])
  {
    assert s[t..p] == s[t..][..p - t];
    CharLengthCut(s[t..], p - t);
    assert forall k :: 0 <= k < CharLength(s[t..]) ==> s[t..][k] == s[t + k];
  }

  // ----- Cutting -----

  // The longest well-formed prefix of the first p bytes ends at t.
  ghost predicate LongestWellFormed(s: seq<byte>, p: nat, t: nat)
    requires p <= |s|
  {
    t <= p && WellFormed(s[..t]) && forall u :: t < u <= p ==> !WellFormed(s[..u])
  }

  predicate IsMultiByteLead(b: byte) {
    IsTwoByteLead(b) || IsThreeByteLead(b) || IsFourByteLead(b)
  }

  // Where the formatter cuts: back to a lead whose character does not end by p.
  function TrimFrom(s: seq<byte>, p: nat): (t: nat)
    requires p <= |s|
    ensures t <= p
  {
    if p >= 1 && IsMultiByteLead(s[p - 1]) then p - 1
    else if p >= 2 && (IsThreeByteLead(s[p - 2]) || IsFourByteLead(s[p - 2])) then p - 2
    else if p >= 3 && IsFourByteLead(s[p - 3]) then p - 3
    else p
  }

  // The last boundary between characters that is no further than p.
  lemma {:induction false} BoundaryBefore(s: seq<byte>, p: nat) returns (t: nat)
    requires WellFormed(s) && p <= |s|
    ensures t <= p && WellFormed(s[..t]) && (t < p ==> p < t + CharLength(s[t..]))
    decreases |s|
  {
    hide CharLength;
    var n := CharLength(s);
    t := 0;
    assert s[..0] == [] && s[0..] == s;
    if n <= p && p > 0 {
      var u := BoundaryBefore(s[n..], p - n);
      t := n + u;
      WholeCharWellFormed(s);
      WellFormedConcat(s[..n], s[n..][..u]);
      assert s[..t] == s[..n] + s[n..][..u] && s[t..] == s[n..][u..];
    }
  }

  // The bytes of one character: a lead that says how many follow, then tails.
  lemma CharBytes(s: seq<byte>, a: nat, n: nat)
    requires a <= |s| && CharLength(s[a..]) == n > 0
    ensures a + n <= |s|
    ensures n == 1 ==> !IsMultiByteLead(s[a])
    ensures n == 2 ==> IsTwoByteLead(s[a]) && !IsThreeByteLead(s[a]) && !IsFourByteLead(s[a])
    ensures n == 3 ==> IsThreeByteLead(s[a]) && !IsFourByteLead(s[a])
    ensures n == 4 ==> IsFourByteLead(s[a])
    ensures forall k :: a < k < a + n ==> !IsMultiByteLead(s[k])
  {
    assert forall k :: 0 <= k < n ==> s[a..][k] == s[a + k];
  }

  lemma FirstCharOf(s: seq<byte>)
    requires WellFormed(s) && s != []
    ensures CharLength(s) > 0 && WellFormed(s[CharLength(s)..])
  {
  }

  // Well-formed text ends in no lead of a character that would run past it.
  lemma {:induction false} EndsWhole(s: seq<byte>)
    requires WellFormed(s)
    ensures TrimFrom(s, |s|) == |s|
    decreases |s|
  {
    if s != [] {
      hide CharLength, IsTwoByteLead, IsThreeByteLead, IsFourByteLead, WellFormed, TrimFrom;
      var n := CharLength(s);
      assert s[0..] == s;
      FirstCharOf(s);
      CharBytes(s, 0, n);
      EndsWhole(s[n..]);
      EndsWholeAfter(s, n);
    }
  }

  lemma EndsWholeAfter(s: seq<byte>, n: nat)
    requires 0 < n <= |s| && n <= 4 && TrimFrom(s[n..], |s| - n) == |s| - n
    requires n == 1 ==> !IsMultiByteLead(s[0])
    requires n == 2 ==> !IsThreeByteLead(s[0]) && !IsFourByteLead(s[0])
    requires n == 3 ==> !IsFourByteLead(s[0])
    requires forall k :: 0 < k < n ==> !IsMultiByteLead(s[k])
    ensures TrimFrom(s, |s|) == |s|
  {
    hide IsTwoByteLead, IsThreeByteLead, IsFourByteLead;
    var t := s[n..];
    assert |t| >= 1 ==> t[|t| - 1] == s[|s| - 1];
    assert |t| >= 2 ==> t[|t| - 2] == s[|s| - 2];
    assert |t| >= 3 ==> t[|t| - 3] == s[|s| - 3];
  }

  /** Cutting well-formed text anywhere and trimming its tail leaves its longest well-formed prefix. */
  lemma TrimLeavesLongest(s: seq<byte>, p: nat)
    requires WellFormed(s) && p <= |s|
    ensures LongestWellFormed(s, p, TrimFrom(s, p))
  {
    hide CharLength, WellFormed, IsTwoByteLead, IsThreeByteLead, IsFourByteLead;
    var t := BoundaryBefore(s, p);
    if t < p {
      CharBytes(s, t, CharLength(s[t..]));
    } else {
      EndsWhole(s[..p]);
      assert forall k :: 0 <= k < p ==> s[..p][k] == s[k];
    }
    assert t == TrimFrom(s, p);
    forall u | t < u <= p
      ensures !WellFormed(s[..u])
    {
      CutCharIllFormed(s, t, u);
    }
  }

  lemma CutCharIllFormed(s: seq<byte>, t: nat, u: nat)
    requires t < u <= |s| && WellFormed(s[..t]) && u < t + CharLength(s[t..])
    ensures !WellFormed(s[..u])
  {
    hide CharLength;
    assert s[..u] == s[..t] + s[t..][..u - t];
    WellFormedConcat(s[..t], s[t..][..u - t]);
    CharLengthCut(s[t..], u - t);
  }
}
