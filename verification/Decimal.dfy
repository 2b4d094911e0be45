/** Numbers printed in decimal, and read back. */
module Decimal {
  import opened Bytes

  const ZERO: byte := 0x30
  const MINUS: byte := 0x2D

  predicate IsDigit(b: byte) {
    0x30 <= b <= 0x39
  }

  function DigitToChar(value: nat): byte {
    ZERO + (value % 10) as byte
  }

  function Pow10(n: nat): nat {
    if n == 0 then 1 else 10 * Pow10(n - 1)
  }

  // The last n digits of a number.
  function FixedDigits(value: nat, n: nat): (s: seq<byte>)
    ensures |s| == n
  {
    if n == 0 then [] else FixedDigits(value / 10, n - 1) + [DigitToChar(value)]
  }

  function CountDigits(value: nat): (n: nat)
    ensures n >= 1
  {
    if value < 10 then 1 else 1 + CountDigits(value / 10)
  }

  // A number in as many digits as it takes.
  function Digits(value: nat): seq<byte> {
    FixedDigits(value, CountDigits(value))
  }

  predicate AllDigits(s: seq<byte>) {
    forall i :: 0 <= i < |s| ==> IsDigit(s[i])
  }

  function Parse(s: seq<byte>): nat
    requires AllDigits(s)
  {
    if s == [] then 0 else 10 * Parse(s[..|s| - 1]) + (s[|s| - 1] as int - 0x30)
  }

  lemma {:induction false} FixedParses(value: nat, n: nat)
    ensures AllDigits(FixedDigits(value, n))
    ensures Pow10(n) > 0 && Parse(FixedDigits(value, n)) == value % Pow10(n)
  {
    if n > 0 {
      FixedParses(value / 10, n - 1);
      var s := FixedDigits(value, n);
      assert s[..n - 1] == FixedDigits(value / 10, n - 1);
      LastDigitApart(value, Pow10(n - 1));
    }
  }

  lemma LastDigitApart(value: nat, p: nat)
    requires p > 0
    ensures value % (10 * p) == 10 * (value / 10 % p) + value % 10
  {
    var q, d := value / 10, value % 10;
    assert value == 10 * (p * (q / p) + q % p) + d;
    assert value == (10 * p) * (q / p) + (10 * (q % p) + d);
    Remainder(value, 10 * p, q / p, 10 * (q % p) + d);
  }

  lemma Remainder(x: nat, m: nat, q: nat, r: nat)
    requires m > 0 && x == m * q + r && r < m
    ensures x % m == r && x / m == q
  {
    var k := q - x / m;
    assert m * k == m * q - m * (x / m);
    assert x % m - r == m * k;
    if k >= 1 {
      MultipleAtLeast(m, k);
    } else if k <= -1 {
      MultipleAtLeast(m, -k);
    }
  }

  lemma MultipleAtLeast(m: int, k: int)
    requires m >= 0 && k >= 1
    ensures m * k >= m
  {
    assert m * k == m * (k - 1) + m;
  }

  lemma {:induction false} CountBounds(value: nat)
    ensures value < Pow10(CountDigits(value))
    ensures value > 0 ==> Pow10(CountDigits(value) - 1) <= value
  {
    if value >= 10 {
      CountBounds(value / 10);
    }
  }

  /** A number printed reads back as itself, in no more digits than it takes. */
  lemma DigitsParse(value: nat)
    ensures AllDigits(Digits(value))
    ensures Parse(Digits(value)) == value
    ensures Digits(value) != [] && (value > 0 ==> Digits(value)[0] != 0x30)
  {
    var n := CountDigits(value);
    CountBounds(value);
    FixedParsesExact(value, n);
    if value > 0 {
      FirstDigit(value, n);
    }
  }

  lemma FixedParsesExact(value: nat, n: nat)
    requires value < Pow10(n)
    ensures AllDigits(FixedDigits(value, n)) && Parse(FixedDigits(value, n)) == value
  {
    FixedParses(value, n);
    Remainder(value, Pow10(n), 0, value);
  }

  lemma {:induction false} FirstDigit(value: nat, n: nat)
    requires n > 0 && Pow10(n - 1) <= value < Pow10(n)
    ensures FixedDigits(value, n)[0] != 0x30
  {
    if n > 1 {
      FirstDigit(value / 10, n - 1);
      assert FixedDigits(value, n)[0] == FixedDigits(value / 10, n - 1)[0];
    } else {
      assert FixedDigits(value, 1) == FixedDigits(value / 10, 0) + [DigitToChar(value)];
    }
  }

  // ----- Signed -----

  function SignedDigits(number: int): seq<byte> {
    if number < 0 then [MINUS] + Digits(-number) else Digits(number)
  }

  predicate IsSigned(s: seq<byte>) {
    var digits := if s != [] && s[0] == 0x2D then s[1..] else s;
    digits != [] && AllDigits(digits)
  }

  function ParseSigned(s: seq<byte>): int
    requires IsSigned(s)
  {
    if s[0] == 0x2D then -(Parse(s[1..]) as int) else Parse(s) as int
  }

  lemma SignedParses(number: int)
    ensures IsSigned(SignedDigits(number)) && ParseSigned(SignedDigits(number)) == number
    ensures SignedDigits(number)[0] == 0x2D <==> number < 0
  {
    hide Digits, Parse;
    if number < 0 {
      DigitsParse(-number);
      assert SignedDigits(number)[1..] == Digits(-number);
    } else {
      DigitsParse(number);
    }
  }

  // ----- One digit at a time, from the front -----

  function InFront(value: nat, n: nat): (q: nat)
    ensures Pow10(n) > 0 && q == value / Pow10(n)
  {
    PowPositive(n);
    Quotient(value, Pow10(n))
  }

  function Quotient(value: nat, p: nat): (q: nat)
    requires p > 0
    ensures q == value / p
  {
    value / p
  }

  function Behind(value: nat, n: nat): (r: nat)
    ensures Pow10(n) > 0 && r == value % Pow10(n) < Pow10(n)
  {
    PowPositive(n);
    value % Pow10(n)
  }

  // What a division by a power of ten leaves in front, and what it leaves behind.
  lemma {:induction false} LeadingDigit(value: nat, n: nat)
    requires n > 0
    ensures FixedDigits(value, n) == [DigitToChar(InFront(value, n - 1))] + FixedDigits(Behind(value, n - 1), n - 1)
  {
    if n == 1 {
      assert FixedDigits(value, 1) == FixedDigits(value / 10, 0) + [DigitToChar(value)];
    } else {
      PowPositive(n - 2);
      LeadingDigit(value / 10, n - 1);
      SplitDigits(value, Pow10(n - 2));
      DigitsBehind(value, Behind(value, n - 1), n - 1, Pow10(n - 2));
    }
  }

  lemma SplitDigits(value: nat, p: nat)
    requires p > 0
    ensures value / (10 * p) == value / 10 / p
    ensures value % (10 * p) / 10 == value / 10 % p && value % (10 * p) % 10 == value % 10
  {
    LastDigitApart(value, p);
    QuotientShift(value, p);
  }

  lemma DigitsBehind(value: nat, behind: nat, n: nat, p: nat)
    requires n > 0 && p > 0 && behind / 10 == value / 10 % p && behind % 10 == value % 10
    ensures FixedDigits(behind, n) == FixedDigits(value / 10 % p, n - 1) + [DigitToChar(value)]
  {
  }

  lemma QuotientShift(value: nat, p: nat)
    requires p > 0
    ensures value / (10 * p) == value / 10 / p
  {
    var q := value / 10;
    assert value == 10 * (p * (q / p) + q % p) + value % 10;
    assert value == (10 * p) * (q / p) + (10 * (q % p) + value % 10);
    Remainder(value, 10 * p, q / p, 10 * (q % p) + value % 10);
  }

  lemma {:induction false} PowPositive(n: nat)
    ensures Pow10(n) > 0
  {
    if n > 0 {
      PowPositive(n - 1);
    }
  }

  // A 32-bit number takes at most ten digits, and the divisor that reaches its first one does not overflow.
  lemma WordDigits(value: nat)
    requires value < 0x1_0000_0000
    ensures CountDigits(value) <= 10 && 0 < Pow10(CountDigits(value) - 1) < 0x1_0000_0000
  {
    var n := CountDigits(value);
    CountBounds(value);
    PowPositive(n - 1);
    if n > 10 {
      PowGrows(10, n - 1);
      assert Pow10(10) == 10_000_000_000 by { PowTen(); }
    } else {
      PowGrows(n - 1, 9);
      PowTen();
    }
  }

  lemma PowTen()
    ensures Pow10(9) == 1_000_000_000 && Pow10(10) == 10_000_000_000
  {
    assert Pow10(3) == 1000;
    assert Pow10(6) == 1_000_000;
    assert Pow10(9) == 1_000_000_000;
  }

  lemma {:induction false} PowGrows(a: nat, b: nat)
    requires a <= b
    ensures Pow10(a) <= Pow10(b)
    decreases b
  {
    if a < b {
      PowGrows(a, b - 1);
    }
  }
}
