/** Block sequence numbers: they run from zero to one short of a modulus and wrap. */
module SequenceSpace {

  lemma OnceRound(x: nat, modulus: nat)
    requires 0 < modulus && x < 2 * modulus
    ensures x % modulus == if x < modulus then x else x - modulus
  {
    if x >= modulus {
      assert x == (x - modulus) + modulus;
      assert x / modulus == 1;
    }
  }

  function Next(s: nat, modulus: nat): (n: nat)
    requires s < modulus
    ensures n == if s + 1 == modulus then 0 else s + 1
  {
    OnceRound(s + 1, modulus);
    (s + 1) % modulus
  }

  function Prev(s: nat, modulus: nat): (p: nat)
    requires s < modulus
    ensures p == if s == 0 then modulus - 1 else s - 1
  {
    OnceRound(s + modulus - 1, modulus);
    (s + modulus - 1) % modulus
  }

  // The number d places on from s, going round.
  function On(s: nat, d: nat, modulus: nat): (n: nat)
    requires s < modulus && d <= modulus
    ensures n < modulus
    ensures n == if s + d < modulus then s + d else s + d - modulus
  {
    OnceRound(s + d, modulus);
    (s + d) % modulus
  }

  // How many places on from a, going round, b lies.
  function Dist(a: nat, b: nat, modulus: nat): (d: nat)
    requires a < modulus && b < modulus
    ensures d < modulus
    ensures d == if a <= b then b - a else b - a + modulus
  {
    OnceRound(b - a + modulus, modulus);
    (b - a + modulus) % modulus
  }
}
