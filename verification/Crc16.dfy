/** The 16-bit CRC of the store's integrity policy, generator x^16 + x^12 + x^5 + 1 from all ones,
    and what it is bound to detect.

    A machine word is its bits, most significant first: a shift drops the first bit,
    the top-bit mask reads it, and exclusive or works place by place. */
module Crc16 {

  type Bits = seq<bool>

  type Byte = b: Bits | |b| == 8 witness [false, false, false, false, false, false, false, false]

  type Word = w: Bits | |w| == 16
    witness [false, false, false, false, false, false, false, false,
             false, false, false, false, false, false, false, false]

  datatype OpenResult = Opened | Rejected

  function Zeros(n: nat): (z: Bits)
    ensures |z| == n && forall i :: 0 <= i < n ==> !z[i]
  {
    seq(n, i => false)
  }

  function Xor(a: Bits, b: Bits): (x: Bits)
    requires |a| == |b|
    ensures |x| == |a| && forall i :: 0 <= i < |x| ==> x[i] == (a[i] != b[i])
  {
    seq(|a|, i requires 0 <= i < |a| => a[i] != b[i])
  }

  function Join(hi: Byte, lo: Byte): Word {
    var bits: Bits := hi;
    bits + lo
  }

  const INIT: Word := [true, true, true, true, true, true, true, true,
                       true, true, true, true, true, true, true, true]

  // 0x1021: x^12 + x^5 + 1, the x^16 term being the bit shifted out.
  const POLY: Word := [false, false, false, true, false, false, false, false,
                       false, false, true, false, false, false, false, true]

  // ----- The register as the loops drive it -----

  function Shift(crc: Word): Word {
    if crc[0] then Xor(crc[1..] + [false], POLY) else crc[1..] + [false]
  }

  function Shifts(crc: Word, n: nat): Word {
    if n == 0 then crc else Shift(Shifts(crc, n - 1))
  }

  function FeedByte(crc: Word, b: Byte): Word {
    Shifts(Xor(crc, b + Zeros(8)), 8)
  }

  function Crc(crc: Word, data: seq<Byte>): Word {
    if data == [] then crc else FeedByte(Crc(crc, data[..|data| - 1]), data[|data| - 1])
  }

  method Compute(data: array<Byte>, length: nat) returns (crc: Word)
    requires length <= data.Length && length < 0x1_0000
    ensures crc == Crc(INIT, data[..length])
  {
    crc := INIT;
    for i := 0 to length
      invariant crc == Crc(INIT, data[..i])
    {
      ghost var before := crc;
      crc := Xor(crc, data[i] + Zeros(8));
      for bit := 0 to 8
        invariant crc == Shifts(Xor(before, data[i] + Zeros(8)), bit)
      {
        if crc[0] {
          crc := Xor(crc[1..] + [false], POLY);
        } else {
          crc := crc[1..] + [false];
        }
      }
      assert data[..i + 1][..i] == data[..i];
    }
  }

  // ----- Its check value -----

  type Nibble = n: Bits | |n| == 4 witness [false, false, false, false]

  const x0: Nibble := [false, false, false, false]
  const x1: Nibble := [false, false, false, true]
  const x2: Nibble := [false, false, true, false]
  const x3: Nibble := [false, false, true, true]
  const x4: Nibble := [false, true, false, false]
  const x5: Nibble := [false, true, false, true]
  const x6: Nibble := [false, true, true, false]
  const x7: Nibble := [false, true, true, true]
  const x8: Nibble := [true, false, false, false]
  const x9: Nibble := [true, false, false, true]
  const xA: Nibble := [true, false, true, false]
  const xB: Nibble := [true, false, true, true]
  const xC: Nibble := [true, true, false, false]
  const xD: Nibble := [true, true, false, true]
  const xE: Nibble := [true, true, true, false]
  const xF: Nibble := [true, true, true, true]

  function Number(a: Nibble, b: Nibble, c: Nibble, d: Nibble): Word {
    [a[0], a[1], a[2], a[3], b[0], b[1], b[2], b[3], c[0], c[1], c[2], c[3], d[0], d[1], d[2], d[3]]
  }

  function Octet(a: Nibble, b: Nibble): Byte {
    [a[0], a[1], a[2], a[3], b[0], b[1], b[2], b[3]]
  }

  // One shift, bit by bit: the bit shifted out comes back in three places.
  predicate ShiftsTo(x: Word, y: Word) {
    && y[0] == x[1] && y[1] == x[2] && y[2] == x[3] && y[3] == (x[4] != x[0])
    && y[4] == x[5] && y[5] == x[6] && y[6] == x[7] && y[7] == x[8]
    && y[8] == x[9] && y[9] == x[10] && y[10] == (x[11] != x[0]) && y[11] == x[12]
    && y[12] == x[13] && y[13] == x[14] && y[14] == x[15] && y[15] == x[0]
  }

  // Division by x^16 + x^12 + x^5 + 1, and by no other polynomial.
  lemma OneShift(x: Word)
    ensures ShiftsTo(x, Shift(x))
    ensures forall y: Word :: ShiftsTo(x, y) ==> y == Shift(x)
  {
    forall y: Word | ShiftsTo(x, y)
      ensures y == Shift(x)
    {
      SameBits(y, Shift(x));
    }
  }

  lemma SameBits(x: Word, y: Word)
    requires x[0] == y[0] && x[1] == y[1] && x[2] == y[2] && x[3] == y[3]
    requires x[4] == y[4] && x[5] == y[5] && x[6] == y[6] && x[7] == y[7]
    requires x[8] == y[8] && x[9] == y[9] && x[10] == y[10] && x[11] == y[11]
    requires x[12] == y[12] && x[13] == y[13] && x[14] == y[14] && x[15] == y[15]
    ensures x == y
  {
    SameFour(x, y, 0);
    SameFour(x, y, 4);
    SameFour(x, y, 8);
    SameFour(x, y, 12);
    assert x == x[..4] + x[4..8] + x[8..12] + x[12..];
  }

  lemma SameFour(x: Word, y: Word, i: nat)
    requires i <= 12 && x[i] == y[i] && x[i + 1] == y[i + 1] && x[i + 2] == y[i + 2] && x[i + 3] == y[i + 3]
    ensures x[i..i + 4] == y[i..i + 4]
  {
  }

  // An octet fed to a register, through the registers after each of its shifts.
  lemma {:induction false} ShiftsThrough(r: seq<Word>, n: nat)
    requires n < |r| && forall i :: 0 <= i < n ==> ShiftsTo(r[i], r[i + 1])
    ensures Shifts(r[0], n) == r[n]
  {
    hide ShiftsTo;
    if n > 0 {
      ShiftsThrough(r, n - 1);
      OneShift(r[n - 1]);
    }
  }

  lemma OctetFed(crc: Word, octet: Byte, r: seq<Word>)
    requires |r| == 9 && forall i :: 0 <= i < 8 ==> ShiftsTo(r[i], r[i + 1])
    requires r[0][..8] == Xor(crc[..8], octet) && r[0][8..] == crc[8..]
    ensures FeedByte(crc, octet) == r[8]
  {
    hide ShiftsTo, Shifts;
    assert Xor(crc, octet + Zeros(8)) == r[0];
    ShiftsThrough(r, 8);
  }

  lemma FedOne()
    ensures FeedByte(Number(xF, xF, xF, xF), Octet(x3, x1)) == Number(xC, x7, x8, x2)
  {
    OctetFed(Number(xF, xF, xF, xF), Octet(x3, x1),
             [Number(xC, xE, xF, xF), Number(x8, xD, xD, xF), Number(x0, xB, x9, xF),
              Number(x1, x7, x3, xE), Number(x2, xE, x7, xC), Number(x5, xC, xF, x8),
              Number(xB, x9, xF, x0), Number(x6, x3, xC, x1), Number(xC, x7, x8, x2)]);
  }

  lemma FedTwo()
    ensures FeedByte(Number(xC, x7, x8, x2), Octet(x3, x2)) == Number(x3, xD, xB, xA)
  {
    OctetFed(Number(xC, x7, x8, x2), Octet(x3, x2),
             [Number(xF, x5, x8, x2), Number(xF, xB, x2, x5), Number(xE, x6, x6, xB),
              Number(xD, xC, xF, x7), Number(xA, x9, xC, xF), Number(x4, x3, xB, xF),
              Number(x8, x7, x7, xE), Number(x1, xE, xD, xD), Number(x3, xD, xB, xA)]);
  }

  lemma FedThree()
    ensures FeedByte(Number(x3, xD, xB, xA), Octet(x3, x3)) == Number(x5, xB, xC, xE)
  {
    OctetFed(Number(x3, xD, xB, xA), Octet(x3, x3),
             [Number(x0, xE, xB, xA), Number(x1, xD, x7, x4), Number(x3, xA, xE, x8),
              Number(x7, x5, xD, x0), Number(xE, xB, xA, x0), Number(xC, x7, x6, x1),
              Number(x9, xE, xE, x3), Number(x2, xD, xE, x7), Number(x5, xB, xC, xE)]);
  }

  lemma FedFour()
    ensures FeedByte(Number(x5, xB, xC, xE), Octet(x3, x4)) == Number(x5, x3, x4, x9)
  {
    OctetFed(Number(x5, xB, xC, xE), Octet(x3, x4),
             [Number(x6, xF, xC, xE), Number(xD, xF, x9, xC), Number(xA, xF, x1, x9),
              Number(x4, xE, x1, x3), Number(x9, xC, x2, x6), Number(x2, x8, x6, xD),
              Number(x5, x0, xD, xA), Number(xA, x1, xB, x4), Number(x5, x3, x4, x9)]);
  }

  lemma FedFive()
    ensures FeedByte(Number(x5, x3, x4, x9), Octet(x3, x5)) == Number(x4, x5, x6, x0)
  {
    OctetFed(Number(x5, x3, x4, x9), Octet(x3, x5),
             [Number(x6, x6, x4, x9), Number(xC, xC, x9, x2), Number(x8, x9, x0, x5),
              Number(x0, x2, x2, xB), Number(x0, x4, x5, x6), Number(x0, x8, xA, xC),
              Number(x1, x1, x5, x8), Number(x2, x2, xB, x0), Number(x4, x5, x6, x0)]);
  }

  lemma FedSix()
    ensures FeedByte(Number(x4, x5, x6, x0), Octet(x3, x6)) == Number(x2, xE, xF, x4)
  {
    OctetFed(Number(x4, x5, x6, x0), Octet(x3, x6),
             [Number(x7, x3, x6, x0), Number(xE, x6, xC, x0), Number(xD, xD, xA, x1),
              Number(xA, xB, x6, x3), Number(x4, x6, xE, x7), Number(x8, xD, xC, xE),
              Number(x0, xB, xB, xD), Number(x1, x7, x7, xA), Number(x2, xE, xF, x4)]);
  }

  lemma FedSeven()
    ensures FeedByte(Number(x2, xE, xF, x4), Octet(x3, x7)) == Number(x7, x7, x1, x8)
  {
    OctetFed(Number(x2, xE, xF, x4), Octet(x3, x7),
             [Number(x1, x9, xF, x4), Number(x3, x3, xE, x8), Number(x6, x7, xD, x0),
              Number(xC, xF, xA, x0), Number(x8, xF, x6, x1), Number(x0, xE, xE, x3),
              Number(x1, xD, xC, x6), Number(x3, xB, x8, xC), Number(x7, x7, x1, x8)]);
  }

  lemma FedEight()
    ensures FeedByte(Number(x7, x7, x1, x8), Octet(x3, x8)) == Number(xA, x1, x2, xB)
  {
    OctetFed(Number(x7, x7, x1, x8), Octet(x3, x8),
             [Number(x4, xF, x1, x8), Number(x9, xE, x3, x0), Number(x2, xC, x4, x1),
              Number(x5, x8, x8, x2), Number(xB, x1, x0, x4), Number(x7, x2, x2, x9),
              Number(xE, x4, x5, x2), Number(xD, x8, x8, x5), Number(xA, x1, x2, xB)]);
  }

  lemma FedNine()
    ensures FeedByte(Number(xA, x1, x2, xB), Octet(x3, x9)) == Number(x2, x9, xB, x1)
  {
    OctetFed(Number(xA, x1, x2, xB), Octet(x3, x9),
             [Number(x9, x8, x2, xB), Number(x2, x0, x7, x7), Number(x4, x0, xE, xE),
              Number(x8, x1, xD, xC), Number(x1, x3, x9, x9), Number(x2, x7, x3, x2),
              Number(x4, xE, x6, x4), Number(x9, xC, xC, x8), Number(x2, x9, xB, x1)]);
  }

  lemma OneOctetMore(crc: Word, octets: seq<Byte>, octet: Byte)
    ensures Crc(crc, octets + [octet]) == FeedByte(Crc(crc, octets), octet)
  {
    assert (octets + [octet])[..|octets|] == octets;
  }

  // The digits 1 to 9 in ASCII, as many of them as asked for.
  function Digits(n: nat): seq<Byte>
    requires n <= 9
  {
    [Octet(x3, x1), Octet(x3, x2), Octet(x3, x3), Octet(x3, x4), Octet(x3, x5), Octet(x3, x6), Octet(x3, x7),
     Octet(x3, x8), Octet(x3, x9)][..n]
  }

  lemma DigitMore(n: nat)
    requires n < 9
    ensures Crc(INIT, Digits(n + 1)) == FeedByte(Crc(INIT, Digits(n)), Digits(9)[n])
  {
    hide Octet;
    assert Digits(n + 1) == Digits(n) + [Digits(9)[n]];
    OneOctetMore(INIT, Digits(n), Digits(9)[n]);
  }

  /** The CRC of the digits 1 to 9 in ASCII is 0x29B1, the value published for this CRC. */
  lemma CheckValue()
    ensures Crc(INIT, Digits(9)) == Number(x2, x9, xB, x1)
  {
    hide Number, Octet, FeedByte, Crc;
    FirstRegister();
    forall n: nat | n < 9
      ensures Crc(INIT, Digits(n + 1)) == FeedByte(Crc(INIT, Digits(n)), Digits(9)[n])
    {
      DigitMore(n);
    }
    FedOne();
    assert Crc(INIT, Digits(1)) == Number(xC, x7, x8, x2);
    FedTwo();
    assert Crc(INIT, Digits(2)) == Number(x3, xD, xB, xA);
    FedThree();
    assert Crc(INIT, Digits(3)) == Number(x5, xB, xC, xE);
    FedFour();
    assert Crc(INIT, Digits(4)) == Number(x5, x3, x4, x9);
    FedFive();
    assert Crc(INIT, Digits(5)) == Number(x4, x5, x6, x0);
    FedSix();
    assert Crc(INIT, Digits(6)) == Number(x2, xE, xF, x4);
    FedSeven();
    assert Crc(INIT, Digits(7)) == Number(x7, x7, x1, x8);
    FedEight();
    assert Crc(INIT, Digits(8)) == Number(xA, x1, x2, xB);
    FedNine();
    assert Crc(INIT, Digits(9)) == Number(x2, x9, xB, x1);
  }

  lemma FirstRegister()
    ensures Crc(INIT, Digits(0)) == Number(xF, xF, xF, xF)
  {
    SameBits(INIT, Number(xF, xF, xF, xF));
  }

  // ----- The policy -----

  method SealRecord(content: array<Byte>, contentLength: nat, trailer: array<Byte>) returns (ok: bool)
    requires contentLength <= content.Length && contentLength < 0x1_0000
    requires trailer.Length >= 2 && trailer != content
    modifies trailer
    ensures ok
    ensures trailer[..2] == Seal(content[..contentLength])
    ensures trailer[2..] == old(trailer[2..])
  {
    var crc := Compute(content, contentLength);
    trailer[0] := crc[..8];
    trailer[1] := crc[8..];
    ok := true;
  }

  method OpenRecord(content: array<Byte>, contentLength: nat, trailer: array<Byte>) returns (r: OpenResult)
    requires contentLength <= content.Length && contentLength < 0x1_0000
    requires trailer.Length >= 2
    ensures r == Open(content[..contentLength], trailer[..2])
  {
    var crc := Compute(content, contentLength);
    var expected := Join(trailer[0], trailer[1]);
    r := if crc == expected then Opened else Rejected;
  }

  function Seal(content: seq<Byte>): seq<Byte> {
    var crc := Crc(INIT, content);
    [crc[..8], crc[8..]]
  }

  function Open(content: seq<Byte>, trailer: seq<Byte>): OpenResult
    requires |trailer| == 2
  {
    if Crc(INIT, content) == Join(trailer[0], trailer[1]) then Opened else Rejected
  }

  // ----- Reference: the message bits fed to the polynomial one at a time -----

  function FeedBit(r: Word, bit: bool): Word {
    if r[0] != bit then Xor(r[1..] + [false], POLY) else r[1..] + [false]
  }

  function Feed(r: Word, bits: Bits): Word {
    if bits == [] then r else FeedBit(Feed(r, bits[..|bits| - 1]), bits[|bits| - 1])
  }

  function Flatten(data: seq<Byte>): (bits: Bits)
    ensures |bits| == 8 * |data|
  {
    if data == [] then [] else Flatten(data[..|data| - 1]) + data[|data| - 1]
  }

  lemma {:induction false} FeedConcat(r: Word, a: Bits, b: Bits)
    ensures Feed(r, a + b) == Feed(Feed(r, a), b)
  {
    if b == [] {
      assert a + b == a;
    } else {
      assert (a + b)[..|a + b| - 1] == a + b[..|b| - 1];
      FeedConcat(r, a, b[..|b| - 1]);
    }
  }

  lemma FeedSnoc(r: Word, a: Bits, bit: bool)
    ensures Feed(r, a + [bit]) == FeedBit(Feed(r, a), bit)
  {
    assert (a + [bit])[..|a|] == a;
  }

  lemma ShiftHeld(r: Word, held: Word)
    ensures Shift(Xor(r, held)) == Xor(FeedBit(r, held[0]), held[1..] + [false])
  {
    var shifted := Xor(r[1..] + [false], held[1..] + [false]);
    assert Xor(r, held)[1..] + [false] == shifted;
    assert Xor(Xor(r[1..] + [false], POLY), held[1..] + [false]) == Xor(shifted, POLY);
  }

  // The bits of a byte still held, lined up with the register's top.
  function Held(b: Byte, n: nat): (w: Word)
    requires n <= 8
    ensures forall i :: 0 <= i < 16 ==> w[i] == (i < 8 - n && b[n + i])
  {
    seq(16, i requires 0 <= i < 16 => i < 8 - n && b[n + i])
  }

  lemma HeldNext(b: Byte, n: nat)
    requires n < 8
    ensures Held(b, n)[1..] + [false] == Held(b, n + 1) && Held(b, n)[0] == b[n]
  {
  }

  // A byte held in the register's top half meets the top bit one shift at a time.
  lemma {:induction false} ShiftsAreBits(crc: Word, b: Byte, n: nat)
    requires n <= 8
    ensures Shifts(Xor(crc, Held(b, 0)), n) == Xor(Feed(crc, b[..n]), Held(b, n))
  {
    if n > 0 {
      ShiftsAreBits(crc, b, n - 1);
      var fed := Feed(crc, b[..n - 1]);
      hide Feed, FeedBit, Shift, Xor, Held;
      HeldNext(b, n - 1);
      ShiftHeld(fed, Held(b, n - 1));
      FeedSnoc(crc, b[..n - 1], b[n - 1]);
      assert b[..n] == b[..n - 1] + [b[n - 1]];
    } else {
      assert b[..0] == [];
    }
  }

  lemma FeedByteIsFeed(crc: Word, b: Byte)
    ensures FeedByte(crc, b) == Feed(crc, b)
  {
    ShiftsAreBits(crc, b, 8);
    assert b[..8] == b;
    assert b + Zeros(8) == Held(b, 0);
    assert Xor(Feed(crc, b), Held(b, 8)) == Feed(crc, b);
  }

  /** The loops compute the bit-serial remainder of the whole message. */
  lemma {:induction false} CrcIsFeed(crc: Word, data: seq<Byte>)
    ensures Crc(crc, data) == Feed(crc, Flatten(data))
  {
    if data != [] {
      var front, last := data[..|data| - 1], data[|data| - 1];
      CrcIsFeed(crc, front);
      FeedConcat(crc, Flatten(front), last);
      FeedByteIsFeed(Crc(crc, front), last);
    }
  }

  // ----- Exclusive or passes through the register -----

  lemma FeedBitLinear(a: Word, b: Word, p: bool, q: bool)
    ensures FeedBit(Xor(a, b), p != q) == Xor(FeedBit(a, p), FeedBit(b, q))
  {
    assert Xor(a, b)[1..] + [false] == Xor(a[1..] + [false], b[1..] + [false]);
  }

  lemma {:induction false} FeedLinear(a: Word, b: Word, u: Bits, v: Bits)
    requires |u| == |v|
    ensures Feed(Xor(a, b), Xor(u, v)) == Xor(Feed(a, u), Feed(b, v))
  {
    if u != [] {
      var n := |u| - 1;
      FeedLinear(a, b, u[..n], v[..n]);
      assert Xor(u, v)[..n] == Xor(u[..n], v[..n]);
      FeedBitLinear(Feed(a, u[..n]), Feed(b, v[..n]), u[n], v[n]);
    }
  }

  // What two messages of one length leave in the register differs by what their difference alone leaves.
  lemma DifferenceAlone(u: Bits, v: Bits)
    requires |u| == |v|
    ensures Xor(Feed(INIT, u), Feed(INIT, v)) == Feed(Zeros(16), Xor(u, v))
  {
    FeedLinear(INIT, INIT, u, v);
    assert Xor(INIT, INIT) == Zeros(16);
  }

  // ----- Opening is a zero remainder over content and trailer -----

  // A register fed its own bits shifts out to nothing.
  lemma {:induction false} FeedOwn(r: Word, n: nat)
    requires n <= 16
    ensures Feed(r, r[..n]) == r[n..] + Zeros(n)
  {
    if n > 0 {
      FeedOwn(r, n - 1);
      assert r[..n][..n - 1] == r[..n - 1];
      assert (r[n - 1..] + Zeros(n - 1))[1..] + [false] == r[n..] + Zeros(n);
    }
  }

  predicate LowClear(r: Word, k: nat)
    requires k <= 16
  {
    forall i :: 16 - k <= i < 16 ==> !r[i]
  }

  // Clear low bits mean the polynomial, whose lowest bit is set, was not added.
  lemma FeedBitBackward(r: Word, bit: bool, k: nat)
    requires 1 <= k <= 16
    requires LowClear(FeedBit(r, bit), k)
    ensures bit == r[0] && LowClear(r, k - 1)
    ensures FeedBit(r, bit) == r[1..] + [false]
  {
    assert !FeedBit(r, bit)[15];
    forall i | 16 - (k - 1) <= i < 16
      ensures !r[i]
    {
      assert (r[1..] + [false])[i - 1] == r[i];
    }
  }

  // Up to sixteen bits cannot cancel among themselves.
  lemma {:induction false} ShortMessageSurvives(w: Bits, k: nat)
    requires |w| <= k <= 16
    requires LowClear(Feed(Zeros(16), w), k)
    ensures w == Zeros(|w|) && Feed(Zeros(16), w) == Zeros(16)
  {
    if w != [] {
      var u, bit := w[..|w| - 1], w[|w| - 1];
      FeedBitBackward(Feed(Zeros(16), u), bit, k);
      ShortMessageSurvives(u, k - 1);
      assert w == u + [bit];
    }
  }

  lemma ZeroBitClearsOnlyZero(r: Word)
    ensures FeedBit(r, false) == Zeros(16) ==> r == Zeros(16)
  {
    if FeedBit(r, false) == Zeros(16) {
      FeedBitBackward(r, false, 16);
      assert r == Zeros(16);
    }
  }

  lemma {:induction false} TrailingZerosKeepError(r: Word, q: nat)
    requires r != Zeros(16)
    ensures Feed(r, Zeros(q)) != Zeros(16)
  {
    if q > 0 {
      TrailingZerosKeepError(r, q - 1);
      assert Zeros(q)[..q - 1] == Zeros(q - 1);
      ZeroBitClearsOnlyZero(Feed(r, Zeros(q - 1)));
    }
  }

  lemma {:induction false} LeadingZeros(n: nat)
    ensures Feed(Zeros(16), Zeros(n)) == Zeros(16)
  {
    if n > 0 {
      LeadingZeros(n - 1);
      assert Zeros(n)[..n - 1] == Zeros(n - 1);
      assert FeedBit(Zeros(16), false) == Zeros(16);
    }
  }

  lemma XorZeroIffEqual(a: Bits, b: Bits)
    requires |a| == |b|
    ensures Xor(a, b) == Zeros(|a|) <==> a == b
  {
    if Xor(a, b) == Zeros(|a|) {
      forall i | 0 <= i < |a|
        ensures a[i] == b[i]
      {
        assert Xor(a, b)[i] == Zeros(|a|)[i];
      }
    }
  }

  // Only its own bits clear a register.
  lemma FeedToZero(r: Word, t: Word)
    ensures Feed(r, t) == Zeros(16) <==> t == r
  {
    FeedOwn(r, 16);
    assert r[..16] == r && r[16..] + Zeros(16) == Zeros(16);
    if Feed(r, t) == Zeros(16) {
      FeedLinear(r, r, r, t);
      assert Xor(r, r) == Zeros(16) && Xor(Zeros(16), Zeros(16)) == Zeros(16);
      ShortMessageSurvives(Xor(r, t), 16);
      XorZeroIffEqual(r, t);
    }
  }

  function Message(content: seq<Byte>, trailer: seq<Byte>): (bits: Bits)
    requires |trailer| == 2
    ensures |bits| == 8 * |content| + 16
  {
    Flatten(content) + Join(trailer[0], trailer[1])
  }

  /** A record opens exactly when the remainder of its content followed by its trailer is zero. */
  lemma OpenedIffZeroRemainder(content: seq<Byte>, trailer: seq<Byte>)
    requires |trailer| == 2
    ensures Open(content, trailer) == Opened <==> Feed(INIT, Message(content, trailer)) == Zeros(16)
    ensures Feed(INIT, Message(content, trailer)) == Crc(INIT, content + trailer)
  {
    CrcIsFeed(INIT, content);
    FeedConcat(INIT, Flatten(content), Join(trailer[0], trailer[1]));
    FeedToZero(Crc(INIT, content), Join(trailer[0], trailer[1]));
    CrcIsFeed(INIT, content + trailer);
    FlattenMessage(content, trailer);
  }

  lemma FlattenMessage(content: seq<Byte>, trailer: seq<Byte>)
    requires |trailer| == 2
    ensures Flatten(content + trailer) == Message(content, trailer)
  {
    var all := content + trailer;
    assert all[..|all| - 1] == content + [trailer[0]];
    assert (content + [trailer[0]])[..|content|] == content;
    var a: Bits, b: Bits, c: Bits := Flatten(content), trailer[0], trailer[1];
    assert Flatten(all) == (a + b) + c;
  }

  lemma {:induction false} FlattenInjective(a: seq<Byte>, b: seq<Byte>)
    requires |a| == |b| && Flatten(a) == Flatten(b)
    ensures a == b
  {
    if a != [] {
      var n := |a| - 1;
      assert Flatten(a)[..8 * n] == Flatten(a[..n]) && Flatten(b)[..8 * n] == Flatten(b[..n]);
      assert Flatten(a)[8 * n..] == a[n] && Flatten(b)[8 * n..] == b[n];
      FlattenInjective(a[..n], b[..n]);
      assert a == a[..n] + [a[n]] && b == b[..n] + [b[n]];
    }
  }

  lemma MessageInjective(content: seq<Byte>, trailer: seq<Byte>, content': seq<Byte>, trailer': seq<Byte>)
    requires |trailer| == |trailer'| == 2 && |content| == |content'|
    requires Message(content, trailer) == Message(content', trailer')
    ensures content == content' && trailer == trailer'
  {
    FlattenMessage(content, trailer);
    FlattenMessage(content', trailer');
    FlattenInjective(content + trailer, content' + trailer');
    assert content == (content + trailer)[..|content|] && content' == (content' + trailer')[..|content|];
    assert trailer == (content + trailer)[|content|..] && trailer' == (content' + trailer')[|content|..];
  }

  /** What was sealed opens again, unaltered. */
  lemma SealOpens(content: seq<Byte>)
    ensures Open(content, Seal(content)) == Opened
  {
    var crc := Crc(INIT, content);
    assert crc[..8] + crc[8..] == crc;
  }

  // An altered message opens only if its difference from the sealed one leaves no remainder.
  lemma UndetectedIffNoRemainder(content: seq<Byte>, trailer: seq<Byte>, content': seq<Byte>, trailer': seq<Byte>)
    requires |trailer| == |trailer'| == 2 && |content| == |content'|
    requires Open(content, trailer) == Opened
    ensures Open(content', trailer') == Opened <==>
            Feed(Zeros(16), Xor(Message(content, trailer), Message(content', trailer'))) == Zeros(16)
  {
    OpenedIffZeroRemainder(content, trailer);
    OpenedIffZeroRemainder(content', trailer');
    DifferenceAlone(Message(content, trailer), Message(content', trailer'));
    XorZeroIffEqual(Feed(INIT, Message(content, trailer)), Feed(INIT, Message(content', trailer')));
  }

  // ----- What the policy is bound to detect -----

  predicate DifferOnlyWithin(u: Bits, v: Bits, from: nat, width: nat)
    requires |u| == |v|
  {
    forall i :: 0 <= i < |u| && u[i] != v[i] ==> from <= i < from + width
  }

  lemma PaddedWordLeavesRemainder(from: nat, w: Word, rest: nat)
    requires w != Zeros(16)
    ensures Feed(Zeros(16), Zeros(from) + w + Zeros(rest)) != Zeros(16)
  {
    FeedConcat(Zeros(16), Zeros(from) + w, Zeros(rest));
    FeedConcat(Zeros(16), Zeros(from), w);
    LeadingZeros(from);
    if Feed(Zeros(16), w) == Zeros(16) {
      ShortMessageSurvives(w, 16);
    }
    TrailingZerosKeepError(Feed(Zeros(16), w), rest);
  }

  lemma ZerosJoin(from: nat, rest: nat)
    ensures Zeros(from) + Zeros(16) + Zeros(rest) == Zeros(from + 16 + rest)
  {
  }

  lemma ZeroOutside(x: Bits, from: nat)
    requires from + 16 <= |x|
    requires forall i :: 0 <= i < |x| && x[i] ==> from <= i < from + 16
    ensures x == Zeros(from) + x[from..from + 16] + Zeros(|x| - from - 16)
  {
    assert x[..from] == Zeros(from);
    assert x[from + 16..] == Zeros(|x| - from - 16);
    assert x == x[..from] + x[from..from + 16] + x[from + 16..];
  }

  lemma BurstLeavesRemainder(x: Bits, from: nat, w: Word, rest: nat)
    requires x == Zeros(from) + w + Zeros(rest)
    requires x != Zeros(from + 16 + rest)
    ensures Feed(Zeros(16), x) != Zeros(16)
  {
    ZerosJoin(from, rest);
    PaddedWordLeavesRemainder(from, w, rest);
  }

  lemma SplitBurst(u: Bits, v: Bits, from: nat)
    requires |u| == |v| >= 16
    requires DifferOnlyWithin(u, v, from, 16)
    requires Xor(u, v) != Zeros(|u|)
    ensures Feed(Zeros(16), Xor(u, v)) != Zeros(16)
  {
    var x, at := Xor(u, v), if from + 16 <= |u| then from else |u| - 16;
    ZeroOutside(x, at);
    BurstLeavesRemainder(x, at, x[at..at + 16], |u| - at - 16);
  }

  /** Any damage confined to sixteen consecutive bits of content followed by trailer is rejected,
      whatever the content's length. */
  lemma BurstDetected(content: seq<Byte>, trailer: seq<Byte>, content': seq<Byte>, trailer': seq<Byte>, from: nat)
    requires |trailer| == |trailer'| == 2 && |content| == |content'|
    requires Open(content, trailer) == Opened
    requires content != content' || trailer != trailer'
    requires DifferOnlyWithin(Message(content, trailer), Message(content', trailer'), from, 16)
    ensures Open(content', trailer') == Rejected
  {
    var u, v := Message(content, trailer), Message(content', trailer');
    if u == v { MessageInjective(content, trailer, content', trailer'); }
    XorZeroIffEqual(u, v);
    SplitBurst(u, v, from);
    UndetectedIffNoRemainder(content, trailer, content', trailer');
  }

  /** One bit more is too wide: of the seventeen-bit errors starting with a set bit, the generator
      x^16 + x^12 + x^5 + 1 itself is the one that leaves no remainder. */
  lemma SeventeenBitsMissedIffGenerator(w: Bits)
    requires |w| == 17 && w[0]
    ensures Feed(Zeros(16), w) == Zeros(16) <==>
            forall i :: 0 <= i < 17 ==> (w[i] <==> i == 0 || i == 4 || i == 11 || i == 16)
  {
    assert w == [true] + w[1..];
    FeedConcat(Zeros(16), [true], w[1..]);
    FeedOneBit();
    FeedToZero(POLY, w[1..]);
    assert forall i :: 1 <= i < 17 ==> w[i] == w[1..][i - 1];
  }

  lemma FeedOneBit()
    ensures Feed(Zeros(16), [true]) == POLY
  {
    FeedSnoc(Zeros(16), [], true);
    assert [] + [true] == [true];
    assert Zeros(16)[1..] + [false] == Zeros(16);
    assert Xor(Zeros(16), POLY) == POLY;
  }

  // ----- Parity -----

  function Ones(bits: Bits): nat {
    if bits == [] then 0 else Ones(bits[..|bits| - 1]) + if bits[|bits| - 1] then 1 else 0
  }

  predicate Odd(bits: Bits) { Ones(bits) % 2 == 1 }

  lemma {:induction false} OddXor(a: Bits, b: Bits)
    requires |a| == |b|
    ensures Odd(Xor(a, b)) == (Odd(a) != Odd(b))
  {
    if a != [] {
      var n := |a| - 1;
      OddXor(a[..n], b[..n]);
      assert Xor(a, b)[..n] == Xor(a[..n], b[..n]);
    }
  }

  lemma {:induction false} OnesConcat(a: Bits, b: Bits)
    ensures Ones(a + b) == Ones(a) + Ones(b)
  {
    if b == [] {
      assert a + b == a;
    } else {
      assert (a + b)[..|a + b| - 1] == a + b[..|b| - 1];
      OnesConcat(a, b[..|b| - 1]);
    }
  }

  lemma OddPoly()
    ensures Odd(POLY)
  {
    var p: Bits := POLY;
    OnesOfZeros(3);
    OnesOfZeros(4);
    OnesOfZeros(6);
    assert p == Zeros(3) + [true] + Zeros(6) + [true] + Zeros(4) + [true];
    OnesConcat(Zeros(3), [true]);
    OnesConcat(Zeros(3) + [true], Zeros(6));
    OnesConcat(Zeros(3) + [true] + Zeros(6), [true]);
    OnesConcat(Zeros(3) + [true] + Zeros(6) + [true], Zeros(4));
    OnesConcat(Zeros(3) + [true] + Zeros(6) + [true] + Zeros(4), [true]);
    assert Ones([true]) == 1;
  }

  lemma {:induction false} OnesOfZeros(n: nat)
    ensures Ones(Zeros(n)) == 0
  {
    if n > 0 {
      OnesOfZeros(n - 1);
      assert Zeros(n)[..n - 1] == Zeros(n - 1);
    }
  }

  // The polynomial, its leading term included, has an even number of terms, so feeding
  // a bit changes the register's parity exactly when the bit is set.
  lemma FeedBitParity(r: Word, bit: bool)
    ensures Odd(FeedBit(r, bit)) == (Odd(r) != bit)
  {
    OddPoly();
    OnesConcat([r[0]], r[1..]);
    assert [r[0]] + r[1..] == r;
    OnesConcat(r[1..], [false]);
    OddXor(r[1..] + [false], POLY);
  }

  lemma {:induction false} FeedParity(r: Word, bits: Bits)
    ensures Odd(Feed(r, bits)) == (Odd(r) != Odd(bits))
  {
    if bits != [] {
      FeedParity(r, bits[..|bits| - 1]);
      FeedBitParity(Feed(r, bits[..|bits| - 1]), bits[|bits| - 1]);
    }
  }

  /** Any odd number of flipped bits is rejected, whatever the content's length. */
  lemma OddFlipsDetected(content: seq<Byte>, trailer: seq<Byte>, content': seq<Byte>, trailer': seq<Byte>)
    requires |trailer| == |trailer'| == 2 && |content| == |content'|
    requires Open(content, trailer) == Opened
    requires Odd(Xor(Message(content, trailer), Message(content', trailer')))
    ensures Open(content', trailer') == Rejected
  {
    var x := Xor(Message(content, trailer), Message(content', trailer'));
    FeedParity(Zeros(16), x);
    OnesOfZeros(16);
    UndetectedIffNoRemainder(content, trailer, content', trailer');
  }
}
