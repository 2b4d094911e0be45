/** The CRC-16 policy as the store's records carry it: the body is the message, the trailer the CRC of the
    record's header and body. */
module Crc16Layout {
  import opened Bytes
  import opened RecordLayout
  import Crc16

  // ----- An octet and its bits, the most significant first -----

  function BitsOf(value: nat, width: nat): (bits: Crc16.Bits)
    ensures |bits| == width
  {
    if width == 0 then [] else BitsOf(value / 2, width - 1) + [value % 2 == 1]
  }

  function ValueOf(bits: Crc16.Bits): nat {
    if bits == [] then 0 else 2 * ValueOf(bits[..|bits| - 1]) + if bits[|bits| - 1] then 1 else 0
  }

  function Power(width: nat): (p: nat)
    ensures p > 0
  {
    if width == 0 then 1 else 2 * Power(width - 1)
  }

  lemma {:induction false} ValueWithin(bits: Crc16.Bits)
    ensures ValueOf(bits) < Power(|bits|)
  {
    if bits != [] {
      ValueWithin(bits[..|bits| - 1]);
    }
  }

  lemma {:induction false} BitsOfValue(bits: Crc16.Bits)
    ensures BitsOf(ValueOf(bits), |bits|) == bits
  {
    if bits != [] {
      var n := |bits| - 1;
      BitsOfValue(bits[..n]);
      assert ValueOf(bits) / 2 == ValueOf(bits[..n]);
      assert bits == bits[..n] + [bits[n]];
    }
  }

  function Octet(bits: Crc16.Byte): byte {
    ValueWithin(bits);
    assert Power(8) == 256;
    ValueOf(bits) as byte
  }

  function Bits(b: byte): Crc16.Byte {
    BitsOf(b as int, 8)
  }

  lemma BitsOfOctet(bits: Crc16.Byte)
    ensures Bits(Octet(bits)) == bits
  {
    BitsOfValue(bits);
  }

  function AllBits(bytes: seq<byte>): (bits: seq<Crc16.Byte>)
    ensures |bits| == |bytes|
  {
    seq(|bytes|, i requires 0 <= i < |bytes| => Bits(bytes[i]))
  }

  // ----- The layout -----

  // What the policy covers of a record: its header and its body.
  function Content(body: Record): seq<byte> {
    [MAGIC_0, MAGIC_1, (|body| % 256) as byte, (|body| / 256 % 256) as byte] + body
  }

  function Trailer(body: Record): (trailer: Record)
    ensures |trailer| == 2
  {
    var crc := Crc16.Seal(AllBits(Content(body)));
    [Octet(crc[0]), Octet(crc[1])]
  }

  // What OpenRecord says of a stored body and trailer.
  predicate Opens(body: Record, trailer: Record) {
    |trailer| == 2 && Crc16.Open(AllBits(Content(body)), AllBits(trailer)) == Crc16.Opened
  }

  function Crc16Layout(maxMessageSize: nat): Layout {
    Layout(maxMessageSize, 2, body => (body, Trailer(body)), (body, trailer) => body)
  }

  /** The layout is one the store can be built on, the policy covers the record's bytes up to its trailer, and
      opens what it sealed, read back whole from the block. */
  lemma SealedRecordOpens(maxMessageSize: nat, data: Record)
    requires 0 < maxMessageSize <= 65531 && 0 < |data| <= maxMessageSize
    ensures Crc16Layout(maxMessageSize).Sound()
    ensures var lay := Crc16Layout(maxMessageSize);
            && lay.Sealed(data)[..CONTENT_HEADER_SIZE + |data|] == Content(data)
            && lay.Whole(lay.Sealed(data)) && lay.Message(lay.Sealed(data)) == data
            && Opens(lay.Body(lay.Sealed(data)), lay.Trailer(lay.Sealed(data)))
  {
    hide Crc16.Seal, BitsOf, AllBits;
    var lay := Crc16Layout(maxMessageSize);
    SealedOpens(data);
    lay.SealedWhole(data);
    assert lay.HeaderLength(lay.Sealed(data)) == |data|;
    assert lay.Body(lay.Sealed(data)) == data;
    assert lay.Trailer(lay.Sealed(data)) == Trailer(data);
  }

  lemma SealedOpens(body: Record)
    ensures Opens(body, Trailer(body))
  {
    var content := AllBits(Content(body));
    var crc := Crc16.Seal(content);
    BitsOfOctet(crc[0]);
    BitsOfOctet(crc[1]);
    assert AllBits(Trailer(body)) == crc;
    Crc16.SealOpens(content);
  }

  lemma {:induction false} BitsInjective(a: nat, b: nat, width: nat)
    requires BitsOf(a, width) == BitsOf(b, width) && a < Power(width) && b < Power(width)
    ensures a == b
  {
    if width > 0 {
      var n := width - 1;
      assert BitsOf(a, width)[..n] == BitsOf(a / 2, n) && BitsOf(b, width)[..n] == BitsOf(b / 2, n);
      assert BitsOf(a, width)[n] == BitsOf(b, width)[n];
      BitsInjective(a / 2, b / 2, n);
    }
  }

  lemma AllBitsInjective(a: seq<byte>, b: seq<byte>)
    ensures AllBits(a) == AllBits(b) ==> a == b
  {
    assert |a| == |AllBits(a)| && |b| == |AllBits(b)| && Power(8) == 256;
    if AllBits(a) == AllBits(b) {
      forall i | 0 <= i < |a|
        ensures a[i] == b[i]
      {
        assert AllBits(a)[i] == Bits(a[i]) && AllBits(b)[i] == Bits(b[i]);
        BitsInjective(a[i] as int, b[i] as int, 8);
      }
    }
  }

  lemma ContentInjective(a: Record, b: Record)
    ensures AllBits(Content(a)) == AllBits(Content(b)) ==> a == b
  {
    AllBitsInjective(Content(a), Content(b));
    assert Content(a)[4..] == a && Content(b)[4..] == b;
  }

  /** A stored record of the same length altered within sixteen consecutive bits, or in an odd number of them, is
      rejected. */
  lemma AlteredRecordRejected(data: Record, body: Record, trailer: Record, from: nat)
    requires |body| == |data| && |trailer| == 2 && (body != data || trailer != Trailer(data))
    requires
      var u := Crc16.Message(AllBits(Content(data)), AllBits(Trailer(data)));
      var v := Crc16.Message(AllBits(Content(body)), AllBits(trailer));
      Crc16.DifferOnlyWithin(u, v, from, 16) || Crc16.Odd(Crc16.Xor(u, v))
    ensures !Opens(body, trailer)
  {
    hide Bits, Crc16.Crc, Crc16.Open, Crc16.Message, Crc16.DifferOnlyWithin, Trailer, Crc16.Odd;
    var content, content' := AllBits(Content(data)), AllBits(Content(body));
    var sealed, given := AllBits(Trailer(data)), AllBits(trailer);
    SealedOpens(data);
    if Crc16.Odd(Crc16.Xor(Crc16.Message(content, sealed), Crc16.Message(content', given))) {
      Crc16.OddFlipsDetected(content, sealed, content', given);
    } else {
      ContentInjective(data, body);
      AllBitsInjective(Trailer(data), trailer);
      Crc16.BurstDetected(content, sealed, content', given, from);
    }
  }
}
