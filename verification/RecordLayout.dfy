/** How records lie in a block: magic, length, body, trailer, sent flag, one after another.

    From any record boundary a block reads as a list of records that stops where its bytes run out or
    no longer parse. */
module RecordLayout {
  import opened Bytes

  const MAGIC_0: byte := 0xA5
  const MAGIC_1: byte := 0x5A
  const CONTENT_HEADER_SIZE := 4
  const SENT_FLAG_SIZE := 1
  const FLAG_UNSENT: byte := 0xFF
  const FLAG_SENT: byte := 0x00
  const FLAG_DISCARDED: byte := 0x0F

  // The store's record format under one security policy. The policy turns a message into a stored body
  // of the same length and a trailer; `plain` is what it reads back out of the two.
  datatype Layout = Layout(
    maxMessageSize: nat,
    trailerSize: nat,
    seal: Record -> (Record, Record),
    plain: (Record, Record) -> Record)
  {
    ghost predicate Sound() {
      && 0 < maxMessageSize <= 65531
      && forall d: Record :: |seal(d).0| == |d| && |seal(d).1| == trailerSize && plain(seal(d).0, seal(d).1) == d
    }

    function RecordSize(length: nat): nat {
      CONTENT_HEADER_SIZE + length + trailerSize + SENT_FLAG_SIZE
    }

    // ----- Reading -----

    predicate MagicValid(s: seq<byte>)
      requires |s| >= CONTENT_HEADER_SIZE
    {
      s[0] == MAGIC_0 && s[1] == MAGIC_1
    }

    function HeaderLength(s: seq<byte>): nat
      requires |s| >= CONTENT_HEADER_SIZE
    {
      s[2] as int + 256 * (s[3] as int)
    }

    // A header that parses: the magic, and a length a record can have.
    predicate HeaderValid(s: seq<byte>) {
      |s| >= CONTENT_HEADER_SIZE && MagicValid(s) && 0 < HeaderLength(s) <= maxMessageSize
    }

    // The bytes start with a record that lies whole within them.
    predicate Whole(s: seq<byte>) {
      HeaderValid(s) && RecordSize(HeaderLength(s)) <= |s|
    }

    function Size(s: seq<byte>): nat
      requires Whole(s)
    {
      RecordSize(HeaderLength(s))
    }

    function Rest(s: seq<byte>): seq<byte>
      requires Whole(s)
    {
      s[Size(s)..]
    }

    function Body(s: seq<byte>): Record
      requires Whole(s)
    {
      s[CONTENT_HEADER_SIZE..CONTENT_HEADER_SIZE + HeaderLength(s)]
    }

    function Trailer(s: seq<byte>): Record
      requires Whole(s)
    {
      s[CONTENT_HEADER_SIZE + HeaderLength(s)..CONTENT_HEADER_SIZE + HeaderLength(s) + trailerSize]
    }

    function Flag(s: seq<byte>): byte
      requires Whole(s)
    {
      s[Size(s) - SENT_FLAG_SIZE]
    }

    // Exact values only: a half-written flag reads as unsent.
    predicate FinishedWith(s: seq<byte>)
      requires Whole(s)
    {
      Flag(s) == FLAG_SENT || Flag(s) == FLAG_DISCARDED
    }

    function Message(s: seq<byte>): Record
      requires Whole(s)
    {
      plain(Body(s), Trailer(s))
    }

    // The messages still to send, in order, as far as the bytes parse.
    function Unsent(s: seq<byte>): seq<Record>
      decreases |s|
    {
      if !Whole(s) then []
      else if FinishedWith(s) then Unsent(Rest(s))
      else [Message(s)] + Unsent(Rest(s))
    }

    // Records to the very end, none cut short.
    predicate Clean(s: seq<byte>)
      decreases |s|
    {
      s == [] || (Whole(s) && Clean(Rest(s)))
    }

    // ----- Writing -----

    function Assemble(body: Record, trailer: Record, flag: byte): seq<byte>
      requires |body| < 0x1_0000
    {
      [MAGIC_0, MAGIC_1, (|body| % 256) as byte, (|body| / 256) as byte] + body + trailer + [flag]
    }

    function Sealed(data: Record): seq<byte>
      requires |seal(data).0| < 0x1_0000
    {
      Assemble(seal(data).0, seal(data).1, FLAG_UNSENT)
    }

    // ----- The bytes themselves -----

    // A record as it lies in a block: 0xA5 0x5A, the body's length low byte first, body, trailer and flag.
    ghost predicate IsRecord(r: seq<byte>, body: Record, trailer: Record, flag: byte) {
      && 0 < |body| <= maxMessageSize && |body| < 0x1_0000 && |trailer| == trailerSize
      && r == [0xA5, 0x5A, (|body| % 256) as byte, (|body| / 256) as byte] + body + trailer + [flag]
    }

    /** The bytes at a place read as a record exactly if they begin with one: of one byte or more and no larger than
        a message, its body, trailer and flag where they belong. */
    lemma WholeIffRecord(s: seq<byte>)
      requires maxMessageSize < 0x1_0000
      ensures Whole(s) ==>
                && IsRecord(s[..Size(s)], Body(s), Trailer(s), Flag(s))
                && (FinishedWith(s) <==> Flag(s) == 0x00 || Flag(s) == 0x0F)
      ensures forall n: nat, body: Record, trailer: Record, flag: byte ::
                n <= |s| && IsRecord(s[..n], body, trailer, flag) ==>
                  Whole(s) && n == Size(s) && body == Body(s) && trailer == Trailer(s) && flag == Flag(s)
    {
      if Whole(s) {
        var r, b, t := s[..Size(s)], Body(s), Trailer(s);
        assert r == [0xA5, 0x5A, (|b| % 256) as byte, (|b| / 256) as byte] + b + t + [Flag(s)];
      }
      forall n: nat, body: Record, trailer: Record, flag: byte | n <= |s| && IsRecord(s[..n], body, trailer, flag)
        ensures Whole(s) && n == Size(s) && body == Body(s) && trailer == Trailer(s) && flag == Flag(s)
      {
        RecordReads(s, n, body, trailer, flag);
      }
    }

    lemma RecordReads(s: seq<byte>, n: nat, body: Record, trailer: Record, flag: byte)
      requires n <= |s| && IsRecord(s[..n], body, trailer, flag)
      ensures Whole(s) && n == Size(s) && body == Body(s) && trailer == Trailer(s) && flag == Flag(s)
    {
      var r := s[..n];
      assert s[0] == r[0] && s[1] == r[1] && s[2] == r[2] && s[3] == r[3];
      assert r[4..4 + |body|] == body && r[4 + |body|..4 + |body| + |trailer|] == trailer;
      assert s[4..4 + |body|] == r[4..4 + |body|];
      assert s[4 + |body|..4 + |body| + |trailer|] == r[4 + |body|..4 + |body| + |trailer|];
      assert s[n - 1] == r[n - 1];
    }

    // What is written is such a record, its flag 0xFF.
    lemma SealedIsRecord(data: Record)
      requires Sound() && 0 < |data| <= maxMessageSize
      ensures |seal(data).0| < 0x1_0000 && IsRecord(Sealed(data), seal(data).0, seal(data).1, 0xFF)
    {
    }

    // ----- What the writes do to what is read -----

    // Whole() and what it reads look no further than the record.
    lemma WholePrefix(a: seq<byte>, b: seq<byte>)
      requires Whole(a)
      ensures Whole(a + b) && Size(a + b) == Size(a) && Rest(a + b) == Rest(a) + b
      ensures FinishedWith(a + b) == FinishedWith(a) && Message(a + b) == Message(a)
    {
      var s := a + b;
      assert Body(s) == Body(a);
      assert Trailer(s) == Trailer(a);
    }

    lemma NothingInNothing()
      ensures Unsent([]) == [] && Clean([]) && !Whole([])
    {
    }

    lemma {:induction false} UnsentConcat(a: seq<byte>, b: seq<byte>)
      requires Clean(a)
      ensures Unsent(a + b) == Unsent(a) + Unsent(b)
      decreases |a|
    {
      if a == [] {
        assert a + b == b;
      } else {
        WholePrefix(a, b);
        UnsentConcat(Rest(a), b);
      }
    }

    lemma {:induction false} CleanConcat(a: seq<byte>, b: seq<byte>)
      requires Clean(a)
      ensures Clean(a + b) <==> Clean(b)
      decreases |a|
    {
      if a == [] {
        assert a + b == b;
      } else {
        WholePrefix(a, b);
        CleanConcat(Rest(a), b);
      }
    }

    lemma SealedWhole(data: Record)
      requires Sound() && 0 < |data| <= maxMessageSize
      ensures |Sealed(data)| == RecordSize(|data|)
      ensures Whole(Sealed(data)) && Rest(Sealed(data)) == [] && !FinishedWith(Sealed(data))
      ensures Message(Sealed(data)) == data
    {
      var s := Sealed(data);
      assert HeaderLength(s) == |data|;
      assert Body(s) == seal(data).0;
      assert Trailer(s) == seal(data).1;
    }

    /** What an append adds to a clean block is its message, unsent, at the end. */
    lemma AppendedReadsBack(s: seq<byte>, data: Record)
      requires Sound() && 0 < |data| <= maxMessageSize && Clean(s)
      ensures Clean(s + Sealed(data)) && Unsent(s + Sealed(data)) == Unsent(s) + [data]
    {
      var r := Sealed(data);
      SealedWhole(data);
      UnsentConcat(s, r);
      CleanConcat(s, r);
      assert Unsent(r) == [data] + Unsent([]);
    }

    /** An append cut short adds nothing that reads as a record, and leaves the block unfit to append to. */
    lemma TornAppendUnseen(s: seq<byte>, data: Record, k: nat)
      requires Sound() && 0 < |data| <= maxMessageSize && Clean(s)
      requires k < |Sealed(data)|
      ensures Unsent(s + Sealed(data)[..k]) == Unsent(s)
      ensures Clean(s + Sealed(data)[..k]) <==> k == 0
    {
      var torn := Sealed(data)[..k];
      SealedWhole(data);
      assert !Whole(torn) by {
        if k >= CONTENT_HEADER_SIZE {
          assert HeaderLength(torn) == HeaderLength(Sealed(data));
        }
      }
      UnsentConcat(s, torn);
      CleanConcat(s, torn);
      assert Unsent(torn) == [];
    }

    lemma {:induction false} FlagWritten(s: seq<byte>, flag: byte)
      requires Whole(s)
      ensures var t := s[Size(s) - SENT_FLAG_SIZE := flag];
              && Whole(t) && Size(t) == Size(s) && Rest(t) == Rest(s) && Message(t) == Message(s) && Flag(t) == flag
    {
      var t := s[Size(s) - SENT_FLAG_SIZE := flag];
      assert Body(t) == Body(s);
      assert Trailer(t) == Trailer(s);
      assert Rest(t) == Rest(s);
    }

    /** Writing the flag of one record takes that record, and no other, out of what is still to send;
        a flag left half-written takes out nothing or that record. */
    lemma MarkRemovesOne(s: seq<byte>, flag: byte)
      requires Whole(s) && !FinishedWith(s)
      ensures var t := s[Size(s) - SENT_FLAG_SIZE := flag];
              && Unsent(s) == [Message(s)] + Unsent(Rest(s))
              && Unsent(t) == (if flag == FLAG_SENT || flag == FLAG_DISCARDED then Unsent(Rest(s)) else Unsent(s))
              && (Clean(t) <==> Clean(s)) && |t| == |s|
    {
      FlagWritten(s, flag);
    }

    // Reading a block up to a record boundary and on from it is reading the whole block.
    lemma SplitAtBoundary(s: seq<byte>, at: nat)
      requires at <= |s| && Clean(s[..at])
      ensures Unsent(s) == Unsent(s[..at]) + Unsent(s[at..])
      ensures Clean(s) <==> Clean(s[at..])
    {
      assert s[..at] + s[at..] == s;
      UnsentConcat(s[..at], s[at..]);
      CleanConcat(s[..at], s[at..]);
    }

    // A record cut out of the bytes it starts reads as itself.
    lemma FirstRecord(s: seq<byte>)
      requires Whole(s)
      ensures s[..Size(s)] + Rest(s) == s
      ensures Clean(s[..Size(s)])
      ensures Unsent(s[..Size(s)]) == if FinishedWith(s) then [] else [Message(s)]
    {
      var r := s[..Size(s)];
      assert HeaderLength(r) == HeaderLength(s);
      assert r + Rest(s) == s;
      WholePrefix(r, Rest(s));
      assert Rest(r) == [];
      NothingInNothing();
      assert Unsent(r) == (if FinishedWith(r) then [] else [Message(r)]) + Unsent(Rest(r));
    }

    // The next boundary is past the record at this one.
    lemma NextBoundary(s: seq<byte>, at: nat)
      requires at <= |s| && Clean(s[..at]) && Whole(s[at..])
      ensures 0 < Size(s[at..]) && at + Size(s[at..]) <= |s| && Clean(s[..at + Size(s[at..])])
      ensures s[at + Size(s[at..])..] == Rest(s[at..])
      ensures Unsent(s[at..]) ==
              (if FinishedWith(s[at..]) then [] else [Message(s[at..])]) + Unsent(s[at + Size(s[at..])..])
      ensures Unsent(s[..at + Size(s[at..])]) ==
              Unsent(s[..at]) + if FinishedWith(s[at..]) then [] else [Message(s[at..])]
    {
      hide Unsent, Clean, Message, FinishedWith;
      var t := s[at..];
      var r := t[..Size(t)];
      FirstRecord(t);
      assert s[at + Size(t)..] == Rest(t);
      assert s[..at + Size(t)] == s[..at] + r;
      UnsentConcat(r, Rest(t));
      UnsentConcat(s[..at], r);
      CleanConcat(s[..at], r);
    }
  }
}
