/** The security policy a store is given: two functions on records, and what it answers each time it is asked.

    The ghost fields record every answer, since what the store makes of a record is to follow from them. */
module SecurityPolicy {
  import opened Bytes
  import opened RecordLayout

  // What the policy says of a stored record: any of the three, at any time.
  datatype Verdict = Opened | Rejected | NoVerdict

  // A stored record put to the policy, by the message it reads as, and the verdict on it.
  datatype Judgement = Judgement(message: Record, verdict: Verdict)

  // A record the policy was asked to seal, and whether it did.
  datatype Sealing = Sealing(data: Record, sealed: bool)

  // One verdict on each of some messages.
  function Each(messages: seq<Record>, verdict: Verdict): (r: seq<Judgement>)
    ensures |r| == |messages|
  {
    seq(|messages|, i requires 0 <= i < |messages| => Judgement(messages[i], verdict))
  }

  lemma EachNext(messages: seq<Record>, k: nat, verdict: Verdict)
    requires k < |messages|
    ensures Each(messages[..k + 1], verdict) == Each(messages[..k], verdict) + [Judgement(messages[k], verdict)]
  {
  }

  class SecurityPolicy {
    const lay: Layout
    ghost var judged: seq<Judgement>
    ghost var sealings: seq<Sealing>

    constructor (lay: Layout)
      ensures this.lay == lay && judged == [] && sealings == []
    {
      this.lay := lay;
      judged, sealings := [], [];
    }

    method SealRecord(data: Record) returns (sealed: bool, body: Record, trailer: Record)
      modifies this`sealings
      ensures (body, trailer) == lay.seal(data)
      ensures sealings == old(sealings) + [Sealing(data, sealed)]
    {
      sealed := *;
      var both := lay.seal(data);
      body, trailer := both.0, both.1;
      sealings := sealings + [Sealing(data, sealed)];
    }

    method OpenRecord(body: Record, trailer: Record) returns (verdict: Verdict, message: Record)
      modifies this`judged
      ensures message == lay.plain(body, trailer)
      ensures judged == old(judged) + [Judgement(message, verdict)]
    {
      verdict := *;
      message := lay.plain(body, trailer);
      judged := judged + [Judgement(message, verdict)];
    }
  }
}
