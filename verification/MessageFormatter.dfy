/** The RFC 5424 header as it is printed, and a reader of it. */
module MessageFormatter {
  import opened Bytes
  import opened Utf8
  import opened Decimal
  import opened EscapedText
  import opened Formatter

  datatype Option<T> = None | Some(value: T)

  const LESS_THAN: byte := 0x3C
  const GREATER_THAN: byte := 0x3E
  const VERSION: byte := 0x31
  const FACILITY_SYSLOG := 5
  const FACILITY_LOCAL7 := 23
  const SEVERITY_ERROR := 3
  const SEVERITY_DEBUG := 7
  const MAX_APP_NAME_SIZE := 49
  const MAX_HOSTNAME_SIZE := 256
  const MAX_MSGID_SIZE := 33
  const MAX_PROCESS_ID_SIZE := 129

  // What an integrator's header-field callback does with the field it is given: any appends, in any order.
  datatype Append = Ascii(source: CString, maxLength: nat) | Number(value: nat)

  predicate AppendsSound(script: seq<Append>) {
    forall i :: 0 <= i < |script| && script[i].Number? ==> script[i].value < 0x1_0000_0000
  }

  datatype Message = Message(facility: int, severity: int, messageId: Option<CString>, msg: Option<CString>)

  // ----- PRIVAL -----

  function Low8(x: int): nat {
    x % 256
  }

  predicate PrivalComponentsAreValid(facility: nat, severity: nat) {
    facility <= FACILITY_LOCAL7 && severity <= SEVERITY_DEBUG
  }

  function MakePrival(message: Message): nat {
    var facility, severity := Low8(message.facility), Low8(message.severity);
    if PrivalComponentsAreValid(facility, severity) then facility * 8 + severity
    else FACILITY_SYSLOG * 8 + SEVERITY_ERROR
  }

  /** Facility and severity come back out by division, or the two that stand in for a pair out of range do. */
  lemma PrivalComesApart(message: Message)
    ensures MakePrival(message) <= 191
    ensures var facility, severity := message.facility % 256, message.severity % 256;
            && MakePrival(message) / 8 == (if facility <= 23 && severity <= 7 then facility else 5)
            && MakePrival(message) % 8 == (if facility <= 23 && severity <= 7 then severity else 3)
  {
  }

  // ----- Header fields -----

  function Min(a: nat, b: nat): nat {
    if a < b then a else b
  }

  // Text is cut to the width left; a number is written whole where any is left.
  function AppendText(append: Append, width: nat): seq<byte> {
    match append
    case Ascii(source, maxLength) => Printable(UpTo(source, Min(maxLength, width)))
    case Number(value) => if width > 0 then Digits(value) else []
  }

  function AppendLeaves(append: Append, width: nat): nat {
    var text := AppendText(append, width);
    if |text| >= width then 0 else width - |text|
  }

  // What a callback's appends come to under a width.
  function FieldText(script: seq<Append>, width: nat): seq<byte> {
    if script == [] then []
    else AppendText(script[0], width) + FieldText(script[1..], AppendLeaves(script[0], width))
  }

  // A field nothing was written to is NILVALUE.
  function OrNil(text: seq<byte>): seq<byte> {
    if text == [] then [0x2D] else text
  }

  /** A field is printable throughout, and runs past its width only by the end of one number. */
  lemma {:induction false} FieldWithinWidth(script: seq<Append>, width: nat)
    requires AppendsSound(script)
    ensures AllPrintable(FieldText(script, width)) && |FieldText(script, width)| <= width + 9
    ensures (forall i :: 0 <= i < |script| ==> script[i].Ascii?) ==> |FieldText(script, width)| <= width
  {
    hide AppendText;
    if script != [] {
      assert forall i :: 0 <= i < |script[1..]| ==> script[1..][i] == script[i + 1];
      AppendWithinWidth(script[0], width);
      FieldWithinWidth(script[1..], AppendLeaves(script[0], width));
      NothingInNoWidth(script[1..]);
    }
  }

  lemma AppendWithinWidth(append: Append, width: nat)
    requires append.Number? ==> append.value < 0x1_0000_0000
    ensures AllPrintable(AppendText(append, width))
    ensures |AppendText(append, width)| <= if append.Ascii? then width else width + 9
    ensures width == 0 ==> AppendText(append, width) == []
  {
    if append.Number? {
      NumberWidth(append.value);
    }
  }

  lemma NumberWidth(value: nat)
    requires value < 0x1_0000_0000
    ensures 1 <= |Digits(value)| <= 10 && AllPrintable(Digits(value))
  {
    WordDigits(value);
    DigitsParse(value);
    DigitsAscii(Digits(value));
  }

  lemma {:induction false} NothingInNoWidth(script: seq<Append>)
    ensures FieldText(script, 0) == []
  {
    if script != [] {
      NothingInNoWidth(script[1..]);
    }
  }

  // What the appends would come to in a field without a width.
  function Joined(script: seq<Append>): seq<byte> {
    if script == [] then [] else Alone(script[0]) + Joined(script[1..])
  }

  function Alone(append: Append): seq<byte> {
    match append
    case Ascii(source, maxLength) => Printable(UpTo(source, maxLength))
    case Number(value) => Digits(value)
  }

  // The field ends with a whole number.
  ghost predicate EndsInNumber(script: seq<Append>, text: seq<byte>) {
    exists i :: 0 <= i < |script| && script[i].Number? && text == Joined(script[..i + 1])
  }

  /** A field takes its appends in order and in full as long as they fit its width. Where they do not, the width
      is used up, to the byte unless the append it ends with is a number. */
  lemma {:induction false} FieldFilled(script: seq<Append>, width: nat)
    ensures FieldText(script, width) <= Joined(script)
    ensures |Joined(script)| <= width ==> FieldText(script, width) == Joined(script)
    ensures |Joined(script)| > width ==> |FieldText(script, width)| >= width
    ensures |FieldText(script, width)| > width ==> EndsInNumber(script, FieldText(script, width))
  {
    hide AppendText, Alone, EndsInNumber;
    if script != [] {
      var left := AppendLeaves(script[0], width);
      AppendFilled(script[0], width);
      NothingInNoWidth(script[1..]);
      FieldFilled(script[1..], left);
      if |FieldText(script, width)| > width {
        OneAppendMore(script, width);
      }
    }
  }

  lemma AppendFilled(append: Append, width: nat)
    ensures AppendText(append, width) <= Alone(append)
    ensures AppendText(append, width) == Alone(append) || |AppendText(append, width)| == width
    ensures |Alone(append)| <= width ==> AppendText(append, width) == Alone(append)
    ensures |AppendText(append, width)| > width ==> append.Number? && AppendText(append, width) == Alone(append)
  {
  }

  lemma OneAppendMore(script: seq<Append>, width: nat)
    requires script != [] && |FieldText(script, width)| > width
    requires var left := AppendLeaves(script[0], width);
             |FieldText(script[1..], left)| > left ==> EndsInNumber(script[1..], FieldText(script[1..], left))
    ensures EndsInNumber(script, FieldText(script, width))
  {
    hide AppendText, Alone;
    var left := AppendLeaves(script[0], width);
    AppendFilled(script[0], width);
    NothingInNoWidth(script[1..]);
    if |AppendText(script[0], width)| > width {
      assert script[..1] == [script[0]] && [script[0]][1..] == [];
      assert FieldText(script, width) == Joined(script[..1]);
    } else {
      var i :| && 0 <= i < |script[1..]| && script[1..][i].Number?
               && FieldText(script[1..], left) == Joined(script[1..][..i + 1]);
      assert script[..i + 2][0] == script[0] && script[..i + 2][1..] == script[1..][..i + 1];
      assert script[i + 1].Number? && FieldText(script, width) == Joined(script[..i + 1 + 1]);
    }
  }

  // The budget of one field while a callback appends to it.
  class HeaderField {
    const formatter: Formatter
    var remaining: nat

    constructor (formatter: Formatter, maxLength: nat)
      ensures this.formatter == formatter && remaining == maxLength
    {
      this.formatter := formatter;
      remaining := maxLength;
    }

    method PrintUsAscii(source: CString, maxLength: nat)
      requires formatter.Valid()
      modifies this, formatter, formatter.buffer
      ensures formatter.Valid()
      ensures formatter.output == old(formatter.output) + AppendText(Ascii(source, maxLength), old(remaining))
      ensures formatter.HadRoom() ==> remaining == AppendLeaves(Ascii(source, maxLength), old(remaining))
    {
      hide Formatter.Valid, Formatter.Sound, UpTo;
      var limit := if maxLength < remaining then maxLength else remaining;
      var before := formatter.position;
      formatter.RoomShowsAll();
      formatter.PrintUsAsciiString(source, limit);
      formatter.RoomShowsAll();
      remaining := remaining - (formatter.position - before);
    }

    // Digits go in whole or not at all, and none where no room was left; overrunning uses the room up.
    method Uint32(value: nat)
      requires formatter.Valid() && value < 0x1_0000_0000
      modifies this, formatter, formatter.buffer
      ensures formatter.Valid()
      ensures formatter.output == old(formatter.output) + AppendText(Number(value), old(remaining))
      ensures formatter.HadRoom() ==> remaining == AppendLeaves(Number(value), old(remaining))
    {
      if remaining > 0 {
        var before := formatter.position;
        formatter.RoomShowsAll();
        formatter.Uint32(value);
        formatter.RoomShowsAll();
        var consumed := formatter.position - before;
        remaining := if consumed >= remaining then 0 else remaining - consumed;
      }
    }

    method Apply(append: Append)
      requires formatter.Valid() && (append.Number? ==> append.value < 0x1_0000_0000)
      modifies this, formatter, formatter.buffer
      ensures formatter.Valid()
      ensures formatter.output == old(formatter.output) + AppendText(append, old(remaining))
      ensures formatter.HadRoom() ==> remaining == AppendLeaves(append, old(remaining))
    {
      match append {
        case Ascii(source, maxLength) => PrintUsAscii(source, maxLength);
        case Number(value) => Uint32(value);
      }
    }

    // The callback's run of appends.
    method Run(script: seq<Append>)
      requires formatter.Valid() && AppendsSound(script)
      modifies this, formatter, formatter.buffer
      ensures formatter.Valid() && old(formatter.output) <= formatter.output
      ensures AllPrintable(formatter.output[|old(formatter.output)|..])
      ensures formatter.HadRoom() ==>
                formatter.output == old(formatter.output) + FieldText(script, old(remaining))
    {
      hide formatter.Valid, WellFormed, AppendText, AppendLeaves;
      ghost var width, start := remaining, formatter.output;
      ghost var written: seq<byte> := [];
      for i := 0 to |script|
        invariant formatter.Valid() && formatter.output == start + written && AllPrintable(written)
        invariant formatter.HadRoom() ==> written + FieldText(script[i..], remaining) == FieldText(script, width)
      {
        assert script[i..][1..] == script[i + 1..];
        ghost var piece := AppendText(script[i], remaining);
        AppendWithinWidth(script[i], remaining);
        Apply(script[i]);
        written := written + piece;
      }
    }
  }

  // ----- The header -----

  datatype Header = Header(prival: nat, timestamp: seq<byte>, hostname: seq<byte>, appName: seq<byte>,
                           procId: seq<byte>, msgId: seq<byte>)

  function HeaderText(h: Header): seq<byte> {
    [LESS_THAN] + Digits(h.prival) + [GREATER_THAN, VERSION, SPACE] + h.timestamp + [SPACE] + h.hostname + [SPACE] +
    h.appName + [SPACE] + h.procId + [SPACE] + h.msgId + [SPACE]
  }

  // ----- Reading it back, by section 6 of RFC 5424 -----

  // The bytes before the first of one kind, and those behind it.
  function SplitAt(s: seq<byte>, c: byte): Option<(seq<byte>, seq<byte>)> {
    if s == [] then None
    else if s[0] == c then Some(([], s[1..]))
    else
      match SplitAt(s[1..], c)
      case None => None
      case Some((before, behind)) => Some(([s[0]] + before, behind))
  }

  lemma {:induction false} SplitFirst(a: seq<byte>, c: byte, b: seq<byte>)
    requires c !in a
    ensures SplitAt(a + [c] + b, c) == Some((a, b))
  {
    if a == [] {
      assert [] + [c] + b == [c] + b && ([c] + b)[1..] == b;
    } else {
      assert (a + [c] + b)[1..] == a[1..] + [c] + b;
      assert a[0] in a && a == [a[0]] + a[1..];
      SplitFirst(a[1..], c, b);
    }
  }

  // A field is one or more printable bytes, up to the space behind it.
  function ReadField(s: seq<byte>): Option<(seq<byte>, seq<byte>)> {
    match SplitAt(s, 0x20)
    case None => None
    case Some((field, rest)) => if field != [] && AllPrintable(field) then Some((field, rest)) else None
  }

  lemma FieldReads(field: seq<byte>, rest: seq<byte>)
    requires field != [] && AllPrintable(field)
    ensures ReadField(field + [SPACE] + rest) == Some((field, rest))
  {
    SplitFirst(field, SPACE, rest);
  }

  function ReadPrival(s: seq<byte>): Option<(nat, seq<byte>)> {
    if s == [] || s[0] != 0x3C then None
    else
      match SplitAt(s[1..], 0x3E)
      case None => None
      case Some((digits, rest)) =>
        if 1 <= |digits| <= 3 && AllDigits(digits) then Some((Parse(digits), rest)) else None
  }

  lemma PrivalReads(prival: nat, rest: seq<byte>)
    requires prival <= 191
    ensures ReadPrival([LESS_THAN] + Digits(prival) + [GREATER_THAN] + rest) == Some((prival, rest))
  {
    hide Digits, Parse, SplitAt;
    var s := [LESS_THAN] + Digits(prival) + [GREATER_THAN] + rest;
    DigitsParse(prival);
    PrivalDigits(prival);
    assert s[1..] == Digits(prival) + [GREATER_THAN] + rest;
    SplitFirst(Digits(prival), GREATER_THAN, rest);
  }

  lemma ThreeDigits(prival: nat)
    requires prival <= 191
    ensures 1 <= |Digits(prival)| <= 3
  {
    assert prival / 10 / 10 < 10;
    assert CountDigits(prival / 10 / 10) == 1 && CountDigits(prival / 10) <= 2;
  }

  lemma PrivalDigits(prival: nat)
    requires prival <= 191
    ensures 1 <= |Digits(prival)| <= 3 && GREATER_THAN !in Digits(prival)
  {
    hide Digits, Parse;
    DigitsParse(prival);
    ThreeDigits(prival);
    forall i | 0 <= i < |Digits(prival)|
      ensures Digits(prival)[i] != GREATER_THAN
    {
      assert IsDigit(Digits(prival)[i]);
    }
  }

  function ReadHeader(s: seq<byte>): Option<(Header, seq<byte>)> {
    match ReadPrival(s)
    case None => None
    case Some((prival, s0)) =>
      if |s0| < 2 || s0[0] != 0x31 || s0[1] != 0x20 then None
      else
        match ReadField(s0[2..])
        case None => None
        case Some((timestamp, s1)) =>
          match ReadField(s1)
          case None => None
          case Some((hostname, s2)) =>
            match ReadField(s2)
            case None => None
            case Some((appName, s3)) =>
              match ReadField(s3)
              case None => None
              case Some((procId, s4)) =>
                match ReadField(s4)
                case None => None
                case Some((msgId, s5)) => Some((Header(prival, timestamp, hostname, appName, procId, msgId), s5))
  }

  predicate FieldsSound(h: Header) {
    && h.prival <= 191
    && h.timestamp != [] && AllPrintable(h.timestamp) && h.hostname != [] && AllPrintable(h.hostname)
    && h.appName != [] && AllPrintable(h.appName) && h.procId != [] && AllPrintable(h.procId)
    && h.msgId != [] && AllPrintable(h.msgId)
  }

  /** A printed header reads back as itself, whatever stands behind it. */
  lemma HeaderReadsBack(h: Header, rest: seq<byte>)
    requires FieldsSound(h)
    ensures ReadHeader(HeaderText(h) + rest) == Some((h, rest))
  {
    hide Digits, AllPrintable, ReadField, ReadPrival;
    var s5 := rest;
    var s4 := h.msgId + [SPACE] + s5;
    var s3 := h.procId + [SPACE] + s4;
    var s2 := h.appName + [SPACE] + s3;
    var s1 := h.hostname + [SPACE] + s2;
    var s0 := h.timestamp + [SPACE] + s1;
    var behind := [VERSION, SPACE] + s0;
    FieldReads(h.msgId, s5);
    FieldReads(h.procId, s4);
    FieldReads(h.appName, s3);
    FieldReads(h.hostname, s2);
    FieldReads(h.timestamp, s1);
    assert behind[2..] == s0;
    PrivalReads(h.prival, behind);
    assert HeaderText(h) + rest == [LESS_THAN] + Digits(h.prival) + [GREATER_THAN] + behind;
  }

  lemma {:induction false} SplitMeans(s: seq<byte>, c: byte)
    ensures SplitAt(s, c).Some? ==>
              var (before, behind) := SplitAt(s, c).value; s == before + [c] + behind && c !in before
  {
    if s != [] && s[0] != c {
      SplitMeans(s[1..], c);
      assert s == [s[0]] + s[1..];
    }
  }

  lemma FieldMeans(s: seq<byte>)
    ensures ReadField(s).Some? ==>
              var (field, rest) := ReadField(s).value;
              s == field + [0x20] + rest && field != [] && AllPrintable(field)
  {
    SplitMeans(s, 0x20);
  }

  lemma PrivalMeans(s: seq<byte>) returns (digits: seq<byte>)
    ensures ReadPrival(s).Some? ==>
              var (prival, rest) := ReadPrival(s).value;
              && s == [0x3C] + digits + [0x3E] + rest && 1 <= |digits| <= 3 && AllDigits(digits)
              && Parse(digits) == prival
  {
    digits := [];
    if ReadPrival(s).Some? {
      SplitMeans(s[1..], 0x3E);
      digits := SplitAt(s[1..], 0x3E).value.0;
      assert s == [0x3C] + s[1..];
    }
  }

  /** What the reader takes for a header is one: one to three digits in brackets, the version, and five fields of one
      or more printable bytes, a space behind each. */
  lemma HeaderMeans(s: seq<byte>) returns (digits: seq<byte>)
    ensures ReadHeader(s).Some? ==>
              var (h, rest) := ReadHeader(s).value;
              && 1 <= |digits| <= 3 && AllDigits(digits) && Parse(digits) == h.prival
              && FieldsSound(h.(prival := 0))
              && s == [0x3C] + digits + [0x3E, 0x31, 0x20] + FieldsText(h) + rest
  {
    hide ReadField, ReadPrival, AllPrintable, AllDigits, Parse, FieldsText;
    digits := PrivalMeans(s);
    if ReadHeader(s).Some? {
      var s0 := ReadPrival(s).value.1;
      assert s0 == [0x31, 0x20] + s0[2..];
      var (h, rest) := ReadHeader(s).value;
      var s1 := ReadField(s0[2..]).value.1;
      var s2 := ReadField(s1).value.1;
      var s3 := ReadField(s2).value.1;
      FieldsMean(s0[2..], h, s1, s2, s3, ReadField(s3).value.1, rest);
      assert s == [0x3C] + digits + [0x3E] + ([0x31, 0x20] + (FieldsText(h) + rest));
    }
  }

  function FieldsText(h: Header): seq<byte> {
    h.timestamp + [0x20] + h.hostname + [0x20] + h.appName + [0x20] + h.procId + [0x20] + h.msgId + [0x20]
  }

  lemma FieldsMean(s0: seq<byte>, h: Header, s1: seq<byte>, s2: seq<byte>, s3: seq<byte>, s4: seq<byte>, rest: seq<byte>)
    requires ReadField(s0) == Some((h.timestamp, s1)) && ReadField(s1) == Some((h.hostname, s2))
    requires ReadField(s2) == Some((h.appName, s3)) && ReadField(s3) == Some((h.procId, s4))
    requires ReadField(s4) == Some((h.msgId, rest))
    ensures FieldsSound(h.(prival := 0)) && s0 == FieldsText(h) + rest
  {
    hide ReadField, AllPrintable;
    FieldMeans(s0);
    FieldMeans(s1);
    FieldMeans(s2);
    FieldMeans(s3);
    FieldMeans(s4);
    assert s0 == h.timestamp + [0x20] + (h.hostname + [0x20] + (h.appName + [0x20] + (h.procId + [0x20] +
                 (h.msgId + [0x20] + rest))));
  }

  // ----- Printing it -----

  method FormatPrival(formatter: Formatter, prival: nat)
    requires formatter.Valid() && prival <= 255
    modifies formatter, formatter.buffer
    ensures formatter.Valid()
    ensures formatter.output == old(formatter.output) + ([LESS_THAN] + Digits(prival) + [GREATER_THAN])
  {
    hide formatter.Valid, Digits;
    formatter.AsciiCharacter(LESS_THAN);
    formatter.Uint32(prival);
    formatter.AsciiCharacter(GREATER_THAN);
  }

  // The width is one short of the field's storage, which has room for a terminator.
  lemma NilPrintable(written: seq<byte>)
    ensures AllPrintable([]) && (AllPrintable(written) ==> AllPrintable(written + [NILVALUE]))
  {
  }

  method FormatStringField(formatter: Formatter, script: seq<Append>, maxSize: nat) returns (ghost field: seq<byte>)
    requires formatter.Valid() && AppendsSound(script) && maxSize > 0
    modifies formatter, formatter.buffer
    ensures formatter.Valid() && formatter.output == old(formatter.output) + field
    ensures field != [] && AllPrintable(field)
    ensures formatter.HadRoom() ==> field == OrNil(FieldText(script, maxSize - 1))
  {
    hide formatter.Valid, AllPrintable, FieldText, Printable, UpTo;
    formatter.RoomShowsAll();
    ghost var start := formatter.output;
    var lengthBefore := formatter.position;
    var header := new HeaderField(formatter, maxSize - 1);
    header.Run(script);
    formatter.RoomShowsAll();
    ghost var written := formatter.output[|start|..];
    if formatter.position == lengthBefore {
      formatter.NilValue();
    }
    field := formatter.output[|start|..];
    NilPrintable(written);
    assert field == written || field == written + [NILVALUE];
  }

  method FormatMsgId(formatter: Formatter, messageId: Option<CString>) returns (ghost field: seq<byte>)
    requires formatter.Valid()
    modifies formatter, formatter.buffer
    ensures formatter.Valid() && formatter.output == old(formatter.output) + field
    ensures field != [] && AllPrintable(field)
    ensures formatter.HadRoom() ==>
              field == OrNil(if messageId.None? then [] else Printable(UpTo(messageId.value, 32)))
  {
    hide formatter.Valid, AllPrintable, FieldText, Printable, UpTo;
    formatter.RoomShowsAll();
    ghost var start := formatter.output;
    var lengthBefore := formatter.position;
    if StringIsValid(messageId) {
      formatter.PrintUsAsciiString(messageId.value, MAX_MSGID_SIZE - 1);
    }
    formatter.RoomShowsAll();
    ghost var written := formatter.output[|start|..];
    assert written == if StringIsValid(messageId) then Printable(UpTo(messageId.value, MAX_MSGID_SIZE - 1)) else [];
    if formatter.position == lengthBefore {
      formatter.NilValue();
    }
    field := formatter.output[|start|..];
    NilPrintable(written);
    assert field == written || field == written + [NILVALUE];
  }

  predicate StringIsValid(value: Option<CString>) {
    value.Some? && value.value != []
  }

  // ----- MSG -----

  function SkipLeadingBom(msg: CString): CString {
    if |msg| >= 3 && msg[0] == 0xEF && msg[1] == 0xBB && msg[2] == 0xBF then msg[3..] else msg
  }

  // The part behind the structured data: nothing where there is no text but a byte order mark.
  function MsgText(msg: Option<CString>, maxMessageSize: nat): seq<byte> {
    if msg.None? || SkipLeadingBom(msg.value) == [] then []
    else [0x20, 0xEF, 0xBB, 0xBF] + Sanitised(UpTo(SkipLeadingBom(msg.value), maxMessageSize))
  }

  predicate HasBom(s: seq<byte>) {
    |s| >= 3 && s[..3] == BOM
  }

  lemma BomBytes(s: seq<byte>)
    ensures HasBom(s) <==> |s| >= 3 && s[0] == 0xEF && s[1] == 0xBB && s[2] == 0xBF
    ensures HasBom(s) ==> CharLength(s) == 3
  {
  }

  // Sanitising neither makes a byte order mark nor takes one away.
  lemma SanitisedHasBom(s: seq<byte>)
    ensures HasBom(Sanitised(s)) <==> HasBom(s)
  {
    var n, t := CharLength(s), Sanitised(s);
    BomBytes(s);
    BomBytes(t);
    hide HasBom;
    if s != [] && n > 0 {
      assert t == s[..n] + Sanitised(s[n..]);
      assert forall i :: 0 <= i < n ==> t[i] == s[i];
    } else if s != [] {
      assert t == REPLACEMENT + Sanitised(s[1..]);
      assert t[1] == 0xBF;
    }
  }

  /** A text is sent behind a byte order mark whether or not it came with one, and behind exactly one unless it
      came with two: then, where the bound has room for a mark, both go out. A mark alone sends nothing. */
  lemma OneBomUnlessTwo(text: CString, maxMessageSize: nat)
    ensures SkipLeadingBom(text) == [] <==> text == [] || text == BOM
    ensures MsgText(Some(text), maxMessageSize) == [] <==> SkipLeadingBom(text) == []
    ensures SkipLeadingBom(text) != [] ==>
              var sent := MsgText(Some(text), maxMessageSize);
              && sent[..4] == [SPACE] + BOM
              && (HasBom(sent[4..]) <==> HasBom(SkipLeadingBom(text)) && maxMessageSize >= 3)
    ensures !HasBom(text) ==>
              && SkipLeadingBom(text) == text && (forall i :: 0 <= i < |BOM + text| ==> (BOM + text)[i] != 0)
              && MsgText(Some(BOM + text), maxMessageSize) == MsgText(Some(text), maxMessageSize)
  {
    hide Sanitised;
    var body := SkipLeadingBom(text);
    assert |text| >= 3 ==> text == text[..3] + text[3..];
    if body != [] {
      var bounded := UpTo(body, maxMessageSize);
      SanitisedHasBom(bounded);
      assert maxMessageSize >= 3 && |body| >= 3 ==> bounded[..3] == body[..3];
      assert ([SPACE] + BOM + Sanitised(bounded))[4..] == Sanitised(bounded);
    }
    assert (BOM + text)[3..] == text;
  }

  /** Past the mark, text no longer than the bound goes out whole exactly if it is well formed; well-formed text longer
      than it goes out as its longest well-formed prefix within it, and U+FFFD for each further byte within it. */
  lemma TextWithinBound(text: CString, maxMessageSize: nat, t: nat)
    requires SkipLeadingBom(text) != []
    ensures var body, sent := SkipLeadingBom(text), MsgText(Some(text), maxMessageSize);
            && (|body| <= maxMessageSize ==> (sent[4..] == body <==> WellFormed(body)))
            && (|body| > maxMessageSize && WellFormed(body) && LongestWellFormed(body, maxMessageSize, t) ==>
                  sent[4..] == body[..t] + Marks(maxMessageSize - t))
  {
    hide Sanitised, LongestWellFormed, WellFormed;
    var body := SkipLeadingBom(text);
    SanitisedWellFormed(body);
    assert MsgText(Some(text), maxMessageSize)[4..] == Sanitised(UpTo(body, maxMessageSize));
    if |body| > maxMessageSize && WellFormed(body) && LongestWellFormed(body, maxMessageSize, t) {
      CutSanitised(body, maxMessageSize, t);
    }
  }

  method FormatMsg(formatter: Formatter, msg: Option<CString>, maxMessageSize: nat)
    requires formatter.Valid()
    modifies formatter, formatter.buffer
    ensures formatter.Valid() && formatter.output == old(formatter.output) + MsgText(msg, maxMessageSize)
  {
    hide formatter.Valid, Sanitised;
    if StringIsValid(msg) {
      var body := SkipLeadingBom(msg.value);
      if StringIsValid(Some(body)) {
        formatter.AsciiCharacter(SPACE);
        formatter.Bom();
        formatter.BoundedString(body, maxMessageSize);
      }
    }
  }

  // ----- The whole message -----

  // Everything the integrator is asked for while a message is printed: the stamp and the structured data, each
  // as its own printer leaves it, and what the three callbacks append.
  datatype Context = Context(timestamp: seq<byte>, hostname: seq<Append>, appName: seq<Append>, procId: seq<Append>,
                             structuredData: seq<byte>)

  predicate ContextSound(context: Context) {
    && context.timestamp != [] && AllPrintable(context.timestamp) && WellFormed(context.structuredData)
    && AppendsSound(context.hostname) && AppendsSound(context.appName) && AppendsSound(context.procId)
  }

  method WriteText(formatter: Formatter, text: seq<byte>)
    requires formatter.Valid() && WellFormed(text)
    modifies formatter, formatter.buffer
    ensures formatter.Valid() && formatter.output == old(formatter.output) + text
  {
    formatter.WriteBytes(text);
    formatter.Finish(old(formatter.output), text);
  }

  method FormatField(formatter: Formatter, script: seq<Append>, maxSize: nat) returns (ghost field: seq<byte>)
    requires formatter.Valid() && AppendsSound(script) && maxSize > 0
    modifies formatter, formatter.buffer
    ensures formatter.Valid() && formatter.output == old(formatter.output) + field + [SPACE]
    ensures field != [] && AllPrintable(field)
    ensures formatter.HadRoom() ==> field == OrNil(FieldText(script, maxSize - 1))
  {
    hide formatter.Valid, FieldText, AllPrintable;
    field := FormatStringField(formatter, script, maxSize);
    formatter.AsciiCharacter(SPACE);
  }

  method FormatFront(formatter: Formatter, prival: nat, timestamp: seq<byte>)
    requires formatter.Valid() && prival <= 255 && AllPrintable(timestamp)
    modifies formatter, formatter.buffer
    ensures formatter.Valid()
    ensures formatter.output == old(formatter.output) +
              ([LESS_THAN] + Digits(prival) + [GREATER_THAN, VERSION, SPACE] + timestamp + [SPACE])
  {
    hide formatter.Valid, Digits, AllPrintable;
    FormatPrival(formatter, prival);
    formatter.AsciiCharacter(VERSION);
    formatter.AsciiCharacter(SPACE);
    PrintableWellFormed(timestamp);
    WriteText(formatter, timestamp);
    formatter.AsciiCharacter(SPACE);
  }

  // The fields the integrator gave, cut to their widths and made printable, and NILVALUE for any left empty.
  predicate FieldsAsGiven(h: Header, message: Message, context: Context) {
    && h.hostname == OrNil(FieldText(context.hostname, 255))
    && h.appName == OrNil(FieldText(context.appName, 48))
    && h.procId == OrNil(FieldText(context.procId, 128))
    && h.msgId == OrNil(if message.messageId.None? then [] else Printable(UpTo(message.messageId.value, 32)))
  }

  method FormatHeader(formatter: Formatter, message: Message, context: Context) returns (ghost h: Header)
    requires formatter.Valid() && ContextSound(context)
    modifies formatter, formatter.buffer
    ensures formatter.Valid() && formatter.output == old(formatter.output) + HeaderText(h) && FieldsSound(h)
    ensures h.prival == MakePrival(message) && h.timestamp == context.timestamp
    ensures formatter.HadRoom() ==> FieldsAsGiven(h, message, context)
  {
    hide formatter.Valid, FieldText, AllPrintable, Digits, Printable, UpTo, MakePrival, AppendsSound, OrNil;
    ghost var start := formatter.output;
    PrivalComesApart(message);
    FormatFront(formatter, MakePrival(message), context.timestamp);
    ghost var hostname := FormatField(formatter, context.hostname, MAX_HOSTNAME_SIZE);
    ghost var appName := FormatField(formatter, context.appName, MAX_APP_NAME_SIZE);
    ghost var procId := FormatField(formatter, context.procId, MAX_PROCESS_ID_SIZE);
    ghost var msgId := FormatMsgId(formatter, message.messageId);
    formatter.AsciiCharacter(SPACE);
    h := Header(MakePrival(message), context.timestamp, hostname, appName, procId, msgId);
    HeaderInParts(h, start);
  }

  lemma HeaderInParts(h: Header, start: seq<byte>)
    ensures start + ([LESS_THAN] + Digits(h.prival) + [GREATER_THAN, VERSION, SPACE] + h.timestamp + [SPACE]) +
              h.hostname + [SPACE] + h.appName + [SPACE] + h.procId + [SPACE] + h.msgId + [SPACE] ==
            start + HeaderText(h)
  {
  }

  lemma PrintableWellFormed(s: seq<byte>)
    requires AllPrintable(s)
    ensures WellFormed(s)
  {
    forall i | 0 <= i < |s|
      ensures s[i] <= 0x7F
    {
      assert IsPrintableUsAscii(s[i]);
    }
    AsciiWellFormed(s);
  }

  /** A reader of the grammar recovers from the print each field as it was given, the priority value by way of
      its two parts, and then the structured data and the text. */
  method Format(formatter: Formatter, message: Message, context: Context, maxMessageSize: nat)
    returns (ghost h: Header)
    requires formatter.Valid() && ContextSound(context) && formatter.output == []
    modifies formatter, formatter.buffer
    ensures formatter.Valid() && FieldsSound(h)
    ensures ReadHeader(formatter.output) ==
            Some((h, OrNil(context.structuredData) + MsgText(message.msg, maxMessageSize)))
    ensures h.prival == MakePrival(message) && h.timestamp == context.timestamp
    ensures formatter.HadRoom() ==> FieldsAsGiven(h, message, context)
  {
    hide formatter.Valid, FieldsAsGiven, AllPrintable, HeaderText, MsgText, FieldsSound, ReadHeader, OrNil;
    h := FormatHeader(formatter, message, context);
    FormatStructuredData(formatter, context.structuredData);
    FormatMsg(formatter, message.msg, maxMessageSize);
    HeaderReadsBack(h, OrNil(context.structuredData) + MsgText(message.msg, maxMessageSize));
    assert formatter.output ==
           HeaderText(h) + (OrNil(context.structuredData) + MsgText(message.msg, maxMessageSize));
  }

  method FormatStructuredData(formatter: Formatter, structuredData: seq<byte>)
    requires formatter.Valid() && WellFormed(structuredData)
    modifies formatter, formatter.buffer
    ensures formatter.Valid()
    ensures formatter.output == old(formatter.output) + OrNil(structuredData)
  {
    hide formatter.Valid;
    WriteText(formatter, structuredData);
    if structuredData == [] {
      formatter.NilValue();
    }
  }

  // ----- Signed numbers in structured data -----

  /** Below zero, a minus and the digits of the negation modulo 2^32, which is right for -2^31 as well. */
  method PrintInt32(formatter: Formatter, number: int)
    requires formatter.Valid() && -0x8000_0000 <= number < 0x8000_0000
    modifies formatter, formatter.buffer
    ensures formatter.Valid() && formatter.output == old(formatter.output) + SignedDigits(number)
  {
    hide formatter.Valid, Digits;
    var magnitude: nat := number % 0x1_0000_0000;
    if number < 0 {
      formatter.AsciiCharacter(MINUS);
      magnitude := (0 - magnitude) % 0x1_0000_0000;
    }
    assert magnitude == if number < 0 then -number else number;
    formatter.Uint32(magnitude);
  }
}
