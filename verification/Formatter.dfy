/** The bounded text formatter: every writer appends to one text, of which the buffer holds what fits. */
module Formatter {
  import opened Bytes
  import opened Utf8
  import opened EscapedText
  import opened Decimal

  const SPACE: byte := 0x20
  const SUBSTITUTE: byte := 0x3F
  const BOM: seq<byte> := [0xEF, 0xBB, 0xBF]
  const NILVALUE: byte := 0x2D

  predicate IsPrintableUsAscii(b: byte) {
    0x21 <= b <= 0x7E
  }

  predicate IsAsciiCharacter(b: byte) {
    b == SPACE || IsPrintableUsAscii(b)
  }

  predicate AllPrintable(s: seq<byte>) {
    forall i :: 0 <= i < |s| ==> IsPrintableUsAscii(s[i])
  }

  function Printable(s: seq<byte>): (r: seq<byte>)
    ensures |r| == |s| && AllPrintable(r) && (AllPrintable(s) <==> r == s)
    ensures forall i :: 0 <= i < |s| ==> (r[i] == s[i] <==> 0x21 <= s[i] <= 0x7E) && (r[i] == s[i] || r[i] == 0x3F)
  {
    seq(|s|, i requires 0 <= i < |s| => if IsPrintableUsAscii(s[i]) then s[i] else SUBSTITUTE)
  }

  // As much of a C string as a bound lets a writer read.
  function UpTo(source: CString, limit: nat): (r: CString)
    ensures r <= source && |r| == if |source| <= limit then |source| else limit
  {
    if |source| <= limit then source else source[..limit]
  }

  lemma {:induction false} AsciiWellFormed(s: seq<byte>)
    requires forall i :: 0 <= i < |s| ==> s[i] <= 0x7F
    ensures WellFormed(s)
    decreases |s|
  {
    if s != [] {
      AsciiWellFormed(s[1..]);
    }
  }

  lemma NothingToSanitise(s: seq<byte>)
    requires s == []
    ensures Sanitised(s) == []
  {
  }

  // One step of the bounded writer over the text it may read.
  lemma SanitisedOnce(s: seq<byte>)
    requires s != []
    ensures var n := CharLength(s);
            Sanitised(s) == if n > 0 then s[..n] + Sanitised(s[n..]) else REPLACEMENT + Sanitised(s[1..])
  {
  }

  lemma SanitisedStep(source: CString, maxLength: nat, len: nat)
    requires len < |UpTo(source, maxLength)|
    ensures var text, n := UpTo(source, maxLength), CharLength(source[len..]);
            if 0 < n <= maxLength - len then
              len + n <= |text| && Sanitised(text[len..]) == source[len..len + n] + Sanitised(text[len + n..])
            else Sanitised(text[len..]) == REPLACEMENT + Sanitised(text[len + 1..])
  {
    hide CharLength, Sanitised;
    var text, n := UpTo(source, maxLength), CharLength(source[len..]);
    assert text[len..] == source[len..][..|text| - len];
    CharLengthCut(source[len..], |text| - len);
    SanitisedOnce(text[len..]);
    assert text[len..][1..] == text[len + 1..];
    if 0 < n <= maxLength - len {
      assert text[len..][..n] == source[len..len + n] && text[len..][n..] == text[len + n..];
    }
  }

  lemma DigitsAscii(s: seq<byte>)
    requires AllDigits(s)
    ensures WellFormed(s) && AllPrintable(s)
  {
    forall i | 0 <= i < |s|
      ensures s[i] <= 0x7F && IsPrintableUsAscii(s[i])
    {
      assert IsDigit(s[i]);
    }
    AsciiWellFormed(s);
  }

  // Digits of a fixed width, written out.
  lemma FixedTwo(value: nat)
    ensures FixedDigits(value, 2) == [DigitToChar(value / 10), DigitToChar(value)]
  {
    assert FixedDigits(value / 10, 1) == FixedDigits(value / 10 / 10, 0) + [DigitToChar(value / 10)];
  }

  lemma TwoMore(value: nat, n: nat)
    ensures FixedDigits(value, n + 2) == FixedDigits(value / 100, n) + [DigitToChar(value / 10), DigitToChar(value)]
  {
    assert value / 10 / 10 == value / 100;
    assert FixedDigits(value / 10, n + 1) == FixedDigits(value / 10 / 10, n) + [DigitToChar(value / 10)];
  }

  lemma OneMore(before: seq<byte>, s: seq<byte>, n: nat)
    requires n < |s|
    ensures before + s[..n] + [s[n]] == before + s[..n + 1]
  {
  }

  lemma FourAppended(before: seq<byte>, a: byte, b: byte, c: byte, d: byte)
    ensures before + [a] + [b] + [c] + [d] == before + [a, b, c, d]
  {
  }

  lemma SixAppended(before: seq<byte>, a: byte, b: byte, c: byte, d: byte, e: byte, f: byte)
    ensures before + [a] + [b] + [c] + [d] + [e] + [f] == before + [a, b, c, d, e, f]
  {
  }

  lemma FixedFour(value: nat)
    ensures FixedDigits(value, 4) ==
            [DigitToChar(value / 1000), DigitToChar(value / 100), DigitToChar(value / 10), DigitToChar(value)]
  {
    hide FixedDigits, DigitToChar;
    TwoMore(value, 2);
    FixedTwo(value / 100);
    assert value / 100 / 10 == value / 1000;
  }

  lemma FixedSix(value: nat)
    ensures FixedDigits(value, 6) ==
            [DigitToChar(value / 100000), DigitToChar(value / 10000), DigitToChar(value / 1000),
             DigitToChar(value / 100), DigitToChar(value / 10), DigitToChar(value)]
  {
    hide FixedDigits, DigitToChar;
    TwoMore(value, 4);
    FixedFour(value / 100);
    assert value / 100 / 10 == value / 1000 && value / 100 / 100 == value / 10000 && value / 100 / 1000 == value / 100000;
  }

  lemma DivisorStep(left: nat)
    requires left > 0
    ensures Pow10(left - 1) > 0 && Pow10(left - 1) / 10 == if left == 1 then 0 else Pow10(left - 2)
  {
    PowPositive(left - 1);
  }

  class Formatter {
    const size: nat
    const buffer: array<byte>
    var position: nat

    // All that was ever written, and how much of what the buffer took is still there untrimmed.
    ghost var output: seq<byte>
    ghost var kept: nat

    // The buffer holds as much of the output as leaves room for a terminator, a trimmed tail apart.
    ghost predicate Sound()
      reads this, buffer
    {
      && buffer.Length == size
      && position == (if size == 0 then 0 else if |output| < size then |output| else size - 1)
      && kept <= position && buffer[..kept] == output[..kept]
      && (kept < position ==>
            && position < |output|
            && LongestWellFormed(output[..position], position, kept)
            && forall i :: kept <= i < position ==> buffer[i] == 0)
    }

    ghost predicate Valid()
      reads this, buffer
    {
      Sound() && WellFormed(output) && (size > 0 ==> buffer[position] == 0)
    }

    // Nothing was cut.
    ghost predicate HadRoom()
      reads this
    {
      output == [] || |output| < size
    }

    lemma RoomShowsAll()
      requires Valid()
      ensures position == if size == 0 then 0 else if |output| < size then |output| else size - 1
      ensures HadRoom() <==> |output| == position
      ensures HadRoom() && kept == position ==> buffer[..position] == output
    {
    }

    constructor (buffer: array<byte>)
      modifies buffer
      ensures Valid() && this.buffer == buffer && this.size == buffer.Length && output == []
    {
      this.buffer, size, position := buffer, buffer.Length, 0;
      output, kept := [], 0;
      new;
      NullTerminate();
    }

    method NullTerminate()
      requires Sound()
      modifies buffer
      ensures Sound() && (size > 0 ==> buffer[position] == 0)
    {
      if size > 0 {
        buffer[position] := 0;
      }
    }

    predicate HasCapacity()
      reads this
    {
      size > 0 && position < size - 1
    }

    method WriteChar(value: byte)
      requires Sound()
      modifies this`position, this`output, this`kept, buffer
      ensures Sound() && output == old(output) + [value]
    {
      ghost var before := output;
      output := output + [value];
      if HasCapacity() {
        buffer[position] := value;
        position := position + 1;
        kept := position;
      } else {
        assert output[..position] == before[..position];
      }
    }

    method WriteBytes(bytes: seq<byte>)
      requires Sound()
      modifies this`position, this`output, this`kept, buffer
      ensures Sound() && output == old(output) + bytes
    {
      for i := 0 to |bytes|
        invariant Sound() && output == old(output) + bytes[..i]
      {
        WriteChar(bytes[i]);
      }
    }

    // What was written is whole characters, and the terminator goes behind it.
    method Finish(ghost before: seq<byte>, ghost added: seq<byte>)
      requires Sound() && WellFormed(before) && WellFormed(added) && output == before + added
      modifies buffer
      ensures Valid()
    {
      WellFormedConcat(before, added);
      NullTerminate();
    }

    method AsciiCharacter(value: byte)
      requires Valid()
      modifies this, buffer
      ensures Valid() && output == old(output) + [if 0x20 <= value <= 0x7E then value else 0x3F]
    {
      var emitted := value;
      if !IsAsciiCharacter(emitted) {
        emitted := SUBSTITUTE;
      }
      WriteChar(emitted);
      AsciiWellFormed([emitted]);
      Finish(old(output), [emitted]);
    }

    method NilValue()
      requires Valid()
      modifies this, buffer
      ensures Valid() && output == old(output) + [NILVALUE]
    {
      AsciiCharacter(NILVALUE);
    }

    method Bom()
      requires Valid()
      modifies this, buffer
      ensures Valid() && output == old(output) + BOM
    {
      WriteBytes(BOM);
      assert BOM[3..] == [];
      Finish(old(output), BOM);
    }

    /** Appends the sanitised form of the source's first maxLength bytes: a character the bound cuts through
        becomes U+FFFD byte by byte. */
    method BoundedString(source: CString, maxLength: nat)
      requires Valid()
      modifies this, buffer
      ensures Valid() && output == old(output) + Sanitised(UpTo(source, maxLength))
    {
      hide Sound, WellFormed, Sanitised;
      var len := 0;
      ghost var text := UpTo(source, maxLength);
      assert text[0..] == text;
      while len < maxLength && At(source, len) != 0
        invariant len <= |text| && Sound() && output + Sanitised(text[len..]) == old(output) + Sanitised(text)
        decreases |text| - len
      {
        len := WriteBoundedUnit(source, maxLength, len);
      }
      NothingToSanitise(text[len..]);
      SanitisedWellFormed(text);
      Finish(old(output), Sanitised(text));
    }

    method WriteBoundedUnit(source: CString, maxLength: nat, len: nat) returns (next: nat)
      requires Sound() && len < |UpTo(source, maxLength)|
      modifies this`position, this`output, this`kept, buffer
      ensures Sound() && len < next <= |UpTo(source, maxLength)|
      ensures output + Sanitised(UpTo(source, maxLength)[next..]) ==
              old(output) + Sanitised(UpTo(source, maxLength)[len..])
    {
      hide Sound, CharLength, CodepointLength, Sanitised, UpTo;
      var codepointLength := CodepointLength(source, len);
      assert len < |source|;
      CodepointLengthIsCharLength(source, len);
      SanitisedStep(source, maxLength, len);
      if 0 < codepointLength <= maxLength - len {
        WriteBytes(source[len..len + codepointLength]);
        next := len + codepointLength;
      } else {
        WriteBytes(REPLACEMENT);
        next := len + 1;
      }
    }

    /** Appends the source escaped, as far as the reader has room to decode it. */
    method EscapedString(source: CString, maxDecodedLength: nat)
      requires Valid()
      modifies this, buffer
      ensures Valid() && output == old(output) + Escaped(source, 0, maxDecodedLength)
    {
      hide Sound, WellFormed, Escaped;
      var sourcePos: nat, decodedLength: nat, exhausted := 0, 0, false;
      while !exhausted && At(source, sourcePos) != 0
        invariant sourcePos <= |source| && decodedLength <= maxDecodedLength && Sound()
        invariant output + (if exhausted then [] else Escaped(source, sourcePos, maxDecodedLength - decodedLength)) ==
                  old(output) + Escaped(source, 0, maxDecodedLength)
        decreases !exhausted, |source| - sourcePos
      {
        sourcePos, decodedLength, exhausted := WriteUnit(source, sourcePos, decodedLength, maxDecodedLength);
      }
      if !exhausted {
        EscapedAtEnd(source, maxDecodedLength - decodedLength);
      }
      EscapedWellFormed(source, 0, maxDecodedLength);
      Finish(old(output), Escaped(source, 0, maxDecodedLength));
    }

    // One step of the escaping writer: a pair, a character, U+FFFD, or the end of the room to decode.
    method WriteUnit(source: CString, sourcePos: nat, decodedLength: nat, maxDecodedLength: nat)
      returns (nextPos: nat, nextDecoded: nat, exhausted: bool)
      requires Sound() && sourcePos < |source| && decodedLength <= maxDecodedLength
      modifies this`position, this`output, this`kept, buffer
      ensures Sound() && sourcePos <= nextPos <= |source| && nextDecoded <= maxDecodedLength
      ensures !exhausted ==> sourcePos < nextPos
      ensures output + (if exhausted then [] else Escaped(source, nextPos, maxDecodedLength - nextDecoded)) ==
              old(output) + Escaped(source, sourcePos, maxDecodedLength - decodedLength)
    {
      hide Sound, CharLength, CodepointLength, Escaped;
      EscapedStep(source, sourcePos, maxDecodedLength - decodedLength);
      nextPos, nextDecoded, exhausted := sourcePos, decodedLength, false;
      var remaining := maxDecodedLength - decodedLength;
      var codepointLength := CodepointLength(source, sourcePos);
      CodepointLengthIsCharLength(source, sourcePos);
      if NeedsEscape(source[sourcePos]) {
        if Fits(1, remaining) {
          WriteBytes([BACKSLASH, source[sourcePos]]);
          nextPos, nextDecoded := sourcePos + 1, decodedLength + 1;
        } else {
          exhausted := true;
        }
      } else if Fits(codepointLength, remaining) {
        WriteBytes(source[sourcePos..sourcePos + codepointLength]);
        nextPos, nextDecoded := sourcePos + codepointLength, decodedLength + codepointLength;
      } else if Fits(|REPLACEMENT|, remaining) {
        WriteBytes(REPLACEMENT);
        nextPos, nextDecoded := sourcePos + 1, decodedLength + |REPLACEMENT|;
      } else {
        exhausted := true;
      }
    }

    method PrintUsAsciiString(source: CString, maxLength: nat)
      requires Valid()
      modifies this, buffer
      ensures Valid() && output == old(output) + Printable(UpTo(source, maxLength))
    {
      var len := 0;
      ghost var text := UpTo(source, maxLength);
      while len < maxLength && At(source, len) != 0
        invariant len <= |text| && Sound() && output == old(output) + Printable(text)[..len]
        decreases |text| - len
      {
        WriteChar(if IsPrintableUsAscii(source[len]) then source[len] else SUBSTITUTE);
        OneMore(old(output), Printable(text), len);
        len := len + 1;
      }
      assert Printable(text)[..len] == Printable(text);
      AsciiWellFormed(Printable(text));
      Finish(old(output), Printable(text));
    }

    /** Appends a 32-bit number in decimal; the divisor that reaches its first digit fits in 32 bits. */
    method Uint32(value: nat)
      requires Valid() && value < 0x1_0000_0000
      modifies this, buffer
      ensures Valid() && output == old(output) + Digits(value)
    {
      hide Sound, WellFormed, FixedDigits, DigitToChar, CountDigits;
      var digits := CountOfDigits(value);
      WordDigits(value);
      var divisor := PowerBelow(digits);
      var remaining := value;
      ghost var left := digits;
      DigitsParse(value);
      assert FixedDigits(value, digits) == Digits(value);
      for i := 0 to digits
        invariant Sound() && left == digits - i && divisor == (if left == 0 then 0 else Pow10(left - 1))
        invariant output + FixedDigits(remaining, left) == old(output) + Digits(value)
      {
        LeadingDigit(remaining, left);
        DivisorStep(left);
        ghost var before := output;
        WriteChar(DigitToChar(Quotient(remaining, divisor)));
        remaining := remaining % divisor;
        divisor := divisor / 10;
        left := left - 1;
        assert output + FixedDigits(remaining, left) == before + ([output[|before|]] + FixedDigits(remaining, left));
      }
      DigitsAscii(Digits(value));
      Finish(old(output), Digits(value));
    }

    method CountOfDigits(value: nat) returns (count: nat)
      ensures count == CountDigits(value)
    {
      count := 1;
      var remaining := value;
      while remaining >= 10
        invariant count >= 1 && count + CountDigits(remaining) == CountDigits(value) + 1
        decreases remaining
      {
        count := count + 1;
        remaining := remaining / 10;
      }
    }

    // The divisor stays a 32-bit number throughout.
    method PowerBelow(digits: nat) returns (divisor: nat)
      requires 1 <= digits <= 10
      ensures divisor == Pow10(digits - 1) < 0x1_0000_0000
    {
      divisor := 1;
      PowTen();
      for i := 1 to digits
        invariant divisor == Pow10(i - 1) < 0x1_0000_0000
      {
        divisor := divisor * 10;
        PowGrows(i, 9);
      }
    }

    // A number's last digits, in a fixed width.
    method TwoDigit(value: nat)
      requires Valid() && value < 0x1_0000_0000
      modifies this, buffer
      ensures Valid() && output == old(output) + FixedDigits(value, 2)
    {
      WriteChar(DigitToChar(value / 10));
      WriteChar(DigitToChar(value));
      FixedTwo(value);
      FinishDigits(old(output), value, 2);
    }

    method FourDigit(value: nat)
      requires Valid() && value < 0x1_0000_0000
      modifies this, buffer
      ensures Valid() && output == old(output) + FixedDigits(value, 4)
    {
      hide Sound, FixedDigits, DigitToChar, WellFormed;
      ghost var before := output;
      WriteChar(DigitToChar(value / 1000));
      WriteChar(DigitToChar(value / 100));
      WriteChar(DigitToChar(value / 10));
      WriteChar(DigitToChar(value));
      FourAppended(before, DigitToChar(value / 1000), DigitToChar(value / 100), DigitToChar(value / 10),
                   DigitToChar(value));
      FixedFour(value);
      FinishDigits(before, value, 4);
    }

    method SixDigit(value: nat)
      requires Valid() && value < 0x1_0000_0000
      modifies this, buffer
      ensures Valid() && output == old(output) + FixedDigits(value, 6)
    {
      hide Sound, FixedDigits, DigitToChar, WellFormed;
      ghost var before := output;
      WriteChar(DigitToChar(value / 100000));
      WriteChar(DigitToChar(value / 10000));
      WriteChar(DigitToChar(value / 1000));
      WriteChar(DigitToChar(value / 100));
      WriteChar(DigitToChar(value / 10));
      WriteChar(DigitToChar(value));
      SixAppended(before, DigitToChar(value / 100000), DigitToChar(value / 10000), DigitToChar(value / 1000),
                  DigitToChar(value / 100), DigitToChar(value / 10), DigitToChar(value));
      FixedSix(value);
      FinishDigits(before, value, 6);
    }

    method FinishDigits(ghost before: seq<byte>, ghost value: nat, ghost n: nat)
      requires Sound() && WellFormed(before) && output == before + FixedDigits(value, n)
      modifies buffer
      ensures Valid()
    {
      FixedParses(value, n);
      DigitsAscii(FixedDigits(value, n));
      Finish(before, FixedDigits(value, n));
    }

    /** After this the buffer holds the longest well-formed prefix of what it took, and zeros behind it. */
    method AsFormattedBuffer() returns (text: array<byte>)
      requires Valid()
      modifies this`kept, buffer
      ensures Valid() && text == buffer && kept <= position
      ensures buffer[..kept] == output[..kept] && LongestWellFormed(output[..position], position, kept)
      ensures forall i :: kept <= i <= position && i < buffer.Length ==> buffer[i] == 0
    {
      hide TrimFrom, WellFormed, LongestWellFormed;
      TakenEndsWhole();
      if |output| == position {
        WholeIsLongest(output, TrimFrom(buffer[..][..position], position));
      }
      var trimFrom := TrimFrom(buffer[..], position);
      TrimLooksBack(buffer[..], position);
      for i := trimFrom to position
        modifies buffer
        invariant buffer[..trimFrom] == old(buffer[..trimFrom]) && buffer[position..] == old(buffer[position..])
        invariant forall k :: trimFrom <= k < i ==> buffer[k] == 0
        invariant forall k :: i <= k < position ==> buffer[k] == old(buffer[k])
      {
        buffer[i] := 0;
      }
      if kept == position {
        kept := trimFrom;
      }
      text := buffer;
    }

    lemma TakenEndsWhole()
      requires Valid()
      ensures position <= buffer.Length
      ensures kept == position ==>
                LongestWellFormed(output[..position], position, TrimFrom(buffer[..][..position], position))
      ensures kept < position ==> TrimFrom(buffer[..][..position], position) == position
    {
      hide WellFormed, LongestWellFormed, TrimFrom;
      var taken := buffer[..][..position];
      assert taken == buffer[..position];
      if kept == position {
        TrimLeavesLongest(output, position);
        TrimLooksBack(output, position);
        LongestOfPrefix(output, position, TrimFrom(output, position));
      } else {
        var zeros := taken[kept..];
        assert taken == output[..kept] + zeros && forall i :: 0 <= i < |zeros| ==> zeros[i] == buffer[kept + i];
        AsciiWellFormed(zeros);
        LongestIsWellFormed(output[..position], position, kept);
        assert output[..position][..kept] == output[..kept];
        WellFormedConcat(output[..kept], zeros);
        EndsWhole(taken);
      }
    }
  }

  // Text that was not cut has nothing to trim.
  lemma WholeIsLongest(s: seq<byte>, t: nat)
    requires WellFormed(s)
    ensures LongestWellFormed(s[..|s|], |s|, t) ==> t == |s|
  {
    assert s[..|s|] == s && s[..|s|][..|s|] == s;
  }

  // Trimming looks only at what was taken.
  lemma TrimLooksBack(s: seq<byte>, p: nat)
    requires p <= |s|
    ensures TrimFrom(s, p) == TrimFrom(s[..p], p)
  {
  }

  lemma LongestOfPrefix(s: seq<byte>, p: nat, t: nat)
    requires p <= |s| && LongestWellFormed(s, p, t)
    ensures LongestWellFormed(s[..p], p, t)
  {
    assert forall u :: 0 <= u <= p ==> s[..p][..u] == s[..u];
  }

  lemma LongestIsWellFormed(s: seq<byte>, p: nat, t: nat)
    requires p <= |s| && LongestWellFormed(s, p, t)
    ensures WellFormed(s[..t])
  {
  }
}
