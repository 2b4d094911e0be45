/** Blocks kept one to a file, through the one file handle the device has. */
module FileBlockDevice {
  import opened Bytes
  import opened Utf8
  import opened Decimal
  import opened Formatter

  type Path = seq<byte>

  const MAX_PATH_SIZE := 128
  const FILENAME_SUFFIX := 6
  const MAX_PREFIX_LENGTH := MAX_PATH_SIZE - FILENAME_SUFFIX - 1
  const MAX_BLOCK_INDEX := 99
  const FILE_EXTENSION: CString := [0x2E, 0x6C, 0x6F, 0x67]

  // ----- Filenames -----

  // The prefix as the formatter writes it, and then the whole name before it is cut to the path's room.
  function Stem(prefix: CString): seq<byte> {
    Sanitised(UpTo(prefix, MAX_PREFIX_LENGTH))
  }

  function FullName(prefix: CString, i: nat): seq<byte> {
    Stem(prefix) + FixedDigits(i, 2) + FILE_EXTENSION
  }

  function Shown(text: seq<byte>): nat {
    if |text| < MAX_PATH_SIZE then |text| else MAX_PATH_SIZE - 1
  }

  // The name of a block's file: as much of it as the path has room for, whole characters only.
  function Name(prefix: CString, i: nat): Path {
    FullName(prefix, i)[..TrimFrom(FullName(prefix, i), Shown(FullName(prefix, i)))]
  }

  lemma FullNameWellFormed(prefix: CString, i: nat)
    ensures WellFormed(Stem(prefix)) && WellFormed(Stem(prefix) + FixedDigits(i, 2)) && WellFormed(FullName(prefix, i))
  {
    SanitisedWellFormed(UpTo(prefix, MAX_PREFIX_LENGTH));
    FixedParses(i, 2);
    DigitsAscii(FixedDigits(i, 2));
    WellFormedConcat(Stem(prefix), FixedDigits(i, 2));
    AsciiWellFormed(FILE_EXTENSION);
    WellFormedConcat(Stem(prefix) + FixedDigits(i, 2), FILE_EXTENSION);
  }

  predicate NamesApart(prefix: CString) {
    |Sanitised(UpTo(prefix, 121))| <= 125
  }

  lemma NumberShown(prefix: CString, i: nat)
    requires NamesApart(prefix)
    ensures var n := |Stem(prefix)|;
            n + 2 <= |Name(prefix, i)| && Name(prefix, i)[n..n + 2] == FixedDigits(i, 2)
  {
    hide TrimFrom, WellFormed, Sanitised, FixedDigits;
    var text, m, n := FullName(prefix, i), Shown(FullName(prefix, i)), |Stem(prefix)|;
    FullNameWellFormed(prefix, i);
    TrimLeavesLongest(text, m);
    assert text[..n + 2] == Stem(prefix) + FixedDigits(i, 2);
    assert text[n..n + 2] == FixedDigits(i, 2);
    assert Name(prefix, i)[n..n + 2] == text[n..n + 2];
  }

  /** Every index has a file of its own exactly if the prefix, as it is written, leaves room for both digits. */
  lemma NamesDistinctIffRoom(prefix: CString)
    ensures NamesApart(prefix) <==>
            forall i, j :: 0 <= i < j <= 99 ==> Name(prefix, i) != Name(prefix, j)
  {
    hide Name;
    if NamesApart(prefix) {
      forall i: nat, j: nat | i < j <= MAX_BLOCK_INDEX
        ensures Name(prefix, i) != Name(prefix, j)
      {
        NamesDiffer(prefix, i, j);
      }
    } else {
      NamesCollide(prefix);
      assert Name(prefix, 0) == Name(prefix, 1);
    }
  }

  lemma NamesDiffer(prefix: CString, i: nat, j: nat)
    requires NamesApart(prefix) && i < j <= MAX_BLOCK_INDEX
    ensures Name(prefix, i) != Name(prefix, j)
  {
    hide Name, FixedDigits, Parse;
    NumberShown(prefix, i);
    NumberShown(prefix, j);
    assert Pow10(2) == 100;
    FixedParsesExact(i, 2);
    FixedParsesExact(j, 2);
  }

  lemma NamesCollide(prefix: CString)
    requires !NamesApart(prefix)
    ensures Name(prefix, 0) == Name(prefix, 1)
  {
    hide TrimFrom, Sanitised;
    var a, b, m := FullName(prefix, 0), FullName(prefix, 1), MAX_PATH_SIZE - 1;
    FixedTwo(0);
    FixedTwo(1);
    assert a[..m] == b[..m];
    TrimLooksBack(a, m);
    TrimLooksBack(b, m);
    assert a[..m][..TrimFrom(a, m)] == a[..TrimFrom(a, m)] && b[..m][..TrimFrom(a, m)] == b[..TrimFrom(a, m)];
  }

  /** A well-formed prefix of at most 121 bytes leaves room for the digits, and a name is the prefix, the index in
      two digits and ".log". */
  lemma ShortPrefixHasRoom(prefix: CString, i: nat)
    requires WellFormed(prefix) && |prefix| <= 121 && i <= 99
    ensures NamesApart(prefix)
    ensures Name(prefix, i) ==
            prefix + [0x30 + (i / 10) as byte, 0x30 + (i % 10) as byte] + [0x2E, 0x6C, 0x6F, 0x67]
  {
    hide TrimFrom, WellFormed, Sanitised, FixedDigits, FullName;
    SanitisedWellFormed(prefix);
    var text := FullName(prefix, i);
    ShortName(prefix, i);
    FullNameWellFormed(prefix, i);
    EndsWhole(text);
    assert text[..|text|] == text;
  }

  lemma ShortName(prefix: CString, i: nat)
    requires Sanitised(prefix) == prefix && |prefix| <= 121 && i <= 99
    ensures FullName(prefix, i) ==
            prefix + [0x30 + (i / 10) as byte, 0x30 + (i % 10) as byte] + [0x2E, 0x6C, 0x6F, 0x67]
  {
    hide Sanitised, FixedDigits;
    BothDigitsShown(i);
    assert Stem(prefix) == prefix;
  }

  lemma BothDigitsShown(i: nat)
    requires i <= 99
    ensures FixedDigits(i, 2) == [0x30 + (i / 10) as byte, 0x30 + (i % 10) as byte]
  {
    hide FixedDigits, DigitToChar;
    FixedTwo(i);
    DigitShown(i / 10);
    DigitShown(i);
    assert i / 10 % 10 == i / 10;
  }

  lemma DigitShown(value: nat)
    ensures DigitToChar(value) == 0x30 + (value % 10) as byte
  {
  }

  // A longer one need not: cut through a character, it grows as it is sanitised.
  lemma LongPrefixMayCollide()
    ensures exists prefix: CString :: WellFormed(prefix) && Name(prefix, 0) == Name(prefix, 1)
  {
    var letters: CString := seq(118, i => 0x61);
    var prefix: CString := letters + [0xF0, 0x9F, 0x98, 0x80];
    assert forall i :: 0 <= i < 118 ==> letters[i] == 0x61;
    AsciiWellFormed(letters);
    var emoji: seq<byte> := [0xF0, 0x9F, 0x98, 0x80];
    assert emoji[4..] == [];
    WellFormedConcat(letters, emoji);
    var cut: seq<byte> := [0xF0, 0x9F, 0x98];
    assert UpTo(prefix, MAX_PREFIX_LENGTH) == letters + cut;
    SanitisedAscii(letters, cut);
    assert cut[1..] == [0x9F, 0x98] && cut[1..][1..] == [0x98] && cut[1..][1..][1..] == [];
    assert |Sanitised(cut)| == 9;
    NamesCollide(prefix);
  }

  lemma {:induction false} SanitisedAscii(a: seq<byte>, b: seq<byte>)
    requires forall i :: 0 <= i < |a| ==> a[i] <= 0x7F
    ensures |Sanitised(a + b)| == |a| + |Sanitised(b)|
  {
    if a == [] {
      assert a + b == b;
    } else {
      assert (a + b)[1..] == a[1..] + b;
      SanitisedAscii(a[1..], b);
    }
  }

  // ----- The filesystem and a handle on it -----

  function Overwrite(content: seq<byte>, offset: nat, data: seq<byte>): seq<byte> {
    if offset > |content| then content + seq(offset - |content|, _ => 0) + data
    else if offset + |data| <= |content| then content[..offset] + data + content[offset + |data|..]
    else content[..offset] + data
  }

  lemma OverwriteAtEnd(content: seq<byte>, data: seq<byte>)
    ensures Overwrite(content, |content|, data) == content + data
  {
  }

  // Any call may be refused, and each refusal is counted; one may leave the handle closed, and a refused write
  // leaves the file's content unknown. A read fails besides where what it asks for is not all there.
  class File {
    var files: map<Path, seq<byte>>
    var isOpen: bool
    var path: Path
    var position: nat
    ghost var refusals: nat

    constructor (files: map<Path, seq<byte>>)
      ensures this.files == files && !isOpen && refusals == 0
    {
      this.files, isOpen, path, position, refusals := files, false, [], 0, 0;
    }

    ghost predicate Valid()
      reads this
    {
      isOpen ==> path in files
    }

    method Refuse() returns (refused: bool)
      modifies this`refusals
      ensures refusals == old(refusals) + if refused then 1 else 0
    {
      refused := *;
      if refused {
        refusals := refusals + 1;
      }
    }

    // Creates an absent file empty and keeps what a present one holds.
    method Open(name: Path) returns (ok: bool)
      requires !isOpen
      modifies this
      ensures Valid() && isOpen == ok && refusals == old(refusals) + if ok then 0 else 1
      ensures ok ==> path == name && files == if name in old(files) then old(files) else old(files)[name := []]
      ensures !ok ==> files == old(files)
    {
      var refused := Refuse();
      ok := !refused;
      if ok {
        isOpen, path, position := true, name, 0;
        if name !in files {
          files := files[name := []];
        }
      }
    }

    method Close()
      modifies this`isOpen
      ensures !isOpen
    {
      isOpen := false;
    }

    method SeekTo(offset: nat)
      modifies this`position
      ensures position == offset
    {
      position := offset;
    }

    method Read(count: nat) returns (ok: bool, data: seq<byte>)
      requires Valid() && isOpen
      modifies this`isOpen, this`position, this`refusals
      ensures Valid() && (ok ==> isOpen)
      ensures ok <==> refusals == old(refusals) && old(position) + count <= |files[path]|
      ensures ok ==> data == files[path][old(position)..old(position) + count]
    {
      var refused := Refuse();
      data := [];
      ok := !refused && position + count <= |files[path]|;
      if ok {
        data := files[path][position..position + count];
        position := position + count;
      } else {
        isOpen := *;
      }
    }

    method Write(data: seq<byte>) returns (ok: bool)
      requires Valid() && isOpen
      modifies this`isOpen, this`position, this`files, this`refusals
      ensures Valid() && (ok ==> isOpen) && refusals == old(refusals) + if ok then 0 else 1
      ensures ok ==> files == old(files)[path := Overwrite(old(files)[path], old(position), data)]
      ensures !ok ==> files - {path} == old(files) - {path} && path in files
    {
      var refused := Refuse();
      ok := !refused;
      if ok {
        files := files[path := Overwrite(files[path], position, data)];
        position := position + |data|;
      } else {
        var left: seq<byte> := *;
        files := files[path := left];
        isOpen := *;
      }
    }

    method Size() returns (ok: bool, size: nat)
      requires Valid() && isOpen
      modifies this`isOpen, this`refusals
      ensures Valid() && (ok ==> isOpen && size == |files[path]|) && refusals == old(refusals) + if ok then 0 else 1
    {
      var refused := Refuse();
      ok, size := !refused, 0;
      if ok {
        size := |files[path]|;
      } else {
        isOpen := *;
      }
    }

    method Truncate()
      requires Valid() && isOpen
      modifies this`files
      ensures Valid() && files == old(files)[path := []]
    {
      files := files[path := []];
    }

    method Exists(name: Path) returns (r: bool)
      ensures r == (name in files)
    {
      r := name in files;
    }

    // True also where the file was already absent.
    method Delete(name: Path) returns (ok: bool)
      requires isOpen ==> path != name
      modifies this`files, this`refusals
      ensures ok ==> files == old(files) - {name}
      ensures !ok ==> files == old(files)
      ensures refusals == old(refusals) + if ok then 0 else 1
      ensures old(Valid()) ==> Valid()
    {
      var refused := Refuse();
      ok := !refused;
      if ok {
        files := files - {name};
      }
    }
  }

  class FileBlockDevice {
    const file: File
    const pathPrefix: CString
    const blockSize: nat
    var handleBlockIndex: nat
    var handleIsOpen: bool

    constructor (file: File, pathPrefix: CString, blockSize: nat)
      requires !file.isOpen
      ensures Valid() && this.file == file && this.pathPrefix == pathPrefix && this.blockSize == blockSize
      ensures !handleIsOpen
    {
      this.file, this.pathPrefix, this.blockSize := file, pathPrefix, blockSize;
      handleBlockIndex, handleIsOpen := 0, false;
    }

    // A usable handle names the file of the block it was pointed at.
    ghost predicate Valid()
      reads this, file
    {
      && file.Valid() && (file.isOpen ==> handleIsOpen)
      && (handleIsOpen ==> handleBlockIndex <= MAX_BLOCK_INDEX)
      && (file.isOpen ==> file.path == Name(pathPrefix, handleBlockIndex))
    }

    // What the device holds: each block, the content of its file.
    ghost function Blocks(): map<nat, seq<byte>>
      reads file
    {
      map i | 0 <= i <= MAX_BLOCK_INDEX && Name(pathPrefix, i) in file.files :: file.files[Name(pathPrefix, i)]
    }

    // The filesystem has refused nothing since.
    ghost predicate Obliged(refusals: nat)
      reads file`refusals
    {
      file.refusals == refusals
    }

    // ----- The handle -----

    method FormatBlockFilename(i: nat) returns (name: Path)
      requires i <= MAX_BLOCK_INDEX
      ensures name == Name(pathPrefix, i)
    {
      hide TrimFrom, WellFormed, Sanitised, FixedDigits, FullName, LongestWellFormed;
      var storage := new byte[MAX_PATH_SIZE];
      var formatter := new Formatter(storage);
      WriteFullName(formatter, i);
      ghost var text := FullName(pathPrefix, i);
      FullNameWellFormed(pathPrefix, i);
      TrimLeavesLongest(text, Shown(text));
      NameHasNoNul(pathPrefix, i);
      var buffer := formatter.AsFormattedBuffer();
      formatter.RoomShowsAll();
      LongestOnce(text, formatter.position, formatter.kept, TrimFrom(text, Shown(text)));
      assert forall k :: 0 <= k < formatter.kept ==> buffer[k] == buffer[..formatter.kept][k];
      name := BytesOfCString(buffer, formatter.kept);
    }

    method WriteFullName(formatter: Formatter, i: nat)
      requires formatter.Valid() && formatter.output == [] && i <= MAX_BLOCK_INDEX
      modifies formatter, formatter.buffer
      ensures formatter.Valid() && formatter.output == FullName(pathPrefix, i)
    {
      hide formatter.Valid, Sanitised, FixedDigits;
      formatter.BoundedString(pathPrefix, MAX_PREFIX_LENGTH);
      formatter.TwoDigit(i);
      formatter.BoundedString(FILE_EXTENSION, |FILE_EXTENSION|);
      ExtensionAsItIs();
    }

    // Usable on the block, re-pointed where it was not; a file that could not be usable leaves it closed.
    method EnsureHandleOpenOnBlock(i: nat) returns (ready: bool)
      requires Valid() && i <= MAX_BLOCK_INDEX
      modifies this`handleBlockIndex, this`handleIsOpen, file
      ensures Valid() && (ready ==> file.isOpen && handleBlockIndex == i)
      ensures old(handleIsOpen && file.isOpen && handleBlockIndex == i) ==> ready && unchanged(this) && unchanged(file)
      ensures ready <==> Obliged(old(file.refusals))
      ensures file.files == if ready && Name(pathPrefix, i) !in old(file.files)
                            then old(file.files)[Name(pathPrefix, i) := []] else old(file.files)
    {
      hide Name;
      ready := handleIsOpen && file.isOpen && handleBlockIndex == i;
      if !ready {
        ready := OpenHandleOnBlock(i);
      }
    }

    method OpenHandleOnBlock(i: nat) returns (usable: bool)
      requires Valid() && i <= MAX_BLOCK_INDEX
      modifies this`handleBlockIndex, this`handleIsOpen, file
      ensures Valid() && handleIsOpen == file.isOpen == usable
      ensures handleBlockIndex == if usable then i else old(handleBlockIndex)
      ensures usable <==> Obliged(old(file.refusals))
      ensures file.files == if usable && Name(pathPrefix, i) !in old(file.files)
                            then old(file.files)[Name(pathPrefix, i) := []] else old(file.files)
    {
      hide Name;
      if file.isOpen {
        file.Close();
      }
      handleIsOpen := false;
      var name := FormatBlockFilename(i);
      usable := file.Open(name);
      if usable {
        handleBlockIndex := i;
        handleIsOpen := true;
      }
    }

    // ----- The device -----

    lemma BlocksAfter(before: map<Path, seq<byte>>, i: nat, content: seq<byte>)
      requires i <= MAX_BLOCK_INDEX && NamesApart(pathPrefix)
      requires file.files == before[Name(pathPrefix, i) := content]
      ensures Blocks() == BlocksIn(pathPrefix, before)[i := content]
    {
      hide Name;
      OthersNamedOtherwise(pathPrefix, i);
    }

    lemma BlocksWithout(before: map<Path, seq<byte>>, i: nat)
      requires i <= MAX_BLOCK_INDEX && NamesApart(pathPrefix)
      requires file.files == before - {Name(pathPrefix, i)}
      ensures Blocks() == BlocksIn(pathPrefix, before) - {i}
    {
      hide Name;
      OthersNamedOtherwise(pathPrefix, i);
    }

    lemma BlocksElsewhere(before: map<Path, seq<byte>>, i: nat)
      requires i <= MAX_BLOCK_INDEX && NamesApart(pathPrefix)
      requires file.files - {Name(pathPrefix, i)} == before - {Name(pathPrefix, i)}
      ensures Blocks() - {i} == BlocksIn(pathPrefix, before) - {i}
    {
      hide Name;
      OthersNamedOtherwise(pathPrefix, i);
      forall j: nat | j != i && j <= MAX_BLOCK_INDEX
        ensures Name(pathPrefix, j) in file.files <==> Name(pathPrefix, j) in before
        ensures Name(pathPrefix, j) in before ==> file.files[Name(pathPrefix, j)] == before[Name(pathPrefix, j)]
      {
        assert Name(pathPrefix, j) in file.files - {Name(pathPrefix, i)} <==> Name(pathPrefix, j) in file.files;
        assert Name(pathPrefix, j) in before - {Name(pathPrefix, i)} <==> Name(pathPrefix, j) in before;
        assert Name(pathPrefix, j) in before ==>
               (file.files - {Name(pathPrefix, i)})[Name(pathPrefix, j)] ==
               (before - {Name(pathPrefix, i)})[Name(pathPrefix, j)];
      }
    }

    // Made ready for fresh writes, whatever it held.
    method Acquire(i: nat) returns (ready: bool)
      requires Valid() && NamesApart(pathPrefix)
      modifies this`handleBlockIndex, this`handleIsOpen, file
      ensures Valid() && (ready ==> i <= MAX_BLOCK_INDEX && Blocks() == old(Blocks())[i := []])
      ensures !ready ==> Blocks() == old(Blocks())
      ensures ready <==> i <= MAX_BLOCK_INDEX && Obliged(old(file.refusals))
    {
      hide Name;
      ready := false;
      if i <= MAX_BLOCK_INDEX {
        ready := EnsureHandleOpenOnBlock(i);
        if ready {
          file.Truncate();
          BlocksAfter(old(file.files), i, []);
        }
      }
    }

    method Dispose(i: nat) returns (disposed: bool)
      requires Valid() && NamesApart(pathPrefix)
      modifies this`handleIsOpen, file
      ensures Valid() && (disposed ==> i <= MAX_BLOCK_INDEX && Blocks() == old(Blocks()) - {i})
      ensures !disposed ==> Blocks() == old(Blocks())
      ensures disposed <==> i <= MAX_BLOCK_INDEX && Obliged(old(file.refusals))
    {
      hide Name;
      disposed := false;
      if i <= MAX_BLOCK_INDEX {
        CloseIfHoldingBlock(i);
        var name := FormatBlockFilename(i);
        if file.isOpen {
          NamesDiffer(pathPrefix, if i < handleBlockIndex then i else handleBlockIndex,
                      if i < handleBlockIndex then handleBlockIndex else i);
        }
        disposed := file.Delete(name);
        if disposed {
          BlocksWithout(old(file.files), i);
        }
      }
    }

    method CloseIfHoldingBlock(i: nat)
      requires Valid()
      modifies this`handleIsOpen, file`isOpen
      ensures Valid() && (file.isOpen ==> handleBlockIndex != i)
      ensures if old(handleIsOpen) && handleBlockIndex == i then !handleIsOpen && !file.isOpen
              else unchanged(this) && unchanged(file)
    {
      if handleIsOpen && handleBlockIndex == i {
        file.Close();
        handleIsOpen := false;
      }
    }

    method Exists(i: nat) returns (exists_: bool)
      requires Valid()
      ensures exists_ == (i in Blocks())
    {
      exists_ := false;
      if i <= MAX_BLOCK_INDEX {
        var name := FormatBlockFilename(i);
        exists_ := file.Exists(name);
      }
    }

    // Only what is there is read; asking after an absent block leaves it present and empty.
    method Read(i: nat, offset: nat, count: nat) returns (read: bool, data: seq<byte>)
      requires Valid() && NamesApart(pathPrefix)
      modifies this`handleBlockIndex, this`handleIsOpen, file
      ensures Valid() && LeftOrEmptied(old(Blocks()), i)
      ensures i <= MAX_BLOCK_INDEX && i !in old(Blocks()) && Obliged(old(file.refusals)) ==>
                Blocks() == old(Blocks())[i := []]
      ensures read ==>
                && i in Blocks() && offset + count <= |Blocks()[i]| && data == Blocks()[i][offset..offset + count]
      ensures i in old(Blocks()) ==> Blocks() == old(Blocks())
      ensures read <==>
                && i <= MAX_BLOCK_INDEX && offset + count <= |ContentOf(old(Blocks()), i)|
                && Obliged(old(file.refusals))
    {
      hide Name;
      read, data := false, [];
      if i <= MAX_BLOCK_INDEX {
        var ready := EnsureHandleOpenOnBlock(i);
        EmptyOnly(old(file.files), i);
        if ready {
          file.SeekTo(offset);
          read, data := file.Read(count);
        }
      }
    }

    // The blocks as they were, but that an absent one may have been made, empty.
    ghost predicate LeftOrEmptied(before: map<nat, seq<byte>>, i: nat)
      reads file
    {
      Blocks() == before || (i !in before && i <= MAX_BLOCK_INDEX && Blocks() == before[i := []])
    }

    lemma EmptyOnly(before: map<Path, seq<byte>>, i: nat)
      requires i <= MAX_BLOCK_INDEX && NamesApart(pathPrefix)
      requires file.files == before ||
               (Name(pathPrefix, i) !in before && file.files == before[Name(pathPrefix, i) := []])
      ensures LeftOrEmptied(BlocksIn(pathPrefix, before), i)
      ensures file.files != before ==> Blocks() == BlocksIn(pathPrefix, before)[i := []]
    {
      hide Name;
      if file.files != before {
        BlocksAfter(before, i, []);
      }
    }

    method Size(i: nat) returns (known: bool, size: nat)
      requires Valid() && NamesApart(pathPrefix)
      modifies this`handleBlockIndex, this`handleIsOpen, file
      ensures Valid() && LeftOrEmptied(old(Blocks()), i)
      ensures i <= MAX_BLOCK_INDEX && i !in old(Blocks()) && Obliged(old(file.refusals)) ==>
                Blocks() == old(Blocks())[i := []]
      ensures known ==> i in Blocks() && size == |Blocks()[i]|
      ensures i in old(Blocks()) ==> Blocks() == old(Blocks())
      ensures known <==> i <= MAX_BLOCK_INDEX && Obliged(old(file.refusals))
    {
      hide Name;
      known, size := false, 0;
      if i <= MAX_BLOCK_INDEX {
        known := EnsureHandleOpenOnBlock(i);
        EmptyOnly(old(file.files), i);
        if known {
          known, size := file.Size();
        }
      }
    }

    ghost function ContentOf(blocks: map<nat, seq<byte>>, i: nat): seq<byte> {
      if i in blocks then blocks[i] else []
    }

    // At the current end; one that fails says nothing of the block it was for, and touches no other.
    method Append(i: nat, data: seq<byte>) returns (written: bool)
      requires Valid() && NamesApart(pathPrefix)
      modifies this`handleBlockIndex, this`handleIsOpen, file
      ensures Valid() && Blocks() - {i} == old(Blocks()) - {i}
      ensures written ==> i <= MAX_BLOCK_INDEX && Blocks() == old(Blocks())[i := ContentOf(old(Blocks()), i) + data]
      ensures written <==> i <= MAX_BLOCK_INDEX && Obliged(old(file.refusals))
    {
      hide Overwrite, NamesApart, Name;
      written := false;
      if i <= MAX_BLOCK_INDEX {
        var ready := EnsureHandleOpenOnBlock(i);
        EmptyOnly(old(file.files), i);
        if ready {
          written := WriteAtEnd(i, data);
        }
      }
    }

    method WriteAtEnd(i: nat, data: seq<byte>) returns (written: bool)
      requires Valid() && NamesApart(pathPrefix) && i <= MAX_BLOCK_INDEX
      requires file.isOpen && handleBlockIndex == i && i in Blocks()
      modifies file
      ensures Valid() && Blocks() - {i} == old(Blocks()) - {i}
      ensures written ==> Blocks() == old(Blocks())[i := old(Blocks())[i] + data]
      ensures written <==> Obliged(old(file.refusals))
    {
      hide Overwrite, NamesApart, Name;
      written := false;
      var known, end := file.Size();
      if known {
        file.SeekTo(end);
        OverwriteAtEnd(Blocks()[i], data);
        written := WriteThere(i, data);
      }
    }

    // In place; past the end the gap is zeros.
    method WriteAt(i: nat, offset: nat, data: seq<byte>) returns (written: bool)
      requires Valid() && NamesApart(pathPrefix)
      modifies this`handleBlockIndex, this`handleIsOpen, file
      ensures Valid() && Blocks() - {i} == old(Blocks()) - {i}
      ensures written ==>
                && i <= MAX_BLOCK_INDEX
                && Blocks() == old(Blocks())[i := Overwrite(ContentOf(old(Blocks()), i), offset, data)]
      ensures written <==> i <= MAX_BLOCK_INDEX && Obliged(old(file.refusals))
    {
      hide Overwrite, NamesApart, Name;
      written := false;
      if i <= MAX_BLOCK_INDEX {
        var ready := EnsureHandleOpenOnBlock(i);
        EmptyOnly(old(file.files), i);
        if ready {
          file.SeekTo(offset);
          written := WriteThere(i, data);
        }
      }
    }

    // Through the handle as it stands.
    method WriteThere(i: nat, data: seq<byte>) returns (written: bool)
      requires Valid() && NamesApart(pathPrefix) && i <= MAX_BLOCK_INDEX
      requires file.isOpen && handleBlockIndex == i && i in Blocks()
      modifies file
      ensures Valid() && Blocks() - {i} == old(Blocks()) - {i}
      ensures written ==> Blocks() == old(Blocks())[i := Overwrite(old(Blocks())[i], old(file.position), data)]
      ensures written <==> Obliged(old(file.refusals))
    {
      hide Name;
      ghost var before, at := file.files, file.position;
      written := file.Write(data);
      if written {
        BlocksAfter(before, i, Overwrite(before[Name(pathPrefix, i)], at, data));
      }
      BlocksElsewhere(before, i);
    }
  }

  lemma OthersNamedOtherwise(prefix: CString, i: nat)
    requires NamesApart(prefix) && i <= MAX_BLOCK_INDEX
    ensures forall j: nat :: j <= MAX_BLOCK_INDEX && j != i ==> Name(prefix, j) != Name(prefix, i)
  {
    hide Name;
    forall j: nat | j <= MAX_BLOCK_INDEX && j != i
      ensures Name(prefix, j) != Name(prefix, i)
    {
      NamesDiffer(prefix, if i < j then i else j, if i < j then j else i);
    }
  }

  ghost function BlocksIn(prefix: CString, files: map<Path, seq<byte>>): map<nat, seq<byte>> {
    map i | 0 <= i <= MAX_BLOCK_INDEX && Name(prefix, i) in files :: files[Name(prefix, i)]
  }

  lemma ExtensionAsItIs()
    ensures Sanitised(UpTo(FILE_EXTENSION, |FILE_EXTENSION|)) == FILE_EXTENSION
  {
    AsciiWellFormed(FILE_EXTENSION);
    SanitisedWellFormed(FILE_EXTENSION);
  }

  lemma LongestOnce(s: seq<byte>, p: nat, t: nat, u: nat)
    requires p <= |s| && LongestWellFormed(s[..p], p, t) && LongestWellFormed(s, p, u)
    ensures t == u
  {
    assert s[..p][..t] == s[..t] && s[..p][..u] == s[..u];
  }

  // The bytes before the terminator.
  method BytesOfCString(buffer: array<byte>, ghost length: nat) returns (s: seq<byte>)
    requires length < buffer.Length && buffer[length] == 0
    requires forall i :: 0 <= i < length ==> buffer[i] != 0
    ensures s == buffer[..length]
  {
    var i := 0;
    while buffer[i] != 0
      invariant 0 <= i <= length
      decreases length - i
    {
      i := i + 1;
    }
    s := buffer[..i];
  }

  lemma NameHasNoNul(prefix: CString, i: nat)
    ensures forall k :: 0 <= k < |FullName(prefix, i)| ==> FullName(prefix, i)[k] != 0
  {
    hide FixedDigits, Sanitised;
    SanitisedHasNoNul(UpTo(prefix, MAX_PREFIX_LENGTH));
    FixedParses(i, 2);
    forall k | 0 <= k < |FixedDigits(i, 2)|
      ensures FixedDigits(i, 2)[k] != 0
    {
      assert IsDigit(FixedDigits(i, 2)[k]);
    }
  }

  lemma {:induction false} SanitisedHasNoNul(s: seq<byte>)
    requires forall i :: 0 <= i < |s| ==> s[i] != 0
    ensures forall i :: 0 <= i < |Sanitised(s)| ==> Sanitised(s)[i] != 0
    decreases |s|
  {
    hide CharLength;
    if s != [] {
      var n := if CharLength(s) > 0 then CharLength(s) else 1;
      SanitisedHasNoNul(s[n..]);
    }
  }
}
