/** The block device contract: numbered blocks of bytes, any call but Exists free to fail.

    The ghost fields record what the store's promises are about: the first call that failed, how many
    calls came after it, and what a power cut at any point so far could have left on the media. */
module BlockDevice {
  import opened Bytes

  type Media = map<nat, seq<byte>>

  datatype Call = AcquireCall | DisposeCall | ReadCall | AppendCall | WriteAtCall | SizeCall

  datatype Failure = NoFailure | FirstFailure(call: Call)

  function Torn(m: Media, i: nat, data: seq<byte>, k: nat): Media
    requires i in m && k <= |data|
  {
    m[i := m[i] + data[..k]]
  }

  function Overwritten(m: Media, i: nat, offset: nat, value: byte): Media
    requires i in m && offset < |m[i]|
  {
    m[i := m[i][offset := value]]
  }

  // A cut during an append leaves any prefix of what was being appended.
  ghost function AppendCuts(m: Media, i: nat, data: seq<byte>): iset<Media>
    requires i in m
  {
    iset k: nat | k <= |data| :: Torn(m, i, data, k)
  }

  // A cut during a one-byte overwrite leaves that byte at any value.
  ghost function OverwriteCuts(m: Media, i: nat, offset: nat): iset<Media>
    requires i in m && offset < |m[i]|
  {
    iset value: byte :: Overwritten(m, i, offset, value)
  }

  // As it was, but for one block.
  ghost predicate Disturbed(before: Media, after: Media, i: nat) {
    after - {i} == before - {i}
  }

  class BlockDevice {
    var blocks: Media
    ghost var failure: Failure
    ghost var callsAfterFailure: nat
    ghost var cuts: iset<Media>

    constructor (blocks: Media)
      ensures this.blocks == blocks && failure == NoFailure && callsAfterFailure == 0 && cuts == iset{blocks}
    {
      this.blocks := blocks;
      failure, callsAfterFailure, cuts := NoFailure, 0, iset{blocks};
    }

    ghost predicate Healthy()
      reads this`failure, this`callsAfterFailure
    {
      failure == NoFailure && callsAfterFailure == 0
    }

    // The device failed, and was left alone from then on.
    ghost predicate LeftAlone()
      reads this`failure, this`callsAfterFailure
    {
      failure != NoFailure && callsAfterFailure == 0
    }

    ghost method NoteCall(ok: bool, call: Call)
      modifies this`failure, this`callsAfterFailure
      ensures failure == if old(failure) == NoFailure && !ok then FirstFailure(call) else old(failure)
      ensures callsAfterFailure == old(callsAfterFailure) + if old(failure) == NoFailure then 0 else 1
    {
      if failure != NoFailure {
        callsAfterFailure := callsAfterFailure + 1;
      } else if !ok {
        failure := FirstFailure(call);
      }
    }

    // A call that fails says nothing of the block it was for.
    method Disturb(i: nat)
      modifies this`blocks
      ensures Disturbed(old(blocks), blocks, i)
    {
      var left: seq<byte> := *;
      var gone: bool := *;
      blocks := if gone then blocks - {i} else blocks[i := left];
    }

    method Acquire(i: nat) returns (ok: bool)
      modifies this
      ensures ok ==> blocks == old(blocks)[i := []] && cuts == old(cuts) + iset{blocks}
      ensures ok || Disturbed(old(blocks), blocks, i)
      ensures ok || old(failure) != NoFailure || failure == FirstFailure(AcquireCall)
      ensures ok ==> failure == old(failure)
      ensures callsAfterFailure == old(callsAfterFailure) + if old(failure) == NoFailure then 0 else 1
    {
      ok := *;
      NoteCall(ok, AcquireCall);
      if ok {
        blocks := blocks[i := []];
        cuts := cuts + iset{blocks};
      } else {
        Disturb(i);
      }
    }

    method Dispose(i: nat) returns (ok: bool)
      modifies this
      ensures ok ==> blocks == old(blocks) - {i} && cuts == old(cuts) + iset{blocks}
      ensures ok || Disturbed(old(blocks), blocks, i)
      ensures ok || old(failure) != NoFailure || failure == FirstFailure(DisposeCall)
      ensures ok ==> failure == old(failure)
      ensures callsAfterFailure == old(callsAfterFailure) + if old(failure) == NoFailure then 0 else 1
    {
      ok := *;
      NoteCall(ok, DisposeCall);
      if ok {
        blocks := blocks - {i};
        cuts := cuts + iset{blocks};
      } else {
        Disturb(i);
      }
    }

    method Exists(i: nat) returns (r: bool)
      modifies this`callsAfterFailure
      ensures r == (i in blocks)
      ensures callsAfterFailure == old(callsAfterFailure) + if failure == NoFailure then 0 else 1
    {
      if failure != NoFailure {
        callsAfterFailure := callsAfterFailure + 1;
      }
      r := i in blocks;
    }

    method Read(i: nat, offset: nat, count: nat) returns (ok: bool, data: seq<byte>)
      modifies this`failure, this`callsAfterFailure
      ensures ok ==> i in blocks && offset + count <= |blocks[i]| && data == blocks[i][offset..offset + count]
      ensures ok || old(failure) != NoFailure || failure == FirstFailure(ReadCall)
      ensures ok ==> failure == old(failure)
      ensures callsAfterFailure == old(callsAfterFailure) + if old(failure) == NoFailure then 0 else 1
    {
      ok := *;
      ok := ok && i in blocks && offset + count <= |blocks[i]|;
      NoteCall(ok, ReadCall);
      data := if ok then blocks[i][offset..offset + count] else [];
    }

    method Append(i: nat, data: seq<byte>) returns (ok: bool)
      modifies this
      ensures ok ==> i in old(blocks) && blocks == old(blocks)[i := old(blocks)[i] + data]
                     && cuts == old(cuts) + AppendCuts(old(blocks), i, data)
      ensures ok || Disturbed(old(blocks), blocks, i)
      ensures ok || old(failure) != NoFailure || failure == FirstFailure(AppendCall)
      ensures ok ==> failure == old(failure)
      ensures callsAfterFailure == old(callsAfterFailure) + if old(failure) == NoFailure then 0 else 1
    {
      ok := *;
      ok := ok && i in blocks;
      NoteCall(ok, AppendCall);
      if ok {
        cuts := cuts + AppendCuts(blocks, i, data);
        blocks := blocks[i := blocks[i] + data];
      } else {
        Disturb(i);
      }
    }

    // The one byte a sent flag takes.
    method WriteAt(i: nat, offset: nat, value: byte) returns (ok: bool)
      modifies this
      ensures ok ==> i in old(blocks) && offset < |old(blocks)[i]|
                     && blocks == Overwritten(old(blocks), i, offset, value)
                     && cuts == old(cuts) + OverwriteCuts(old(blocks), i, offset)
      ensures ok || Disturbed(old(blocks), blocks, i)
      ensures ok || old(failure) != NoFailure || failure == FirstFailure(WriteAtCall)
      ensures ok ==> failure == old(failure)
      ensures callsAfterFailure == old(callsAfterFailure) + if old(failure) == NoFailure then 0 else 1
    {
      ok := *;
      ok := ok && i in blocks && offset < |blocks[i]|;
      NoteCall(ok, WriteAtCall);
      if ok {
        cuts := cuts + OverwriteCuts(blocks, i, offset);
        blocks := Overwritten(blocks, i, offset, value);
      } else {
        Disturb(i);
      }
    }

    method Size(i: nat) returns (ok: bool, size: nat)
      modifies this`failure, this`callsAfterFailure
      ensures ok ==> i in blocks && size == |blocks[i]|
      ensures ok || old(failure) != NoFailure || failure == FirstFailure(SizeCall)
      ensures ok ==> failure == old(failure)
      ensures callsAfterFailure == old(callsAfterFailure) + if old(failure) == NoFailure then 0 else 1
    {
      ok := *;
      ok := ok && i in blocks;
      NoteCall(ok, SizeCall);
      size := if ok then |blocks[i]| else 0;
    }
  }
}
