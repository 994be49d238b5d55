/**
 The data of a file entry in an archive, written sparsely to a new file while a digest is computed over the same
 data with its gaps filled by zeros, or read piece by piece.
 */
module ArchiveEntries {
  import opened Bytes
  import opened Wrappers

  const MAX_ENTRY_SIZE: nat := 128 * 1024 * 1024

  /** A block of data as the archive library delivers it; the offset is a signed 64-bit number. */
  datatype Block = Block(offset: int, data: Bytes)

  function BlockEnd(b: Block): int {
    b.offset + |b.data|
  }

  /** Where the data ends after these blocks. */
  function End(blocks: seq<Block>): int {
    if blocks == [] then 0 else BlockEnd(blocks[|blocks| - 1])
  }

  function DropLast(blocks: seq<Block>): seq<Block>
    requires blocks != []
  {
    blocks[..|blocks| - 1]
  }

  function Last(blocks: seq<Block>): Block
    requires blocks != []
  {
    blocks[|blocks| - 1]
  }

  /** No block starts before the end of the one before it. */
  predicate Forward(blocks: seq<Block>) {
    blocks != [] ==> Forward(DropLast(blocks)) && Last(blocks).offset >= End(DropLast(blocks))
  }

  predicate Small(blocks: seq<Block>, limit: nat) {
    forall b <- blocks :: 0 <= b.offset && BlockEnd(b) <= limit
  }

  /** The data with zeros in the gaps: what the digest is fed. */
  function Stream(blocks: seq<Block>): (s: Bytes)
    requires Forward(blocks)
    ensures |s| == End(blocks)
  {
    if blocks == [] then []
    else Stream(DropLast(blocks)) + Zeros(Last(blocks).offset - End(DropLast(blocks))) + Last(blocks).data
  }

  lemma {:induction false} ForwardEnds(blocks: seq<Block>, i: nat)
    requires Forward(blocks) && i < |blocks|
    ensures 0 <= blocks[i].offset && BlockEnd(blocks[i]) <= End(blocks)
  {
    StreamLength(DropLast(blocks));
    if i < |blocks| - 1 {
      ForwardEnds(DropLast(blocks), i);
    }
  }

  lemma StreamLength(blocks: seq<Block>)
    requires Forward(blocks)
    ensures End(blocks) >= 0
  {
    assert |Stream(blocks)| >= 0;
  }

  lemma NoBlocksEnd(blocks: seq<Block>)
    ensures blocks == [] ==> End(blocks) == 0
  {
  }

  lemma StreamParts(blocks: seq<Block>)
    requires Forward(blocks) && blocks != []
    ensures Forward(DropLast(blocks)) && 0 <= End(DropLast(blocks)) <= Last(blocks).offset
    ensures End(blocks) == BlockEnd(Last(blocks))
    ensures Stream(blocks) == Stream(DropLast(blocks)) + Zeros(Last(blocks).offset - End(DropLast(blocks))) + Last(blocks).data
  {
    StreamLength(DropLast(blocks));
  }

  /** Each byte of the stream comes from the block that covers it, and is zero where none does. */
  lemma {:induction false} StreamByte(blocks: seq<Block>, p: nat)
    requires Forward(blocks) && blocks != [] && p < End(blocks)
    ensures forall i :: 0 <= i < |blocks| && blocks[i].offset <= p < BlockEnd(blocks[i]) ==>
              Stream(blocks)[p] == blocks[i].data[p - blocks[i].offset]
    ensures (forall i :: 0 <= i < |blocks| ==> !(blocks[i].offset <= p < BlockEnd(blocks[i]))) ==>
              Stream(blocks)[p] == 0
  {
    hide Stream, Forward, End;
    var before := DropLast(blocks);
    StreamParts(blocks);
    forall i | 0 <= i < |before|
      ensures before[i] == blocks[i] && BlockEnd(blocks[i]) <= End(before)
    {
      ForwardEnds(before, i);
    }
    if p < End(before) {
      NoBlocksEnd(before);
      StreamByte(before, p);
      assert Stream(blocks)[p] == Stream(before)[p];
    } else if p >= Last(blocks).offset {
      assert blocks[|blocks| - 1] == Last(blocks);
      assert Stream(blocks)[p] == Last(blocks).data[p - Last(blocks).offset];
    } else {
      assert Stream(blocks)[p] == 0;
    }
  }

  // ----- the output file --------------------------------------------------

  /** Positioned writing: a gap reads as zeros, and writing nothing changes nothing. */
  function Written(contents: Bytes, offset: nat, data: Bytes): Bytes {
    if data == [] then contents
    else if offset > |contents| then contents + Zeros(offset - |contents|) + data
    else contents[..offset] + data + (if offset + |data| <= |contents| then contents[offset + |data|..] else [])
  }

  /** Byte by byte: the data where it was written, what was there before elsewhere, and zeros in between. */
  lemma WrittenBytes(contents: Bytes, offset: nat, data: Bytes, p: nat)
    ensures |Written(contents, offset, data)|
            == if data == [] || offset + |data| <= |contents| then |contents| else offset + |data|
    ensures p < |Written(contents, offset, data)| ==>
              Written(contents, offset, data)[p] ==
              if offset <= p < offset + |data| then data[p - offset]
              else if p < |contents| then contents[p] else 0
  {
  }

  function WriteAll(contents: Bytes, blocks: seq<Block>): Bytes
    requires Small(blocks, MAX_ENTRY_SIZE)
  {
    if blocks == [] then contents
    else Written(WriteAll(contents, DropLast(blocks)), Last(blocks).offset, Last(blocks).data)
  }

  /** Where the last block that has any data ends. */
  function DataEnd(blocks: seq<Block>): int {
    if blocks == [] then 0
    else if Last(blocks).data == [] then DataEnd(DropLast(blocks))
    else End(blocks)
  }

  lemma {:induction false} DataEndBounds(blocks: seq<Block>)
    requires Forward(blocks)
    ensures 0 <= DataEnd(blocks) <= End(blocks)
  {
    if blocks != [] {
      StreamLength(blocks);
      DataEndBounds(DropLast(blocks));
    }
  }

  /** Zeros that were never written and the zeros of a gap are the same to whoever writes after them. */
  lemma WriteAfterZeros(s: Bytes, d: nat, offset: nat, data: Bytes)
    requires d <= |s| <= offset && s[d..] == Zeros(|s| - d) && data != []
    ensures Written(s[..d], offset, data) == s + Zeros(offset - |s|) + data
  {
    assert Zeros(offset - d) == Zeros(|s| - d) + Zeros(offset - |s|);
    assert s == s[..d] + Zeros(|s| - d);
  }

  /** A new file holds the stream, up to the end of the last block with data. */
  lemma {:induction false} FileHoldsStream(blocks: seq<Block>)
    requires Forward(blocks) && Small(blocks, MAX_ENTRY_SIZE)
    ensures 0 <= DataEnd(blocks) <= End(blocks)
    ensures WriteAll([], blocks) == Stream(blocks)[..DataEnd(blocks)]
  {
    DataEndBounds(blocks);
    if blocks != [] {
      var before := DropLast(blocks);
      DataEndBounds(before);
      FileHoldsStream(before);
      if Last(blocks).data == [] {
        assert Stream(blocks) == Stream(before) + Zeros(Last(blocks).offset - End(before));
      } else {
        LaterBytesAreZero(before);
        WriteAfterZeros(Stream(before), DataEnd(before), Last(blocks).offset, Last(blocks).data);
      }
    }
  }

  lemma {:induction false} LaterBytesAreZero(blocks: seq<Block>)
    requires Forward(blocks)
    ensures 0 <= DataEnd(blocks) <= End(blocks)
    ensures Stream(blocks)[DataEnd(blocks)..] == Zeros(End(blocks) - DataEnd(blocks))
  {
    DataEndBounds(blocks);
    if blocks != [] && Last(blocks).data == [] {
      var before := DropLast(blocks);
      DataEndBounds(before);
      LaterBytesAreZero(before);
      assert Stream(blocks) == Stream(before) + Zeros(Last(blocks).offset - End(before));
    }
  }

  /** The file is what the digest was computed over, unless empty blocks after the data leave a gap at the end. */
  lemma FileIsStream(blocks: seq<Block>)
    requires Forward(blocks) && Small(blocks, MAX_ENTRY_SIZE)
    ensures WriteAll([], blocks) == Stream(blocks) <==> DataEnd(blocks) == End(blocks)
    ensures blocks != [] && Last(blocks).data != [] ==> WriteAll([], blocks) == Stream(blocks)
  {
    FileHoldsStream(blocks);
  }

  /** Such a gap is possible: an empty block at offset 1 alone. */
  lemma TrailingGap()
    ensures exists blocks: seq<Block> :: Forward(blocks) && Small(blocks, MAX_ENTRY_SIZE) && WriteAll([], blocks) != Stream(blocks)
  {
    var blocks := [Block(1, [])];
    assert DropLast(blocks) == [];
    assert Forward(blocks);
    assert |WriteAll([], blocks)| == 0;
    assert |Stream(blocks)| == 1;
  }

  // ----- writing an entry to a file ---------------------------------------

  class OutputFile {
    var contents: Bytes

    /** The device's answers: how many bytes each write takes, or a negative number for an error. */
    const answer: nat -> int

    var calls: nat

    constructor (answer: nat -> int)
      ensures contents == [] && this.answer == answer
    {
      contents, calls, this.answer := [], 0, answer;
    }

    /** Writes at an offset; the number of bytes written can be short, and is negative on failure. */
    method PWrite(data: Bytes, offset: nat) returns (n: int)
      modifies this
      ensures n <= |data|
      ensures contents == Written(old(contents), offset, data[..if n < 0 then 0 else n])
      ensures calls == old(calls) + 1 && (n == |data| <==> answer(old(calls)) >= |data|)
    {
      n := answer(calls);
      calls := calls + 1;
      if n > |data| {
        n := |data|;
      }
      contents := Written(contents, offset, data[..if n < 0 then 0 else n]);
    }
  }

  datatype WriteError = TooLarge | OffsetWentBack | ExceedsMaximum | WriteFailed | ArchiveFailed | DigestMismatch
    | ModeNotSet

  /** What the archive library delivers for one entry: blocks, and then the end or a failure. */
  datatype EntryData = EntryData(blocks: seq<Block>, complete: bool)

  ghost predicate Delivered(entry: EntryData) {
    forall b <- entry.blocks :: Representable(b)
  }

  /** A block that is refused after those before it were taken. */
  predicate Refused(before: seq<Block>, b: Block, maxSize: nat) {
    b.offset < End(before) || BlockEnd(b) > MAX_ENTRY_SIZE || BlockEnd(b) > maxSize
  }

  /** The blocks can all be taken. */
  predicate Fits(blocks: seq<Block>, maxSize: nat) {
    Forward(blocks) && Small(blocks, MAX_ENTRY_SIZE) && Small(blocks, maxSize)
  }

  lemma NothingFits(maxSize: nat, contents: Bytes)
    ensures Fits([], maxSize) && End([]) == 0
    ensures Stream([]) == [] && WriteAll(contents, []) == contents
  {
  }

  lemma FitsEnd(blocks: seq<Block>, maxSize: nat)
    requires Fits(blocks, maxSize)
    ensures Forward(blocks) && Small(blocks, MAX_ENTRY_SIZE) && 0 <= End(blocks) <= maxSize
  {
    StreamLength(blocks);
    if blocks != [] {
      assert Last(blocks) in blocks;
    }
  }

  lemma FitsMore(before: seq<Block>, b: Block, maxSize: nat, contents: Bytes)
    requires Fits(before, maxSize) && !Refused(before, b, maxSize)
    ensures b.offset >= End(before) >= 0 && |b.data| <= MAX_ENTRY_SIZE
    ensures Fits(before + [b], maxSize) && End(before + [b]) == BlockEnd(b)
    ensures Stream(before + [b]) == Stream(before) + Zeros(b.offset - End(before)) + b.data
    ensures b.offset == End(before) ==> Stream(before + [b]) == Stream(before) + b.data
    ensures WriteAll(contents, before + [b]) == Written(WriteAll(contents, before), b.offset, b.data)
  {
    assert DropLast(before + [b]) == before && Last(before + [b]) == b;
    StreamLength(before);
  }

  lemma {:induction false} FitsPrefix(blocks: seq<Block>, n: nat, maxSize: nat)
    requires n < |blocks| && Fits(blocks, maxSize)
    ensures Fits(blocks[..n], maxSize) && !Refused(blocks[..n], blocks[n], maxSize)
    decreases |blocks|
  {
    var before := DropLast(blocks);
    assert Last(blocks) in blocks;
    assert forall b <- before :: b in blocks;
    if n < |before| {
      FitsPrefix(before, n, maxSize);
      assert before[..n] == blocks[..n];
    } else {
      assert before == blocks[..n];
    }
  }

  /** The checks of one block; sizes are added in 64 bits without sign. */
  function Check(b: Block, currentOffset: int, maxSize: nat): (e: Option<WriteError>)
    ensures e.Some? ==> e.value in {TooLarge, OffsetWentBack, ExceedsMaximum}
  {
    var end := (b.offset + |b.data|) % TWO64;
    if |b.data| > MAX_ENTRY_SIZE || end > MAX_ENTRY_SIZE then Some(TooLarge)
    else if b.offset < currentOffset then Some(OffsetWentBack)
    else if end > maxSize then Some(ExceedsMaximum)
    else None
  }

  ghost predicate Representable(b: Block) {
    -0x8000_0000_0000_0000 <= b.offset < 0x8000_0000_0000_0000 && |b.data| < TWO64
  }

  /** The wrapping of the sum lets nothing through that should be refused, even for a negative offset. */
  lemma CheckRefuses(b: Block, before: seq<Block>, maxSize: nat)
    requires Representable(b) && End(before) >= 0
    ensures Check(b, End(before), maxSize).Some? <==> Refused(before, b, maxSize)
  {
    var sum := b.offset + |b.data|;
    if 0 <= sum < TWO64 {
      assert sum % TWO64 == sum;
    } else if sum < 0 {
      assert (sum + TWO64) % TWO64 == sum % TWO64 == sum + TWO64;
    }
  }

  /** Each refusal of a block by its cause, in plain numbers: 128 MB are the most, and a negative end counts as too large. */
  lemma CheckCauses(b: Block, currentOffset: nat, maxSize: nat)
    requires Representable(b)
    ensures var end, r := b.offset + |b.data|, Check(b, currentOffset, maxSize);
            var tooLarge := |b.data| > 0x800_0000 || end > 0x800_0000 || end < 0;
            && (r == Some(TooLarge) <==> tooLarge)
            && (r == Some(OffsetWentBack) <==> !tooLarge && b.offset < currentOffset)
            && (r == Some(ExceedsMaximum) <==> !tooLarge && b.offset >= currentOffset && end > maxSize)
            && (r == None <==> !tooLarge && currentOffset <= b.offset && end <= maxSize)
  {
    var sum := b.offset + |b.data|;
    if 0 <= sum < TWO64 {
      assert sum % TWO64 == sum;
    } else if sum < 0 {
      assert (sum + TWO64) % TWO64 == sum % TWO64 == sum + TWO64;
    }
  }

  /** The first n blocks have passed the checks, and the device takes each of them whole. */
  ghost predicate Taken(answer: nat -> int, from: nat, blocks: seq<Block>, maxSize: nat, n: nat) {
    && n <= |blocks| && Fits(blocks[..n], maxSize)
    && forall j :: 0 <= j < n ==> answer(from + j) >= |blocks[j].data|
  }

  /** Block i is the one that fails, and why. */
  ghost predicate FailsAt(answer: nat -> int, from: nat, blocks: seq<Block>, maxSize: nat, i: nat, e: WriteError) {
    && i < |blocks| && Taken(answer, from, blocks, maxSize, i)
    && match Check(blocks[i], End(blocks[..i]), maxSize)
       case Some(error) => e == error
       case None => e == WriteFailed && answer(from + i) < |blocks[i].data|
  }

  lemma TakenDoesNotFail(answer: nat -> int, from: nat, blocks: seq<Block>, maxSize: nat, n: nat, i: nat, e: WriteError)
    requires Taken(answer, from, blocks, maxSize, n) && i < n && Representable(blocks[i])
    ensures !FailsAt(answer, from, blocks, maxSize, i, e)
  {
    hide Forward, Small, Check, Refused;
    FitsPrefix(blocks[..n], i, maxSize);
    assert blocks[..n][..i] == blocks[..i];
    FitsEnd(blocks[..i], maxSize);
    CheckRefuses(blocks[i], blocks[..i], maxSize);
  }

  /** At most one block fails, and for one reason. */
  lemma FailureIs(answer: nat -> int, from: nat, entry: EntryData, maxSize: nat, i: nat, e: WriteError)
    requires Delivered(entry) && FailsAt(answer, from, entry.blocks, maxSize, i, e)
    ensures !Taken(answer, from, entry.blocks, maxSize, |entry.blocks|)
    ensures forall j: nat, e' :: FailsAt(answer, from, entry.blocks, maxSize, j, e') ==> e' == e
  {
    hide Fits, Check, End;
    var blocks := entry.blocks;
    if Taken(answer, from, blocks, maxSize, |blocks|) {
      TakenDoesNotFail(answer, from, blocks, maxSize, |blocks|, i, e);
    }
    forall j: nat, e' | FailsAt(answer, from, blocks, maxSize, j, e')
      ensures e' == e
    {
      if i < j {
        TakenDoesNotFail(answer, from, blocks, maxSize, j, i, e);
      } else if j < i {
        TakenDoesNotFail(answer, from, blocks, maxSize, i, j, e');
      }
    }
  }

  lemma NothingFails(answer: nat -> int, from: nat, entry: EntryData, maxSize: nat)
    requires Delivered(entry) && Taken(answer, from, entry.blocks, maxSize, |entry.blocks|)
    ensures forall j: nat, e :: !FailsAt(answer, from, entry.blocks, maxSize, j, e)
  {
    hide Fits, Check, End;
    forall j: nat, e | j < |entry.blocks|
      ensures !FailsAt(answer, from, entry.blocks, maxSize, j, e)
    {
      TakenDoesNotFail(answer, from, entry.blocks, maxSize, |entry.blocks|, j, e);
    }
  }

  /**
   Writes the entry's data, checks its digest and sets the file's mode. Success means that every block was taken and
   written, that the archive came to the end of the entry, that the digest of the stream is the expected one, and that
   the device let the mode be set; every error has its one cause.
   */
  method DoFileWrite(file: OutputFile, maxSize: nat, entry: EntryData, digest: Option<Bytes>, hash: Bytes -> Bytes,
                     modeCanBeSet: bool)
    returns (r: Result<nat, WriteError>)
    requires Delivered(entry) && maxSize < TWO64
    modifies file
    ensures var all := Taken(file.answer, old(file.calls), entry.blocks, maxSize, |entry.blocks|);
            var digestFits := digest.Some? ==> all ==> hash(StreamOf(entry.blocks, maxSize)) == digest.value;
            && (r.Ok? <==> all && entry.complete && digestFits && modeCanBeSet)
            && (r == Err(ModeNotSet) <==> all && entry.complete && digestFits && !modeCanBeSet)
            && (r == Err(ArchiveFailed) <==> all && !entry.complete)
            && (r == Err(DigestMismatch) <==> all && entry.complete && !digestFits)
            && (forall e :: e in {TooLarge, OffsetWentBack, ExceedsMaximum, WriteFailed} ==>
                  (r == Err(e) <==> exists i: nat :: FailsAt(file.answer, old(file.calls), entry.blocks, maxSize, i, e)))
    ensures r.Ok? ==>
              && Fits(entry.blocks, maxSize) && r.value == End(entry.blocks) <= maxSize
              && file.contents == WriteAll(old(file.contents), entry.blocks)
    ensures r.Ok? && old(file.contents) == [] && DataEnd(entry.blocks) == End(entry.blocks) ==>
              && file.contents == Stream(entry.blocks) && |file.contents| <= maxSize
              && (digest.Some? ==> hash(file.contents) == digest.value)
  {
    hide Forward, Stream, WriteAll, Written, Zeros, End, DataEnd, Check, Refused, Small;
    var fed := [];
    var currentOffset := 0;
    var blocks := entry.blocks;
    ghost var from := file.calls;
    NothingFits(maxSize, file.contents);
    for i := 0 to |blocks|
      invariant Taken(file.answer, from, blocks, maxSize, i) && file.calls == from + i
      invariant currentOffset == End(blocks[..i]) >= 0
      invariant fed == Stream(blocks[..i])
      invariant file.contents == WriteAll(old(file.contents), blocks[..i])
    {
      var b := blocks[i];
      assert b in blocks && blocks[..i + 1] == blocks[..i] + [b];
      CheckRefuses(b, blocks[..i], maxSize);
      var refused := Check(b, currentOffset, maxSize);
      if refused.Some? {
        FailureIs(file.answer, from, entry, maxSize, i, refused.value);
        return Err(refused.value);
      }
      FitsMore(blocks[..i], b, maxSize, old(file.contents));
      if b.offset > currentOffset {
        fed := fed + Zeros(b.offset - currentOffset);
      }
      fed := fed + b.data;
      var n := file.PWrite(b.data, b.offset);
      if n != |b.data| {
        FailureIs(file.answer, from, entry, maxSize, i, WriteFailed);
        return Err(WriteFailed);
      }
      assert b.data[..n] == b.data;
      currentOffset := b.offset + |b.data|;
    }
    assert blocks[..|blocks|] == blocks;
    NothingFails(file.answer, from, entry, maxSize);
    if !entry.complete {
      return Err(ArchiveFailed);
    }
    if digest.Some? && digest.value != hash(fed) {
      return Err(DigestMismatch);
    }
    if !modeCanBeSet {
      return Err(ModeNotSet);
    }
    FitsEnd(blocks, maxSize);
    if old(file.contents) == [] {
      FileIsStream(blocks);
    }
    r := Ok(currentOffset);
  }

  /** The stream of blocks that fit. */
  function StreamOf(blocks: seq<Block>, maxSize: nat): Bytes {
    if Fits(blocks, maxSize) then Stream(blocks) else []
  }

  // ----- reading an entry -------------------------------------------------

  datatype ReadError = ReaderGone | ArchiveError | MovedOn | ReadFailed | VerifyFailed

  /** What the archive reader shares with its entries. */
  class SharedReadState {
    /** The reader still exists; entries do not keep it alive. */
    var alive: bool

    var error: bool

    var endOfArchive: bool

    /** The number of the current header, from one. */
    var entryIndex: nat

    constructor ()
      ensures alive && Going() && entryIndex == 0
    {
      alive := true;
      error, endOfArchive, entryIndex := false, false, 0;
    }

    predicate Going()
      reads this
    {
      !error && !endOfArchive
    }

    /** The archive is still at the entry that this header brought. */
    predicate IsAt(index: nat)
      reads this
    {
      alive && Going() && entryIndex == index
    }
  }

  class ArchiveFileEntry {
    const readState: SharedReadState

    const digest: Option<Bytes>

    const hash: Bytes -> Bytes

    const index: nat

    var eof: bool

    /** What the digest has been computed over. */
    var fed: Bytes

    /** What the calls so far have returned. */
    ghost var returned: Bytes

    constructor (readState: SharedReadState, digest: Option<Bytes>, hash: Bytes -> Bytes)
      ensures Valid() && !eof && returned == []
      ensures this.readState == readState && index == readState.entryIndex && this.digest == digest && this.hash == hash
    {
      this.readState, index := readState, readState.entryIndex;
      this.digest, this.hash := digest, hash;
      eof, fed, returned := false, [], [];
    }

    ghost predicate Valid()
      reads this
    {
      digest.Some? ==> fed == returned
    }

    /** Everything returned has the signed digest. */
    ghost predicate Verified()
      reads this
    {
      digest.Some? ==> hash(returned) == digest.value
    }

    /**
     Returns the bytes the archive delivers. The call that first reaches the end succeeds exactly when everything
     returned has the signed digest; the calls after it report the end again, whatever that call found. A failure of
     the archive is left in the state that all entries and the reader share; a wrong digest is not.
     */
    method Read(delivered: Option<Bytes>) returns (r: Result<Bytes, ReadError>)
      requires Valid()
      modifies this, readState`error
      ensures Valid()
      ensures r == Err(ReaderGone) <==> !old(readState.alive)
      ensures r == Err(ArchiveError) <==> old(readState.alive) && old(readState.error)
      ensures r == Err(MovedOn) <==>
                && old(readState.alive) && !old(readState.error)
                && (old(readState.endOfArchive) || old(readState.entryIndex) != index)
      ensures !old(readState.IsAt(index)) || old(eof) ==>
                eof == old(eof) && returned == old(returned) && readState.error == old(readState.error)
      ensures old(readState.IsAt(index)) && old(eof) ==> r == Ok([])
      ensures r.Ok? ==> returned == old(returned) + r.value
      ensures old(readState.IsAt(index)) && !old(eof) ==>
                && eof == (delivered == Some([]))
                && (r == Err(ReadFailed) <==> delivered.None?)
                && readState.error == delivered.None?
                && (eof ==> returned == old(returned) && r == if Verified() then Ok([]) else Err(VerifyFailed))
                && (delivered.Some? && delivered.value != [] ==> r == Ok(delivered.value))
    {
      if !readState.alive {
        return Err(ReaderGone);
      }
      if readState.error {
        return Err(ArchiveError);
      }
      if readState.endOfArchive || readState.entryIndex != index {
        return Err(MovedOn);
      }
      if eof {
        return Ok([]);
      }
      if delivered.None? {
        readState.error := true;
        return Err(ReadFailed);
      }
      var data := delivered.value;
      eof := data == [];
      returned := returned + data;
      if digest.Some? {
        fed := fed + data;
        if eof {
          assert fed + [] == fed;
          if hash(fed) != digest.value {
            return Err(VerifyFailed);
          }
        }
      }
      r := Ok(data);
    }
  }

  /** A client that reads to the end without error has exactly the delivered bytes, and they have the signed digest. */
  method ReadAll(entry: ArchiveFileEntry, chunks: seq<Bytes>) returns (r: Option<Bytes>)
    requires entry.Valid() && !entry.eof && entry.returned == [] && entry.readState.IsAt(entry.index)
    requires forall c <- chunks :: c != []
    modifies entry, entry.readState`error
    ensures r.Some? <==> (entry.digest.Some? ==> entry.hash(Concat(chunks)) == entry.digest.value)
    ensures r.Some? ==> r.value == Concat(chunks)
    ensures !entry.readState.error
  {
    var data := [];
    for i := 0 to |chunks|
      invariant entry.Valid() && !entry.eof && entry.returned == data && entry.readState.IsAt(entry.index)
      invariant data + Concat(chunks[i..]) == Concat(chunks)
    {
      assert chunks[i] in chunks;
      var next := entry.Read(Some(chunks[i]));
      assert chunks[i..][1..] == chunks[i + 1..];
      data := data + next.value;
    }
    assert chunks[|chunks|..] == [] && data + [] == data;
    var last := entry.Read(Some([]));
    r := if last.Ok? then Some(data) else None;
  }
}
