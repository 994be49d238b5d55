/**
 A file whose every block is checked against a dm-verity hash tree as it is read. Byte ranges are put together
 from whole blocks, with one block kept in a bounce buffer between calls, in two ways: one reads whole blocks
 straight into the caller's buffer, the other, for direct IO, goes through the bounce buffer every time.
 */
module ProtectedFile {
  import opened Bytes
  import opened Files
  import opened HashTree
  import opened MerkleEvidence
  import opened MerkleLayout
  import opened TreeBuilder
  import opened Verifier
  import opened Wrappers

  /** The fixed surroundings of a protected file. */
  datatype Env = Env(state: Opened, hashesFile: File, dataFile: File, fileOffset: nat) {

    function BlockOffset(n: nat): nat {
      fileOffset + n * BLOCK_SIZE
    }

    /** `block` may be handed out as block n: the hash tree vouches for it with hash blocks from `known`. */
    ghost predicate Good(known: set<Bytes>, n: nat, block: Bytes) {
      && |block| == BLOCK_SIZE
      && 1 <= state.dataBlockCount && n < state.dataBlockCount
      && Attested(state.hashing, Depth(state.dataBlockCount, HASHES_PER_BLOCK), known, n, state.hashing.Digest(block))
      && (dataFile.Steady() ==>
            InRange(dataFile.image, BlockOffset(n), BLOCK_SIZE) && block == Slice(dataFile.image, BlockOffset(n), BLOCK_SIZE))
      && (hashesFile.Steady() ==> VerifyResult(state, hashesFile.image, n, block))
    }

    ghost predicate AllGood(known: set<Bytes>, first: nat, blocks: seq<Bytes>) {
      forall j :: 0 <= j < |blocks| ==> Good(known, first + j, blocks[j])
    }

    ghost predicate Steady() {
      dataFile.Steady() && hashesFile.Steady()
    }

    /** Over two fixed files: block n is in the data file and the hash file accepts it. */
    predicate Readable(n: nat) {
      && InRange(dataFile.image, BlockOffset(n), BLOCK_SIZE)
      && VerifyResult(state, hashesFile.image, n, Slice(dataFile.image, BlockOffset(n), BLOCK_SIZE))
    }

    predicate AllReadable(first: nat, end: nat) {
      forall n :: first <= n < end ==> Readable(n)
    }

    lemma AllGoodGrows(known: set<Bytes>, more: set<Bytes>, first: nat, blocks: seq<Bytes>)
      requires AllGood(known, first, blocks) && known <= more
      ensures AllGood(more, first, blocks)
    {
      forall j | 0 <= j < |blocks|
        ensures Good(more, first + j, blocks[j])
      {
        var digest := state.hashing.Digest(blocks[j]);
        assert Good(known, first + j, blocks[j]);
        AttestedGrows(state.hashing, Depth(state.dataBlockCount, HASHES_PER_BLOCK), known, more, first + j, digest);
      }
    }

    lemma GoodGrows(known: set<Bytes>, more: set<Bytes>, n: nat, block: Bytes)
      requires Good(known, n, block) && known <= more
      ensures Good(more, n, block)
    {
      AttestedGrows(state.hashing, Depth(state.dataBlockCount, HASHES_PER_BLOCK), known, more, n, state.hashing.Digest(block));
    }
  }

  // ----- byte ranges of blocks --------------------------------------------

  /** `bytes` is the range of the blocks that starts `head` bytes into the first of them. */
  ghost predicate IsRangeOf(blocks: seq<Bytes>, head: nat, bytes: Bytes) {
    bytes != [] ==> InRange(Concat(blocks), head, |bytes|) && bytes == Slice(Concat(blocks), head, |bytes|)
  }

  lemma {:induction false} ConcatAppend(blocks: seq<Bytes>, block: Bytes)
    ensures Concat(blocks + [block]) == Concat(blocks) + block
  {
    if blocks == [] {
      assert blocks + [block] == [block];
      assert Concat([block]) == block + Concat([]);
    } else {
      ConcatAppend(blocks[1..], block);
      assert (blocks + [block])[1..] == blocks[1..] + [block];
    }
  }

  /** One more block, of which `amount` bytes from `o` on come next in the range. */
  lemma RangeExtends(blocks: seq<Bytes>, head: nat, bytes: Bytes, block: Bytes, o: nat, amount: nat)
    requires AllOfSize(blocks, BLOCK_SIZE) && |block| == BLOCK_SIZE
    requires IsRangeOf(blocks, head, bytes)
    requires head + |bytes| == BLOCK_SIZE * |blocks| + o && o + amount <= BLOCK_SIZE
    ensures AllOfSize(blocks + [block], BLOCK_SIZE)
    ensures IsRangeOf(blocks + [block], head, bytes + block[o..o + amount])
  {
    ConcatAppend(blocks, block);
    ConcatLength(blocks, BLOCK_SIZE);
    var all, longer := Concat(blocks), bytes + block[o..o + amount];
    forall i | 0 <= i < |longer|
      ensures longer[i] == Slice(all + block, head, |longer|)[i]
    {
      if i < |bytes| {
        assert bytes[i] == Slice(all, head, |bytes|)[i] == all[head + i];
      } else {
        assert longer[i] == block[o + (i - |bytes|)];
        assert (all + block)[head + i] == block[head + i - |all|];
      }
    }
  }

  /** `bytes` is the range that starts `head` bytes into block `first`, taken from blocks that may be handed out. */
  ghost predicate Serves(e: Env, known: set<Bytes>, first: nat, blocks: seq<Bytes>, head: nat, bytes: Bytes) {
    && e.AllGood(known, first, blocks)
    && AllOfSize(blocks, BLOCK_SIZE)
    && IsRangeOf(blocks, head, bytes)
  }

  lemma ServesMore(e: Env, known: set<Bytes>, more: set<Bytes>, first: nat, blocks: seq<Bytes>, head: nat, bytes: Bytes,
                   block: Bytes, o: nat, amount: nat)
    requires Serves(e, known, first, blocks, head, bytes) && known <= more
    requires e.Good(more, first + |blocks|, block)
    requires head + |bytes| == BLOCK_SIZE * |blocks| + o && o + amount <= BLOCK_SIZE
    ensures Serves(e, more, first, blocks + [block], head, bytes + block[o..o + amount])
  {
    GoodIsReadable(e, more, first + |blocks|, block);
    hide Env.Good;
    e.AllGoodGrows(known, more, first, blocks);
    RangeExtends(blocks, head, bytes, block, o, amount);
  }

  /** After n blocks, the first `out` bytes of the range have been found, and the last block was needed for them. */
  predicate Covers(offset: nat, n: nat, out: nat) {
    if n == 0 then out == 0 else BLOCK_SIZE * (n - 1) < offset % BLOCK_SIZE + out <= BLOCK_SIZE * n
  }

  // ----- which reads succeed ----------------------------------------------

  /** Over fixed files, whether the buffered path succeeds. */
  predicate BufferedResult(e: Env, offset: nat, size: nat) {
    if size == 0 then offset % BLOCK_SIZE != 0 ==> e.Readable(offset / BLOCK_SIZE)
    else e.AllReadable(offset / BLOCK_SIZE, (offset + size - 1) / BLOCK_SIZE + 1)
  }

  /** Over fixed files, whether the direct IO path succeeds. */
  predicate DirectResult(e: Env, offset: nat, size: nat) {
    size == 0 || e.AllReadable(offset / BLOCK_SIZE, (offset + size - 1) / BLOCK_SIZE + 1)
  }

  /** The two paths succeed together, except on an empty read inside a block that cannot be read. */
  lemma PathsAgree(e: Env, offset: nat, size: nat)
    ensures (BufferedResult(e, offset, size) <==> DirectResult(e, offset, size))
            <==> !(size == 0 && offset % BLOCK_SIZE != 0 && !e.Readable(offset / BLOCK_SIZE))
  {
  }

  class DmVerityProtectedFile {
    const verifier: DmVerityVerifier

    const dataFile: File

    const fileOffset: nat

    const fileSize: nat

    const directIo: bool

    const blockBuffer: array<Byte>

    /** The number of the block in the bounce buffer, or SIZE_MAX. */
    var blockBufferNumber: nat

    constructor (verifier: DmVerityVerifier, dataFile: File, fileOffset: nat, fileSize: nat, directIo: bool)
      requires verifier.IsOpen()
      requires fileSize <= verifier.dataBlockCount * BLOCK_SIZE && fileSize < TWO64
      ensures verifier.Valid() <==> Valid()
      ensures fresh(blockBuffer)
      ensures this.verifier == verifier && this.dataFile == dataFile && this.fileOffset == fileOffset
      ensures this.fileSize == fileSize && this.directIo == directIo
    {
      this.verifier, this.dataFile := verifier, dataFile;
      this.fileOffset, this.fileSize, this.directIo := fileOffset, fileSize, directIo;
      blockBuffer := new Byte[BLOCK_SIZE];
      blockBufferNumber := SIZE_MAX;
    }

    ghost predicate Usable()
      reads verifier, verifier.hashesFile, verifier.Caches()
    {
      && verifier.Valid() && verifier.IsOpen()
      && fileSize <= verifier.dataBlockCount * BLOCK_SIZE && fileSize < TWO64
      && blockBuffer.Length == BLOCK_SIZE
    }

    ghost function E(): Env
      requires verifier.IsOpen()
      reads verifier
    {
      Env(verifier.State(), verifier.hashesFile, dataFile, fileOffset)
    }

    ghost function Known(): set<Bytes>
      requires verifier.IsOpen()
      reads verifier, verifier.hashesFile
    {
      verifier.hashesFile.delivered
    }

    /** A valid block number means that the bounce buffer holds an accepted copy of that block. */
    ghost predicate Valid()
      reads this, blockBuffer, verifier, verifier.hashesFile, verifier.Caches()
    {
      && Usable()
      && (blockBufferNumber != SIZE_MAX ==> E().Good(Known(), blockBufferNumber, blockBuffer[..]))
    }

    /** The same when the hash file had delivered no more than this. */
    ghost predicate ValidWith(known: set<Bytes>)
      reads this, blockBuffer, verifier, verifier.Caches()
    {
      && verifier.IsOpen()
      && verifier.dataBlockCount >= 1
      && verifier.layer0.value.Places() == Places(verifier.hashesOffset + BLOCK_SIZE, verifier.dataBlockCount)
      && verifier.layer0.value.Valid(verifier.H(), verifier.hashesFile, known)
      && fileSize <= verifier.dataBlockCount * BLOCK_SIZE && fileSize < TWO64
      && blockBuffer.Length == BLOCK_SIZE
      && (blockBufferNumber != SIZE_MAX ==> E().Good(known, blockBufferNumber, blockBuffer[..]))
    }

    /** A reader stays valid while others make the hash file deliver more. */
    lemma StaysValid(known: set<Bytes>)
      requires ValidWith(known) && known <= Known()
      ensures Valid()
    {
      ValidGrows(verifier.layer0.value, verifier.H(), verifier.hashesFile, known, Known());
      if blockBufferNumber != SIZE_MAX {
        E().GoodGrows(known, Known(), blockBufferNumber, blockBuffer[..]);
      }
    }

    lemma IsValidWith()
      requires Valid()
      ensures verifier.IsOpen() && ValidWith(Known())
    {
    }

    ghost function Files(): set<File>
      reads verifier
    {
      verifier.OpenFile() + {dataFile}
    }

    /** Reads a whole block into `dst`. */
    method ReadBlock(nblock: nat, dst: array<Byte>, at: nat) returns (block: Option<Bytes>)
      requires Usable() && at + BLOCK_SIZE <= dst.Length
      modifies dst, dataFile`calls, dataFile`delivered
      ensures Usable() && old(Known()) <= Known()
      ensures dst[..at] == old(dst[..at]) && dst[at + BLOCK_SIZE..] == old(dst[at + BLOCK_SIZE..])
      ensures block.Some? ==> |block.value| == BLOCK_SIZE && dst[at..at + BLOCK_SIZE] == block.value
      ensures dataFile.Steady() ==>
                var offset := E().BlockOffset(nblock);
                && block.Some? == InRange(dataFile.image, offset, BLOCK_SIZE)
                && (block.Some? ==> block.value == Slice(dataFile.image, offset, BLOCK_SIZE))
    {
      hide Layer.Valid, Attested;
      ghost var known, caches := Known(), verifier.Caches();
      var read := dataFile.PRead(BLOCK_SIZE, fileOffset + nblock * BLOCK_SIZE);
      ValidGrows(verifier.layer0.value, verifier.H(), verifier.hashesFile, known, Known());
      if read.None? {
        return None;
      }
      CopyInto(dst, at, read.value);
      KeepsTail(dst[..], old(dst[..]), at + |read.value|, at + BLOCK_SIZE);
      block := if |read.value| == BLOCK_SIZE then read else None;
    }

    /** Reads a block into `dst` and verifies it there. */
    method ReadAndVerifyBlock(nblock: nat, dst: array<Byte>, at: nat) returns (ok: bool)
      requires Usable() && at + BLOCK_SIZE <= dst.Length
      modifies dst, verifier.Caches()`verifiedHashBlocks, Files()`calls, Files()`delivered
      ensures Usable() && old(Known()) <= Known()
      ensures dst[..at] == old(dst[..at]) && dst[at + BLOCK_SIZE..] == old(dst[at + BLOCK_SIZE..])
      ensures ok ==> E().Good(Known(), nblock, dst[at..at + BLOCK_SIZE])
      ensures E().Steady() ==> ok == E().Readable(nblock)
    {
      hide Layer.Valid, VerifyResult, Attested, File.Answer, File.Steady;
      var block := ReadBlock(nblock, dst, at);
      if block.None? {
        return false;
      }
      ok := verifier.Verify(nblock, block.value);
    }

    method ReadPartialBlock(buffer: array<Byte>, at: nat, nblock: nat, offset: nat, size: nat)
      returns (ok: bool, ghost block: Bytes)
      requires Valid() && at + size <= buffer.Length && buffer != blockBuffer
      requires nblock != SIZE_MAX
      modifies this`blockBufferNumber, blockBuffer, buffer
      modifies verifier.Caches()`verifiedHashBlocks, Files()`calls, Files()`delivered
      ensures Valid() && old(Known()) <= Known()
      ensures buffer[..at] == old(buffer[..at]) && buffer[at + size..] == old(buffer[at + size..])
      ensures ok ==>
                && offset + size <= BLOCK_SIZE
                && E().Good(Known(), nblock, block)
                && buffer[at..at + size] == block[offset..offset + size]
      ensures E().Steady() && offset < BLOCK_SIZE && offset + size <= BLOCK_SIZE ==> ok == E().Readable(nblock)
    {
      hide Layer.Valid;
      hide VerifyResult;
      hide Attested;
      block := [];
      if offset >= BLOCK_SIZE || size > BLOCK_SIZE - offset {
        return false, [];
      }
      if nblock != blockBufferNumber {
        var verified := ReadAndVerifyBlock(nblock, blockBuffer, 0);
        if !verified {
          blockBufferNumber := SIZE_MAX;
          return false, [];
        }
        assert blockBuffer[0..BLOCK_SIZE] == blockBuffer[..];
        blockBufferNumber := nblock;
      }
      block := blockBuffer[..];
      CopyInto(buffer, at, blockBuffer[offset..offset + size]);
      ok := true;
    }

    /** Every byte handed out comes from a block that the hash tree vouches for. */
    method Read(buffer: array<Byte>, size: nat, offset: nat) returns (ok: bool, ghost blocks: seq<Bytes>)
      requires Valid() && size <= buffer.Length && buffer != blockBuffer
      modifies this`blockBufferNumber, blockBuffer, buffer
      modifies verifier.Caches()`verifiedHashBlocks, Files()`calls, Files()`delivered
      ensures Valid() && old(Known()) <= Known()
      ensures buffer[size..] == old(buffer[size..])
      ensures ok ==> offset + size <= fileSize
      ensures ok ==> Serves(E(), Known(), offset / BLOCK_SIZE, blocks, offset % BLOCK_SIZE, buffer[..size])
      ensures E().Steady() ==>
                ok == (&& offset < fileSize && offset + size <= fileSize
                       && if directIo then DirectResult(E(), offset, size) else BufferedResult(E(), offset, size))
    {
      if offset >= fileSize || size > fileSize - offset {
        return false, [];
      }
      if directIo {
        ok, blocks := ReadDirectIo(buffer, size, offset);
      } else {
        ok, blocks := ReadBuffered(buffer, size, offset);
      }
    }

    /** The first `out` bytes of a read at `offset` are in `buffer`, and they came from `blocks`. */
    ghost predicate Progress(e: Env, offset: nat, blocks: seq<Bytes>, buffer: array<Byte>, out: nat)
      reads this, blockBuffer, buffer, verifier, verifier.hashesFile, verifier.Caches()
    {
      && Valid() && E() == e
      && buffer != blockBuffer && out <= buffer.Length
      && Serves(e, Known(), offset / BLOCK_SIZE, blocks, offset % BLOCK_SIZE, buffer[..out])
      && Covers(offset, |blocks|, out)
      && (e.Steady() ==> e.AllReadable(offset / BLOCK_SIZE, offset / BLOCK_SIZE + |blocks|))
    }

    /** One more block takes a read further. */
    lemma Advances(e: Env, offset: nat, blocks: seq<Bytes>, known: set<Bytes>, before: Bytes,
                   buffer: array<Byte>, out: nat, block: Bytes, o: nat, amount: nat)
      requires Valid() && E() == e && buffer != blockBuffer && out + amount <= buffer.Length
      requires known <= Known() && |before| == out
      requires Serves(e, known, offset / BLOCK_SIZE, blocks, offset % BLOCK_SIZE, before)
      requires e.Steady() ==> e.AllReadable(offset / BLOCK_SIZE, offset / BLOCK_SIZE + |blocks|)
      requires e.Good(Known(), offset / BLOCK_SIZE + |blocks|, block)
      requires offset % BLOCK_SIZE + out == BLOCK_SIZE * |blocks| + o && 0 < o + amount <= BLOCK_SIZE
      requires buffer[..out] == before && buffer[out..out + amount] == block[o..o + amount]
      ensures Progress(e, offset, blocks + [block], buffer, out + amount)
    {
      GoodIsReadable(e, Known(), offset / BLOCK_SIZE + |blocks|, block);
      hide Env.Good;
      hide Env.Readable;
      hide Serves;
      hide DmVerityVerifier.Valid;
      assert buffer[..out + amount] == before + block[o..o + amount];
      ServesMore(e, known, Known(), offset / BLOCK_SIZE, blocks, offset % BLOCK_SIZE, before, block, o, amount);
    }

    /** A step through the bounce buffer, for a head or a tail. */
    method PartialStep(buffer: array<Byte>, out: nat, nblock: nat, o: nat, amount: nat,
                       ghost e: Env, ghost offset: nat, ghost size: nat, ghost blocks: seq<Bytes>)
      returns (ok: bool, ghost more: seq<Bytes>)
      requires Progress(e, offset, blocks, buffer, out) && out + amount <= size <= buffer.Length
      requires nblock == offset / BLOCK_SIZE + |blocks| && nblock < SIZE_MAX
      requires offset % BLOCK_SIZE + out == BLOCK_SIZE * |blocks| + o && 0 < o + amount <= BLOCK_SIZE && o < BLOCK_SIZE
      modifies this`blockBufferNumber, blockBuffer, buffer
      modifies verifier.Caches()`verifiedHashBlocks, Files()`calls, Files()`delivered
      ensures Valid() && E() == e && old(Known()) <= Known()
      ensures buffer[size..] == old(buffer[size..])
      ensures ok ==> |more| == |blocks| + 1 && Progress(e, offset, more, buffer, out + amount)
      ensures e.Steady() ==> ok == e.Readable(nblock)
    {
      hide Env.Good;
      hide Env.Readable;
      hide Serves;
      hide DmVerityVerifier.Valid;
      ghost var known, before := Known(), buffer[..out];
      ghost var block;
      ok, block := ReadPartialBlock(buffer, out, nblock, o, amount);
      KeepsTail(buffer[..], old(buffer[..]), out + amount, size);
      more := blocks + [block];
      if ok {
        Advances(e, offset, blocks, known, before, buffer, out, block, o, amount);
      }
    }

    /** A whole block, read and verified in the caller's buffer. */
    method FullStep(buffer: array<Byte>, out: nat, nblock: nat,
                    ghost e: Env, ghost offset: nat, ghost size: nat, ghost blocks: seq<Bytes>)
      returns (ok: bool, ghost more: seq<Bytes>)
      requires Progress(e, offset, blocks, buffer, out) && out + BLOCK_SIZE <= size <= buffer.Length
      requires nblock == offset / BLOCK_SIZE + |blocks|
      requires offset % BLOCK_SIZE + out == BLOCK_SIZE * |blocks|
      modifies buffer, verifier.Caches()`verifiedHashBlocks, Files()`calls, Files()`delivered
      ensures Valid() && E() == e && old(Known()) <= Known()
      ensures buffer[size..] == old(buffer[size..])
      ensures ok ==> |more| == |blocks| + 1 && Progress(e, offset, more, buffer, out + BLOCK_SIZE)
      ensures e.Steady() ==> ok == e.Readable(nblock)
    {
      hide Env.Good;
      hide Env.Readable;
      hide Serves;
      hide DmVerityVerifier.Valid;
      ghost var known, before := Known(), buffer[..out];
      ok := ReadAndVerifyBlock(nblock, buffer, out);
      KeepsTail(buffer[..], old(buffer[..]), out + BLOCK_SIZE, size);
      if blockBufferNumber != SIZE_MAX {
        e.GoodGrows(known, Known(), blockBufferNumber, blockBuffer[..]);
      }
      ghost var block := buffer[out..out + BLOCK_SIZE];
      more := blocks + [block];
      if ok {
        assert block == block[0..BLOCK_SIZE];
        Advances(e, offset, blocks, known, before, buffer, out, block, 0, BLOCK_SIZE);
      }
    }

    /** A step of the direct IO path, always through the bounce buffer. */
    method DirectStep(buffer: array<Byte>, out: nat, blkNumber: nat, blkOffset: nat, blkAmount: nat,
                      ghost e: Env, ghost offset: nat, ghost size: nat, ghost blocks: seq<Bytes>)
      returns (ok: bool, ghost more: seq<Bytes>)
      requires Progress(e, offset, blocks, buffer, out) && out + blkAmount <= size <= buffer.Length
      requires blkNumber == offset / BLOCK_SIZE + |blocks| && blkNumber < SIZE_MAX
      requires offset % BLOCK_SIZE + out == BLOCK_SIZE * |blocks| + blkOffset && 0 < blkAmount <= BLOCK_SIZE - blkOffset
      modifies this`blockBufferNumber, blockBuffer, buffer
      modifies verifier.Caches()`verifiedHashBlocks, Files()`calls, Files()`delivered
      ensures Valid() && E() == e && old(Known()) <= Known()
      ensures buffer[size..] == old(buffer[size..])
      ensures ok ==> |more| == |blocks| + 1 && Progress(e, offset, more, buffer, out + blkAmount)
      ensures e.Steady() ==> ok == e.Readable(blkNumber)
    {
      hide Env.Good;
      hide Env.Readable;
      hide Serves;
      hide DmVerityVerifier.Valid;
      ghost var known, before := Known(), buffer[..out];
      if blockBufferNumber != blkNumber {
        var verified := ReadAndVerifyBlock(blkNumber, blockBuffer, 0);
        if !verified {
          blockBufferNumber := SIZE_MAX;
          return false, [];
        }
        assert blockBuffer[0..BLOCK_SIZE] == blockBuffer[..];
        blockBufferNumber := blkNumber;
      }
      ghost var block := blockBuffer[..];
      GoodIsReadable(e, Known(), blkNumber, block);
      CopyInto(buffer, out, blockBuffer[blkOffset..blkOffset + blkAmount]);
      KeepsTail(buffer[..], old(buffer[..]), out + blkAmount, size);
      Advances(e, offset, blocks, known, before, buffer, out, block, blkOffset, blkAmount);
      ok, more := true, blocks + [block];
    }

    lemma OpenAndBounded()
      requires Valid()
      ensures verifier.IsOpen() && fileSize < TWO64
    {
    }

    lemma StartsEmpty(offset: nat, buffer: array<Byte>)
      requires Valid() && buffer != blockBuffer
      ensures Progress(E(), offset, [], buffer, 0)
    {
      ServesNothing(E(), Known(), offset / BLOCK_SIZE, offset % BLOCK_SIZE);
      assert buffer[..0] == [];
    }

    /** The loop over whole blocks. */
    method ReadFullBlocks(buffer: array<Byte>, start: nat, nblock: nat,
                          ghost e: Env, ghost offset: nat, ghost before: seq<Bytes>, size: nat)
      returns (ok: bool, out: nat, blkNumber: nat, ghost blocks: seq<Bytes>)
      requires Progress(e, offset, before, buffer, start) && start <= size <= buffer.Length
      requires nblock == offset / BLOCK_SIZE + |before|
      requires offset % BLOCK_SIZE + start == BLOCK_SIZE * |before| || start == size
      modifies buffer, verifier.Caches()`verifiedHashBlocks, Files()`calls, Files()`delivered
      ensures Valid() && E() == e && old(Known()) <= Known()
      ensures buffer[size..] == old(buffer[size..])
      ensures ok ==> Progress(e, offset, blocks, buffer, out) && out <= size < out + BLOCK_SIZE
      ensures ok ==> blkNumber == offset / BLOCK_SIZE + |blocks| && |blocks| >= |before|
      ensures ok ==> offset % BLOCK_SIZE + out == BLOCK_SIZE * |blocks| || out == size
      ensures e.Steady() && !ok ==> !BufferedResult(e, offset, size)
    {
      hide Env.Readable;
      hide Progress;
      hide BufferedResult;
      StillValid(e, offset, before, buffer, start);
      hide Valid;
      hide E;
      hide Known;
      out, blkNumber, blocks := start, nblock, before;
      var remaining := size - start;
      while remaining >= BLOCK_SIZE
        invariant Valid() && verifier.IsOpen() && E() == e && old(Known()) <= Known()
        invariant out + remaining == size && remaining >= 0
        invariant blkNumber == offset / BLOCK_SIZE + |blocks| && |blocks| >= |before|
        invariant offset % BLOCK_SIZE + out == BLOCK_SIZE * |blocks| || remaining == 0
        invariant Progress(e, offset, blocks, buffer, out)
        invariant buffer[size..] == old(buffer[size..])
      {
        ghost var n := |blocks|;
        ok, blocks := FullStep(buffer, out, blkNumber, e, offset, size, blocks);
        if !ok {
          ResultOfFailure(e, offset, size, n);
          return;
        }
        out, remaining, blkNumber := out + BLOCK_SIZE, remaining - BLOCK_SIZE, blkNumber + 1;
      }
      ok := true;
    }

    lemma StillValid(e: Env, offset: nat, blocks: seq<Bytes>, buffer: array<Byte>, out: nat)
      requires Progress(e, offset, blocks, buffer, out)
      ensures Valid() && E() == e
    {
    }

    /** The part of the first block, when the read does not start at a block. */
    method ReadHead(buffer: array<Byte>, size: nat, offset: nat)
      returns (ok: bool, out: nat, blkNumber: nat, ghost blocks: seq<Bytes>)
      requires Valid() && size <= buffer.Length && buffer != blockBuffer
      requires offset < fileSize && offset + size <= fileSize
      modifies this`blockBufferNumber, blockBuffer, buffer
      modifies verifier.Caches()`verifiedHashBlocks, Files()`calls, Files()`delivered
      ensures Valid() && E() == old(E()) && old(Known()) <= Known()
      ensures buffer[size..] == old(buffer[size..])
      ensures ok ==> Progress(E(), offset, blocks, buffer, out) && out <= size
      ensures ok ==> blkNumber == offset / BLOCK_SIZE + |blocks| && (blocks == [] ==> offset % BLOCK_SIZE == 0)
      ensures ok ==> offset % BLOCK_SIZE + out == BLOCK_SIZE * |blocks| || out == size
      ensures E().Steady() && !ok ==> !BufferedResult(E(), offset, size)
    {
      hide Env.Readable;
      hide Progress;
      hide Valid;
      OpenAndBounded();
      ghost var e := E();
      hide BufferedResult;
      blkNumber := offset / BLOCK_SIZE;
      ok, out, blocks := true, 0, [];
      StartsEmpty(offset, buffer);
      if offset % BLOCK_SIZE != 0 {
        var blkOffset := offset % BLOCK_SIZE;
        var blkAmount := Min(size, BLOCK_SIZE - blkOffset);
        ok, blocks := PartialStep(buffer, 0, blkNumber, blkOffset, blkAmount, e, offset, size, blocks);
        if !ok {
          ResultOfFailure(e, offset, size, 0);
          return;
        }
        out, blkNumber := blkAmount, blkNumber + 1;
      }
    }

    /** A partial head block through the bounce buffer, then whole blocks in place, then a partial tail block. */
    method ReadBuffered(buffer: array<Byte>, size: nat, offset: nat) returns (ok: bool, ghost blocks: seq<Bytes>)
      requires Valid() && size <= buffer.Length && buffer != blockBuffer
      requires offset < fileSize && offset + size <= fileSize
      modifies this`blockBufferNumber, blockBuffer, buffer
      modifies verifier.Caches()`verifiedHashBlocks, Files()`calls, Files()`delivered
      ensures Valid() && E() == old(E()) && old(Known()) <= Known()
      ensures buffer[size..] == old(buffer[size..])
      ensures ok ==> Progress(E(), offset, blocks, buffer, size)
      ensures E().Steady() ==> ok == BufferedResult(E(), offset, size)
    {
      hide Env.Readable;
      hide Progress;
      hide Valid;
      OpenAndBounded();
      ghost var e := E();
      hide BufferedResult;
      hide DirectResult;
      hide E;
      hide Known;
      var out, blkNumber;
      ok, out, blkNumber, blocks := ReadHead(buffer, size, offset);
      if !ok {
        return;
      }
      ok, out, blkNumber, blocks := ReadFullBlocks(buffer, out, blkNumber, e, offset, blocks, size);
      if !ok {
        return;
      }
      var remaining := size - out;

      if remaining > 0 {
        ghost var n := |blocks|;
        ok, blocks := PartialStep(buffer, out, blkNumber, 0, remaining, e, offset, size, blocks);
        if !ok {
          ResultOfFailure(e, offset, size, n);
          return;
        }
      }
      ok := true;
      ResultOfProgress(e, offset, size, blocks, buffer);
    }

    method ReadDirectIo(buffer: array<Byte>, size: nat, offset: nat) returns (ok: bool, ghost blocks: seq<Bytes>)
      requires Valid() && size <= buffer.Length && buffer != blockBuffer
      requires offset < fileSize && offset + size <= fileSize
      modifies this`blockBufferNumber, blockBuffer, buffer
      modifies verifier.Caches()`verifiedHashBlocks, Files()`calls, Files()`delivered
      ensures Valid() && E() == old(E()) && old(Known()) <= Known()
      ensures buffer[size..] == old(buffer[size..])
      ensures ok ==> Progress(E(), offset, blocks, buffer, size)
      ensures E().Steady() ==> ok == DirectResult(E(), offset, size)
    {
      hide Env.Readable;
      hide Progress;
      hide Valid;
      OpenAndBounded();
      ghost var e := E();
      hide BufferedResult;
      hide DirectResult;
      hide E;
      hide Known;
      var blkNumber := offset / BLOCK_SIZE;
      var out, remaining, from := 0, size, offset;
      blocks := [];
      StartsEmpty(offset, buffer);
      while remaining > 0
        invariant Valid() && E() == e && old(Known()) <= Known()
        invariant out + remaining == size && remaining >= 0 && blkNumber == offset / BLOCK_SIZE + |blocks|
        invariant offset % BLOCK_SIZE + out == BLOCK_SIZE * |blocks| + from % BLOCK_SIZE || remaining == 0
        invariant Progress(e, offset, blocks, buffer, out)
        invariant buffer[size..] == old(buffer[size..])
      {
        ghost var n := |blocks|;
        var blkOffset := from % BLOCK_SIZE;
        var blkAmount := Min(remaining, BLOCK_SIZE - blkOffset);
        ok, blocks := DirectStep(buffer, out, blkNumber, blkOffset, blkAmount, e, offset, size, blocks);
        if !ok {
          ResultOfFailure(e, offset, size, n);
          return;
        }
        out, remaining, from, blkNumber := out + blkAmount, remaining - blkAmount, 0, blkNumber + 1;
      }
      ok := true;
      ResultOfProgress(e, offset, size, blocks, buffer);
    }

    lemma ResultOfProgress(e: Env, offset: nat, size: nat, blocks: seq<Bytes>, buffer: array<Byte>)
      requires Progress(e, offset, blocks, buffer, size)
      ensures e.Steady() ==> DirectResult(e, offset, size)
      ensures e.Steady() && (blocks == [] ==> offset % BLOCK_SIZE == 0) ==> BufferedResult(e, offset, size)
    {
      hide Env.Readable;
      if size > 0 {
        LastBlock(offset, size, |blocks|);
      }
    }
  }

  /** A block that cannot be read and is needed makes either path fail. */
  lemma ResultOfFailure(e: Env, offset: nat, size: nat, n: nat)
    requires size > 0 ==> BLOCK_SIZE * n < offset % BLOCK_SIZE + size
    requires size == 0 ==> n == 0 && offset % BLOCK_SIZE != 0
    ensures !e.Readable(offset / BLOCK_SIZE + n) ==> !BufferedResult(e, offset, size)
    ensures !e.Readable(offset / BLOCK_SIZE + n) && size > 0 ==> !DirectResult(e, offset, size)
  {
    hide Env.Readable;
    if size > 0 {
      LastBlock(offset, size, n);
    }
  }

  /** The number of blocks that a range of bytes touches. */
  lemma LastBlock(offset: nat, size: nat, n: nat)
    requires size > 0
    ensures BLOCK_SIZE * (n - 1) < offset % BLOCK_SIZE + size <= BLOCK_SIZE * n
            ==> offset / BLOCK_SIZE + n == (offset + size - 1) / BLOCK_SIZE + 1
    ensures BLOCK_SIZE * n < offset % BLOCK_SIZE + size
            ==> offset / BLOCK_SIZE + n < (offset + size - 1) / BLOCK_SIZE + 1
  {
  }

  lemma ServesNothing(e: Env, known: set<Bytes>, first: nat, head: nat)
    ensures Serves(e, known, first, [], head, [])
  {
  }

  lemma GoodIsReadable(e: Env, known: set<Bytes>, n: nat, block: Bytes)
    requires e.Good(known, n, block)
    ensures |block| == BLOCK_SIZE
    ensures e.Steady() ==> e.Readable(n)
  {
  }

  // ----- opening a protected file -----------------------------------------

  datatype OpenError =
    | DataRangeInvalid
    | HashesRangeInvalid
    | VerifierFailed(error: VerityError)
    | DataNotCovered

  /** Unlike the verifier, this check also refuses an offset right at the end of the file. */
  function CheckAndCalcFileRange(fileSize: Option<FileSize>, offset: Option<nat>, size: Option<nat>): (r: Option<(nat,
                                 nat)>)
    ensures r.Some? ==> fileSize.Some? && r.value.0 < fileSize.value && r.value.0 + r.value.1 <= fileSize.value
    ensures r.Some? ==> (offset.Some? ==> r.value.0 == offset.value) && (offset.None? ==> r.value.0 == 0)
    ensures r.Some? ==> (size.Some? ==> r.value.1 == size.value) && (size.None? ==>
              r.value.0 + r.value.1 == fileSize.value)
    ensures r.None? && fileSize.Some? ==>
              var from := if offset.Some? then offset.value else 0;
              from >= fileSize.value || (size.Some? && from + size.value > fileSize.value)
  {
    match fileSize
    case None => None
    case Some(length) =>
      var actualOffset := match offset case None => 0 case Some(o) => o;
      if actualOffset >= length then None else
        var actualSize := match size case None => length - actualOffset case Some(s) => s;
        if actualSize > length - actualOffset then None else Some((actualOffset, actualSize))
  }

  method Open(sha256: (Bytes, Bytes) -> Digest, dataFile: File, dataOffset: Option<nat>, dataSize: Option<nat>,
              hashesFile: File, hashesOffset: Option<nat>, hashesSize: Option<nat>, rootHash: Bytes, directIo: bool)
    returns (r: Result<DmVerityProtectedFile, OpenError>)
    modifies hashesFile`calls, hashesFile`delivered
    ensures r.Ok? ==>
              && CheckAndCalcFileRange(dataFile.reportedSize, dataOffset, dataSize) == Some((r.value.fileOffset, r.value.fileSize))
              && r.value.dataFile == dataFile && r.value.verifier.hashesFile == hashesFile
              && r.value.verifier.sha256 == sha256 && r.value.verifier.rootHash == rootHash
              && r.value.directIo == directIo
    ensures r.Ok? ==> (r.value.Valid() <==> r.value.verifier.TopWasRead())
    ensures r.Ok? && rootHash != Zeros(DIGEST_SIZE) ==> r.value.Valid()
    ensures r.Ok? && hashesFile.Steady() ==> (r.value.Valid() <==> HoldsTop(r.value.verifier.State(), hashesFile.image))
    ensures r.Ok? ==>
              fresh(r.value) && fresh(r.value.blockBuffer) && fresh(r.value.verifier) && fresh(r.value.verifier.Caches())
    ensures var data := CheckAndCalcFileRange(dataFile.reportedSize, dataOffset, dataSize);
            var hashes := CheckAndCalcFileRange(hashesFile.reportedSize, hashesOffset, hashesSize);
            && (r == Err(DataRangeInvalid) <==> data.None?)
            && (r == Err(HashesRangeInvalid) <==> data.Some? && hashes.None?)
            && (data.Some? && hashes.Some? ==>
                  match OpenOutcome(sha256, hashesFile, old(hashesFile.calls), rootHash, Some(hashes.value.0), Some(hashes.value.1))
                  case Err(e) => r == Err(VerifierFailed(e))
                  case Ok(state) =>
                    if data.value.1 > (state.dataBlockCount * BLOCK_SIZE) % TWO64 then r == Err(DataNotCovered)
                    else r.Ok? && r.value.verifier.State() == state)
  {
    hide Layer.Valid, OpenOutcome, OpenResult, File.Answer, File.Steady, CheckAndCalcFileRange, HoldsTop;
    var data := CheckAndCalcFileRange(dataFile.reportedSize, dataOffset, dataSize);
    if data.None? {
      return Err(DataRangeInvalid);
    }
    var hashes := CheckAndCalcFileRange(hashesFile.reportedSize, hashesOffset, hashesSize);
    if hashes.None? {
      return Err(HashesRangeInvalid);
    }
    var verifier := new DmVerityVerifier(sha256);
    var outcome := verifier.Open(hashesFile, rootHash, Some(hashes.value.0), Some(hashes.value.1));
    if outcome.Err? {
      return Err(VerifierFailed(outcome.error));
    }
    if data.value.1 > (verifier.dataBlockCount * BLOCK_SIZE) % TWO64 {
      return Err(DataNotCovered);
    }
    var file := new DmVerityProtectedFile(verifier, dataFile, data.value.0, data.value.1, directIo);
    r := Ok(file);
  }

  // ----- what a read returns ----------------------------------------------

  /** Position i of a range is byte (head + i) % 4096 of block (head + i) / 4096. */
  lemma RangeByte(blocks: seq<Bytes>, head: nat, bytes: Bytes, i: nat)
    requires AllOfSize(blocks, BLOCK_SIZE) && IsRangeOf(blocks, head, bytes) && i < |bytes|
    ensures (head + i) / BLOCK_SIZE < |blocks|
    ensures bytes[i] == blocks[(head + i) / BLOCK_SIZE][(head + i) % BLOCK_SIZE]
  {
    var j := (head + i) / BLOCK_SIZE;
    ConcatLength(blocks, BLOCK_SIZE);
    assert bytes[i] == Concat(blocks)[head + i];
    ConcatSlice(blocks, BLOCK_SIZE, j);
    assert Concat(blocks)[BLOCK_SIZE * j..BLOCK_SIZE * j + BLOCK_SIZE][(head + i) % BLOCK_SIZE] == Concat(blocks)[head + i];
  }

  /** Over a fixed data file a successful read, on either path, returns the bytes of the file. */
  lemma ServedIsFileSlice(e: Env, known: set<Bytes>, first: nat, blocks: seq<Bytes>, head: nat, bytes: Bytes)
    requires Serves(e, known, first, blocks, head, bytes) && e.dataFile.Steady() && bytes != []
    ensures InRange(e.dataFile.image, e.fileOffset + first * BLOCK_SIZE + head, |bytes|)
    ensures bytes == Slice(e.dataFile.image, e.fileOffset + first * BLOCK_SIZE + head, |bytes|)
  {
    hide Attested;
    hide VerifyResult;
    var at := e.fileOffset + first * BLOCK_SIZE + head;
    var last := (head + |bytes| - 1) / BLOCK_SIZE;
    RangeByte(blocks, head, bytes, |bytes| - 1);
    assert e.Good(known, first + last, blocks[last]);
    assert InRange(e.dataFile.image, at, |bytes|);
    forall i | 0 <= i < |bytes|
      ensures bytes[i] == Slice(e.dataFile.image, at, |bytes|)[i]
    {
      RangeByte(blocks, head, bytes, i);
      var j := (head + i) / BLOCK_SIZE;
      assert e.Good(known, first + j, blocks[j]);
    }
  }

  /** Two reads of one range of a fixed file return the same bytes, whatever paths and caches served them. */
  lemma ReadsReturnTheSame(e: Env, offset: nat, known1: set<Bytes>, blocks1: seq<Bytes>, bytes1: Bytes,
                           known2: set<Bytes>, blocks2: seq<Bytes>, bytes2: Bytes)
    requires e.dataFile.Steady() && |bytes1| == |bytes2|
    requires Serves(e, known1, offset / BLOCK_SIZE, blocks1, offset % BLOCK_SIZE, bytes1)
    requires Serves(e, known2, offset / BLOCK_SIZE, blocks2, offset % BLOCK_SIZE, bytes2)
    ensures bytes1 == bytes2
  {
    if bytes1 != [] {
      ServedIsFileSlice(e, known1, offset / BLOCK_SIZE, blocks1, offset % BLOCK_SIZE, bytes1);
      ServedIsFileSlice(e, known2, offset / BLOCK_SIZE, blocks2, offset % BLOCK_SIZE, bytes2);
    }
  }

  /**
   Two readers of the same fixed files, one for each path and each with its own verifier and caches: they fail
   together and return the same bytes, except on an empty read inside a block that cannot be read.
   */
  method ReadBothWays(buffered: DmVerityProtectedFile, direct: DmVerityProtectedFile, a: array<Byte>, b: array<Byte>,
                      size: nat, offset: nat) returns (okBuffered: bool, okDirect: bool)
    requires buffered.Valid() && direct.Valid() && !buffered.directIo && direct.directIo && buffered != direct
    requires buffered.E() == direct.E() && buffered.fileSize == direct.fileSize && buffered.E().Steady()
    requires buffered.verifier.Caches() !! direct.verifier.Caches()
    requires a != b && {a, b, buffered.blockBuffer} !! {direct.blockBuffer} && {a, b} !! {buffered.blockBuffer}
    requires size <= a.Length && size <= b.Length
    modifies a, b, buffered`blockBufferNumber, buffered.blockBuffer, direct`blockBufferNumber, direct.blockBuffer
    modifies buffered.verifier.Caches()`verifiedHashBlocks, direct.verifier.Caches()`verifiedHashBlocks
    modifies buffered.Files()`calls, buffered.Files()`delivered
    ensures okBuffered && okDirect ==> a[..size] == b[..size]
    ensures (okBuffered <==> okDirect) <==>
            !(size == 0 && offset < buffered.fileSize && offset % BLOCK_SIZE != 0 && !buffered.E().Readable(offset / BLOCK_SIZE))
  {
    hide DmVerityProtectedFile.Valid, DmVerityProtectedFile.ValidWith, Serves, BufferedResult, DirectResult;
    hide Env.Readable, Env.Good, File.Steady, Env.Steady;
    buffered.IsValidWith();
    direct.IsValidWith();
    ghost var e, known := direct.E(), direct.Known();
    ghost var blocks1, blocks2;
    okBuffered, blocks1 := buffered.Read(a, size, offset);
    ghost var known1, bytes1 := buffered.Known(), a[..size];
    direct.StaysValid(known);
    okDirect, blocks2 := direct.Read(b, size, offset);
    PathsAgree(e, offset, size);
    if okBuffered && okDirect {
      SteadyData(e);
      ReadsReturnTheSame(e, offset, known1, blocks1, bytes1, direct.Known(), blocks2, b[..size]);
    }
  }

  lemma SteadyData(e: Env)
    requires e.Steady()
    ensures e.dataFile.Steady()
  {
  }

  /**
   The exception is real: over a data file of zeros whose digest is not the root hash, an empty read at offset 1
   fails on the buffered path and succeeds on the other.
   */
  method EmptyRead(sha256: (Bytes, Bytes) -> Digest, rootHash: Digest, directIo: bool) returns (ok: bool)
    requires rootHash != sha256(Zeros(BLOCK_SIZE), [])
    ensures ok == directIo
  {
    hide DmVerityProtectedFile.Valid, BufferedResult, DirectResult, Env.Readable, File.Steady;
    var file := OpenZeros(sha256, rootHash, directIo);
    var buffer := new Byte[0];
    ghost var blocks;
    ghost var e := file.E();
    assert e.Steady();
    EmptyResults(e);
    ok, blocks := file.Read(buffer, 0, 1);
  }

  lemma EmptyResults(e: Env)
    requires !e.Readable(0)
    ensures !BufferedResult(e, 1, 0) && DirectResult(e, 1, 0)
  {
  }

  method OpenZeros(sha256: (Bytes, Bytes) -> Digest, rootHash: Digest,
                   directIo: bool) returns (file: DmVerityProtectedFile)
    requires rootHash != sha256(Zeros(BLOCK_SIZE), [])
    ensures fresh(file) && fresh(file.blockBuffer) && fresh(file.verifier) && fresh(file.verifier.Caches()) && fresh(file.Files())
    ensures file.Valid() && file.fileSize == BLOCK_SIZE && file.directIo == directIo
    ensures file.verifier.IsOpen() && file.E().Steady() && !file.E().Readable(0)
  {
    hide DmVerityProtectedFile.Valid, OpenOutcome, SuperBlockBytes, File.Steady, Layer.Valid;
    var superBlock: Image := SuperBlockBytes(Zeros(16), 1, []);
    var zeros: Image := Zeros(BLOCK_SIZE);
    var hashesFile := FixedFile(superBlock);
    var dataFile := FixedFile(zeros);
    SteadySize(hashesFile);
    SteadySize(dataFile);
    OneBlockOutcome(sha256, hashesFile, superBlock, rootHash);
    var outcome := Open(sha256, dataFile, None, None, hashesFile, None, None, rootHash, directIo);
    file := outcome.value;
    file.OpenAndBounded();
    ZerosUnreadable(file.E(), zeros);
  }

  /** A file that never changes. */
  method FixedFile(image: Image) returns (file: File)
    ensures fresh(file) && file.Steady() && file.image == image && file.calls == 0
  {
    file := new File((n: nat, offset: nat, size: nat) => Some(ReadAt(image, offset, size)), Some(|image|), image);
  }

  lemma OneBlockOutcome(sha256: (Bytes, Bytes) -> Digest, file: File, superBlock: Image, rootHash: Digest)
    requires file.Steady() && file.image == superBlock == SuperBlockBytes(Zeros(16), 1, [])
    ensures OpenOutcome(sha256, file, 0, rootHash, Some(0), Some(BLOCK_SIZE))
            == Ok(Opened(Hashing(sha256, [], rootHash), 1, BLOCK_SIZE))
  {
    hide SuperBlockBytes, ParseSuperBlock, IsSupported, File.Answer, File.Steady;
    SuperBlockRoundTrip(Zeros(16), 1, []);
    SteadyOutcome(sha256, file, 0, rootHash, Some(0), Some(BLOCK_SIZE));
    assert superBlock[0..BLOCK_SIZE] == superBlock;
  }

  lemma ZerosUnreadable(e: Env, zeros: Image)
    requires zeros == Zeros(BLOCK_SIZE) && e.dataFile.image == zeros
    requires e.state.dataBlockCount == 1 && e.state.hashing.rootHash != e.state.hashing.Digest(zeros)
    ensures !e.Readable(0)
  {
    if InRange(zeros, e.BlockOffset(0), BLOCK_SIZE) {
      assert Slice(zeros, 0, BLOCK_SIZE) == zeros;
      assert Places(e.state.base, 1) == [];
    }
  }

  /**
   The stack is sound. If the root hash was made from `data`, then whatever the data file and the hash file return,
   however often they change, and whatever salt and number of blocks the superblock declares, as long as that number
   makes a tree of the same depth, a successful read returns the bytes of `data` at its offset. Otherwise a collision
   is found between a block that was read and a block of the genuine tree or data, or, for a read past the data,
   a block that was read with a digest of zeros.
   */
  lemma ReadIsAuthentic(e: Env, g: Hashing, data: seq<Bytes>, known: set<Bytes>, offset: nat, blocks: seq<Bytes>,
                        bytes: Bytes)
    returns (f: Finding)
    requires AllOfSize(data, BLOCK_SIZE) && |data| >= 1
    requires g.rootHash == RootHash(g, Digests(g, data)) && ShareRoot(e.state.hashing, g)
    requires e.state.dataBlockCount >= 1
    requires Depth(e.state.dataBlockCount, HASHES_PER_BLOCK) == Depth(|data|, HASHES_PER_BLOCK)
    requires Serves(e, known, offset / BLOCK_SIZE, blocks, offset % BLOCK_SIZE, bytes)
    ensures f.Genuine? ==>
              bytes == [] || (InRange(Concat(data), offset, |bytes|) && bytes == Slice(Concat(data), offset, |bytes|))
    ensures f.Collision? ==>
              && IsCollision(g.sha256, f.pair)
              && (f.pair.0.block in known || f.pair.0.block in blocks) && f.pair.0.salt == e.state.hashing.salt
              && (f.pair.1.block in TreeBlocks(g, Digests(g, data)) || f.pair.1.block in data) && f.pair.1.salt == g.salt
    ensures f.ZeroDigest? ==>
              && (f.block in known || f.block in blocks) && |f.block| == BLOCK_SIZE
              && e.state.hashing.Digest(f.block) == Zeros(DIGEST_SIZE)
              && |data| < e.state.dataBlockCount && offset / BLOCK_SIZE + |blocks| > |data|
    ensures !f.DataIsHash?
  {
    hide Attested, VerifyResult, RootHash, Depth, IsCollision, TreeBlocks, Digests, Concat;
    var first := offset / BLOCK_SIZE;
    for j := 0 to |blocks|
      invariant first + j <= |data| || j == 0
      invariant forall i :: 0 <= i < j ==> first + i < |data| && blocks[i] == data[first + i]
    {
      f := BlockIsAuthentic(e, g, data, known, first + j, blocks[j]);
      if !f.Genuine? {
        return;
      }
    }
    f := Genuine;
    if bytes != [] {
      RangeByte(blocks, offset % BLOCK_SIZE, bytes, |bytes| - 1);
      BlocksOfData(data, first, blocks, offset, bytes);
    }
  }

  /**
   A protected file as the file an image is read through. Unless a collision or a digest of zeros is found, what it
   returns is faithful to the data that the root hash was made from; and over fixed files it fails only outside its
   range or where a block cannot be read.
   */
  method ReadImage(file: DmVerityProtectedFile, size: nat, offset: nat, ghost g: Hashing, ghost data: seq<Bytes>)
    returns (r: Option<Bytes>, ghost blocks: seq<Bytes>, ghost f: Finding)
    requires file.Valid()
    requires AllOfSize(data, BLOCK_SIZE) && |data| >= 1
    requires g.rootHash == RootHash(g, Digests(g, data)) && ShareRoot(file.E().state.hashing, g)
    requires Depth(file.verifier.dataBlockCount, HASHES_PER_BLOCK) == Depth(|data|, HASHES_PER_BLOCK)
    modifies file`blockBufferNumber, file.blockBuffer
    modifies file.verifier.Caches()`verifiedHashBlocks, file.Files()`calls, file.Files()`delivered
    ensures file.Valid() && old(file.Known()) <= file.Known()
    ensures r.Some? ==> offset + size <= file.fileSize
    ensures f.Genuine? && (size > 0 || file.fileSize <= |data| * BLOCK_SIZE) ==>
              IsFaithful(Concat(data), offset, size, r)
    ensures f.Collision? ==>
              && IsCollision(g.sha256, f.pair)
              && (f.pair.0.block in file.Known() || f.pair.0.block in blocks) && f.pair.0.salt == file.verifier.salt
              && (f.pair.1.block in TreeBlocks(g, Digests(g, data)) || f.pair.1.block in data) && f.pair.1.salt == g.salt
    ensures f.ZeroDigest? ==>
              && (f.block in file.Known() || f.block in blocks) && |f.block| == BLOCK_SIZE
              && file.verifier.H().Digest(f.block) == Zeros(DIGEST_SIZE) && |data| < file.verifier.dataBlockCount
    ensures !f.DataIsHash?
    ensures file.E().Steady() && file.E().AllReadable(0, file.verifier.dataBlockCount) ==>
              (r.Some? <==> offset < file.fileSize && offset + size <= file.fileSize)
  {
    hide DmVerityProtectedFile.Valid, Serves, RootHash, Depth, IsCollision, TreeBlocks, Digests, Concat;
    hide BufferedResult, DirectResult, Env.AllReadable, Env.Steady;
    file.OpenAndBounded();
    file.IsValidWith();
    ConcatLength(data, BLOCK_SIZE);
    var buffer := new Byte[size];
    var ok;
    ok, blocks := file.Read(buffer, size, offset);
    f := Genuine;
    if ok {
      f := ReadIsAuthentic(file.E(), g, data, file.Known(), offset, blocks, buffer[..size]);
    }
    r := if ok then Some(buffer[..]) else None;
    assert buffer[..size] == buffer[..];
    ReadableMeansSuccess(file.E(), file.verifier.dataBlockCount, offset, size, file.fileSize);
  }

  lemma ReadableMeansSuccess(e: Env, blocks: nat, offset: nat, size: nat, fileSize: nat)
    requires fileSize <= blocks * BLOCK_SIZE
    ensures e.AllReadable(0, blocks) && offset < fileSize && offset + size <= fileSize ==>
              BufferedResult(e, offset, size) && DirectResult(e, offset, size)
  {
    hide BufferedResult, DirectResult, Env.AllReadable;
    if e.AllReadable(0, blocks) && offset < fileSize && offset + size <= fileSize {
      ReadableMeansBothPathsSucceed(e, blocks, offset, size);
    }
  }

  lemma BlockIsAuthentic(e: Env, g: Hashing, data: seq<Bytes>, known: set<Bytes>, n: nat,
                         block: Bytes) returns (f: Finding)
    requires AllOfSize(data, BLOCK_SIZE) && |data| >= 1
    requires g.rootHash == RootHash(g, Digests(g, data)) && ShareRoot(e.state.hashing, g)
    requires e.state.dataBlockCount >= 1
    requires Depth(e.state.dataBlockCount, HASHES_PER_BLOCK) == Depth(|data|, HASHES_PER_BLOCK)
    requires e.Good(known, n, block)
    ensures f.Genuine? ==> n < |data| && block == data[n]
    ensures f.Collision? ==>
              && IsCollision(g.sha256, f.pair)
              && (f.pair.0.block in known || f.pair.0.block == block) && f.pair.0.salt == e.state.hashing.salt
              && (f.pair.1.block in TreeBlocks(g, Digests(g, data)) || f.pair.1.block in data) && f.pair.1.salt == g.salt
    ensures f.ZeroDigest? ==>
              && (f.block in known || f.block == block) && |f.block| == BLOCK_SIZE
              && e.state.hashing.Digest(f.block) == Zeros(DIGEST_SIZE)
              && |data| <= n < e.state.dataBlockCount
    ensures !f.DataIsHash?
  {
    f := AcceptedIsCommitted(g, data, e.state.hashing, e.state.dataBlockCount, known, n, block);
  }

  lemma BlocksOfData(data: seq<Bytes>, first: nat, blocks: seq<Bytes>, offset: nat, bytes: Bytes)
    requires AllOfSize(data, BLOCK_SIZE) && AllOfSize(blocks, BLOCK_SIZE) && first == offset / BLOCK_SIZE
    requires first + |blocks| <= |data|
    requires forall j :: 0 <= j < |blocks| ==> blocks[j] == data[first + j]
    requires IsRangeOf(blocks, offset % BLOCK_SIZE, bytes) && bytes != []
    ensures InRange(Concat(data), offset, |bytes|) && bytes == Slice(Concat(data), offset, |bytes|)
  {
    hide Concat;
    ConcatLength(data, BLOCK_SIZE);
    RangeByte(blocks, offset % BLOCK_SIZE, bytes, |bytes| - 1);
    SamePosition(offset, |bytes| - 1);
    assert offset + |bytes| <= |Concat(data)|;
    forall i | 0 <= i < |bytes|
      ensures bytes[i] == Slice(Concat(data), offset, |bytes|)[i]
    {
      ByteOfData(data, blocks, offset, bytes, i);
    }
  }

  lemma ByteOfData(data: seq<Bytes>, blocks: seq<Bytes>, offset: nat, bytes: Bytes, i: nat)
    requires AllOfSize(data, BLOCK_SIZE) && AllOfSize(blocks, BLOCK_SIZE)
    requires offset / BLOCK_SIZE + |blocks| <= |data|
    requires forall j :: 0 <= j < |blocks| ==> blocks[j] == data[offset / BLOCK_SIZE + j]
    requires IsRangeOf(blocks, offset % BLOCK_SIZE, bytes) && i < |bytes|
    requires offset + i < |Concat(data)|
    ensures bytes[i] == Concat(data)[offset + i]
  {
    hide Concat;
    RangeByte(blocks, offset % BLOCK_SIZE, bytes, i);
    hide IsRangeOf;
    SamePosition(offset, i);
    WholeRange(data);
    RangeByte(data, 0, Concat(data), offset + i);
  }

  lemma WholeRange(blocks: seq<Bytes>)
    ensures IsRangeOf(blocks, 0, Concat(blocks))
  {
  }

  lemma SamePosition(offset: nat, i: nat)
    ensures (offset + i) / BLOCK_SIZE == offset / BLOCK_SIZE + (offset % BLOCK_SIZE + i) / BLOCK_SIZE
    ensures (offset + i) % BLOCK_SIZE == (offset % BLOCK_SIZE + i) % BLOCK_SIZE
  {
  }

  /** The stack is complete: over genuine files that do not change, every block of the data can be read. */
  lemma GenuineFilesAreReadable(e: Env, uuid: Bytes, data: seq<Bytes>, at: nat)
    requires AllOfSize(data, BLOCK_SIZE) && |data| >= 1
    requires |uuid| == 16 && |e.state.hashing.salt| <= MAX_SALT_SIZE
    requires e.state == Opened(e.state.hashing, |data|, at + BLOCK_SIZE)
    requires e.state.hashing.rootHash == RootHash(e.state.hashing, Digests(e.state.hashing, data))
    requires ContainsAt(e.hashesFile.image, at, HashFile(e.state.hashing, uuid, data))
    requires ContainsAt(e.dataFile.image, e.fileOffset, Concat(data))
    ensures e.AllReadable(0, |data|)
  {
    forall n | 0 <= n < |data|
      ensures e.Readable(n)
    {
      GenuineBlock(e, uuid, data, at, n);
    }
  }

  lemma GenuineBlock(e: Env, uuid: Bytes, data: seq<Bytes>, at: nat, n: nat)
    requires AllOfSize(data, BLOCK_SIZE) && n < |data|
    requires |uuid| == 16 && |e.state.hashing.salt| <= MAX_SALT_SIZE
    requires e.state == Opened(e.state.hashing, |data|, at + BLOCK_SIZE)
    requires e.state.hashing.rootHash == RootHash(e.state.hashing, Digests(e.state.hashing, data))
    requires ContainsAt(e.hashesFile.image, at, HashFile(e.state.hashing, uuid, data))
    requires ContainsAt(e.dataFile.image, e.fileOffset, Concat(data))
    ensures e.Readable(n)
  {
    hide VerifyResult;
    hide RootHash;
    hide HashFile;
    hide Concat;
    ConcatSlice(data, BLOCK_SIZE, n);
    ContainedSlice(e.dataFile.image, e.fileOffset, Concat(data), n * BLOCK_SIZE, BLOCK_SIZE);
    VerifyAcceptsExactly(e.state.hashing, uuid, data, e.hashesFile.image, at, n, data[n]);
  }

  /** So every read within the data succeeds, on both paths. */
  lemma ReadableMeansBothPathsSucceed(e: Env, blocks: nat, offset: nat, size: nat)
    requires e.AllReadable(0, blocks)
    requires offset < blocks * BLOCK_SIZE && offset + size <= blocks * BLOCK_SIZE
    ensures BufferedResult(e, offset, size) && DirectResult(e, offset, size)
  {
    hide Env.Readable;
  }
}
