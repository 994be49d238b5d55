/**
 Reading byte ranges of a compressed inode. The extents that cover the range are read, decompressed with LZ4 where
 they are compressed, and copied out; the last extent that was only partly needed stays in memory for the next read.
 */
module CompressedReader {
  import opened Bytes
  import opened ExtentMap
  import opened Files
  import opened Wrappers

  /** LZ4, of which nothing is assumed: input, size wanted, and whether the whole input must be used up. */
  type Lz4Decoder = (Bytes, nat, bool) -> Option<Bytes>

  /** The number of leading zero bytes. */
  function LeadingZeros(block: Bytes): (n: nat)
    ensures n <= |block|
    ensures forall i :: 0 <= i < n ==> block[i] == 0
    ensures n < |block| ==> block[n] != 0
  {
    if block == [] || block[0] != 0 then 0 else 1 + LeadingZeros(block[1..])
  }

  /** The fixed surroundings of a reader. */
  datatype Source = Source(image: Bytes, blockSize: nat, zeroPadding: bool, lz4: Lz4Decoder) {

    /** A block decompressed to exactly `size` bytes. */
    function Decompress(block: Bytes, size: nat): (r: Option<Bytes>)
      ensures r.Some? ==> |r.value| == size
    {
      var margin := if zeroPadding then LeadingZeros(block) else 0;
      if zeroPadding && margin >= |block| then None else
        var out := lz4(block[margin..], size, zeroPadding);
        if out.Some? && |out.value| == size then out else None
    }

    /** All the bytes of an extent. */
    function ExtentBytes(e: Extent): (r: Option<Bytes>)
      ensures r.Some? ==> |r.value| == e.uncomprSize
    {
      match e.compression
      case NoCompression =>
        if InRange(image, e.comprBlockAddr, e.uncomprSize) then Some(Slice(image, e.comprBlockAddr, e.uncomprSize))
        else None
      case Lz4 =>
        if InRange(image, e.comprBlockAddr, blockSize) then
          Decompress(Slice(image, e.comprBlockAddr, blockSize), e.uncomprSize)
        else None
      case Invalid =>
        None
    }

    /** Byte i of an extent; of an uncompressed extent a byte can be there although the extent runs past the image. */
    function ExtentByte(e: Extent, i: nat): Option<Byte> {
      if e.compression == NoCompression then
        if e.comprBlockAddr + i < |image| then Some(image[e.comprBlockAddr + i]) else None
      else
        match ExtentBytes(e)
        case None => None
        case Some(bytes) => if i < |bytes| then Some(bytes[i]) else None
    }

    /** `bytes` are the bytes of the file from `offset` on. */
    ghost predicate IsContent(extents: seq<Extent>, offset: nat, bytes: Bytes) {
      forall k, i :: 0 <= k < |bytes| && 0 <= i < |extents| && Contains(extents[i], offset + k) ==>
        ExtentByte(extents[i], offset + k - extents[i].uncomprOffset) == Some(bytes[k])
    }

    ghost predicate Expandable(extents: seq<Extent>) {
      forall i :: 0 <= i < |extents| ==> ExtentBytes(extents[i]).Some?
    }

    /** The whole file: its extents decompressed and joined. */
    function Contents(extents: seq<Extent>): Bytes {
      if extents == [] then [] else
        (match ExtentBytes(extents[0]) case None => [] case Some(bytes) => bytes) + Contents(extents[1..])
    }

    lemma {:induction false} ContentsLength(extents: seq<Extent>, size: nat)
      requires Partition(extents, size) && Expandable(extents)
      ensures |Contents(extents)| == size - extents[0].uncomprOffset
      decreases |extents|
    {
      hide ExtentBytes;
      if |extents| > 1 {
        Tail(extents, size);
        ContentsLength(extents[1..], size);
      } else {
        assert Contents(extents) == ExtentBytes(extents[0]).value + Contents([]);
      }
    }

    lemma Tail(extents: seq<Extent>, size: nat)
      requires Partition(extents, size) && Expandable(extents) && |extents| > 1
      ensures Partition(extents[1..], size) && Expandable(extents[1..])
      ensures extents[1].uncomprOffset == extents[0].uncomprOffset + extents[0].uncomprSize <= size
    {
      PartitionEnd(extents, size, 0);
    }

    /** An extent that can be expanded has all its bytes. */
    lemma ByteOfExtent(e: Extent, i: nat)
      requires ExtentBytes(e).Some? && i < e.uncomprSize
      ensures ExtentByte(e, i) == Some(ExtentBytes(e).value[i])
    {
    }

    lemma PartOfExtent(e: Extent, o: nat, n: nat)
      requires ExtentBytes(e).Some? && o + n <= e.uncomprSize
      ensures IsPart(e, o, ExtentBytes(e).value[o..o + n])
    {
      var part := ExtentBytes(e).value[o..o + n];
      forall k | 0 <= k < |part|
        ensures ExtentByte(e, o + k) == Some(part[k])
      {
        ByteOfExtent(e, o + k);
      }
    }

    lemma ExpandingNeedsBlock(e: Extent)
      requires e.compression == Lz4
      ensures ExtentBytes(e).Some? ==> InRange(image, e.comprBlockAddr, blockSize)
    {
    }

    lemma ExpandingIsDecompressing(e: Extent)
      requires e.compression == Lz4 && InRange(image, e.comprBlockAddr, blockSize)
      ensures ExtentBytes(e) == Decompress(Slice(image, e.comprBlockAddr, blockSize), e.uncomprSize)
    {
    }

    lemma SameBlockSameBytes(a: Extent, b: Extent)
      requires SameBlock(a, b) && a.uncomprSize == b.uncomprSize
      ensures ExtentBytes(a) == ExtentBytes(b)
    {
    }

    /** In the joined contents each extent is found at its offset. */
    lemma {:induction false} ContentsAt(extents: seq<Extent>, size: nat, i: nat, p: nat)
      requires Partition(extents, size) && Expandable(extents) && i < |extents| && Contains(extents[i], p)
      ensures extents[0].uncomprOffset <= p < size
      ensures |Contents(extents)| == size - extents[0].uncomprOffset
      ensures ExtentByte(extents[i], p - extents[i].uncomprOffset) == Some(Contents(extents)[p - extents[0].uncomprOffset])
      decreases |extents|
    {
      hide ExtentBytes;
      ContentsLength(extents, size);
      PartitionEnd(extents, size, i);
      var bytes := ExtentBytes(extents[0]).value;
      assert Contents(extents) == bytes + Contents(extents[1..]);
      if i == 0 {
        ByteOfExtent(extents[0], p - extents[0].uncomprOffset);
        hide ExtentByte;
      } else {
        Tail(extents, size);
        ContentsAt(extents[1..], size, i - 1, p);
        hide ExtentByte;
        assert p - extents[0].uncomprOffset == |bytes| + (p - extents[1].uncomprOffset);
      }
    }

    /** A range of the file is a slice of the joined contents. */
    lemma ContentIsSlice(extents: seq<Extent>, size: nat, offset: nat, bytes: Bytes)
      requires Partition(extents, size) && extents[0].uncomprOffset == 0 && Expandable(extents)
      requires IsContent(extents, offset, bytes) && offset + |bytes| <= size
      ensures |Contents(extents)| == size && bytes == Slice(Contents(extents), offset, |bytes|)
    {
      hide ExtentByte;
      hide ExtentBytes;
      ContentsLength(extents, size);
      forall k | 0 <= k < |bytes|
        ensures bytes[k] == Slice(Contents(extents), offset, |bytes|)[k]
      {
        var i := Holder(extents, size, offset + k);
        ContentsAt(extents, size, i, offset + k);
        assert ExtentByte(extents[i], offset + k - extents[i].uncomprOffset) == Some(bytes[k]);
      }
    }

    /** `bytes` are bytes of one extent from `o` on. */
    ghost predicate IsPart(e: Extent, o: nat, bytes: Bytes) {
      forall k :: 0 <= k < |bytes| ==> ExtentByte(e, o + k) == Some(bytes[k])
    }

    lemma NoContent(extents: seq<Extent>, offset: nat)
      ensures IsContent(extents, offset, [])
    {
    }

    /** The next extent takes the content further. */
    lemma ContentExtends(extents: seq<Extent>, size: nat, offset: nat, bytes: Bytes, i: nat, o: nat, more: Bytes)
      requires Partition(extents, size) && i < |extents|
      requires IsContent(extents, offset, bytes) && IsPart(extents[i], o, more)
      requires offset + |bytes| == extents[i].uncomprOffset + o && o + |more| <= extents[i].uncomprSize
      ensures IsContent(extents, offset, bytes + more)
    {
      hide ExtentByte;
      var all := bytes + more;
      forall k, j | 0 <= k < |all| && 0 <= j < |extents| && Contains(extents[j], offset + k)
        ensures ExtentByte(extents[j], offset + k - extents[j].uncomprOffset) == Some(all[k])
      {
        if k < |bytes| {
          assert all[k] == bytes[k];
        } else {
          assert all[k] == more[k - |bytes|];
          ContainedOnce(extents, size, offset + k, i, j);
        }
      }
    }
  }

  /** Where one extent ends before the end of the file, the next begins. */
  lemma NextExtent(extents: seq<Extent>, size: nat, i: nat)
    requires Partition(extents, size) && i < |extents|
    ensures var end := extents[i].uncomprOffset + extents[i].uncomprSize;
            end < size ==> i + 1 < |extents| && extents[i + 1].uncomprOffset == end && extents[i + 1].uncomprSize > 0
  {
  }

  /** Some extent holds each offset of the file. */
  lemma {:induction false} Holder(extents: seq<Extent>, size: nat, p: nat) returns (i: nat)
    requires Partition(extents, size) && extents[0].uncomprOffset <= p < size
    ensures i < |extents| && Contains(extents[i], p)
    decreases |extents|
  {
    if Contains(extents[0], p) {
      i := 0;
    } else {
      var rest := extents[1..];
      assert rest != [] && rest[0].uncomprOffset <= p;
      assert Partition(rest, size);
      i := Holder(rest, size, p);
      i := i + 1;
    }
  }

  predicate SameBlock(a: Extent, b: Extent) {
    a.compression == b.compression == Lz4 && a.comprBlockAddr == b.comprBlockAddr
  }

  /** Extents compressed into one block have the same length. */
  ghost predicate SharedBlocksAgree(extents: seq<Extent>) {
    forall i, j :: 0 <= i < |extents| && 0 <= j < |extents| && SameBlock(extents[i], extents[j]) ==>
      extents[i].uncomprSize == extents[j].uncomprSize
  }

  class ErofsInodeCompressedDataReader {
    const file: ImageFile

    const extents: ErofsExtentMap

    const dataSize: nat

    const blockSize: nat

    const haveLz4ZeroPadding: bool

    const lz4: Lz4Decoder

    var blockBuffer: Bytes

    var lastDecompressedBlockAddr: nat

    var decompressedBlock: Bytes

    /** The extent that was decompressed into it. */
    ghost var keptFor: Extent

    constructor (file: ImageFile, extents: ErofsExtentMap, haveLz4ZeroPadding: bool, lz4: Lz4Decoder)
      requires extents.Full() && Partition(extents.entries, extents.uncomprSize)
      requires extents.blockSize == 4096 && extents.uncomprSize < TWO64
      ensures Valid()
      ensures this.file == file && this.extents == extents && this.lz4 == lz4 && lastDecompressedBlockAddr == SIZE_MAX
      ensures this.haveLz4ZeroPadding == haveLz4ZeroPadding && this.dataSize == extents.uncomprSize
    {
      this.file, this.extents, this.lz4 := file, extents, lz4;
      this.dataSize, this.blockSize := extents.uncomprSize, extents.blockSize;
      this.haveLz4ZeroPadding := haveLz4ZeroPadding;
      blockBuffer, decompressedBlock, lastDecompressedBlockAddr := [], [], SIZE_MAX;
      keptFor := NO_EXTENT;
    }

    ghost function S(): Source {
      Source(file.image, blockSize, haveLz4ZeroPadding, lz4)
    }

    /** The extents are a partition of the file, and the decompressed block is that of some extent at its address. */
    ghost predicate Valid()
      reads this, extents
    {
      && extents.Full() && dataSize == extents.uncomprSize < TWO64
      && Partition(extents.entries, dataSize)
      && blockSize == extents.blockSize == 4096
      && (lastDecompressedBlockAddr != SIZE_MAX ==>
            keptFor in extents.entries && IsLastDecompressed(keptFor) && Holds(keptFor))
    }

    /** What makes the bytes returned those of the file. */
    ghost predicate Truthful()
      reads extents
    {
      SharedBlocksAgree(extents.entries) && file.AnswersTruly()
    }

    predicate IsLastDecompressed(e: Extent)
      reads this
    {
      e.compression == Lz4 && e.comprBlockAddr == lastDecompressedBlockAddr
    }

    /** The decompressed block has room for an extent and holds all its bytes, if the file's answers are true. */
    ghost predicate Holds(e: Extent)
      reads this
    {
      && |decompressedBlock| >= e.uncomprSize
      && (file.AnswersTruly() ==> S().ExtentBytes(e) == Some(decompressedBlock[..e.uncomprSize]))
    }

    /**
     What became of a read inside one compressed extent: it was served from the block that was kept if that has the
     extent's address, and otherwise the extent is kept now, unless it was read whole.
     */
    ghost predicate ServedFrom(e: Extent, o: nat, size: nat, last: nat, kept: Bytes, ok: bool, outside: bool,
                               bytes: Bytes)
      reads this
    {
      e.compression == Lz4 ==>
        if last == e.comprBlockAddr then
          && outside == (o + size > |kept|) && ok == !outside
          && (ok ==> bytes == kept[o..o + size])
        else
          && !outside && (file.Reliable() && S().ExtentBytes(e).Some? ==> ok)
          && (ok && size < e.uncomprSize ==> lastDecompressedBlockAddr == e.comprBlockAddr && keptFor == e)
    }

    /** The range of a read lies inside one extent. */
    predicate InOneExtent(e: Extent, offset: nat, size: nat) {
      size > 0 && e.uncomprOffset <= offset && offset + size <= e.uncomprOffset + e.uncomprSize
    }

    /** Skips the zero bytes before the compressed data, then runs LZ4, which must produce exactly `size` bytes. */
    method DecompressLz4(block: Bytes, size: nat) returns (r: Option<Bytes>)
      ensures r == S().Decompress(block, size)
    {
      var inputMargin := 0;
      if haveLz4ZeroPadding {
        while inputMargin < |block|
          invariant inputMargin <= |block| && inputMargin + LeadingZeros(block[inputMargin..]) == LeadingZeros(block)
        {
          if block[inputMargin] != 0 {
            break;
          }
          assert block[inputMargin..][1..] == block[inputMargin + 1..];
          inputMargin := inputMargin + 1;
        }
        if inputMargin >= |block| {
          return None;
        }
      }
      r := lz4(block[inputMargin..], size, haveLz4ZeroPadding);
      if r.Some? && |r.value| != size {
        r := None;
      }
    }

    method ReadUncompressed(e: Extent, buffer: array<Byte>, at: nat, offset: nat, size: nat) returns (ok: bool)
      requires at + size <= buffer.Length && e.compression == NoCompression && size > 0
      modifies file`calls, buffer
      ensures buffer[..at] == old(buffer[..at]) && buffer[at + size..] == old(buffer[at + size..])
      ensures ok && file.AnswersTruly() ==> S().IsPart(e, offset, buffer[at..at + size])
      ensures file.Reliable() && S().ExtentBytes(e).Some? && offset + size <= e.uncomprSize ==> ok
    {
      var read := file.Read(size, e.comprBlockAddr + offset);
      if read.None? {
        return false;
      }
      CopyInto(buffer, at, read.value);
      ok := true;
    }

    /**
     Reads part of a compressed extent. `outside` stands for copying from beyond the block that is kept; it does not
     happen, and the bytes are those of the extent, when extents that share a block have the same length.
     */
    method ReadLz4Compressed(e: Extent, buffer: array<Byte>, at: nat, offset: nat, size: nat) returns (ok: bool,
                             outside: bool)
      requires Valid() && at + size <= buffer.Length
      requires e in extents.entries && e.compression == Lz4 && offset + size <= e.uncomprSize
      modifies this`blockBuffer, this`lastDecompressedBlockAddr, this`decompressedBlock, this`keptFor, file`calls
      modifies buffer
      ensures Valid()
      ensures buffer[..at] == old(buffer[..at]) && buffer[at + size..] == old(buffer[at + size..])
      ensures SharedBlocksAgree(extents.entries) ==> !outside
      ensures ok && Truthful() ==> S().IsPart(e, offset, buffer[at..at + size])
      ensures file.Reliable() && S().ExtentBytes(e).Some? ==> ok || outside
      ensures ServedFrom(e, offset, size, old(lastDecompressedBlockAddr), old(decompressedBlock), ok, outside, buffer[at..at + size])
    {
      hide Valid, SharedBlocksAgree, Source.ExtentBytes, Source.ExtentByte, Source.Decompress;
      outside := false;
      if lastDecompressedBlockAddr == e.comprBlockAddr {
        if SharedBlocksAgree(extents.entries) {
          HoldsLast(e);
          PartHeld(e, offset, size);
        }
        if offset + size > |decompressedBlock| {
          return false, true;
        }
        CopyInto(buffer, at, decompressedBlock[offset..offset + size]);
        return true, false;
      }
      ok := LoadBlock(e);
      if !ok {
        return;
      }

      if offset == 0 && e.uncomprSize == size {
        var out := DecompressLz4(blockBuffer, size);
        if out.None? {
          return false, false;
        }
        if file.AnswersTruly() {
          S().PartOfExtent(e, offset, size);
        }
        CopyInto(buffer, at, out.value);
        assert out.value == out.value[0..size];
        ok := true;
      } else {
        ok := Stage(e);
        if ok {
          CopyHeld(e, buffer, at, offset, size);
        }
      }
    }

    /** Part of the block that is kept is that part of the extent. */
    lemma PartHeld(e: Extent, offset: nat, size: nat)
      requires Holds(e) && offset + size <= e.uncomprSize
      ensures offset + size <= |decompressedBlock|
      ensures file.AnswersTruly() ==> S().IsPart(e, offset, decompressedBlock[offset..offset + size])
    {
      hide Source.ExtentBytes;
      if file.AnswersTruly() {
        S().PartOfExtent(e, offset, size);
        assert decompressedBlock[offset..offset + size] == decompressedBlock[..e.uncomprSize][offset..offset + size];
      }
    }

    lemma KeptBytes()
      requires Valid() && lastDecompressedBlockAddr != SIZE_MAX && file.AnswersTruly()
      ensures S().ExtentBytes(keptFor).Some? && |decompressedBlock| >= keptFor.uncomprSize
      ensures decompressedBlock[..keptFor.uncomprSize] == S().ExtentBytes(keptFor).value
    {
    }

    lemma HoldsLast(e: Extent)
      requires Valid() && SharedBlocksAgree(extents.entries) && e in extents.entries && IsLastDecompressed(e)
      ensures Holds(e)
    {
      extents.AddressBound(e);
      assert SameBlock(keptFor, e);
      S().SameBlockSameBytes(keptFor, e);
    }

    /** Reads the compressed block of an extent. */
    method LoadBlock(e: Extent) returns (ok: bool)
      requires Valid() && e in extents.entries && e.compression == Lz4
      modifies this`blockBuffer, file`calls
      ensures Valid()
      ensures ok && file.AnswersTruly() ==> S().ExtentBytes(e) == S().Decompress(blockBuffer, e.uncomprSize)
      ensures file.Reliable() && S().ExtentBytes(e).Some? ==> ok
    {
      hide Source.ExtentBytes;
      hide Source.Decompress;
      var read := file.Read(blockSize, e.comprBlockAddr);
      if read.None? {
        S().ExpandingNeedsBlock(e);
        return false;
      }
      if file.AnswersTruly() {
        S().ExpandingIsDecompressing(e);
      }
      blockBuffer := read.value;
      ok := true;
    }

    /** Decompresses the block just read into the block that is kept for the next read. */
    method Stage(e: Extent) returns (ok: bool)
      requires Valid() && e in extents.entries && e.compression == Lz4
      requires file.AnswersTruly() ==> S().ExtentBytes(e) == S().Decompress(blockBuffer, e.uncomprSize)
      modifies this`lastDecompressedBlockAddr, this`decompressedBlock, this`keptFor
      ensures Valid()
      ensures file.AnswersTruly() ==> ok == S().ExtentBytes(e).Some?
      ensures ok ==> Holds(e) && lastDecompressedBlockAddr == e.comprBlockAddr && keptFor == e
    {
      hide Source.ExtentBytes;
      hide Source.Decompress;
      lastDecompressedBlockAddr := SIZE_MAX;
      if |decompressedBlock| < e.uncomprSize {
        decompressedBlock := decompressedBlock + Zeros(e.uncomprSize - |decompressedBlock|);
      }
      var out := DecompressLz4(blockBuffer, e.uncomprSize);
      if out.None? {
        return false;
      }
      decompressedBlock := out.value + decompressedBlock[e.uncomprSize..];
      lastDecompressedBlockAddr, keptFor := e.comprBlockAddr, e;
      assert decompressedBlock[..e.uncomprSize] == out.value;
      assert Holds(e);
      ok := true;
    }

    method CopyHeld(e: Extent, buffer: array<Byte>, at: nat, offset: nat, size: nat)
      requires Holds(e) && at + size <= buffer.Length && offset + size <= e.uncomprSize
      modifies buffer
      ensures buffer[..at] == old(buffer[..at]) && buffer[at + size..] == old(buffer[at + size..])
      ensures file.AnswersTruly() ==> S().IsPart(e, offset, buffer[at..at + size])
    {
      PartHeld(e, offset, size);
      CopyInto(buffer, at, decompressedBlock[offset..offset + size]);
    }

    /**
     When extents that share a block have the same length and the answers of the image are true, a successful read
     returns the bytes of the file, whatever was read before. Whatever the image answers, no read then goes outside the
     block that is kept; `outside` also stands for an offset before the first extent. `SharedBlocksMatter` shows that
     every map in which they do not can be read wrongly. Over an image whose reads succeed and whose extents all expand,
     every read inside the file is successful.
     */
    method Read(buffer: array<Byte>, size: nat, offset: nat) returns (ok: bool, outside: bool)
      requires Valid() && size <= buffer.Length
      modifies this`blockBuffer, this`lastDecompressedBlockAddr, this`decompressedBlock, this`keptFor, file`calls
      modifies buffer
      ensures Valid()
      ensures buffer[size..] == old(buffer[size..])
      ensures ok ==> offset < dataSize && offset + size <= dataSize
      ensures extents.entries[0].uncomprOffset <= offset && SharedBlocksAgree(extents.entries) ==> !outside
      ensures offset < dataSize && offset + size <= dataSize && offset < extents.entries[0].uncomprOffset ==> outside
      ensures ok && Truthful() ==> S().IsContent(extents.entries, offset, buffer[..size])
      ensures file.Reliable() && S().Expandable(extents.entries) && !outside ==>
                ok == (offset < dataSize && offset + size <= dataSize)
      ensures forall i :: 0 <= i < |extents.entries| && InOneExtent(extents.entries[i], offset, size) ==>
                var e := extents.entries[i];
                ServedFrom(e, offset - e.uncomprOffset, size, old(lastDecompressedBlockAddr), old(decompressedBlock),
                           ok, outside, buffer[..size])
    {
      hide ServedFrom, SharedBlocksAgree, Truthful, Valid, Partition, Source.ExtentBytes, Source.IsPart;
      hide Source.IsContent, Source.Expandable;
      outside := false;
      ValidFacts();
      if offset >= dataSize || size > dataSize - offset {
        NotInOneExtent(offset, size);
        return false, false;
      }
      var it := extents.Find(offset);
      OnlyOneExtent(offset, size, it);
      if it < 0 {
        // The iterator has stepped back from the first extent
        return false, true;
      }
      assert 0 <= it < |extents.entries|;
      ghost var first := extents.entries[it];
      var clusterOffset := offset - extents.entries[it].uncomprOffset;
      var out, remaining := 0, size;
      assert buffer[..0] == [];
      S().NoContent(extents.entries, offset);

      while remaining > 0
        invariant Valid() && 0 <= it < |extents.entries|
        invariant out + remaining == size && 0 <= remaining
        invariant remaining > 0 ==>
                    && extents.entries[it].uncomprOffset + clusterOffset == offset + out
                    && 0 <= clusterOffset < extents.entries[it].uncomprSize
        invariant Truthful() ==> S().IsContent(extents.entries, offset, buffer[..out])
        invariant !outside
        invariant out == 0 ==>
                    && extents.entries[it] == first && clusterOffset == offset - first.uncomprOffset
                    && lastDecompressedBlockAddr == old(lastDecompressedBlockAddr) && decompressedBlock == old(decompressedBlock)
        invariant out > 0 && InOneExtent(first, offset, size) ==>
                    && remaining == 0
                    && ServedFrom(first, offset - first.uncomprOffset, size, old(lastDecompressedBlockAddr),
                                  old(decompressedBlock), true, false, buffer[..size])
        invariant buffer[size..] == old(buffer[size..])
      {
        var e := extents.entries[it];
        ExpandableAt(it);
        var clusterAmount := Min(e.uncomprSize - clusterOffset, remaining);
        ghost var before := buffer[..];
        ok, outside := ReadExtent(e, buffer, out, clusterOffset, clusterAmount);
        KeepsTail(buffer[..], before, out + clusterAmount, size);
        if !ok {
          return;
        }
        assert buffer[..out] == before[..out];
        if Truthful() {
          S().ContentExtends(extents.entries, dataSize, offset, buffer[..out], it, clusterOffset,
                             buffer[out..out + clusterAmount]);
        }
        assert buffer[..out + clusterAmount] == buffer[..out] + buffer[out..out + clusterAmount];
        out := out + clusterAmount;
        remaining := remaining - clusterAmount;
        clusterOffset := 0;
        if remaining > 0 {
          NextExtent(extents.entries, dataSize, it);
          it := it + 1;
        }
      }
      ok := true;
    }

    lemma NotInOneExtent(offset: nat, size: nat)
      requires Valid() && (offset >= dataSize || size > dataSize - offset)
      ensures forall i :: 0 <= i < |extents.entries| ==> !InOneExtent(extents.entries[i], offset, size)
    {
      forall i | 0 <= i < |extents.entries|
        ensures !InOneExtent(extents.entries[i], offset, size)
      {
        PartitionEnd(extents.entries, dataSize, i);
      }
    }

    /** An extent that holds a whole range is the one that the search has found. */
    lemma OnlyOneExtent(offset: nat, size: nat, it: int)
      requires Valid() && offset < dataSize && -1 <= it < |extents.entries|
      requires it == -1 <==> offset < extents.entries[0].uncomprOffset
      requires 0 <= it ==> Contains(extents.entries[it], offset)
      ensures forall i :: 0 <= i < |extents.entries| && InOneExtent(extents.entries[i], offset, size) ==> i == it
    {
      forall i | 0 <= i < |extents.entries| && InOneExtent(extents.entries[i], offset, size)
        ensures i == it
      {
        if it < 0 {
          if i > 0 {
            PartitionOrder(extents.entries, dataSize, 0, i);
          }
        } else {
          ContainedOnce(extents.entries, dataSize, offset, i, it);
        }
      }
    }

    lemma ExpandableAt(it: nat)
      requires it < |extents.entries|
      ensures S().Expandable(extents.entries) ==> S().ExtentBytes(extents.entries[it]).Some?
    {
    }

    lemma ValidFacts()
      requires Valid()
      ensures Partition(extents.entries, extents.uncomprSize) && dataSize == extents.uncomprSize < TWO64
      ensures extents.entries != []
    {
    }

    method ReadExtent(e: Extent, buffer: array<Byte>, at: nat, offset: nat, size: nat) returns (ok: bool, outside: bool)
      requires Valid() && at + size <= buffer.Length && size > 0
      requires e in extents.entries && offset + size <= e.uncomprSize
      modifies this`blockBuffer, this`lastDecompressedBlockAddr, this`decompressedBlock, this`keptFor, file`calls
      modifies buffer
      ensures Valid()
      ensures buffer[..at] == old(buffer[..at]) && buffer[at + size..] == old(buffer[at + size..])
      ensures ok ==> !outside
      ensures SharedBlocksAgree(extents.entries) ==> !outside
      ensures ok && Truthful() ==> S().IsPart(e, offset, buffer[at..at + size])
      ensures file.Reliable() && S().ExtentBytes(e).Some? ==> ok || outside
      ensures ServedFrom(e, offset, size, old(lastDecompressedBlockAddr), old(decompressedBlock), ok, outside, buffer[at..at + size])
    {
      hide Source.ExtentByte, SharedBlocksAgree;
      outside := false;
      match e.compression
      case NoCompression => ok := ReadUncompressed(e, buffer, at, offset, size);
      case Lz4 => ok, outside := ReadLz4Compressed(e, buffer, at, offset, size);
      case Invalid => ok := false;
    }
  }

  /** A decoder for the example below: what it gives depends on the size that is asked for. */
  function SizeSensitive(longer: nat): Lz4Decoder {
    (block: Bytes, size: nat, whole: bool) => Some(if size == longer then Ones(size) else Zeros(size))
  }

  function Ones(n: nat): (s: Bytes)
    ensures |s| == n && forall i :: 0 <= i < n ==> s[i] == 1
  {
    seq(n, _ => 1)
  }

  lemma Decoded(image: Bytes, longer: nat, e: Extent)
    requires e.compression == Lz4 && InRange(image, e.comprBlockAddr, 4096)
    ensures Source(image, 4096, false, SizeSensitive(longer)).ExtentBytes(e)
            == Some(if e.uncomprSize == longer then Ones(e.uncomprSize) else Zeros(e.uncomprSize))
  {
    var block := Slice(image, e.comprBlockAddr, 4096);
    assert block[0..] == block;
  }

  /**
   The condition is needed in every map that breaks it. Take two extents that share a block and differ in length, and
   a decoder whose output depends on the length: after one byte of the longer extent has been read, reading the file
   where the shorter one lies succeeds, and every byte of it is wrong.
   */
  method SharedBlocksMatter(file: ImageFile, extents: ErofsExtentMap, i: nat, j: nat) returns (bytes: Option<Bytes>)
    requires extents.Full() && Partition(extents.entries, extents.uncomprSize)
    requires extents.blockSize == 4096 && extents.uncomprSize < TWO64
    requires i < |extents.entries| && j < |extents.entries| && SameBlock(extents.entries[i], extents.entries[j])
    requires extents.entries[i].uncomprSize < extents.entries[j].uncomprSize
    requires file.Reliable() && InRange(file.image, extents.entries[j].comprBlockAddr, 4096)
    modifies file`calls
    ensures bytes.Some? && |bytes.value| == extents.entries[i].uncomprSize > 0
    ensures var right := Source(file.image, 4096, false, SizeSensitive(extents.entries[j].uncomprSize)).ExtentBytes(extents.entries[i]);
            right.Some? && forall k :: 0 <= k < |bytes.value| ==> bytes.value[k] != right.value[k]
  {
    hide Source.ExtentBytes, SizeSensitive, ErofsInodeCompressedDataReader.Valid, Source.IsPart, ImageFile.Reliable;
    hide ErofsExtentMap.Full, Partition, SharedBlocksAgree;
    PartitionSizes(extents.entries, extents.uncomprSize, i);
    var shorter, longer := extents.entries[i], extents.entries[j];
    Truly(file);
    var reader := new ErofsInodeCompressedDataReader(file, extents, false, SizeSensitive(longer.uncomprSize));
    var buffer := new Byte[shorter.uncomprSize];
    Decoded(file.image, longer.uncomprSize, longer);
    Decoded(file.image, longer.uncomprSize, shorter);
    extents.AddressBound(longer);
    var ok, outside := reader.Read(buffer, 1, longer.uncomprOffset);
    reader.KeptBytes();
    OnesKept(reader.decompressedBlock, shorter.uncomprSize, longer.uncomprSize);
    ok, outside := reader.Read(buffer, shorter.uncomprSize, shorter.uncomprOffset);
    assert buffer[..shorter.uncomprSize] == buffer[..];
    bytes := Some(buffer[..]);
  }

  lemma PartitionSizes(entries: seq<Extent>, size: nat, i: nat)
    requires Partition(entries, size) && i < |entries|
    ensures entries[i].uncomprSize > 0
  {
  }

  lemma OnesKept(kept: Bytes, n: nat, longer: nat)
    requires n <= longer <= |kept| && kept[..longer] == Ones(longer)
    ensures kept[0..n] == Ones(n)
  {
    assert forall k :: 0 <= k < n ==> kept[k] == kept[..longer][k];
  }

  lemma Truly(file: ImageFile)
    requires file.Reliable()
    ensures file.AnswersTruly()
  {
  }
}
