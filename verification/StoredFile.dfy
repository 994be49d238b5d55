/**
 What a compressed file is made of, written from the format: an extent is stored plain, or as LZ4 data in one block,
 behind zero bytes where the image has zero padding. The reader gives back the parts that were stored.
 */
module StoredFile {
  import opened Bytes
  import opened CompressedReader
  import opened ExtentEncoder
  import opened ExtentMap
  import opened Files
  import opened IndexPacking
  import opened Wrappers

  /**
   The image holds `part` as the contents of an extent. In a compressed extent of an image with zero padding, `margin`
   zero bytes come before the data, which does not start with one.
   */
  ghost predicate Stored(image: Bytes, e: Extent, part: Bytes, zeroPadding: bool, lz4: Lz4Decoder, margin: nat) {
    && |part| == e.uncomprSize
    && match e.compression
       case NoCompression => ContainsAt(image, e.comprBlockAddr, part)
       case Lz4 =>
         && InRange(image, e.comprBlockAddr, 4096)
         && (if zeroPadding then
               && margin < 4096
               && ContainsAt(image, e.comprBlockAddr, Zeros(margin))
               && image[e.comprBlockAddr + margin] != 0
               && lz4(image[e.comprBlockAddr + margin..e.comprBlockAddr + 4096], |part|, true) == Some(part)
             else lz4(image[e.comprBlockAddr..e.comprBlockAddr + 4096], |part|, false) == Some(part))
       case Invalid => false
  }

  /** The only count of leading zeros is the one that is followed by something else. */
  lemma {:induction false} MarginIsUnique(block: Bytes, margin: nat)
    requires margin < |block| && block[margin] != 0 && forall i :: 0 <= i < margin ==> block[i] == 0
    ensures LeadingZeros(block) == margin
    decreases margin
  {
    if margin > 0 {
      MarginIsUnique(block[1..], margin - 1);
    }
  }

  /** What the reader takes for the bytes of an extent is what is stored there, and it finds nothing else. */
  lemma StoredIsRead(image: Bytes, e: Extent, part: Bytes, zeroPadding: bool, lz4: Lz4Decoder, margin: nat)
    requires Stored(image, e, part, zeroPadding, lz4, margin)
    ensures Source(image, 4096, zeroPadding, lz4).ExtentBytes(e) == Some(part)
  {
    if e.compression == Lz4 {
      var block := Slice(image, e.comprBlockAddr, 4096);
      if zeroPadding {
        var zeros := Slice(image, e.comprBlockAddr, margin);
        forall i | 0 <= i < margin
          ensures block[i] == 0
        {
          assert block[i] == zeros[i];
        }
        MarginIsUnique(block, margin);
        assert block[margin..] == image[e.comprBlockAddr + margin..e.comprBlockAddr + 4096];
      } else {
        assert block[0..] == image[e.comprBlockAddr..e.comprBlockAddr + 4096];
      }
    }
  }

  lemma ReadIsStored(image: Bytes, e: Extent, part: Bytes, zeroPadding: bool, lz4: Lz4Decoder) returns (margin: nat)
    requires Source(image, 4096, zeroPadding, lz4).ExtentBytes(e) == Some(part)
    ensures Stored(image, e, part, zeroPadding, lz4, margin)
  {
    margin := 0;
    if e.compression == Lz4 {
      var block := Slice(image, e.comprBlockAddr, 4096);
      if zeroPadding {
        margin := LeadingZeros(block);
        assert block[margin..] == image[e.comprBlockAddr + margin..e.comprBlockAddr + 4096];
        assert Slice(image, e.comprBlockAddr, margin) == Zeros(margin) by {
          forall i | 0 <= i < margin
            ensures Slice(image, e.comprBlockAddr, margin)[i] == 0
          {
            assert block[i] == 0;
          }
        }
      } else {
        assert block[0..] == image[e.comprBlockAddr..e.comprBlockAddr + 4096];
      }
    }
  }

  /** The image holds one part for each extent. */
  ghost predicate AllStored(image: Bytes, extents: seq<Extent>, parts: seq<Bytes>, zeroPadding: bool, lz4: Lz4Decoder,
                            margins: seq<nat>) {
    && |extents| == |parts| == |margins|
    && forall i :: 0 <= i < |extents| ==> Stored(image, extents[i], parts[i], zeroPadding, lz4, margins[i])
  }

  /** The contents of a file are its parts, one after the other. */
  lemma {:induction false} ContentsAreParts(image: Bytes, extents: seq<Extent>, parts: seq<Bytes>, zeroPadding: bool,
                                            lz4: Lz4Decoder, margins: seq<nat>)
    requires AllStored(image, extents, parts, zeroPadding, lz4, margins)
    ensures var source := Source(image, 4096, zeroPadding, lz4);
            source.Expandable(extents) && source.Contents(extents) == Concat(parts)
    decreases |extents|
  {
    hide Stored, Source.ExtentBytes;
    var source := Source(image, 4096, zeroPadding, lz4);
    if extents != [] {
      StoredIsRead(image, extents[0], parts[0], zeroPadding, lz4, margins[0]);
      ContentsAreParts(image, extents[1..], parts[1..], zeroPadding, lz4, margins[1..]);
      forall i | 0 <= i < |extents|
        ensures source.ExtentBytes(extents[i]).Some?
      {
        StoredIsRead(image, extents[i], parts[i], zeroPadding, lz4, margins[i]);
      }
    }
  }

  /**
   A read of a file that is stored in parts, after any earlier reads: it gives the slice of the parts put together, and
   over a reliable image it succeeds exactly inside the file.
   */
  method ReadParts(reader: ErofsInodeCompressedDataReader, buffer: array<Byte>, size: nat, offset: nat,
                   ghost parts: seq<Bytes>, ghost margins: seq<nat>)
    returns (ok: bool, outside: bool)
    requires reader.Valid() && size <= buffer.Length
    requires reader.file.AnswersTruly() && SharedBlocksAgree(reader.extents.entries)
    requires reader.extents.entries[0].uncomprOffset == 0
    requires AllStored(reader.file.image, reader.extents.entries, parts, reader.haveLz4ZeroPadding, reader.lz4, margins)
    modifies reader`blockBuffer, reader`lastDecompressedBlockAddr, reader`decompressedBlock, reader`keptFor
    modifies reader.file`calls
    modifies buffer
    ensures reader.Valid() && !outside
    ensures buffer[size..] == old(buffer[size..])
    ensures ok ==>
              && offset < |Concat(parts)| && InRange(Concat(parts), offset, size)
              && buffer[..size] == Slice(Concat(parts), offset, size)
    ensures reader.file.Reliable() ==> ok == (offset < |Concat(parts)| && offset + size <= |Concat(parts)|)
  {
    hide AllStored, Stored, SharedBlocksAgree, Concat, ErofsInodeCompressedDataReader.ServedFrom, Source.ExtentBytes;
    hide Source.Contents;
    ghost var source := reader.S();
    ghost var entries := reader.extents.entries;
    ContentsAreParts(reader.file.image, entries, parts, reader.haveLz4ZeroPadding, reader.lz4, margins);
    source.ContentsLength(entries, reader.dataSize);
    ok, outside := reader.Read(buffer, size, offset);
    if ok {
      source.ContentIsSlice(entries, reader.dataSize, offset, buffer[..size]);
    }
  }

  /** A successful read that begins in a compressed extent has found something stored there. */
  lemma ReadNeedsStored(source: Source, extents: seq<Extent>, i: nat, offset: nat, bytes: Bytes) returns (part: Bytes,
                        margin: nat)
    requires source.blockSize == 4096 && source.IsContent(extents, offset, bytes) && bytes != []
    requires i < |extents| && Contains(extents[i], offset) && extents[i].compression == Lz4
    ensures Stored(source.image, extents[i], part, source.zeroPadding, source.lz4, margin)
    ensures bytes[0] == part[offset - extents[i].uncomprOffset]
  {
    hide Stored;
    assert source.ExtentByte(extents[i], offset + 0 - extents[i].uncomprOffset) == Some(bytes[0]);
    part := source.ExtentBytes(extents[i]).value;
    margin := ReadIsStored(source.image, extents[i], part, source.zeroPadding, source.lz4);
  }

  /**
   From the image to the bytes: over a reliable image that holds the encoded indexes of a file and its parts, the map
   is built, and every read, in any order, returns the part of the file that is asked for.
   */
  method FileRoundTrip(file: ImageFile, ghost format: MapFormat, ghost clusters: seq<Cluster>, extentsOffset: nat,
                       compressedBlocks: nat, size: nat, haveLz4ZeroPadding: bool, lz4: Lz4Decoder,
                       ghost parts: seq<Bytes>, ghost margins: seq<nat>, wanted: seq<(nat, nat)>)
    returns (results: seq<Option<Bytes>>)
    requires file.Reliable() && 1 <= compressedBlocks < 0x1_0000_0000
    requires HoldsMap(file.image, extentsOffset, format, clusters, size)
    requires OffsetsFit(clusters, format.ClusterBytes()) && HasMap(file.image, format, clusters, size, compressedBlocks)
    requires var extents := Described(clusters, 0, format.ClusterBytes(), size, 4096);
             && extents != [] && extents[0].uncomprOffset == 0 && SharedBlocksAgree(extents)
             && AllStored(file.image, extents, parts, haveLz4ZeroPadding, lz4, margins)
    modifies file`calls
    ensures |results| == |wanted|
    ensures forall i :: 0 <= i < |wanted| ==> results[i] == AnswerFrom(Concat(parts), wanted[i].0, wanted[i].1)
  {
    hide AllStored, SharedBlocksAgree, Concat, Described, HoldsMap, HasMap, Pow2, OffsetsFit, Partition;
    hide ErofsInodeCompressedDataReader.Valid, ErofsExtentMap.Full;
    var map' := CompactRoundTrip(file, format, clusters, extentsOffset, compressedBlocks, size);
    var reader := new ErofsInodeCompressedDataReader(file, map', haveLz4ZeroPadding, lz4);
    ReliableIsTrue(file);
    results := [];
    for i := 0 to |wanted|
      invariant reader.Valid() && |results| == i && map'.entries == Described(clusters, 0, format.ClusterBytes(), size, 4096)
      invariant forall j :: 0 <= j < i ==> results[j] == AnswerFrom(Concat(parts), wanted[j].0, wanted[j].1)
    {
      var (length, offset) := wanted[i];
      var buffer := new Byte[length];
      var ok, outside := ReadParts(reader, buffer, length, offset, parts, margins);
      assert buffer[..length] == buffer[..];
      results := results + [if ok then Some(buffer[..]) else None];
    }
  }

  lemma ReliableIsTrue(file: ImageFile)
    requires file.Reliable()
    ensures file.AnswersTruly()
  {
  }
}
