/**
 The two halves of the stack together: a compressed file of an EROFS image that is read through a protected file.
 */
module VerifiedImage {
  import opened Bytes
  import opened CompressedReader
  import opened ExtentMap
  import opened Files
  import opened MerkleEvidence
  import opened MerkleLayout
  import opened ProtectedFile
  import opened TreeBuilder
  import opened Wrappers

  datatype Request = Request(length: nat, offset: nat)

  /** The answers of a file that is asked for these ranges in this order, and fails when it is asked for another. */
  function Answers(requests: seq<Request>, results: seq<Option<Bytes>>): (answer: (nat, nat, nat) -> Option<Bytes>)
    requires |requests| == |results|
    ensures forall n: nat, offset: nat, length: nat ::
              answer(n, offset, length)
              == if n < |requests| && requests[n] == Request(length, offset) then results[n] else None
  {
    (n: nat, offset: nat, length: nat) =>
      if n < |requests| && requests[n] == Request(length, offset) then results[n] else None
  }

  /** The requirements of a protected file whose root hash was made from `data`, in a tree of that depth. */
  ghost predicate Protects(file: DmVerityProtectedFile, g: Hashing, data: seq<Bytes>)
    reads file, file.blockBuffer, file.verifier, file.verifier.hashesFile, file.verifier.Caches()
    ensures Protects(file, g, data) ==> file.verifier.IsOpen() && |data| >= 1
  {
    && file.Valid()
    && AllOfSize(data, BLOCK_SIZE) && |data| >= 1
    && g.rootHash == RootHash(g, Digests(g, data)) && ShareRoot(file.verifier.H(), g)
    && Depth(file.verifier.dataBlockCount, HASHES_PER_BLOCK) == Depth(|data|, HASHES_PER_BLOCK)
  }

  /** What a finding says about the blocks of the hash file and of the data file that have been read. */
  ghost predicate Explains(f: Finding, g: Hashing, data: seq<Bytes>, h: Hashing, count: nat, known: set<Bytes>,
                           blocks: seq<Bytes>)
    requires |data| >= 1
  {
    match f
    case Genuine => true
    case Collision(pair) =>
      && IsCollision(g.sha256, pair)
      && (pair.0.block in known || pair.0.block in blocks) && pair.0.salt == h.salt
      && (pair.1.block in TreeBlocks(g, Digests(g, data)) || pair.1.block in data) && pair.1.salt == g.salt
    case ZeroDigest(block) =>
      && (block in known || block in blocks) && |block| == BLOCK_SIZE
      && h.Digest(block) == Zeros(DIGEST_SIZE) && |data| < count
    case DataIsHash(_, _, _) => false
  }

  lemma ExplainsMore(f: Finding, g: Hashing, data: seq<Bytes>, h: Hashing, count: nat, known: set<Bytes>,
                     more: set<Bytes>,
                     blocks: seq<Bytes>, others: seq<Bytes>)
    requires |data| >= 1 && known <= more
    ensures Explains(f, g, data, h, count, known, blocks) ==> Explains(f, g, data, h, count, more, blocks + others)
    ensures Explains(f, g, data, h, count, more, others) ==> Explains(f, g, data, h, count, more, blocks + others)
  {
    hide IsCollision, TreeBlocks, Digests;
  }

  lemma NothingFound(g: Hashing, data: seq<Bytes>, h: Hashing, count: nat, known: set<Bytes>)
    requires |data| >= 1
    ensures Explains(Genuine, g, data, h, count, known, [])
  {
  }

  /** One read of the image, with what it may give away. */
  method ReadOnce(file: DmVerityProtectedFile, request: Request, ghost g: Hashing, ghost data: seq<Bytes>)
    returns (r: Option<Bytes>, ghost blocks: seq<Bytes>, ghost f: Finding)
    requires Protects(file, g, data) && request.length > 0
    modifies file`blockBufferNumber, file.blockBuffer
    modifies file.verifier.Caches()`verifiedHashBlocks, file.Files()`calls, file.Files()`delivered
    ensures Protects(file, g, data) && old(file.Known()) <= file.Known()
    ensures f.Genuine? ==> IsFaithful(Concat(data), request.offset, request.length, r)
    ensures Explains(f, g, data, file.verifier.H(), file.verifier.dataBlockCount, file.Known(), blocks)
  {
    hide DmVerityProtectedFile.Valid, RootHash, Depth, IsCollision, TreeBlocks, Digests, Concat;
    r, blocks, f := ReadImage(file, request.length, request.offset, g, data);
  }

  /**
   A protected file read for these ranges in this order, as the file that an image is read through. Unless a finding is
   made, its answers are true to the data.
   */
  method AsImage(file: DmVerityProtectedFile, requests: seq<Request>, ghost g: Hashing, ghost data: seq<Bytes>)
    returns (image: ImageFile, ghost blocks: seq<Bytes>, ghost f: Finding)
    requires Protects(file, g, data) && forall r :: r in requests ==> r.length > 0
    modifies file`blockBufferNumber, file.blockBuffer
    modifies file.verifier.Caches()`verifiedHashBlocks, file.Files()`calls, file.Files()`delivered
    ensures Protects(file, g, data) && old(file.Known()) <= file.Known()
    ensures fresh(image) && image.image == Concat(data) && image.size == file.fileSize
    ensures f.Genuine? ==> image.AnswersTruly()
    ensures Explains(f, g, data, file.verifier.H(), file.verifier.dataBlockCount, file.Known(), blocks)
  {
    hide Protects, Explains, Concat;
    NothingFound(g, data, file.verifier.H(), file.verifier.dataBlockCount, file.Known());
    var results := [];
    blocks, f := [], Genuine;
    ghost var h, count := file.verifier.H(), file.verifier.dataBlockCount;
    for n := 0 to |requests|
      invariant Protects(file, g, data) && old(file.Known()) <= file.Known() && |results| == n
      invariant f.Genuine? ==>
                  forall i :: 0 <= i < n ==> IsFaithful(Concat(data), requests[i].offset, requests[i].length, results[i])
      invariant Explains(f, g, data, h, count, file.Known(), blocks)
    {
      ghost var known := file.Known();
      var r;
      ghost var more, found;
      r, more, found := ReadOnce(file, requests[n], g, data);
      results := results + [r];
      ExplainsMore(f, g, data, h, count, known, file.Known(), blocks, more);
      ExplainsMore(found, g, data, h, count, known, file.Known(), blocks, more);
      blocks := blocks + more;
      f := if f.Genuine? then found else f;
    }
    image := new ImageFile(Answers(requests, results), file.fileSize, Concat(data));
  }

  /**
   Any number of reads of a compressed file in a protected image, through one reader. Whatever the two files under it
   return, when extents that share a block have equal lengths, every read that succeeds returns the bytes of the file
   as the data of the root hash has it, decompressed; or a finding is made. This holds of every list of ranges asked
   of the protected file, among them those that the reader asks for; asking for any other makes its read fail.
   */
  method ReadFile(file: DmVerityProtectedFile, requests: seq<Request>, extents: ErofsExtentMap,
                  haveLz4ZeroPadding: bool,
                  lz4: Lz4Decoder, wanted: seq<Request>, ghost g: Hashing, ghost data: seq<Bytes>)
    returns (results: seq<Option<Bytes>>, ghost blocks: seq<Bytes>, ghost f: Finding)
    requires Protects(file, g, data) && forall r :: r in requests ==> r.length > 0
    requires extents.Full() && Partition(extents.entries, extents.uncomprSize)
    requires extents.blockSize == 4096 && extents.uncomprSize < TWO64
    modifies file`blockBufferNumber, file.blockBuffer
    modifies file.verifier.Caches()`verifiedHashBlocks, file.Files()`calls, file.Files()`delivered
    ensures Protects(file, g, data) && |results| == |wanted|
    ensures f.Genuine? && SharedBlocksAgree(extents.entries) ==>
              forall i :: 0 <= i < |wanted| ==>
                IsRead(Source(Concat(data), 4096, haveLz4ZeroPadding, lz4), extents.entries, extents.uncomprSize, wanted[i], results[i])
    ensures Explains(f, g, data, file.verifier.H(), file.verifier.dataBlockCount, file.Known(), blocks)
  {
    hide Protects, Explains, Concat, IsRead, SharedBlocksAgree, Partition, Source.IsContent;
    hide ErofsInodeCompressedDataReader.Valid, ErofsInodeCompressedDataReader.ServedFrom, ErofsExtentMap.Full;
    var image;
    image, blocks, f := AsImage(file, requests, g, data);
    ghost var known := file.Known();
    var reader := new ErofsInodeCompressedDataReader(image, extents, haveLz4ZeroPadding, lz4);
    results := [];
    for i := 0 to |wanted|
      invariant reader.Valid() && |results| == i
      invariant Protects(file, g, data) && file.Known() == known
      invariant image.AnswersTruly() && SharedBlocksAgree(extents.entries) ==>
                  forall j :: 0 <= j < i ==> IsRead(reader.S(), extents.entries, extents.uncomprSize, wanted[j], results[j])
    {
      var r := ReadFrom(reader, wanted[i]);
      results := results + [r];
    }
  }

  /** A failure, or the bytes of a range inside the file. */
  ghost predicate IsRead(source: Source, extents: seq<Extent>, size: nat, request: Request, r: Option<Bytes>) {
    r.Some? ==>
      && |r.value| == request.length && request.offset < size && request.offset + request.length <= size
      && source.IsContent(extents, request.offset, r.value)
  }

  method ReadFrom(reader: ErofsInodeCompressedDataReader, request: Request) returns (r: Option<Bytes>)
    requires reader.Valid()
    modifies reader`blockBuffer, reader`lastDecompressedBlockAddr, reader`decompressedBlock, reader`keptFor
    modifies reader.file`calls
    ensures reader.Valid()
    ensures reader.file.AnswersTruly() && SharedBlocksAgree(reader.extents.entries) ==>
              IsRead(reader.S(), reader.extents.entries, reader.dataSize, request, r)
  {
    hide ErofsInodeCompressedDataReader.Valid, ErofsInodeCompressedDataReader.ServedFrom, SharedBlocksAgree;
    hide Source.IsContent;
    var buffer := new Byte[request.length];
    var ok, outside := reader.Read(buffer, request.length, request.offset);
    assert buffer[..request.length] == buffer[..];
    r := if ok then Some(buffer[..]) else None;
  }

  /** What was read is then a slice of the extents decompressed and joined. */
  lemma ReadIsSlice(source: Source, extents: seq<Extent>, size: nat, request: Request, bytes: Bytes)
    requires Partition(extents, size) && extents[0].uncomprOffset == 0 && source.Expandable(extents)
    requires IsRead(source, extents, size, request, Some(bytes))
    ensures |source.Contents(extents)| == size && bytes == Slice(source.Contents(extents), request.offset, request.length)
  {
    source.ContentIsSlice(extents, size, request.offset, bytes);
  }
}
