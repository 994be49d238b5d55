/**
 The dm-verity stack over files that hold what they should: a data file, and the hash file made for its data. They open,
 and what is read is what the data file holds.
 */
module GenuineFiles {
  import opened Bytes
  import opened Files
  import opened MerkleEvidence
  import opened ProtectedFile
  import opened TreeBuilder
  import opened Verifier
  import opened Wrappers

  /** A fixed file that holds these bytes from an offset on, with the range that is asked for inside the file. */
  ghost predicate HoldsInRange(file: File, offset: Option<nat>, size: Option<nat>, part: Bytes) {
    var from := if offset.Some? then offset.value else 0;
    && file.Steady() && ContainsAt(file.image, from, part)
    && (size.Some? ==> from + size.value <= |file.image|)
  }

  /** The range of a file that is asked for. */
  function AskedRange(image: Bytes, offset: Option<nat>, size: Option<nat>): (range: Bytes)
    requires var from := if offset.Some? then offset.value else 0;
             from <= |image| && (size.Some? ==> from + size.value <= |image|)
  {
    var from := if offset.Some? then offset.value else 0;
    if size.Some? then image[from..from + size.value] else image[from..]
  }

  lemma HoldsRange(file: File, offset: Option<nat>, size: Option<nat>, part: Bytes)
    requires HoldsInRange(file, offset, size, part)
    ensures var from := if offset.Some? then offset.value else 0;
            && file.Steady() && file.reportedSize == Some(|file.image|)
            && ContainsAt(file.image, from, part) && from + |part| <= |file.image|
            && (size.Some? ==> from + size.value <= |file.image|)
  {
  }

  /** The hash file for `data`, somewhere in the range of a fixed file, and the data itself in another. */
  ghost predicate Genuine(h: Hashing, uuid: Bytes, data: seq<Bytes>, dataFile: File, dataOffset: Option<nat>,
                          dataSize: Option<nat>,
                          hashesFile: File, hashesOffset: Option<nat>, hashesSize: Option<nat>)
  {
    && dataFile != hashesFile && |uuid| == 16 && |h.salt| <= 256
    && AllOfSize(data, 4096) && 1 <= |data| <= 0x2_0000 && h.rootHash == RootHash(h, Digests(h, data))
    && HoldsInRange(hashesFile, hashesOffset, hashesSize, HashFile(h, uuid, data))
    && (hashesSize.Some? ==> |HashFile(h, uuid, data)| <= hashesSize.value)
    && HoldsInRange(dataFile, dataOffset, dataSize, Concat(data))
    && 0 < |AskedRange(dataFile.image, dataOffset, dataSize)| <= |data| * 4096
  }

  /** Opening such files, with the range that results and every block readable. */
  method OpenGenuine(h: Hashing, ghost uuid: Bytes, ghost data: seq<Bytes>, dataFile: File, dataOffset: Option<nat>,
                     dataSize: Option<nat>, hashesFile: File, hashesOffset: Option<nat>, hashesSize: Option<nat>, directIo: bool)
    returns (r: Result<DmVerityProtectedFile, OpenError>)
    requires Genuine(h, uuid, data, dataFile, dataOffset, dataSize, hashesFile, hashesOffset, hashesSize)
    modifies hashesFile`calls, hashesFile`delivered
    ensures r.Ok? && fresh(r.value) && fresh(r.value.blockBuffer) && fresh(r.value.verifier) && fresh(r.value.verifier.Caches())
    ensures r.value.Valid() && r.value.verifier.IsOpen() && r.value.Files() == {dataFile, hashesFile}
    ensures r.value.dataFile == dataFile && r.value.directIo == directIo
    ensures r.value.fileOffset == if dataOffset.Some? then dataOffset.value else 0
    ensures r.value.fileSize == |AskedRange(dataFile.image, dataOffset, dataSize)| <= |data| * 4096
    ensures r.value.E().Steady() && r.value.E().AllReadable(0, |data|)
  {
    hide Genuine, DmVerityProtectedFile.Valid, OpenOutcome, HoldsTop, AskedRange, Env.AllReadable, File.Steady;
    hide CheckAndCalcFileRange;
    RangesAreAccepted(h, uuid, data, dataFile, dataOffset, dataSize, hashesFile, hashesOffset, hashesSize);
    HashFileIsAccepted(h, uuid, data, hashesFile.calls, dataFile, dataOffset, dataSize, hashesFile, hashesOffset, hashesSize);
    r := Open(h.sha256, dataFile, dataOffset, dataSize, hashesFile, hashesOffset, hashesSize, h.rootHash, directIo);
    BlocksAreReadable(r.value.E(), uuid, data, dataFile, dataOffset, dataSize, hashesFile, hashesOffset, hashesSize);
  }

  lemma RangesAreAccepted(h: Hashing, uuid: Bytes, data: seq<Bytes>, dataFile: File, dataOffset: Option<nat>,
                          dataSize: Option<nat>,
                          hashesFile: File, hashesOffset: Option<nat>, hashesSize: Option<nat>)
    requires Genuine(h, uuid, data, dataFile, dataOffset, dataSize, hashesFile, hashesOffset, hashesSize)
    ensures var from := if dataOffset.Some? then dataOffset.value else 0;
            && from <= |dataFile.image| && (dataSize.Some? ==> from + dataSize.value <= |dataFile.image|)
            && var range := AskedRange(dataFile.image, dataOffset, dataSize);
            && CheckAndCalcFileRange(dataFile.reportedSize, dataOffset, dataSize) == Some((from, |range|))
            && |range| <= |data| * 4096 && |data| <= 0x2_0000
    ensures var at := if hashesOffset.Some? then hashesOffset.value else 0;
            && at <= |hashesFile.image|
            && CheckAndCalcFileRange(hashesFile.reportedSize, hashesOffset, hashesSize)
               == Some((at, if hashesSize.Some? then hashesSize.value else |hashesFile.image| - at))
  {
    hide HoldsInRange, HashFile, RootHash, Concat, AllOfSize, ContainsAt;
    HoldsRange(hashesFile, hashesOffset, hashesSize, HashFile(h, uuid, data));
    HoldsRange(dataFile, dataOffset, dataSize, Concat(data));
    HashFileLength(h, uuid, data);
  }

  lemma HashFileIsAccepted(h: Hashing, uuid: Bytes, data: seq<Bytes>, calls: nat, dataFile: File,
                           dataOffset: Option<nat>,
                           dataSize: Option<nat>, hashesFile: File, hashesOffset: Option<nat>, hashesSize: Option<nat>)
    requires Genuine(h, uuid, data, dataFile, dataOffset, dataSize, hashesFile, hashesOffset, hashesSize)
    ensures var at := if hashesOffset.Some? then hashesOffset.value else 0;
            at <= |hashesFile.image| &&
            var length := if hashesSize.Some? then hashesSize.value else |hashesFile.image| - at;
            && hashesFile.Steady() && HoldsTop(Opened(h, |data|, at + 4096), hashesFile.image)
            && OpenOutcome(h.sha256, hashesFile, calls, h.rootHash, Some(at), Some(length)) == Ok(Opened(h, |data|, at + 4096))
  {
    hide HoldsInRange, HashFile, RootHash, Concat, AllOfSize, ContainsAt, OpenOutcome, OpenResult, File.Steady;
    var at := if hashesOffset.Some? then hashesOffset.value else 0;
    HoldsRange(hashesFile, hashesOffset, hashesSize, HashFile(h, uuid, data));
    var length := if hashesSize.Some? then hashesSize.value else |hashesFile.image| - at;
    SteadyOutcome(h.sha256, hashesFile, calls, h.rootHash, Some(at), Some(length));
    OpenAccepts(h, uuid, data, hashesFile.image, Some(at), Some(length));
    if |data| > 1 {
      TopBlockInPlace(h, uuid, data, hashesFile.image, at);
    }
  }

  lemma BlocksAreReadable(e: Env, uuid: Bytes, data: seq<Bytes>, dataFile: File, dataOffset: Option<nat>,
                          dataSize: Option<nat>,
                          hashesFile: File, hashesOffset: Option<nat>, hashesSize: Option<nat>)
    requires Genuine(e.state.hashing, uuid, data, dataFile, dataOffset, dataSize, hashesFile, hashesOffset, hashesSize)
    requires e.dataFile == dataFile && e.hashesFile == hashesFile
    requires e.fileOffset == if dataOffset.Some? then dataOffset.value else 0
    requires e.state == Opened(e.state.hashing, |data|, (if hashesOffset.Some? then hashesOffset.value else 0) + 4096)
    ensures e.Steady() && e.AllReadable(0, |data|)
  {
    hide HoldsInRange, HashFile, RootHash, Concat, ContainsAt, Env.AllReadable, File.Steady;
    HoldsRange(hashesFile, hashesOffset, hashesSize, HashFile(e.state.hashing, uuid, data));
    HoldsRange(dataFile, dataOffset, dataSize, Concat(data));
    GenuineFilesAreReadable(e, uuid, data, if hashesOffset.Some? then hashesOffset.value else 0);
  }

  /**
   Over files that hold the data and the hash file made for it, wherever they hold them, the protected file opens, and
   every read in any order, on either path, returns what the data file has in the range that was asked for, or fails
   outside it.
   */
  method GenuineRoundTrip(h: Hashing, ghost uuid: Bytes, ghost data: seq<Bytes>, dataFile: File,
                          dataOffset: Option<nat>,
                          dataSize: Option<nat>, hashesFile: File, hashesOffset: Option<nat>, hashesSize: Option<nat>,
                          directIo: bool, wanted: seq<(nat, nat)>)
    returns (results: seq<Option<Bytes>>)
    requires Genuine(h, uuid, data, dataFile, dataOffset, dataSize, hashesFile, hashesOffset, hashesSize)
    modifies dataFile`calls, dataFile`delivered, hashesFile`calls, hashesFile`delivered
    ensures |results| == |wanted|
    ensures var from := if dataOffset.Some? then dataOffset.value else 0;
            && from <= |dataFile.image| && (dataSize.Some? ==> from + dataSize.value <= |dataFile.image|)
            && forall i :: 0 <= i < |wanted| ==>
                 results[i] == AnswerFrom(AskedRange(dataFile.image, dataOffset, dataSize), wanted[i].0, wanted[i].1)
  {
    hide Genuine, DmVerityProtectedFile.Valid, Serves, BufferedResult, DirectResult, Env.AllReadable, Env.Steady;
    RangesAreAccepted(h, uuid, data, dataFile, dataOffset, dataSize, hashesFile, hashesOffset, hashesSize);
    hide AskedRange, CheckAndCalcFileRange;
    var outcome := OpenGenuine(h, uuid, data, dataFile, dataOffset, dataSize, hashesFile, hashesOffset, hashesSize, directIo);
    var file := outcome.value;
    ghost var e, caches := file.E(), file.verifier.Caches();
    results := [];
    for i := 0 to |wanted|
      invariant file.Valid() && |results| == i
      invariant file.verifier.IsOpen() && file.E() == e && file.verifier.Caches() == caches
      invariant forall j :: 0 <= j < i ==>
                  results[j] == AnswerFrom(AskedRange(dataFile.image, dataOffset, dataSize), wanted[j].0, wanted[j].1)
    {
      var r := ReadGenuine(file, wanted[i].0, wanted[i].1, |data|, AskedRange(dataFile.image, dataOffset, dataSize));
      results := results + [r];
    }
  }

  /** One read of a file whose blocks can all be read. */
  method ReadGenuine(file: DmVerityProtectedFile, size: nat, offset: nat, ghost blocks: nat, ghost range: Bytes)
    returns (r: Option<Bytes>)
    requires file.Valid() && file.verifier.IsOpen()
    requires file.E().Steady() && file.E().AllReadable(0, blocks) && file.fileSize == |range| <= blocks * 4096
    requires file.fileOffset + |range| <= |file.dataFile.image| && range == Slice(file.dataFile.image, file.fileOffset, |range|)
    modifies file`blockBufferNumber, file.blockBuffer
    modifies file.verifier.Caches()`verifiedHashBlocks, file.Files()`calls, file.Files()`delivered
    ensures file.Valid()
    ensures r == AnswerFrom(range, size, offset)
  {
    hide DmVerityProtectedFile.Valid, Serves, BufferedResult, DirectResult, Env.AllReadable, File.Steady;
    var buffer := new Byte[size];
    ghost var served;
    ghost var e := file.E();
    var ok;
    ok, served := file.Read(buffer, size, offset);
    ReadableMeansSuccess(e, blocks, offset, size, |range|);
    assert buffer[..size] == buffer[..];
    if ok && size > 0 {
      ServedIsFileSlice(e, file.Known(), offset / BLOCK_SIZE, served, offset % BLOCK_SIZE, buffer[..]);
      SliceOfSlice(file.dataFile.image, file.fileOffset, |range|, offset, size);
    }
    r := if ok then Some(buffer[..]) else None;
  }
}
