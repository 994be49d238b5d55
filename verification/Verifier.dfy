/**
 The userspace dm-verity verifier: it reads the superblock of a hash file, works out the layers of the tree,
 checks the top layer against the root hash, and then verifies data blocks one at a time.
 */
module Verifier {
  import opened Arithmetic
  import opened Bytes
  import opened Files
  import opened HashTree
  import opened MerkleEvidence
  import opened MerkleLayout
  import opened Wrappers

  const MAX_DATA_SIZE: nat := 512 * 1024 * 1024

  const MAX_SALT_SIZE: nat := 256

  datatype VeritySuperBlock = VeritySuperBlock(
    signature: Bytes,
    version: nat,
    hashType: nat,
    algorithm: Bytes,
    dataBlockSize: nat,
    hashBlockSize: nat,
    dataBlocks: nat,
    saltSize: nat,
    salt: Bytes
  )

  const SIGNATURE: Bytes := [0x76, 0x65, 0x72, 0x69, 0x74, 0x79, 0, 0]  // "verity\0\0"

  const ALGORITHM: Bytes := [0x73, 0x68, 0x61, 0x32, 0x35, 0x36, 0]  // "sha256\0"

  function ParseSuperBlock(block: Bytes): VeritySuperBlock
    requires |block| == BLOCK_SIZE
  {
    VeritySuperBlock(
      block[0..8],
      LE(block[8..12]),
      LE(block[12..16]),
      block[32..64],
      LE(block[64..68]),
      LE(block[68..72]),
      LE(block[72..80]),
      LE(block[80..82]),
      block[88..344])
  }

  predicate IsSupported(sb: VeritySuperBlock) {
    && sb.signature == SIGNATURE && sb.version == 1 && sb.hashType == 1
    && |sb.algorithm| >= 7 && sb.algorithm[..7] == ALGORITHM
    && sb.hashBlockSize == BLOCK_SIZE && sb.dataBlockSize == BLOCK_SIZE
    && sb.saltSize <= MAX_SALT_SIZE
  }

  datatype VerityError =
    | InvalidRootHashSize
    | FileSizeUnknown
    | OffsetOutsideFile
    | RangeOutsideFile
    | ReadFailed
    | UnsupportedSuperBlock
    | TooManyDataBlocks
    | HashesDoNotFit
    | RootHashMismatch

  // ----- the size limit ---------------------------------------------------

  /** The limit on the data size, with the 64-bit product the code computes. */
  predicate DataSizeRejected(dataBlockCount: nat) {
    dataBlockCount == 0 || (dataBlockCount * BLOCK_SIZE) % TWO64 > MAX_DATA_SIZE
  }

  /** The number of blocks whose size in bytes is 2^64. */
  const WRAP: nat := 0x10_0000_0000_0000

  const MAX_DATA_BLOCKS: nat := 0x2_0000

  lemma BytesWrap(blocks: nat)
    ensures (blocks * BLOCK_SIZE) % TWO64 == (blocks % WRAP) * BLOCK_SIZE
  {
    var high, low := blocks / WRAP, blocks % WRAP;
    assert blocks * BLOCK_SIZE == TWO64 * high + low * BLOCK_SIZE;
    Euclid(blocks * BLOCK_SIZE, TWO64, high, low * BLOCK_SIZE);
  }

  /** The test enforces the limit on exactly the counts below 2^52, and above them on those with a large remainder. */
  lemma DataSizeLimit(dataBlockCount: nat)
    ensures !DataSizeRejected(dataBlockCount) <==> dataBlockCount > 0 && dataBlockCount % WRAP <= MAX_DATA_BLOCKS
    ensures (DataSizeRejected(dataBlockCount) <==> dataBlockCount == 0 || dataBlockCount * BLOCK_SIZE > MAX_DATA_SIZE)
            <==> dataBlockCount < WRAP || dataBlockCount % WRAP > MAX_DATA_BLOCKS
  {
    BytesWrap(dataBlockCount);
  }

  /** The test that superblock and hash blocks fit, with the 64-bit product the code computes. */
  predicate HashesRejected(totalHashBlocks: nat, hashesSize: nat) {
    ((1 + totalHashBlocks) * BLOCK_SIZE) % TWO64 > hashesSize
  }

  /**
   Which counts pass both tests, and that for counts below 2^52 neither product wraps, so that those that pass keep
   both limits.
   */
  lemma BothSizeTests(n: nat, hashesSize: nat)
    requires n >= 1
    ensures var total := Total(n, HASHES_PER_BLOCK);
            && (!DataSizeRejected(n) && !HashesRejected(total, hashesSize) <==>
                  n % WRAP <= MAX_DATA_BLOCKS && (1 + total) % WRAP * BLOCK_SIZE <= hashesSize)
            && (n < WRAP ==>
                  (!DataSizeRejected(n) && !HashesRejected(total, hashesSize) <==>
                     n * BLOCK_SIZE <= MAX_DATA_SIZE && (1 + total) * BLOCK_SIZE <= hashesSize))
  {
    hide Total, Depth;
    var total := Total(n, HASHES_PER_BLOCK);
    BytesWrap(n);
    BytesWrap(1 + total);
    if n <= MAX_DATA_BLOCKS {
      TotalBound(n, HASHES_PER_BLOCK);
      DepthIsSmall(n);
    }
  }

  lemma DepthIsSmall(n: nat)
    requires 1 <= n < TWO64
    ensures Depth(n, HASHES_PER_BLOCK) <= 10
  {
    hide Pow;
    if Depth(n, HASHES_PER_BLOCK) > 10 {
      DepthIsLogarithm(n, HASHES_PER_BLOCK);
      PowGrows(HASHES_PER_BLOCK, 10, Depth(n, HASHES_PER_BLOCK) - 1);
      PowersOf128();
    }
  }

  lemma PowersOf128()
    ensures Pow(HASHES_PER_BLOCK, 10) >= TWO64
  {
    assert Pow(HASHES_PER_BLOCK, 5) == 0x8_0000_0000;
    assert Pow(HASHES_PER_BLOCK, 10) == 0x40_0000_0000_0000_0000;
  }

  lemma {:induction false} PowGrows(b: nat, i: nat, j: nat)
    requires b > 0 && i <= j
    ensures 0 < Pow(b, i) <= Pow(b, j)
    decreases j
  {
    PowPositive(b, i);
    if i < j {
      PowGrows(b, i, j - 1);
      MulOrder(Pow(b, j - 1), 0, b - 1);
    }
  }

  lemma TotalStep(n: nat, m: nat)
    requires n >= 2 && HASHES_PER_BLOCK * (m - 1) < n <= HASHES_PER_BLOCK * m
    ensures m >= 1 && Total(n, HASHES_PER_BLOCK) == m + Total(m, HASHES_PER_BLOCK)
  {
    DivRoundUpUnique(n, HASHES_PER_BLOCK, m);
  }

  /** A count of 127 * 2^52 passes both tests with no more than two blocks of hashes, because both products wrap. */
  lemma WrappedCountPasses(hashesSize: nat)
    requires hashesSize >= 2 * BLOCK_SIZE
    ensures var n := 127 * WRAP;
            && Total(n, HASHES_PER_BLOCK) == WRAP + 1
            && !DataSizeRejected(n) && !HashesRejected(Total(n, HASHES_PER_BLOCK), hashesSize)
  {
    hide Total;
    var n := 127 * WRAP;
    TotalStep(n, 127 * 0x2000_0000_0000);
    TotalStep(127 * 0x2000_0000_0000, 127 * 0x40_0000_0000);
    TotalStep(127 * 0x40_0000_0000, 127 * 0x8000_0000);
    TotalStep(127 * 0x8000_0000, 127 * 0x100_0000);
    TotalStep(127 * 0x100_0000, 127 * 0x2_0000);
    TotalStep(127 * 0x2_0000, 127 * 0x400);
    TotalStep(127 * 0x400, 127 * 8);
    TotalStep(127 * 8, 8);
    TotalStep(8, 1);
    NoHashesForOne();
    BothSizeTests(n, hashesSize);
  }

  /** The bound on the count is needed: 2032 * 2^52 blocks pass with room for the superblock alone. */
  lemma WrappedCountWithoutTop()
    ensures var n := 2032 * WRAP;
            && Total(n, HASHES_PER_BLOCK) == 16 * WRAP
            && !DataSizeRejected(n) && VerifierAcceptsSize(n, BLOCK_SIZE)
  {
    hide Total;
    var n := 2032 * WRAP;
    TotalStep(n, 2032 * 0x2000_0000_0000);
    TotalStep(2032 * 0x2000_0000_0000, 2032 * 0x40_0000_0000);
    TotalStep(2032 * 0x40_0000_0000, 2032 * 0x8000_0000);
    TotalStep(2032 * 0x8000_0000, 2032 * 0x100_0000);
    TotalStep(2032 * 0x100_0000, 2032 * 0x2_0000);
    TotalStep(2032 * 0x2_0000, 2032 * 0x400);
    TotalStep(2032 * 0x400, 2032 * 8);
    TotalStep(2032 * 8, 127);
    TotalStep(127, 1);
    NoHashesForOne();
    BothSizeTests(n, BLOCK_SIZE);
  }

  lemma NoHashesForOne()
    ensures Total(1, HASHES_PER_BLOCK) == 0
  {
  }

  /** The verifier tests the hashes' size only when there is more than one data block. */
  predicate VerifierAcceptsSize(n: nat, hashesSize: nat)
    requires n >= 1
  {
    n == 1 || !HashesRejected(Total(n, HASHES_PER_BLOCK), hashesSize)
  }

  /** The mounter asks for a superblock first and compares with what is left. */
  predicate MounterAcceptsSize(n: nat, hashesSize: nat)
    requires n >= 1
  {
    hashesSize >= BLOCK_SIZE && (Total(n, HASHES_PER_BLOCK) * BLOCK_SIZE) % TWO64 <= hashesSize - BLOCK_SIZE
  }

  /** The mounter's test of the data range, with its 64-bit product. */
  predicate MounterAcceptsData(n: nat, dataSize: FileSize) {
    (n * BLOCK_SIZE) % TWO64 <= dataSize
  }

  /**
   A count that passes either program's test of the data size is at most 2^51 above a multiple of 2^52. For such a
   count rounding up does not wrap, and counting the superblock in does not make the hashes' size wrap to zero.
   */
  lemma PassedCountsDoNotWrap(n: nat, dataSize: FileSize)
    requires 1 <= n < TWO64
    requires !DataSizeRejected(n) || MounterAcceptsData(n, dataSize)
    ensures n + (HASHES_PER_BLOCK - 1) < TWO64
    ensures (1 + Total(n, HASHES_PER_BLOCK)) % WRAP != 0
  {
    hide Total, Depth;
    var total := Total(n, HASHES_PER_BLOCK);
    BytesWrap(n);
    TotalAtLeast(n, HASHES_PER_BLOCK);
    TotalBound(n, HASHES_PER_BLOCK);
    DepthIsSmall(n);
    assert 127 * total <= n - 1 + 127 * Depth(n, HASHES_PER_BLOCK);
    var q, r := n / WRAP, n % WRAP;
    var k, m := (1 + total) / WRAP, (1 + total) % WRAP;
    if m == 0 {
      NoMultipleBetween(q, r, k);
    }
  }

  /** No multiple of 2^52 lies just above a number whose remainder is at most half of it. */
  lemma NoMultipleBetween(q: nat, r: nat, k: nat)
    requires r <= WRAP / 2
    ensures !(WRAP * q + r - 1 <= 127 * (WRAP * k - 1) <= WRAP * q + r - 1 + 1270)
  {
    if 127 * k <= q {
      assert WRAP * (127 * k) <= WRAP * q;
    } else {
      assert WRAP * (127 * k) >= WRAP * q + WRAP;
    }
  }

  /**
   For every count that passes the data test of either program, the verifier and the mounter accept the same hash
   ranges, except for a single data block in a range too small for a superblock.
   */
  lemma SizeTestsAgree(n: nat, dataSize: FileSize, hashesSize: nat)
    requires 1 <= n < TWO64 && hashesSize < TWO64
    requires !DataSizeRejected(n) || MounterAcceptsData(n, dataSize)
    ensures (VerifierAcceptsSize(n, hashesSize) <==> MounterAcceptsSize(n, hashesSize)) <==> (n == 1 ==>
              hashesSize >= BLOCK_SIZE)
  {
    hide Total;
    var total := Total(n, HASHES_PER_BLOCK);
    PassedCountsDoNotWrap(n, dataSize);
    BytesWrap(total);
    BytesWrap(1 + total);
    NextRemainder(total);
    if n == 1 {
      NoHashesForOne();
    }
  }

  /** The exception: a single data block needs no hashes, and only the mounter asks that the range hold a superblock. */
  lemma SmallRangeForOneBlock(hashesSize: nat)
    requires hashesSize < BLOCK_SIZE
    ensures !DataSizeRejected(1) && VerifierAcceptsSize(1, hashesSize) && !MounterAcceptsSize(1, hashesSize)
  {
  }

  lemma NextRemainder(x: nat)
    ensures (1 + x) % WRAP == if x % WRAP == WRAP - 1 then 0 else x % WRAP + 1
  {
    var q, r := x / WRAP, x % WRAP;
    if r == WRAP - 1 {
      Euclid(1 + x, WRAP, q + 1, 0);
    } else {
      Euclid(1 + x, WRAP, q, r + 1);
    }
  }

  // ----- what open and verify compute over a fixed file --------------------

  /** The offset, a 64-bit number, of the layer that lies below the tree over `above` blocks. */
  function LayerOffset(base: nat, above: nat): nat
    requires above >= 1
  {
    (base + Total(above, HASHES_PER_BLOCK) * BLOCK_SIZE) % TWO64
  }

  /** Bottom layer first; `base` is the offset of the top layer. */
  function Places(base: nat, dataBlocks: nat): (places: seq<LayerPlace>)
    requires dataBlocks >= 1
    ensures |places| == Depth(dataBlocks, HASHES_PER_BLOCK)
    decreases dataBlocks
  {
    if dataBlocks == 1 then [] else
      DivRoundUpShrinks(dataBlocks, HASHES_PER_BLOCK);
      var above := DivRoundUp(dataBlocks, HASHES_PER_BLOCK);
      [LayerPlace(LayerOffset(base, above), dataBlocks)] + Places(base, above)
  }

  lemma SingleIsValid(h: Hashing, file: File)
    ensures SingleDataBlock(h.rootHash).Valid(h, file, file.delivered)
    ensures SingleDataBlock(h.rootHash).Places() == []
    ensures forall base: nat :: Places(base, 1) == []
  {
  }

  lemma InnerIsValid(node: HashTreeLayer, h: Hashing, file: File)
    ensures node.Valid(h, file, file.delivered) ==> Inner(node).Valid(h, file, file.delivered)
  {
  }

  /** Neighbouring layers, counted from the top. */
  lemma TopDown(dataBlocks: nat, i: nat)
    requires dataBlocks >= 2 && i < |Layers(dataBlocks, HASHES_PER_BLOCK)|
    ensures var details := Reverse(Layers(dataBlocks, HASHES_PER_BLOCK));
            && details[i].dataBlocks >= 2
            && details[i].hashBlocks == DivRoundUp(details[i].dataBlocks, HASHES_PER_BLOCK) >= 1
            && (i == 0 ==> details[i].hashBlocks == 1)
            && (i > 0 ==> details[i].hashBlocks == details[i - 1].dataBlocks)
            && (i > 0 ==> details[i - 1].dataBlocks >= 2)
            && (i > 0 ==> details[i - 1].hashBlocks == DivRoundUp(details[i - 1].dataBlocks, HASHES_PER_BLOCK) >= 1)
            && (i == |details| - 1 ==> details[i].dataBlocks == dataBlocks)
  {
    LayersChain(dataBlocks, HASHES_PER_BLOCK);
    var layers := Layers(dataBlocks, HASHES_PER_BLOCK);
    var j := |layers| - 1 - i;
    DivRoundUpShrinks(layers[j].dataBlocks, HASHES_PER_BLOCK);
    if i > 0 {
      assert layers[j].hashBlocks == layers[j + 1].dataBlocks;
      DivRoundUpShrinks(layers[j + 1].dataBlocks, HASHES_PER_BLOCK);
    }
  }

  lemma TopPlace(base: nat, dataBlocks: nat)
    requires dataBlocks >= 2 && DivRoundUp(dataBlocks, HASHES_PER_BLOCK) == 1 && base < TWO64
    ensures LayerOffset(base, 1) == base
    ensures dataBlocks <= HASHES_PER_BLOCK
    ensures Places(base, dataBlocks) == [LayerPlace(base, dataBlocks)]
  {
    assert Places(base, 1) == [];
  }

  lemma PlacesStep(base: nat, details: LayerDetails)
    requires details.dataBlocks >= 2 && details.hashBlocks == DivRoundUp(details.dataBlocks, HASHES_PER_BLOCK) >= 2
    ensures Places(base, details.dataBlocks) ==
            [LayerPlace(LayerOffset(base, details.hashBlocks), details.dataBlocks)]
              + Places(base, details.hashBlocks)
    ensures Places(base, details.hashBlocks) != []
    ensures Places(base, details.hashBlocks)[0].hashesCount == details.hashBlocks
  {
  }

  /** A layer starts where the one above it ends. */
  lemma NextPlace(base: nat, upper: LayerDetails, lower: LayerDetails)
    requires upper.dataBlocks >= 2 && upper.hashBlocks == DivRoundUp(upper.dataBlocks, HASHES_PER_BLOCK) >= 1
    requires lower.dataBlocks >= 2 && lower.hashBlocks == DivRoundUp(lower.dataBlocks, HASHES_PER_BLOCK)
    requires lower.hashBlocks == upper.dataBlocks
    ensures LayerOffset(base, lower.hashBlocks) == (LayerOffset(base, upper.hashBlocks) + upper.hashBlocks * BLOCK_SIZE) % TWO64
  {
    var before := base + Total(upper.hashBlocks, HASHES_PER_BLOCK) * BLOCK_SIZE;
    assert Total(lower.hashBlocks, HASHES_PER_BLOCK) == upper.hashBlocks + Total(upper.hashBlocks, HASHES_PER_BLOCK);
    AddWraps(before, upper.hashBlocks * BLOCK_SIZE);
  }

  lemma AddWraps(x: nat, y: nat)
    ensures (x % TWO64 + y) % TWO64 == (x + y) % TWO64
  {
    var q, r := x / TWO64, x % TWO64;
    var q', r' := (r + y) / TWO64, (r + y) % TWO64;
    assert x + y == TWO64 * (q + q') + r';
    Euclid(x + y, TWO64, q + q', r');
  }

  /** The state that a successful open leaves behind. */
  datatype Opened = Opened(hashing: Hashing, dataBlockCount: nat, base: nat)

  function CheckRange(fileSize: nat, offset: Option<nat>, size: Option<nat>): Result<(nat, nat), VerityError> {
    var actualOffset := match offset case None => 0 case Some(o) => o;
    if actualOffset > fileSize then Err(OffsetOutsideFile) else
      var actualSize := match size case None => fileSize - actualOffset case Some(s) => s;
      if actualSize > fileSize - actualOffset then Err(RangeOutsideFile) else Ok((actualOffset, actualSize))
  }

  predicate IsWhole(read: Option<Bytes>) {
    read.Some? && |read.value| == BLOCK_SIZE
  }

  /** The digest of the top hash block; it stays all zeros when the block cannot be read. */
  function TopDigest(h: Hashing, read: Option<Bytes>): Digest {
    if IsWhole(read) then h.Digest(read.value) else Zeros(DIGEST_SIZE)
  }

  /** What comes of the two reads that opening makes: the superblock, and the hash block of the top layer. */
  function SuperBlockResult(sha256: (Bytes, Bytes) -> Digest, rootHash: Digest, hashesOffset: nat, hashesSize: nat,
                            first: Option<Bytes>, second: Option<Bytes>): Result<Opened, VerityError>
  {
    if !IsWhole(first) then Err(ReadFailed) else
    var sb := ParseSuperBlock(first.value);
    if !IsSupported(sb) then Err(UnsupportedSuperBlock) else
    if DataSizeRejected(sb.dataBlocks) then Err(TooManyDataBlocks) else
    var hashing := Hashing(sha256, sb.salt[..sb.saltSize], rootHash);
    var base := hashesOffset + BLOCK_SIZE;
    if sb.dataBlocks == 1 then Ok(Opened(hashing, 1, base)) else
    if HashesRejected(Total(sb.dataBlocks, HASHES_PER_BLOCK), hashesSize) then Err(HashesDoNotFit) else
    if TopDigest(hashing, second) != rootHash then Err(RootHashMismatch) else
    Ok(Opened(hashing, sb.dataBlocks, base))
  }

  /** The result of opening a hash file that has answered `calls` reads before. */
  function OpenOutcome(sha256: (Bytes, Bytes) -> Digest, file: File, calls: nat, rootHash: Bytes, offset: Option<nat>,
                       size: Option<nat>): Result<Opened, VerityError>
  {
    if |rootHash| != DIGEST_SIZE then Err(InvalidRootHashSize) else
    if file.reportedSize.None? then Err(FileSizeUnknown) else
    match CheckRange(file.reportedSize.value, offset, size)
    case Err(e) => Err(e)
    case Ok((hashesOffset, hashesSize)) =>
      SuperBlockResult(sha256, rootHash, hashesOffset, hashesSize,
                       file.Answer(calls, BLOCK_SIZE, hashesOffset), file.Answer(calls + 1, BLOCK_SIZE, hashesOffset + BLOCK_SIZE))
  }

  /** The result of opening a fixed hash file. */
  function OpenResult(sha256: (Bytes, Bytes) -> Digest, image: Image, rootHash: Bytes, offset: Option<nat>,
                      size: Option<nat>)
    : Result<Opened, VerityError>
  {
    if |rootHash| != DIGEST_SIZE then Err(InvalidRootHashSize) else
    match CheckRange(|image|, offset, size)
    case Err(e) => Err(e)
    case Ok((hashesOffset, hashesSize)) =>
      SuperBlockResult(sha256, rootHash, hashesOffset, hashesSize,
                       Some(ReadAt(image, hashesOffset, BLOCK_SIZE)), Some(ReadAt(image, hashesOffset + BLOCK_SIZE, BLOCK_SIZE)))
  }

  lemma SteadyOutcome(sha256: (Bytes, Bytes) -> Digest, file: File, calls: nat, rootHash: Bytes, offset: Option<nat>,
                      size: Option<nat>)
    requires file.Steady()
    ensures OpenOutcome(sha256, file, calls, rootHash, offset, size) == OpenResult(sha256, file.image, rootHash, offset, size)
  {
    hide File.Answer, SuperBlockResult, File.Steady;
    var range := CheckRange(|file.image|, offset, size);
    SteadySize(file);
    if range.Ok? {
      file.SteadyAnswer(calls, BLOCK_SIZE, range.value.0);
      file.SteadyAnswer(calls + 1, BLOCK_SIZE, range.value.0 + BLOCK_SIZE);
    }
  }

  // ----- what opening a fixed file comes to, from its bytes ----------------

  /** A superblock for SHA-256 and blocks of 4096 bytes, of version 1 and hash type 1, with at most 256 bytes of salt. */
  predicate HoldsSuperBlock(image: Bytes, at: nat)
    requires at + 4096 <= |image|
  {
    && image[at..at + 8] == Ascii("verity\0\0")
    && image[at + 8..at + 16] == [1, 0, 0, 0, 1, 0, 0, 0]
    && image[at + 32..at + 39] == Ascii("sha256\0")
    && image[at + 64..at + 72] == [0, 0x10, 0, 0, 0, 0x10, 0, 0]
    && LE(image[at + 80..at + 82]) <= 256
  }

  function BlocksDeclared(image: Bytes, at: nat): nat
    requires at + 4096 <= |image|
  {
    LE(image[at + 72..at + 80])
  }

  function SaltDeclared(image: Bytes, at: nat): Bytes
    requires at + 4096 <= |image| && LE(image[at + 80..at + 82]) <= 256
  {
    image[at + 88..at + 88 + LE(image[at + 80..at + 82])]
  }

  /** The digest of the block after the superblock, or zeros where the file does not hold it. */
  function TopOf(sha256: (Bytes, Bytes) -> Digest, image: Bytes, at: nat): Digest
    requires at + 4096 <= |image| && LE(image[at + 80..at + 82]) <= 256
  {
    if at + 8192 <= |image| then sha256(image[at + 4096..at + 8192], SaltDeclared(image, at)) else Zeros(32)
  }

  /**
   Every outcome of opening a fixed file, by what the file holds at the offset that was asked for, or at its start; the
   size that was asked for, or the rest of the file, has to hold the tree.
   */
  lemma OpenCauses(sha256: (Bytes, Bytes) -> Digest, image: Image, rootHash: Bytes, offset: Option<nat>,
                   size: Option<nat>)
    ensures var r := OpenResult(sha256, image, rootHash, offset, size);
            var at := if offset.Some? then offset.value else 0;
            && (r == Err(InvalidRootHashSize) <==> |rootHash| != 32)
            && (r == Err(OffsetOutsideFile) <==> |rootHash| == 32 && at > |image|)
            && (r == Err(RangeOutsideFile) <==>
                |rootHash| == 32 && at <= |image| && size.Some? && at + size.value > |image|)
            && (r == Err(ReadFailed) <==> InsideFile(image, rootHash, at, size) && at + 4096 > |image|)
            && (r == Err(UnsupportedSuperBlock) <==>
                  InsideFile(image, rootHash, at, size) && at + 4096 <= |image| && !HoldsSuperBlock(image, at))
            && r != Err(FileSizeUnknown)
    ensures var r := OpenResult(sha256, image, rootHash, offset, size);
            var at := if offset.Some? then offset.value else 0;
            if !(InsideFile(image, rootHash, at, size) && at + 4096 <= |image| && HoldsSuperBlock(image, at)) then r.Err? else
            var length := if size.Some? then size.value else |image| - at;
            var n, salt := BlocksDeclared(image, at), SaltDeclared(image, at);
            var counts := n > 0 && n % 0x10_0000_0000_0000 <= 0x2_0000;
            var fits := n <= 1 || (1 + Total(n, 128)) % 0x10_0000_0000_0000 * 4096 <= length;
            var matches := n == 1 || TopOf(sha256, image, at) == rootHash;
            && (r == Err(TooManyDataBlocks) <==> !counts)
            && (r == Err(HashesDoNotFit) <==> counts && !fits)
            && (r == Err(RootHashMismatch) <==> counts && fits && !matches)
            && (r.Ok? <==> counts && fits && matches)
            && (r.Ok? ==> r.value == Opened(Hashing(sha256, salt, rootHash), n, at + 4096))
  {
    hide LE, Total, HoldsSuperBlock, IsSupported, ParseSuperBlock, SaltDeclared;
    var at := if offset.Some? then offset.value else 0;
    if InsideFile(image, rootHash, at, size) && at + 4096 <= |image| {
      SupportedMeansHolds(image, at);
      if HoldsSuperBlock(image, at) {
        SaltFits(image, at);
        var n := BlocksDeclared(image, at);
        BytesWrap(n);
        if n > 0 {
          BytesWrap(1 + Total(n, HASHES_PER_BLOCK));
        }
      }
    }
  }

  /** Over any file: what is wrong with the arguments, and where the superblock is read and the layers are placed. */
  lemma RangeCauses(sha256: (Bytes, Bytes) -> Digest, file: File, calls: nat, rootHash: Bytes, offset: Option<nat>,
                    size: Option<nat>)
    ensures var r := OpenOutcome(sha256, file, calls, rootHash, offset, size);
            var at := if offset.Some? then offset.value else 0;
            && (r == Err(InvalidRootHashSize) <==> |rootHash| != 32)
            && (r == Err(FileSizeUnknown) <==> |rootHash| == 32 && file.reportedSize.None?)
            && (r == Err(OffsetOutsideFile) <==>
                |rootHash| == 32 && file.reportedSize.Some? && at > file.reportedSize.value)
            && (r == Err(RangeOutsideFile) <==>
                  |rootHash| == 32 && size.Some? && file.reportedSize.Some? && at <= file.reportedSize.value < at + size.value)
            && (r == Err(ReadFailed) <==>
                  && |rootHash| == 32 && file.reportedSize.Some? && at <= file.reportedSize.value
                  && (size.Some? ==> at + size.value <= file.reportedSize.value)
                  && !IsWhole(file.Answer(calls, 4096, at)))
            && (r.Ok? ==> r.value.base == at + 4096)
  {
    hide ParseSuperBlock, IsSupported, DataSizeRejected, HashesRejected, Total, File.Answer, TopDigest;
  }

  predicate InsideFile(image: Bytes, rootHash: Bytes, at: nat, size: Option<nat>) {
    |rootHash| == 32 && at <= |image| && (size.Some? ==> at + size.value <= |image|)
  }

  lemma SaltFits(image: Bytes, at: nat)
    requires at + 4096 <= |image| && HoldsSuperBlock(image, at)
    ensures LE(image[at + 80..at + 82]) <= 256
  {
  }

  lemma LittleEndianConstants()
    ensures LE([1, 0, 0, 0]) == 1 && LE([0, 0x10, 0, 0]) == 4096
  {
    assert [1, 0, 0, 0][1..] == [0, 0, 0] && [0, 0, 0][1..] == [0, 0] && [0, 0][1..] == [0] && [0][1..] == [];
    assert [0, 0x10, 0, 0][1..] == [0x10, 0, 0] && [0x10, 0, 0][1..] == [0, 0];
  }

  lemma Is32Bit(bytes: Bytes, n: nat, written: Bytes)
    requires |bytes| == |written| && LE(written) == n
    ensures LE(bytes) == n <==> bytes == written
  {
    if LE(bytes) == n {
      LEInjective(bytes, written);
    }
  }

  lemma SupportedMeansHolds(image: Bytes, at: nat)
    requires at + 4096 <= |image|
    ensures var sb := ParseSuperBlock(Slice(image, at, BLOCK_SIZE));
            && (IsSupported(sb) <==> HoldsSuperBlock(image, at))
            && sb.dataBlocks == BlocksDeclared(image, at)
            && (IsSupported(sb) ==> sb.salt[..sb.saltSize] == SaltDeclared(image, at))
  {
    hide LE;
    var block := Slice(image, at, BLOCK_SIZE);
    LittleEndianConstants();
    FieldsInPlace(image, at, block);
    var sb := ParseSuperBlock(block);
    assert sb.signature == image[at..at + 8] && sb.algorithm[..7] == image[at + 32..at + 39] by {
      assert block[0..8] == image[at + 0..at + 8];
      assert block[32..64][..7] == block[32..39] == image[at + 32..at + 39];
    }
    assert block[8..12] == image[at + 8..at + 12] && block[12..16] == image[at + 12..at + 16];
    assert block[64..68] == image[at + 64..at + 68] && block[68..72] == image[at + 68..at + 72];
    assert block[72..80] == image[at + 72..at + 80] && block[80..82] == image[at + 80..at + 82];
    assert sb.saltSize <= 256 ==> sb.salt[..sb.saltSize] == image[at + 88..at + 88 + sb.saltSize] by {
      if sb.saltSize <= 256 {
        assert block[88..344][..sb.saltSize] == block[88..88 + sb.saltSize] == image[at + 88..at + (88 + sb.saltSize)];
      }
    }
    Is32Bit(image[at + 8..at + 12], 1, [1, 0, 0, 0]);
    Is32Bit(image[at + 12..at + 16], 1, [1, 0, 0, 0]);
    Is32Bit(image[at + 64..at + 68], 4096, [0, 0x10, 0, 0]);
    Is32Bit(image[at + 68..at + 72], 4096, [0, 0x10, 0, 0]);
    TwoHalves(image, at + 8, [1, 0, 0, 0], [1, 0, 0, 0]);
    TwoHalves(image, at + 64, [0, 0x10, 0, 0], [0, 0x10, 0, 0]);
    assert [1, 0, 0, 0] + [1, 0, 0, 0] == [1, 0, 0, 0, 1, 0, 0, 0];
    assert [0, 0x10, 0, 0] + [0, 0x10, 0, 0] == [0, 0x10, 0, 0, 0, 0x10, 0, 0];
    Signatures();
  }

  lemma Signatures()
    ensures Ascii("verity\0\0") == SIGNATURE && Ascii("sha256\0") == ALGORITHM
  {
  }

  lemma TwoHalves(image: Bytes, at: nat, a: Bytes, b: Bytes)
    requires |a| == |b| == 4 && at + 8 <= |image|
    ensures image[at..at + 8] == a + b <==> image[at..at + 4] == a && image[at + 4..at + 8] == b
  {
    var whole := image[at..at + 8];
    assert whole == image[at..at + 4] + image[at + 4..at + 8];
    assert image[at..at + 4] == whole[..4] && image[at + 4..at + 8] == whole[4..];
    assert (a + b)[..4] == a && (a + b)[4..] == b;
  }

  lemma FieldsInPlace(image: Bytes, at: nat, block: Bytes)
    requires at + 4096 <= |image| && block == Slice(image, at, 4096)
    ensures forall i, j :: 0 <= i <= j <= 4096 ==> block[i..j] == image[at + i..at + j]
  {
    forall i, j | 0 <= i <= j <= 4096
      ensures block[i..j] == image[at + i..at + j]
    {
      SliceOfSlice(image, at, 4096, i, j - i);
    }
  }

  /** Over a fixed file a block is read whole exactly when it is there. */
  lemma SteadyWhole(file: File, n: nat, offset: nat)
    requires file.Steady()
    ensures IsWhole(file.Answer(n, BLOCK_SIZE, offset)) <==> InRange(file.image, offset, BLOCK_SIZE)
  {
    hide File.Answer, File.Steady;
    file.SteadyAnswer(n, BLOCK_SIZE, offset);
  }

  lemma SteadySize(file: File)
    requires file.Steady()
    ensures file.reportedSize == Some(|file.image|)
  {
  }

  /** The file holds the top hash block, if there is one. */
  predicate HoldsTop(o: Opened, image: Image) {
    o.dataBlockCount == 1 || InRange(image, o.base, BLOCK_SIZE)
  }

  /** Only a count of 2^52 blocks or more, whose size wraps, lets a file pass that does not hold the top block. */
  lemma FitsMeansHoldsTop(n: nat, hashesOffset: nat, hashesSize: nat, image: Image, h: Hashing)
    requires 1 <= n < WRAP && !DataSizeRejected(n) && VerifierAcceptsSize(n, hashesSize)
    requires hashesOffset + hashesSize <= |image|
    ensures HoldsTop(Opened(h, n, hashesOffset + BLOCK_SIZE), image)
  {
    BothSizeTests(n, hashesSize);
    if n > 1 {
      TotalPositive(n);
    }
  }

  lemma TotalPositive(n: nat)
    requires n >= 2
    ensures Total(n, HASHES_PER_BLOCK) >= 1
  {
    DivRoundUpShrinks(n, HASHES_PER_BLOCK);
  }

  /** The answer for one data block over a fixed hash file, by a walk that keeps nothing in memory. */
  predicate VerifyResult(o: Opened, image: Image, block: nat, data: Bytes) {
    && o.dataBlockCount >= 1
    && block < o.dataBlockCount
    && Walk(o.hashing, image, Places(o.base, o.dataBlockCount), block, o.hashing.Digest(data))
  }

  // ----- the verifier -----------------------------------------------------

  class DmVerityVerifier {
    const sha256: (Bytes, Bytes) -> Digest

    var rootHash: Digest

    var hashesFile: File?

    var hashesOffset: nat

    var dataBlockCount: nat

    var salt: Bytes

    var layer0: Option<Layer>

    constructor (sha256: (Bytes, Bytes) -> Digest)
      ensures this.sha256 == sha256
      ensures layer0 == None && hashesFile == null
      ensures Valid()
    {
      this.sha256 := sha256;
      rootHash, salt := Zeros(DIGEST_SIZE), [];
      hashesFile, hashesOffset, dataBlockCount := null, 0, 0;
      layer0 := None;
    }

    function H(): Hashing
      reads this
    {
      Hashing(sha256, salt, rootHash)
    }

    /** What `Open` established, in terms of `OpenResult`. */
    function State(): Opened
      reads this
    {
      Opened(H(), dataBlockCount, hashesOffset + BLOCK_SIZE)
    }

    ghost function Caches(): set<HashTreeLayer>
      reads this
    {
      if layer0.Some? then layer0.value.Repr() else {}
    }

    ghost function OpenFile(): set<File>
      reads this
    {
      if hashesFile != null then {hashesFile} else {}
    }

    ghost predicate IsOpen()
      reads this
    {
      layer0.Some? && hashesFile != null
    }

    /** The hash block of the top layer has been read, or there is none. */
    ghost predicate TopWasRead()
      reads this
    {
      layer0.Some? && layer0.value.TopRead()
    }

    /** Either nothing has been opened, or the layers are those of the tree and are in good order. */
    ghost predicate Valid()
      reads this, hashesFile, Caches()
    {
      layer0.Some? ==>
        && hashesFile != null
        && dataBlockCount >= 1
        && layer0.value.Places() == Places(hashesOffset + BLOCK_SIZE, dataBlockCount)
        && layer0.value.Valid(H(), hashesFile, hashesFile.delivered)
    }

    /** The verifier has a chain of hash blocks, read from its file, from this block to the root hash. */
    ghost predicate Vouches(block: nat, data: Bytes)
      reads this, hashesFile
    {
      && hashesFile != null
      && block < dataBlockCount
      && Attested(H(), Depth(dataBlockCount, HASHES_PER_BLOCK), hashesFile.delivered, block, H().Digest(data))
    }

    /** An outcome is the one defined, and success leaves the state defined. */
    ghost predicate Is<T>(r: Result<T, VerityError>, defined: Result<Opened, VerityError>)
      reads this
    {
      match defined
      case Err(e) => r == Err(e)
      case Ok(state) => r.Ok? && State() == state
    }

    method Open(file: File, rootHash: Bytes, offset: Option<nat>, size: Option<nat>) returns (r: Result<(),
                VerityError>)
      requires layer0 == None && Valid()
      modifies this, file`calls, file`delivered
      ensures r.Err? ==> layer0 == None
      ensures r.Ok? ==> IsOpen() && hashesFile == file && this.rootHash == rootHash && fresh(Caches())
      // A failed read of the top hash block spoils the layers, and it goes unnoticed only when the root hash is all zeros
      ensures r.Ok? ==> (Valid() <==> TopWasRead())
      ensures r.Ok? && rootHash != Zeros(DIGEST_SIZE) ==> TopWasRead()
      ensures r.Ok? ==>
                (TopWasRead() <==> dataBlockCount == 1 || IsWhole(file.Answer(old(file.calls) + 1, BLOCK_SIZE, hashesOffset + BLOCK_SIZE)))
      ensures Is(r, OpenOutcome(sha256, file, old(file.calls), rootHash, offset, size))
      ensures r == Err(OffsetOutsideFile) <==>
                && |rootHash| == 32 && file.reportedSize.Some? && offset.Some? && offset.value > file.reportedSize.value
      ensures r.Ok? ==> hashesOffset == if offset.Some? then offset.value else 0
      ensures file.Steady() ==>
                && Is(r, OpenResult(sha256, file.image, rootHash, offset, size))
                && (r.Ok? ==> (TopWasRead() <==> HoldsTop(State(), file.image)))
    {
      hide SuperBlockResult, OpenResult, Layer.Valid, File.Answer, File.Steady, IsWhole, Places;
      RangeCauses(sha256, file, file.calls, rootHash, offset, size);
      if file.Steady() {
        SteadyOutcome(sha256, file, file.calls, rootHash, offset, size);
      }
      if |rootHash| != DIGEST_SIZE {
        return Err(InvalidRootHashSize);
      }
      this.rootHash := rootHash;
      if file.reportedSize.None? {
        return Err(FileSizeUnknown);
      }
      var range := CheckRange(file.reportedSize.value, offset, size);
      if range.Err? {
        return Err(range.error);
      }
      hashesOffset := range.value.0;
      var parsed := ParseDmVeritySuperBlock(file, range.value.1);
      if parsed.Err? {
        return Err(parsed.error);
      }
      ghost var h := H();
      if file.Steady() {
        SteadyWhole(file, old(file.calls) + 1, hashesOffset + BLOCK_SIZE);
      }
      hashesFile, layer0 := file, Some(parsed.value);
      r := Ok(());
      assert H() == h;
      assert layer0.value.Valid(H(), file, file.delivered) <==> layer0.value.TopRead();
    }

    method ParseDmVeritySuperBlock(file: File, hashesSize: nat) returns (r: Result<Layer, VerityError>)
      requires file.reportedSize.Some? && hashesOffset + hashesSize <= file.reportedSize.value
      modifies this`dataBlockCount, this`salt, file`calls, file`delivered
      ensures r.Ok? ==> dataBlockCount >= 1 && r.value.Places() == Places(hashesOffset + BLOCK_SIZE, dataBlockCount)
      ensures r.Ok? ==> fresh(r.value.Repr())
      ensures r.Ok? ==> (r.value.Valid(H(), file, file.delivered) <==> r.value.TopRead())
      ensures r.Ok? && rootHash != Zeros(DIGEST_SIZE) ==> r.value.TopRead()
      ensures var first := file.Answer(old(file.calls), BLOCK_SIZE, hashesOffset);
              var second := file.Answer(old(file.calls) + 1, BLOCK_SIZE, hashesOffset + BLOCK_SIZE);
              && Is(r, SuperBlockResult(sha256, rootHash, hashesOffset, hashesSize, first, second))
              && (r.Ok? ==> (r.value.TopRead() <==> dataBlockCount == 1 || IsWhole(second)))
    {
      hide Layer.Valid;
      hide Places;
      hide Total;
      hide Layers;
      var read := file.PRead(BLOCK_SIZE, hashesOffset);
      if read.None? || |read.value| != BLOCK_SIZE {
        return Err(ReadFailed);
      }
      var superBlock := ParseSuperBlock(read.value);
      if !IsSupported(superBlock) {
        return Err(UnsupportedSuperBlock);
      }
      dataBlockCount := superBlock.dataBlocks;
      if DataSizeRejected(dataBlockCount) {
        return Err(TooManyDataBlocks);
      }
      salt := superBlock.salt[..superBlock.saltSize];

      if dataBlockCount == 1 {
        r := Ok(SingleDataBlock(rootHash));
        SingleIsValid(H(), file);
        return;
      }
      var layerDetails, totalHashBlocks := ComputeLayers(dataBlockCount, HASHES_PER_BLOCK);
      if HashesRejected(totalHashBlocks, hashesSize) {
        return Err(HashesDoNotFit);
      }
      TotalPositive(dataBlockCount);
      r := BuildLayers(file, layerDetails);
    }

    method BuildLayers(file: File, layerDetails: seq<LayerDetails>) returns (r: Result<Layer, VerityError>)
      requires dataBlockCount >= 2 && hashesOffset + BLOCK_SIZE < TWO64
      requires layerDetails == Reverse(Layers(dataBlockCount, HASHES_PER_BLOCK))
      modifies file`calls, file`delivered
      ensures r.Ok? ==> r.value.Places() == Places(hashesOffset + BLOCK_SIZE, dataBlockCount)
      ensures r.Ok? ==> fresh(r.value.Repr())
      ensures r.Ok? ==> (r.value.Valid(H(), file, file.delivered) <==> r.value.TopRead())
      ensures r.Ok? && rootHash != Zeros(DIGEST_SIZE) ==> r.value.TopRead()
      ensures r.Err? ==> r.error == RootHashMismatch
      ensures var read := file.Answer(old(file.calls), BLOCK_SIZE, hashesOffset + BLOCK_SIZE);
              && (r.Ok? <==> TopDigest(H(), read) == rootHash)
              && (r.Ok? ==> r.value.TopRead() == IsWhole(read))
    {
      hide Layer.Valid;
      hide Layers;
      hide Places;
      hide DivRoundUp;
      TopDown(dataBlockCount, 0);
      var layerOffset := hashesOffset + BLOCK_SIZE;
      var layer, digest := ReadTopMost(file, layerOffset, layerDetails[0].dataBlocks);
      if digest != rootHash {
        return Err(RootHashMismatch);
      }
      TopPlace(layerOffset, layerDetails[0].dataBlocks);
      layer := AddInnerLayers(file, layerDetails, layer, H());
      if layer.Valid(H(), file, file.delivered) {
        ValidIsRead(layer, H(), file, file.delivered);
      }
      r := Ok(layer);
    }

    /** Goes through the layers below the top one, from the top down. */
    method AddInnerLayers(file: File, layerDetails: seq<LayerDetails>, top: Layer,
                          ghost h: Hashing) returns (layer: Layer)
      requires h == H() && dataBlockCount >= 2 && hashesOffset + BLOCK_SIZE < TWO64
      requires layerDetails == Reverse(Layers(dataBlockCount, HASHES_PER_BLOCK))
      requires layerDetails[0].dataBlocks >= 2
      requires top.Places() == Places(hashesOffset + BLOCK_SIZE, layerDetails[0].dataBlocks) && top.Repr() == {}
      ensures layer.Places() == Places(hashesOffset + BLOCK_SIZE, dataBlockCount)
      ensures fresh(layer.Repr())
      ensures top.Valid(h, file, file.delivered) ==> layer.Valid(h, file, file.delivered)
      ensures layer.TopRead() == top.TopRead()
    {
      hide Layer.Valid;
      hide Layers;
      hide Total;
      hide Places;
      hide Reverse;
      hide DivRoundUp;
      ghost var base := hashesOffset + BLOCK_SIZE;
      TopDown(dataBlockCount, 0);
      TopPlace(base, layerDetails[0].dataBlocks);
      var layerOffset := hashesOffset + BLOCK_SIZE;
      layer := top;
      for i := 1 to |layerDetails|
        invariant layerDetails[i - 1].dataBlocks >= 2 && layerDetails[i - 1].hashBlocks >= 1
        invariant layer.Places() == Places(base, layerDetails[i - 1].dataBlocks)
        invariant layerOffset == LayerOffset(base, layerDetails[i - 1].hashBlocks)
        invariant fresh(layer.Repr()) && layer.TopRead() == top.TopRead()
        invariant top.Valid(h, file, file.delivered) ==> layer.Valid(h, file, file.delivered)
      {
        TopDown(dataBlockCount, i);
        NextPlace(base, layerDetails[i - 1], layerDetails[i]);
        layerOffset := (layerOffset + layerDetails[i - 1].hashBlocks * BLOCK_SIZE) % TWO64;
        layer := NewLayer(layer, file, layerOffset, layerDetails[i], h, base);
      }
      TopDown(dataBlockCount, |layerDetails| - 1);
    }

    method NewLayer(parent: Layer, file: File, fileOffset: nat, details: LayerDetails, ghost h: Hashing,
                    ghost base: nat)
      returns (layer: Layer)
      requires h == H()
      requires details.dataBlocks >= 2 && details.hashBlocks >= 2
      requires details.hashBlocks == DivRoundUp(details.dataBlocks, HASHES_PER_BLOCK)
      requires parent.Places() == Places(base, details.hashBlocks)
      requires fileOffset == LayerOffset(base, details.hashBlocks)
      ensures layer.Places() == Places(base, details.dataBlocks)
      ensures fresh(layer.Repr() - parent.Repr())
      ensures parent.Valid(h, file, file.delivered) ==> layer.Valid(h, file, file.delivered)
      ensures layer.TopRead() == parent.TopRead()
    {
      hide Layer.Valid;
      hide HashTreeLayer.Valid;
      hide Total;
      hide Places;
      hide DivRoundUp;
      PlacesStep(base, details);
      var node := new HashTreeLayer(parent, file, fileOffset, details.dataBlocks, sha256, salt, h);
      layer := Inner(node);
      InnerIsValid(node, h, file);
    }

    /** Reads the single hash block of the top layer. When that fails the digest stays all zeros. */
    method ReadTopMost(file: File, fileOffset: nat, dataBlocks: nat) returns (layer: Layer, digest: Digest)
      modifies file`calls, file`delivered
      ensures layer.TopMost? && layer.fileOffset == fileOffset && layer.hashesCount == dataBlocks
      ensures var read := file.Answer(old(file.calls), BLOCK_SIZE, fileOffset);
              layer.TopRead() == IsWhole(read) && digest == TopDigest(H(), read)
      ensures digest == rootHash && dataBlocks <= HASHES_PER_BLOCK ==>
                (layer.Valid(H(), file, file.delivered) <==> layer.TopRead())
    {
      var read := file.PRead(BLOCK_SIZE, fileOffset);
      if read.None? || |read.value| != BLOCK_SIZE {
        return TopMost(fileOffset, dataBlocks, None), Zeros(DIGEST_SIZE);
      }
      return TopMost(fileOffset, dataBlocks, read), sha256(read.value, salt);
    }

    /** Accepts only blocks that a chain of hash blocks vouches for, and over a fixed file exactly those the walk accepts. */
    method Verify(block: nat, data: Bytes) returns (ok: bool)
      requires Valid()
      requires |data| == BLOCK_SIZE
      modifies Caches()`verifiedHashBlocks, OpenFile()`calls, OpenFile()`delivered
      ensures Valid()
      ensures hashesFile != null ==> old(hashesFile.delivered) <= hashesFile.delivered
      ensures ok ==> IsOpen() && Vouches(block, data)
      ensures IsOpen() && hashesFile.Steady() ==> ok == VerifyResult(State(), hashesFile.image, block, data)
    {
      hide Layer.Valid;
      hide Places;
      hide Walk;
      hide Attested;
      if layer0.None? {
        return false;
      }
      if block >= dataBlockCount {
        return false;
      }
      var digest := sha256(data, salt);
      ghost var h := H();
      ok := layer0.value.VerifyBlock(block, digest, h, hashesFile);
      assert H() == h;
      assert layer0.value.Valid(H(), hashesFile, hashesFile.delivered);
    }
  }

  /**
   Two verifiers with the same root hash and trees of the same depth, over whatever files, salts and block counts and
   after whatever reads and evictions, that accept two blocks under one number accept the same block, or the blocks
   they saw contain a collision.
   */
  lemma TwoVerifiersAgree(v1: DmVerityVerifier, v2: DmVerityVerifier, block: nat, data1: Bytes, data2: Bytes)
    returns (pair: (Salted, Salted))
    requires v1.sha256 == v2.sha256 && v1.rootHash == v2.rootHash
    requires v1.Vouches(block, data1) && v2.Vouches(block, data2)
    requires Depth(v1.dataBlockCount, HASHES_PER_BLOCK) == Depth(v2.dataBlockCount, HASHES_PER_BLOCK)
    requires |data1| == |data2| == BLOCK_SIZE
    ensures data1 == data2 || IsCollision(v1.sha256, pair)
    ensures data1 != data2 ==>
              && pair.0.block in v1.hashesFile.delivered + {data1} && pair.0.salt == v1.salt
              && pair.1.block in v2.hashesFile.delivered + {data2} && pair.1.salt == v2.salt
  {
    pair := Soundness(v1.H(), v2.H(), Depth(v1.dataBlockCount, HASHES_PER_BLOCK), block,
                      data1, v1.hashesFile.delivered, data2, v2.hashesFile.delivered);
  }
}
