/**
 A reference builder of dm-verity hash files, and the proof that the verifier accepts what it builds:
 opening succeeds, and a block is accepted exactly when its digest is the one recorded for its number.
 */
module TreeBuilder {
  import opened Bytes
  import opened Files
  import opened MerkleEvidence
  import opened MerkleLayout
  import opened Verifier
  import opened Wrappers

  function Digests(h: Hashing, blocks: seq<Bytes>): (ds: seq<Digest>)
    ensures |ds| == |blocks|
    ensures forall i :: 0 <= i < |blocks| ==> ds[i] == h.Digest(blocks[i])
  {
    if blocks == [] then [] else [h.Digest(blocks[0])] + Digests(h, blocks[1..])
  }

  /** Packs 128 digests to a block, the last one padded with zeros. */
  function HashBlocks(ds: seq<Digest>): seq<Bytes> {
    if ds == [] then [] else
      var k := Min(HASHES_PER_BLOCK, |ds|);
      [Concat(ds[..k]) + Zeros(BLOCK_SIZE - k * DIGEST_SIZE)] + HashBlocks(ds[k..])
  }

  lemma {:induction false} HashBlocksShape(ds: seq<Digest>)
    ensures |HashBlocks(ds)| == DivRoundUp(|ds|, HASHES_PER_BLOCK)
    ensures AllOfSize(HashBlocks(ds), BLOCK_SIZE)
  {
    if ds != [] {
      var k := Min(HASHES_PER_BLOCK, |ds|);
      HashBlocksShape(ds[k..]);
      ConcatLength(ds[..k], DIGEST_SIZE);
    }
  }

  /** The digest recorded for a block number; past the end the slots of a hash block are filled with zeros. */
  function Recorded(ds: seq<Digest>, block: nat): Digest {
    if block < |ds| then ds[block] else Zeros(DIGEST_SIZE)
  }

  /** Every digest is found in its slot, and zeros in those that are left over. */
  lemma {:induction false} HashBlocksSlot(ds: seq<Digest>, block: nat)
    requires block / HASHES_PER_BLOCK < |HashBlocks(ds)|
    ensures |HashBlocks(ds)[block / HASHES_PER_BLOCK]| == BLOCK_SIZE
    ensures Slot(HashBlocks(ds)[block / HASHES_PER_BLOCK], block) == Recorded(ds, block)
    decreases |ds|
  {
    var k := Min(HASHES_PER_BLOCK, |ds|);
    if block < HASHES_PER_BLOCK {
      FirstSlots(ds, block);
    } else {
      hide Slot;
      assert HashBlocks(ds)[1..] == HashBlocks(ds[k..]);
      NextSlot(HashBlocks(ds)[1..], block);
      HashBlocksSlot(ds[k..], block - HASHES_PER_BLOCK);
      assert block < |ds| ==> ds[k..][block - k] == ds[block];
    }
  }

  lemma NextSlot(hashBlocks: seq<Bytes>, block: nat)
    requires block >= HASHES_PER_BLOCK
    ensures (block - HASHES_PER_BLOCK) / HASHES_PER_BLOCK == block / HASHES_PER_BLOCK - 1
    ensures forall b: Bytes | |b| == BLOCK_SIZE :: Slot(b, block) == Slot(b, block - HASHES_PER_BLOCK)
  {
  }

  lemma FirstSlots(ds: seq<Digest>, block: nat)
    requires ds != [] && block < HASHES_PER_BLOCK
    ensures block / HASHES_PER_BLOCK == 0 && |HashBlocks(ds)| > 0 && |HashBlocks(ds)[0]| == BLOCK_SIZE
    ensures Slot(HashBlocks(ds)[0], block) == Recorded(ds, block)
  {
    hide Concat;
    var k := Min(HASHES_PER_BLOCK, |ds|);
    ConcatLength(ds[..k], DIGEST_SIZE);
    var all, zeros := Concat(ds[..k]), Zeros(BLOCK_SIZE - k * DIGEST_SIZE);
    assert HashBlocks(ds)[0] == all + zeros;
    var from := block * DIGEST_SIZE;
    if block < k {
      ConcatSlice(ds[..k], DIGEST_SIZE, block);
      assert (all + zeros)[from..from + DIGEST_SIZE] == ds[..k][block];
    } else {
      assert (all + zeros)[from..from + DIGEST_SIZE] == Zeros(DIGEST_SIZE);
    }
  }

  /** The digests recorded one layer up. */
  function Above(h: Hashing, ds: seq<Digest>): (above: seq<Digest>)
    requires |ds| >= 2
    ensures 1 <= |above| < |ds|
    ensures |above| == DivRoundUp(|ds|, HASHES_PER_BLOCK)
  {
    HashBlocksShape(ds);
    DivRoundUpShrinks(|ds|, HASHES_PER_BLOCK);
    Digests(h, HashBlocks(ds))
  }

  /** The root of the tree over `ds`; a single digest is its own root. */
  function RootHash(h: Hashing, ds: seq<Digest>): Digest
    requires |ds| >= 1
    decreases |ds|
  {
    if |ds| == 1 then ds[0] else RootHash(h, Above(h, ds))
  }

  /** All layers, the top one first. */
  function TreeBytes(h: Hashing, ds: seq<Digest>): Bytes
    requires |ds| >= 1
    decreases |ds|
  {
    if |ds| == 1 then [] else TreeBytes(h, Above(h, ds)) + Concat(HashBlocks(ds))
  }

  lemma {:induction false} TreeBytesLength(h: Hashing, ds: seq<Digest>)
    requires |ds| >= 1
    ensures |TreeBytes(h, ds)| == Total(|ds|, HASHES_PER_BLOCK) * BLOCK_SIZE
    decreases |ds|
  {
    if |ds| > 1 {
      TreeBytesLength(h, Above(h, ds));
      HashBlocksShape(ds);
      ConcatLength(HashBlocks(ds), BLOCK_SIZE);
    }
  }

  /** The hash block for a block number lies where the layout says. */
  lemma TreeBytesBlock(h: Hashing, ds: seq<Digest>, block: nat)
    requires |ds| >= 2 && block < |ds|
    ensures block / HASHES_PER_BLOCK < |HashBlocks(ds)|
    ensures var offset := Total(|Above(h, ds)|, HASHES_PER_BLOCK) * BLOCK_SIZE + (block / HASHES_PER_BLOCK) * BLOCK_SIZE;
            && InRange(TreeBytes(h, ds), offset, BLOCK_SIZE)
            && Slice(TreeBytes(h, ds), offset, BLOCK_SIZE) == HashBlocks(ds)[block / HASHES_PER_BLOCK]
  {
    hide HashBlocks, Concat, Total, AllOfSize;
    var upper := TreeBytes(h, Above(h, ds));
    var j := block / HASHES_PER_BLOCK;
    TreeBytesLength(h, Above(h, ds));
    HashBlocksShape(ds);
    HashBlockInLayer(|ds|, HASHES_PER_BLOCK, block);
    ConcatSlice(HashBlocks(ds), BLOCK_SIZE, j);
    var lower := Concat(HashBlocks(ds));
    assert TreeBytes(h, ds) == upper + lower;
    assert (upper + lower)[|upper| + BLOCK_SIZE * j..|upper| + BLOCK_SIZE * j + BLOCK_SIZE]
           == lower[BLOCK_SIZE * j..BLOCK_SIZE * j + BLOCK_SIZE];
  }

  /** The tree over the digests one layer up comes first in the tree. */
  lemma UpperTree(h: Hashing, image: Image, base: nat, ds: seq<Digest>)
    requires |ds| >= 2 && ContainsAt(image, base, TreeBytes(h, ds))
    ensures ContainsAt(image, base, TreeBytes(h, Above(h, ds)))
  {
    var upper := TreeBytes(h, Above(h, ds));
    assert TreeBytes(h, ds) == upper + Concat(HashBlocks(ds));
    assert Slice(TreeBytes(h, ds), 0, |upper|) == upper;
    ContainedSlice(image, base, TreeBytes(h, ds), 0, |upper|);
  }

  lemma PlacesOverDigests(h: Hashing, base: nat, ds: seq<Digest>)
    requires |ds| >= 2
    ensures Places(base, |ds|) ==
            [LayerPlace(LayerOffset(base, |Above(h, ds)|), |ds|)] + Places(base, |Above(h, ds)|)
  {
  }

  lemma RootIsAbove(h: Hashing, ds: seq<Digest>)
    requires |ds| >= 2
    ensures RootHash(h, ds) == RootHash(h, Above(h, ds))
    ensures forall j :: 0 <= j < |HashBlocks(ds)| ==> Above(h, ds)[j] == h.Digest(HashBlocks(ds)[j])
  {
  }

  /** The hash block for a block number, found in an image that holds the tree. */
  lemma BlockInImage(h: Hashing, image: Image, base: nat, ds: seq<Digest>, block: nat)
    requires |ds| >= 2 && block < |ds| && ContainsAt(image, base, TreeBytes(h, ds))
    ensures block / HASHES_PER_BLOCK < |Above(h, ds)|
    ensures var place := LayerPlace(LayerOffset(base, |Above(h, ds)|), |ds|);
            && InRange(image, HashBlockOffset(place, block), BLOCK_SIZE)
            && var hashBlock := Slice(image, HashBlockOffset(place, block), BLOCK_SIZE);
            && Slot(hashBlock, block) == ds[block]
            && h.Digest(hashBlock) == Above(h, ds)[block / HASHES_PER_BLOCK]
  {
    hide TreeBytes;
    hide HashBlocks;
    hide Slot;
    hide Total;
    TreeBytesBlock(h, ds, block);
    var offset := Total(|Above(h, ds)|, HASHES_PER_BLOCK) * BLOCK_SIZE;
    ContainedSlice(image, base, TreeBytes(h, ds), offset + (block / HASHES_PER_BLOCK) * BLOCK_SIZE, BLOCK_SIZE);
    HashBlocksSlot(ds, block);
    NoWrap(base + offset, (block / HASHES_PER_BLOCK) * BLOCK_SIZE, |image|);
  }

  /** An offset inside a file does not wrap. */
  lemma NoWrap(a: nat, b: nat, size: FileSize)
    requires a + b <= size
    ensures a % TWO64 == a && (a % TWO64 + b) % TWO64 == a + b
  {
  }

  /** Over an image that holds the tree, the walk accepts exactly the digests the tree was built from. */
  lemma {:induction false} WalkOverBuiltTree(h: Hashing, image: Image, base: nat, ds: seq<Digest>, block: nat,
                                             digest: Digest)
    requires |ds| >= 1 && h.rootHash == RootHash(h, ds)
    requires ContainsAt(image, base, TreeBytes(h, ds))
    ensures Walk(h, image, Places(base, |ds|), block, digest) <==> block < |ds| && digest == ds[block]
    decreases |ds|
  {
    if |ds| > 1 {
      hide TreeBytes;
      hide Places;
      hide Total;
      hide Slot;
      hide Walk;
      hide Slice;
      hide ContainsAt;
      hide Above;
      hide RootHash;
      var above := Above(h, ds);
      RootIsAbove(h, ds);
      PlacesOverDigests(h, base, ds);
      var place := LayerPlace(LayerOffset(base, |above|), |ds|);
      WalkStep(h, image, place, Places(base, |above|), block, digest);
      if block < |ds| {
        BlockInImage(h, image, base, ds, block);
        UpperTree(h, image, base, ds);
        WalkOverBuiltTree(h, image, base, above, block / HASHES_PER_BLOCK, above[block / HASHES_PER_BLOCK]);
      }
    }
  }

  // ----- the superblock ---------------------------------------------------

  function SuperBlockBytes(uuid: Bytes, dataBlocks: nat, salt: Bytes): (bytes: Bytes)
    requires |uuid| == 16 && |salt| <= MAX_SALT_SIZE
    ensures |bytes| == BLOCK_SIZE
  {
    SuperBlockHead(uuid, dataBlocks, |salt|) + (salt + Zeros(MAX_SALT_SIZE - |salt|)) + Zeros(BLOCK_SIZE - 344)
  }

  function SuperBlockHead(uuid: Bytes, dataBlocks: nat, saltSize: nat): (bytes: Bytes)
    requires |uuid| == 16
    ensures |bytes| == 88
  {
    Identity(uuid) + Sizes(dataBlocks, saltSize)
  }

  function Identity(uuid: Bytes): (bytes: Bytes)
    requires |uuid| == 16
    ensures |bytes| == 64
  {
    SIGNATURE + ToLE(1, 4) + ToLE(1, 4) + uuid + (ALGORITHM + Zeros(25))
  }

  function Sizes(dataBlocks: nat, saltSize: nat): (bytes: Bytes)
    ensures |bytes| == 24
  {
    ToLE(BLOCK_SIZE, 4) + ToLE(BLOCK_SIZE, 4) + ToLE(dataBlocks, 8) + ToLE(saltSize, 2) + Zeros(6)
  }

  lemma IdentityFields(uuid: Bytes)
    requires |uuid| == 16
    ensures var head := Identity(uuid);
            && head[0..8] == SIGNATURE && head[8..12] == ToLE(1, 4) && head[12..16] == ToLE(1, 4)
            && head[32..64] == ALGORITHM + Zeros(25)
  {
    hide ToLE;
    hide Zeros;
  }

  lemma SizesFields(dataBlocks: nat, saltSize: nat)
    ensures var sizes := Sizes(dataBlocks, saltSize);
            && sizes[0..4] == ToLE(BLOCK_SIZE, 4) && sizes[4..8] == ToLE(BLOCK_SIZE, 4)
            && sizes[8..16] == ToLE(dataBlocks, 8) && sizes[16..18] == ToLE(saltSize, 2)
  {
    hide ToLE;
    hide Zeros;
  }

  lemma HeadFields(uuid: Bytes, dataBlocks: nat, saltSize: nat)
    requires |uuid| == 16
    ensures var head := SuperBlockHead(uuid, dataBlocks, saltSize);
            && head[0..8] == SIGNATURE && head[8..12] == ToLE(1, 4) && head[12..16] == ToLE(1, 4)
            && head[32..64] == ALGORITHM + Zeros(25)
            && head[64..68] == ToLE(BLOCK_SIZE, 4) && head[68..72] == ToLE(BLOCK_SIZE, 4)
            && head[72..80] == ToLE(dataBlocks, 8) && head[80..82] == ToLE(saltSize, 2)
  {
    hide ToLE;
    hide Zeros;
    hide Identity;
    hide Sizes;
    IdentityFields(uuid);
    SizesFields(dataBlocks, saltSize);
    var a, b := Identity(uuid), Sizes(dataBlocks, saltSize);
    SliceOfSum(a, b, 0, 8);
    SliceOfSum(a, b, 8, 12);
    SliceOfSum(a, b, 12, 16);
    SliceOfSum(a, b, 32, 64);
    SliceOfSum(a, b, 64, 68);
    SliceOfSum(a, b, 68, 72);
    SliceOfSum(a, b, 72, 80);
    SliceOfSum(a, b, 80, 82);
  }

  /** Parsing a superblock gives back what it was made from. */
  lemma SuperBlockRoundTrip(uuid: Bytes, dataBlocks: nat, salt: Bytes)
    requires |uuid| == 16 && |salt| <= MAX_SALT_SIZE && dataBlocks < TWO64
    ensures var sb := ParseSuperBlock(SuperBlockBytes(uuid, dataBlocks, salt));
            IsSupported(sb) && sb.dataBlocks == dataBlocks && sb.saltSize == |salt| && sb.salt[..sb.saltSize] == salt
  {
    var head := SuperBlockHead(uuid, dataBlocks, |salt|);
    var bytes := SuperBlockBytes(uuid, dataBlocks, salt);
    HeadFields(uuid, dataBlocks, |salt|);
    assert bytes[..88] == head;
    assert forall i, j :: 0 <= i <= j <= 88 ==> bytes[i..j] == head[i..j];
    assert bytes[88..344] == salt + Zeros(MAX_SALT_SIZE - |salt|);
    assert Pow256(8) == TWO64 && Pow256(4) == TWO32 && Pow256(2) == 0x1_0000;
    LEToLE(1, 4);
    LEToLE(BLOCK_SIZE, 4);
    LEToLE(dataBlocks, 8);
    LEToLE(|salt|, 2);
    assert (ALGORITHM + Zeros(25))[..7] == ALGORITHM;
  }

  // ----- completeness -----------------------------------------------------

  /** A hash file for the given data: the superblock, then the tree. */
  function HashFile(h: Hashing, uuid: Bytes, data: seq<Bytes>): Bytes
    requires |uuid| == 16 && |h.salt| <= MAX_SALT_SIZE && |data| >= 1
  {
    SuperBlockBytes(uuid, |data|, h.salt) + TreeBytes(h, Digests(h, data))
  }

  /** `open` accepts a hash file made for at most 512 MB of data, wherever it lies in the file it is read from. */
  lemma OpenAccepts(h: Hashing, uuid: Bytes, data: seq<Bytes>, image: Image, offset: Option<nat>, size: Option<nat>)
    requires |uuid| == 16 && |h.salt| <= MAX_SALT_SIZE && 1 <= |data| && |data| * BLOCK_SIZE <= MAX_DATA_SIZE
    requires h.rootHash == RootHash(h, Digests(h, data))
    requires var at := if offset.Some? then offset.value else 0;
             && ContainsAt(image, at, HashFile(h, uuid, data))
             && (size.Some? ==> at + |HashFile(h, uuid, data)| <= at + size.value <= |image|)
    ensures var at := if offset.Some? then offset.value else 0;
            OpenResult(h.sha256, image, h.rootHash, offset, size) == Ok(Opened(h, |data|, at + 4096))
  {
    hide ParseSuperBlock, IsSupported, HashFile, TreeBytes, RootHash, ContainsAt, Total, DataSizeRejected;
    var at := if offset.Some? then offset.value else 0;
    IsInside(image, at, HashFile(h, uuid, data));
    SuperBlockInPlace(h, uuid, data, image, at);
    HashFileLength(h, uuid, data);
    if |data| > 1 {
      TopBlockInPlace(h, uuid, data, image, at);
    }
  }

  lemma IsInside(image: Bytes, at: nat, part: Bytes)
    requires ContainsAt(image, at, part)
    ensures at + |part| <= |image|
  {
  }

  lemma HashFileLength(h: Hashing, uuid: Bytes, data: seq<Bytes>)
    requires |uuid| == 16 && |h.salt| <= MAX_SALT_SIZE && |data| >= 1
    ensures |HashFile(h, uuid, data)| == (1 + Total(|data|, HASHES_PER_BLOCK)) * BLOCK_SIZE
  {
    TreeBytesLength(h, Digests(h, data));
  }

  lemma TopBlockInPlace(h: Hashing, uuid: Bytes, data: seq<Bytes>, image: Image, at: nat)
    requires |uuid| == 16 && |h.salt| <= MAX_SALT_SIZE && |data| > 1
    requires h.rootHash == RootHash(h, Digests(h, data))
    requires ContainsAt(image, at, HashFile(h, uuid, data))
    ensures InRange(image, at + BLOCK_SIZE, BLOCK_SIZE)
    ensures h.Digest(Slice(image, at + BLOCK_SIZE, BLOCK_SIZE)) == h.rootHash
  {
    hide TreeBytes, RootHash, SuperBlockBytes;
    var file, ds := HashFile(h, uuid, data), Digests(h, data);
    HashFileLength(h, uuid, data);
    TotalPositive(|data|);
    ContainedSlice(image, at, file, BLOCK_SIZE, BLOCK_SIZE);
    TopBlockIsRoot(h, ds);
    SliceOfSum(SuperBlockBytes(uuid, |data|, h.salt), TreeBytes(h, ds), BLOCK_SIZE, BLOCK_SIZE + BLOCK_SIZE);
  }

  lemma SuperBlockInPlace(h: Hashing, uuid: Bytes, data: seq<Bytes>, image: Image, at: nat)
    requires |uuid| == 16 && |h.salt| <= MAX_SALT_SIZE && 1 <= |data| && |data| * BLOCK_SIZE <= MAX_DATA_SIZE
    requires ContainsAt(image, at, HashFile(h, uuid, data))
    ensures InRange(image, at, BLOCK_SIZE)
    ensures var parsed := ParseSuperBlock(Slice(image, at, BLOCK_SIZE));
            && IsSupported(parsed) && parsed.dataBlocks == |data| && !DataSizeRejected(parsed.dataBlocks)
            && parsed.salt[..parsed.saltSize] == h.salt
  {
    var sb := SuperBlockBytes(uuid, |data|, h.salt);
    SuperBlockRoundTrip(uuid, |data|, h.salt);
    ContainedSlice(image, at, HashFile(h, uuid, data), 0, BLOCK_SIZE);
    SliceOfSum(sb, TreeBytes(h, Digests(h, data)), 0, BLOCK_SIZE);
    assert sb[0..BLOCK_SIZE] == sb;
  }

  /** The first block of the tree is the one the root hash covers. */
  lemma {:induction false} TopBlockIsRoot(h: Hashing, ds: seq<Digest>)
    requires |ds| >= 2
    ensures InRange(TreeBytes(h, ds), 0, BLOCK_SIZE)
    ensures h.Digest(Slice(TreeBytes(h, ds), 0, BLOCK_SIZE)) == RootHash(h, ds)
    decreases |ds|
  {
    var above := Above(h, ds);
    if |above| >= 2 {
      TopBlockIsRoot(h, above);
      assert Slice(TreeBytes(h, ds), 0, BLOCK_SIZE) == Slice(TreeBytes(h, above), 0, BLOCK_SIZE);
    } else {
      HashBlocksShape(ds);
      var block := HashBlocks(ds)[0];
      assert HashBlocks(ds) == [block];
      assert Concat([block]) == block + Concat([]) == block;
      assert TreeBytes(h, ds) == block;
      assert block[0..BLOCK_SIZE] == block;
      assert RootHash(h, ds) == RootHash(h, above) == above[0];
    }
  }

  /**
   Merkle completeness. Over a hash file made by the builder, `verify` accepts a block exactly when its number
   is in range and its digest is the recorded one; in particular it accepts every block of the data.
   */
  lemma VerifyAcceptsExactly(h: Hashing, uuid: Bytes, data: seq<Bytes>, image: Image, at: nat, block: nat,
                             candidate: Bytes)
    requires |uuid| == 16 && |h.salt| <= MAX_SALT_SIZE && 1 <= |data|
    requires h.rootHash == RootHash(h, Digests(h, data))
    requires ContainsAt(image, at, HashFile(h, uuid, data))
    ensures VerifyResult(Opened(h, |data|, at + BLOCK_SIZE), image, block, candidate)
            <==> block < |data| && h.Digest(candidate) == h.Digest(data[block])
  {
    hide TreeBytes, RootHash, SuperBlockBytes, Walk;
    var file, ds := HashFile(h, uuid, data), Digests(h, data);
    ContainedSlice(image, at, file, BLOCK_SIZE, |TreeBytes(h, ds)|);
    assert Slice(file, BLOCK_SIZE, |TreeBytes(h, ds)|) == TreeBytes(h, ds);
    WalkOverBuiltTree(h, image, at + BLOCK_SIZE, ds, block, h.Digest(candidate));
  }

  // ----- what a root hash commits to --------------------------------------

  function TreeBlocks(h: Hashing, ds: seq<Digest>): set<Bytes>
    requires |ds| >= 1
    decreases |ds|
  {
    if |ds| == 1 then {} else (set b | b in HashBlocks(ds)) + TreeBlocks(h, Above(h, ds))
  }

  /** Why a block was accepted: it is the recorded one, or it gives away a weakness of the digest. */
  datatype Finding =
    | Genuine
    | Collision(pair: (Salted, Salted))
    | ZeroDigest(block: Bytes)
    | DataIsHash(block: Bytes, number: nat, slot: nat)

  /**
   What a chain of hash blocks of the right length under the root of a genuine tree can be evidence for: the digest
   recorded for the block number. Otherwise one of its blocks collides with a block of the tree, or, for a number
   past the end of the tree, has a digest of zeros.
   */
  lemma {:induction false} EvidenceIsRecorded(g: Hashing, ds: seq<Digest>, o: Hashing, chain: seq<Bytes>, block: nat,
                                              digest: Digest)
    returns (f: Finding)
    requires |ds| >= 1 && g.rootHash == RootHash(g, ds) && ShareRoot(o, g)
    requires |chain| == Depth(|ds|, HASHES_PER_BLOCK) && ValidChain(o, block, digest, chain)
    ensures f.Genuine? ==> digest == Recorded(ds, block)
    ensures f.Collision? ==>
              && IsCollision(o.sha256, f.pair)
              && f.pair.0.block in chain && f.pair.0.salt == o.salt
              && f.pair.1.block in TreeBlocks(g, ds) && f.pair.1.salt == g.salt
    ensures f.ZeroDigest? ==>
              f.block in chain && |f.block| == BLOCK_SIZE && o.Digest(f.block) == Zeros(DIGEST_SIZE) && block >= |ds|
    ensures !f.DataIsHash?
    decreases |ds|
  {
    hide Slot, HashBlocks, IsCollision;
    if |ds| == 1 {
      return Genuine;
    }
    var above, j, top := Above(g, ds), block / HASHES_PER_BLOCK, chain[0];
    RootIsAbove(g, ds);
    f := EvidenceIsRecorded(g, above, o, chain[1..], j, o.Digest(top));
    NumberAbove(block, |ds|);
    if !f.Genuine? {
      return;
    }
    if j >= |above| {
      return ZeroDigest(top);
    }
    HashBlocksShape(ds);
    HashBlocksSlot(ds, block);
    var genuine := HashBlocks(ds)[j];
    if top != genuine || o.salt != g.salt {
      f := Collision((Salted(top, o.salt), Salted(genuine, g.salt)));
      SameDigestCollides(o.sha256, f.pair);
    }
  }

  lemma NumberAbove(block: nat, n: nat)
    requires n >= 1
    ensures block < n ==> block / HASHES_PER_BLOCK < DivRoundUp(n, HASHES_PER_BLOCK)
  {
    if block < n {
      HashBlockInLayer(n, HASHES_PER_BLOCK, block);
    }
  }

  lemma SameDigestCollides(sha256: (Bytes, Bytes) -> Digest, pair: (Salted, Salted))
    requires pair.0 != pair.1 && |pair.0.block| == |pair.1.block| == BLOCK_SIZE
    requires sha256(pair.0.block, pair.0.salt) == sha256(pair.1.block, pair.1.salt)
    ensures IsCollision(sha256, pair)
  {
  }

  /**
   A root hash made from `data` commits a verifier to it, whatever salt and whatever number of blocks the superblock
   it opened declares, as long as that number makes a tree of the same depth: a block accepted for a number of the
   data is the block of the data with that number, or a collision is found between what the verifier saw and what
   the builder produced. A block accepted for a number past the data gives away a block with a digest of zeros.
   */
  lemma AcceptedIsCommitted(g: Hashing, data: seq<Bytes>, o: Hashing, count: nat, known: set<Bytes>, block: nat,
                            accepted: Bytes)
    returns (f: Finding)
    requires |data| >= 1 && AllOfSize(data, BLOCK_SIZE) && g.rootHash == RootHash(g, Digests(g, data)) && ShareRoot(o, g)
    requires count >= 1 && Depth(count, HASHES_PER_BLOCK) == Depth(|data|, HASHES_PER_BLOCK)
    requires |accepted| == BLOCK_SIZE
    requires Attested(o, Depth(count, HASHES_PER_BLOCK), known, block, o.Digest(accepted))
    ensures f.Genuine? ==> block < |data| && accepted == data[block]
    ensures f.Collision? ==>
              && IsCollision(o.sha256, f.pair)
              && f.pair.0.block in known + {accepted} && f.pair.0.salt == o.salt
              && (f.pair.1.block in TreeBlocks(g, Digests(g, data)) || f.pair.1.block in data) && f.pair.1.salt == g.salt
    ensures f.ZeroDigest? ==>
              && f.block in known + {accepted} && |f.block| == BLOCK_SIZE
              && o.Digest(f.block) == Zeros(DIGEST_SIZE) && block >= |data|
    ensures !f.DataIsHash?
  {
    var ds := Digests(g, data);
    var chain :| IsEvidence(o, Depth(count, HASHES_PER_BLOCK), known, block, o.Digest(accepted), chain);
    f := EvidenceIsRecorded(g, ds, o, chain, block, o.Digest(accepted));
    if f.Genuine? {
      if block >= |data| {
        f := ZeroDigest(accepted);
      } else if accepted != data[block] {
        f := Collision((Salted(accepted, o.salt), Salted(data[block], g.salt)));
      }
    }
  }

  // ----- the depth is not committed to ------------------------------------

  /** The hash blocks over some data are data themselves: a tree over them has the same root hash and one layer less. */
  lemma TreesShareRoot(g: Hashing, data: seq<Bytes>)
    requires |data| >= 2
    ensures var other := HashBlocks(Digests(g, data));
            && 1 <= |other| < |data| && AllOfSize(other, BLOCK_SIZE)
            && RootHash(g, Digests(g, other)) == RootHash(g, Digests(g, data))
            && Depth(|data|, HASHES_PER_BLOCK) == Depth(|other|, HASHES_PER_BLOCK) + 1
  {
    var ds := Digests(g, data);
    HashBlocksShape(ds);
    assert Above(g, ds) == Digests(g, HashBlocks(ds));
  }

  /** The data seen from k layers up: for k = 0 the data, then the hash blocks over it, and so on to the top. */
  function Level(g: Hashing, data: seq<Bytes>, k: nat): (blocks: seq<Bytes>)
    requires |data| >= 1 && k <= Depth(|data|, HASHES_PER_BLOCK)
    ensures |blocks| >= 1 && Depth(|blocks|, HASHES_PER_BLOCK) == Depth(|data|, HASHES_PER_BLOCK) - k
    decreases k
  {
    if k == 0 then data else
      var below := Level(g, data, k - 1);
      TreesShareRoot(g, below);
      HashBlocks(Digests(g, below))
  }

  lemma {:induction false} LevelsShareRoot(g: Hashing, data: seq<Bytes>, k: nat)
    requires |data| >= 1 && k <= Depth(|data|, HASHES_PER_BLOCK) && AllOfSize(data, BLOCK_SIZE)
    ensures RootHash(g, Digests(g, Level(g, data, k))) == RootHash(g, Digests(g, data))
    ensures |Level(g, data, k)| <= |data| && AllOfSize(Level(g, data, k), BLOCK_SIZE)
    decreases k
  {
    hide RootHash, HashBlocks;
    if k > 0 {
      LevelsShareRoot(g, data, k - 1);
      TreesShareRoot(g, Level(g, data, k - 1));
    }
  }

  /**
   So the depth in `AcceptedIsCommitted` matters. With the genuine root hash and salt, a hash file made over any level
   of the tree opens, and every block of that level is accepted as a block of data.
   */
  lemma EveryDepthOpens(g: Hashing, uuid: Bytes, data: seq<Bytes>, k: nat)
    requires |uuid| == 16 && |g.salt| <= MAX_SALT_SIZE && 1 <= |data| && |data| * BLOCK_SIZE <= MAX_DATA_SIZE
    requires AllOfSize(data, BLOCK_SIZE) && g.rootHash == RootHash(g, Digests(g, data))
    requires k <= Depth(|data|, HASHES_PER_BLOCK)
    ensures OpensAndAccepts(g, uuid, Level(g, data, k))
  {
    hide RootHash, HashBlocks, HashFile, Level, OpensAndAccepts;
    LevelsShareRoot(g, data, k);
    BuiltFileOpens(g, uuid, Level(g, data, k));
  }

  /**
   What a count that makes a tree with k layers less lets through: the blocks of the level k layers up, or a finding
   as before.
   */
  lemma AcceptedAtLowerDepth(g: Hashing, data: seq<Bytes>, k: nat, o: Hashing, count: nat, known: set<Bytes>,
                             block: nat, accepted: Bytes)
    returns (f: Finding)
    requires |data| >= 1 && AllOfSize(data, BLOCK_SIZE) && g.rootHash == RootHash(g, Digests(g, data)) && ShareRoot(o, g)
    requires count >= 1 && Depth(count, HASHES_PER_BLOCK) + k == Depth(|data|, HASHES_PER_BLOCK)
    requires |accepted| == BLOCK_SIZE
    requires Attested(o, Depth(count, HASHES_PER_BLOCK), known, block, o.Digest(accepted))
    ensures var level := Level(g, data, k);
            && (f.Genuine? ==> block < |level| && accepted == level[block])
            && (f.Collision? ==>
                  && IsCollision(o.sha256, f.pair)
                  && f.pair.0.block in known + {accepted} && f.pair.0.salt == o.salt
                  && (f.pair.1.block in TreeBlocks(g, Digests(g, level)) || f.pair.1.block in level)
                  && f.pair.1.salt == g.salt)
            && (f.ZeroDigest? ==>
                  && f.block in known + {accepted} && |f.block| == BLOCK_SIZE
                  && o.Digest(f.block) == Zeros(DIGEST_SIZE) && block >= |level|)
    ensures !f.DataIsHash?
  {
    hide RootHash, HashBlocks, Level, Attested, TreeBlocks, IsCollision;
    LevelsShareRoot(g, data, k);
    f := AcceptedIsCommitted(g, Level(g, data, k), o, count, known, block, accepted);
  }

  /** The last of the first `extra` blocks of a chain: the rest of the chain vouches for it, and it records the one before. */
  lemma {:induction false} ChainFromAbove(o: Hashing, block: nat, digest: Digest, chain: seq<Bytes>, extra: nat)
    returns (number: nat, slot: nat)
    requires 1 <= extra <= |chain| && ValidChain(o, block, digest, chain)
    ensures |chain[extra - 1]| == BLOCK_SIZE && ValidChain(o, number, o.Digest(chain[extra - 1]), chain[extra..])
    ensures Slot(chain[extra - 1], slot) == if extra == 1 then digest else o.Digest(chain[extra - 2])
    decreases extra
  {
    hide Slot;
    if extra == 1 {
      number, slot := block / HASHES_PER_BLOCK, block;
    } else {
      number, slot := ChainFromAbove(o, block / HASHES_PER_BLOCK, o.Digest(chain[0]), chain[1..], extra - 1);
      assert chain[1..][extra - 1..] == chain[extra..];
    }
  }

  /**
   A count that makes a deeper tree lets nothing through by itself: every accepted block gives away a collision, a
   digest of zeros, or a block whose digest is 32 bytes of a genuine block of data, which would have to be a hash
   block for it.
   */
  lemma AcceptedAtGreaterDepth(g: Hashing, data: seq<Bytes>, o: Hashing, count: nat, known: set<Bytes>,
                               block: nat, accepted: Bytes)
    returns (f: Finding)
    requires |data| >= 1 && AllOfSize(data, BLOCK_SIZE) && g.rootHash == RootHash(g, Digests(g, data)) && ShareRoot(o, g)
    requires count >= 1 && Depth(count, HASHES_PER_BLOCK) > Depth(|data|, HASHES_PER_BLOCK)
    requires |accepted| == BLOCK_SIZE
    requires Attested(o, Depth(count, HASHES_PER_BLOCK), known, block, o.Digest(accepted))
    ensures !f.Genuine?
    ensures f.Collision? ==>
              && IsCollision(o.sha256, f.pair)
              && f.pair.0.block in known && f.pair.0.salt == o.salt
              && (f.pair.1.block in TreeBlocks(g, Digests(g, data)) || f.pair.1.block in data) && f.pair.1.salt == g.salt
    ensures f.ZeroDigest? ==>
              f.block in known && |f.block| == BLOCK_SIZE && o.Digest(f.block) == Zeros(DIGEST_SIZE)
    ensures f.DataIsHash? ==>
              && f.block in known + {accepted} && f.number < |data| && o.salt == g.salt
              && o.Digest(f.block) == Slot(data[f.number], f.slot)
  {
    hide Slot, RootHash, TreeBlocks, IsCollision;
    var ds := Digests(g, data);
    var levels, extra := Depth(count, HASHES_PER_BLOCK), Depth(count, HASHES_PER_BLOCK) - Depth(|data|, HASHES_PER_BLOCK);
    var chain :| IsEvidence(o, levels, known, block, o.Digest(accepted), chain);
    var number, slot := ChainFromAbove(o, block, o.Digest(accepted), chain, extra);
    var last, below := chain[extra - 1], if extra == 1 then accepted else chain[extra - 2];
    f := EvidenceIsRecorded(g, ds, o, chain[extra..], number, o.Digest(last));
    assert forall b <- chain[extra..] :: b in chain;
    if f.Genuine? {
      if number >= |data| {
        f := ZeroDigest(last);
      } else if last != data[number] || o.salt != g.salt {
        f := Collision((Salted(last, o.salt), Salted(data[number], g.salt)));
        SameDigestCollides(o.sha256, f.pair);
      } else {
        f := DataIsHash(below, number, slot);
      }
    }
  }

  /** The hash file made for these blocks opens, and the verifier accepts them. */
  ghost predicate OpensAndAccepts(h: Hashing, uuid: Bytes, blocks: seq<Bytes>)
    requires |uuid| == 16 && |h.salt| <= MAX_SALT_SIZE && |blocks| >= 1
  {
    var file := HashFile(h, uuid, blocks);
    && |file| < 0x8000_0000_0000_0000
    && OpenResult(h.sha256, file, h.rootHash, None, None) == Ok(Opened(h, |blocks|, BLOCK_SIZE))
    && forall i :: 0 <= i < |blocks| ==> VerifyResult(Opened(h, |blocks|, BLOCK_SIZE), file, i, blocks[i])
  }

  lemma BuiltFileOpens(h: Hashing, uuid: Bytes, blocks: seq<Bytes>)
    requires |uuid| == 16 && |h.salt| <= MAX_SALT_SIZE && 1 <= |blocks| && |blocks| * BLOCK_SIZE <= MAX_DATA_SIZE
    requires h.rootHash == RootHash(h, Digests(h, blocks))
    ensures OpensAndAccepts(h, uuid, blocks)
  {
    hide RootHash, HashFile, VerifyResult, OpenResult, ContainsAt, SuperBlockBytes, Digests;
    BuiltFileFits(h, uuid, blocks);
    var file: Image := HashFile(h, uuid, blocks);
    ContainsItself(file);
    OpenAccepts(h, uuid, blocks, file, None, None);
    forall i | 0 <= i < |blocks|
      ensures VerifyResult(Opened(h, |blocks|, BLOCK_SIZE), file, i, blocks[i])
    {
      VerifyAcceptsExactly(h, uuid, blocks, file, 0, i, blocks[i]);
    }
  }

  lemma BuiltFileFits(h: Hashing, uuid: Bytes, blocks: seq<Bytes>)
    requires |uuid| == 16 && |h.salt| <= MAX_SALT_SIZE && 1 <= |blocks| && |blocks| * BLOCK_SIZE <= MAX_DATA_SIZE
    ensures |HashFile(h, uuid, blocks)| < 0x8000_0000_0000_0000
  {
    hide HashFile, Total, Depth;
    HashFileLength(h, uuid, blocks);
    TotalBound(|blocks|, HASHES_PER_BLOCK);
    DepthIsSmall(|blocks|);
  }

  /** A digest for the example below: it looks at one byte. */
  function OneByteDigest(block: Bytes, salt: Bytes): Digest {
    seq(DIGEST_SIZE, _ => if |block| > 32 && block[32] == 0 then 7 else 9)
  }

  /**
   An example in full: two equal blocks, their hash block accepted as block 0 of a tree without layers, and neither
   a collision nor a digest of zeros anywhere in what was seen.
   */
  lemma DepthIsNeeded() returns (g: Hashing, data: seq<Bytes>, accepted: Bytes)
    ensures |data| == 2 && AllOfSize(data, BLOCK_SIZE) && |accepted| == BLOCK_SIZE
    ensures g.rootHash == RootHash(g, Digests(g, data))
    ensures Attested(g, Depth(1, HASHES_PER_BLOCK), {}, 0, g.Digest(accepted)) && accepted != data[0]
    ensures forall pair: (Salted, Salted) ::
              && pair.0.block in {} + {accepted}
              && (pair.1.block in TreeBlocks(g, Digests(g, data)) || pair.1.block in data)
              && pair.0.salt == g.salt && pair.1.salt == g.salt
              ==> !IsCollision(g.sha256, pair)
    ensures g.Digest(accepted) != Zeros(DIGEST_SIZE)
  {
    var sevens: Digest := seq(DIGEST_SIZE, _ => 7);
    var nines: Digest := seq(DIGEST_SIZE, _ => 9);
    var block := [1] + Zeros(BLOCK_SIZE - 1);
    data := [block, block];
    g := Hashing(OneByteDigest, [], nines);
    var ds := Digests(g, data);
    assert ds == [sevens, sevens];
    HashBlocksShape(ds);
    HashBlocksSlot(ds, 0);
    HashBlocksSlot(ds, 1);
    accepted := HashBlocks(ds)[0];
    assert HashBlocks(ds) == [accepted];
    assert accepted[32] == Slot(accepted, 1)[0] == 7;
    assert accepted[0] == Slot(accepted, 0)[0] == 7;
    assert Above(g, ds) == [g.Digest(accepted)] == [nines];
    assert TreeBlocks(g, ds) == {accepted};
    assert IsEvidence(g, 0, {}, 0, g.Digest(accepted), []);
    assert g.Digest(accepted) == nines && nines[0] == 9 && Zeros(DIGEST_SIZE)[0] == 0;
  }

  // ----- a top block that was not read ------------------------------------

  /**
   With a root hash of zeros, and only then, a file that delivers its superblock and fails afterwards opens, although
   the hash block of the top layer was never read.
   */
  method OpensUnread(sha256: (Bytes, Bytes) -> Digest, rootHash: Digest)
    returns (verifier: DmVerityVerifier, r: Result<(), VerityError>)
    ensures r.Ok? <==> rootHash == Zeros(DIGEST_SIZE)
    ensures r.Ok? ==> verifier.IsOpen() && !verifier.TopWasRead() && !verifier.Valid()
  {
    hide SuperBlockResult, SuperBlockBytes, OpenResult, DmVerityVerifier.Valid, File.Steady, HoldsTop;
    var superBlock := SuperBlockBytes(Zeros(16), 2, []);
    var file := new File((n, offset, size) => if n == 0 then Some(superBlock) else None, Some(2 * BLOCK_SIZE), []);
    verifier := new DmVerityVerifier(sha256);
    UnreadOutcome(sha256, superBlock, rootHash);
    assert file.Answer(0, BLOCK_SIZE, 0) == Some(superBlock[..BLOCK_SIZE]) && superBlock[..BLOCK_SIZE] == superBlock;
    r := verifier.Open(file, rootHash, None, None);
  }

  lemma UnreadOutcome(sha256: (Bytes, Bytes) -> Digest, superBlock: Bytes, rootHash: Digest)
    requires superBlock == SuperBlockBytes(Zeros(16), 2, [])
    ensures SuperBlockResult(sha256, rootHash, 0, 2 * BLOCK_SIZE, Some(superBlock), None) ==
            if rootHash == Zeros(DIGEST_SIZE) then Ok(Opened(Hashing(sha256, [], rootHash), 2, BLOCK_SIZE))
            else Err(RootHashMismatch)
  {
    hide SuperBlockBytes, ParseSuperBlock, IsSupported;
    SuperBlockRoundTrip(Zeros(16), 2, []);
    assert Total(2, HASHES_PER_BLOCK) == 1 by {
      TotalStep(2, 1);
      NoHashesForOne();
    }
  }
}
