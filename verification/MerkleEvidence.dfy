/**
 What it means for a hash tree to vouch for a block, without any reference to caches or files:
 a chain of hash blocks from the block up to the root hash. Two chains for the same block number
 that vouch for different blocks contain a collision of the digest, and `FindCollision` finds it
 by comparing the two chains alone.
 */
module MerkleEvidence {
  import opened Bytes

  const BLOCK_SIZE: nat := 4096

  const DIGEST_SIZE: nat := 32

  const HASHES_PER_BLOCK: nat := 128

  type Digest = d: Bytes | |d| == DIGEST_SIZE witness Zeros(DIGEST_SIZE)

  /** A salted digest, of which nothing is assumed, and the root hash the tree is checked against. */
  datatype Hashing = Hashing(sha256: (Bytes, Bytes) -> Digest, salt: Bytes, rootHash: Digest) {
    function Digest(block: Bytes): Digest {
      sha256(block, salt)
    }
  }

  /** The digest a hash block records for the block with the given number. */
  function Slot(hashBlock: Bytes, block: nat): Digest
    requires |hashBlock| == BLOCK_SIZE
  {
    var byteOffset := (block % HASHES_PER_BLOCK) * DIGEST_SIZE;
    hashBlock[byteOffset..byteOffset + DIGEST_SIZE]
  }

  /** `chain` leads from a digest recorded for `block` up to the root hash, nearest hash block first. */
  ghost predicate ValidChain(h: Hashing, block: nat, digest: Digest, chain: seq<Bytes>)
    decreases |chain|
  {
    if chain == [] then
      block == 0 && digest == h.rootHash
    else
      && |chain[0]| == BLOCK_SIZE
      && Slot(chain[0], block) == digest
      && ValidChain(h, block / HASHES_PER_BLOCK, h.Digest(chain[0]), chain[1..])
  }

  ghost predicate Within(chain: seq<Bytes>, known: set<Bytes>) {
    forall i :: 0 <= i < |chain| ==> chain[i] in known
  }

  ghost predicate IsEvidence(h: Hashing, levels: nat, known: set<Bytes>, block: nat, digest: Digest,
                             chain: seq<Bytes>) {
    |chain| == levels && Within(chain, known) && ValidChain(h, block, digest, chain)
  }

  /** There is a chain of `levels` hash blocks, all of them taken from `known`, for this digest. */
  ghost predicate Attested(h: Hashing, levels: nat, known: set<Bytes>, block: nat, digest: Digest) {
    exists chain :: IsEvidence(h, levels, known, block, digest, chain)
  }

  lemma AttestedGrows(h: Hashing, levels: nat, known: set<Bytes>, more: set<Bytes>, block: nat, digest: Digest)
    requires Attested(h, levels, known, block, digest) && known <= more
    ensures Attested(h, levels, more, block, digest)
  {
    var chain :| IsEvidence(h, levels, known, block, digest, chain);
    assert IsEvidence(h, levels, more, block, digest, chain);
  }

  /** One more hash block on top of evidence for that block. */
  lemma AttestedBelow(h: Hashing, levels: nat, known: set<Bytes>, block: nat, hashBlock: Bytes)
    requires |hashBlock| == BLOCK_SIZE && hashBlock in known
    requires Attested(h, levels, known, block / HASHES_PER_BLOCK, h.Digest(hashBlock))
    ensures Attested(h, levels + 1, known, block, Slot(hashBlock, block))
  {
    var chain :| IsEvidence(h, levels, known, block / HASHES_PER_BLOCK, h.Digest(hashBlock), chain);
    var longer := [hashBlock] + chain;
    assert longer[1..] == chain;
    assert IsEvidence(h, levels + 1, known, block, Slot(hashBlock, block), longer);
  }

  // ----- soundness --------------------------------------------------------

  /** A block together with the salt it is hashed with. */
  datatype Salted = Salted(block: Bytes, salt: Bytes)

  /** Two different inputs of one length that the digest does not tell apart. */
  ghost predicate IsCollision(sha256: (Bytes, Bytes) -> Digest, pair: (Salted, Salted)) {
    && pair.0 != pair.1 && |pair.0.block| == |pair.1.block| == BLOCK_SIZE
    && sha256(pair.0.block, pair.0.salt) == sha256(pair.1.block, pair.1.salt)
  }

  /** Two trees over one digest and one root hash; their salts may differ. */
  ghost predicate ShareRoot(h1: Hashing, h2: Hashing) {
    h1.sha256 == h2.sha256 && h1.rootHash == h2.rootHash
  }

  /** The blocks nearest the root at which two chains of equal length differ, or the last ones when the salts do. */
  function FindCollision(h1: Hashing, h2: Hashing, a: seq<Bytes>, b: seq<Bytes>): (Salted, Salted)
    requires |a| == |b| > 0
  {
    if |a| == 1 || (a[1..] == b[1..] && h1.salt == h2.salt) then (Salted(a[0], h1.salt), Salted(b[0], h2.salt))
    else FindCollision(h1, h2, a[1..], b[1..])
  }

  /** Two chains of the same length for the same block number agree, block included, or contain a collision. */
  lemma {:induction false} ChainsAgreeOrCollide(h1: Hashing, h2: Hashing, block: nat, a: seq<Bytes>, b: seq<Bytes>)
    requires |a| == |b| > 0 && |a[0]| == |b[0]| == BLOCK_SIZE && ShareRoot(h1, h2)
    requires a != b || h1.salt != h2.salt
    requires ValidChain(h1, block, h1.Digest(a[0]), a[1..])
    requires ValidChain(h2, block, h2.Digest(b[0]), b[1..])
    ensures var pair := FindCollision(h1, h2, a, b);
            && IsCollision(h1.sha256, pair)
            && pair.0.block in a && pair.0.salt == h1.salt
            && pair.1.block in b && pair.1.salt == h2.salt
    decreases |a|
  {
    if |a| == 1 || (a[1..] == b[1..] && h1.salt == h2.salt) {
      assert a == [a[0]] + a[1..] && b == [b[0]] + b[1..];
    } else {
      ChainsAgreeOrCollide(h1, h2, block / HASHES_PER_BLOCK, a[1..], b[1..]);
    }
  }

  /**
   Merkle soundness. If two blocks are vouched for under the same number by trees with the same root hash and
   depth, whatever their salts, then they are the same block, or two different inputs with the same digest are
   found: one among the first block and what its verifier read, the other among the second block and what its
   verifier read. Only the existence of such a pair among the blocks actually seen says anything: a collision
   somewhere exists for every digest shorter than a block.
   */
  lemma Soundness(h1: Hashing, h2: Hashing, levels: nat, block: nat,
                  data1: Bytes, known1: set<Bytes>, data2: Bytes, known2: set<Bytes>)
    returns (pair: (Salted, Salted))
    requires |data1| == |data2| == BLOCK_SIZE && ShareRoot(h1, h2)
    requires Attested(h1, levels, known1, block, h1.Digest(data1))
    requires Attested(h2, levels, known2, block, h2.Digest(data2))
    ensures data1 == data2 || IsCollision(h1.sha256, pair)
    ensures data1 != data2 ==>
              && pair.0.block in known1 + {data1} && pair.0.salt == h1.salt
              && pair.1.block in known2 + {data2} && pair.1.salt == h2.salt
  {
    var c1 :| IsEvidence(h1, levels, known1, block, h1.Digest(data1), c1);
    var c2 :| IsEvidence(h2, levels, known2, block, h2.Digest(data2), c2);
    var a, b := [data1] + c1, [data2] + c2;
    assert a[1..] == c1 && b[1..] == c2;
    pair := FindCollision(h1, h2, a, b);
    if data1 != data2 {
      assert a[0] != b[0];
      ChainsAgreeOrCollide(h1, h2, block, a, b);
    }
  }

  // ----- the walk without caches ------------------------------------------

  /** Where a layer lies in the hash file and how many hashes it holds. */
  datatype LayerPlace = LayerPlace(fileOffset: nat, hashesCount: nat)

  /** The offset of the hash block for a block, a 64-bit number. */
  function HashBlockOffset(place: LayerPlace, block: nat): nat {
    (place.fileOffset + (block / HASHES_PER_BLOCK) * BLOCK_SIZE) % TWO64
  }

  /** The answer of a verifier that reads every hash block from leaf to root and remembers nothing. */
  predicate Walk(h: Hashing, image: Bytes, places: seq<LayerPlace>, block: nat, digest: Digest)
    decreases |places|
  {
    if places == [] then
      block == 0 && digest == h.rootHash
    else
      && block < places[0].hashesCount
      && InRange(image, HashBlockOffset(places[0], block), BLOCK_SIZE)
      && var hashBlock := Slice(image, HashBlockOffset(places[0], block), BLOCK_SIZE);
      && Slot(hashBlock, block) == digest
      && Walk(h, image, places[1..], block / HASHES_PER_BLOCK, h.Digest(hashBlock))
  }

  lemma WalkStep(h: Hashing, image: Bytes, place: LayerPlace, above: seq<LayerPlace>, block: nat, digest: Digest)
    ensures var offset := HashBlockOffset(place, block);
            Walk(h, image, [place] + above, block, digest) <==>
            && block < place.hashesCount
            && InRange(image, offset, BLOCK_SIZE)
            && Slot(Slice(image, offset, BLOCK_SIZE), block) == digest
            && Walk(h, image, above, block / HASHES_PER_BLOCK, h.Digest(Slice(image, offset, BLOCK_SIZE)))
  {
    var places := [place] + above;
    assert places[0] == place && places[1..] == above;
  }
}
