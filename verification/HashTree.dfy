/**
 The layers of the userspace dm-verity verifier: a top layer that holds its one hash block in memory, and
 inner layers that read hash blocks on demand, check them with the layer above, and keep at most 64 of them.
 */
module HashTree {
  import opened Bytes
  import opened Files
  import opened MerkleEvidence
  import opened MerkleLayout
  import opened Wrappers

  const MAX_CACHE_BLOCKS: nat := 64

  /** The three implementations of the layer interface. */
  datatype Layer =
    | SingleDataBlock(rootHash: Digest)
    | TopMost(fileOffset: nat, hashesCount: nat, hashBlock: Option<Bytes>)
    | Inner(node: HashTreeLayer)
  {
    /** This layer and those above it, this one first. */
    ghost function Places(): seq<LayerPlace> {
      match this
      case SingleDataBlock(_) => []
      case TopMost(fileOffset, hashesCount, _) => [LayerPlace(fileOffset, hashesCount)]
      case Inner(node) => node.places
    }

    ghost function Repr(): set<HashTreeLayer> {
      match this
      case SingleDataBlock(_) => {}
      case TopMost(_, _, _) => {}
      case Inner(node) => node.Repr
    }

    /** Whether the hash block of the top layer was read when the layer was made; a single data block needs none. */
    ghost predicate TopRead() {
      match this
      case SingleDataBlock(_) => true
      case TopMost(_, _, hashBlock) => hashBlock.Some?
      case Inner(node) => node.topRead
    }

    /** `known` is what the hash file has delivered so far. */
    ghost predicate Valid(h: Hashing, file: File, known: set<Bytes>)
      reads Repr()
      decreases |Places()|, 1
    {
      match this
      case SingleDataBlock(rootHash) =>
        rootHash == h.rootHash
      case TopMost(fileOffset, hashesCount, hashBlock) =>
        && hashesCount <= HASHES_PER_BLOCK
        && hashBlock.Some?
        && |hashBlock.value| == BLOCK_SIZE
        && hashBlock.value in known
        && h.Digest(hashBlock.value) == h.rootHash
        && (file.Steady() ==> InRange(file.image, fileOffset, BLOCK_SIZE)
                              && hashBlock.value == Slice(file.image, fileOffset, BLOCK_SIZE))
      case Inner(node) =>
        node.Valid(h, file, known)
    }

    method VerifyBlock(block: nat, digest: Digest, ghost h: Hashing, ghost file: File) returns (ok: bool)
      requires Valid(h, file, file.delivered)
      modifies Repr()`verifiedHashBlocks, file`calls, file`delivered
      ensures Valid(h, file, file.delivered)
      ensures old(file.delivered) <= file.delivered
      ensures ok ==> Attested(h, |Places()|, file.delivered, block, digest)
      ensures file.Steady() ==> ok == Walk(h, file.image, Places(), block, digest)
      decreases |Places()|, 1
    {
      match this
      case SingleDataBlock(rootHash) =>
        ok := block == 0 && rootHash == digest;
        if ok {
          assert IsEvidence(h, 0, file.delivered, block, digest, []);
        }
      case TopMost(fileOffset, hashesCount, hashBlock) =>
        if block >= hashesCount {
          return false;
        }
        assert block / HASHES_PER_BLOCK == 0;
        var byteOffset := (block % HASHES_PER_BLOCK) * DIGEST_SIZE;
        ok := hashBlock.value[byteOffset..byteOffset + DIGEST_SIZE] == digest;
        assert Places()[1..] == [];
        assert IsEvidence(h, 0, file.delivered, 0, h.Digest(hashBlock.value), []);
        AttestedBelow(h, 0, file.delivered, block, hashBlock.value);
      case Inner(node) =>
        ok := node.VerifyBlock(block, digest, h);
    }
  }

  /** A valid layer stays valid when the hash file delivers more. */
  lemma {:induction false} ValidGrows(layer: Layer, h: Hashing, file: File, known: set<Bytes>, more: set<Bytes>)
    requires layer.Valid(h, file, known) && known <= more
    ensures layer.Valid(h, file, more)
    decreases |layer.Places()|
  {
    if layer.Inner? {
      ValidGrows(layer.node.parent, h, file, known, more);
      layer.node.CacheGrows(h, known, more, layer.node.verifiedHashBlocks);
    }
  }

  /** Layers in good order have read their top block. */
  lemma {:induction false} ValidIsRead(layer: Layer, h: Hashing, file: File, known: set<Bytes>)
    requires layer.Valid(h, file, known)
    ensures layer.TopRead()
    decreases |layer.Places()|
  {
    if layer.Inner? {
      ValidIsRead(layer.node.parent, h, file, known);
    }
  }

  ghost predicate IsLeast(k: nat, keys: set<nat>) {
    k in keys && forall j :: j in keys ==> k <= j
  }

  lemma {:induction false} HasLeast(keys: set<nat>) returns (k: nat)
    requires keys != {}
    ensures IsLeast(k, keys)
    decreases keys
  {
    var x :| x in keys;
    k := x;
    var rest := keys - {x};
    if rest != {} {
      var other := HasLeast(rest);
      k := if other < x then other else x;
    }
    assert keys == rest + {x};
  }

  ghost function Least(keys: set<nat>): (k: nat)
    requires keys != {}
    ensures IsLeast(k, keys)
  {
    assert exists k :: IsLeast(k, keys) by {
      var k := HasLeast(keys);
    }
    var k :| IsLeast(k, keys);
    k
  }

  /** The cache after a block is added: a full cache first loses the block with the lowest index. */
  ghost function Remembered(cache: map<nat, Bytes>, index: nat, hashBlock: Bytes): map<nat, Bytes> {
    if |cache| < MAX_CACHE_BLOCKS || cache == map[] then
      cache[index := hashBlock]
    else
      (cache - {Least(cache.Keys)})[index := hashBlock]
  }

  /** There are never more than 64 blocks; only when there are as many does one make way, the one with the least index. */
  lemma RememberedEntries(cache: map<nat, Bytes>, index: nat, hashBlock: Bytes)
    requires |cache| <= 64 && index !in cache
    ensures |Remembered(cache, index, hashBlock)| == Min(|cache| + 1, 64)
    ensures |cache| < 64 ==> Remembered(cache, index, hashBlock) == cache[index := hashBlock]
    ensures |cache| == 64 ==>
              exists k: nat :: IsLeast(k, cache.Keys) && Remembered(cache, index, hashBlock) == (cache - {k})[index := hashBlock]
  {
    var kept := if |cache| < MAX_CACHE_BLOCKS then cache else cache - {Least(cache.Keys)};
    if |cache| == MAX_CACHE_BLOCKS {
      assert kept.Keys == cache.Keys - {Least(cache.Keys)};
    }
    assert kept[index := hashBlock].Keys == kept.Keys + {index};
  }

  class HashTreeLayer {
    const parent: Layer

    const file: File

    const fileOffset: nat

    const hashesCount: nat

    const sha256: (Bytes, Bytes) -> Digest

    const salt: Bytes

    /** Cache of verified hash blocks. */
    var verifiedHashBlocks: map<nat, Bytes>

    ghost const places: seq<LayerPlace>

    ghost const topRead: bool

    ghost const Repr: set<HashTreeLayer>

    constructor (parent: Layer, file: File, fileOffset: nat, hashesCount: nat,
                 sha256: (Bytes, Bytes) -> Digest, salt: Bytes, ghost h: Hashing)
      requires h.sha256 == sha256 && h.salt == salt
      requires parent.Places() != [] && parent.Places()[0].hashesCount == DivRoundUp(hashesCount, HASHES_PER_BLOCK)
      ensures parent.Valid(h, file, file.delivered) ==> Valid(h, file, file.delivered)
      ensures places == [LayerPlace(fileOffset, hashesCount)] + parent.Places()
      ensures Repr == {this} + parent.Repr()
      ensures this.parent == parent && topRead == parent.TopRead()
      ensures verifiedHashBlocks == map[]
    {
      this.parent, this.file, this.fileOffset, this.hashesCount := parent, file, fileOffset, hashesCount;
      this.sha256, this.salt := sha256, salt;
      verifiedHashBlocks := map[];
      places := [LayerPlace(fileOffset, hashesCount)] + parent.Places();
      Repr := {this} + parent.Repr();
      topRead := parent.TopRead();
    }

    /** The offset of a hash block, a 64-bit number. */
    function OffsetOf(index: nat): nat {
      (fileOffset + index * BLOCK_SIZE) % TWO64
    }

    /** A cached block was delivered by the file, has the right size and was accepted by the layers above. */
    ghost predicate Cached(h: Hashing, file: File, known: set<Bytes>, index: nat, hashBlock: Bytes) {
      && index < DivRoundUp(hashesCount, HASHES_PER_BLOCK)
      && |hashBlock| == BLOCK_SIZE
      && hashBlock in known
      && Attested(h, |parent.Places()|, known, index, h.Digest(hashBlock))
      && (file.Steady() ==>
            && InRange(file.image, OffsetOf(index), BLOCK_SIZE)
            && hashBlock == Slice(file.image, OffsetOf(index), BLOCK_SIZE)
            && Walk(h, file.image, parent.Places(), index, h.Digest(hashBlock)))
    }

    ghost predicate Valid(h: Hashing, file: File, known: set<Bytes>)
      reads Repr
      decreases |places|, 0
    {
      && this in Repr && Repr == {this} + parent.Repr() && this !in parent.Repr()
      && this.file == file && sha256 == h.sha256 && salt == h.salt
      && places == [LayerPlace(fileOffset, hashesCount)] + parent.Places()
      && parent.Places() != [] && parent.Places()[0].hashesCount == DivRoundUp(hashesCount, HASHES_PER_BLOCK)
      && parent.Valid(h, file, known) && topRead == parent.TopRead()
      && |verifiedHashBlocks| <= MAX_CACHE_BLOCKS
      && forall i :: i in verifiedHashBlocks ==> Cached(h, file, known, i, verifiedHashBlocks[i])
    }

    lemma CacheGrows(h: Hashing, known: set<Bytes>, more: set<Bytes>, cache: map<nat, Bytes>)
      requires known <= more
      requires forall i :: i in cache ==> Cached(h, file, known, i, cache[i])
      ensures forall i :: i in cache ==> Cached(h, file, more, i, cache[i])
    {
      forall i | i in cache
        ensures Cached(h, file, more, i, cache[i])
      {
        AttestedGrows(h, |parent.Places()|, known, more, i, h.Digest(cache[i]));
      }
    }

    method VerifyBlock(block: nat, digest: Digest, ghost h: Hashing) returns (ok: bool)
      requires Valid(h, file, file.delivered)
      modifies Repr`verifiedHashBlocks, file`calls, file`delivered
      ensures Valid(h, file, file.delivered)
      ensures old(file.delivered) <= file.delivered
      ensures ok ==> Attested(h, |places|, file.delivered, block, digest)
      ensures file.Steady() ==> ok == Walk(h, file.image, places, block, digest)
      decreases |places|, 0, 2
    {
      hide Layer.Valid, Cached, Walk, Loadable;
      if block >= hashesCount {
        OutsideLayer(h, block, digest);
        return false;
      }
      var hashBlockIndex := block / HASHES_PER_BLOCK;
      HashBlockInLayer(hashesCount, HASHES_PER_BLOCK, block);
      var hashBlock := FindHashBlock(hashBlockIndex, h);
      if hashBlock.None? {
        if file.Steady() {
          NothingWithoutHashBlock(h, block, digest);
        }
        return false;
      }
      SlotDecides(h, file.delivered, block, hashBlock.value);
      HashBlockSize(h, file.delivered, hashBlockIndex, hashBlock.value);
      var byteOffset := (block % HASHES_PER_BLOCK) * DIGEST_SIZE;
      ok := hashBlock.value[byteOffset..byteOffset + DIGEST_SIZE] == digest;
    }

    /** Over a fixed file, whether a hash block can be read and the layers above accept it. */
    ghost predicate Loadable(h: Hashing, image: Image, index: nat) {
      && InRange(image, OffsetOf(index), BLOCK_SIZE)
      && Walk(h, image, AboveHere(), index, h.Digest(Slice(image, OffsetOf(index), BLOCK_SIZE)))
    }

    /** Where the layers above this one lie. */
    ghost function AboveHere(): seq<LayerPlace> {
      if places == [] then [] else places[1..]
    }

    lemma OutsideLayer(h: Hashing, block: nat, digest: Digest)
      requires places == [LayerPlace(fileOffset, hashesCount)] + parent.Places() && block >= hashesCount
      ensures !Walk(h, file.image, places, block, digest)
    {
      WalkStep(h, file.image, LayerPlace(fileOffset, hashesCount), parent.Places(), block, digest);
    }

    lemma NothingWithoutHashBlock(h: Hashing, block: nat, digest: Digest)
      requires places == [LayerPlace(fileOffset, hashesCount)] + parent.Places()
      requires !Loadable(h, file.image, block / HASHES_PER_BLOCK)
      ensures !Walk(h, file.image, places, block, digest)
    {
      WalkStep(h, file.image, LayerPlace(fileOffset, hashesCount), parent.Places(), block, digest);
    }

    lemma HashBlockSize(h: Hashing, known: set<Bytes>, index: nat, hashBlock: Bytes)
      requires Cached(h, file, known, index, hashBlock)
      ensures |hashBlock| == BLOCK_SIZE
    {
    }

    /** A hash block from the cache, or else from the file. */
    method FindHashBlock(hashBlockIndex: nat, ghost h: Hashing) returns (r: Option<Bytes>)
      requires Valid(h, file, file.delivered)
      requires hashBlockIndex < DivRoundUp(hashesCount, HASHES_PER_BLOCK)
      modifies Repr`verifiedHashBlocks, file`calls, file`delivered
      ensures Valid(h, file, file.delivered)
      ensures old(file.delivered) <= file.delivered
      ensures r.Some? ==> Cached(h, file, file.delivered, hashBlockIndex, r.value)
      ensures file.Steady() ==> r.Some? == Loadable(h, file.image, hashBlockIndex)
      decreases |places|, 0, 1
    {
      if hashBlockIndex in verifiedHashBlocks {
        return Some(verifiedHashBlocks[hashBlockIndex]);
      }
      r := LoadHashBlock(hashBlockIndex, h);
    }

    /** Once the hash block is known to be good, the digest it records settles the answer. */
    lemma SlotDecides(h: Hashing, known: set<Bytes>, block: nat, hashBlock: Bytes)
      requires places == [LayerPlace(fileOffset, hashesCount)] + parent.Places()
      requires block < hashesCount
      requires Cached(h, file, known, block / HASHES_PER_BLOCK, hashBlock)
      ensures Attested(h, |places|, known, block, Slot(hashBlock, block))
      ensures file.Steady() ==>
                forall digest :: Walk(h, file.image, places, block, digest) <==> digest == Slot(hashBlock, block)
    {
      AttestedBelow(h, |parent.Places()|, known, block, hashBlock);
      forall digest: Digest
        ensures file.Steady() ==> (Walk(h, file.image, places, block, digest) <==> digest == Slot(hashBlock, block))
      {
        WalkStep(h, file.image, LayerPlace(fileOffset, hashesCount), parent.Places(), block, digest);
      }
    }

    /** Reads a hash block, checks it with the layer above, and puts it in the cache. */
    method LoadHashBlock(hashBlockIndex: nat, ghost h: Hashing) returns (r: Option<Bytes>)
      requires Valid(h, file, file.delivered)
      requires hashBlockIndex < DivRoundUp(hashesCount, HASHES_PER_BLOCK)
      requires hashBlockIndex !in verifiedHashBlocks
      modifies Repr`verifiedHashBlocks, file`calls, file`delivered
      ensures Valid(h, file, file.delivered)
      ensures old(file.delivered) <= file.delivered
      ensures r.Some? ==> Cached(h, file, file.delivered, hashBlockIndex, r.value)
      ensures verifiedHashBlocks == match r
                                    case None => old(verifiedHashBlocks)
                                    case Some(hashBlock) => Remembered(old(verifiedHashBlocks), hashBlockIndex, hashBlock)
      ensures file.Steady() ==> r.Some? == Loadable(h, file.image, hashBlockIndex)
      decreases |places|, 0, 0
    {
      ghost var known0 := file.delivered;
      var read := file.PRead(BLOCK_SIZE, OffsetOf(hashBlockIndex));
      ValidGrows(Inner(this), h, file, known0, file.delivered);
      if read.None? || |read.value| != BLOCK_SIZE {
        return None;
      }
      var hashBlockData := read.value;
      var hash := sha256(hashBlockData, salt);

      ghost var known1 := file.delivered;
      var accepted := parent.VerifyBlock(hashBlockIndex, hash, h, file);
      CacheGrows(h, known1, file.delivered, verifiedHashBlocks);
      if !accepted {
        return None;
      }
      Remember(hashBlockIndex, hashBlockData, h);
      r := Some(hashBlockData);
    }

    method Remember(hashBlockIndex: nat, hashBlockData: Bytes, ghost h: Hashing)
      requires Valid(h, file, file.delivered)
      requires hashBlockIndex !in verifiedHashBlocks
      requires Cached(h, file, file.delivered, hashBlockIndex, hashBlockData)
      modifies this`verifiedHashBlocks
      ensures Valid(h, file, file.delivered)
      ensures verifiedHashBlocks == Remembered(old(verifiedHashBlocks), hashBlockIndex, hashBlockData)
    {
      hide Layer.Valid;
      hide Cached;
      ghost var cache := verifiedHashBlocks;
      // Make room by dropping the block with the lowest index
      if |verifiedHashBlocks| >= MAX_CACHE_BLOCKS {
        ghost var least := Least(verifiedHashBlocks.Keys);
        var first :| first in verifiedHashBlocks.Keys && forall k :: k in verifiedHashBlocks.Keys ==> first <= k;
        assert first == least;
        verifiedHashBlocks := verifiedHashBlocks - {first};
      }
      verifiedHashBlocks := verifiedHashBlocks[hashBlockIndex := hashBlockData];
      assert verifiedHashBlocks == Remembered(cache, hashBlockIndex, hashBlockData);
      RememberedEntries(cache, hashBlockIndex, hashBlockData);
      forall i | i in verifiedHashBlocks
        ensures Cached(h, file, file.delivered, i, verifiedHashBlocks[i])
      {
        if i != hashBlockIndex {
          assert i in cache && verifiedHashBlocks[i] == cache[i];
        }
      }
    }
  }
}
