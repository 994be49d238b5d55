/**
 A reference encoder of cluster indexes, and the proof that the maps built from what it writes are the extents that
 were written, in both formats. It is written from the format: the reader's layout and its parsers are not used.
 */
module ExtentEncoder {
  import opened Arithmetic
  import opened Bytes
  import opened ExtentMap
  import opened Files
  import opened IndexPacking
  import opened MerkleLayout
  import opened Wrappers

  /**
   One cluster of a file. A head says how the extent that begins in it is stored, where in the cluster it begins, and
   the block it is in; for a cluster without a head the offset is a distance that the reader does not look at.
   */
  datatype Cluster = Cluster(kind: LclusterType, offset: nat, block: nat)

  function Code(kind: LclusterType): nat {
    match kind
    case Plain => 0
    case Head1 => 1
    case NonHead => 2
    case Head2 => 3
  }

  // ----- what was written -------------------------------------------------

  /** The extents that begin in these clusters, each up to the next one or the end of the file. */
  function Described(clusters: seq<Cluster>, lcn: nat, clusterSize: nat, size: nat,
                     blockSize: nat): (extents: seq<Extent>)
    requires OffsetsFit(clusters, clusterSize)
    ensures forall e :: e in extents ==> lcn * clusterSize <= e.uncomprOffset < size
  {
    if clusters == [] then [] else
      ClusterBounds(lcn, 1, 0, clusterSize);
      var rest := Described(clusters[1..], lcn + 1, clusterSize, size, blockSize);
      var start := lcn * clusterSize + clusters[0].offset;
      if clusters[0].kind == NonHead || start >= size then rest else
        var end := if rest == [] then size else rest[0].uncomprOffset;
        var compression := if clusters[0].kind == Plain then NoCompression else Lz4;
        [Extent(compression, start, end - start, clusters[0].block * blockSize)] + rest
  }

  /** Every head lies in its own cluster and has a 32-bit block number. */
  predicate OffsetsFit(clusters: seq<Cluster>, clusterSize: nat) {
    forall i :: 0 <= i < |clusters| ==>
      clusters[i].block < 0x1_0000_0000 && (clusters[i].kind != NonHead ==> clusters[i].offset < clusterSize)
  }

  /** No head lies past the end of the file. */
  predicate NoneBeyond(clusters: seq<Cluster>, lcn: nat, clusterSize: nat, size: nat) {
    forall i :: 0 <= i < |clusters| && clusters[i].kind != NonHead ==> (lcn + i) * clusterSize + clusters[i].offset <= size
  }

  /** The clusters are those of a file of `size` bytes. */
  predicate Cover(clusters: seq<Cluster>, clusterSize: nat, size: nat) {
    |clusters| > 0 && (|clusters| - 1) * clusterSize < size <= |clusters| * clusterSize
  }

  /** When a map of `capacity` extents can be made of the clusters of a file. */
  predicate MapExists(clusters: seq<Cluster>, clusterSize: nat, size: nat, blockSize: nat, capacity: nat)
    requires OffsetsFit(clusters, clusterSize)
  {
    && size <= 0x2000_0000
    && NoneBeyond(clusters, 0, clusterSize, size)
    && |Described(clusters, 0, clusterSize, size, blockSize)| == capacity
  }

  // ----- from clusters to heads -------------------------------------------

  function HeadsOf(clusters: seq<Cluster>, lcn: nat, clusterSize: nat): seq<Head> {
    if clusters == [] then [] else
      var later := HeadsOf(clusters[1..], lcn + 1, clusterSize);
      if clusters[0].kind == NonHead then later
      else [Head(clusters[0].kind, lcn * clusterSize + clusters[0].offset, clusters[0].block)] + later
  }

  lemma {:induction false} HeadsJoin(a: seq<Cluster>, b: seq<Cluster>, lcn: nat, clusterSize: nat)
    ensures HeadsOf(a + b, lcn, clusterSize) == HeadsOf(a, lcn, clusterSize) + HeadsOf(b, lcn + |a|, clusterSize)
  {
    if a == [] {
      assert a + b == b;
    } else {
      assert (a + b)[1..] == a[1..] + b;
      HeadsJoin(a[1..], b, lcn + 1, clusterSize);
    }
  }

  /** Which heads a map accepts: all of them, but for those at the very end of the file, if none is beyond it. */
  lemma {:induction false} AcceptedHeads(clusters: seq<Cluster>, lcn: nat, clusterSize: nat, size: nat,
                                         done: seq<Head>, capacity: nat)
    requires |done| <= capacity
    ensures var heads := HeadsOf(clusters, lcn, clusterSize);
            Accept(done, heads, capacity, size) ==
            if NoneBeyond(clusters, lcn, clusterSize, size) && |done| + |Below(heads, size)| <= capacity
            then Some(done + Below(heads, size)) else None
    decreases |clusters|
  {
    hide NoneBeyond, HeadsOf, Accept, Below;
    HeadsStep(clusters, lcn, clusterSize);
    if clusters == [] {
      NothingToAccept(lcn, clusterSize, size, done, capacity);
    } else {
      var rest := clusters[1..];
      var later := HeadsOf(rest, lcn + 1, clusterSize);
      BeyondStep(clusters, lcn, clusterSize, size);
      if clusters[0].kind == NonHead {
        AcceptedHeads(rest, lcn + 1, clusterSize, size, done, capacity);
      } else {
        var head := Head(clusters[0].kind, lcn * clusterSize + clusters[0].offset, clusters[0].block);
        BelowStep(head, later, size);
        AcceptStep(done, head, later, capacity, size);
        if head.offset < size && |done| < capacity {
          AcceptedHeads(rest, lcn + 1, clusterSize, size, done + [head], capacity);
          assert done + [head] + Below(later, size) == done + ([head] + Below(later, size));
        } else if head.offset == size {
          AcceptedHeads(rest, lcn + 1, clusterSize, size, done, capacity);
        }
      }
    }
  }

  lemma HeadsStep(clusters: seq<Cluster>, lcn: nat, clusterSize: nat)
    ensures clusters == [] ==> HeadsOf(clusters, lcn, clusterSize) == []
    ensures clusters != [] ==>
              var later := HeadsOf(clusters[1..], lcn + 1, clusterSize);
              HeadsOf(clusters, lcn, clusterSize) ==
              if clusters[0].kind == NonHead then later
              else [Head(clusters[0].kind, lcn * clusterSize + clusters[0].offset, clusters[0].block)] + later
  {
  }

  lemma NothingToAccept(lcn: nat, clusterSize: nat, size: nat, done: seq<Head>, capacity: nat)
    ensures Accept(done, [], capacity, size) == Some(done + Below([], size)) && Below([], size) == []
    ensures NoneBeyond([], lcn, clusterSize, size)
  {
    assert done + Below([], size) == done;
  }

  lemma AcceptStep(done: seq<Head>, head: Head, later: seq<Head>, capacity: nat, size: nat)
    ensures Accept(done, [head] + later, capacity, size) ==
            if head.offset > size then None
            else if head.offset == size then Accept(done, later, capacity, size)
            else if |done| >= capacity then None else Accept(done + [head], later, capacity, size)
  {
    assert ([head] + later)[1..] == later;
  }

  lemma BeyondStep(clusters: seq<Cluster>, lcn: nat, clusterSize: nat, size: nat)
    requires clusters != []
    ensures NoneBeyond(clusters, lcn, clusterSize, size) <==>
              && (clusters[0].kind != NonHead ==> lcn * clusterSize + clusters[0].offset <= size)
              && NoneBeyond(clusters[1..], lcn + 1, clusterSize, size)
  {
    var rest := clusters[1..];
    if NoneBeyond(clusters, lcn, clusterSize, size) {
      forall i | 0 <= i < |rest| && rest[i].kind != NonHead
        ensures (lcn + 1 + i) * clusterSize + rest[i].offset <= size
      {
        assert rest[i] == clusters[i + 1] && lcn + 1 + i == lcn + (i + 1);
      }
    }
    if NoneBeyond(rest, lcn + 1, clusterSize, size) {
      forall i | 0 < i < |clusters| && clusters[i].kind != NonHead
        ensures (lcn + i) * clusterSize + clusters[i].offset <= size
      {
        assert clusters[i] == rest[i - 1] && lcn + i == lcn + 1 + (i - 1);
      }
    }
  }

  /** The entries of a map that has been given the heads inside the file are the extents that were written. */
  lemma {:induction false} HeadsAreDescribed(clusters: seq<Cluster>, lcn: nat, clusterSize: nat, size: nat,
                                             blockSize: nat)
    requires OffsetsFit(clusters, clusterSize) && size < TWO64
    ensures AreExtents(Below(HeadsOf(clusters, lcn, clusterSize), size),
                       Described(clusters, lcn, clusterSize, size, blockSize), size, blockSize)
    decreases |clusters|
  {
    hide AreExtents, Described, Below, HeadsOf;
    Step(clusters, lcn, clusterSize, size, blockSize);
    if clusters == [] {
      NoExtents(size, blockSize);
    } else {
      var rest := clusters[1..];
      HeadsAreDescribed(rest, lcn + 1, clusterSize, size, blockSize);
      if clusters[0].kind != NonHead && lcn * clusterSize + clusters[0].offset < size {
        var extents := Described(clusters, lcn, clusterSize, size, blockSize);
        assert extents == [extents[0]] + extents[1..];
        FirstExtent(Head(clusters[0].kind, lcn * clusterSize + clusters[0].offset, clusters[0].block),
                    Below(HeadsOf(rest, lcn + 1, clusterSize), size),
                    Described(rest, lcn + 1, clusterSize, size, blockSize), size, blockSize);
      }
    }
  }

  /** What the first cluster brings. */
  lemma Step(clusters: seq<Cluster>, lcn: nat, clusterSize: nat, size: nat, blockSize: nat)
    requires OffsetsFit(clusters, clusterSize)
    ensures clusters == [] ==>
              && Below(HeadsOf(clusters, lcn, clusterSize), size) == []
              && Described(clusters, lcn, clusterSize, size, blockSize) == []
    ensures clusters != [] ==>
              var start := lcn * clusterSize + clusters[0].offset;
              var heads := Below(HeadsOf(clusters, lcn, clusterSize), size);
              var later := Below(HeadsOf(clusters[1..], lcn + 1, clusterSize), size);
              var extents := Described(clusters, lcn, clusterSize, size, blockSize);
              var laterExtents := Described(clusters[1..], lcn + 1, clusterSize, size, blockSize);
              if clusters[0].kind == NonHead || start >= size then heads == later && extents == laterExtents else
              && heads == [Head(clusters[0].kind, start, clusters[0].block)] + later
              && extents != [] && extents[1..] == laterExtents
              && (laterExtents != [] ==> start <= laterExtents[0].uncomprOffset < size)
              && extents[0] == Extent(
                   if clusters[0].kind == Plain then NoCompression else Lz4, start,
                   (if laterExtents == [] then size else laterExtents[0].uncomprOffset) - start, clusters[0].block * blockSize)
  {
    if clusters != [] {
      var rest := clusters[1..];
      var heads, later := HeadsOf(clusters, lcn, clusterSize), HeadsOf(rest, lcn + 1, clusterSize);
      var start := lcn * clusterSize + clusters[0].offset;
      if clusters[0].kind == NonHead {
        assert heads == later;
      } else {
        var head := Head(clusters[0].kind, start, clusters[0].block);
        assert heads == [head] + later;
        BelowStep(head, later, size);
        hide Below, HeadsOf;
        var laterExtents := Described(rest, lcn + 1, clusterSize, size, blockSize);
        if laterExtents != [] {
          assert laterExtents[0] in laterExtents;
          ClusterBounds(lcn, 1, 0, clusterSize);
        }
      }
    }
  }

  /** The entries of a full map that has been given `heads`. */
  ghost predicate AreExtents(heads: seq<Head>, extents: seq<Extent>, size: nat, blockSize: nat) {
    && |heads| == |extents|
    && forall i :: 0 <= i < |heads| ==> extents[i] == ExtentOf(heads, i, |heads|, size, blockSize)
  }

  lemma NoExtents(size: nat, blockSize: nat)
    ensures AreExtents([], [], size, blockSize)
  {
  }

  lemma BelowStep(head: Head, later: seq<Head>, size: nat)
    ensures Below([head] + later, size) == if head.offset < size then [head] + Below(later, size) else Below(later, size)
  {
    assert ([head] + later)[1..] == later;
  }

  lemma FirstExtent(head: Head, later: seq<Head>, extents: seq<Extent>, size: nat, blockSize: nat)
    requires AreExtents(later, extents, size, blockSize) && head.kind != NonHead
    requires head.offset < size < TWO64
    requires extents != [] ==> head.offset <= extents[0].uncomprOffset < TWO64
    ensures var end := if extents == [] then size else extents[0].uncomprOffset;
            var first := Extent(if head.kind == Plain then NoCompression else Lz4, head.offset, end - head.offset,
                                head.block * blockSize);
            AreExtents([head] + later, [first] + extents, size, blockSize)
  {
    var heads := [head] + later;
    forall i | 0 < i < |heads|
      ensures ExtentOf(heads, i, |heads|, size, blockSize) == ExtentOf(later, i - 1, |later|, size, blockSize)
    {
      assert heads[i] == later[i - 1];
    }
    assert later != [] ==> heads[1] == later[0] && extents[0] == ExtentOf(later, 0, |later|, size, blockSize);
  }

  /** So the result of feeding the heads of a file to a map is what `MapExists` says. */
  lemma MapOfHeads(clusters: seq<Cluster>, clusterSize: nat, size: nat, blockSize: nat, capacity: nat)
    requires OffsetsFit(clusters, clusterSize) && size <= 0x2000_0000
    ensures var heads := HeadsOf(clusters, 0, clusterSize);
            && (WhenFull(Accept([], heads, capacity, size), capacity) ==
                if MapExists(clusters, clusterSize, size, blockSize, capacity) then Some(Below(heads, size)) else None)
            && AreExtents(Below(heads, size), Described(clusters, 0, clusterSize, size, blockSize), size, blockSize)
  {
    hide Described, ExtentOf, NoneBeyond, OffsetsFit, Below;
    AcceptedHeads(clusters, 0, clusterSize, size, [], capacity);
    HeadsAreDescribed(clusters, 0, clusterSize, size, blockSize);
    assert [] + Below(HeadsOf(clusters, 0, clusterSize), size) == Below(HeadsOf(clusters, 0, clusterSize), size);
  }

  // ----- the compact format -----------------------------------------------

  /**
   A cluster as a number: the low twelve bits of the offset, the code, and the rest of the offset. In a cluster of more
   than 4096 bytes the bits of the code are bits of the offset too.
   */
  function Entry(c: Cluster): nat {
    c.offset % 0x1000 + 0x1000 * Code(c.kind) + 0x4000 * (c.offset / 0x4000)
  }

  /** The cluster can be written down, for clusters of 4096 * 2^bits bytes. */
  predicate Fits(c: Cluster, bits: nat) {
    && c.block < 0x1_0000_0000
    && if c.kind == NonHead then c.offset < 0x1000 else
       && c.offset < 0x1000 * Pow2(bits) && c.offset < 0x1_0000
       && (bits > 0 ==> c.offset / 0x1000 % 2 == Code(c.kind) % 2)
       && (bits > 1 ==> c.offset / 0x1000 % 4 == Code(c.kind))
  }

  predicate AllFit(clusters: seq<Cluster>, bits: nat) {
    forall i :: 0 <= i < |clusters| ==> Fits(clusters[i], bits)
  }

  function Entries(group: seq<Cluster>): (entries: seq<nat>)
    ensures |entries| == |group| && forall i :: 0 <= i < |group| ==> entries[i] == Entry(group[i])
  {
    if group == [] then [] else [Entry(group[0])] + Entries(group[1..])
  }

  /** The heads of a group have consecutive blocks, the first of them `next`. */
  predicate Follow(group: seq<Cluster>, next: nat) {
    group == [] ||
    if group[0].kind == NonHead then Follow(group[1..], next)
    else group[0].block == next && Follow(group[1..], (next + 1) % 0x1_0000_0000)
  }

  function FirstBlock(group: seq<Cluster>): nat {
    if group == [] then 0 else if group[0].kind == NonHead then FirstBlock(group[1..]) else group[0].block
  }

  /** The address that is stored for a group: that of the block before its first one. */
  function Base(group: seq<Cluster>): nat {
    (FirstBlock(group) + 0xFFFF_FFFF) % 0x1_0000_0000
  }

  /** Two entries of 16 bits and the address; the second entry may be left empty. */
  function Group4(group: seq<Cluster>): (bytes: Bytes)
    requires 1 <= |group| <= 2
    ensures |bytes| == 8
  {
    ToLE(Entry(group[0]), 2) + (if |group| == 2 then ToLE(Entry(group[1]), 2) else [0, 0]) + ToLE(Base(group), 4)
  }

  /** Sixteen entries of 14 bits and the address. */
  function Group2(group: seq<Cluster>): (bytes: Bytes)
    requires |group| == 16
    ensures |bytes| == 32
  {
    Pack14(Entries(group), Base(group))
  }

  /** How many clusters the next group takes: 14-bit entries wherever a whole group of them is aligned to 32 bytes. */
  function GroupSize(count: nat, at: nat, compact: bool): (n: nat)
    requires count > 0
    ensures 1 <= n <= count
  {
    if compact && at % 32 == 0 && count >= 16 then 16 else Min(2, count)
  }

  function GroupBytes(group: seq<Cluster>): Bytes
    requires 1 <= |group| <= 2 || |group| == 16
  {
    if |group| == 16 then Group2(group) else Group4(group)
  }

  /** The indexes of a file, to be stored at position `at`. */
  function Indexes(clusters: seq<Cluster>, at: nat, compact: bool): Bytes {
    if clusters == [] then [] else
      var n := GroupSize(|clusters|, at, compact);
      var group := GroupBytes(clusters[..n]);
      group + Indexes(clusters[n..], at + |group|, compact)
  }

  /** In every group the blocks are consecutive. */
  predicate Addressable(clusters: seq<Cluster>, at: nat, compact: bool) {
    clusters == [] ||
    var n := GroupSize(|clusters|, at, compact);
    Follow(clusters[..n], FirstBlock(clusters[..n])) && Addressable(clusters[n..], at + |GroupBytes(clusters[..n])|, compact)
  }

  /** The map header: four bytes and five bits of it are not looked at. */
  datatype MapFormat = MapFormat(ignored: Bytes, compact: bool, bits: nat, spare: nat) {
    predicate Valid() {
      |ignored| == 4 && bits < 8 && spare < 32 && (compact ==> bits == 0)
    }

    function ClusterBytes(): (size: nat)
      ensures size > 0
    {
      0x1000 * Pow2(bits)
    }

    function Header(): (bytes: Bytes)
      requires Valid()
      ensures |bytes| == 8
    {
      ignored + [if compact then 1 else 0, 0, 0, bits + 8 * spare]
    }
  }

  /** An image that holds, at `at`, the header and the indexes of a file of `size` bytes made of these clusters. */
  ghost predicate HoldsMap(image: Bytes, at: nat, format: MapFormat, clusters: seq<Cluster>, size: nat) {
    && format.Valid() && (at % 8 == 0 || (at % 4 == 0 && !format.compact))
    && AllFit(clusters, format.bits) && Addressable(clusters, at + 8, format.compact)
    && Cover(clusters, format.ClusterBytes(), size)
    && ContainsAt(image, at, format.Header() + Indexes(clusters, at + 8, format.compact))
  }

  // ----- reading an entry -------------------------------------------------

  lemma EntryIsRead(c: Cluster, bits: nat)
    requires Fits(c, bits)
    ensures Entry(c) < 0x1_0000 && (bits == 0 ==> Entry(c) < 0x4000)
    ensures TypeOf(Entry(c) / 0x1000 % 4) == c.kind
    ensures c.kind != NonHead ==> Entry(c) % (0x1000 * Pow2(bits)) == c.offset
  {
    hide Pow2;
    var high, low := c.offset / 0x4000, c.offset % 0x1000;
    var middle := c.offset / 0x1000 % 4;
    OffsetParts(c.offset);
    EntryParts(high, Code(c.kind), low);
    EntryParts(high, middle, low);
    SmallClusters();
    if bits > 1 && c.kind != NonHead {
      assert Entry(c) == c.offset;
      Euclid(c.offset, 0x1000 * Pow2(bits), 0, c.offset);
    }
  }

  lemma OffsetParts(offset: nat)
    ensures offset == offset % 0x1000 + 0x1000 * (offset / 0x1000 % 4) + 0x4000 * (offset / 0x4000)
    ensures offset < 0x2000 ==> offset / 0x1000 % 4 == offset / 0x1000 % 2 == offset / 0x1000
  {
    Euclid(offset / 0x1000, 4, offset / 0x4000, offset / 0x1000 % 4);
  }

  lemma EntryParts(high: nat, code: nat, low: nat)
    requires code < 4 && low < 0x1000
    ensures var e := low + 0x1000 * code + 0x4000 * high;
            e / 0x1000 % 4 == code && e % 0x1000 == low && e % 0x2000 == 0x1000 * (code % 2) + low
  {
    var e := low + 0x1000 * code + 0x4000 * high;
    Euclid(e, 0x1000, code + 4 * high, low);
    Euclid(code + 4 * high, 4, high, code);
    Euclid(e, 0x2000, code / 2 + 2 * high, 0x1000 * (code % 2) + low);
  }

  lemma SmallClusters()
    ensures Pow2(0) == 1 && Pow2(1) == 2
  {
  }

  /** In clusters of 16384 bytes or more the reader takes the type of any entry for two bits of its offset as well. */
  lemma TypeIsInOffset(entry: nat, bits: nat)
    requires bits >= 2
    ensures entry % (0x1000 * Pow2(bits)) / 0x1000 % 4 == entry / 0x1000 % 4
  {
    hide Pow2;
    var k := FourTimes(bits);
    var size := 0x1000 * Pow2(bits);
    var q, r := entry / size, entry % size;
    var high, low := r / 0x1000, r % 0x1000;
    assert entry == size * q + r && size * q == 0x1000 * (4 * (k * q));
    Euclid(entry, 0x1000, 4 * (k * q) + high, low);
    Euclid(4 * (k * q) + high, 4, k * q + high / 4, high % 4);
  }

  lemma FourTimes(bits: nat) returns (k: nat)
    requires bits >= 2
    ensures Pow2(bits) == 4 * k
  {
    k := Pow2(bits - 2);
    assert Pow2(bits - 1) == 2 * k;
  }

  /** The heads read from the entries of a group are those that were written. */
  lemma {:induction false} GroupIsRead(group: seq<Cluster>, lcn: nat, bits: nat, next: nat)
    requires AllFit(group, bits) && Follow(group, next)
    ensures PackHeads(Entries(group), lcn, 0x1000 * Pow2(bits), next) == HeadsOf(group, lcn, 0x1000 * Pow2(bits))
    decreases |group|
  {
    hide BitOr, Pow2, Fits, Entry, PackHeads, HeadsOf, TypeOf;
    var size := 0x1000 * Pow2(bits);
    HeadsStep(group, lcn, size);
    PackStep(Entries(group), lcn, size, next);
    if group != [] {
      EntryIsRead(group[0], bits);
      assert Entries(group)[1..] == Entries(group[1..]);
      if group[0].kind == NonHead {
        GroupIsRead(group[1..], lcn + 1, bits, next);
      } else {
        GroupIsRead(group[1..], lcn + 1, bits, (next + 1) % TWO32);
        OrOffset(lcn, bits, group[0]);
      }
    }
  }

  lemma PackStep(entries: seq<nat>, lcn: nat, size: nat, next: nat)
    requires size > 0
    ensures entries == [] ==> PackHeads(entries, lcn, size, next) == []
    ensures entries != [] ==>
              var kind := TypeOf(entries[0] / 0x1000 % 4);
              var head := Head(kind, BitOr(lcn * size, entries[0] % size), next);
              PackHeads(entries, lcn, size, next) ==
              if kind == NonHead then PackHeads(entries[1..], lcn + 1, size, next)
              else [head] + PackHeads(entries[1..], lcn + 1, size, (next + 1) % TWO32)
  {
    hide BitOr, TypeOf;
  }

  lemma OrOffset(lcn: nat, bits: nat, c: Cluster)
    requires Fits(c, bits) && c.kind != NonHead
    ensures BitOr(lcn * (0x1000 * Pow2(bits)), c.offset) == lcn * (0x1000 * Pow2(bits)) + c.offset
  {
    hide BitOr;
    assert Pow2(4) == 16 && Pow2(8) == 256 && Pow2(12) == 4096;
    Pow2Add(12, bits);
    OrIsAdd(12 + bits, lcn, c.offset);
  }

  // ----- reading the groups -----------------------------------------------

  /** The reader's plan takes the groups that the encoder writes. */
  ghost predicate Agrees(plan: Plan, count: nat, at: nat, compact: bool) {
    && plan.Whole() && plan.initial + plan.compacted2b + plan.end == count
    && if !compact then plan.initial == plan.compacted2b == 0 else
       && at % 8 == 0 && plan.initial < 8 && plan.end < 16
       && (plan.initial > 0 ==> at % 32 + 4 * plan.initial == 32)
       && (plan.initial == 0 && plan.compacted2b > 0 ==> at % 32 == 0)
  }

  lemma PlanAgrees(advise: nat, count: nat, at: nat)
    requires advise <= 1 && (advise == 1 ==> at % 8 == 0)
    ensures Agrees(MakePlan(advise, at, count), count, at, advise == 1)
  {
    if advise == 1 {
      InitialIsDistance(at);
      hide InitialEntries;
      var initial := InitialEntries(at);
      if initial <= count {
        Euclid((count - initial) / 16 * 16, 16, (count - initial) / 16, 0);
      }
    }
  }

  lemma InitialIsDistance(at: nat)
    requires at % 8 == 0
    ensures InitialEntries(at) == if at % 32 == 0 then 0 else (32 - at % 32) / 4
    ensures InitialEntries(at) > 0 ==> at % 32 + 4 * InitialEntries(at) == 32
    ensures InitialEntries(at) < 8 && InitialEntries(at) % 2 == 0
  {
    var m := at / 8;
    Euclid(at, 32, m / 4, 8 * (m % 4));
    Euclid(32 - 8 * (m % 4), 4, 8 - 2 * (m % 4), 0);
  }

  lemma AgreesFacts(plan: Plan, count: nat, at: nat, compact: bool)
    requires Agrees(plan, count, at, compact)
    ensures plan.Whole() && plan.initial + plan.compacted2b + plan.end == count
  {
  }

  /** One turn of the reader's loops takes one group. */
  lemma TurnAgrees(plan: Plan, count: nat, at: nat, compact: bool)
    requires count > 0 && Agrees(plan, count, at, compact)
    ensures var n := GroupSize(count, at, compact);
            && Stride(plan) == (if n == 16 then 32 else 8)
            && Agrees(Next(plan), count - n, at + Stride(plan), compact)
            && (n == 16 <==> plan.initial == 0 && plan.compacted2b > 0)
            && (n == 1 <==> plan == Plan(0, 0, 1)) && (n == 16 || n <= 2) && (n == 16 ==> compact)
  {
    if compact {
      EightFurther(at);
    }
  }

  lemma EightFurther(at: nat)
    requires at % 8 == 0
    ensures (at + 8) % 8 == 0 && (at + 32) % 8 == 0 && (at + 32) % 32 == at % 32
    ensures (at + 8) % 32 == if at % 32 == 24 then 0 else at % 32 + 8
  {
    var q, r := at / 8 / 4, at / 8 % 4;
    assert at == 32 * q + 8 * r;
    Euclid(at, 32, q, 8 * r);
    Euclid(at + 32, 32, q + 1, 8 * r);
    Euclid(at + 8, 32, if r == 3 then q + 1 else q, if r == 3 then 0 else 8 * r + 8);
    Euclid(at + 8, 8, at / 8 + 1, 0);
    Euclid(at + 32, 8, at / 8 + 4, 0);
  }

  lemma GroupIsUnpacked(group: seq<Cluster>, bits: nat, rest: Bytes)
    requires AllFit(group, bits) && (1 <= |group| <= 2 || |group| == 16) && (|group| == 16 ==> bits == 0)
    ensures var data := GroupBytes(group) + rest;
            && (|group| == 1 ==> Single4B(data) == Pack(Entries(group), Base(group)))
            && (|group| == 2 ==> Pack4B(data) == Pack(Entries(group), Base(group)))
            && (|group| == 16 ==> Pack2B(data) == Pack(Entries(group), Base(group)))
            && data[|GroupBytes(group)|..] == rest
  {
    hide LE, ToLE, Pack14, Unpack14, Fits, Entry, FirstBlock;
    var data := GroupBytes(group) + rest;
    EntryIsRead(group[0], bits);
    if |group| == 16 {
      assert data[..32] == GroupBytes(group);
      SixteenEntries(group, bits);
      assert data[28..32] == GroupBytes(group)[28..32];
      assert Pack2B(data).entries == Entries(group);
    } else {
      assert Pow256(2) == 0x1_0000 && Pow256(4) == TWO32;
      LEToLE(Entry(group[0]), 2);
      LEToLE(Base(group), 4);
      assert data[0..2] == ToLE(Entry(group[0]), 2) && data[4..8] == ToLE(Base(group), 4);
      if |group| == 2 {
        EntryIsRead(group[1], bits);
        LEToLE(Entry(group[1]), 2);
        assert data[2..4] == ToLE(Entry(group[1]), 2);
      }
    }
  }

  lemma SixteenEntries(group: seq<Cluster>, bits: nat)
    requires |group| == 16 && AllFit(group, 0)
    ensures forall i :: 0 <= i < 16 ==> Unpack14(Group2(group), i) == Entry(group[i])
    ensures Load32(Group2(group), 28) == Base(group)
  {
    hide Pack14, Unpack14, Load32, Fits, Entry, FirstBlock;
    forall i | 0 <= i < 16
      ensures Entry(group[i]) < ENTRY_LIMIT
    {
      EntryIsRead(group[i], 0);
    }
    forall i | 0 <= i < 16
      ensures Unpack14(Group2(group), i) == Entry(group[i])
    {
      PackRoundTrip(Entries(group), Base(group), i);
    }
    PackRoundTrip(Entries(group), Base(group), 0);
  }

  /** The loops of the reader find the heads that the encoder was given. */
  lemma {:induction false} IndexesAreRead(clusters: seq<Cluster>, at: nat, compact: bool, plan: Plan, lcn: nat,
                                          bits: nat)
    requires Agrees(plan, |clusters|, at, compact) && AllFit(clusters, bits) && (compact ==> bits == 0)
    requires Addressable(clusters, at, compact)
    ensures |Indexes(clusters, at, compact)| == plan.IndexesSize()
    ensures PacksHeads(CompactPacks(Indexes(clusters, at, compact), plan), lcn, 0x1000 * Pow2(bits))
            == HeadsOf(clusters, lcn, 0x1000 * Pow2(bits))
    decreases |clusters|
  {
    hide PackHeads, PacksHeads, CompactPacks, FirstPack, Agrees, GroupBytes, GroupSize, Follow, FirstBlock, Indexes;
    hide Addressable;
    hide Plan.Whole, Plan.IndexesSize, Stride, Next, HeadsOf, Fits, Pow2, Entries;
    if clusters == [] {
      NoIndexes(at, compact, plan, lcn, 0x1000 * Pow2(bits));
    } else {
      var n := GroupSize(|clusters|, at, compact);
      AgreesFacts(plan, |clusters|, at, compact);
      TurnAgrees(plan, |clusters|, at, compact);
      IndexesStep(clusters, at, compact);
      IndexesAreRead(clusters[n..], at + Stride(plan), compact, Next(plan), lcn + n, bits);
      FirstGroupIsRead(clusters[..n], clusters[n..], at + Stride(plan), compact, plan, lcn, bits);
      assert clusters[..n] + clusters[n..] == clusters;
    }
  }

  /** When the groups after the first are read right, so are all. */
  lemma FirstGroupIsRead(group: seq<Cluster>, rest: seq<Cluster>, at: nat, compact: bool, plan: Plan, lcn: nat,
                         bits: nat)
    requires AllFit(group, bits) && (1 <= |group| <= 2 || |group| == 16) && (|group| == 16 ==> bits == 0)
    requires Follow(group, FirstBlock(group)) && plan.Whole() && plan.initial + plan.compacted2b + plan.end > 0
    requires |group| == 16 <==> plan.initial == 0 && plan.compacted2b > 0
    requires |group| == 1 <==> plan == Plan(0, 0, 1)
    requires var size, later := 0x1000 * Pow2(bits), Indexes(rest, at, compact);
             && |later| == Next(plan).IndexesSize()
             && PacksHeads(CompactPacks(later, Next(plan)), lcn + |group|, size) == HeadsOf(rest, lcn + |group|, size)
    ensures var size, data := 0x1000 * Pow2(bits), GroupBytes(group) + Indexes(rest, at, compact);
            && |data| == plan.IndexesSize()
            && PacksHeads(CompactPacks(data, plan), lcn, size) == HeadsOf(group + rest, lcn, size)
  {
    hide PackHeads, PacksHeads, CompactPacks, FirstPack, AllFit, GroupBytes, Follow, FirstBlock, Indexes, Base;
    hide Plan.Whole, Plan.IndexesSize, Stride, Next, HeadsOf, Pow2, Entries;
    var later := Indexes(rest, at, compact);
    FirstPackIsRead(group, bits, later, plan);
    PacksHeadsStep(GroupBytes(group) + later, plan, lcn, 0x1000 * Pow2(bits));
    HeadsAreRead(group, lcn, bits);
    HeadsJoin(group, rest, lcn, 0x1000 * Pow2(bits));
  }

  lemma IndexesStep(clusters: seq<Cluster>, at: nat, compact: bool)
    requires clusters != []
    ensures var n := GroupSize(|clusters|, at, compact);
            var stride := if n == 16 then 32 else 8;
            && Indexes(clusters, at, compact) == GroupBytes(clusters[..n]) + Indexes(clusters[n..], at + stride, compact)
            && (Addressable(clusters, at, compact) ==>
                  Follow(clusters[..n], FirstBlock(clusters[..n])) && Addressable(clusters[n..], at + stride, compact))
  {
  }

  lemma FirstPackIsRead(group: seq<Cluster>, bits: nat, later: Bytes, plan: Plan)
    requires AllFit(group, bits) && (1 <= |group| <= 2 || |group| == 16) && (|group| == 16 ==> bits == 0)
    requires plan.initial + plan.compacted2b + plan.end > 0
    requires |group| == 16 <==> plan.initial == 0 && plan.compacted2b > 0
    requires |group| == 1 <==> plan == Plan(0, 0, 1)
    ensures var data := GroupBytes(group) + later;
            && |data| >= Stride(plan) && FirstPack(data, plan) == Pack(Entries(group), Base(group))
            && data[Stride(plan)..] == later
  {
    hide Pack4B, Pack2B, Single4B, Entries, Base, Fits, Group2, Group4;
    GroupIsUnpacked(group, bits, later);
  }

  lemma HeadsAreRead(group: seq<Cluster>, lcn: nat, bits: nat)
    requires AllFit(group, bits) && Follow(group, FirstBlock(group))
    ensures PackHeads(Entries(group), lcn, 0x1000 * Pow2(bits), (Base(group) + 1) % TWO32) == HeadsOf(group, lcn, 0x1000 * Pow2(bits))
  {
    hide PackHeads, HeadsOf, BitOr, Pow2, Fits, Entries, FirstBlock, Follow;
    FirstBlockFits(group, bits);
    GroupIsRead(group, lcn, bits, FirstBlock(group));
  }

  lemma {:induction false} FirstBlockFits(group: seq<Cluster>, bits: nat)
    requires AllFit(group, bits)
    ensures FirstBlock(group) < TWO32
  {
    if group != [] {
      FirstBlockFits(group[1..], bits);
    }
  }

  lemma NoIndexes(at: nat, compact: bool, plan: Plan, lcn: nat, size: nat)
    requires Agrees(plan, 0, at, compact) && size > 0
    ensures |Indexes([], at, compact)| == plan.IndexesSize()
    ensures PacksHeads(CompactPacks(Indexes([], at, compact), plan), lcn, size) == HeadsOf([], lcn, size)
  {
    hide CompactPacks, PacksHeads, HeadsOf, Indexes, Plan.IndexesSize;
    assert plan == Plan(0, 0, 0);
    NothingPlanned(plan);
    NothingPacked(lcn, size);
    NothingWritten(at, compact);
    HeadsStep([], lcn, size);
  }

  lemma NothingPlanned(plan: Plan)
    requires plan == Plan(0, 0, 0)
    ensures plan.Whole() && plan.IndexesSize() == 0 && CompactPacks([], plan) == []
  {
  }

  lemma NothingPacked(lcn: nat, size: nat)
    requires size > 0
    ensures PacksHeads([], lcn, size) == []
  {
    hide PackHeads;
  }

  lemma NothingWritten(at: nat, compact: bool)
    ensures Indexes([], at, compact) == []
  {
    hide GroupBytes, GroupSize;
  }

  // ----- the map of a file in the compact format --------------------------

  lemma FitMeansOffsetsFit(image: Bytes, at: nat, format: MapFormat, clusters: seq<Cluster>, size: nat)
    requires HoldsMap(image, at, format, clusters, size)
    ensures OffsetsFit(clusters, format.ClusterBytes())
  {
  }

  lemma HeaderIsRead(format: MapFormat)
    requires format.Valid()
    ensures ParseMapHeader(format.Header()) == MapHeader(if format.compact then 1 else 0, 0, 0, format.bits)
    ensures ClusterSize(format.Header()) == format.ClusterBytes() && IsSupported(format.Header())
  {
    var header := format.Header();
    assert header[4..6] == [header[4], header[5]];
    LESmall(header[4], 0);
    SmallClusters();
  }

  /** The map header and the indexes of an encoding, as the reader finds them. */
  lemma EncodingInPlace(image: Bytes, at: nat, format: MapFormat, clusters: seq<Cluster>, size: nat)
    requires HoldsMap(image, at, format, clusters, size)
    ensures InRange(image, at, 8) && Slice(image, at, 8) == format.Header()
    ensures var indexes := Indexes(clusters, at + 8, format.compact);
            InRange(image, at + 8, |indexes|) && Slice(image, at + 8, |indexes|) == indexes
  {
    hide Indexes, AllFit, Addressable, Cover;
    var indexes := Indexes(clusters, at + 8, format.compact);
    var all := format.Header() + indexes;
    ContainedSlice(image, at, all, 0, 8);
    ContainedSlice(image, at, all, 8, |indexes|);
    assert Slice(all, 0, 8) == format.Header() && Slice(all, 8, |indexes|) == indexes;
  }

  /** When there is a map of an image that holds an encoding. */
  ghost predicate HasMap(image: Bytes, format: MapFormat, clusters: seq<Cluster>, size: nat, compressedBlocks: nat)
    requires OffsetsFit(clusters, format.ClusterBytes())
  {
    compressedBlocks <= |image| / 4096 && MapExists(clusters, format.ClusterBytes(), size, 4096, compressedBlocks)
  }

  lemma CompactEncodingIsRead(image: Bytes, at: nat, format: MapFormat, clusters: seq<Cluster>, capacity: nat,
                              size: nat)
    requires HoldsMap(image, at, format, clusters, size)
    ensures OffsetsFit(clusters, format.ClusterBytes())
    ensures CompactResult(image, at, capacity, 4096, size) ==
            if HasMap(image, format, clusters, size, capacity)
            then Some(Below(HeadsOf(clusters, 0, format.ClusterBytes()), size)) else None
  {
    hide HoldsMap, OffsetsFit, HeadsOf, CompactHeads, CompactPlan, WhenFull, Accept, Below, MapExists, Plan.Whole;
    hide Plan.IndexesSize;
    hide IsSupported, Indexes, MapFormat.Header, MapFormat.ClusterBytes, ContainsAt;
    FitMeansOffsetsFit(image, at, format, clusters, size);
    EncodingInPlace(image, at, format, clusters, size);
    SupportedOffset(image, at, format, clusters, size);
    if size <= 0x2000_0000 {
      CompactHeadsAreRead(image, at, format, clusters, size);
      MapOfHeads(clusters, format.ClusterBytes(), size, 4096, capacity);
    } else {
      TooLarge(clusters, format.ClusterBytes(), size, 4096, capacity);
    }
  }

  lemma SupportedOffset(image: Bytes, at: nat, format: MapFormat, clusters: seq<Cluster>, size: nat)
    requires HoldsMap(image, at, format, clusters, size)
    ensures at % 4 == 0 && IsSupported(format.Header())
  {
    hide AllFit, Addressable, Cover, Indexes, ContainsAt, IsSupported, ParseMapHeader, ClusterSize, MapFormat.Header;
    HeaderIsRead(format);
  }

  lemma CompactHeadsAreRead(image: Bytes, at: nat, format: MapFormat, clusters: seq<Cluster>, size: nat)
    requires HoldsMap(image, at, format, clusters, size)
    ensures var plan, indexes := CompactPlan(format.Header(), at, size), Indexes(clusters, at + 8, format.compact);
            && plan.Whole() && |indexes| == plan.IndexesSize()
            && CompactHeads(format.Header(), indexes, at, size) == HeadsOf(clusters, 0, format.ClusterBytes())
  {
    hide AllFit, Addressable, Agrees, Indexes, HeadsOf, PacksHeads, CompactPacks, ParseMapHeader, ClusterSize, Pow2;
    hide ContainsAt;
    hide Cover, DivRoundUp, MakePlan, Plan.Whole, Plan.IndexesSize, MapFormat.Header;
    var advise := if format.compact then 1 else 0;
    var plan := MakePlan(advise, at + 8, |clusters|);
    HeaderIsRead(format);
    CoverCounts(clusters, format.ClusterBytes(), size);
    PlanAgrees(advise, |clusters|, at + 8);
    AgreesFacts(plan, |clusters|, at + 8, format.compact);
    IndexesAreRead(clusters, at + 8, format.compact, plan, 0, format.bits);
  }

  lemma CoverCounts(clusters: seq<Cluster>, clusterSize: nat, size: nat)
    requires Cover(clusters, clusterSize, size) && clusterSize > 0
    ensures DivRoundUp(size, clusterSize) == |clusters|
  {
    assert clusterSize * |clusters| == (|clusters| - 1) * clusterSize + clusterSize;
    DivRoundUpUnique(size, clusterSize, |clusters|);
  }

  lemma TooLarge(clusters: seq<Cluster>, clusterSize: nat, size: nat, blockSize: nat, capacity: nat)
    requires OffsetsFit(clusters, clusterSize) && size > 0x2000_0000
    ensures !MapExists(clusters, clusterSize, size, blockSize, capacity)
  {
  }

  /**
   Over any image that holds the encoding of a list of clusters, whatever else it holds, the map that is built from it
   is that of the extents that were written, and there is one exactly when the extents are as many as they should be.
   */
  method CompactRoundTrip(file: ImageFile, ghost format: MapFormat, ghost clusters: seq<Cluster>, extentsOffset: nat,
                          compressedBlocks: nat, size: nat)
    returns (map': ErofsExtentMap?)
    requires file.Reliable() && 1 <= compressedBlocks < 0x1_0000_0000
    requires HoldsMap(file.image, extentsOffset, format, clusters, size)
    modifies file`calls
    ensures OffsetsFit(clusters, format.ClusterBytes())
    ensures map' != null <==> HasMap(file.image, format, clusters, size, compressedBlocks)
    ensures map' != null ==> map'.entries == Described(clusters, 0, format.ClusterBytes(), size, 4096)
    ensures map' != null ==>
              && fresh(map') && map'.Full() && map'.blockSize == 4096 && map'.uncomprSize == size <= 0x2000_0000
              && Partition(map'.entries, size)
  {
    hide HoldsMap, HasMap, OffsetsFit, HeadsOf, Below, Described, CompactResult, Pow2, ExtentOf, AreExtents;
    hide ImageFile.AnswersTruly, Partition;
    CompactEncodingIsRead(file.image, extentsOffset, format, clusters, compressedBlocks, size);
    var outside;
    map', outside := ErofsExtentMap.FromCompactIndexes(file, extentsOffset, compressedBlocks, 4096, size);
    if map' != null {
      MapOfHeads(clusters, format.ClusterBytes(), size, 4096, compressedBlocks);
      EntriesAreExtents(map', Described(clusters, 0, format.ClusterBytes(), size, 4096));
    }
  }

  /** Any other block size, a misaligned offset, another algorithm and any other advice are refused. */
  lemma CompactMapNeeds(image: Bytes, at: nat, capacity: nat, blockSize: nat, size: nat)
    requires blockSize > 0 && CompactResult(image, at, capacity, blockSize, size).Some?
    ensures blockSize == 4096 && at % 4 == 0 && at + 8 <= |image| && capacity <= |image| / 4096 && size <= 0x2000_0000
    ensures image[at + 4] <= 1 && image[at + 5] == 0 && image[at + 6] == 0
    ensures image[at + 4] == 1 ==> image[at + 7] % 8 == 0
  {
    hide Accept, CompactHeads, CompactPlan, WhenFull, ParseMapHeader, ClusterSize;
    HeaderBytes(Slice(image, at, 8));
  }

  lemma HeaderBytes(header: Bytes)
    requires |header| == 8 && IsSupported(header)
    ensures header[4] <= 1 && header[5] == 0 && header[6] == 0
    ensures header[4] == 1 ==> header[7] % 8 == 0
  {
    hide Pow2;
    assert header[4..6] == [header[4], header[5]];
    LESmall(header[4], header[5]);
    TwoOrMore(header[7] % 8);
  }

  lemma TwoOrMore(k: nat)
    ensures Pow2(k) == 1 ==> k == 0
  {
  }

  lemma LegacyMapNeeds(image: Bytes, at: nat, capacity: nat, blockSize: nat, size: nat)
    requires blockSize > 0 && LegacyResult(image, at, capacity, blockSize, size).Some?
    ensures at % 4 == 0 && at + 8 <= |image| && image[at + 6] == 0 && capacity <= |image| / blockSize && size <= 0x2000_0000
  {
    hide Accept, LegacyHeads, WhenFull, Pow2, LE;
  }

  lemma EntriesAreExtents(m: ErofsExtentMap, extents: seq<Extent>)
    requires m.Full() && AreExtents(m.heads, extents, m.uncomprSize, m.blockSize)
    ensures m.entries == extents
  {
  }

  /** A file whose heads all have consecutive blocks can be written down. */
  lemma {:induction false} ConsecutiveIsAddressable(clusters: seq<Cluster>, first: nat, at: nat, compact: bool)
    requires Follow(clusters, first)
    ensures Addressable(clusters, at, compact)
    decreases |clusters|
  {
    if clusters != [] {
      var n := GroupSize(|clusters|, at, compact);
      var next := FollowParts(clusters, first, n);
      FollowFirst(clusters[..n], first);
      ConsecutiveIsAddressable(clusters[n..], next, at + |GroupBytes(clusters[..n])|, compact);
    }
  }

  /** So there is an image that holds its map: one that starts with it, whatever comes after. */
  lemma AnyFileCanBeWritten(format: MapFormat, clusters: seq<Cluster>, first: nat, size: nat, rest: Bytes)
    requires format.Valid() && AllFit(clusters, format.bits) && Follow(clusters, first)
    requires Cover(clusters, format.ClusterBytes(), size)
    ensures HoldsMap(format.Header() + Indexes(clusters, 8, format.compact) + rest, 0, format, clusters, size)
  {
    hide AllFit, Cover, Indexes, Follow, MapFormat.Header;
    ConsecutiveIsAddressable(clusters, first, 8, format.compact);
    var written := format.Header() + Indexes(clusters, 8, format.compact);
    assert Slice(written + rest, 0, |written|) == written;
  }

  lemma {:induction false} FollowParts(group: seq<Cluster>, first: nat, n: nat) returns (next: nat)
    requires Follow(group, first) && n <= |group|
    ensures Follow(group[..n], first) && Follow(group[n..], next)
    decreases n
  {
    next := first;
    if n > 0 {
      next := FollowParts(group[1..], if group[0].kind == NonHead then first else (first + 1) % TWO32, n - 1);
      assert group[..n][1..] == group[1..][..n - 1] && group[n..] == group[1..][n - 1..];
    } else {
      assert group[0..] == group;
    }
  }

  lemma {:induction false} FollowFirst(group: seq<Cluster>, first: nat)
    requires Follow(group, first)
    ensures Follow(group, FirstBlock(group))
  {
    if group != [] && group[0].kind == NonHead {
      FollowFirst(group[1..], first);
    }
  }

  // ----- the legacy format ------------------------------------------------

  /** The cluster can be written as a legacy record, which holds a block in any case. */
  predicate FitsRecord(c: Cluster, clusterSize: nat) {
    c.block < 0x1_0000_0000 && c.offset < 0x1_0000 && (c.kind != NonHead ==> c.offset < clusterSize)
  }

  predicate AllFitRecords(clusters: seq<Cluster>, clusterSize: nat) {
    forall i :: 0 <= i < |clusters| ==> FitsRecord(clusters[i], clusterSize)
  }

  function Record(c: Cluster): (bytes: Bytes)
    ensures |bytes| == 8
  {
    ToLE(Code(c.kind), 2) + ToLE(c.offset, 2) + ToLE(c.block, 4)
  }

  function Records(clusters: seq<Cluster>): (bytes: Bytes)
    ensures |bytes| == 8 * |clusters|
  {
    if clusters == [] then [] else Record(clusters[0]) + Records(clusters[1..])
  }

  /** The header, of which the reader looks at two bytes, a gap, and one record for each cluster. */
  function LegacyBytes(ignored: Bytes, bits: nat, spare: nat, gap: Bytes, clusters: seq<Cluster>): Bytes
    requires |ignored| == 6 && |gap| == 8 && bits < 8 && spare < 32
  {
    ignored + [0, bits + 8 * spare] + gap + Records(clusters)
  }

  lemma RecordIsRead(c: Cluster, clusterSize: nat, rest: Bytes)
    requires FitsRecord(c, clusterSize)
    ensures var bytes := Record(c) + rest;
            && LE(bytes[0..2]) == Code(c.kind) && LE(bytes[2..4]) == c.offset && Load32(bytes, 4) == c.block
            && bytes[8..] == rest
  {
    hide LE, ToLE;
    var bytes := Record(c) + rest;
    assert Pow256(2) == 0x1_0000 && Pow256(4) == TWO32;
    LEToLE(Code(c.kind), 2);
    LEToLE(c.offset, 2);
    LEToLE(c.block, 4);
    assert bytes[0..2] == ToLE(Code(c.kind), 2) && bytes[2..4] == ToLE(c.offset, 2) && bytes[4..8] == ToLE(c.block, 4);
  }

  lemma {:induction false} RecordsAreRead(clusters: seq<Cluster>, lcn: nat, k: nat)
    requires AllFitRecords(clusters, Pow2(k))
    ensures LegacyHeads(Records(clusters), lcn, Pow2(k)) == HeadsOf(clusters, lcn, Pow2(k))
    decreases |clusters|
  {
    hide BitOr, LE, Load32, Pow2, Record, HeadsOf, FitsRecord;
    HeadsStep(clusters, lcn, Pow2(k));
    if clusters != [] {
      RecordIsRead(clusters[0], Pow2(k), Records(clusters[1..]));
      RecordsAreRead(clusters[1..], lcn + 1, k);
      if clusters[0].kind != NonHead {
        RecordOffset(clusters[0], k);
        OrIsAdd(k, lcn, clusters[0].offset);
      }
    }
  }

  lemma RecordOffset(c: Cluster, k: nat)
    requires FitsRecord(c, Pow2(k)) && c.kind != NonHead
    ensures c.offset < Pow2(k)
  {
  }

  lemma RecordsFit(clusters: seq<Cluster>, clusterSize: nat)
    requires AllFitRecords(clusters, clusterSize)
    ensures OffsetsFit(clusters, clusterSize)
  {
  }

  lemma LegacyHeaderIsRead(ignored: Bytes, bits: nat, spare: nat)
    requires |ignored| == 6 && bits < 8 && spare < 32
    ensures var header := ParseMapHeader(ignored + [0, bits + 8 * spare]);
            header.algorithm1 == 0 && header.algorithm2 == 0 && header.clusterBits == bits
  {
    hide LE;
  }

  lemma LegacyInPlace(image: Bytes, ignored: Bytes, bits: nat, spare: nat, gap: Bytes, clusters: seq<Cluster>, at: nat)
    requires |ignored| == 6 && |gap| == 8 && bits < 8 && spare < 32
    requires ContainsAt(image, at, LegacyBytes(ignored, bits, spare, gap, clusters))
    ensures InRange(image, at, 8) && Slice(image, at, 8) == ignored + [0, bits + 8 * spare]
    ensures var records := Records(clusters);
            InRange(image, at + 16, |records|) && Slice(image, at + 16, |records|) == records
  {
    hide Records, Slice, ContainsAt;
    var header, records := ignored + [0, bits + 8 * spare], Records(clusters);
    var all := LegacyBytes(ignored, bits, spare, gap, clusters);
    ContainedSlice(image, at, all, 0, 8);
    ContainedSlice(image, at, all, 16, |records|);
    SliceOfParts(header, gap, records);
  }

  lemma SliceOfParts(a: Bytes, b: Bytes, c: Bytes)
    ensures Slice(a + b + c, 0, |a|) == a
    ensures Slice(a + b + c, |a| + |b|, |c|) == c
  {
    assert a + b + c == a + (b + c);
  }

  lemma LegacyEncodingIsRead(image: Bytes, ignored: Bytes, bits: nat, spare: nat, gap: Bytes, clusters: seq<Cluster>,
                             at: nat, capacity: nat, k: nat, size: nat)
    requires |ignored| == 6 && |gap| == 8 && bits < 8 && spare < 32 && at % 4 == 0
    requires AllFitRecords(clusters, Pow2(k) * Pow2(bits)) && Cover(clusters, Pow2(k) * Pow2(bits), size)
    requires ContainsAt(image, at, LegacyBytes(ignored, bits, spare, gap, clusters))
    ensures OffsetsFit(clusters, Pow2(k) * Pow2(bits))
    ensures LegacyResult(image, at, capacity, Pow2(k), size) ==
            if capacity <= |image| / Pow2(k) && MapExists(clusters, Pow2(k) * Pow2(bits), size, Pow2(k), capacity)
            then Some(Below(HeadsOf(clusters, 0, Pow2(k) * Pow2(bits)), size)) else None
  {
    hide AllFitRecords, OffsetsFit, LegacyBytes, Records, HeadsOf, LegacyHeads, ParseMapHeader, Pow2, ContainsAt;
    hide WhenFull;
    hide Accept, Below, DivRoundUp, MapExists;
    var clusterSize := Pow2(k) * Pow2(bits);
    RecordsFit(clusters, clusterSize);
    LegacyInPlace(image, ignored, bits, spare, gap, clusters, at);
    LegacyHeaderIsRead(ignored, bits, spare);
    Pow2Add(k, bits);
    if size <= 0x2000_0000 {
      CoverCounts(clusters, clusterSize, size);
      RecordsAreRead(clusters, 0, k + bits);
      MapOfHeads(clusters, clusterSize, size, Pow2(k), capacity);
    } else {
      TooLarge(clusters, clusterSize, size, Pow2(k), capacity);
    }
  }

  /** The same for the legacy format, with blocks of any power of two. */
  method LegacyRoundTrip(file: ImageFile, ghost ignored: Bytes, ghost bits: nat, ghost spare: nat, ghost gap: Bytes,
                         ghost clusters: seq<Cluster>, extentsOffset: nat, compressedBlocks: nat, k: nat, size: nat)
    returns (map': ErofsExtentMap?)
    requires file.Reliable() && 1 <= compressedBlocks < 0x1_0000_0000
    requires |ignored| == 6 && |gap| == 8 && bits < 8 && spare < 32 && extentsOffset % 4 == 0
    requires AllFitRecords(clusters, Pow2(k) * Pow2(bits)) && Cover(clusters, Pow2(k) * Pow2(bits), size)
    requires ContainsAt(file.image, extentsOffset, LegacyBytes(ignored, bits, spare, gap, clusters))
    modifies file`calls
    ensures OffsetsFit(clusters, Pow2(k) * Pow2(bits))
    ensures map' != null <==>
              && compressedBlocks <= |file.image| / Pow2(k)
              && MapExists(clusters, Pow2(k) * Pow2(bits), size, Pow2(k), compressedBlocks)
    ensures map' != null ==> map'.entries == Described(clusters, 0, Pow2(k) * Pow2(bits), size, Pow2(k))
  {
    hide AllFitRecords, OffsetsFit, LegacyBytes, ContainsAt, HeadsOf, Below, MapExists, Described, LegacyResult, Pow2;
    hide ExtentOf, AreExtents, AllLegacyHeads, Increasing, Partition, ImageFile.AnswersTruly;
    LegacyEncodingIsRead(file.image, ignored, bits, spare, gap, clusters, extentsOffset, compressedBlocks, k, size);
    map' := ErofsExtentMap.FromLegacyIndexes(file, extentsOffset, compressedBlocks, Pow2(k), size);
    if map' != null {
      MapOfHeads(clusters, Pow2(k) * Pow2(bits), size, Pow2(k), compressedBlocks);
      EntriesAreExtents(map', Described(clusters, 0, Pow2(k) * Pow2(bits), size, Pow2(k)));
    }
  }
}
