/**
 The map from ranges of an uncompressed file to compressed blocks. It is built from the cluster indexes of an
 EROFS inode, in the compact or the legacy format, and searched by uncompressed offset.
 */
module ExtentMap {
  import opened Arithmetic
  import opened Bytes
  import opened Files
  import opened IndexPacking
  import opened MerkleLayout
  import opened Wrappers

  const MAX_UNCOMPRESSED_SIZE: nat := 512 * 1024 * 1024

  datatype LclusterType = Plain | Head1 | NonHead | Head2

  datatype Compression = NoCompression | Lz4 | Invalid

  datatype Extent = Extent(compression: Compression, uncomprOffset: nat, uncomprSize: nat, comprBlockAddr: nat)

  /** A cluster index that starts an extent. */
  datatype Head = Head(kind: LclusterType, offset: nat, block: nat)

  function TypeOf(bits: nat): LclusterType
    requires bits < 4
  {
    if bits == 0 then Plain else if bits == 1 then Head1 else if bits == 2 then NonHead else Head2
  }

  // ----- from index entries to heads --------------------------------------

  /** A group of consecutive entries that share one block address. */
  datatype Pack = Pack(entries: seq<nat>, base: nat)

  /** The heads among the entries of clusters `lcn`, `lcn + 1`, ...; only heads use up a block address. */
  function PackHeads(entries: seq<nat>, lcn: nat, clusterSize: nat, blkaddr: nat): seq<Head>
    requires clusterSize > 0
  {
    if entries == [] then [] else
      var kind := TypeOf(entries[0] / 0x1000 % 4);
      if kind == NonHead then
        PackHeads(entries[1..], lcn + 1, clusterSize, blkaddr)
      else
        [Head(kind, BitOr(lcn * clusterSize, entries[0] % clusterSize), blkaddr)]
          + PackHeads(entries[1..], lcn + 1, clusterSize, (blkaddr + 1) % TWO32)
  }

  function PacksHeads(packs: seq<Pack>, lcn: nat, clusterSize: nat): seq<Head>
    requires clusterSize > 0
  {
    if packs == [] then [] else
      PackHeads(packs[0].entries, lcn, clusterSize, (packs[0].base + 1) % TWO32)
        + PacksHeads(packs[1..], lcn + |packs[0].entries|, clusterSize)
  }

  function EntryCount(packs: seq<Pack>): nat {
    if packs == [] then 0 else |packs[0].entries| + EntryCount(packs[1..])
  }

  /** Bitwise or of two numbers of any size. */
  function BitOr(a: nat, b: nat): nat {
    if a == 0 then b else if b == 0 then a else
      2 * BitOr(a / 2, b / 2) + (if a % 2 == 1 || b % 2 == 1 then 1 else 0)
  }

  /** When the low bits of one operand are free, bitwise or is addition. */
  lemma {:induction false} OrIsAdd(k: nat, high: nat, low: nat)
    requires low < Pow2(k)
    ensures BitOr(high * Pow2(k), low) == high * Pow2(k) + low
    decreases k
  {
    if k > 0 {
      hide BitOr;
      var p := Pow2(k - 1);
      assert high * Pow2(k) == 2 * (high * p);
      BitOrHalves(high * p, low);
      OrIsAdd(k - 1, high, low / 2);
    } else {
      OrWithZero(high);
    }
  }

  /** The lowest bit of an even number is free. */
  lemma BitOrHalves(x: nat, low: nat)
    ensures BitOr(2 * x, low) == 2 * BitOr(x, low / 2) + low % 2
  {
  }

  // ----- the order of the heads -------------------------------------------

  ghost predicate Increasing(heads: seq<Head>) {
    forall i, j :: 0 <= i < j < |heads| ==> heads[i].offset < heads[j].offset
  }

  ghost predicate InsideRange(heads: seq<Head>, from: nat, to: nat) {
    forall i :: 0 <= i < |heads| ==> from <= heads[i].offset < to
  }

  lemma JoinIncreasing(a: seq<Head>, b: seq<Head>, from: nat, middle: nat, to: nat)
    requires Increasing(a) && Increasing(b) && from <= middle <= to
    requires InsideRange(a, from, middle) && InsideRange(b, middle, to)
    ensures Increasing(a + b) && InsideRange(a + b, from, to)
  {
  }

  lemma ClusterBounds(lcn: nat, n: nat, rest: nat, size: nat)
    ensures (lcn + n) * size == lcn * size + n * size
    ensures lcn * size <= (lcn + n) * size <= (lcn + (n + rest)) * size
  {
    assert (lcn + n) * size == lcn * size + n * size;
    assert (lcn + (n + rest)) * size == (lcn + n) * size + rest * size;
    MulNonNegative(size, n);
    MulNonNegative(size, rest);
  }

  /** A head lies in its own cluster, so the heads come in strictly increasing order. */
  lemma {:induction false} PackHeadsOrdered(entries: seq<nat>, lcn: nat, k: nat, blkaddr: nat)
    ensures var heads := PackHeads(entries, lcn, Pow2(k), blkaddr);
            Increasing(heads) && InsideRange(heads, lcn * Pow2(k), (lcn + |entries|) * Pow2(k))
    decreases |entries|
  {
    hide BitOr;
    hide Pow2;
    var size := Pow2(k);
    if entries != [] {
      var next := (blkaddr + 1) % TWO32;
      ClusterBounds(lcn, 1, |entries[1..]|, size);
      if TypeOf(entries[0] / 0x1000 % 4) == NonHead {
        PackHeadsOrdered(entries[1..], lcn + 1, k, blkaddr);
      } else {
        PackHeadsOrdered(entries[1..], lcn + 1, k, next);
        OrIsAdd(k, lcn, entries[0] % size);
        var first := [Head(TypeOf(entries[0] / 0x1000 % 4), BitOr(lcn * size, entries[0] % size), blkaddr)];
        JoinIncreasing(first, PackHeads(entries[1..], lcn + 1, size, next),
                       lcn * size, (lcn + 1) * size, (lcn + |entries|) * size);
      }
    }
  }

  lemma {:induction false} PacksHeadsOrdered(packs: seq<Pack>, lcn: nat, k: nat)
    ensures var heads := PacksHeads(packs, lcn, Pow2(k));
            Increasing(heads) && InsideRange(heads, lcn * Pow2(k), (lcn + EntryCount(packs)) * Pow2(k))
    decreases |packs|
  {
    hide PackHeads;
    hide Pow2;
    if packs != [] {
      var n, rest := |packs[0].entries|, EntryCount(packs[1..]);
      var size := Pow2(k);
      PackHeadsOrdered(packs[0].entries, lcn, k, (packs[0].base + 1) % TWO32);
      PacksHeadsOrdered(packs[1..], lcn + n, k);
      ClusterBounds(lcn, n, rest, size);
      JoinIncreasing(PackHeads(packs[0].entries, lcn, size, (packs[0].base + 1) % TWO32),
                     PacksHeads(packs[1..], lcn + n, size), lcn * size, (lcn + n) * size, (lcn + EntryCount(packs)) * size);
    }
  }

  /** The j-th head of a pack has the block address that follows those of the j heads before it. */
  lemma {:induction false} HeadAddresses(entries: seq<nat>, lcn: nat, clusterSize: nat, blkaddr: nat, j: nat)
    requires clusterSize > 0 && blkaddr < TWO32
    requires j < |PackHeads(entries, lcn, clusterSize, blkaddr)|
    ensures PackHeads(entries, lcn, clusterSize, blkaddr)[j].block == (blkaddr + j) % TWO32
    decreases |entries|
  {
    hide BitOr;
    var next := (blkaddr + 1) % TWO32;
    var kind := TypeOf(entries[0] / 0x1000 % 4);
    if kind == NonHead {
      HeadAddresses(entries[1..], lcn + 1, clusterSize, blkaddr, j);
    } else if j > 0 {
      var rest := PackHeads(entries[1..], lcn + 1, clusterSize, next);
      assert PackHeads(entries, lcn, clusterSize, blkaddr)[j] == rest[j - 1];
      HeadAddresses(entries[1..], lcn + 1, clusterSize, next, j - 1);
      WrapStep(blkaddr, j);
    }
  }

  lemma WrapStep(blkaddr: nat, j: nat)
    requires j > 0
    ensures ((blkaddr + 1) % TWO32 + (j - 1)) % TWO32 == (blkaddr + j) % TWO32
  {
    var q := (blkaddr + 1) / TWO32;
    assert blkaddr + j == q * TWO32 + ((blkaddr + 1) % TWO32 + (j - 1));
  }

  // ----- what the map accepts ---------------------------------------------

  /**
   Feeding heads to a map with room for `capacity` extents of a file of `size` bytes. A head at the very end of
   the file carries no extent and is passed over; one beyond it, or one too many, is an error.
   */
  function Accept(heads: seq<Head>, incoming: seq<Head>, capacity: nat, size: nat): Option<seq<Head>>
    decreases |incoming|
  {
    if incoming == [] then Some(heads)
    else if incoming[0].offset > size then None
    else if incoming[0].offset == size then Accept(heads, incoming[1..], capacity, size)
    else if |heads| >= capacity then None
    else Accept(heads + [incoming[0]], incoming[1..], capacity, size)
  }

  lemma {:induction false} AcceptConcat(heads: seq<Head>, a: seq<Head>, b: seq<Head>, capacity: nat, size: nat)
    ensures Accept(heads, a + b, capacity, size) ==
            match Accept(heads, a, capacity, size)
            case None => None
            case Some(longer) => Accept(longer, b, capacity, size)
    decreases |a|
  {
    if a == [] {
      assert a + b == b;
    } else {
      assert (a + b)[1..] == a[1..] + b;
      if a[0].offset == size {
        AcceptConcat(heads, a[1..], b, capacity, size);
      } else if a[0].offset < size && |heads| < capacity {
        AcceptConcat(heads + [a[0]], a[1..], b, capacity, size);
      }
    }
  }

  /** Ordered input gives ordered heads, all of them inside the file. */
  lemma {:induction false} AcceptKeepsOrder(heads: seq<Head>, incoming: seq<Head>, capacity: nat, size: nat)
    requires Increasing(heads + incoming) && InsideRange(heads, 0, size)
    requires Accept(heads, incoming, capacity, size).Some?
    ensures var accepted := Accept(heads, incoming, capacity, size).value;
            Increasing(accepted) && InsideRange(accepted, 0, size)
    decreases |incoming|
  {
    if incoming == [] {
      assert heads + incoming == heads;
    } else if incoming[0].offset == size {
      DropOne(heads, incoming);
      AcceptKeepsOrder(heads, incoming[1..], capacity, size);
    } else {
      assert heads + [incoming[0]] + incoming[1..] == heads + incoming;
      AcceptKeepsOrder(heads + [incoming[0]], incoming[1..], capacity, size);
    }
  }

  lemma DropOne(heads: seq<Head>, incoming: seq<Head>)
    requires incoming != [] && Increasing(heads + incoming)
    ensures Increasing(heads + incoming[1..])
  {
    var all, less := heads + incoming, heads + incoming[1..];
    forall i, j | 0 <= i < j < |less|
      ensures less[i].offset < less[j].offset
    {
      var i', j' := if i < |heads| then i else i + 1, if j < |heads| then j else j + 1;
      assert less[i] == all[i'] && less[j] == all[j'];
    }
  }

  // ----- extents ----------------------------------------------------------

  const NO_EXTENT := Extent(NoCompression, 0, 0, 0)

  function CompressionOf(kind: LclusterType): Compression {
    match kind
    case Plain => NoCompression
    case Head1 => Lz4
    case Head2 => Lz4
    case NonHead => Invalid
  }

  /** Entry i of a map that has been given `heads`; the size of the last one is filled in when the next arrives. */
  function ExtentOf(heads: seq<Head>, i: nat, capacity: nat, size: nat, blockSize: nat): Extent {
    if i >= |heads| then NO_EXTENT else
      Extent(
        CompressionOf(heads[i].kind),
        heads[i].offset,
        if i + 1 < |heads| then SubWrap(heads[i + 1].offset, heads[i].offset)
        else if i + 1 == capacity then SubWrap(size, heads[i].offset) else 0,
        heads[i].block * blockSize)
  }

  /** The extents are non-empty, each starts where the one before it ends, and the last ends at `size`. */
  ghost predicate Partition(extents: seq<Extent>, size: nat) {
    && extents != []
    && (forall i :: 0 <= i < |extents| ==> extents[i].uncomprSize > 0)
    && (forall i :: 0 <= i < |extents| - 1 ==>
          extents[i].uncomprOffset + extents[i].uncomprSize == extents[i + 1].uncomprOffset)
    && extents[|extents| - 1].uncomprOffset + extents[|extents| - 1].uncomprSize == size
  }

  predicate Contains(e: Extent, offset: nat) {
    e.uncomprOffset <= offset < e.uncomprOffset + e.uncomprSize
  }

  lemma {:induction false} PartitionOrder(extents: seq<Extent>, size: nat, i: nat, j: nat)
    requires Partition(extents, size) && i < j < |extents|
    ensures extents[i].uncomprOffset + extents[i].uncomprSize <= extents[j].uncomprOffset
    ensures extents[j].uncomprOffset + extents[j].uncomprSize <= size
    decreases j - i, |extents| - j
  {
    if i + 1 < j {
      PartitionOrder(extents, size, i, j - 1);
    }
    if j + 1 < |extents| {
      PartitionEnd(extents, size, j);
    }
  }

  lemma {:induction false} PartitionEnd(extents: seq<Extent>, size: nat, j: nat)
    requires Partition(extents, size) && j < |extents|
    ensures extents[j].uncomprOffset + extents[j].uncomprSize <= size
    decreases |extents| - j
  {
    if j + 1 < |extents| {
      PartitionEnd(extents, size, j + 1);
    }
  }

  /** What it means to be the first extent that ends after `offset`. */
  lemma PositionFound(extents: seq<Extent>, size: nat, offset: nat, first: nat)
    requires Partition(extents, size) && first <= |extents|
    requires first > 0 ==> extents[first - 1].uncomprOffset + extents[first - 1].uncomprSize <= offset
    requires first < |extents| ==> offset < extents[first].uncomprOffset + extents[first].uncomprSize
    ensures first == |extents| <==> offset >= size
    ensures first < |extents| && extents[first].uncomprOffset <= offset ==> Contains(extents[first], offset)
    ensures first < |extents| && extents[first].uncomprOffset > offset ==> first == 0
    ensures first > 0 ==> extents[0].uncomprOffset <= offset
  {
    if first < |extents| {
      PartitionEnd(extents, size, first);
    }
    if first > 1 {
      PartitionOrder(extents, size, 0, first - 1);
    }
    if 0 < first < |extents| {
      assert extents[first - 1].uncomprOffset + extents[first - 1].uncomprSize == extents[first].uncomprOffset;
    }
  }

  /** No offset lies in two extents. */
  lemma ContainedOnce(extents: seq<Extent>, size: nat, offset: nat, i: nat, j: nat)
    requires Partition(extents, size) && i < |extents| && j < |extents|
    requires Contains(extents[i], offset) && Contains(extents[j], offset)
    ensures i == j
  {
    if i < j {
      PartitionOrder(extents, size, i, j);
    } else if j < i {
      PartitionOrder(extents, size, j, i);
    }
  }

  /** A full map is a partition exactly when its heads are in strictly increasing order. */
  lemma FullMapIsPartition(heads: seq<Head>, extents: seq<Extent>, size: nat, blockSize: nat)
    requires |heads| == |extents| > 0 && InsideRange(heads, 0, size) && size <= MAX_UNCOMPRESSED_SIZE
    requires forall i :: 0 <= i < |extents| ==> extents[i] == ExtentOf(heads, i, |extents|, size, blockSize)
    ensures Partition(extents, size) <==> Increasing(heads)
  {
    if Increasing(heads) {
      forall i | 0 <= i < |extents|
        ensures extents[i].uncomprSize > 0
        ensures i + 1 < |extents| ==> extents[i].uncomprOffset + extents[i].uncomprSize == extents[i + 1].uncomprOffset
      {
        if i + 1 < |extents| {
          assert heads[i].offset < heads[i + 1].offset;
        }
      }
    }
    if Partition(extents, size) {
      forall i, j | 0 <= i < j < |heads|
        ensures heads[i].offset < heads[j].offset
      {
        PartitionOrder(extents, size, i, j);
        assert extents[i].uncomprOffset == heads[i].offset && extents[j].uncomprOffset == heads[j].offset;
      }
    }
  }

  // ----- the compact format -----------------------------------------------

  function Pack4B(data: Bytes): Pack
    requires |data| >= 8
  {
    Pack([LE(data[0..2]), LE(data[2..4])], Load32(data, 4))
  }

  /** The same 8 bytes, of which only the first entry is used. */
  function Single4B(data: Bytes): Pack
    requires |data| >= 8
  {
    Pack([LE(data[0..2])], Load32(data, 4))
  }

  function Pack2B(data: Bytes): Pack
    requires |data| >= 32
  {
    Pack(seq(16, i requires 0 <= i < 16 => Unpack14(data[..32], i)), Load32(data, 28))
  }

  /** How many entries are stored in 4, 2 and again 4 bytes each. */
  datatype Plan = Plan(initial: nat, compacted2b: nat, end: nat) {
    /** Whole groups only, except that the last entry may stand alone. */
    predicate Whole() {
      initial % 2 == 0 && compacted2b % 16 == 0
    }

    function IndexesSize(): nat {
      initial * 4 + compacted2b * 2 + (end + 1) / 2 * 8
    }
  }

  /** The number of 4-byte entries needed to reach a 32-byte boundary. */
  function InitialEntries(indexesOffset: nat): nat {
    var n := (32 - indexesOffset % 32) / 4;
    if n == 8 then 0 else n
  }

  function MakePlan(advise: nat, indexesOffset: nat, logicalClusters: nat): Plan {
    if advise % 2 == 1 then
      var initial := InitialEntries(indexesOffset);
      if initial > logicalClusters then
        Plan(0, 0, logicalClusters)
      else
        var compacted2b := (logicalClusters - initial) / 16 * 16;
        Plan(initial, compacted2b, logicalClusters - initial - compacted2b)
    else
      Plan(0, 0, logicalClusters)
  }

  /** What one turn of a loop leaves to do. */
  function Next(plan: Plan): (next: Plan)
    requires plan.Whole() && plan.initial + plan.compacted2b + plan.end > 0
    ensures next.Whole()
    ensures next.IndexesSize() + Stride(plan) == plan.IndexesSize()
    ensures next.initial + next.compacted2b + next.end < plan.initial + plan.compacted2b + plan.end
  {
    if plan.initial > 0 then plan.(initial := plan.initial - 2)
    else if plan.compacted2b > 0 then plan.(compacted2b := plan.compacted2b - 16)
    else if plan.end > 1 then plan.(end := plan.end - 2)
    else plan.(end := 0)
  }

  /** The bytes one turn reads. */
  function Stride(plan: Plan): nat {
    if plan.initial == 0 && plan.compacted2b > 0 then 32 else 8
  }

  function FirstPack(indexes: Bytes, plan: Plan): Pack
    requires |indexes| >= Stride(plan)
  {
    if plan.initial > 0 then Pack4B(indexes)
    else if plan.compacted2b > 0 then Pack2B(indexes)
    else if plan.end > 1 then Pack4B(indexes)
    else Single4B(indexes)
  }

  /** The packs that the three loops read, in order. */
  function CompactPacks(indexes: Bytes, plan: Plan): (packs: seq<Pack>)
    requires plan.Whole() && |indexes| >= plan.IndexesSize()
    decreases plan.initial + plan.compacted2b + plan.end
  {
    if plan.initial + plan.compacted2b + plan.end == 0 then [] else
      [FirstPack(indexes, plan)] + CompactPacks(indexes[Stride(plan)..], Next(plan))
  }

  /** The packs hold one entry for each cluster of the plan. */
  lemma {:induction false} PacksHoldEveryCluster(indexes: Bytes, plan: Plan)
    requires plan.Whole() && |indexes| >= plan.IndexesSize()
    ensures EntryCount(CompactPacks(indexes, plan)) == plan.initial + plan.compacted2b + plan.end
    decreases plan.initial + plan.compacted2b + plan.end
  {
    if plan.initial + plan.compacted2b + plan.end > 0 {
      PacksHoldEveryCluster(indexes[Stride(plan)..], Next(plan));
    }
  }

  /**
   The plan covers every cluster once. Its groups are whole, so that the loops end without passing zero,
   whenever the offset is 8-byte aligned; the code itself tests for 4-byte alignment only.
   */
  lemma PlanCoversClusters(advise: nat, indexesOffset: nat, logicalClusters: nat)
    ensures var plan := MakePlan(advise, indexesOffset, logicalClusters);
            && plan.initial + plan.compacted2b + plan.end == logicalClusters
            && (indexesOffset % 8 == 0 ==> plan.Whole()) && plan.initial < 8
  {
    InitialIsSmall(indexesOffset);
    hide InitialEntries;
    var initial := InitialEntries(indexesOffset);
    if indexesOffset % 8 == 0 {
      InitialIsEven(indexesOffset);
    }
    if initial <= logicalClusters {
      var groups := (logicalClusters - initial) / 16;
      Euclid(groups * 16, 16, groups, 0);
    }
  }

  lemma InitialIsSmall(indexesOffset: nat)
    ensures InitialEntries(indexesOffset) < 8
  {
  }

  /** A plan with an odd first count is not whole, and needs an offset that is not aligned; one with an even count is. */
  lemma OddPlan(plan: Plan)
    requires plan.initial % 2 != 0
    ensures !plan.Whole()
  {
  }

  lemma EvenPlan(plan: Plan, advise: nat, indexesOffset: nat, logicalClusters: nat)
    requires plan == MakePlan(advise, indexesOffset, logicalClusters) && plan.initial % 2 == 0
    ensures plan.Whole()
  {
    hide InitialEntries;
    if advise % 2 == 1 && InitialEntries(indexesOffset) <= logicalClusters {
      var groups := (logicalClusters - InitialEntries(indexesOffset)) / 16;
      Euclid(groups * 16, 16, groups, 0);
    }
  }

  lemma InitialIsEven(indexesOffset: nat)
    requires indexesOffset % 8 == 0
    ensures InitialEntries(indexesOffset) % 2 == 0
  {
    var m := indexesOffset / 8;
    Euclid(indexesOffset, 32, m / 4, 8 * (m % 4));
    Euclid(32 - 8 * (m % 4), 4, 8 - 2 * (m % 4), 0);
  }

  /** The unsigned count of the first loop after some turns. */
  function CountAfter(initial: nat, turns: nat): nat {
    (initial - 2 * turns) % TWO32
  }

  /** Among the offsets the code lets through, the first loop can count down to zero exactly for the 8-byte aligned. */
  lemma FirstLoopEnds(advise: nat, indexesOffset: nat, logicalClusters: nat)
    requires indexesOffset % 4 == 0 && advise % 2 == 1 && InitialEntries(indexesOffset) <= logicalClusters
    ensures var plan := MakePlan(advise, indexesOffset, logicalClusters);
            && (plan.Whole() <==> indexesOffset % 8 == 0)
            && ((exists turns: nat :: CountAfter(plan.initial, turns) == 0) <==> indexesOffset % 8 == 0)
  {
    var initial := InitialEntries(indexesOffset);
    InitialParity(indexesOffset);
    hide InitialEntries;
    PlanCoversClusters(advise, indexesOffset, logicalClusters);
    if initial % 2 == 0 {
      assert CountAfter(initial, initial / 2) == 0;
    } else {
      forall turns: nat
        ensures CountAfter(initial, turns) != 0
      {
        OddStaysOdd(initial - 2 * turns);
      }
    }
  }

  lemma InitialParity(indexesOffset: nat)
    requires indexesOffset % 4 == 0
    ensures InitialEntries(indexesOffset) % 2 == 0 <==> indexesOffset % 8 == 0
  {
    var m := indexesOffset / 4;
    Euclid(indexesOffset, 32, m / 8, 4 * (m % 8));
    Euclid(indexesOffset, 8, m / 2, 4 * (m % 2));
    Euclid(m, 2, 4 * (m / 8) + m % 8 / 2, m % 8 % 2);
    Euclid(32 - 4 * (m % 8), 4, 8 - m % 8, 0);
    assert InitialEntries(indexesOffset) == if m % 8 == 0 then 0 else 8 - m % 8;
  }

  /** Wrapping in 32 bits keeps a count odd. */
  lemma OddStaysOdd(count: int)
    requires count % 2 == 1
    ensures count % TWO32 % 2 == 1
  {
    var q, m := count / TWO32, count / 2;
    assert count == 2 * m + 1 && TWO32 == 2 * 0x8000_0000;
    Euclid(count % TWO32, 2, m - 0x8000_0000 * q, 1);
  }

  /** All the groups of 8 bytes there are, as a loop reads them that does not come to an end. */
  function All4B(indexes: Bytes): seq<Pack> {
    if |indexes| < 8 then [] else [Pack4B(indexes)] + All4B(indexes[8..])
  }

  /** The header that precedes the indexes. */
  datatype MapHeader = MapHeader(advise: nat, algorithm1: nat, algorithm2: nat, clusterBits: nat)

  function ParseMapHeader(bytes: Bytes): MapHeader
    requires |bytes| == 8
  {
    MapHeader(LE(bytes[4..6]), bytes[6] % 0x10, bytes[6] / 0x10, bytes[7] % 8)
  }

  /** The heads that the compact indexes at `extentsOffset` describe. */
  function CompactHeads(header: Bytes, indexes: Bytes, extentsOffset: nat, uncompressedSize: nat): seq<Head>
    requires |header| == 8 && CompactPlan(header, extentsOffset, uncompressedSize).Whole()
    requires |indexes| >= CompactPlan(header, extentsOffset, uncompressedSize).IndexesSize()
  {
    var plan := CompactPlan(header, extentsOffset, uncompressedSize);
    PacksHeads(CompactPacks(indexes, plan), 0, ClusterSize(header))
  }

  function ClusterSize(header: Bytes): (size: nat)
    requires |header| == 8
    ensures size > 0
  {
    4096 * Pow2(ParseMapHeader(header).clusterBits)
  }

  function CompactPlan(header: Bytes, extentsOffset: nat, uncompressedSize: nat): Plan
    requires |header| == 8
  {
    MakePlan(ParseMapHeader(header).advise, extentsOffset + 8, DivRoundUp(uncompressedSize, ClusterSize(header)))
  }

  lemma ClusterSizeIsPower(header: Bytes)
    requires |header| == 8
    ensures ClusterSize(header) == Pow2(12 + ParseMapHeader(header).clusterBits)
  {
    assert Pow2(4) == 16 && Pow2(8) == 256 && Pow2(12) == 4096;
    Pow2Add(12, ParseMapHeader(header).clusterBits);
  }

  lemma {:induction false} Pow2Add(a: nat, b: nat)
    ensures Pow2(a + b) == Pow2(a) * Pow2(b)
  {
    if a > 0 {
      Pow2Add(a - 1, b);
    }
  }

  /** Whatever the bytes, the heads of the compact format come in strictly increasing order. */
  lemma CompactHeadsOrdered(header: Bytes, indexes: Bytes, extentsOffset: nat, uncompressedSize: nat)
    requires |header| == 8 && CompactPlan(header, extentsOffset, uncompressedSize).Whole()
    requires |indexes| >= CompactPlan(header, extentsOffset, uncompressedSize).IndexesSize()
    ensures Increasing(CompactHeads(header, indexes, extentsOffset, uncompressedSize))
  {
    var plan := CompactPlan(header, extentsOffset, uncompressedSize);
    ClusterSizeIsPower(header);
    PacksHeadsOrdered(CompactPacks(indexes, plan), 0, 12 + ParseMapHeader(header).clusterBits);
  }

  /** LZ4 only, no advice but the 2-byte compaction, and that only for 4096-byte clusters. */
  predicate IsSupported(header: Bytes)
    requires |header| == 8
  {
    var h := ParseMapHeader(header);
    && h.algorithm1 == 0 && h.algorithm2 == 0
    && h.advise <= 1
    && (h.advise == 1 ==> ClusterSize(header) == 4096)
  }

  /** The heads of the map that is built from a given image, or None where the code gives up. */
  function CompactResult(image: Bytes, extentsOffset: nat, compressedBlocks: nat, blockSize: nat, uncompressedSize: nat)
    : Option<seq<Head>>
    requires blockSize > 0
  {
    if blockSize != 4096 || compressedBlocks > |image| / blockSize || uncompressedSize > MAX_UNCOMPRESSED_SIZE then None else
    if extentsOffset % 4 != 0 || !InRange(image, extentsOffset, 8) then None else
    var header := Slice(image, extentsOffset, 8);
    if !IsSupported(header) || !CompactPlan(header, extentsOffset, uncompressedSize).Whole() then None else
    var indexesSize := CompactPlan(header, extentsOffset, uncompressedSize).IndexesSize();
    if !InRange(image, extentsOffset + 8, indexesSize) then None else
    var indexes := Slice(image, extentsOffset + 8, indexesSize);
    WhenFull(Accept([], CompactHeads(header, indexes, extentsOffset, uncompressedSize), compressedBlocks, uncompressedSize),
             compressedBlocks)
  }

  function WhenFull(heads: Option<seq<Head>>, capacity: nat): Option<seq<Head>> {
    if heads.Some? && |heads.value| == capacity then heads else None
  }

  // ----- the legacy format ------------------------------------------------

  function LegacyResult(image: Bytes, extentsOffset: nat, compressedBlocks: nat, blockSize: nat, uncompressedSize: nat)
    : Option<seq<Head>>
    requires blockSize > 0
  {
    if compressedBlocks > |image| / blockSize || uncompressedSize > MAX_UNCOMPRESSED_SIZE then None else
    if extentsOffset % 4 != 0 || !InRange(image, extentsOffset, 8) then None else
    var header := ParseMapHeader(Slice(image, extentsOffset, 8));
    if header.algorithm1 != 0 || header.algorithm2 != 0 then None else
    var clusterSize := blockSize * Pow2(header.clusterBits);
    if clusterSize == 0 then None else
    var recordsSize := DivRoundUp(uncompressedSize, clusterSize) * 8;
    if !InRange(image, extentsOffset + 16, recordsSize) then None else
    WhenFull(Accept([], LegacyHeads(Slice(image, extentsOffset + 16, recordsSize), 0, clusterSize),
                    compressedBlocks, uncompressedSize), compressedBlocks)
  }

  /** The heads that the legacy records of an inode hold. */
  function AllLegacyHeads(image: Bytes, extentsOffset: nat, blockSize: nat, uncompressedSize: nat): seq<Head>
    requires blockSize > 0 && InRange(image, extentsOffset, 8)
  {
    var clusterSize := blockSize * Pow2(ParseMapHeader(Slice(image, extentsOffset, 8)).clusterBits);
    if clusterSize == 0 then [] else
    var recordsSize := DivRoundUp(uncompressedSize, clusterSize) * 8;
    if !InRange(image, extentsOffset + 16, recordsSize) then [] else
    LegacyHeads(Slice(image, extentsOffset + 16, recordsSize), 0, clusterSize)
  }

  /** The heads inside the file. */
  function Below(heads: seq<Head>, size: nat): seq<Head> {
    if heads == [] then [] else (if heads[0].offset < size then [heads[0]] else []) + Below(heads[1..], size)
  }

  /** What a map accepts are the heads inside the file, in the order in which they come. */
  lemma {:induction false} AcceptedAreBelow(heads: seq<Head>, incoming: seq<Head>, capacity: nat, size: nat)
    requires Accept(heads, incoming, capacity, size).Some?
    ensures Accept(heads, incoming, capacity, size).value == heads + Below(incoming, size)
    decreases |incoming|
  {
    if incoming != [] {
      var accepted := if incoming[0].offset < size then heads + [incoming[0]] else heads;
      AcceptedAreBelow(accepted, incoming[1..], capacity, size);
    }
  }

  /** One head for each 8-byte record that is not a non-head; its cluster offset is not masked. */
  function LegacyHeads(records: Bytes, lcn: nat, clusterSize: nat): seq<Head> {
    if |records| < 8 then [] else
      var rest := LegacyHeads(records[8..], lcn + 1, clusterSize);
      var kind := TypeOf(LE(records[0..2]) % 4);
      if kind == NonHead then rest else
        [Head(kind, BitOr(lcn * clusterSize, LE(records[2..4])), Load32(records, 4))] + rest
  }

  /** Every head lies inside its own cluster. */
  ghost predicate OffsetsInsideClusters(records: Bytes, clusterSize: nat) {
    |records| >= 8 ==>
      && (TypeOf(LE(records[0..2]) % 4) == NonHead || LE(records[2..4]) < clusterSize)
      && OffsetsInsideClusters(records[8..], clusterSize)
  }

  lemma {:induction false} LegacyHeadsOrdered(records: Bytes, lcn: nat, k: nat)
    requires OffsetsInsideClusters(records, Pow2(k))
    ensures var heads := LegacyHeads(records, lcn, Pow2(k));
            Increasing(heads) && InsideRange(heads, lcn * Pow2(k), (lcn + |records| / 8) * Pow2(k))
    decreases |records|
  {
    hide BitOr;
    hide Pow2;
    hide LE;
    hide Load32;
    if |records| >= 8 {
      var size := Pow2(k);
      var rest := |records[8..]| / 8;
      assert |records| / 8 == 1 + rest;
      ClusterBounds(lcn, 1, rest, size);
      LegacyHeadsOrdered(records[8..], lcn + 1, k);
      if TypeOf(LE(records[0..2]) % 4) != NonHead {
        OrIsAdd(k, lcn, LE(records[2..4]));
        var first := [Head(TypeOf(LE(records[0..2]) % 4), BitOr(lcn * size, LE(records[2..4])), Load32(records, 4))];
        JoinIncreasing(first, LegacyHeads(records[8..], lcn + 1, size), lcn * size, (lcn + 1) * size, (lcn + (1 + rest)) * size);
      }
    }
  }

  /** With every offset inside its cluster, the heads that a legacy map accepts are in order. */
  lemma LegacyMapIsOrdered(records: Bytes, k: nat, capacity: nat, size: nat)
    requires OffsetsInsideClusters(records, Pow2(k))
    requires Accept([], LegacyHeads(records, 0, Pow2(k)), capacity, size).Some?
    ensures Increasing(Accept([], LegacyHeads(records, 0, Pow2(k)), capacity, size).value)
  {
    var incoming := LegacyHeads(records, 0, Pow2(k));
    LegacyHeadsOrdered(records, 0, k);
    assert [] + incoming == incoming;
    AcceptKeepsOrder([], incoming, capacity, size);
  }

  /** A legacy record with small fields. */
  function LegacyRecord(advise: Byte, offsetLow: Byte, offsetHigh: Byte, block: Byte): Bytes {
    [advise, 0, offsetLow, offsetHigh, block, 0, 0, 0]
  }

  lemma LegacyRecordHead(advise: Byte, offsetLow: Byte, offsetHigh: Byte, block: Byte, rest: Bytes, lcn: nat,
                         clusterSize: nat)
    ensures var kind := TypeOf(advise % 4);
            LegacyHeads(LegacyRecord(advise, offsetLow, offsetHigh, block) + rest, lcn, clusterSize) ==
            (if kind == NonHead then [] else [Head(kind, BitOr(lcn * clusterSize, offsetLow + 0x100 * offsetHigh), block)])
              + LegacyHeads(rest, lcn + 1, clusterSize)
  {
    hide BitOr;
    hide LE;
    var record := LegacyRecord(advise, offsetLow, offsetHigh, block);
    var records := record + rest;
    assert records[8..] == rest;
    assert records[0..2] == [advise, 0] && records[2..4] == [offsetLow, offsetHigh];
    LESmall(advise, 0);
    LESmall(offsetLow, offsetHigh);
    LoadBytes(records, 4);
  }

  /** Three records of 4096-byte clusters, the first with an offset of 8192, that fill a map with extents out of order. */
  lemma LegacyOffsetsCanRunBackwards()
    ensures var records := LegacyRecord(1, 0, 0x20, 7) + (LegacyRecord(1, 0, 0, 8) + (LegacyRecord(2, 0, 0, 0) + []));
            var heads := [Head(Head1, 8192, 7), Head(Head1, 4096, 8)];
            && Accept([], LegacyHeads(records, 0, 4096), 2, 12288) == Some(heads)
            && !Increasing(heads)
  {
    hide LegacyHeads, LegacyRecord, Accept, BitOr;
    var h1, h2 := Head(Head1, 8192, 7), Head(Head1, 4096, 8);
    var third := LegacyRecord(2, 0, 0, 0) + [];
    var second := LegacyRecord(1, 0, 0, 8) + third;
    NoRecords(3);
    LegacyRecordHead(2, 0, 0, 0, [], 2, 4096);
    LegacyRecordHead(1, 0, 0, 8, third, 1, 4096);
    LegacyRecordHead(1, 0, 0x20, 7, second, 0, 4096);
    OrWithZero(8192);
    OrWithZero(4096);
    assert LegacyHeads(second, 1, 4096) == [h2];
    AcceptTwo(h1, h2, 2, 12288);
    assert [h1, h2][0].offset > [h1, h2][1].offset;
  }

  lemma NoRecords(lcn: nat)
    ensures LegacyHeads([], lcn, 4096) == []
  {
  }

  lemma OrWithZero(x: nat)
    ensures BitOr(0, x) == x && BitOr(x, 0) == x
  {
  }

  lemma AcceptTwo(h1: Head, h2: Head, capacity: nat, size: nat)
    requires h1.offset < size && h2.offset < size && capacity >= 2
    ensures Accept([], [h1] + [h2], capacity, size) == Some([h1, h2])
  {
    assert ([h1] + [h2])[1..] == [h2];
    assert [h2][1..] == [];
    assert [] + [h1] == [h1] && [h1] + [h2] == [h1, h2];
    assert Accept([h1, h2], [], capacity, size) == Some([h1, h2]);
    assert Accept([h1], [h2], capacity, size) == Accept([h1] + [h2], [h2][1..], capacity, size);
  }

  lemma Load32Bound(data: Bytes, at: nat)
    requires at + 4 <= |data|
    ensures Load32(data, at) < TWO32
  {
    assert Pow256(4) == TWO32;
    LEBound(data[at..at + 4]);
  }

  lemma LESmall(low: Byte, high: Byte)
    ensures LE([low, high]) == low + 0x100 * high
  {
    assert [low, high][1..] == [high];
    assert LE([high]) == high + 0x100 * LE([high][1..]);
  }

  /** Only an inode without clusters has no indexes to read, and it has no extents either. */
  lemma NoClustersNoExtents(plan: Plan, clusterSize: nat, capacity: nat, size: nat)
    requires plan.Whole() && clusterSize > 0 && capacity > 0
    ensures plan.IndexesSize() == 0 ==>
              WhenFull(Accept([], PacksHeads(CompactPacks([], plan), 0, clusterSize), capacity, size), capacity) == None
  {
  }

  lemma PacksHeadsStep(data: Bytes, plan: Plan, clusterIndex: nat, clusterSize: nat)
    requires plan.Whole() && |data| >= plan.IndexesSize() && clusterSize > 0
    requires plan.initial + plan.compacted2b + plan.end > 0
    ensures var pack := FirstPack(data, plan);
            PacksHeads(CompactPacks(data, plan), clusterIndex, clusterSize) ==
            PackHeads(pack.entries, clusterIndex, clusterSize, (pack.base + 1) % TWO32)
              + PacksHeads(CompactPacks(data[Stride(plan)..], Next(plan)), clusterIndex + |pack.entries|, clusterSize)
  {
    hide PackHeads;
    hide FirstPack;
    hide Next;
    hide Stride;
    hide Plan.Whole;
    hide Plan.IndexesSize;
    var next := Next(plan);
    var later := CompactPacks(data[Stride(plan)..], next);
    assert CompactPacks(data, plan) == [FirstPack(data, plan)] + later;
    hide CompactPacks;
    PacksHeadsCons(FirstPack(data, plan), later, clusterIndex, clusterSize);
  }

  lemma PacksHeadsCons(pack: Pack, later: seq<Pack>, clusterIndex: nat, clusterSize: nat)
    requires clusterSize > 0
    ensures PacksHeads([pack] + later, clusterIndex, clusterSize) ==
            PackHeads(pack.entries, clusterIndex, clusterSize, (pack.base + 1) % TWO32)
              + PacksHeads(later, clusterIndex + |pack.entries|, clusterSize)
  {
    hide PackHeads;
    assert ([pack] + later)[1..] == later;
  }

  /** Which of the three decoders reads the next pack, and how many entries it finds there. */
  ghost predicate KindOfPack(data: Bytes, plan: Plan) {
    && |data| >= Stride(plan)
    && var pack := FirstPack(data, plan);
    && (plan.initial > 0 ==> pack == Pack4B(data) && |pack.entries| == 2)
    && (plan.initial == 0 && plan.compacted2b > 0 ==> pack == Pack2B(data) && |pack.entries| == 16)
    && (plan.initial == plan.compacted2b == 0 && plan.end > 1 ==> pack == Pack4B(data) && |pack.entries| == 2)
    && (plan.initial == plan.compacted2b == 0 && plan.end == 1 ==> pack == Single4B(data) && |pack.entries| == 1)
  }

  lemma KindOfFirstPack(data: Bytes, plan: Plan)
    requires |data| >= Stride(plan)
    ensures KindOfPack(data, plan)
  {
    hide LE;
  }

  // ----- the map ----------------------------------------------------------

  function LastByte(e: Extent): nat {
    ((e.uncomprOffset + e.uncomprSize) - 1) % TWO64
  }

  class ErofsExtentMap {
    const blockSize: nat

    const uncomprSize: nat

    const comprAlgos: (Compression, Compression)

    /** The extents; their number is fixed at construction. */
    var entries: seq<Extent>

    var lastAddedIndex: nat

    /** The heads accepted so far. */
    ghost var heads: seq<Head>

    constructor (uncomprSize: nat, comprBlocks: nat, comprBlockSize: nat)
      requires 1 <= comprBlocks <= SIZE_MAX
      ensures Valid() && heads == []
      ensures this.uncomprSize == uncomprSize && |entries| == comprBlocks && blockSize == comprBlockSize
    {
      this.uncomprSize, blockSize, comprAlgos := uncomprSize, comprBlockSize, (Lz4, Lz4);
      entries := seq(comprBlocks, _ => NO_EXTENT);
      lastAddedIndex := SIZE_MAX;
      heads := [];
    }

    ghost predicate Valid()
      reads this
    {
      && 1 <= |entries| <= SIZE_MAX && |heads| <= |entries|
      && comprAlgos == (Lz4, Lz4)
      && lastAddedIndex == (if heads == [] then SIZE_MAX else |heads| - 1)
      && InsideRange(heads, 0, uncomprSize)
      && (forall i :: 0 <= i < |heads| ==> heads[i].block < TWO32)
      && (forall i :: 0 <= i < |entries| ==> entries[i] == ExtentOf(heads, i, |entries|, uncomprSize, blockSize))
    }

    /** Every extent has been filled in. */
    ghost predicate Full()
      reads this
    {
      Valid() && |heads| == |entries|
    }

    /** Block addresses fit in 32 bits, so with blocks of 4096 bytes no extent lies beyond 2^44. */
    lemma AddressBound(e: Extent)
      requires Full() && e in entries && blockSize == 4096
      ensures e.comprBlockAddr < SIZE_MAX
    {
    }

    method Add(kind: LclusterType, uncomprOffset: nat, blockAddr: nat) returns (ok: bool)
      requires Valid() && blockAddr < TWO32
      modifies this`entries, this`lastAddedIndex, this`heads
      ensures |entries| == old(|entries|)
      ensures ok == (&& Accept(old(heads), [Head(kind, uncomprOffset, blockAddr)], |entries|, uncomprSize).Some?
                     && (kind != NonHead || uncomprOffset == uncomprSize))
      ensures ok ==> Valid()
      ensures ok ==> Some(heads) == Accept(old(heads), [Head(kind, uncomprOffset, blockAddr)], |entries|, uncomprSize)
    {
      ghost var head := Head(kind, uncomprOffset, blockAddr);
      assert Accept(heads, [head][1..], |entries|, uncomprSize) == Some(heads);
      assert Accept(heads + [head], [head][1..], |entries|, uncomprSize) == Some(heads + [head]);
      if uncomprOffset > uncomprSize {
        return false;
      }
      if uncomprOffset == uncomprSize {
        return true;
      }
      if lastAddedIndex == SIZE_MAX {
        lastAddedIndex := 0;
      } else if lastAddedIndex >= |entries| - 1 {
        return false;
      } else {
        var previous := entries[lastAddedIndex];
        entries := entries[lastAddedIndex := previous.(uncomprSize := SubWrap(uncomprOffset, previous.uncomprOffset))];
        lastAddedIndex := lastAddedIndex + 1;
      }

      var compression;
      match kind {
        case Plain => compression := NoCompression;
        case Head1 => compression := comprAlgos.0;
        case Head2 =>
          if comprAlgos.1 == Invalid {
            return false;
          }
          compression := comprAlgos.1;
        case NonHead => return false;
      }
      var size := if lastAddedIndex == |entries| - 1 then SubWrap(uncomprSize, uncomprOffset) else 0;
      entries := entries[lastAddedIndex := Extent(compression, uncomprOffset, size, blockAddr * blockSize)];
      heads := heads + [head];
      ok := true;
    }

    /** Adds the heads among two entries. */
    method ProcessCompact4BIndexes(data: Bytes, clusterIndex: nat, clusterSize: nat) returns (ok: bool)
      requires Valid() && |data| >= 8 && clusterSize > 0
      modifies this`entries, this`lastAddedIndex, this`heads
      ensures |entries| == old(|entries|)
      ensures Took(ok, old(heads), Pack4B(data), clusterIndex, clusterSize)
    {
      var entry := [LE(data[0..2]), LE(data[2..4])];
      ok := ProcessEntries(entry, Load32(data, 4), clusterIndex, clusterSize);
    }

    /** The same, ignoring the second entry. */
    method ProcessSingleCompact4BIndex(data: Bytes, clusterIndex: nat, clusterSize: nat) returns (ok: bool)
      requires Valid() && |data| >= 8 && clusterSize > 0
      modifies this`entries, this`lastAddedIndex, this`heads
      ensures |entries| == old(|entries|)
      ensures Took(ok, old(heads), Single4B(data), clusterIndex, clusterSize)
    {
      var entry := [LE(data[0..2])];
      ok := ProcessEntries(entry, Load32(data, 4), clusterIndex, clusterSize);
    }

    /** Unpacks sixteen 14-bit entries, then adds the heads among them. */
    method ProcessCompact2BIndexes(data: Bytes, clusterIndex: nat, clusterSize: nat) returns (ok: bool)
      requires Valid() && |data| >= 32 && clusterSize > 0
      modifies this`entries, this`lastAddedIndex, this`heads
      ensures |entries| == old(|entries|)
      ensures Took(ok, old(heads), Pack2B(data), clusterIndex, clusterSize)
    {
      var unpacked: seq<nat> := [];
      for i := 0 to 16
        invariant |unpacked| == i
        invariant forall j :: 0 <= j < i ==> unpacked[j] == Unpack14(data[..32], j)
      {
        unpacked := unpacked + [Unpack14(data[..32], i)];
      }
      assert unpacked == Pack2B(data).entries;
      ok := ProcessEntries(unpacked, Load32(data, 28), clusterIndex, clusterSize);
    }

    /** The outcome of processing a pack: what `Accept` says of its heads. */
    ghost predicate Took(ok: bool, before: seq<Head>, pack: Pack, clusterIndex: nat, clusterSize: nat)
      requires clusterSize > 0
      reads this
    {
      var incoming := PackHeads(pack.entries, clusterIndex, clusterSize, (pack.base + 1) % TWO32);
      match Accept(before, incoming, |entries|, uncomprSize)
      case None => !ok
      case Some(after) => ok && Valid() && heads == after
    }

    /** The loop that the three functions above share. */
    method ProcessEntries(entry: seq<nat>, base: nat, clusterIndex: nat, clusterSize: nat) returns (ok: bool)
      requires Valid() && clusterSize > 0
      modifies this`entries, this`lastAddedIndex, this`heads
      ensures |entries| == old(|entries|)
      ensures Took(ok, old(heads), Pack(entry, base), clusterIndex, clusterSize)
    {
      hide BitOr, Valid, PackHeads, Accept;
      ghost var capacity := |entries|;
      ghost var target := Accept(heads, PackHeads(entry, clusterIndex, clusterSize, (base + 1) % TWO32), capacity, uncomprSize);
      var blkaddr: nat := (base + 1) % TWO32;
      assert entry[0..] == entry;
      for i := 0 to |entry|
        invariant Valid() && |entries| == capacity && blkaddr < TWO32
        invariant Accept(heads, PackHeads(entry[i..], clusterIndex + i, clusterSize, blkaddr), capacity, uncomprSize) == target
      {
        var kind := TypeOf(entry[i] / 0x1000 % 4);
        var offset := entry[i] % clusterSize;
        EntryStep(heads, entry[i..], clusterIndex + i, clusterSize, blkaddr, capacity);
        assert entry[i..][1..] == entry[i + 1..];
        if kind != NonHead {
          ok := Add(kind, BitOr((clusterIndex + i) * clusterSize, offset), blkaddr);
          if !ok {
            return;
          }
          blkaddr := (blkaddr + 1) % TWO32;
        }
      }
      EntriesEnd(heads, entry[|entry|..], clusterIndex + |entry|, clusterSize, blkaddr, capacity);
      ok := true;
    }

    /** What the first entry adds, and what is left. */
    lemma EntryStep(done: seq<Head>, entry: seq<nat>, lcn: nat, clusterSize: nat, blkaddr: nat, capacity: nat)
      requires entry != [] && clusterSize > 0
      ensures var kind := TypeOf(entry[0] / 0x1000 % 4);
              var head := Head(kind, BitOr(lcn * clusterSize, entry[0] % clusterSize), blkaddr);
              Accept(done, PackHeads(entry, lcn, clusterSize, blkaddr), capacity, uncomprSize) ==
              if kind == NonHead then Accept(done, PackHeads(entry[1..], lcn + 1, clusterSize, blkaddr), capacity, uncomprSize)
              else
                match Accept(done, [head], capacity, uncomprSize)
                case None => None
                case Some(after) =>
                  Accept(after, PackHeads(entry[1..], lcn + 1, clusterSize, (blkaddr + 1) % TWO32), capacity, uncomprSize)
    {
      hide BitOr, Accept;
      var kind := TypeOf(entry[0] / 0x1000 % 4);
      if kind != NonHead {
        var head := Head(kind, BitOr(lcn * clusterSize, entry[0] % clusterSize), blkaddr);
        AcceptConcat(done, [head], PackHeads(entry[1..], lcn + 1, clusterSize, (blkaddr + 1) % TWO32), capacity, uncomprSize);
      }
    }

    lemma EntriesEnd(done: seq<Head>, entry: seq<nat>, lcn: nat, clusterSize: nat, blkaddr: nat, capacity: nat)
      requires entry == [] && clusterSize > 0
      ensures Accept(done, PackHeads(entry, lcn, clusterSize, blkaddr), capacity, uncomprSize) == Some(done)
    {
    }

    // ----- reading the indexes --------------------------------------------

    /**
     Builds a map from the compact indexes of an inode. Whatever the bytes of the image, a map that is returned is a
     partition of the file. For an offset that is 4 modulo 8 the first loop can run past the indexes it has read; the
     callers' offsets are multiples of 32.
     */
    static method FromCompactIndexes(file: ImageFile, extentsOffset: nat, compressedBlocks: nat, blockSize: nat,
                                     uncompressedSize: nat) returns (map': ErofsExtentMap?, outside: bool)
      requires blockSize > 0 && 1 <= compressedBlocks < TWO32
      modifies file`calls
      ensures map' != null ==>
                && fresh(map') && map'.Full()
                && map'.uncomprSize == uncompressedSize <= MAX_UNCOMPRESSED_SIZE
                && |map'.entries| == compressedBlocks && map'.blockSize == blockSize
      ensures map' != null ==> Partition(map'.entries, uncompressedSize)
      ensures outside ==> map' == null && extentsOffset % 8 == 4
      ensures map' != null && file.Faithful() ==>
                CompactResult(file.image, extentsOffset, compressedBlocks, blockSize, uncompressedSize) == Some(map'.heads)
      ensures file.Reliable() ==>
                (map' == null <==> CompactResult(file.image, extentsOffset, compressedBlocks, blockSize, uncompressedSize) == None)
    {
      hide Accept, PacksHeads, CompactPacks, Pow2, MakePlan;
      hide ParseMapHeader, IsSupported, DivRoundUp, Increasing, Partition, Plan.Whole, Plan.IndexesSize;
      hide ImageFile.AnswersTruly;
      outside := false;
      var maxBlockAddr := file.size / blockSize;
      if blockSize != 4096 || compressedBlocks > maxBlockAddr || uncompressedSize > MAX_UNCOMPRESSED_SIZE {
        return null, false;
      }
      if extentsOffset % 4 != 0 {
        return null, false;
      }
      var header := file.Read(8, extentsOffset);
      if header.None? || !IsSupported(header.value) {
        return null, false;
      }
      var clusterSize := blockSize * Pow2(ParseMapHeader(header.value).clusterBits);
      var logicalClusters := DivRoundUp(uncompressedSize, clusterSize);
      PlanCoversClusters(ParseMapHeader(header.value).advise, extentsOffset + 8, logicalClusters);
      var plan := MakePlan(ParseMapHeader(header.value).advise, extentsOffset + 8, logicalClusters);
      var indexes := file.Read(plan.IndexesSize(), extentsOffset + 8);
      if indexes.None? {
        if plan.Whole() {
          NoClustersNoExtents(plan, clusterSize, compressedBlocks, uncompressedSize);
        }
        return null, false;
      }
      var result := new ErofsExtentMap(uncompressedSize, compressedBlocks, blockSize);
      if plan.initial % 2 != 0 {
        OddPlan(plan);
        outside := result.RunFirstLoop(indexes.value, plan.initial, clusterSize);
        return null, outside;
      }
      EvenPlan(plan, ParseMapHeader(header.value).advise, extentsOffset + 8, logicalClusters);
      CompactHeadsOrdered(header.value, indexes.value, extentsOffset, uncompressedSize);
      ghost var incoming := CompactHeads(header.value, indexes.value, extentsOffset, uncompressedSize);
      var ok := result.ReadCompactIndexes(indexes.value, plan, clusterSize);
      if !ok {
        return null, false;
      }
      if result.lastAddedIndex != compressedBlocks - 1 {
        return null, false;
      }
      assert [] + incoming == incoming;
      AcceptKeepsOrder([], incoming, compressedBlocks, uncompressedSize);
      FullMapIsPartition(result.heads, result.entries, uncompressedSize, blockSize);
      map' := result;
    }

    /**
     The first loop with an odd count: two entries at a time, it steps over zero. It is over when an index is refused,
     or else it goes on to read outside the indexes.
     */
    method RunFirstLoop(indexes: Bytes, initial: nat, clusterSize: nat) returns (outside: bool)
      requires Valid() && heads == [] && clusterSize > 0 && initial % 2 == 1 && initial < TWO32
      modifies this`entries, this`lastAddedIndex, this`heads
      ensures outside <==> Accept([], PacksHeads(All4B(indexes), 0, clusterSize), |old(entries)|, uncomprSize).Some?
    {
      hide Valid, Accept, PacksHeads, PackHeads, Pack4B;
      var left, dataOffset, clusterIndex := initial, 0, 0;
      ghost var capacity := |entries|;
      ghost var target := Accept([], PacksHeads(All4B(indexes), 0, clusterSize), capacity, uncomprSize);
      assert indexes[0..] == indexes;
      while left != 0
        invariant Valid() && |entries| == capacity && left % 2 == 1 && dataOffset <= |indexes|
        invariant target == Accept(heads, PacksHeads(All4B(indexes[dataOffset..]), clusterIndex, clusterSize), capacity, uncomprSize)
        decreases |indexes| - dataOffset
      {
        All4BStep(heads, indexes[dataOffset..], clusterIndex, clusterSize, capacity);
        if |indexes| - dataOffset < 8 {
          return true;
        }
        assert indexes[dataOffset..][8..] == indexes[dataOffset + 8..];
        var ok := ProcessCompact4BIndexes(indexes[dataOffset..], clusterIndex, clusterSize);
        if !ok {
          return false;
        }
        OddStaysOdd(left - 2);
        left, clusterIndex, dataOffset := (left - 2) % TWO32, clusterIndex + 2, dataOffset + 8;
      }
      outside := false;
    }

    lemma All4BStep(done: seq<Head>, data: Bytes, clusterIndex: nat, clusterSize: nat, capacity: nat)
      requires clusterSize > 0
      ensures |data| < 8 ==>
                Accept(done, PacksHeads(All4B(data), clusterIndex, clusterSize), capacity, uncomprSize) == Some(done)
      ensures |data| >= 8 ==>
                var incoming := PackHeads(Pack4B(data).entries, clusterIndex, clusterSize, (Pack4B(data).base + 1) % TWO32);
                Accept(done, PacksHeads(All4B(data), clusterIndex, clusterSize), capacity, uncomprSize) ==
                match Accept(done, incoming, capacity, uncomprSize)
                case None => None
                case Some(after) =>
                  Accept(after, PacksHeads(All4B(data[8..]), clusterIndex + 2, clusterSize), capacity, uncomprSize)
    {
      hide PackHeads, LE;
      if |data| >= 8 {
        PacksHeadsCons(Pack4B(data), All4B(data[8..]), clusterIndex, clusterSize);
        AcceptConcat(done, PackHeads(Pack4B(data).entries, clusterIndex, clusterSize, (Pack4B(data).base + 1) % TWO32),
                     PacksHeads(All4B(data[8..]), clusterIndex + 2, clusterSize), capacity, uncomprSize);
      }
    }

    /** The three loops over the compact indexes. */
    method ReadCompactIndexes(indexes: Bytes, plan: Plan, clusterSize: nat) returns (ok: bool)
      requires Valid() && heads == [] && clusterSize > 0
      requires plan.Whole() && |indexes| == plan.IndexesSize()
      modifies this`entries, this`lastAddedIndex, this`heads
      ensures |entries| == old(|entries|)
      ensures match Accept([], PacksHeads(CompactPacks(indexes, plan), 0, clusterSize), |entries|, uncomprSize)
              case None => !ok
              case Some(after) => ok && Valid() && heads == after
    {
      hide Valid;
      hide BitOr;
      hide CompactPacks;
      hide PacksHeads;
      hide PackHeads;
      hide FirstPack;
      hide Accept;
      hide Pack4B;
      hide Pack2B;
      hide Single4B;
      hide LE;
      hide Plan.IndexesSize;
      ghost var capacity := |entries|;
      ghost var target := Accept([], PacksHeads(CompactPacks(indexes, plan), 0, clusterSize), capacity, uncomprSize);
      ghost var left := plan;
      var initial, compacted2b, end := plan.initial, plan.compacted2b, plan.end;
      var dataOffset, clusterIndex := 0, 0;
      assert indexes[0..] == indexes;

      while initial > 0
        invariant left == Plan(initial, compacted2b, end) && left.Whole()
        invariant dataOffset + left.IndexesSize() == |indexes|
        invariant Valid() && |entries| == capacity
        invariant target == Remaining(heads, indexes, dataOffset, left, clusterIndex, clusterSize, capacity)
      {
        RemainingStep(heads, indexes, dataOffset, left, clusterIndex, clusterSize, capacity);
        ok := ProcessCompact4BIndexes(indexes[dataOffset..], clusterIndex, clusterSize);
        if !ok {
          assert target == None;
          return;
        }
        left := Next(left);
        initial, clusterIndex, dataOffset := initial - 2, clusterIndex + 2, dataOffset + 8;
      }

      while compacted2b > 0
        invariant left == Plan(0, compacted2b, end) && left.Whole()
        invariant dataOffset + left.IndexesSize() == |indexes|
        invariant Valid() && |entries| == capacity
        invariant target == Remaining(heads, indexes, dataOffset, left, clusterIndex, clusterSize, capacity)
      {
        RemainingStep(heads, indexes, dataOffset, left, clusterIndex, clusterSize, capacity);
        ok := ProcessCompact2BIndexes(indexes[dataOffset..], clusterIndex, clusterSize);
        if !ok {
          assert target == None;
          return;
        }
        left := Next(left);
        compacted2b, clusterIndex, dataOffset := compacted2b - 16, clusterIndex + 16, dataOffset + 32;
      }

      while end > 1
        invariant left == Plan(0, 0, end) && left.Whole()
        invariant dataOffset + left.IndexesSize() == |indexes|
        invariant Valid() && |entries| == capacity
        invariant target == Remaining(heads, indexes, dataOffset, left, clusterIndex, clusterSize, capacity)
      {
        RemainingStep(heads, indexes, dataOffset, left, clusterIndex, clusterSize, capacity);
        ok := ProcessCompact4BIndexes(indexes[dataOffset..], clusterIndex, clusterSize);
        if !ok {
          assert target == None;
          return;
        }
        left := Next(left);
        end, clusterIndex, dataOffset := end - 2, clusterIndex + 2, dataOffset + 8;
      }

      if end > 0 {
        RemainingStep(heads, indexes, dataOffset, left, clusterIndex, clusterSize, capacity);
        ok := ProcessSingleCompact4BIndex(indexes[dataOffset..], clusterIndex, clusterSize);
        if !ok {
          assert target == None;
          return;
        }
        left, clusterIndex, dataOffset := Next(left), clusterIndex + 1, dataOffset + 8;
      }
      RemainingEnd(heads, indexes, dataOffset, left, clusterIndex, clusterSize, capacity);
      ok := true;
    }

    /** The loop over the legacy records. */
    method ReadLegacyRecords(records: Bytes, clusterSize: nat) returns (ok: bool)
      requires Valid() && heads == [] && |records| % 8 == 0
      modifies this`entries, this`lastAddedIndex, this`heads
      ensures |entries| == old(|entries|)
      ensures match Accept([], LegacyHeads(records, 0, clusterSize), |entries|, uncomprSize)
              case None => !ok
              case Some(after) => ok && Valid() && heads == after
    {
      hide BitOr;
      hide Valid;
      hide LE;
      hide Load32;
      ghost var capacity := |entries|;
      ghost var target := Accept([], LegacyHeads(records, 0, clusterSize), capacity, uncomprSize);
      assert records[0..] == records;
      for lcn := 0 to |records| / 8
        invariant Valid() && |entries| == capacity
        invariant Accept(heads, LegacyHeads(records[8 * lcn..], lcn, clusterSize), capacity, uncomprSize) == target
      {
        var record := records[8 * lcn..];
        var kind := TypeOf(LE(record[0..2]) % 4);
        assert record[8..] == records[8 * (lcn + 1)..];
        if kind != NonHead {
          var uncomprOffset := BitOr(lcn * clusterSize, LE(record[2..4]));
          var head := Head(kind, uncomprOffset, Load32(record, 4));
          ghost var rest := LegacyHeads(record[8..], lcn + 1, clusterSize);
          assert LegacyHeads(record, lcn, clusterSize) == [head] + rest;
          AcceptConcat(heads, [head], rest, capacity, uncomprSize);
          Load32Bound(record, 4);
          ok := Add(kind, uncomprOffset, Load32(record, 4));
          if !ok {
            return;
          }
        }
      }
      ok := true;
    }

    /**
     Builds a map from the legacy indexes. The map is a partition of the file exactly when the heads inside the file
     come in order in the records, which they do when every cluster offset is below the cluster size;
     `LegacyOffsetsCanRunBackwards` shows that nothing else makes sure of it.
     */
    static method FromLegacyIndexes(file: ImageFile, extentsOffset: nat, compressedBlocks: nat, blockSize: nat,
                                    uncompressedSize: nat) returns (map': ErofsExtentMap?)
      requires blockSize > 0 && 1 <= compressedBlocks < TWO32
      modifies file`calls
      ensures map' != null ==>
                && fresh(map') && map'.Full()
                && map'.uncomprSize == uncompressedSize <= MAX_UNCOMPRESSED_SIZE
                && |map'.entries| == compressedBlocks && map'.blockSize == blockSize
      ensures map' != null && file.Faithful() ==>
                && InRange(file.image, extentsOffset, 8)
                && (Partition(map'.entries, uncompressedSize) <==>
                      Increasing(Below(AllLegacyHeads(file.image, extentsOffset, blockSize, uncompressedSize), uncompressedSize)))
      ensures map' != null && file.Faithful() ==>
                LegacyResult(file.image, extentsOffset, compressedBlocks, blockSize, uncompressedSize) == Some(map'.heads)
      ensures file.Reliable() && uncompressedSize > 0 ==>
                (map' == null <==> LegacyResult(file.image, extentsOffset, compressedBlocks, blockSize, uncompressedSize) == None)
    {
      hide Accept, LegacyHeads, Pow2, Below, Increasing, Partition, DivRoundUp, ImageFile.AnswersTruly;
      var maxBlockAddr := file.size / blockSize;
      if compressedBlocks > maxBlockAddr || uncompressedSize > MAX_UNCOMPRESSED_SIZE {
        return null;
      }
      if extentsOffset % 4 != 0 {
        return null;
      }
      var header := file.Read(8, extentsOffset);
      if header.None? {
        return null;
      }
      var parsed := ParseMapHeader(header.value);
      if parsed.algorithm1 != 0 || parsed.algorithm2 != 0 {
        return null;
      }
      var clusterSize := blockSize * Pow2(parsed.clusterBits);
      MulOrder(blockSize, 0, Pow2(parsed.clusterBits));
      var logicalClusters := DivRoundUp(uncompressedSize, clusterSize);
      var records := file.Read(logicalClusters * 8, extentsOffset + 16);
      if records.None? {
        if uncompressedSize > 0 {
          DivRoundUpBounds(uncompressedSize, clusterSize);
        }
        return null;
      }
      var result := new ErofsExtentMap(uncompressedSize, compressedBlocks, blockSize);
      var ok := result.ReadLegacyRecords(records.value, clusterSize);
      if !ok {
        return null;
      }
      AcceptedAreBelow([], LegacyHeads(records.value, 0, clusterSize), compressedBlocks, uncompressedSize);
      assert [] + Below(LegacyHeads(records.value, 0, clusterSize), uncompressedSize)
             == Below(LegacyHeads(records.value, 0, clusterSize), uncompressedSize);
      if result.lastAddedIndex != compressedBlocks - 1 {
        return null;
      }
      FullMapIsPartition(result.heads, result.entries, uncompressedSize, blockSize);
      map' := result;
    }

    /** The result still to come, once `done` has been accepted and the packs before `dataOffset` are read. */
    ghost function Remaining(done: seq<Head>, indexes: Bytes, dataOffset: nat, left: Plan, clusterIndex: nat,
                             clusterSize: nat, capacity: nat): Option<seq<Head>>
      requires left.Whole() && dataOffset + left.IndexesSize() == |indexes| && clusterSize > 0
    {
      Accept(done, PacksHeads(CompactPacks(indexes[dataOffset..], left), clusterIndex, clusterSize), capacity, uncomprSize)
    }

    lemma RemainingStep(done: seq<Head>, indexes: Bytes, dataOffset: nat, left: Plan, clusterIndex: nat,
                        clusterSize: nat, capacity: nat)
      requires left.Whole() && dataOffset + left.IndexesSize() == |indexes| && clusterSize > 0
      requires left.initial + left.compacted2b + left.end > 0
      ensures Stride(left) <= |indexes| - dataOffset
      ensures KindOfPack(indexes[dataOffset..], left)
      ensures var pack := FirstPack(indexes[dataOffset..], left);
              var incoming := PackHeads(pack.entries, clusterIndex, clusterSize, (pack.base + 1) % TWO32);
              Remaining(done, indexes, dataOffset, left, clusterIndex, clusterSize, capacity) ==
              match Accept(done, incoming, capacity, uncomprSize)
              case None => None
              case Some(after) =>
                Remaining(after, indexes, dataOffset + Stride(left), Next(left),
                          clusterIndex + |pack.entries|, clusterSize, capacity)
    {
      hide KindOfPack;
      hide PackHeads;
      hide PacksHeads;
      hide CompactPacks;
      hide Accept;
      hide FirstPack;
      hide Plan.IndexesSize;
      hide Next;
      hide Stride;
      hide Plan.Whole;
      var next := Next(left);
      var data := indexes[dataOffset..];
      KindOfFirstPack(data, left);
      var pack := FirstPack(data, left);
      assert data[Stride(left)..] == indexes[dataOffset + Stride(left)..];
      PacksHeadsStep(data, left, clusterIndex, clusterSize);
      AcceptConcat(done, PackHeads(pack.entries, clusterIndex, clusterSize, (pack.base + 1) % TWO32),
                   PacksHeads(CompactPacks(data[Stride(left)..], Next(left)), clusterIndex + |pack.entries|, clusterSize),
                   capacity, uncomprSize);
    }

    lemma RemainingEnd(done: seq<Head>, indexes: Bytes, dataOffset: nat, left: Plan, clusterIndex: nat,
                       clusterSize: nat, capacity: nat)
      requires left == Plan(0, 0, 0) && dataOffset + left.IndexesSize() == |indexes| && clusterSize > 0
      ensures Remaining(done, indexes, dataOffset, left, clusterIndex, clusterSize, capacity) == Some(done)
    {
    }

    // ----- searching ------------------------------------------------------

    /**
     The index of the extent that holds `offset`, by binary search; |entries| stands for the end, and -1 for
     one before the beginning. When the extents are a partition the step back is taken only for an offset before
     the first of them.
     */
    method Find(offset: nat) returns (it: int)
      ensures -1 <= it <= |entries|
      ensures Partition(entries, uncomprSize) && uncomprSize < TWO64 ==>
                && (it == -1 <==> offset < entries[0].uncomprOffset)
                && (it == |entries| <==> offset >= uncomprSize)
                && (0 <= it < |entries| ==> Contains(entries[it], offset))
    {
      var first, len := 0, |entries|;
      while len > 0
        invariant 0 <= first && 0 <= len && first + len <= |entries|
        invariant Partition(entries, uncomprSize) && uncomprSize < TWO64 ==>
                    && (first > 0 ==> entries[first - 1].uncomprOffset + entries[first - 1].uncomprSize <= offset)
                    && (first + len < |entries| ==>
                        offset < entries[first + len].uncomprOffset + entries[first + len].uncomprSize)
      {
        var half := len / 2;
        var middle := first + half;
        if Partition(entries, uncomprSize) && uncomprSize < TWO64 {
          PartitionEnd(entries, uncomprSize, middle);
        }
        if LastByte(entries[middle]) < offset {
          first, len := middle + 1, len - half - 1;
        } else {
          len := half;
        }
      }
      it := first;
      if Partition(entries, uncomprSize) && uncomprSize < TWO64 {
        PositionFound(entries, uncomprSize, offset, first);
      }
      if it != |entries| && entries[it].uncomprOffset > offset {
        it := it - 1;
      }
    }
  }
}
