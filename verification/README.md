# The verified read stack of a package image

A package is an archive that carries an EROFS file system image protected by dm-verity. This project models the code
that reads such a package and proves what the layers of that code promise to each other and to their users:

- **dm-verity** (`MerkleLayout`, `MerkleEvidence`, `HashTree`, `Verifier`, `TreeBuilder`): the layout of the hash tree,
  the chain of caching layers that checks a block from leaf to root, and what a root hash commits to.
- **the protected file** (`ProtectedFile`, `GenuineFiles`): byte ranges put together from verified blocks, through a
  bounce buffer or by direct IO.
- **the EROFS image** (`IndexPacking`, `ExtentMap`, `ExtentEncoder`, `CompressedReader`, `StoredFile`, `DirBlock`,
  `ErofsReader`, `Crc32cTable`, `SuperBlock`): bit-packed extent indexes, reads through a cache of decompressed blocks,
  directories, the walk over the whole image, and the superblock checksum.
- **both together** (`VerifiedImage`): files of an EROFS image that is read through a protected file.
- **the archive** (`ArchiveReader`, `ArchiveContents`, `ArchiveEntries`): the queue that hands out directories before what
  they hold, the signed set of files, and sparse writing to disk.
- **versions** (`VersionNumber`, `VersionConstraint`).

Objects that keep state are classes, with a ghost value or an invariant that ties their fields to a pure definition;
the theorems are about those definitions. A definition that a method follows is in turn compared with something that does
not use it: a writer of the format (`TreeBuilder`, `ExtentEncoder`, `StoredFile`, the encoders in `DirBlock`), or a
statement about the bytes or the headers with the numbers of the format written out (`Verifier.OpenCauses`,
`SuperBlock.ParseCauses`, `DirBlock.ParseBlockMeans`, `ArchiveContents`, `VersionConstraint.FormsByFields`). `Bytes`,
`Arithmetic`, `Wrappers` and `Files` hold the shared vocabulary.

Files are oracles. A `Files.File` answers each read as it likes, may fail, may return too little and may answer the same
read differently the next time; it remembers everything it has delivered. `Steady()` singles out a file that never
changes. The salted digest is an arbitrary function: nothing says that it is injective, which no function onto 32 bytes
is. Soundness is therefore stated by exhibiting a collision among blocks that were actually delivered, found by comparing
two chains of hash blocks. LZ4 is an arbitrary partial function. The steps of a method that is long in the source are
methods of their own here, with the contracts that the whole needs.

Some promises do not hold of the code as it stands. Each of these is proved with the condition under which it does
hold, and with an input that shows that the condition is needed:

- A root hash does not commit to the depth of the tree, because the number of blocks comes from the hash file itself.
  The commitment holds for every count that makes a tree of the same depth (`TreeBuilder.AcceptedIsCommitted`,
  `ProtectedFile.ReadIsAuthentic`). With a lower one the hash blocks of the tree are accepted as data, at every level of
  it (`TreeBuilder.EveryDepthOpens`, `TreeBuilder.DepthIsNeeded`), and nothing else is
  (`TreeBuilder.AcceptedAtLowerDepth`); a greater one accepts nothing without a finding
  (`TreeBuilder.AcceptedAtGreaterDepth`).
- A failed read of the top hash block spoils the verifier, and it goes unnoticed exactly when the root hash is all zeros:
  `Verifier.DmVerityVerifier.Open` and `TreeBuilder.OpensUnread`.
- Both size tests of a hash file multiply in 64 bits. They keep the limits for every count below 2^52
  (`Verifier.BothSizeTests`); 127 * 2^52 blocks pass both (`Verifier.WrappedCountPasses`).
- The mounter's test of the hash range agrees with the verifier's, for every count that passes either program's test of
  the data size, except for a single block in a range smaller than a superblock: `Verifier.SizeTestsAgree`,
  `Verifier.SmallRangeForOneBlock`. The products cannot tell the two apart (`Verifier.PassedCountsDoNotWrap`).
- The buffered and direct paths of a protected read differ on an empty unaligned read of a block that cannot be read,
  and only there: `ProtectedFile.ReadBothWays`, `ProtectedFile.EmptyRead`.
- Legacy cluster offsets can be larger than a cluster, and then extents run backwards. A map is a partition exactly when
  the heads of its records that lie inside the file come in order: `ExtentMap.ErofsExtentMap.FromLegacyIndexes`,
  `ExtentMap.LegacyOffsetsCanRunBackwards`.
- Reads through the last decompressed block are right when extents that share a block have equal lengths, and every map
  in which they do not is read wrongly with some decoder: `CompressedReader.ErofsInodeCompressedDataReader.Read`,
  `CompressedReader.SharedBlocksMatter`.
- The length check before the superblock checksum forgets where the superblock starts. In a buffer of one block it leaves
  out exactly the declared block size of 1024: `SuperBlock.OutsideOnlyFor1024`, `SuperBlock.OutsideHappens`.
- The limit of 8192 directories in an archive lets 8193 through: `ArchiveReader.DirectoryLimit`,
  `ArchiveReader.DirectoryLimitIsReached`.
- The set of files a signed archive hands out is the signed set exactly when no path comes twice:
  `ArchiveReader.SignedSet`, `ArchiveReader.RepeatedPathHidesAnother`.
- A sparse file differs from the stream its digest covers exactly when empty blocks follow the data and leave a gap:
  `ArchiveEntries.FileIsStream`, `ArchiveEntries.TrailingGap`.
- A bare constraint admits its own version, and a range its upper end, unless the fields of that version are all the
  largest and, for a range, fewer than four; then nothing is admitted: `VersionConstraint.BareAdmitsItself`,
  `VersionConstraint.RangeAdmitsItsEnd`, `VersionConstraint.LargestAdmitsNothing`. A field equal to 2^32 - 1 that is not
  the last cannot be read back (`VersionNumber.PrintThenParse`), and a last field of 2^32 or more is not read as it is written
  (`VersionNumber.LastFieldIsExact`, `VersionNumber.LastFieldWraps`).

The comment at `lib/erofs/ErofsExtentMap.cpp:175` asks for an offset aligned to 8 bytes and the code tests for 4. For the
offsets in between the loop over the first compact indexes does not come to an end by itself (`ExtentMap.FirstLoopEnds`,
`ExtentMap.ErofsExtentMap.RunFirstLoop`); inodes lie at multiples of 32 bytes, so the reader never passes one. The
comment at `lib/erofs/ErofsExtentMap.cpp:469` calls the two most significant bits of an entry its type; of a 16-bit entry the code takes bits 12 and 13. In clusters of
more than 4096 bytes these are bits of the offset as well (`ExtentEncoder.TypeIsInOffset`), so that only some offsets can
be written (`ExtentEncoder.Fits`).

## Model

| member | source | states |
|---|---|---|
| MerkleLayout.LayerSizes | lib/dm-verity/DmVerityVerifier.cpp:463-480 | For every count and every fan-out of at least 2, layer i covers ceil(n/f^i) blocks with ceil(n/f^(i+1)) hash blocks, and only the last layer has one hash block |
| MerkleLayout.LayersChain | lib/dm-verity/DmVerityVerifier.cpp:463-480 | Each layer covers exactly the hash blocks of the layer below it, from the data blocks up to one hash block |
| MerkleLayout.TotalBound | lib/dm-verity/DmVerityVerifier.cpp:463-480 | The whole tree has at most (n-1)/(f-1) hash blocks plus one for each layer |
| MerkleLayout.TotalAtLeast | lib/dm-verity/DmVerityVerifier.cpp:463-480 | The whole tree has at least (n-1)/(f-1) hash blocks |
| MerkleLayout.DepthIsLogarithm | lib/dm-verity/DmVerityVerifier.cpp:470-480 | The number of layers is the least d with n <= f^d, so the loop takes logarithmically many rounds |
| MerkleLayout.LayersTile | lib/dm-verity/DmVerityVerifier.cpp:494-523 | Top layer first, the layers cover the hash region from its start to its end without gap or overlap |
| MerkleLayout.HashBlockInLayer | lib/dm-verity/DmVerityVerifier.cpp:200-213 | The hash block read for a block below a layer's count lies in that layer, so the index handed to the parent is below the parent's count |
| MerkleLayout.ComputeLayers | lib/dm-verity/DmVerityVerifier.cpp:463-483 | The loop and the reversal compute the defined layers, top first, and the total number of hash blocks |
| MerkleLayout.CalcRequiredHashBlocks | lib/dm-verity/DmVerityMounterLinux.cpp:187-205 | The mounter's own loop, with its 64-bit rounding up, arrives at the total that the verifier's layout has, or at zero hash blocks when the first rounding wraps |
| MerkleEvidence.ChainsAgreeOrCollide | lib/dm-verity/DmVerityVerifier.cpp:148-161 | Two chains of hash blocks of one length for one block number that lead to one root hash, hashed with one salt or with two, are the same or contain two different inputs with one digest, found by comparing them |
| MerkleEvidence.Soundness | lib/dm-verity/DmVerityVerifier.cpp:196-263 | Two blocks vouched for under one number in trees of one root hash and depth, whatever their salts, are the same block, or a collision is found among the blocks the two sides saw |
| HashTree.Layer.VerifyBlock | lib/dm-verity/DmVerityVerifier.cpp:97-179 | Over any file an accepted digest has a chain of delivered hash blocks up to the root hash, whichever kind of layer is asked; over a fixed file the answer is that of the walk without caches |
| HashTree.HashTreeLayer.VerifyBlock | lib/dm-verity/DmVerityVerifier.cpp:196-263 | With cache, eviction and recursion to the parent: every cached block keeps its chain to the root, an accepted digest has one, and over a fixed file the answer is that of the walk without caches |
| HashTree.HashTreeLayer.LoadHashBlock | lib/dm-verity/DmVerityVerifier.cpp:213-251 | A block comes into the cache only after the parent chain has accepted it, and a refused or short read leaves the cache as it was |
| HashTree.HashTreeLayer.Remember | lib/dm-verity/DmVerityVerifier.cpp:241-251 | The entry with the least index makes way when the cache is full, and everything kept stays vouched for |
| HashTree.RememberedEntries | lib/dm-verity/DmVerityVerifier.cpp:241-251 | A cache never holds more than 64 blocks, and only when it holds 64 does the one with the least index make way |
| HashTree.ValidGrows | lib/dm-verity/DmVerityVerifier.cpp:207-262 | Further reads never invalidate what the caches of a whole chain of layers hold |
| HashTree.ValidIsRead | lib/dm-verity/DmVerityVerifier.cpp:117-146 | A chain of layers in good order has read the hash block of its top layer |
| Verifier.DataSizeLimit | lib/dm-verity/DmVerityVerifier.cpp:425-434 | The 512 MB limit is enforced exactly on the block counts whose 64-bit product does not wrap to a small number |
| Verifier.BothSizeTests | lib/dm-verity/DmVerityVerifier.cpp:427-492 | Which counts pass the data limit and the size test together, in the 64-bit products of the code; for counts below 2^52 they are those that keep both limits |
| Verifier.WrappedCountPasses | lib/dm-verity/DmVerityVerifier.cpp:427-492 | 127 * 2^52 blocks, with 2^52 + 1 hash blocks, pass both tests in a file of two blocks |
| Verifier.FitsMeansHoldsTop | lib/dm-verity/DmVerityVerifier.cpp:485-499 | A count below 2^52 that passes leaves room for the top hash block in the file |
| Verifier.WrappedCountWithoutTop | lib/dm-verity/DmVerityVerifier.cpp:485-499 | 2032 * 2^52 blocks pass with room for the superblock alone, so the bound is needed |
| Verifier.PassedCountsDoNotWrap | lib/dm-verity/DmVerityMounterLinux.cpp:391-407 | A count that passes the data test of either program neither wraps when it is rounded up nor makes the hashes' size wrap to zero when the superblock is counted in |
| Verifier.SizeTestsAgree | lib/dm-verity/DmVerityMounterLinux.cpp:370-407 | For every count that passes the data test of either program, the two tests of the hash range, in 64-bit arithmetic, agree if and only if it is more than one block or the range holds a superblock |
| Verifier.SmallRangeForOneBlock | lib/dm-verity/DmVerityMounterLinux.cpp:370-371 | For a single block the verifier accepts a hash range smaller than a superblock and the mounter does not |
| Verifier.OpenCauses | lib/dm-verity/DmVerityVerifier.cpp:343-529 | Every outcome of opening a fixed file, by its cause, from the bytes at the offset asked for: which range is outside, what the superblock must hold byte for byte, which counts and sizes are refused, and the hash of the block after it; success leaves the count, the salt and the place of the tree that the superblock declares |
| Verifier.RangeCauses | lib/dm-verity/DmVerityVerifier.cpp:350-372 | Over any file, when each complaint about the arguments is made, and that the superblock is read and the tree placed at the offset asked for |
| Verifier.DmVerityVerifier.Open | lib/dm-verity/DmVerityVerifier.cpp:343-383 | Over any file the outcome, with its error and its state, is what the pure definition makes of the two reads; an opened verifier is in good order if and only if the top hash block was read, which it was unless the root hash is all zeros; over a fixed file it was exactly when the file holds that block; an offset past the end is refused, and otherwise it is the one used |
| Verifier.DmVerityVerifier.ParseDmVeritySuperBlock | lib/dm-verity/DmVerityVerifier.cpp:401-529 | The layers built lie where the layout puts them, with 64-bit offsets, and the outcome is the pure one for the two reads, whatever they deliver |
| Verifier.DmVerityVerifier.Verify | lib/dm-verity/DmVerityVerifier.cpp:531-545 | Accepts only blocks in range that a chain of delivered hash blocks vouches for, and over a fixed file exactly those that the walk accepts, after any earlier calls |
| Verifier.TwoVerifiersAgree | lib/dm-verity/DmVerityVerifier.cpp:531-545 | Two verifiers with one root hash and trees of one depth, over different or changing files and whatever their salts and block counts, accept the same block under a number, or what they saw contains a collision of 4096-byte blocks |
| TreeBuilder.WalkOverBuiltTree | lib/dm-verity/DmVerityVerifier.cpp:196-263 | Over a tree laid out by the builder the walk accepts a digest for a block exactly when it is the recorded one |
| TreeBuilder.SuperBlockRoundTrip | lib/dm-verity/DmVeritySuperBlock.cpp:46-77 | A superblock written for a block count and a salt is supported and is read back with both |
| TreeBuilder.OpenAccepts | lib/dm-verity/DmVerityVerifier.cpp:343-383 | Opening succeeds on every hash file the builder makes, for any number of data blocks within the limit, at the offset asked for in a larger file and within the size asked for |
| TreeBuilder.VerifyAcceptsExactly | lib/dm-verity/DmVerityVerifier.cpp:531-545 | Completeness: over a built hash file a block is accepted exactly when its number is in range and its salted digest is the recorded one, the single-block case included |
| TreeBuilder.AcceptedIsCommitted | lib/dm-verity/DmVerityVerifier.cpp:418-545 | A root hash made from data commits to it for every salt and every count of the same depth that the hash file declares: a block accepted for a number of the data is the genuine one or a collision with a genuine block is found; one accepted past the data gives away a block with a digest of zeros |
| TreeBuilder.EvidenceIsRecorded | lib/dm-verity/DmVerityVerifier.cpp:196-263 | A chain of the right length to a genuine root is evidence only for the digest recorded in the slot, zeros in the slots left over |
| TreeBuilder.EveryDepthOpens | lib/dm-verity/DmVerityVerifier.cpp:418-528 | For any data and any level of its tree, a hash file made over the blocks of that level opens with the genuine root hash and salt, and every block of the level is accepted |
| TreeBuilder.AcceptedAtLowerDepth | lib/dm-verity/DmVerityVerifier.cpp:418-545 | A count that makes a tree of k layers less commits to the level k layers up: what is accepted is a block of that level, or a finding is made |
| TreeBuilder.AcceptedAtGreaterDepth | lib/dm-verity/DmVerityVerifier.cpp:418-545 | A count that makes a deeper tree never accepts anything without a finding: a collision, a digest of zeros, or a block whose digest is 32 bytes of a genuine block of data |
| TreeBuilder.DepthIsNeeded | lib/dm-verity/DmVerityVerifier.cpp:418-528 | A concrete tree whose hash block is vouched for as data at another depth, with no collision and no digest of zeros anywhere |
| TreeBuilder.OpensUnread | lib/dm-verity/DmVerityVerifier.cpp:130-146 | A file that fails after its superblock opens if and only if the root hash is all zeros, and the verifier is then not in good order |
| ProtectedFile.CheckAndCalcFileRange | lib/dm-verity/DmVerityProtectedFile.cpp:49-77 | A range that is accepted starts before the end of the file and ends inside it, and defaults to the rest of the file |
| ProtectedFile.Open | lib/dm-verity/DmVerityProtectedFile.cpp:111-152 | Each error has exactly its cause; an opened file has the range asked for and a verifier in the state of the pure definition that covers it, and it is in good order if and only if the top hash block was read |
| ProtectedFile.DmVerityProtectedFile.ReadAndVerifyBlock | lib/dm-verity/DmVerityProtectedFile.cpp:330-348 | Success means that the destination holds a block the verifier vouches for under that number; nothing else of the destination changes |
| ProtectedFile.DmVerityProtectedFile.ReadPartialBlock | lib/dm-verity/DmVerityProtectedFile.cpp:282-320 | Returns the asked part of a vouched-for block, and a set bounce-buffer number always means an accepted copy of that block is in the buffer, also after failures |
| ProtectedFile.DmVerityProtectedFile.ReadDirectIo | lib/dm-verity/DmVerityProtectedFile.cpp:362-402 | Refines the same definition block by block: the bytes served are the asked slice of accepted blocks |
| ProtectedFile.DmVerityProtectedFile.Read | lib/dm-verity/DmVerityProtectedFile.cpp:197-267 | After any earlier reads, a successful read returns exactly the asked slice of consecutive accepted blocks and touches no byte beyond; over fixed files it succeeds exactly when the range is inside and every block it needs is readable |
| ProtectedFile.ReadBothWays | lib/dm-verity/DmVerityProtectedFile.cpp:197-402 | Two readers of the same fixed files, one for each path and each with its own caches, fail together and return the same bytes, if and only if it is not an empty read inside a block that cannot be read |
| ProtectedFile.EmptyRead | lib/dm-verity/DmVerityProtectedFile.cpp:197-402 | Such a read in full: it fails on the buffered path and succeeds on the other |
| ProtectedFile.ReadsReturnTheSame | lib/dm-verity/DmVerityProtectedFile.cpp:197-402 | Over a fixed data file two successful reads of one range return the same bytes, whichever paths and caches served them |
| ProtectedFile.ServedIsFileSlice | lib/dm-verity/DmVerityProtectedFile.cpp:197-402 | Over a fixed data file the bytes served are the bytes of the file at that place |
| ProtectedFile.ReadIsAuthentic | lib/dm-verity/DmVerityProtectedFile.cpp:197-402 | With a root hash made from data, a successful read over arbitrary changing files, whatever salt and count of the same depth they declare, returns the slice of that data, or a collision with a genuine block is found, or for a read past the data a block with a digest of zeros |
| ProtectedFile.ReadImage | lib/dm-verity/DmVerityProtectedFile.cpp:197-267 | As the file an image is read through: unless such a find is made, what is returned is faithful to the data, and over fixed readable files a read fails only outside the range |
| ProtectedFile.GenuineFilesAreReadable | lib/dm-verity/DmVerityProtectedFile.cpp:330-348 | Over genuine files every block can be read |
| GenuineFiles.OpenGenuine | lib/dm-verity/DmVerityProtectedFile.cpp:111-152 | Over files that hold the data and its hash file, at any offsets, opening succeeds with the range asked for, and every block can be read |
| GenuineFiles.GenuineRoundTrip | lib/dm-verity/DmVerityProtectedFile.cpp:111-402 | Then any reads, in any order and on either path, return exactly what the range of the data file holds, and fail exactly outside it |
| IndexPacking.PackRoundTrip | lib/erofs/ErofsExtentMap.cpp:556-592 | Encoding any sixteen 14-bit entries and a 32-bit address into 32 little-endian bytes and decoding them gives them back |
| ExtentMap.HeadAddresses | lib/erofs/ErofsExtentMap.cpp:556-592 | The i-th head of a group of entries has the address base + 1 + the number of heads before it in the group, modulo 2^32 |
| ExtentMap.OrIsAdd | lib/erofs/ErofsExtentMap.cpp:116-141 | Or-ing an offset below the cluster size into a cluster's start is adding it |
| ExtentMap.PacksHeadsOrdered | lib/erofs/ErofsExtentMap.cpp:473-592 | Whatever the index bytes hold, the heads in them have strictly increasing offsets, each inside its own cluster |
| ExtentMap.AcceptKeepsOrder | lib/erofs/ErofsExtentMap.cpp:395-459 | Adding heads that arrive in order leaves the heads kept in order and inside the file |
| ExtentMap.ErofsExtentMap.Add | lib/erofs/ErofsExtentMap.cpp:395-459 | Adds exactly the heads that the definition accepts and keeps the extents those of the heads so far |
| ExtentMap.ErofsExtentMap.ProcessCompact2BIndexes | lib/erofs/ErofsExtentMap.cpp:556-592 | Takes exactly the sixteen entries of a 32-byte group, in order, or fails as the definition does |
| ExtentMap.ErofsExtentMap.ProcessCompact4BIndexes | lib/erofs/ErofsExtentMap.cpp:473-501 | Takes exactly the two entries of an 8-byte group, or fails as the definition does |
| ExtentMap.ErofsExtentMap.ProcessSingleCompact4BIndex | lib/erofs/ErofsExtentMap.cpp:510-537 | Takes the first entry of a final half-used group |
| ExtentMap.PlanCoversClusters | lib/erofs/ErofsExtentMap.cpp:217-251 | The three runs of indexes together cover every logical cluster, and with 8-byte alignment they are made of whole groups |
| ExtentMap.FirstLoopEnds | lib/erofs/ErofsExtentMap.cpp:232-280 | For an offset aligned to 4 bytes the unsigned count of the first loop, two less each turn, ever reaches zero exactly when the offset is aligned to 8 |
| ExtentMap.ErofsExtentMap.RunFirstLoop | lib/erofs/ErofsExtentMap.cpp:271-280 | With an odd count the loop goes on past the indexes that were read if and only if it accepts all of them |
| ExtentMap.PacksHoldEveryCluster | lib/erofs/ErofsExtentMap.cpp:254-309 | The bytes that are read hold one entry for each logical cluster, no more |
| ExtentMap.ErofsExtentMap.ReadCompactIndexes | lib/erofs/ErofsExtentMap.cpp:268-309 | The three loops stay inside the bytes read, end without wrapping, and present every cluster once in order |
| ExtentMap.CompactHeadsOrdered | lib/erofs/ErofsExtentMap.cpp:212-309 | The heads of any compact index area are strictly in order |
| ExtentMap.FullMapIsPartition | lib/erofs/ErofsExtentMap.cpp:395-459 | The extents of a full map are non-empty, abut and end at the file's size if and only if the heads are in order |
| ExtentMap.ErofsExtentMap.FromCompactIndexes | lib/erofs/ErofsExtentMap.cpp:154-319 | A map that is built is full and its extents partition the file; it is the map of the definition, and building fails only when the definition does; only for an offset that is 4 modulo 8 can a loop read past the indexes |
| ExtentEncoder.CompactRoundTrip | lib/erofs/ErofsExtentMap.cpp:154-319 | Over any image that holds the indexes of a list of clusters, written group by group from the format, the map built has exactly the extents that were written, with compression, offset, length and block; there is a map if and only if the extents are as many as they should be, within the file and the limits |
| ExtentEncoder.CompactEncodingIsRead | lib/erofs/ErofsExtentMap.cpp:212-309 | The definition behind it gives the heads that were written, for every cluster size that the header can declare |
| ExtentEncoder.IndexesAreRead | lib/erofs/ErofsExtentMap.cpp:217-309 | The three loops meet the groups where the encoder put them: 14-bit groups from the first 32-byte boundary on while there are sixteen clusters left, 16-bit pairs before and after, and a last one alone |
| ExtentEncoder.ConsecutiveIsAddressable | lib/erofs/ErofsExtentMap.cpp:473-592 | Every file whose heads have consecutive blocks can be written in these groups |
| ExtentEncoder.AnyFileCanBeWritten | lib/erofs/ErofsExtentMap.cpp:154-319 | And there is an image that holds its map |
| ExtentEncoder.CompactMapNeeds | lib/erofs/ErofsExtentMap.cpp:158-229 | There is no map for another block size, a misaligned offset, another algorithm, other advice, or 14-bit entries with larger clusters |
| ExtentEncoder.TypeIsInOffset | lib/erofs/ErofsExtentMap.cpp:485-491 | In clusters of 16384 bytes or more the type of an entry is part of its offset |
| ExtentMap.LegacyMapIsOrdered | lib/erofs/ErofsExtentMap.cpp:116-141 | When every cluster offset is below the cluster size the accepted heads are in order |
| ExtentMap.LegacyOffsetsCanRunBackwards | lib/erofs/ErofsExtentMap.cpp:116-141 | Three accepted records, one with an offset beyond its cluster, give heads out of order |
| ExtentMap.ErofsExtentMap.FromLegacyIndexes | lib/erofs/ErofsExtentMap.cpp:47-144 | A map that is built is full, and partitions the file if and only if the heads of the records that lie inside the file come in strictly increasing order |
| ExtentEncoder.LegacyRoundTrip | lib/erofs/ErofsExtentMap.cpp:47-144 | Over any image that holds the legacy records of a list of clusters, for blocks of any power of two, the map built has exactly the extents that were written, and there is one under the same condition |
| ExtentMap.ErofsExtentMap.Find | lib/erofs/ErofsExtentMap.cpp:370-385 | On a partition finds the extent that contains the offset; the step back happens only before the first extent |
| ExtentMap.ContainedOnce | lib/erofs/ErofsExtentMap.cpp:370-385 | At most one extent of a partition contains an offset |
| CompressedReader.ErofsInodeCompressedDataReader.Read | lib/erofs/ErofsInodeCompressedDataReader.cpp:145-217 | Over any image, after any earlier reads, when extents that share a block have equal lengths, a read stays inside the block that is kept and never steps past the last extent; a successful one writes exactly its bytes and, if the answers of the image are true, returns those of the extents' contents; over a reliable image whose extents expand it succeeds exactly inside the file |
| CompressedReader.ErofsInodeCompressedDataReader.ReadLz4Compressed | lib/erofs/ErofsInodeCompressedDataReader.cpp:247-307 | A read is served from the block that is kept exactly when the address is the same; with equal lengths these are the bytes that decompressing again would give |
| CompressedReader.SharedBlocksMatter | lib/erofs/ErofsInodeCompressedDataReader.cpp:145-307 | In every map with two extents of different lengths in one block, two reads of the file and some decoder give wrong bytes throughout the shorter extent |
| CompressedReader.ErofsInodeCompressedDataReader.ReadUncompressed | lib/erofs/ErofsInodeCompressedDataReader.cpp:228-235 | Returns the asked part of a plain extent |
| CompressedReader.Source.ContentIsSlice | lib/erofs/ErofsInodeCompressedDataReader.cpp:145-217 | Byte by byte content is the slice of the concatenated extents |
| CompressedReader.Source.ContentsAt | lib/erofs/ErofsInodeCompressedDataReader.cpp:145-217 | Each byte of the concatenation comes from the one extent that contains its offset |
| StoredFile.StoredIsRead | lib/erofs/ErofsInodeCompressedDataReader.cpp:321-361 | What the reader takes for the contents of an extent is what is stored there: plain bytes, or what LZ4 makes of the data behind the leading zeros, or of the whole block without zero padding |
| StoredFile.ReadIsStored | lib/erofs/ErofsInodeCompressedDataReader.cpp:321-361 | And it takes nothing for contents that is not stored in this way |
| StoredFile.ReadParts | lib/erofs/ErofsInodeCompressedDataReader.cpp:145-307 | A read of a file whose parts are stored, after any earlier reads, returns the slice of the parts put together; over a reliable image it succeeds exactly inside the file |
| StoredFile.FileRoundTrip | lib/erofs/ErofsInodeCompressedDataReader.cpp:145-361 | From the image to the bytes: over a reliable image that holds the encoded indexes and the stored parts, the map is built and any reads in any order return what is asked for, or fail exactly outside the file |
| VerifiedImage.AsImage | lib/dm-verity/DmVerityProtectedFile.cpp:197-267 | A protected file with a root hash made from data answers any sequence of reads truly to that data, over arbitrary changing files, unless a collision or a digest of zeros is found among the blocks that were read |
| VerifiedImage.ReadFile | lib/erofs/ErofsInodeCompressedDataReader.cpp:145-307 | Any number of reads of a compressed file in a protected image, through one reader and over arbitrary changing files: every one that succeeds returns the decompressed bytes of the data that the root hash was made from, when extents that share a block have equal lengths, or such a find is made |
| VerifiedImage.ReadIsSlice | lib/erofs/ErofsInodeCompressedDataReader.cpp:145-217 | These bytes are the slice of the file, its extents decompressed and joined |
| DirBlock.ProcessDirectoryBlock | lib/erofs/ErofsReader.cpp:374-470 | On arbitrary bytes every access stays in the block, and the entries appended are those of the pure parser |
| DirBlock.NameInBlock | lib/erofs/ErofsReader.cpp:405-417 | The checks of one entry put the start of the next name inside the block |
| DirBlock.ValidateFileName | lib/erofs/ErofsReader.cpp:485-497 | Accepts exactly the names without separators or NUL that are not special |
| DirBlock.BlockRoundTrip | lib/erofs/ErofsReader.cpp:374-470 | Encoding any non-empty list of valid entries and parsing the block gives them back in order without "." and ".." |
| DirBlock.ParseBlockMeans | lib/erofs/ErofsReader.cpp:374-470 | On any bytes, in both directions: parsing gives the entries that the block holds, field by field in the numbers of the format, without "." and "..", and fails exactly when it does not hold as many as the first name offset says |
| DirBlock.DirectoryRoundTrip | lib/erofs/ErofsReader.cpp:312-361 | Entries encoded over any number of blocks, each filled up but the last, are read back in order without "." and ".." |
| DirBlock.ReadDirectoryBlocks | lib/erofs/ErofsReader.cpp:312-361 | The loop over the blocks gives what the pure parser of whole directories gives, the last block possibly shorter, and fails when it does |
| ErofsReader.ErofsReader.Next | lib/erofs/ErofsReader.cpp:228-304 | Returns the entry at the current index, which is always inside the listing of the front directory; on an image that unrolls to a finite tree, what is left to return loses exactly its first entry; after any calls on any image, finite or not, every directory that was returned came before what is in it |
| ErofsReader.WalkVisitsAll | lib/erofs/ErofsReader.cpp:228-304 | From any point on, the walk returns the entries of the tree that is left, each as often as it is there |
| ErofsReader.ParentsComeFirst | lib/erofs/ErofsReader.cpp:236-245 | Every directory is returned before anything inside it |
| ErofsReader.WalkIsLevelOrder | lib/erofs/ErofsReader.cpp:236-304 | The queue refines going level by level, each directory in the order in which it lists its entries |
| ErofsReader.WholeWalk | lib/erofs/ErofsReader.cpp:228-304 | The walk of a whole tree: everything, level by level, parents first, and no path twice when each directory has distinct names |
| ErofsReader.ListImage | lib/erofs/ErofsReader.cpp:208-211 | A client's loop comes to an end without error and has seen the whole tree in that order |
| SuperBlock.TableStepDivides | lib/erofs/ErofsSuperBlock.cpp:49-55 | One table step is eight steps of division by the reflected polynomial 0x82F63B78 |
| Crc32cTable.TableIsDivision | lib/erofs/ErofsSuperBlock.cpp:62-93 | Each of the 256 entries is the remainder its index leaves |
| SuperBlock.Crc32c.Update | lib/erofs/ErofsSuperBlock.cpp:49-55 | The state after any bytes is the remainder of bit-at-a-time division |
| SuperBlock.ThreePieces | lib/erofs/ErofsSuperBlock.cpp:137-150 | Feeding the part before the checksum, four zeros and the part after it is one pass over the block with its checksum field zeroed |
| SuperBlock.CheckValue | lib/erofs/ErofsSuperBlock.cpp:41-60 | A new checksum that has taken "123456789" has the state that is the complement of the published check value |
| SuperBlock.ParseCauses | lib/erofs/ErofsSuperBlock.cpp:103-168 | Every outcome by its cause, from the bytes: magic number, extensions, features, declared block size; with a checksum, acceptance needs the stored word to be the remainder from 0xFFFFFFFF over the block with zeros in its place |
| SuperBlock.Parse | lib/erofs/ErofsSuperBlock.cpp:103-168 | A superblock with a checksum is accepted only if one pass over its block finds that checksum, and each refusal has exactly its cause, the earliest check that fails |
| SuperBlock.SealedMatches | lib/erofs/ErofsSuperBlock.cpp:137-155 | Storing the checksum of a block in it makes it match |
| SuperBlock.DamageIsNoticed | lib/erofs/ErofsSuperBlock.cpp:137-155 | A matching block stops matching when any one of its bytes changes, the checksum's own included |
| SuperBlock.OutsideOnlyFor1024 | lib/erofs/ErofsSuperBlock.cpp:128-149 | With a buffer of 4096 bytes the length check leaves out exactly the declared block size of 1024 |
| SuperBlock.OutsideHappens | lib/erofs/ErofsSuperBlock.cpp:128-149 | Such a buffer |
| ArchiveReader.ArchiveReader.Next | lib/archive/ArchiveReader.cpp:202-338 | Each call hands out the first of the items that are left, or nothing and then an error exactly when the archive is unacceptable; a header is read only when the queue is empty, and a file handed out can still be read |
| ArchiveReader.ArchiveReader.UpdateParentEntryStack | lib/archive/ArchiveReader.cpp:73-103 | Queues exactly the missing directories of a path, shortest first, up to the limit, and remembers them |
| ArchiveReader.ArchiveReader.CreateEntry | lib/archive/ArchiveReader.cpp:113-168 | Makes the entry that the definition allows, counts it when it is signed, and otherwise sets the error |
| ArchiveReader.ArchiveReader.WithinSymLink | lib/archive/ArchiveReader.cpp:181-191 | True exactly when some symlink's path is a prefix, by components |
| ArchiveReader.ListingInOrder | lib/archive/ArchiveReader.cpp:202-338 | For every archive, acceptable or not: directories above an item come earlier, no directory comes twice, nothing of a later header lies at or below a symlink, made-up parents included, and a file carries the number of its header |
| ArchiveReader.NewDirectoriesAre | lib/archive/ArchiveReader.cpp:77-102 | The directories queued are the unknown prefixes of the path, each longer than the last, none left out |
| ArchiveReader.ListingWithinLimits | lib/archive/ArchiveReader.cpp:202-338 | For every archive: what is handed out has a relative path that does not climb, a size within the limit or a non-empty target, and the numbers of directories and symlinks stay within theirs |
| ArchiveReader.DirectoryLimit | lib/archive/ArchiveReader.cpp:88-98 | Anywhere in an archive a directory header is accepted exactly when it makes for at most 8193 directories in all |
| ArchiveReader.DirectoryLimitIsReached | lib/archive/ArchiveReader.cpp:88-98 | A first header of 8193 levels is accepted and one of 8194 is not |
| ArchiveReader.AfterIsCounted | lib/archive/ArchiveReader.cpp:88-98 | The count of directories stays the number of different directories handed out |
| ArchiveReader.SignedSet | lib/archive/ArchiveReader.cpp:123-137 | A signed archive read to its end hands out only signed paths, and all of them if and only if no file or symlink path comes twice |
| ArchiveReader.RepeatedPathHidesAnother | lib/archive/ArchiveReader.cpp:221-229 | An archive that holds one signed file twice and another not at all is read to its end without error |
| ArchiveReader.CleanContents | lib/archive/ArchiveReader.cpp:221-229 | Without an error every file and symlink header is handed out, and their number is that of the digests |
| ArchiveReader.ListingIsSigned | lib/archive/ArchiveReader.cpp:123-137 | In a signed package every symlink's target has its digest and every file carries the digest of its path |
| ArchiveContents.AcceptableArchives | lib/archive/ArchiveReader.cpp:73-338 | Which archives are read to the end without an error, said of the headers alone: each well formed and signed, none at or below an earlier symlink, at most 8192 symlinks and 8193 directories, and as many files and symlinks as digests |
| ArchiveContents.ListingContents | lib/archive/ArchiveReader.cpp:113-338 | Every archive hands out, in order, exactly the file and symlink headers before the first that is not accepted, each entry with the path, size, target, digest and number of its header |
| ArchiveContents.ListingDirectories | lib/archive/ArchiveReader.cpp:77-102 | The directories handed out are the levels of the accepted headers, no more and no fewer |
| ArchiveContents.RefusedHeader | lib/archive/ArchiveReader.cpp:88-98 | What a header that stops the reader still brings: nothing, or the first missing directory when only the limit stops it |
| ArchiveReader.ReadPackage | lib/archive/ArchiveReader.cpp:202-338 | A client's loop sees the whole listing and ends with an error exactly when the archive is unacceptable |
| ArchiveReader.FailedReadStops | lib/archive/ArchiveEntries.cpp:302-312 | After a read of an entry has failed in the archive library the reader hands out nothing more |
| ArchiveEntries.ArchiveFileEntry.Read | lib/archive/ArchiveEntries.cpp:240-350 | A stale entry is refused, and one whose reader is gone; a failure is left in the shared state; the call that first reaches the end succeeds exactly when everything returned has the signed digest, and later calls report the end again |
| ArchiveEntries.ReadAll | lib/archive/ArchiveEntries.cpp:277-350 | A client that reads to the end without error has exactly the delivered bytes, and they have the signed digest |
| ArchiveEntries.DoFileWrite | lib/archive/ArchiveEntries.cpp:364-440 | Success if and only if every block is taken and written whole, the entry is complete, the digest of the stream with zeros in the gaps is the expected one and the mode can be set; each error if and only if its one cause occurs, for a block the first that fails; a new file then holds that stream and has that digest unless empty blocks leave a gap at its end |
| ArchiveEntries.FailureIs | lib/archive/ArchiveEntries.cpp:377-414 | At most one block fails, and for one reason |
| ArchiveEntries.CheckRefuses | lib/archive/ArchiveEntries.cpp:381-398 | The checks of a block, in wrapping 64-bit arithmetic and for negative offsets too, refuse exactly what goes backwards or exceeds a limit |
| ArchiveEntries.CheckCauses | lib/archive/ArchiveEntries.cpp:381-398 | Each refusal of a block by its cause, in plain numbers |
| ArchiveEntries.StreamByte | lib/archive/ArchiveEntries.cpp:400-408 | A byte fed to the digest is that of the block that covers it, and zero where none does |
| ArchiveEntries.WrittenBytes | lib/archive/ArchiveEntries.cpp:413-414 | What a positioned write leaves, byte by byte: the data, what was there before, and zeros in a gap |
| ArchiveEntries.FileHoldsStream | lib/archive/ArchiveEntries.cpp:400-416 | A new file holds the stream up to the end of the last block with data |
| ArchiveEntries.FileIsStream | lib/archive/ArchiveEntries.cpp:364-440 | The file is the stream if and only if no empty blocks leave a gap at the end, in particular when the last block is not empty |
| ArchiveEntries.TrailingGap | lib/archive/ArchiveEntries.cpp:364-440 | Such a gap is possible |
| VersionNumber.Compare | lib/core/VersionNumber.cpp:189-221 | Gives the order of the zero-padded versions read as numbers of four digits, which is a total preorder |
| VersionNumber.FirstDifferenceDecides | lib/core/VersionNumber.cpp:189-221 | The order of those numbers is lexicographic in the fields |
| VersionNumber.SameRankSameFields | lib/core/VersionNumber.cpp:189-221 | Versions compare equal exactly when they agree after padding |
| VersionNumber.RankIsOrder | lib/core/VersionNumber.cpp:189-221 | One version is below another exactly when its first differing field is smaller |
| VersionNumber.VersionNumber.Increment | lib/core/VersionNumber.cpp:72-91 | Adds one step of the last field to that number, carries included, and wraps only from the largest version of its length |
| VersionNumber.FromString | lib/core/VersionNumber.cpp:93-166 | Accepts exactly the strings whose pieces between dots are acceptable and gives their values, the last one modulo 2^32; a last number of 2^64 or more ends in an exception; each error if and only if reading stops for its cause |
| VersionNumber.StopsOnce | lib/core/VersionNumber.cpp:100-165 | A string has at most one place and one cause at which reading stops |
| VersionNumber.AcceptedStrings | lib/core/VersionNumber.cpp:93-166 | The acceptable strings are exactly those put together with dots from acceptable pieces |
| VersionNumber.LastFieldIsExact | lib/core/VersionNumber.cpp:137-148 | The last field is read as it is written if and only if it is below 2^32 |
| VersionNumber.LastFieldWraps | lib/core/VersionNumber.cpp:137-148 | "1.4294967296" is read as 1.0 |
| VersionNumber.PrintThenParse | lib/core/VersionNumber.cpp:93-181 | A printed version is read back if and only if no field but the last is 2^32 - 1 |
| VersionConstraint.BetweenVersionAndNext | lib/core/VersionConstraint.cpp:163-168 | A bare version of k fields admits exactly the versions that agree with it on those fields, also when incrementing carries, and nothing when all its fields are the largest |
| VersionConstraint.BareAdmitsItself | lib/core/VersionConstraint.cpp:163-168 | A bare version admits itself if and only if not all its fields are the largest, and otherwise admits nothing |
| VersionConstraint.RangeAdmitsItsEnd | lib/core/VersionConstraint.cpp:98-116 | A range in order admits its upper end unless that has fewer than four fields, all the largest; then it admits nothing |
| VersionConstraint.LargestAdmitsNothing | lib/core/VersionConstraint.cpp:98-168 | "4294967295" is read as such a version |
| VersionConstraint.BelowNextStep | lib/core/VersionConstraint.cpp:112-115 | Below the increment of the upper end means that the leading fields are at most the upper end |
| VersionConstraint.NextLeading | lib/core/VersionConstraint.cpp:150-162 | Tilde and caret admit exactly the versions at least the given one that agree on two fields or one, and nothing when the field to increment is the largest |
| VersionConstraint.FormsByFields | lib/core/VersionConstraint.cpp:129-169 | What each operator stands for, field by field |
| VersionConstraint.RangeByFields | lib/core/VersionConstraint.cpp:98-116 | What a range stands for, field by field |
| VersionConstraint.FromOperator | lib/core/VersionConstraint.cpp:129-169 | The bounds stored for an operator admit exactly the versions it stands for |
| VersionConstraint.FromRange | lib/core/VersionConstraint.cpp:98-116 | The bounds stored for a range admit exactly the versions from the lower end whose leading fields are at most the upper end; ends out of order are refused |
| VersionConstraint.VersionConstraint.IsSatisfiedBy | lib/core/VersionConstraint.cpp:37-69 | True exactly when every bound holds |

## Left out

- ExtentMap.ErofsExtentMap.FromCompactIndexes: takes at least one compressed block; with none, the first head would be written outside an empty list of extents.
- ExtentMap.ErofsExtentMap.FromLegacyIndexes: takes at least one compressed block, for the same reason.
- CompressedReader.ErofsInodeCompressedDataReader.Read: takes a map that is a partition, which every map from compact indexes is and one from legacy indexes exactly when its heads come in order; what lies outside the block that is kept, or before the first extent, is not modelled; the model stops there with an outcome of its own.
- ExtentEncoder.CompactRoundTrip: the two highest bits of a 16-bit entry in a 4096-byte cluster, which the reader ignores, are written as zeros.
- VerifiedImage.ReadFile: the ranges asked of the protected file are a parameter; a reader that asks for another range fails. That reads succeed is stated for each layer on its own, by GenuineFiles.GenuineRoundTrip and StoredFile.FileRoundTrip.
- SuperBlock.Parse: stops with outcomes of its own where the code would read outside its buffer and where a 32-bit one would be shifted by more than 30; the fields that are stored without a check are not modelled.
- DirBlock.ReadDirectoryBlocks: takes the contents of a directory as given, because the source takes a return value of -1 of a failed read for success.
- HashTree.Layer.VerifyBlock: needs the top hash block; asking a verifier that was opened without it is not modelled.
- Verifier.DmVerityVerifier.Verify: needs the top hash block, for the same reason.
- ErofsReader.ErofsReader.Next: what makes an inode valid is a parameter of the image, and the type returned is that of the directory entry.
- ArchiveReader.ArchiveReader.UpdateParentEntryStack: the tree of nested maps is modelled as the set of the paths in it.
- ArchiveReader.ArchiveReader.Next: paths arrive normalised, as lists of components, because `lexically_normal` is library code; "at or below" is a prefix of components, so a symlink named "." covers only itself.
- VersionConstraint.FromOperator: starts from an operator and a version; the regular expressions are library code.
- VersionConstraint::toString: prints the exclusive upper bound, so printing and parsing a constraint is not a round trip.
- ErofsReader construction from a superblock with another block size than 4096, which leaves an empty reader without an error.
- SHA-256, LZ4 and libarchive: arbitrary functions or sequences of answers.
- Memory allocation, buffer alignment, advice hints, permissions, owners and times: no effect on the bytes returned.
- Device mapper, loop devices, mounting, certificates, signatures, manifests and metadata: system calls or field-by-field checks.
- Extended attributes, chunk-based inodes, big physical clusters and other compressions: the source rejects or ignores them.
