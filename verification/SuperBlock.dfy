/**
 The checksum of the EROFS superblock: a table-driven CRC32C over the block that holds the superblock, with the
 checksum field read as zero. The table form is bit-at-a-time division, and a damaged byte is always noticed.
 */
module SuperBlock {
  import opened Crc32cTable
  import opened Wrappers
  import Bytes
  import IndexPacking

  type Data = seq<bv8>

  const INITIAL: bv32 := 0xFFFF_FFFF

  // ----- division, one bit at a time --------------------------------------

  function Xor(x: bv32, y: bv32): bv32 {
    x ^ y
  }

  function LowBit(x: bv32): bv32 {
    x & 1
  }

  function Half(x: bv32): bv32 {
    x >> 1
  }

  /** Takes one bit of the message into the remainder. */
  function FeedBit(crc: bv32, bit: bv32): bv32 {
    if LowBit(Xor(crc, bit)) == 1 then Xor(Half(crc), POLYNOMIAL) else Half(crc)
  }

  /** Takes the low n bits of x, least significant bit first. */
  function FeedBits(crc: bv32, x: bv32, n: nat): bv32
    decreases n
  {
    if n == 0 then crc else FeedBits(FeedBit(crc, LowBit(x)), Half(x), n - 1)
  }

  function FeedByte(crc: bv32, b: bv8): bv32 {
    FeedBits(crc, Wide(b), 8)
  }

  /** The remainder after a whole message. */
  function Divide(crc: bv32, data: Data): bv32 {
    if data == [] then crc else FeedByte(Divide(crc, data[..|data| - 1]), data[|data| - 1])
  }

  // ----- the table form ---------------------------------------------------

  function ShiftBits(x: bv32, n: nat): bv32
    decreases n
  {
    if n == 0 then x else ShiftBits(Shift(x), n - 1)
  }

  function Down(x: bv32, n: nat): bv32
    decreases n
  {
    if n == 0 then x else Down(Half(x), n - 1)
  }

  lemma XorLowBit(x: bv32, y: bv32)
    ensures LowBit(Xor(x, y)) == LowBit(Xor(x, LowBit(y)))
  {
  }

  lemma XorHalf(x: bv32, y: bv32)
    ensures Half(Xor(x, y)) == Xor(Half(x), Half(y))
  {
  }

  lemma XorAssociates(x: bv32, y: bv32, z: bv32)
    ensures Xor(Xor(x, y), z) == Xor(x, Xor(y, z))
  {
  }

  lemma XorCommutes(x: bv32, y: bv32)
    ensures Xor(x, y) == Xor(y, x)
  {
  }

  lemma XorSwap(x: bv32, y: bv32, z: bv32)
    ensures Xor(Xor(x, y), z) == Xor(Xor(x, z), y)
  {
    hide Xor;
    XorAssociates(x, y, z);
    XorAssociates(x, z, y);
    XorCommutes(y, z);
  }

  lemma ShiftHalves(x: bv32)
    ensures Shift(x) == if LowBit(x) == 1 then Xor(Half(x), POLYNOMIAL) else Half(x)
  {
  }

  /** A bit can be taken on its own, or together with those after it, which move down. */
  lemma BitThenRest(crc: bv32, x: bv32)
    ensures Shift(Xor(crc, x)) == Xor(FeedBit(crc, LowBit(x)), Half(x))
  {
    hide Shift, Xor, LowBit, Half;
    ShiftHalves(Xor(crc, x));
    XorLowBit(crc, x);
    XorHalf(crc, x);
    XorSwap(Half(crc), Half(x), POLYNOMIAL);
  }

  /** Bits can be taken one by one, or added all at once and shifted out afterwards. */
  lemma {:induction false} BitsTogether(crc: bv32, x: bv32, n: nat)
    ensures ShiftBits(Xor(crc, x), n) == Xor(FeedBits(crc, x, n), Down(x, n))
    decreases n
  {
    hide Shift, FeedBit, Xor, LowBit, Half;
    if n > 0 {
      BitThenRest(crc, x);
      BitsTogether(FeedBit(crc, LowBit(x)), Half(x), n - 1);
    }
  }

  predicate LowZeros(h: bv32, n: nat)
    decreases n
  {
    n == 0 || (LowBit(h) == 0 && LowZeros(Half(h), n - 1))
  }

  /** A zero at the low end does not disturb what is added to it. */
  lemma HighBitMoves(h: bv32, l: bv32)
    requires LowBit(h) == 0
    ensures Shift(Xor(h, l)) == Xor(Half(h), Shift(l))
  {
    hide Shift, Xor, LowBit, Half;
    ShiftHalves(Xor(h, l));
    ShiftHalves(l);
    LowBitOfSum(h, l);
    XorHalf(h, l);
    XorAssociates(Half(h), Half(l), POLYNOMIAL);
  }

  lemma LowBitOfSum(h: bv32, l: bv32)
    requires LowBit(h) == 0
    ensures LowBit(Xor(h, l)) == LowBit(l)
  {
  }

  lemma {:induction false} HighBitsMove(h: bv32, l: bv32, n: nat)
    requires LowZeros(h, n)
    ensures ShiftBits(Xor(h, l), n) == Xor(Down(h, n), ShiftBits(l, n))
    decreases n
  {
    hide Shift, Xor, LowBit, Half;
    if n > 0 {
      HighBitMoves(h, l);
      HighBitsMove(Half(h), Shift(l), n - 1);
    }
  }

  function DropByte(x: bv32): bv32 {
    x >> 8
  }

  function LowByte(x: bv32): bv8 {
    (x & 0xFF) as bv8
  }

  function HighPart(x: bv32): bv32 {
    x & 0xFFFF_FF00
  }

  function Wide(b: bv8): bv32 {
    b as bv32
  }

  lemma EightHalves(x: bv32)
    ensures Half(Half(Half(Half(Half(Half(Half(Half(x)))))))) == DropByte(x)
  {
  }

  lemma DownByte(x: bv32)
    ensures Down(x, 8) == DropByte(x)
  {
    hide Half, DropByte;
    EightHalves(x);
    assert Down(x, 8) == Down(Half(Half(Half(Half(x)))), 4);
  }

  lemma ShiftEight(x: bv32)
    ensures ShiftBits(x, 8) == ShiftByte(x)
  {
    hide Shift;
    assert ShiftBits(x, 8) == ShiftBits(Shift(Shift(Shift(Shift(x)))), 4);
  }

  lemma HighBitsZero(x: bv32)
    ensures var h := x & 0xFFFF_FF00;
            && h & 1 == 0 && (h >> 1) & 1 == 0 && ((h >> 1) >> 1) & 1 == 0 && (((h >> 1) >> 1) >> 1) & 1 == 0
            && ((((h >> 1) >> 1) >> 1) >> 1) & 1 == 0 && (((((h >> 1) >> 1) >> 1) >> 1) >> 1) & 1 == 0
            && ((((((h >> 1) >> 1) >> 1) >> 1) >> 1) >> 1) & 1 == 0
            && (((((((h >> 1) >> 1) >> 1) >> 1) >> 1) >> 1) >> 1) & 1 == 0
  {
  }

  lemma HighPartIsHigh(x: bv32)
    ensures LowZeros(HighPart(x), 8)
  {
    HighBitsZero(x);
    assert LowZeros(Half(Half(Half(Half(HighPart(x))))), 4);
  }

  lemma TwoParts(x: bv32)
    ensures x == Xor(HighPart(x), Wide(LowByte(x)))
  {
  }

  lemma HighPartOfSum(crc: bv32, b: bv8)
    ensures DropByte(HighPart(Xor(crc, Wide(b)))) == DropByte(crc)
  {
  }

  lemma NothingAbove(b: bv8, x: bv32)
    ensures DropByte(Wide(b)) == 0 && Xor(x, 0) == x
  {
  }

  /** One step of the table form. */
  function TableStep(crc: bv32, b: bv8): bv32 {
    Xor(DropByte(crc), Lookup(LowByte(Xor(crc, Wide(b)))))
  }

  /** One step of the table form is eight steps of division. */
  lemma TableStepDivides(crc: bv32, b: bv8)
    ensures TableStep(crc, b) == FeedByte(crc, b)
  {
    hide Xor, Shift, FeedBits, ShiftBits, Down, DropByte, LowByte, HighPart, Wide, LowZeros, ShiftByte, Lookup;
    var x := Xor(crc, Wide(b));
    BitsTogether(crc, Wide(b), 8);
    DownByte(Wide(b));
    NothingAbove(b, FeedBits(crc, Wide(b), 8));
    TwoParts(x);
    HighPartIsHigh(x);
    HighBitsMove(HighPart(x), Wide(LowByte(x)), 8);
    DownByte(HighPart(x));
    HighPartOfSum(crc, b);
    ShiftEight(Wide(LowByte(x)));
    TableRemainder(LowByte(x));
  }

  lemma TableRemainder(i: bv8)
    ensures Lookup(i) == ShiftByte(Wide(i))
  {
    hide ShiftByte, Lookup;
    TableIsDivision(i);
  }

  class Crc32c {
    var crc: bv32

    constructor ()
      ensures crc == INITIAL
    {
      crc := INITIAL;
    }

    /** Takes more data; the state is the remainder of division. */
    method Update(data: Data)
      modifies this
      ensures crc == Divide(old(crc), data)
    {
      hide TableStep, FeedByte;
      for i := 0 to |data|
        invariant crc == Divide(old(crc), data[..i])
      {
        crc := TableStep(crc, data[i]);
        TableStepDivides(Divide(old(crc), data[..i]), data[i]);
        assert data[..i + 1][..i] == data[..i];
      }
      assert data[..|data|] == data;
    }
  }

  // ----- messages ---------------------------------------------------------

  /** Feeding in pieces is feeding the whole. */
  lemma {:induction false} DivideInPieces(crc: bv32, a: Data, b: Data)
    ensures Divide(crc, a + b) == Divide(Divide(crc, a), b)
  {
    hide FeedByte;
    if b == [] {
      assert a + b == a;
    } else {
      var before := b[..|b| - 1];
      assert (a + b)[..|a + b| - 1] == a + before;
      DivideInPieces(crc, a, before);
    }
  }

  lemma ShiftIsInjective(x: bv32, y: bv32)
    ensures Shift(x) == Shift(y) ==> x == y
  {
  }

  lemma {:induction false} ShiftBitsInjective(x: bv32, y: bv32, n: nat)
    ensures ShiftBits(x, n) == ShiftBits(y, n) ==> x == y
    decreases n
  {
    hide Shift;
    if n > 0 {
      ShiftBitsInjective(Shift(x), Shift(y), n - 1);
      ShiftIsInjective(x, y);
    }
  }

  lemma XorCancels(x: bv32, y: bv32, z: bv32)
    ensures Xor(x, z) == Xor(y, z) ==> x == y
    ensures Xor(z, x) == Xor(z, y) ==> x == y
  {
  }

  lemma WideIsInjective(a: bv8, b: bv8)
    ensures Wide(a) == Wide(b) ==> a == b
  {
  }

  lemma ByteAsShift(crc: bv32, b: bv8)
    ensures FeedByte(crc, b) == ShiftBits(Xor(crc, Wide(b)), 8)
  {
    hide Xor, FeedBits, ShiftBits, Down, DropByte, Wide;
    BitsTogether(crc, Wide(b), 8);
    DownByte(Wide(b));
    NothingAbove(b, FeedBits(crc, Wide(b), 8));
  }

  /** A byte forgets neither the remainder before it nor its own value. */
  lemma FeedByteInjective(crc: bv32, crc': bv32, b: bv8, b': bv8)
    ensures FeedByte(crc, b) == FeedByte(crc', b) ==> crc == crc'
    ensures FeedByte(crc, b) == FeedByte(crc, b') ==> b == b'
  {
    hide Xor, FeedByte, ShiftBits, Wide;
    ByteAsShift(crc, b);
    ByteAsShift(crc', b);
    ByteAsShift(crc, b');
    ShiftBitsInjective(Xor(crc, Wide(b)), Xor(crc', Wide(b)), 8);
    ShiftBitsInjective(Xor(crc, Wide(b)), Xor(crc, Wide(b')), 8);
    XorCancels(crc, crc', Wide(b));
    XorCancels(Wide(b), Wide(b'), crc);
    WideIsInjective(b, b');
  }

  lemma {:induction false} DivideInjective(crc: bv32, crc': bv32, data: Data)
    ensures Divide(crc, data) == Divide(crc', data) ==> crc == crc'
  {
    hide FeedByte;
    if data != [] {
      var before := data[..|data| - 1];
      DivideInjective(crc, crc', before);
      FeedByteInjective(Divide(crc, before), Divide(crc', before), data[|data| - 1], data[|data| - 1]);
    }
  }

  /** Changing one byte of a message changes the remainder. */
  lemma OneByteMatters(crc: bv32, data: Data, i: nat, b: bv8)
    requires i < |data| && b != data[i]
    ensures Divide(crc, data[i := b]) != Divide(crc, data)
  {
    hide FeedByte, Divide;
    var before, after := data[..i], data[i + 1..];
    assert data == before + ([data[i]] + after);
    assert data[i := b] == before + ([b] + after);
    DivideInPieces(crc, before, [data[i]] + after);
    DivideInPieces(crc, before, [b] + after);
    var r := Divide(crc, before);
    DivideInPieces(r, [data[i]], after);
    DivideInPieces(r, [b], after);
    DivideOne(r, data[i]);
    DivideOne(r, b);
    FeedByteInjective(r, r, data[i], b);
    DivideInjective(Divide(r, [data[i]]), Divide(r, [b]), after);
  }

  lemma DivideOne(crc: bv32, b: bv8)
    ensures Divide(crc, [b]) == FeedByte(crc, b)
  {
    hide FeedByte;
    assert [b][..0] == [];
    assert Divide(crc, []) == crc;
  }

  // ----- the superblock ---------------------------------------------------

  const SUPER_OFFSET: nat := 1024

  const SUPER_SIZE: nat := 128

  const MAGIC: bv32 := 0xE0F5_E1E2

  const CHECKSUM_FEATURE: bv32 := 1

  const ZERO_PADDING: bv32 := 1

  function Word(b0: bv8, b1: bv8, b2: bv8, b3: bv8): bv32 {
    (b0 as bv32) | ((b1 as bv32) << 8) | ((b2 as bv32) << 16) | ((b3 as bv32) << 24)
  }

  function WordAt(data: Data, offset: nat): bv32
    requires offset + 4 <= |data|
  {
    Word(data[offset], data[offset + 1], data[offset + 2], data[offset + 3])
  }

  function WordBytes(w: bv32): (b: Data)
    ensures |b| == 4
  {
    [(w & 0xFF) as bv8, ((w >> 8) & 0xFF) as bv8, ((w >> 16) & 0xFF) as bv8, ((w >> 24) & 0xFF) as bv8]
  }

  lemma WordRoundTrip(w: bv32)
    ensures Word((w & 0xFF) as bv8, ((w >> 8) & 0xFF) as bv8, ((w >> 16) & 0xFF) as bv8, ((w >> 24) & 0xFF) as bv8) == w
  {
  }

  lemma WordInjective(a0: bv8, a1: bv8, a2: bv8, a3: bv8, b0: bv8, b1: bv8, b2: bv8, b3: bv8)
    ensures Word(a0, a1, a2, a3) == Word(b0, b1, b2, b3) ==> a0 == b0 && a1 == b1 && a2 == b2 && a3 == b3
  {
  }

  /** The block from the superblock on, with its checksum field zeroed. */
  function Cleared(block: Data): (c: Data)
    requires |block| >= 8
    ensures |c| == |block|
  {
    block[..4] + [0, 0, 0, 0] + block[8..]
  }

  /** The checksum of such a block, in one pass. */
  function Checksum(block: Data): bv32
    requires |block| >= 8
  {
    Divide(INITIAL, Cleared(block))
  }

  predicate Matches(block: Data)
    requires |block| >= 8
  {
    WordAt(block, 4) == Checksum(block)
  }

  function Sealed(block: Data): Data
    requires |block| >= 8
  {
    block[..4] + WordBytes(Checksum(block)) + block[8..]
  }

  /** Storing the checksum makes it match, and changes nothing else. */
  lemma SealedMatches(block: Data)
    requires |block| >= 8
    ensures |Sealed(block)| == |block| && Matches(Sealed(block))
    ensures Cleared(Sealed(block)) == Cleared(block)
  {
    hide Divide, Word;
    assert Cleared(Sealed(block)) == Cleared(block);
    WordRoundTrip(Checksum(block));
  }

  /** A block that matches does not match after any one of its bytes has changed, the checksum included. */
  lemma DamageIsNoticed(block: Data, i: nat, b: bv8)
    requires |block| >= 8 && Matches(block)
    requires i < |block| && b != block[i]
    ensures !Matches(block[i := b])
  {
    hide Divide, Word;
    var damaged := block[i := b];
    if 4 <= i < 8 {
      assert Cleared(damaged) == Cleared(block);
      WordInjective(block[4], block[5], block[6], block[7], damaged[4], damaged[5], damaged[6], damaged[7]);
    } else {
      assert Cleared(damaged) == Cleared(block)[i := b];
      assert Cleared(block)[i] == block[i];
      OneByteMatters(INITIAL, Cleared(block), i, b);
    }
  }

  datatype SuperBlockError = TooSmall | BadMagic | ExtensionsTooLarge | BlockIncomplete | ChecksumMismatch | Incompatible

  /** Two outcomes stand for what the code leaves open: reading beyond the buffer, and a shift that is not defined. */
  datatype ParseOutcome = Accepted | Refused(error: SuperBlockError) | OutsideBuffer | UndefinedShift

  /** The first of the checks before the checksum that fails. */
  function HeaderError(data: Data): Option<SuperBlockError> {
    if |data| < SUPER_OFFSET + SUPER_SIZE then Some(TooSmall)
    else if WordAt(data, SUPER_OFFSET) != MAGIC then Some(BadMagic)
    else if |data| < SUPER_OFFSET + SUPER_SIZE + (data[SUPER_OFFSET + 13] as nat) * 16 then Some(ExtensionsTooLarge)
    else None
  }

  predicate HeaderFits(data: Data) {
    HeaderError(data) == None
  }

  function BlockSizeBits(data: Data): nat
    requires HeaderFits(data)
  {
    data[SUPER_OFFSET + 12] as nat
  }

  function BlockSize(data: Data): nat
    requires HeaderFits(data)
  {
    IndexPacking.Pow2(BlockSizeBits(data))
  }

  /** Shifting a 32-bit one by more than this is not defined. */
  const MAX_SHIFT: nat := 30

  predicate HasChecksum(data: Data)
    requires HeaderFits(data)
  {
    WordAt(data, SUPER_OFFSET + 8) & CHECKSUM_FEATURE != 0
  }

  predicate IsCompatible(data: Data)
    requires HeaderFits(data)
  {
    WordAt(data, SUPER_OFFSET + 80) & !ZERO_PADDING == 0
  }

  /** The whole block is in the buffer, and it is large enough for the checksum field. */
  predicate BlockInside(data: Data)
    requires HeaderFits(data)
  {
    SUPER_OFFSET + 8 <= BlockSize(data) <= |data|
  }

  /** The code's own length check, in 64 bits; it forgets that the superblock does not start the block. */
  predicate LengthChecked(data: Data)
    requires HeaderFits(data)
  {
    |data| >= (BlockSize(data) - SUPER_OFFSET) % Bytes.TWO64
  }

  /** What comes of a superblock whose header is in order. */
  function ChecksumOutcome(data: Data): ParseOutcome
    requires HeaderFits(data) && HasChecksum(data)
  {
    if BlockSizeBits(data) > MAX_SHIFT then UndefinedShift
    else if !LengthChecked(data) then Refused(BlockIncomplete)
    else if !BlockInside(data) then OutsideBuffer
    else if !Matches(data[SUPER_OFFSET..BlockSize(data)]) then Refused(ChecksumMismatch)
    else if !IsCompatible(data) then Refused(Incompatible)
    else Accepted
  }

  function ParseResult(data: Data): ParseOutcome {
    match HeaderError(data)
    case Some(e) => Refused(e)
    case None =>
      if HasChecksum(data) then ChecksumOutcome(data)
      else if IsCompatible(data) then Accepted else Refused(Incompatible)
  }

  // ----- the outcome, from the bytes --------------------------------------

  /** The magic number is there, and the extensions that are declared fit in the buffer. */
  predicate HasHeader(data: Data) {
    |data| >= 1152 && data[1024..1028] == [0xE2, 0xE1, 0xF5, 0xE0] && |data| >= 1152 + 16 * (data[1037] as nat)
  }

  /** The checksum stored in a block of 2^k bytes is the remainder that the superblock leaves with zeros in its place. */
  predicate ChecksumIsRight(data: Data, end: nat)
    requires 1032 <= end <= |data|
  {
    data[1028..1032] == WordBytes(Divide(0xFFFF_FFFF, data[1024..1028] + [0, 0, 0, 0] + data[1032..end]))
  }

  /** Only the lowest of the incompatible features may be on. */
  predicate OnlyZeroPadding(data: Data)
    requires |data| >= 1152
  {
    (data[1104] == 0 || data[1104] == 1) && data[1105..1108] == [0, 0, 0]
  }

  /**
   Every outcome, by its cause: the declared block has 2^k bytes, of which the first 1024 come before the superblock. The
   length check compares what the code computes, which wraps for less than 1024 bytes.
   */
  lemma ParseCauses(data: Data)
    requires |data| < Bytes.TWO64 / 2
    ensures var r := ParseResult(data);
            && (r == Refused(TooSmall) <==> |data| < 1152)
            && (r == Refused(BadMagic) <==> |data| >= 1152 && data[1024..1028] != [0xE2, 0xE1, 0xF5, 0xE0])
            && (r == Refused(ExtensionsTooLarge) <==>
                  && |data| >= 1152 && data[1024..1028] == [0xE2, 0xE1, 0xF5, 0xE0]
                  && |data| < 1152 + 16 * (data[1037] as nat))
    ensures HasHeader(data) && data[1032] & 1 == 0 ==>
              ParseResult(data) == if OnlyZeroPadding(data) then Accepted else Refused(Incompatible)
    ensures HasHeader(data) && data[1032] & 1 == 1 ==>
              var r, k := ParseResult(data), data[1036] as nat;
              var end := IndexPacking.Pow2(k);
              && (r == UndefinedShift <==> k > 30)
              && (r == Refused(BlockIncomplete) <==> k < 10 || (k <= 30 && |data| < end - 1024))
              && (r == OutsideBuffer <==> k == 10 || (10 < k <= 30 && end - 1024 <= |data| < end))
              && (10 < k <= 30 && end <= |data| ==>
                    1032 <= end &&
                    r == if !ChecksumIsRight(data, end) then Refused(ChecksumMismatch)
                         else if OnlyZeroPadding(data) then Accepted else Refused(Incompatible))
  {
    hide Divide, Word, IndexPacking.Pow2;
    if |data| >= 1152 {
      MagicBytes(data);
      if HasHeader(data) {
        FeatureBits(data);
        if data[1032] & 1 == 1 && data[1036] as nat <= 30 {
          BlockBounds(data[1036] as nat);
          if data[1036] as nat > 10 && IndexPacking.Pow2(data[1036] as nat) <= |data| {
            ChecksumBytes(data, IndexPacking.Pow2(data[1036] as nat));
          }
        }
      }
    }
  }

  lemma MagicBytes(data: Data)
    requires |data| >= 1152
    ensures WordAt(data, SUPER_OFFSET) == MAGIC <==> data[1024..1028] == [0xE2, 0xE1, 0xF5, 0xE0]
  {
    hide Word;
    FirstWords();
    WordInjective(data[1024], data[1025], data[1026], data[1027], 0xE2, 0xE1, 0xF5, 0xE0);
    assert data[1024..1028] == [data[1024], data[1025], data[1026], data[1027]];
  }

  lemma WordBits(b0: bv8, b1: bv8, b2: bv8, b3: bv8)
    ensures Word(b0, b1, b2, b3) & 1 != 0 <==> b0 & 1 == 1
    ensures Word(b0, b1, b2, b3) & !1 == 0 <==> (b0 == 0 || b0 == 1) && b1 == 0 && b2 == 0 && b3 == 0
  {
  }

  lemma FeatureBits(data: Data)
    requires HasHeader(data)
    ensures HeaderFits(data)
    ensures HasChecksum(data) <==> data[1032] & 1 == 1
    ensures data[1032] & 1 == 0 || data[1032] & 1 == 1
    ensures IsCompatible(data) <==> OnlyZeroPadding(data)
  {
    hide WordAt, Word, HasHeader, OnlyZeroPadding;
    HeaderIsThere(data);
    HasFeature(data);
    ZeroPaddingOnly(data);
    LowestBit(data[1032]);
  }

  lemma HeaderIsThere(data: Data)
    requires HasHeader(data)
    ensures |data| >= 1152 && HeaderFits(data)
  {
    hide WordAt;
    MagicBytes(data);
  }

  lemma HasFeature(data: Data)
    requires HeaderFits(data) && |data| >= 1152
    ensures HasChecksum(data) <==> data[1032] & 1 == 1
  {
    hide WordAt, Word, HeaderError;
    Words(data, 1032);
    WordBits(data[1032], data[1033], data[1034], data[1035]);
  }

  lemma ThreeZeros(data: Data, at: nat)
    requires at + 3 <= |data|
    ensures data[at..at + 3] == [0, 0, 0] <==> data[at] == 0 && data[at + 1] == 0 && data[at + 2] == 0
  {
    assert data[at..at + 3] == [data[at], data[at + 1], data[at + 2]];
  }

  lemma ZeroPaddingOnly(data: Data)
    requires HeaderFits(data) && |data| >= 1152
    ensures IsCompatible(data) <==> OnlyZeroPadding(data)
  {
    hide WordAt, Word, HeaderError;
    Words(data, 1104);
    WordBits(data[1104], data[1105], data[1106], data[1107]);
    ThreeZeros(data, 1105);
  }

  lemma Words(data: Data, offset: nat)
    requires offset + 4 <= |data|
    ensures WordAt(data, offset) == Word(data[offset], data[offset + 1], data[offset + 2], data[offset + 3])
  {
  }

  lemma LowestBit(b: bv8)
    ensures b & 1 == 0 || b & 1 == 1
  {
  }

  lemma BlockBounds(k: nat)
    requires k <= 30
    ensures k < 10 ==> IndexPacking.Pow2(k) < 1024
    ensures k == 10 ==> IndexPacking.Pow2(k) == 1024
    ensures k > 10 ==> 2048 <= IndexPacking.Pow2(k) <= 0x4000_0000
  {
    hide IndexPacking.Pow2;
    SmallPowers();
    ShiftsAreSmall(k);
    if k < 10 {
      PowersGrow(k, 9);
    } else if k > 10 {
      PowersGrow(11, k);
    }
  }

  lemma WordOfBytes(w: bv32)
    ensures var b := WordBytes(w);
            Word(b[0], b[1], b[2], b[3]) == w
  {
    WordRoundTrip(w);
  }

  /** A word is stored exactly where its bytes are. */
  lemma StoredWord(block: Data, w: bv32)
    requires |block| >= 8
    ensures WordAt(block, 4) == w <==> block[4..8] == WordBytes(w)
  {
    hide Word, WordBytes;
    var b := WordBytes(w);
    WordOfBytes(w);
    WordInjective(block[4], block[5], block[6], block[7], b[0], b[1], b[2], b[3]);
    assert block[4..8] == [block[4], block[5], block[6], block[7]] && b == [b[0], b[1], b[2], b[3]];
  }

  lemma ChecksumBytes(data: Data, end: nat)
    requires 1032 <= end <= |data|
    ensures Matches(data[1024..end]) <==> ChecksumIsRight(data, end)
  {
    hide Divide, Word, WordBytes;
    var block := data[1024..end];
    assert Cleared(block) == data[1024..1028] + [0, 0, 0, 0] + data[1032..end];
    StoredWord(block, Checksum(block));
    assert block[4..8] == data[1028..1032];
  }

  // ----- the check value --------------------------------------------------

  /** One byte, by eight shifts. */
  lemma NextState(crc: bv32, b: bv8, next: bv32)
    requires ShiftByte(crc ^ (b as bv32)) == next
    ensures FeedByte(crc, b) == next
  {
    hide FeedByte, ShiftBits, ShiftByte;
    ByteAsShift(crc, b);
    ShiftEight(Xor(crc, Wide(b)));
  }

  lemma {:induction false} Feed(crc: bv32, data: Data, states: seq<bv32>)
    requires |states| == |data| + 1 && states[0] == crc
    requires forall i :: 0 <= i < |data| ==> FeedByte(states[i], data[i]) == states[i + 1]
    ensures Divide(crc, data) == states[|data|]
    decreases |data|
  {
    hide FeedByte;
    if data != [] {
      Feed(crc, data[..|data| - 1], states[..|data|]);
    }
  }

  lemma CheckStates()
    ensures Divide(0xFFFF_FFFF, [0x31, 0x32, 0x33, 0x34, 0x35, 0x36, 0x37, 0x38, 0x39]) == 0x1CF9_6D7C
  {
    hide FeedByte, Divide;
    NextState(0xFFFF_FFFF, 0x31, 0x6F0A_661C);
    NextState(0x6F0A_661C, 0x32, 0x8CAA_3B9F);
    NextState(0x8CAA_3B9F, 0x33, 0xEF84_D04D);
    NextState(0xEF84_D04D, 0x34, 0x09C5_0B11);
    NextState(0x09C5_0B11, 0x35, 0xE72E_DCCA);
    NextState(0xE72E_DCCA, 0x36, 0xBECA_8E79);
    NextState(0xBECA_8E79, 0x37, 0xEDBD_6815);
    NextState(0xEDBD_6815, 0x38, 0x9F78_7F65);
    NextState(0x9F78_7F65, 0x39, 0x1CF9_6D7C);
    var states: seq<bv32> := [0xFFFF_FFFF, 0x6F0A_661C, 0x8CAA_3B9F, 0xEF84_D04D, 0x09C5_0B11,
                              0xE72E_DCCA, 0xBECA_8E79, 0xEDBD_6815, 0x9F78_7F65, 0x1CF9_6D7C];
    Feed(0xFFFF_FFFF, [0x31, 0x32, 0x33, 0x34, 0x35, 0x36, 0x37, 0x38, 0x39], states);
  }

  /** The published check value of the CRC: the state after "123456789", before it is complemented. */
  method CheckValue() returns (crc: bv32)
    ensures crc == 0x1CF9_6D7C
  {
    var calculator := new Crc32c();
    CheckStates();
    calculator.Update([0x31, 0x32, 0x33, 0x34, 0x35, 0x36, 0x37, 0x38, 0x39]);
    crc := calculator.crc;
  }

  /** Parsing: a superblock with a checksum is accepted only when one pass over the block finds that checksum. */
  method Parse(data: Data) returns (r: ParseOutcome)
    requires |data| < Bytes.TWO64 / 2
    ensures r == ParseResult(data)
  {
    hide Word, Matches, LengthChecked, BlockInside, IndexPacking.Pow2;
    if |data| < SUPER_OFFSET + SUPER_SIZE {
      return Refused(TooSmall);
    }
    if WordAt(data, SUPER_OFFSET) != MAGIC {
      return Refused(BadMagic);
    }
    var sbLen := SUPER_SIZE + (data[SUPER_OFFSET + 13] as nat) * 16;
    if |data| < SUPER_OFFSET + sbLen {
      return Refused(ExtensionsTooLarge);
    }
    if WordAt(data, SUPER_OFFSET + 8) & CHECKSUM_FEATURE != 0 {
      r := VerifyChecksum(data);
      if r != Accepted {
        return;
      }
    }
    if WordAt(data, SUPER_OFFSET + 80) & !ZERO_PADDING != 0 {
      return Refused(Incompatible);
    }
    r := Accepted;
  }

  /** The checksum part: feeds the block in three pieces and compares. */
  method VerifyChecksum(data: Data) returns (r: ParseOutcome)
    requires |data| < Bytes.TWO64 / 2 && HeaderFits(data) && HasChecksum(data)
    ensures r == if BlockSizeBits(data) > MAX_SHIFT then UndefinedShift
                 else if !LengthChecked(data) then Refused(BlockIncomplete)
                 else if !BlockInside(data) then OutsideBuffer
                 else if !Matches(data[SUPER_OFFSET..BlockSize(data)]) then Refused(ChecksumMismatch)
                 else Accepted
  {
    hide WordAt, Matches, IndexPacking.Pow2, HasChecksum;
    var bits := data[SUPER_OFFSET + 12] as nat;
    if bits > MAX_SHIFT {
      return UndefinedShift;
    }
    ShiftsAreSmall(bits);
    r := CompareChecksum(data, IndexPacking.Pow2(bits));
  }

  method CompareChecksum(data: Data, blkSize: nat) returns (r: ParseOutcome)
    requires SUPER_OFFSET + 8 <= |data| < Bytes.TWO64 / 2 && blkSize <= 0x4000_0000
    ensures r == if |data| < (blkSize - SUPER_OFFSET) % Bytes.TWO64 then Refused(BlockIncomplete)
                 else if !(SUPER_OFFSET + 8 <= blkSize <= |data|) then OutsideBuffer
                 else if !Matches(data[SUPER_OFFSET..blkSize]) then Refused(ChecksumMismatch)
                 else Accepted
  {
    hide Divide, WordAt, Matches, Checksum, Cleared;
    var toChecksum := (blkSize - SUPER_OFFSET) % Bytes.TWO64;
    if |data| < toChecksum {
      return Refused(BlockIncomplete);
    }
    var crc := new Crc32c();
    var bytesBefore := 4;
    var bytesAfter := (toChecksum - bytesBefore - 4) % Bytes.TWO64;
    crc.Update(data[SUPER_OFFSET..SUPER_OFFSET + bytesBefore]);
    crc.Update([0, 0, 0, 0]);
    if SUPER_OFFSET + bytesBefore + 4 + bytesAfter > |data| {
      return OutsideBuffer;
    }
    crc.Update(data[SUPER_OFFSET + bytesBefore + 4..SUPER_OFFSET + bytesBefore + 4 + bytesAfter]);
    ThreePieces(data, blkSize);
    r := if crc.crc != WordAt(data, SUPER_OFFSET + 4) then Refused(ChecksumMismatch) else Accepted;
  }

  lemma ShiftsAreSmall(bits: nat)
    requires bits <= MAX_SHIFT
    ensures IndexPacking.Pow2(bits) <= 0x4000_0000
  {
    PowersGrow(bits, MAX_SHIFT);
    SmallPowers();
    assert IndexPacking.Pow2(17) == 0x2_0000;
    assert IndexPacking.Pow2(22) == 0x40_0000;
    assert IndexPacking.Pow2(26) == 0x400_0000;
  }

  /** Three pieces, the middle one of zeros, are one pass over the block with its checksum field zeroed. */
  lemma ThreePieces(data: Data, blkSize: nat)
    requires SUPER_OFFSET + 8 <= blkSize <= |data|
    ensures var block := data[SUPER_OFFSET..blkSize];
            var pieces := Divide(Divide(Divide(INITIAL, data[SUPER_OFFSET..SUPER_OFFSET + 4]), [0, 0, 0, 0]),
                                 data[SUPER_OFFSET + 8..blkSize]);
            pieces == Checksum(block) && (Matches(block) <==> pieces == WordAt(data, SUPER_OFFSET + 4))
  {
    hide Divide, Word;
    var block := data[SUPER_OFFSET..blkSize];
    var first, last := data[SUPER_OFFSET..SUPER_OFFSET + 4], data[SUPER_OFFSET + 8..blkSize];
    assert Cleared(block) == first + [0, 0, 0, 0] + last;
    DivideInPieces(INITIAL, first + [0, 0, 0, 0], last);
    DivideInPieces(INITIAL, first, [0, 0, 0, 0]);
  }

  /** With a buffer of one 4096-byte block, only a declared block size of 1024 is read outside of. */
  lemma OutsideOnlyFor1024(data: Data)
    requires |data| == 4096 && HeaderFits(data) && HasChecksum(data)
    ensures ChecksumOutcome(data) == OutsideBuffer <==> BlockSizeBits(data) == 10
  {
    hide IndexPacking.Pow2, Matches, WordAt;
    SmallPowers();
    var bits := BlockSizeBits(data);
    if bits <= 9 {
      PowersGrow(bits, 9);
    } else if 13 <= bits <= MAX_SHIFT {
      PowersGrow(13, bits);
      ShiftsAreSmall(bits);
    }
  }

  /** Such a buffer: magic number, checksum feature, and a declared block size of 2^10. */
  lemma OutsideHappens() returns (data: Data)
    ensures |data| == 4096 && HeaderFits(data) && HasChecksum(data) && ChecksumOutcome(data) == OutsideBuffer
  {
    var header: Data := [0xE2, 0xE1, 0xF5, 0xE0, 0, 0, 0, 0, 1, 0, 0, 0, 10, 0];
    data := seq(4096, i => if 1024 <= i < 1038 then header[i - 1024] else 0);
    hide Matches;
    FirstWords();
    assert data[1024] == 0xE2 && data[1025] == 0xE1 && data[1026] == 0xF5 && data[1027] == 0xE0;
    assert data[1032] == 1 && data[1033] == 0 && data[1034] == 0 && data[1035] == 0;
    assert data[1036] == 10 && data[1037] == 0;
    assert data[1037] as nat == 0 && data[1036] as nat == 10;
    OutsideOnlyFor1024(data);
  }

  lemma FirstWords()
    ensures Word(0xE2, 0xE1, 0xF5, 0xE0) == MAGIC && Word(1, 0, 0, 0) & CHECKSUM_FEATURE != 0
  {
  }

  lemma SmallPowers()
    ensures IndexPacking.Pow2(9) == 512 && IndexPacking.Pow2(10) == 1024 && IndexPacking.Pow2(11) == 2048
    ensures IndexPacking.Pow2(12) == 4096 && IndexPacking.Pow2(13) == 8192
  {
    assert IndexPacking.Pow2(5) == 32;
    assert IndexPacking.Pow2(9) == 512;
  }

  lemma {:induction false} PowersGrow(a: nat, b: nat)
    requires a <= b
    ensures IndexPacking.Pow2(a) <= IndexPacking.Pow2(b)
    decreases b
  {
    if a < b {
      PowersGrow(a, b - 1);
    }
  }
}
