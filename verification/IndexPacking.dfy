/**
 The bit packing of EROFS compact cluster indexes: sixteen 14-bit entries and a block address in 32 bytes,
 or two 16-bit entries and a block address in 8 bytes. Packing and unpacking are inverse.
 */
module IndexPacking {
  import opened Arithmetic
  import opened Bytes

  const ENTRY_LIMIT: nat := 0x4000

  function Pow2(n: nat): (p: nat)
    ensures p >= 1
  {
    if n == 0 then 1 else 2 * Pow2(n - 1)
  }

  /** A little-endian load of 4 bytes, as the decoder does it. */
  function Load32(data: Bytes, at: nat): nat
    requires at + 4 <= |data|
  {
    LE(data[at..at + 4])
  }

  /** The i-th 14-bit entry: shift the 32-bit word at the byte it starts in, then mask. */
  function Unpack14(data: Bytes, i: nat): (e: nat)
    requires |data| == 32 && i < 16
    ensures e < ENTRY_LIMIT
  {
    var bitOffset := i * 14;
    Load32(data, bitOffset / 8) / Pow2(bitOffset % 8) % ENTRY_LIMIT
  }

  // ----- the packer -------------------------------------------------------

  ghost predicate AreEntries(entries: seq<nat>) {
    forall i :: 0 <= i < |entries| ==> entries[i] < ENTRY_LIMIT
  }

  /** The entries side by side in one number, the first in the low bits. */
  function Number(entries: seq<nat>): nat {
    if entries == [] then 0 else entries[0] + ENTRY_LIMIT * Number(entries[1..])
  }

  function Pack14(entries: seq<nat>, base: nat): (data: Bytes)
    requires |entries| == 16
    ensures |data| == 32
  {
    ToLE(Number(entries), 28) + ToLE(base, 4)
  }

  // ----- round trip -------------------------------------------------------

  lemma {:induction false} ToLESplits(low: nat, high: nat, m: nat, k: nat)
    requires low < Pow256(m)
    ensures ToLE(low + Pow256(m) * high, m + k) == ToLE(low, m) + ToLE(high, k)
  {
    if m == 0 {
    } else {
      var p := Pow256(m - 1);
      assert Pow256(m) * high == 0x100 * (p * high);
      assert (low + 0x100 * (p * high)) % 0x100 == low % 0x100;
      assert (low + 0x100 * (p * high)) / 0x100 == low / 0x100 + p * high;
      ToLESplits(low / 0x100, high, m - 1, k);
    }
  }

  /** Four entries fill seven bytes. */
  function Quad(entries: seq<nat>): nat
    requires |entries| >= 4
  {
    entries[0] + 0x4000 * entries[1] + 0x1000_0000 * entries[2] + 0x400_0000_0000 * entries[3]
  }

  lemma NumberByQuads(entries: seq<nat>)
    requires |entries| >= 4
    ensures Number(entries) == Quad(entries) + 0x100_0000_0000_0000 * Number(entries[4..])
  {
    assert Number(entries) == entries[0] + ENTRY_LIMIT * Number(entries[1..]);
    assert Number(entries[1..]) == entries[1] + ENTRY_LIMIT * Number(entries[1..][1..]);
    assert entries[1..][1..] == entries[2..];
    assert Number(entries[2..]) == entries[2] + ENTRY_LIMIT * Number(entries[2..][1..]);
    assert entries[2..][1..] == entries[3..];
    assert Number(entries[3..]) == entries[3] + ENTRY_LIMIT * Number(entries[3..][1..]);
    assert entries[3..][1..] == entries[4..];
  }

  lemma QuadBound(entries: seq<nat>)
    requires |entries| >= 4 && AreEntries(entries)
    ensures Quad(entries) < Pow256(7) == 0x100_0000_0000_0000
  {
    assert entries[0] < 0x4000 && entries[1] < 0x4000 && entries[2] < 0x4000 && entries[3] < 0x4000;
  }

  /** The bytes of a pack are seven for each group of four entries. */
  lemma {:induction false} PackedBytes(entries: seq<nat>, q: nat)
    requires AreEntries(entries) && |entries| % 4 == 0 && 4 * q < |entries|
    ensures |ToLE(Number(entries), |entries| / 4 * 7)| == |entries| / 4 * 7
    ensures ToLE(Number(entries), |entries| / 4 * 7)[7 * q..7 * q + 7] == ToLE(Quad(entries[4 * q..]), 7)
    decreases q
  {
    hide ToLE;
    hide Quad;
    hide Number;
    var rest := entries[4..];
    var n := |entries| / 4 * 7;
    NumberByQuads(entries);
    QuadBound(entries);
    ToLESplits(Quad(entries), Number(rest), 7, n - 7);
    var first, others := ToLE(Quad(entries), 7), ToLE(Number(rest), n - 7);
    assert ToLE(Number(entries), n) == first + others;
    if q == 0 {
      assert entries[0..] == entries;
    } else {
      PackedBytes(rest, q - 1);
      assert rest[4 * (q - 1)..] == entries[4 * q..];
      assert |rest| / 4 * 7 == n - 7;
      DropSeven(first, others, q);
    }
  }

  lemma DropSeven(first: Bytes, others: Bytes, q: nat)
    requires |first| == 7 && q > 0 && 7 * q <= |others|
    ensures (first + others)[7 * q..7 * q + 7] == others[7 * (q - 1)..7 * (q - 1) + 7]
  {
  }

  /** The byte boundary inside the first entry; `rest` holds the bits that follow it. */
  lemma CutFirst(a: nat, rest: nat)
    requires a < 0x4000
    ensures (a + 0x4000 * rest) % 0x100 == a % 0x100
    ensures (a + 0x4000 * rest) / 0x100 == a / 0x100 + 0x40 * rest
    ensures (a / 0x100 + 0x40 * rest) % 0x100 == a / 0x100 + 0x40 * (rest % 4)
    ensures (a / 0x100 + 0x40 * rest) / 0x100 == rest / 4
  {
    Euclid(a + 0x4000 * rest, 0x100, a / 0x100 + 0x40 * rest, a % 0x100);
    Euclid(a / 0x100 + 0x40 * rest, 0x100, rest / 4, a / 0x100 + 0x40 * (rest % 4));
  }

  lemma CutSecond(b: nat, rest: nat)
    requires b < 0x4000
    ensures (b + 0x4000 * rest) % 4 == b % 4
    ensures (b + 0x4000 * rest) / 4 == b / 4 + 0x1000 * rest
    ensures (b / 4 + 0x1000 * rest) % 0x100 == b / 4 % 0x100
    ensures (b / 4 + 0x1000 * rest) / 0x100 == b / 0x400 + 0x10 * rest
    ensures (b / 0x400 + 0x10 * rest) % 0x100 == b / 0x400 + 0x10 * (rest % 0x10)
    ensures (b / 0x400 + 0x10 * rest) / 0x100 == rest / 0x10
  {
    Euclid(b + 0x4000 * rest, 4, b / 4 + 0x1000 * rest, b % 4);
    Euclid(b / 4, 0x100, b / 0x400, b / 4 % 0x100);
    Euclid(b / 4 + 0x1000 * rest, 0x100, b / 0x400 + 0x10 * rest, b / 4 % 0x100);
    Euclid(b / 0x400 + 0x10 * rest, 0x100, rest / 0x10, b / 0x400 + 0x10 * (rest % 0x10));
  }

  lemma CutThird(c: nat, d: nat)
    requires c < 0x4000
    ensures (c + 0x4000 * d) % 0x10 == c % 0x10
    ensures (c + 0x4000 * d) / 0x10 == c / 0x10 + 0x400 * d
    ensures (c / 0x10 + 0x400 * d) % 0x100 == c / 0x10 % 0x100
    ensures (c / 0x10 + 0x400 * d) / 0x100 == c / 0x1000 + 4 * d
    ensures (c / 0x1000 + 4 * d) % 0x100 == c / 0x1000 + 4 * (d % 0x40)
    ensures (c / 0x1000 + 4 * d) / 0x100 == d / 0x40
  {
    Euclid(c + 0x4000 * d, 0x10, c / 0x10 + 0x400 * d, c % 0x10);
    Euclid(c / 0x10, 0x100, c / 0x1000, c / 0x10 % 0x100);
    Euclid(c / 0x10 + 0x400 * d, 0x100, c / 0x1000 + 4 * d, c / 0x10 % 0x100);
    Euclid(c / 0x1000 + 4 * d, 0x100, d / 0x40, c / 0x1000 + 4 * (d % 0x40));
  }

  /** The seven bytes of a group, one by one. */
  lemma QuadBytes(a: nat, b: nat, c: nat, d: nat)
    requires a < 0x4000 && b < 0x4000 && c < 0x4000 && d < 0x4000
    ensures ToLE(Quad([a, b, c, d]), 7)
            == [a % 0x100, a / 0x100 + 0x40 * (b % 4), b / 4 % 0x100, b / 0x400 + 0x10 * (c % 0x10),
                c / 0x10 % 0x100, c / 0x1000 + 4 * (d % 0x40), d / 0x40]
  {
    hide ToLE;
    QuadNested(a, b, c, d);
    hide Quad;
    var s := c + 0x4000 * d;
    var r := b + 0x4000 * s;
    LowBytes(a, r);
    MiddleBytes(b, s);
    HighBytes(c, d);
    CutSecond(b, s);
    CutThird(c, d);
  }

  lemma LowBytes(a: nat, r: nat)
    requires a < 0x4000
    ensures ToLE(a + 0x4000 * r, 7) == [a % 0x100, a / 0x100 + 0x40 * (r % 4)] + ToLE(r / 4, 5)
  {
    hide ToLE;
    CutFirst(a, r);
    ToLEStep(a + 0x4000 * r, 7);
    ToLEStep(a / 0x100 + 0x40 * r, 6);
  }

  lemma MiddleBytes(b: nat, s: nat)
    requires b < 0x4000
    ensures ToLE((b + 0x4000 * s) / 4, 5) == [b / 4 % 0x100, b / 0x400 + 0x10 * (s % 0x10)] + ToLE(s / 0x10, 3)
  {
    hide ToLE;
    CutSecond(b, s);
    ToLEStep(b / 4 + 0x1000 * s, 5);
    ToLEStep(b / 0x400 + 0x10 * s, 4);
  }

  lemma HighBytes(c: nat, d: nat)
    requires c < 0x4000 && d < 0x4000
    ensures ToLE((c + 0x4000 * d) / 0x10, 3) == [c / 0x10 % 0x100, c / 0x1000 + 4 * (d % 0x40), d / 0x40]
  {
    hide ToLE;
    CutThird(c, d);
    ToLEStep(c / 0x10 + 0x400 * d, 3);
    ToLEStep(c / 0x1000 + 4 * d, 2);
    ToLEStep(d / 0x40, 1);
  }

  lemma QuadNested(a: nat, b: nat, c: nat, d: nat)
    ensures Quad([a, b, c, d]) == a + 0x4000 * (b + 0x4000 * (c + 0x4000 * d))
  {
  }

  lemma ToLEStep(x: nat, n: nat)
    requires n > 0
    ensures ToLE(x, n) == [x % 0x100] + ToLE(x / 0x100, n - 1)
  {
  }

  function Word(b0: int, b1: int, b2: int, b3: int): int {
    b0 + 0x100 * b1 + 0x1_0000 * b2 + 0x100_0000 * b3
  }

  lemma LoadBytes(data: Bytes, at: nat)
    requires at + 4 <= |data|
    ensures Load32(data, at) == Word(data[at], data[at + 1], data[at + 2], data[at + 3])
  {
    var w := data[at..at + 4];
    assert LE(w) == w[0] + 0x100 * LE(w[1..]);
    assert LE(w[1..]) == w[1] + 0x100 * LE(w[1..][1..]);
    assert w[1..][1..] == w[2..];
    assert LE(w[2..]) == w[2] + 0x100 * LE(w[2..][1..]);
    assert w[2..][1..] == w[3..];
    assert LE(w[3..]) == w[3] + 0x100 * LE(w[3..][1..]);
    assert w[3..][1..] == [];
  }

  /** Dropping what is below and masking what is above. */
  lemma CutOut(unit: nat, low: nat, value: nat, high: nat)
    requires low < unit && value < ENTRY_LIMIT
    ensures (low + unit * (value + ENTRY_LIMIT * high)) / unit % ENTRY_LIMIT == value
  {
    Euclid(low + unit * (value + ENTRY_LIMIT * high), unit, value + ENTRY_LIMIT * high, low);
    Euclid(value + ENTRY_LIMIT * high, ENTRY_LIMIT, high, value);
  }

  lemma FirstEntry(a: nat, b: nat, x: nat, y: nat)
    requires a < 0x4000
    ensures Word(a % 0x100, a / 0x100 + 0x40 * (b % 4), x, y) % 0x4000 == a
  {
    var high := b % 4 + 4 * x + 0x400 * y;
    assert Word(a % 0x100, a / 0x100 + 0x40 * (b % 4), x, y) == a + 0x4000 * high;
    Euclid(a + 0x4000 * high, 0x4000, high, a);
  }

  lemma SecondEntry(a: nat, b: nat, c: nat, y: nat)
    requires a < 0x4000 && b < 0x4000
    ensures Word(a / 0x100 + 0x40 * (b % 4), b / 4 % 0x100, b / 0x400 + 0x10 * (c % 0x10), y) / 64 % 0x4000 == b
  {
    var high := c % 0x10 + 0x10 * y;
    SecondSum(a, b, c, y);
    CutOut(64, a / 0x100, b, high);
  }

  lemma SecondSum(a: nat, b: nat, c: nat, y: nat)
    requires b < 0x4000
    ensures Word(a / 0x100 + 0x40 * (b % 4), b / 4 % 0x100, b / 0x400 + 0x10 * (c % 0x10), y)
            == a / 0x100 + 64 * (b + 0x4000 * (c % 0x10 + 0x10 * y))
  {
    assert b % 4 + 4 * (b / 4 % 0x100) + 0x400 * (b / 0x400) == b;
  }

  lemma ThirdEntry(b: nat, c: nat, d: nat, y: nat)
    requires b < 0x4000 && c < 0x4000
    ensures Word(b / 0x400 + 0x10 * (c % 0x10), c / 0x10 % 0x100, c / 0x1000 + 4 * (d % 0x40), y) / 16 % 0x4000 == c
  {
    var high := d % 0x40 + 0x40 * y;
    ThirdSum(b, c, d, y);
    CutOut(16, b / 0x400, c, high);
  }

  lemma ThirdSum(b: nat, c: nat, d: nat, y: nat)
    requires c < 0x4000
    ensures Word(b / 0x400 + 0x10 * (c % 0x10), c / 0x10 % 0x100, c / 0x1000 + 4 * (d % 0x40), y)
            == b / 0x400 + 16 * (c + 0x4000 * (d % 0x40 + 0x40 * y))
  {
    assert c % 0x10 + 0x10 * (c / 0x10 % 0x100) + 0x1000 * (c / 0x1000) == c;
  }

  lemma FourthEntry(c: nat, d: nat, x: nat, y: nat)
    requires c < 0x4000 && d < 0x4000
    ensures Word(c / 0x1000 + 4 * (d % 0x40), d / 0x40, x, y) / 4 % 0x4000 == d
  {
    var high := x + 0x100 * y;
    assert Word(c / 0x1000 + 4 * (d % 0x40), d / 0x40, x, y) == c / 0x1000 + 4 * (d + 0x4000 * high);
    CutOut(4, c / 0x1000, d, high);
  }

  /** Shifting and masking recovers each of the four entries of a group; the last load may run past the group. */
  lemma QuadEntries(a: nat, b: nat, c: nat, d: nat, x: Byte, y: Byte)
    requires a < 0x4000 && b < 0x4000 && c < 0x4000 && d < 0x4000
    ensures var s := ToLE(Quad([a, b, c, d]), 7) + [x, y];
            && Load32(s, 0) % ENTRY_LIMIT == a
            && Load32(s, 1) / 64 % ENTRY_LIMIT == b
            && Load32(s, 3) / 16 % ENTRY_LIMIT == c
            && Load32(s, 5) / 4 % ENTRY_LIMIT == d
  {
    hide Word;
    hide Load32;
    hide ToLE;
    hide Quad;
    QuadBytes(a, b, c, d);
    var s := ToLE(Quad([a, b, c, d]), 7) + [x, y];
    LoadBytes(s, 0);
    LoadBytes(s, 1);
    LoadBytes(s, 3);
    LoadBytes(s, 5);
    FirstEntry(a, b, s[2], s[3]);
    SecondEntry(a, b, c, s[4]);
    ThirdEntry(b, c, d, s[6]);
    FourthEntry(c, d, x, y);
  }

  lemma SmallPowers()
    ensures Pow2(0) == 1 && Pow2(2) == 4 && Pow2(4) == 16 && Pow2(6) == 64
  {
    assert Pow2(1) == 2 && Pow2(3) == 8 && Pow2(5) == 32;
  }

  /** Unpacking a pack gives back every entry and the block address. */
  lemma PackRoundTrip(entries: seq<nat>, base: nat, i: nat)
    requires |entries| == 16 && AreEntries(entries) && base < TWO32 && i < 16
    ensures Unpack14(Pack14(entries, base), i) == entries[i]
    ensures Load32(Pack14(entries, base), 28) == base
  {
    var data := Pack14(entries, base);
    var body := ToLE(Number(entries), 28);
    assert data[28..32] == ToLE(base, 4);
    assert Pow256(4) == TWO32;
    LEToLE(base, 4);
    var q := i / 4;
    PackedBytes(entries, q);
    assert body[7 * q..7 * q + 7] == data[7 * q..7 * q + 7];
    UnpackFromQuad(data, entries[4 * q..], i);
  }

  lemma UnpackFromQuad(data: Bytes, e: seq<nat>, i: nat)
    requires |data| == 32 && i < 16 && |e| >= 4 && AreEntries(e)
    requires data[i / 4 * 7..i / 4 * 7 + 7] == ToLE(Quad(e), 7)
    ensures Unpack14(data, i) == e[i % 4]
  {
    hide ToLE;
    hide Quad;
    hide LE;
    var q := i / 4;
    var s := data[7 * q..7 * q + 7] + [data[7 * q + 7], data[7 * q + 8]];
    assert s == data[7 * q..7 * q + 9];
    QuadOfFour(e);
    QuadEntries(e[0], e[1], e[2], e[3], data[7 * q + 7], data[7 * q + 8]);
    SmallPowers();
    var a := if i % 4 == 0 then 0 else if i % 4 == 1 then 1 else if i % 4 == 2 then 3 else 5;
    assert i * 14 / 8 == 7 * q + a;
    SameLoad(data, s, 7 * q, a);
  }

  lemma SameLoad(data: Bytes, s: Bytes, at: nat, a: nat)
    requires at + |s| <= |data| && s == data[at..at + |s|] && a + 4 <= |s|
    ensures Load32(data, at + a) == Load32(s, a)
  {
    SliceOfSlice(data, at, |s|, a, 4);
  }

  lemma QuadOfFour(e: seq<nat>)
    requires |e| >= 4
    ensures Quad(e) == Quad([e[0], e[1], e[2], e[3]])
  {
  }
}
