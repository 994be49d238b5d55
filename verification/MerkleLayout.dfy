/**
 The shape of a dm-verity hash tree, for any number of data blocks and any
 fan-out of at least 2: how many blocks each layer has, how many there are
 in all, and where each layer lies in the hash file.
 */
module MerkleLayout {
  import opened Arithmetic
  import Bytes

  /** A layer of `hashBlocks` blocks that hold the hashes of `dataBlocks` blocks. */
  datatype LayerDetails = LayerDetails(hashBlocks: nat, dataBlocks: nat)

  /** Where a layer starts, counted in blocks from the start of the tree, and how many hashes it holds. */
  datatype LayerStart = LayerStart(firstBlock: nat, dataBlocks: nat)

  function DivRoundUp(n: nat, d: nat): nat
    requires d > 0
  {
    (n + (d - 1)) / d
  }

  function Pow(b: nat, e: nat): nat {
    if e == 0 then 1 else b * Pow(b, e - 1)
  }

  lemma DivRoundUpBounds(n: nat, d: nat)
    requires d > 0
    ensures d * DivRoundUp(n, d) < n + d
    ensures n <= d * DivRoundUp(n, d)
  {
  }

  /** `DivRoundUp(n, d)` is the only q with d * (q - 1) < n <= d * q. */
  lemma DivRoundUpUnique(n: nat, d: nat, q: nat)
    requires d > 0
    requires n <= d * q < n + d
    ensures q == DivRoundUp(n, d)
  {
    var r: int := DivRoundUp(n, d);
    DivRoundUpBounds(n, d);
    MulOrder(d, q - 1, r);
    MulOrder(d, r - 1, q);
  }

  lemma DivRoundUpShrinks(n: nat, f: nat)
    requires f >= 2 && n >= 2
    ensures 1 <= DivRoundUp(n, f) < n
  {
    var q := DivRoundUp(n, f);
    DivRoundUpBounds(n, f);
    assert f * (n - 1) >= 2 * (n - 1) by { assert (f - 2) * (n - 1) >= 0; }
    MulOrder(f, q - 1, n - 1);
    MulOrder(f, 0, q);
  }

  // ----- the layers, bottom up --------------------------------------------

  /** The layers above `n >= 2` blocks, bottom layer first; the last one is a single block. */
  function Layers(n: nat, f: nat): (layers: seq<LayerDetails>)
    requires f >= 2 && n >= 2
    ensures |layers| >= 1
    decreases n
  {
    DivRoundUpShrinks(n, f);
    var m := DivRoundUp(n, f);
    [LayerDetails(m, n)] + (if m > 1 then Layers(m, f) else [])
  }

  /** The number of hash layers needed for `n` data blocks: none for a single block. */
  function Depth(n: nat, f: nat): nat
    requires f >= 2 && n >= 1
    decreases n
  {
    if n == 1 then 0 else
      DivRoundUpShrinks(n, f);
      1 + Depth(DivRoundUp(n, f), f)
  }

  /** The number of hash blocks in all layers. */
  function Total(n: nat, f: nat): nat
    requires f >= 2 && n >= 1
    decreases n
  {
    if n == 1 then 0 else
      DivRoundUpShrinks(n, f);
      DivRoundUp(n, f) + Total(DivRoundUp(n, f), f)
  }

  /** `DivRoundUp` by a and then by b is `DivRoundUp` by a * b. */
  lemma DivRoundUpTwice(n: nat, a: nat, b: nat)
    requires a > 0 && b > 0
    ensures a * b > 0
    ensures DivRoundUp(DivRoundUp(n, a), b) == DivRoundUp(n, a * b)
  {
    var p: int := DivRoundUp(n, a);
    var q: int := DivRoundUp(p, b);
    DivRoundUpBounds(n, a);
    DivRoundUpBounds(p, b);
    MulOrder(a, 0, b);
    NestedBounds(n, a, b, p, b * q);
    assert a * (b * q) == (a * b) * q;
    DivRoundUpUnique(n, a * b, q);
  }

  lemma NestedBounds(n: int, a: nat, b: nat, p: int, r: int)
    requires a > 0 && b > 0
    requires n <= a * p < n + a
    requires p <= r < p + b
    ensures n <= a * r < n + a * b
  {
    MulOrder(a, r, p);
    MulOrder(a, p + b - 1, r);
    assert a * (p + b - 1) == a * p + a * b - a;
  }

  lemma PowPositive(b: nat, e: nat)
    requires b > 0
    ensures Pow(b, e) > 0
  {
  }

  /**
   Layer i covers DivRoundUp(n, f^i) blocks and has DivRoundUp(n, f^(i+1)) of its own, each layer covers
   the blocks of the one below, and only the last is a single block.
   */
  lemma {:induction false} LayerSizes(n: nat, f: nat, i: nat)
    requires f >= 2 && n >= 2
    requires i < |Layers(n, f)|
    ensures Pow(f, i) > 0 && Pow(f, i + 1) > 0
    ensures Layers(n, f)[i] == LayerDetails(DivRoundUp(n, Pow(f, i + 1)), DivRoundUp(n, Pow(f, i)))
    ensures i + 1 < |Layers(n, f)| ==> Layers(n, f)[i].hashBlocks == Layers(n, f)[i + 1].dataBlocks
    ensures Layers(n, f)[i].hashBlocks == 1 <==> i + 1 == |Layers(n, f)|
    ensures Layers(n, f)[i].hashBlocks >= 1
    decreases i
  {
    PowPositive(f, i);
    PowPositive(f, i + 1);
    DivRoundUpShrinks(n, f);
    var m := DivRoundUp(n, f);
    if i == 0 {
      assert Pow(f, 1) == f * 1;
      DivRoundUpUnique(n, 1, n);
      if m > 1 {
        assert Layers(n, f)[1] == Layers(m, f)[0];
      }
    } else {
      LayerSizes(m, f, i - 1);
      DivRoundUpTwice(n, f, Pow(f, i - 1));
      DivRoundUpTwice(n, f, Pow(f, i));
      assert forall j :: 1 <= j < |Layers(n, f)| ==> Layers(n, f)[j] == Layers(m, f)[j - 1];
    }
  }

  /** Bottom layer first: each layer covers at least two blocks and is covered by the next, up to a single block. */
  lemma {:induction false} LayersChain(n: nat, f: nat)
    requires f >= 2 && n >= 2
    ensures var layers := Layers(n, f);
            && layers[0].dataBlocks == n
            && layers[|layers| - 1].hashBlocks == 1
            && (forall i :: 0 <= i < |layers| ==> layers[i].dataBlocks >= 2)
            && (forall i :: 0 <= i < |layers| ==> layers[i].hashBlocks == DivRoundUp(layers[i].dataBlocks, f))
            && (forall i :: 0 <= i < |layers| - 1 ==> layers[i].hashBlocks == layers[i + 1].dataBlocks)
    decreases n
  {
    DivRoundUpShrinks(n, f);
    var m := DivRoundUp(n, f);
    if m > 1 {
      LayersChain(m, f);
      assert forall j :: 1 <= j < |Layers(n, f)| ==> Layers(n, f)[j] == Layers(m, f)[j - 1];
    }
  }

  /** The hash blocks number at most (n - 1) / (f - 1) plus one for each layer. */
  lemma {:induction false} TotalBound(n: nat, f: nat)
    requires f >= 2 && n >= 1
    ensures (f - 1) * Total(n, f) <= n - 1 + (f - 1) * Depth(n, f)
    ensures Total(n, f) <= (n - 1) / (f - 1) + Depth(n, f)
    decreases n
  {
    if n == 1 {
    } else {
      DivRoundUpShrinks(n, f);
      var m := DivRoundUp(n, f);
      DivRoundUpBounds(n, f);
      TotalBound(m, f);
      TotalBoundStep(n, f, m, Total(m, f), Depth(m, f));
    }
    BoundByDivision(n - 1, f - 1, Total(n, f), Depth(n, f));
  }

  /** There are at least (n - 1) / (f - 1) hash blocks. */
  lemma {:induction false} TotalAtLeast(n: nat, f: nat)
    requires f >= 2 && n >= 1
    ensures (f - 1) * Total(n, f) >= n - 1
    decreases n
  {
    if n > 1 {
      DivRoundUpShrinks(n, f);
      var m := DivRoundUp(n, f);
      DivRoundUpBounds(n, f);
      TotalAtLeast(m, f);
      TotalAtLeastStep(n, f, m, Total(m, f));
    }
  }

  lemma TotalAtLeastStep(n: nat, f: nat, m: nat, t: nat)
    requires f >= 2 && f * m >= n && (f - 1) * t >= m - 1
    ensures (f - 1) * (m + t) >= n - 1
  {
    assert (f - 1) * (m + t) == f * m - m + (f - 1) * t;
  }

  lemma TotalBoundStep(n: nat, f: nat, m: nat, t: nat, d: nat)
    requires f >= 2 && m >= 1 && f * m < n + f
    requires (f - 1) * t <= m - 1 + (f - 1) * d
    ensures (f - 1) * (m + t) <= n - 1 + (f - 1) * (d + 1)
  {
    assert (f - 1) * (m + t) == f * m - m + (f - 1) * t;
    assert (f - 1) * (d + 1) == (f - 1) * d + f - 1;
  }

  lemma BoundByDivision(a: nat, k: nat, t: nat, d: nat)
    requires k > 0 && k * t <= a + k * d
    ensures t <= a / k + d
  {
    var q := a / k;
    assert a < k * q + k;
    assert k * (q + d + 1) == k * q + k * d + k;
    MulOrder(k, t, q + d + 1);
  }

  /** The depth is the least e with n <= f^e. */
  lemma {:induction false} DepthIsLogarithm(n: nat, f: nat)
    requires f >= 2 && n >= 1
    ensures n <= Pow(f, Depth(n, f))
    ensures n > 1 ==> Pow(f, Depth(n, f) - 1) < n
    decreases n
  {
    if n > 1 {
      DivRoundUpShrinks(n, f);
      var m := DivRoundUp(n, f);
      DivRoundUpBounds(n, f);
      DepthIsLogarithm(m, f);
      MulOrder(f, Pow(f, Depth(m, f)), m);
      assert Pow(f, Depth(n, f)) == f * Pow(f, Depth(m, f));
      if m > 1 {
        var q := Pow(f, Depth(m, f) - 1);
        assert Pow(f, Depth(m, f)) == f * q;
        MulOrder(f, m - 1, q);
        MulOrder(f, m - 1, m);
      }
    }
  }

  // ----- where the layers lie ---------------------------------------------

  /** The layers of the tree, bottom first; the top layer is stored first, so it starts at block 0. */
  function Starts(n: nat, f: nat): (starts: seq<LayerStart>)
    requires f >= 2 && n >= 1
    ensures |starts| == Depth(n, f)
    decreases n
  {
    if n == 1 then [] else
      DivRoundUpShrinks(n, f);
      [LayerStart(Total(DivRoundUp(n, f), f), n)] + Starts(DivRoundUp(n, f), f)
  }

  /**
   The layers tile the blocks 0 .. Total without gap or overlap: the top layer starts at block 0, each
   layer ends where the one below it starts, and the bottom layer ends at Total. What the hash blocks of a
   layer number is what the layer above holds hashes of.
   */
  lemma {:induction false} LayersTile(n: nat, f: nat, i: nat)
    requires f >= 2 && n >= 2
    requires i < |Starts(n, f)|
    ensures var s := Starts(n, f);
            var next := if i == 0 then Total(n, f) else s[i - 1].firstBlock;
            && s[i].firstBlock + DivRoundUp(s[i].dataBlocks, f) == next
            && (i + 1 == |s| ==> s[i].firstBlock == 0 && DivRoundUp(s[i].dataBlocks, f) == 1)
            && (i + 1 < |s| ==> s[i + 1].dataBlocks == DivRoundUp(s[i].dataBlocks, f))
    decreases n
  {
    DivRoundUpShrinks(n, f);
    var m := DivRoundUp(n, f);
    var s := Starts(n, f);
    if i == 0 {
      if m > 1 {
        assert s[1] == Starts(m, f)[0];
      }
    } else {
      LayersTile(m, f, i - 1);
      assert s[i] == Starts(m, f)[i - 1];
    }
  }

  /** A hash index of a layer falls in a block of that layer. */
  lemma HashBlockInLayer(count: nat, f: nat, index: nat)
    requires f >= 2 && index < count
    ensures index / f < DivRoundUp(count, f)
  {
    var q := DivRoundUp(count, f);
    DivRoundUpBounds(count, f);
    assert f * (index / f) <= index;
    MulOrder(f, index / f, q);
  }

  // ----- the two implementations ------------------------------------------

  /** The layer computation of the verifier: bottom up, then reversed so that the top layer comes first. */
  method ComputeLayers(dataBlockCount: nat, hashesPerBlock: nat)
    returns (layerDetails: seq<LayerDetails>, totalHashBlocks: nat)
    requires hashesPerBlock >= 2 && dataBlockCount >= 2
    ensures layerDetails == Reverse(Layers(dataBlockCount, hashesPerBlock))
    ensures totalHashBlocks == Total(dataBlockCount, hashesPerBlock)
  {
    hide Layers, Total, DivRoundUp, Reverse;
    ghost var all := Layers(dataBlockCount, hashesPerBlock);
    LayersStep([], dataBlockCount, hashesPerBlock);
    var levelHashBlocks := DivRoundUp(dataBlockCount, hashesPerBlock);
    var details := [LayerDetails(levelHashBlocks, dataBlockCount)];
    totalHashBlocks := levelHashBlocks;
    while levelHashBlocks > 1
      invariant levelHashBlocks >= 1
      invariant all == details + LayersAbove(levelHashBlocks, hashesPerBlock)
      invariant Total(dataBlockCount, hashesPerBlock) == totalHashBlocks + Total(levelHashBlocks, hashesPerBlock)
      decreases levelHashBlocks
    {
      LayersStep(details, levelHashBlocks, hashesPerBlock);
      var dataBlocks := levelHashBlocks;
      levelHashBlocks := DivRoundUp(dataBlocks, hashesPerBlock);
      details := details + [LayerDetails(levelHashBlocks, dataBlocks)];
      totalHashBlocks := totalHashBlocks + levelHashBlocks;
    }
    NoLayersAbove(details, hashesPerBlock);
    layerDetails := Reverse(details);
  }

  /** The layers over this many hash blocks, if there are any more. */
  function LayersAbove(n: nat, f: nat): seq<LayerDetails>
    requires f >= 2 && n >= 1
  {
    if n > 1 then Layers(n, f) else []
  }

  lemma LayersStep(below: seq<LayerDetails>, n: nat, f: nat)
    requires f >= 2 && n >= 2
    ensures var m := DivRoundUp(n, f);
            && 1 <= m < n
            && below + LayersAbove(n, f) == below + [LayerDetails(m, n)] + LayersAbove(m, f)
            && (below == [] ==> Layers(n, f) == [LayerDetails(m, n)] + LayersAbove(m, f))
            && Total(n, f) == m + Total(m, f)
  {
    DivRoundUpShrinks(n, f);
  }

  lemma NoLayersAbove(details: seq<LayerDetails>, f: nat)
    requires f >= 2
    ensures details + LayersAbove(1, f) == details && Total(1, f) == 0
  {
  }

  function Reverse<T>(s: seq<T>): (r: seq<T>)
    ensures |r| == |s|
    ensures forall i :: 0 <= i < |s| ==> r[i] == s[|s| - 1 - i]
  {
    if s == [] then [] else Reverse(s[1..]) + [s[0]]
  }

  /** Rounding up as the code does it, with a 64-bit sum. */
  function WrappedRoundUp(n: nat, d: nat): nat
    requires d > 0
  {
    (n + (d - 1)) % Bytes.TWO64 / d
  }

  lemma RoundUpWraps(n: nat, d: nat)
    requires 0 < d <= 0x1_0000_0000 && n < Bytes.TWO64
    ensures n + (d - 1) < Bytes.TWO64 ==> WrappedRoundUp(n, d) == DivRoundUp(n, d)
    ensures n + (d - 1) >= Bytes.TWO64 ==> WrappedRoundUp(n, d) == 0
  {
    var sum := n + (d - 1);
    if sum < Bytes.TWO64 {
      Euclid(sum, Bytes.TWO64, 0, sum);
    } else {
      Euclid(sum, Bytes.TWO64, 1, sum - Bytes.TWO64);
      Euclid(sum - Bytes.TWO64, d, 0, sum - Bytes.TWO64);
    }
  }

  /**
   The mounter's count of hash blocks, written independently of the verifier's. It is the same for every 64-bit count
   that can be rounded up without wrapping.
   */
  method CalcRequiredHashBlocks(dataBlocks: nat, hashesPerBlock: nat) returns (required: nat)
    requires 2 <= hashesPerBlock <= 0x1_0000_0000 && dataBlocks < Bytes.TWO64
    ensures dataBlocks == 0 || dataBlocks + (hashesPerBlock - 1) >= Bytes.TWO64 ==> required == 0
    ensures dataBlocks > 0 && dataBlocks + (hashesPerBlock - 1) < Bytes.TWO64 ==>
              required == Total(dataBlocks, hashesPerBlock)
  {
    if dataBlocks == 1 {
      return 0;
    }
    RoundUpWraps(dataBlocks, hashesPerBlock);
    var layerHashBlocks := WrappedRoundUp(dataBlocks, hashesPerBlock);
    required := layerHashBlocks;
    if dataBlocks > 1 {
      DivRoundUpShrinks(dataBlocks, hashesPerBlock);
    }
    ghost var wraps := dataBlocks + (hashesPerBlock - 1) >= Bytes.TWO64;
    while layerHashBlocks > 1
      invariant dataBlocks == 0 || wraps ==> layerHashBlocks == required == 0
      invariant dataBlocks > 0 && !wraps ==> 1 <= layerHashBlocks < dataBlocks
      invariant dataBlocks > 0 && !wraps ==>
                  Total(dataBlocks, hashesPerBlock) == required + Total(layerHashBlocks, hashesPerBlock)
      decreases layerHashBlocks
    {
      DivRoundUpShrinks(layerHashBlocks, hashesPerBlock);
      RoundUpWraps(layerHashBlocks, hashesPerBlock);
      layerHashBlocks := WrappedRoundUp(layerHashBlocks, hashesPerBlock);
      required := required + layerHashBlocks;
    }
  }
}
