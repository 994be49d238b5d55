/**
 Bytes, slices and little-endian numbers: the vocabulary of the on-disk formats.
 */
module Bytes {

  type Byte = b: int | 0 <= b < 0x100

  type Bytes = seq<Byte>

  const SIZE_MAX: nat := 0xFFFF_FFFF_FFFF_FFFF

  const TWO32: nat := 0x1_0000_0000

  const TWO64: nat := 0x1_0000_0000_0000_0000

  function Min(a: nat, b: nat): nat {
    if a < b then a else b
  }

  /** Subtraction of two `size_t` values, which wraps. */
  function SubWrap(a: nat, b: nat): nat {
    (a - b) % TWO64
  }

  /** True when the `size` bytes at `offset` lie inside `image`. */
  predicate InRange(image: Bytes, offset: nat, size: nat) {
    offset + size <= |image|
  }

  function Slice(image: Bytes, offset: nat, size: nat): (s: Bytes)
    requires InRange(image, offset, size)
    ensures |s| == size
  {
    image[offset..offset + size]
  }

  lemma SliceOfSlice(image: Bytes, base: nat, length: nat, offset: nat, size: nat)
    requires InRange(image, base, length) && offset + size <= length
    ensures Slice(Slice(image, base, length), offset, size) == Slice(image, base + offset, size)
  {
    var inner, direct := Slice(Slice(image, base, length), offset, size), Slice(image, base + offset, size);
    forall i | 0 <= i < size
      ensures inner[i] == direct[i]
    {
      assert inner[i] == Slice(image, base, length)[offset + i];
    }
  }

  ghost predicate ContainsAt(image: Bytes, offset: nat, part: Bytes) {
    InRange(image, offset, |part|) && Slice(image, offset, |part|) == part
  }

  lemma ContainedSlice(image: Bytes, base: nat, part: Bytes, offset: nat, size: nat)
    requires ContainsAt(image, base, part) && InRange(part, offset, size)
    ensures InRange(image, base + offset, size)
    ensures Slice(image, base + offset, size) == Slice(part, offset, size)
  {
    SliceOfSlice(image, base, |part|, offset, size);
  }

  lemma SliceOfSum(a: Bytes, b: Bytes, i: nat, j: nat)
    requires i <= j
    ensures j <= |a| ==> (a + b)[i..j] == a[i..j]
    ensures |a| <= i && j <= |a| + |b| ==> (a + b)[i..j] == b[i - |a|..j - |a|]
  {
    if j <= |a| {
      assert forall k :: i <= k < j ==> (a + b)[k] == a[k];
    } else if |a| <= i && j <= |a| + |b| {
      assert forall k :: i <= k < j ==> (a + b)[k] == b[k - |a|];
    }
  }

  lemma ContainsItself(file: Bytes)
    ensures ContainsAt(file, 0, file)
  {
    assert Slice(file, 0, |file|) == file;
  }

  /** What is left alone from one position on is left alone from any later one. */
  lemma KeepsTail(now: Bytes, was: Bytes, from: nat, size: nat)
    requires from <= size <= |now| == |was| && now[from..] == was[from..]
    ensures now[size..] == was[size..]
  {
    assert now[size..] == now[from..][size - from..];
    assert was[size..] == was[from..][size - from..];
  }

  function Zeros(n: nat): (z: Bytes)
    ensures |z| == n
    ensures forall i :: 0 <= i < n ==> z[i] == 0
  {
    seq(n, _ => 0)
  }

  // ----- chunks of equal length -------------------------------------------

  function Concat(chunks: seq<Bytes>): Bytes {
    if chunks == [] then [] else chunks[0] + Concat(chunks[1..])
  }

  ghost predicate AllOfSize(chunks: seq<Bytes>, k: nat) {
    forall i :: 0 <= i < |chunks| ==> |chunks[i]| == k
  }

  lemma {:induction false} ConcatLength(chunks: seq<Bytes>, k: nat)
    requires AllOfSize(chunks, k)
    ensures |Concat(chunks)| == k * |chunks|
  {
    if chunks == [] {
    } else {
      ConcatLength(chunks[1..], k);
      assert k * |chunks| == k + k * (|chunks| - 1);
    }
  }

  /** The j-th chunk is found at offset `k * j` of the concatenation. */
  lemma {:induction false} ConcatSlice(chunks: seq<Bytes>, k: nat, j: nat)
    requires AllOfSize(chunks, k) && j < |chunks|
    ensures |Concat(chunks)| == k * |chunks|
    ensures k * j + k <= |Concat(chunks)|
    ensures Concat(chunks)[k * j..k * j + k] == chunks[j]
  {
    ConcatLength(chunks, k);
    assert k * |chunks| == k * j + k + k * (|chunks| - 1 - j);
    if j > 0 {
      ConcatSlice(chunks[1..], k, j - 1);
      ConcatLength(chunks[1..], k);
      var rest := Concat(chunks[1..]);
      assert k * (j - 1) == k * j - k;
      assert k * j - k + k <= |rest|;
      assert Concat(chunks)[k * j..k * j + k] == rest[k * j - k..k * j];
    }
  }

  // ----- little-endian numbers --------------------------------------------

  function LE(bytes: Bytes): nat {
    if bytes == [] then 0 else bytes[0] + 0x100 * LE(bytes[1..])
  }

  /** The low `n` bytes of `value`, least significant byte first. */
  function ToLE(value: nat, n: nat): (bytes: Bytes)
    ensures |bytes| == n
  {
    if n == 0 then [] else [value % 0x100] + ToLE(value / 0x100, n - 1)
  }

  function Pow256(n: nat): (p: nat)
    ensures p >= 1
  {
    if n == 0 then 1 else 0x100 * Pow256(n - 1)
  }

  lemma {:induction false} LEBound(bytes: Bytes)
    ensures LE(bytes) < Pow256(|bytes|)
  {
    if bytes != [] {
      LEBound(bytes[1..]);
    }
  }

  lemma {:induction false} LEToLE(value: nat, n: nat)
    requires value < Pow256(n)
    ensures LE(ToLE(value, n)) == value
  {
    if n > 0 {
      var p := Pow256(n - 1);
      assert value / 0x100 < p;
      LEToLE(value / 0x100, n - 1);
      assert ToLE(value, n)[1..] == ToLE(value / 0x100, n - 1);
    }
  }

  /** Numbers of one width are equal only if their bytes are. */
  lemma {:induction false} LEInjective(a: Bytes, b: Bytes)
    requires |a| == |b| && LE(a) == LE(b)
    ensures a == b
  {
    if a != [] {
      LEInjective(a[1..], b[1..]);
      assert a == [a[0]] + a[1..] && b == [b[0]] + b[1..];
    }
  }

  function Ascii(s: string): (codes: seq<int>)
    ensures |codes| == |s| && forall i :: 0 <= i < |s| ==> codes[i] == s[i] as int
  {
    seq(|s|, i requires 0 <= i < |s| => s[i] as int)
  }
}
