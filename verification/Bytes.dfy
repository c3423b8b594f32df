/** Bytes, powers of two and the little-endian byte order of the default configuration. */
module Bytes {

  type byte = b: int | 0 <= b < 256

  function Pow2(n: nat): (p: nat)
    ensures p >= 1
  {
    if n == 0 then 1 else 2 * Pow2(n - 1)
  }

  lemma {:induction false} Pow2Add(m: nat, n: nat)
    ensures Pow2(m + n) == Pow2(m) * Pow2(n)
  {
    if m > 0 {
      Pow2Add(m - 1, n);
      assert Pow2(m + n) == 2 * (Pow2(m - 1) * Pow2(n));
      assert 2 * (Pow2(m - 1) * Pow2(n)) == (2 * Pow2(m - 1)) * Pow2(n);
    }
  }

  lemma {:induction false} Pow2Monotone(m: nat, n: nat)
    requires m <= n
    ensures Pow2(m) <= Pow2(n)
  {
    if m < n {
      Pow2Monotone(m, n - 1);
    }
  }

  lemma Pow2Eight(n: nat)
    ensures Pow2(n + 8) == 256 * Pow2(n)
  {
    Pow2Add(8, n);
  }

  /** `count` zero bytes: what a failed read stores in its target. */
  function Zeros(count: nat): (bs: seq<byte>)
    ensures |bs| == count
    ensures forall i :: 0 <= i < count ==> bs[i] == 0
  {
    seq(count, _ => 0)
  }

  /** `count * sizeof(T)`, by addition. */
  function BlockSize(count: nat, size: nat): nat {
    if count == 0 then 0 else size + BlockSize(count - 1, size)
  }

  lemma {:induction false} BlockSizeIsProduct(count: nat, size: nat)
    ensures BlockSize(count, size) == count * size
  {
    if count > 0 {
      BlockSizeIsProduct(count - 1, size);
    }
  }

  /** The low `size` bytes of `v`, least significant first. */
  function LittleEndian(v: nat, size: nat): (bs: seq<byte>)
    ensures |bs| == size
  {
    if size == 0 then [] else [v % 256] + LittleEndian(v / 256, size - 1)
  }

  function FromLittleEndian(bs: seq<byte>): nat {
    if bs == [] then 0 else bs[0] + 256 * FromLittleEndian(bs[1..])
  }

  lemma {:induction false} LittleEndianRoundTrip(v: nat, size: nat)
    requires v < Pow2(8 * size)
    ensures FromLittleEndian(LittleEndian(v, size)) == v
  {
    if size > 0 {
      Pow2Eight(8 * (size - 1));
      LittleEndianRoundTrip(v / 256, size - 1);
      assert LittleEndian(v, size)[1..] == LittleEndian(v / 256, size - 1);
    }
  }

  lemma {:induction false} FromLittleEndianBound(bs: seq<byte>)
    ensures FromLittleEndian(bs) < Pow2(8 * |bs|)
  {
    if bs != [] {
      Pow2Eight(8 * (|bs| - 1));
      FromLittleEndianBound(bs[1..]);
    }
  }

  lemma {:induction false} FromLittleEndianZeros(count: nat)
    ensures FromLittleEndian(Zeros(count)) == 0
  {
    if count > 0 {
      assert Zeros(count)[1..] == Zeros(count - 1);
      FromLittleEndianZeros(count - 1);
    }
  }
}
