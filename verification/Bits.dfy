/** The bitwise operators the packing code uses, on unsigned integers of any width,
    and lists of bits, least significant first. */
module Bits {
  import opened Bytes

  function Bit(x: nat, i: nat): bool {
    if i == 0 then x % 2 == 1 else Bit(x / 2, i - 1)
  }

  function Or(a: nat, b: nat): nat
    decreases a + b
  {
    if a == 0 && b == 0 then 0
    else (if a % 2 == 1 || b % 2 == 1 then 1 else 0) + 2 * Or(a / 2, b / 2)
  }

  function And(a: nat, b: nat): nat
    decreases a + b
  {
    if a == 0 && b == 0 then 0
    else (if a % 2 == 1 && b % 2 == 1 then 1 else 0) + 2 * And(a / 2, b / 2)
  }

  function Shl(x: nat, s: nat): nat {
    if s == 0 then x else 2 * Shl(x, s - 1)
  }

  function Shr(x: nat, s: nat): nat {
    if s == 0 then x else Shr(x / 2, s - 1)
  }

  /** A cast to an unsigned type of `width` bits. */
  function Cast(x: nat, width: nat): nat {
    if width == 0 then 0 else x % 2 + 2 * Cast(x / 2, width - 1)
  }

  lemma {:induction false} ZeroBit(i: nat)
    ensures !Bit(0, i)
  {
    if i > 0 { ZeroBit(i - 1); }
  }

  lemma {:induction false} OrBit(a: nat, b: nat, i: nat)
    ensures Bit(Or(a, b), i) == (Bit(a, i) || Bit(b, i))
    decreases i
  {
    if a == 0 && b == 0 {
      ZeroBit(i);
    } else if i > 0 {
      OrBit(a / 2, b / 2, i - 1);
    }
  }

  lemma {:induction false} AndBit(a: nat, b: nat, i: nat)
    ensures Bit(And(a, b), i) == (Bit(a, i) && Bit(b, i))
    decreases i
  {
    if a == 0 && b == 0 {
      ZeroBit(i);
    } else if i > 0 {
      AndBit(a / 2, b / 2, i - 1);
    }
  }

  lemma {:induction false} ShlBit(x: nat, s: nat, i: nat)
    ensures Bit(Shl(x, s), i) == (s <= i && Bit(x, i - s))
    decreases s
  {
    if s > 0 && i > 0 {
      ShlBit(x, s - 1, i - 1);
      assert Shl(x, s) / 2 == Shl(x, s - 1);
    }
  }

  lemma {:induction false} ShrBit(x: nat, s: nat, i: nat)
    ensures Bit(Shr(x, s), i) == Bit(x, i + s)
    decreases s
  {
    if s > 0 {
      ShrBit(x / 2, s - 1, i);
    }
  }

  lemma {:induction false} CastBit(x: nat, width: nat, i: nat)
    ensures Bit(Cast(x, width), i) == (i < width && Bit(x, i))
    decreases width
  {
    if width == 0 {
      ZeroBit(i);
    } else if i > 0 {
      assert Cast(x, width) / 2 == Cast(x / 2, width - 1);
      CastBit(x / 2, width - 1, i - 1);
    }
  }

  lemma {:induction false} CastBound(x: nat, width: nat)
    ensures Cast(x, width) < Pow2(width)
  {
    if width > 0 { CastBound(x / 2, width - 1); }
  }

  lemma {:induction false} HighBits(x: nat, n: nat, i: nat)
    requires x < Pow2(n) && n <= i
    ensures !Bit(x, i)
    decreases i
  {
    if n == 0 {
      ZeroBit(i);
    } else {
      HighBits(x / 2, n - 1, i - 1);
    }
  }

  /** The mask `(1 << n) - 1`. */
  function Ones(n: nat): (m: nat)
    ensures m == Pow2(n) - 1
  {
    if n == 0 then 0 else 1 + 2 * Ones(n - 1)
  }

  lemma {:induction false} OnesBit(n: nat, i: nat)
    ensures Bit(Ones(n), i) == (i < n)
    decreases n
  {
    if n == 0 {
      ZeroBit(i);
    } else if i > 0 {
      assert Ones(n) / 2 == Ones(n - 1);
      OnesBit(n - 1, i - 1);
    }
  }

  // ---- bit lists ----

  function ToBits(x: nat, n: nat): (bits: seq<bool>)
    ensures |bits| == n
    ensures forall i :: 0 <= i < n ==> bits[i] == Bit(x, i)
  {
    seq(n, i requires 0 <= i < n => Bit(x, i))
  }

  function FromBits(bits: seq<bool>): nat {
    if bits == [] then 0 else (if bits[0] then 1 else 0) + 2 * FromBits(bits[1..])
  }

  lemma {:induction false} FromBitsBit(bits: seq<bool>, i: nat)
    ensures Bit(FromBits(bits), i) == (i < |bits| && bits[i])
    decreases i
  {
    if bits == [] {
      ZeroBit(i);
    } else if i > 0 {
      assert FromBits(bits) / 2 == FromBits(bits[1..]);
      FromBitsBit(bits[1..], i - 1);
    }
  }

  lemma {:induction false} BitsDetermine(x: nat, y: nat)
    requires forall i: nat :: Bit(x, i) == Bit(y, i)
    ensures x == y
    decreases x + y
  {
    if x != 0 || y != 0 {
      forall i: nat ensures Bit(x / 2, i) == Bit(y / 2, i) {
        assert Bit(x, i + 1) == Bit(y, i + 1);
      }
      BitsDetermine(x / 2, y / 2);
      assert Bit(x, 0) == Bit(y, 0);
    }
  }

  lemma FromToBits(x: nat, n: nat)
    requires x < Pow2(n)
    ensures FromBits(ToBits(x, n)) == x
  {
    forall i: nat ensures Bit(FromBits(ToBits(x, n)), i) == Bit(x, i) {
      FromBitsBit(ToBits(x, n), i);
      if i >= n { HighBits(x, n, i); }
    }
    BitsDetermine(FromBits(ToBits(x, n)), x);
  }

  /** The plain bit list a sequence of bytes stands for. */
  function BytesToBits(bs: seq<byte>): (bits: seq<bool>)
    ensures |bits| == 8 * |bs|
  {
    if bs == [] then [] else ToBits(bs[0], 8) + BytesToBits(bs[1..])
  }

  lemma {:induction false} BytesToBitsConcat(a: seq<byte>, b: seq<byte>)
    ensures BytesToBits(a + b) == BytesToBits(a) + BytesToBits(b)
  {
    if a == [] {
      assert a + b == b;
    } else {
      assert (a + b)[1..] == a[1..] + b;
      BytesToBitsConcat(a[1..], b);
    }
  }

  /** A bit list has at most one packing into bytes. */
  lemma {:induction false} PackingIsUnique(a: seq<byte>, b: seq<byte>)
    requires BytesToBits(a) == BytesToBits(b)
    ensures a == b
  {
    assert 8 * |a| == 8 * |b|;
    if a != [] {
      assert ToBits(a[0], 8) == BytesToBits(a)[..8] == BytesToBits(b)[..8] == ToBits(b[0], 8);
      assert BytesToBits(a[1..]) == BytesToBits(a)[8..] == BytesToBits(b)[8..] == BytesToBits(b[1..]);
      assert a[0] < Pow2(8) && b[0] < Pow2(8) by { assert Pow2(8) == 256; }
      FromToBits(a[0], 8);
      FromToBits(b[0], 8);
      PackingIsUnique(a[1..], b[1..]);
    }
  }

  lemma ToBitsSplit(x: nat, m: nat, n: nat)
    ensures ToBits(x, m + n) == ToBits(x, m) + ToBits(Shr(x, m), n)
  {
    forall i: nat | i < n ensures Bit(Shr(x, m), i) == Bit(x, m + i) {
      ShrBit(x, m, i);
    }
  }

  /** A number is its low `n` bits below the rest. */
  lemma {:induction false} LowBitsAndRest(low: nat, n: nat, rest: nat)
    requires low < Pow2(n)
    ensures Shr(low + Pow2(n) * rest, n) == rest
    ensures ToBits(low + Pow2(n) * rest, n) == ToBits(low, n)
  {
    if n > 0 {
      var m := Pow2(n - 1) * rest;
      assert Pow2(n) * rest == 2 * m;
      assert (low + 2 * m) / 2 == low / 2 + m;
      LowBitsAndRest(low / 2, n - 1, rest);
      forall i: nat | i < n ensures Bit(low + 2 * m, i) == Bit(low, i) {
        if i > 0 {
          assert ToBits(low / 2 + m, n - 1)[i - 1] == ToBits(low / 2, n - 1)[i - 1];
        }
      }
    }
  }

  lemma LowByteAndRest(x: nat)
    ensures Shr(x, 8) == x / 256
    ensures ToBits(x % 256, 8) == ToBits(x, 8)
  {
    assert Pow2(8) == 256;
    LowBitsAndRest(x % 256, 8, x / 256);
  }

  /** Little-endian bytes and least-significant-bit-first packing are the same bits:
      this is why the aligned path and the scratch path agree. */
  lemma {:induction false} LittleEndianBits(v: nat, size: nat)
    ensures BytesToBits(LittleEndian(v, size)) == ToBits(v, 8 * size)
  {
    if size > 0 {
      LittleEndianBits(v / 256, size - 1);
      LowByteAndRest(v);
      ToBitsSplit(v, 8, 8 * (size - 1));
      assert LittleEndian(v, size)[1..] == LittleEndian(v / 256, size - 1);
      assert 8 + 8 * (size - 1) == 8 * size;
    }
  }

  lemma {:induction false} BytesOfValue(bs: seq<byte>)
    ensures LittleEndian(FromLittleEndian(bs), |bs|) == bs
  {
    if bs != [] {
      BytesOfValue(bs[1..]);
    }
  }

  lemma {:induction false} FromBitsOfBytes(bs: seq<byte>)
    ensures FromBits(BytesToBits(bs)) == FromLittleEndian(bs)
  {
    FromLittleEndianBound(bs);
    var v := FromLittleEndian(bs);
    FromToBits(v, 8 * |bs|);
    LittleEndianBits(v, |bs|);
    BytesOfValue(bs);
  }

  // ---- operators with a constant operand ----

  lemma {:induction false} OrZero(x: nat)
    ensures Or(0, x) == x && Or(x, 0) == x
  {
    if x > 0 { OrZero(x / 2); }
  }

  /** Numbers without a common bit: or is addition. */
  lemma {:induction false} OrIsSum(low: nat, n: nat, rest: nat)
    requires low < Pow2(n)
    ensures Or(low, Pow2(n) * rest) == low + Pow2(n) * rest
    ensures Or(Pow2(n) * rest, low) == low + Pow2(n) * rest
    decreases n
  {
    if n == 0 {
      OrZero(rest);
    } else {
      var m := Pow2(n - 1) * rest;
      assert Pow2(n) * rest == 2 * m;
      OrIsSum(low / 2, n - 1, rest);
    }
  }

  lemma {:induction false} AndZero(x: nat)
    ensures And(x, 0) == 0
  {
    if x > 0 { AndZero(x / 2); }
  }

  lemma {:induction false} AndOnes(low: nat, n: nat, rest: nat)
    requires low < Pow2(n)
    ensures And(low + Pow2(n) * rest, Ones(n)) == low
    decreases n
  {
    if n == 0 {
      AndZero(rest);
    } else {
      var m := Pow2(n - 1) * rest;
      assert Pow2(n) * rest == 2 * m;
      assert (low + 2 * m) / 2 == low / 2 + m && Ones(n) / 2 == Ones(n - 1);
      AndOnes(low / 2, n - 1, rest);
    }
  }

  lemma {:induction false} ShlIsProduct(x: nat, s: nat)
    ensures Shl(x, s) == Pow2(s) * x
  {
    if s > 0 {
      ShlIsProduct(x, s - 1);
      assert 2 * (Pow2(s - 1) * x) == Pow2(s) * x;
    }
  }

  lemma {:induction false} CastLow(low: nat, width: nat, rest: nat)
    requires low < Pow2(width)
    ensures Cast(low + Pow2(width) * rest, width) == low
    decreases width
  {
    if width > 0 {
      var m := Pow2(width - 1) * rest;
      assert Pow2(width) * rest == 2 * m;
      assert (low + 2 * m) / 2 == low / 2 + m;
      CastLow(low / 2, width - 1, rest);
    }
  }

  function Xor(a: nat, b: nat): nat
    decreases a + b
  {
    if a == 0 && b == 0 then 0
    else (if (a % 2 == 1) != (b % 2 == 1) then 1 else 0) + 2 * Xor(a / 2, b / 2)
  }

  lemma {:induction false} XorZero(x: nat)
    ensures Xor(x, 0) == x
  {
    if x > 0 { XorZero(x / 2); }
  }

  /** Exclusive or with all ones is the complement. */
  lemma {:induction false} XorOnes(x: nat, n: nat)
    requires x < Pow2(n)
    ensures Xor(x, Ones(n)) == Ones(n) - x
    decreases n
  {
    if n > 0 {
      assert Ones(n) / 2 == Ones(n - 1);
      XorOnes(x / 2, n - 1);
    }
  }
}
