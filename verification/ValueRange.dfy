/** Range-coded integers: a value of a known range, in as few bits as the range needs. */
module ValueRange {
  import opened Bytes
  import opened Bits
  import opened InputBuffer
  import opened OutputBuffer
  import BitWriter
  import BitReader

  /** A C++ integer type. */
  datatype IntType = IntType(width: nat, isSigned: bool) {
    predicate Valid() {
      width > 0 && width % 8 == 0 && BitWriter.LegalSize(width / 8)
    }

    function Lowest(): int
      requires Valid()
    {
      if isSigned then 0 - Pow2(width - 1) else 0
    }

    predicate Holds(v: int)
      requires Valid()
    {
      Lowest() <= v < Lowest() + Pow2(width)
    }

    /** Conversion to the type: the representative modulo the word size. */
    function Wrap(v: int): (w: int)
      requires Valid()
      ensures Holds(w)
    {
      Lowest() + (v - Lowest()) % Pow2(width)
    }

    /** Conversion to the unsigned type of the same width. */
    function Unsigned(v: int): (w: nat)
      requires Valid()
      ensures w < Pow2(width)
    {
      v % Pow2(width)
    }
  }

  function GetSize(v: nat, s: nat): nat {
    if v > 0 then GetSize(v / 2, s + 1) else s
  }

  datatype Range = Range(t: IntType, min: int, max: int) {
    /** The difference of the bounds must be representable; narrow types are promoted before they are subtracted. */
    predicate Valid() {
      && t.Valid() && t.Holds(min) && t.Holds(max) && min < max
      && (t.width >= 32 ==> t.Holds(max - min))
    }

    function BitsRequired(): nat
      requires Valid()
    {
      GetSize(max - min, 0)
    }

    predicate IsValid(v: int) {
      !(min > v || v > max)
    }

    function GetValue(v: int): nat
      requires Valid()
    {
      t.Unsigned(v - min)
    }

    /** The raw code reinterpreted as the type, plus `min`, in the type's wrapping arithmetic. */
    function SetValue(raw: nat): int
      requires Valid()
    {
      t.Wrap(t.Wrap(raw) + min)
    }
  }

  lemma {:induction false} SizeIsMinimal(v: nat, s: nat)
    requires v > 0
    ensures GetSize(v, s) > s
    ensures Pow2(GetSize(v, s) - s - 1) <= v < Pow2(GetSize(v, s) - s)
    decreases v
  {
    if v / 2 > 0 {
      SizeIsMinimal(v / 2, s + 1);
    } else {
      assert GetSize(v, s) == GetSize(0, s + 1) == s + 1;
      assert Pow2(1) == 2 && Pow2(0) == 1;
    }
  }

  /** The bit count is the least one that can hold every code of the range, and it fits the type. */
  lemma {:induction false} BitCountIsMinimal(r: Range)
    requires r.Valid()
    ensures 0 < r.BitsRequired() <= r.t.width
    ensures Pow2(r.BitsRequired() - 1) <= r.max - r.min < Pow2(r.BitsRequired())
  {
    hide GetSize;
    SizeIsMinimal(r.max - r.min, 0);
    if r.BitsRequired() > r.t.width {
      Pow2Monotone(r.t.width, r.BitsRequired() - 1);
    }
  }

  lemma {:induction false} MulMonotone(m: nat, a: int, b: int)
    requires a <= b
    ensures m * a <= m * b
  {
  }

  lemma {:induction false} ModNear(x: int, m: nat, k: int)
    requires m > 0 && -1 <= k <= 1 && k * m <= x < k * m + m
    ensures x % m == x - k * m
  {
    var q := x / m;
    assert x == m * q + x % m;
    if q < k {
      MulMonotone(m, q, k - 1);
      assert false;
    }
    if q > k {
      MulMonotone(m, k + 1, q);
      assert false;
    }
  }

  lemma {:induction false} WrapSum(m: nat, lowest: int, raw: nat, min: int)
    requires m > 0 && (lowest == 0 || 2 * lowest + m == 0)
    requires raw < m && lowest <= min < lowest + m
    ensures var word := lowest + (raw - lowest) % m;
            lowest + (word + min - lowest) % m == if raw + min < lowest + m then raw + min else raw + min - m
  {
    var k := if raw - lowest < m then 0 else 1;
    ModNear(raw - lowest, m, k);
    var sum := raw - k * m + min - lowest;
    ModNear(sum, m, if sum < 0 then -1 else if sum < m then 0 else 1);
  }

  /** A sum of two words of the type wraps at most once. */
  lemma {:induction false} WrapOnce(t: IntType, raw: nat, min: int)
    requires t.Valid() && t.Holds(min) && raw < Pow2(t.width)
    ensures t.Wrap(t.Wrap(raw) + min)
         == if raw + min < t.Lowest() + Pow2(t.width) then raw + min else raw + min - Pow2(t.width)
  {
    assert Pow2(t.width) == 2 * Pow2(t.width - 1);
    hide Pow2;
    WrapSum(Pow2(t.width), t.Lowest(), raw, min);
  }

  /** Decoding is exact under wrap-around: of the codes the bit count allows, exactly those up to
      `max - min` decode to a valid value, which is then the value they stand for. */
  lemma {:induction false} RawCodeIsExact(r: Range, raw: nat)
    requires r.Valid() && raw < Pow2(r.BitsRequired())
    ensures r.IsValid(r.SetValue(raw)) <==> raw <= r.max - r.min
    ensures raw <= r.max - r.min ==> r.SetValue(raw) == r.min + raw
  {
    BitCountIsMinimal(r);
    Pow2Monotone(r.BitsRequired(), r.t.width);
    WrapOnce(r.t, raw, r.min);
  }

  /** Every value of the range has a code, which is its offset and decodes to it. */
  lemma {:induction false} RangeRoundTrip(r: Range, v: int)
    requires r.Valid() && r.IsValid(v)
    ensures r.GetValue(v) == v - r.min < Pow2(r.BitsRequired())
    ensures r.SetValue(r.GetValue(v)) == v
  {
    BitCountIsMinimal(r);
    Pow2Monotone(r.BitsRequired(), r.t.width);
    ModNear(v - r.min, Pow2(r.t.width), 0);
    RawCodeIsExact(r, v - r.min);
  }

  lemma Pow2Positive(width: nat)
    requires width >= 8
    ensures Pow2(width) == 2 * Pow2(width - 1) && Pow2(width - 1) > 1
  {
    assert Pow2(width - 1) == 2 * Pow2(width - 2);
  }

  /** No range is refused for being wide: the full range of a type takes all its bits.  Only the difference of the
      bounds must not overflow, which it would for the full signed range of 32 or 64 bits. */
  lemma {:induction false} FullRange(size: nat, isSigned: bool)
    requires size == 1 || size == 2 || size == 4 || size == 8
    requires isSigned ==> size <= 2
    ensures var width := 8 * size;
            var t := IntType(width, isSigned);
            var r := if isSigned then Range(t, 0 - Pow2(width - 1), Pow2(width - 1) - 1) else Range(t, 0, Pow2(width) - 1);
            r.Valid() && r.BitsRequired() == width
  {
    hide GetSize, Pow2;
    var width := 8 * size;
    Pow2Positive(width);
    var t := IntType(width, isSigned);
    var r := if isSigned then Range(t, 0 - Pow2(width - 1), Pow2(width - 1) - 1) else Range(t, 0, Pow2(width) - 1);
    BitCountIsMinimal(r);
    if r.BitsRequired() < width {
      Pow2Monotone(r.BitsRequired(), width - 1);
    }
  }

  method Serialize(w: BitWriter.OutputAdapterBitPackingWrapper, r: Range, v: int)
    requires w.Valid() && r.Valid() && r.IsValid(v)
    modifies w, w.wrapped
    ensures w.Valid() && w.View() == old(w.View()) + ToBits(v - r.min, r.BitsRequired())
    ensures Wrote(old(w.wrapped.View()), w.wrapped.View())
  {
    RangeRoundTrip(r, v);
    BitCountIsMinimal(r);
    w.WriteBits(r.GetValue(v), r.BitsRequired(), r.t.width);
  }

  lemma {:induction false} CodeBound(bits: seq<bool>)
    ensures FromBits(bits) < Pow2(|bits|)
  {
    if bits != [] { CodeBound(bits[1..]); }
  }

  /** Whatever the input, the result lies in the range; it is the decoded value, or the minimum with an
      InvalidData report when the code is above `max - min`. */
  method Deserialize(reader: BitReader.InputAdapterBitPackingWrapper, r: Range) returns (v: int)
    requires reader.Valid() && r.Valid()
    modifies reader, reader.wrapped
    ensures reader.Valid() && r.min <= v <= r.max
    ensures var (bits, next) := old(reader.View()).Take(r.BitsRequired());
            var raw := FromBits(bits);
            if raw <= r.max - r.min then v == r.min + raw && reader.View() == next
            else v == r.min && reader.View() == BitReader.BitSource(next.reader.Report(INVALID_DATA), next.pending)
  {
    var raw := reader.ReadBits(r.BitsRequired());
    CodeBound(old(reader.View()).Take(r.BitsRequired()).0);
    RawCodeIsExact(r, raw);
    v := r.SetValue(raw);
    if !r.IsValid(v) {
      reader.wrapped.Report(INVALID_DATA);
      v := r.min;
    }
  }
}
