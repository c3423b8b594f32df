/** The length prefix: one, two or four bytes, told apart by the top bits of the first one. */
module LengthPrefix {
  import opened Bytes
  import opened Bits
  import opened InputBuffer
  import opened OutputBuffer

  const SIZE_LIMIT := 0x40000000

  /** The prefix in arithmetic form. */
  function SizeBytes(size: nat): (bs: seq<byte>)
    requires size < SIZE_LIMIT
    ensures 1 <= |bs| <= 4
  {
    if size < 0x80 then [size]
    else if size < 0x4000 then [0x80 + size / 0x100, size % 0x100]
    else [0xC0 + size / 0x1000000, size / 0x10000 % 0x100] + LittleEndian(size % 0x10000, 2)
  }

  lemma WordPower()
    ensures Pow2(8) == 0x100 && Pow2(16) == 0x10000 && Pow2(24) == 0x1000000
  {
    assert Pow2(8) == 0x100;
    Pow2Eight(8);
    Pow2Eight(16);
  }

  lemma WordBound(lw: seq<byte>)
    requires |lw| == 2
    ensures FromLittleEndian(lw) < 0x10000
  {
    WordPower();
    FromLittleEndianBound(lw);
  }

  /** Reading without a limit; a read that fails half way still yields whatever the zeros make of it. */
  function DecodeSize(r: Reader): (d: (nat, Reader))
    requires r.Valid()
    ensures d.1.Valid() && d.1.Left() <= r.Left()
    ensures d.0 > 0 ==> d.1.Left() < r.Left()
    ensures d.0 < SIZE_LIMIT
  {
    var (first, r1) := r.Read(1);
    var hb: nat := first[0];
    if hb < 0x80 then (hb, r1)
    else
      var (second, r2) := r1.Read(1);
      var lb: nat := second[0];
      if hb < 0xC0 then (hb % 0x80 * 0x100 + lb, r2)
      else
        var (lw, r3) := r2.Read(2);
        WordBound(lw);
        ((hb % 0x40 * 0x100 + lb) * 0x10000 + FromLittleEndian(lw), r3)
  }

  /** Reading with a limit: a larger size is reported and taken as zero. */
  function ReadSize(r: Reader, maxSize: nat): (d: (nat, Reader))
    requires r.Valid()
    ensures d.1.Valid() && d.1.Left() <= r.Left()
    ensures d.0 <= maxSize
  {
    var (size, next) := DecodeSize(r);
    if size > maxSize then (0, next.Report(INVALID_DATA)) else (size, next)
  }

  lemma TwoByteRoundTrip(r: Reader, size: nat)
    requires 0x80 <= size < 0x4000 && Ahead(r, SizeBytes(size))
    ensures DecodeSize(r) == (size, Advance(r, 2))
  {
    var bs := SizeBytes(size);
    assert bs == [bs[0]] + [bs[1]] && [bs[1]] == [bs[1]] + [];
    ReadAhead(r, [bs[0]], [bs[1]]);
    ReadAhead(Advance(r, 1), [bs[1]], []);
  }

  lemma FourByteSize(size: nat)
    requires size < SIZE_LIMIT
    ensures (size / 0x1000000 % 0x40 * 0x100 + size / 0x10000 % 0x100) * 0x10000
            + size % 0x10000 == size
  {
    assert size / 0x1000000 < 0x40;
    assert size / 0x10000 / 0x100 == size / 0x1000000;
  }

  lemma FourByteRoundTrip(r: Reader, size: nat)
    requires 0x4000 <= size < SIZE_LIMIT && Ahead(r, SizeBytes(size))
    ensures DecodeSize(r) == (size, Advance(r, 4))
  {
    hide LittleEndian, Pow2, FromLittleEndian;
    var hb, lb := 0xC0 + size / 0x1000000, size / 0x10000 % 0x100;
    var lw := LittleEndian(size % 0x10000, 2);
    assert SizeBytes(size) == [hb] + ([lb] + lw) && lw == lw + [];
    ReadAhead(r, [hb], [lb] + lw);
    ReadAhead(Advance(r, 1), [lb], lw);
    ReadAhead(Advance(r, 2), lw, []);
    WordPower();
    LittleEndianRoundTrip(size % 0x10000, 2);
    FourByteSize(size);
  }

  lemma SizeRoundTrip(r: Reader, size: nat, rest: seq<byte>)
    requires size < SIZE_LIMIT && Ahead(r, SizeBytes(size) + rest)
    ensures DecodeSize(r) == (size, Advance(r, |SizeBytes(size)|))
    ensures Ahead(Advance(r, |SizeBytes(size)|), rest)
  {
    ReadAhead(r, SizeBytes(size), rest);
    if size < 0x80 {
      ReadAhead(r, [size], []);
    } else if size < 0x4000 {
      TwoByteRoundTrip(r, size);
    } else {
      FourByteRoundTrip(r, size);
    }
  }

  /** The code is uniquely decodable: a size and its trailing bytes are determined by their
      concatenation, so no code is a prefix of another. */
  lemma SelfDelimiting(a: nat, restA: seq<byte>, b: nat, restB: seq<byte>)
    requires a < SIZE_LIMIT && b < SIZE_LIMIT
    requires SizeBytes(a) + restA == SizeBytes(b) + restB
    ensures a == b && restA == restB
  {
    var all := SizeBytes(a) + restA;
    var r := Start(all);
    assert all[0..|all|] == all;
    SizeRoundTrip(r, a, restA);
    SizeRoundTrip(r, b, restB);
    assert restA == all[|SizeBytes(a)|..] && restB == all[|SizeBytes(b)|..];
  }

  /** The length of a code, told by the top bits of its first byte. */
  function Announced(first: byte): nat {
    if first < 0x80 then 1 else if first < 0xC0 then 2 else 4
  }

  /** The announced bytes lie before the end of what can be read. */
  predicate CodeIsComplete(r: Reader)
    requires r.Valid() && r.Reading?
  {
    r.pos < r.end && r.pos + Announced(r.data[r.pos]) <= r.end
  }

  /** A longer code of which only zero bits are read: those of its first byte, and of its second one where the
      read of the last two would fail. */
  predicate CodeIsCutToZero(r: Reader)
    requires r.Valid() && r.Reading?
  {
    && r.pos < r.end
    && match r.data[r.pos]
       case 0x80 => r.pos + 1 == r.end
       case 0xC0 => r.pos + 1 == r.end || (r.data[r.pos + 1] == 0 && r.end < r.pos + 4)
       case _ => false
  }

  /** A decoding is accepted if and only if its code is complete or a section ends in it.  Writing an accepted
      size takes no more bytes than were read if and only if its code was complete or cut to nothing but zeros. */
  lemma AcceptedIsNotShorterIff(r: Reader)
    requires r.Valid() && r.Reading?
    ensures var (size, next) := DecodeSize(r);
            (next.Reading? <==> CodeIsComplete(r) || !r.strict) &&
            (next.Reading? ==>
               (r.pos + |SizeBytes(size)| <= next.pos <==> CodeIsComplete(r) || CodeIsCutToZero(r)))
  {
    hide LittleEndian;
    if r.pos < r.end {
      var hb := r.data[r.pos];
      if hb >= 0xC0 && r.pos + 1 < r.end && r.end < r.pos + 4 {
        FromLittleEndianZeros(2);
      }
      if hb >= 0xC0 && r.pos + 1 == r.end {
        FromLittleEndianZeros(2);
      }
    }
  }

  lemma LoneFirstByte(r: Reader)
    requires r.Valid() && r.Reading? && !r.strict && r.pos + 1 == r.end && r.data[r.pos] >= 0xC0
    ensures var hb: nat := r.data[r.pos]; DecodeSize(r) == (hb % 0x40 * 0x1000000, Advance(r, 1))
  {
    FromLittleEndianZeros(2);
  }

  /** The first byte of a code of four at the end of a section: accepted as a size that takes four to write. */
  lemma CutSizeIsLonger()
    ensures var r := Start([0xC1, 7, 7, 7]).SetEnd(1);
            DecodeSize(r) == (0x1000000, Advance(r, 1)) && |SizeBytes(0x1000000)| == 4
  {
    hide DecodeSize, FromLittleEndian, LittleEndian;
    LoneFirstByte(Start([0xC1, 7, 7, 7]).SetEnd(1));
  }

  /** Both limits at once: a read accepts exactly the prefixes of sizes up to the limit. */
  lemma LimitIsExact(r: Reader, size: nat, maxSize: nat)
    requires size < SIZE_LIMIT && Ahead(r, SizeBytes(size))
    ensures ReadSize(r, maxSize).1.Reading? <==> size <= maxSize
    ensures size <= maxSize ==> ReadSize(r, maxSize) == (size, Advance(r, |SizeBytes(size)|))
    ensures size > maxSize ==> ReadSize(r, maxSize) == (0, Failed(INVALID_DATA, false))
  {
    assert SizeBytes(size) + [] == SizeBytes(size);
    SizeRoundTrip(r, size, []);
  }

  /** A marker above six payload bits: `0x80` is two and `0xC0` three times `0x40`. */
  lemma FirstByte(payload: nat, mark: nat)
    requires payload < 0x40 && mark < 4
    ensures Cast(Or(payload, 0x40 * mark), 8) == 0x40 * mark + payload < 256
  {
    assert Pow2(6) == 0x40 && Pow2(8) == 0x100;
    OrIsSum(payload, 6, mark);
    CastLow(0x40 * mark + payload, 8, 0);
  }

  lemma LowByte(x: nat)
    ensures Cast(x, 8) == x % 256
  {
    assert Pow2(8) == 256;
    CastLow(x % 256, 8, x / 256);
  }

  lemma TwoByteCode(size: nat)
    requires 0x80 <= size < 0x4000
    ensures Cast(Or(Shr(size, 8), 0x80), 8) < 256 && Cast(size, 8) < 256
    ensures [Cast(Or(Shr(size, 8), 0x80), 8)] + [Cast(size, 8)] == SizeBytes(size)
  {
    FirstByte(size / 0x100, 2);
    LowByteAndRest(size);
    LowByte(size);
  }

  lemma FourByteCode(size: nat)
    requires 0x4000 <= size < SIZE_LIMIT
    ensures Cast(Or(Shr(size, 24), 0xC0), 8) < 256 && Cast(Shr(size, 16), 8) < 256
    ensures [Cast(Or(Shr(size, 24), 0xC0), 8)] + [Cast(Shr(size, 16), 8)] + LittleEndian(Cast(size, 16), 2)
         == SizeBytes(size)
  {
    hide Or, Cast, Shr, ToBits, Bit;
    WordPower();
    LowBitsAndRest(size % 0x1000000, 24, size / 0x1000000);
    LowBitsAndRest(size % 0x10000, 16, size / 0x10000);
    FirstByte(size / 0x1000000, 3);
    LowByte(size / 0x10000);
    CastLow(size % 0x10000, 16, size / 0x10000);
  }

  method WriteSize(w: OutputBufferAdapter, size: nat)
    requires w.Valid() && size < SIZE_LIMIT
    modifies w
    ensures w.Valid() && w.View() == old(w.View()).Write(SizeBytes(size))
  {
    if size < 0x80 {
      CastLow(size, 8, 0);
      w.Write([Cast(size, 8)]);
    } else {
      ghost var before := w.View();
      if size < 0x4000 {
        TwoByteCode(size);
        var hb, lb := Cast(Or(Shr(size, 8), 0x80), 8), Cast(size, 8);
        w.Write([hb]);
        w.Write([lb]);
        WritesJoin(before, [hb], [lb]);
      } else {
        FourByteCode(size);
        var hb, lb := Cast(Or(Shr(size, 24), 0xC0), 8), Cast(Shr(size, 16), 8);
        var lw := LittleEndian(Cast(size, 16), 2);
        w.Write([hb]);
        w.Write([lb]);
        w.Write(lw);
        WritesJoin(before, [hb], [lb]);
        WritesJoin(before, [hb] + [lb], lw);
      }
    }
  }

  /** Masking with a power of two tests one bit. */
  lemma {:induction false} SecondBit(hb: byte)
    requires hb >= 0x80
    ensures And(hb, 0x40) != 0 <==> hb >= 0xC0
  {
    assert And(hb, 0x40) == 2 * And(hb / 2, 0x20);
    assert And(hb / 2, 0x20) == 2 * And(hb / 4, 0x10);
    assert And(hb / 4, 0x10) == 2 * And(hb / 8, 8);
    assert And(hb / 8, 8) == 2 * And(hb / 16, 4);
    assert And(hb / 16, 4) == 2 * And(hb / 32, 2);
    assert And(hb / 32, 2) == 2 * And(hb / 64, 1);
    AndZero(hb / 128);
    assert And(hb / 64, 1) == hb / 64 % 2;
  }

  lemma {:induction false} TopBits(hb: byte)
    requires hb >= 0x80
    ensures And(hb, 0x40) != 0 <==> hb >= 0xC0
    ensures And(hb, 0x3F) == hb % 0x40 && And(hb, 0x7F) == hb % 0x80
  {
    assert Pow2(6) == 0x40 && Pow2(7) == 0x80 && Ones(6) == 0x3F && Ones(7) == 0x7F;
    hide Pow2, Ones;
    AndOnes(hb % 0x40, 6, hb / 0x40);
    AndOnes(hb % 0x80, 7, hb / 0x80);
    SecondBit(hb);
  }

  lemma JoinBytes(high: nat, low: byte)
    ensures Or(Shl(high, 8), low) == high * 0x100 + low
  {
    assert Pow2(8) == 0x100;
    ShlIsProduct(high, 8);
    OrIsSum(low, 8, high);
  }

  lemma JoinWords(high: nat, low: nat)
    requires low < 0x10000
    ensures Or(Shl(high, 16), low) == high * 0x10000 + low
  {
    Pow2Eight(8);
    ShlIsProduct(high, 16);
    OrIsSum(low, 16, high);
  }

  method ReadSizeUnchecked(r: InputBufferAdapter) returns (size: nat)
    requires r.Valid()
    modifies r
    ensures r.Valid() && (size, r.View()) == DecodeSize(old(r.View()))
  {
    hide Or, Shl, And, FromLittleEndian;
    var hb := r.ReadBytes(1);
    if hb[0] < 0x80 {
      size := hb[0];
    } else {
      var lb := r.ReadBytes(1);
      TopBits(hb[0]);
      if And(hb[0], 0x40) != 0 {
        var lw := r.ReadBytes(2);
        WordBound(lw);
        JoinBytes(hb[0] % 0x40, lb[0]);
        var high := Or(Shl(And(hb[0], 0x3F), 8), lb[0]);
        JoinWords(high, FromLittleEndian(lw));
        size := Or(Shl(high, 16), FromLittleEndian(lw));
      } else {
        JoinBytes(hb[0] % 0x80, lb[0]);
        size := Or(Shl(And(hb[0], 0x7F), 8), lb[0]);
      }
    }
  }

  method ReadSizeChecked(r: InputBufferAdapter, maxSize: nat) returns (size: nat)
    requires r.Valid()
    modifies r
    ensures r.Valid() && (size, r.View()) == ReadSize(old(r.View()), maxSize)
  {
    size := ReadSizeUnchecked(r);
    if size > maxSize {
      r.Report(INVALID_DATA);
      size := 0;
    }
  }
}
