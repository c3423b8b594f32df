/** Compact integers: zigzag for signed types, then groups of seven bits, least significant first. */
module Varint {
  import opened Bytes
  import opened Bits
  import opened InputBuffer
  import opened OutputBuffer

  predicate LegalWidth(bits: nat) {
    bits == 16 || bits == 32 || bits == 64
  }

  /** ceil(bits / 7): the most groups a value of the type needs. */
  function MaxGroups(bits: nat): nat {
    (bits + 6) / 7
  }

  // ---- zigzag ----

  predicate InSigned(v: int, bits: nat)
    requires bits > 0
  {
    0 <= v + Pow2(bits - 1) < Pow2(bits)
  }

  /** The two's complement word of a signed value. */
  function Word(v: int, bits: nat): (w: nat)
    requires bits > 0 && InSigned(v, bits)
    ensures w < Pow2(bits)
  {
    if v >= 0 then v else Pow2(bits) + v
  }

  function Signed(w: nat, bits: nat): (v: int)
    requires bits > 0 && w < Pow2(bits)
    ensures InSigned(v, bits)
  {
    if w < Pow2(bits - 1) then w else w - Pow2(bits)
  }

  /** `(v << 1) ^ (v >> (bits - 1))`, the second shift being arithmetic. */
  function ZigZagEncode(v: int, bits: nat): nat
    requires bits > 0 && InSigned(v, bits)
  {
    Xor(Cast(Shl(Word(v, bits), 1), bits), if v >= 0 then 0 else Ones(bits))
  }

  lemma {:induction false} ZigZagDecodeFits(u: nat, bits: nat)
    requires bits > 0 && u < Pow2(bits)
    ensures Xor(Shr(u, 1), Cast(Ones(bits) - u % 2 + 1, bits))
         == if u % 2 == 0 then u / 2 else Ones(bits) - u / 2
    ensures Xor(Shr(u, 1), Cast(Ones(bits) - u % 2 + 1, bits)) < Pow2(bits)
  {
    hide Xor, Cast, Shl;
    if u % 2 == 0 {
      CastLow(0, bits, 1);
      XorZero(u / 2);
    } else {
      CastLow(Ones(bits), bits, 0);
      XorOnes(u / 2, bits);
    }
    assert Shr(u, 1) == u / 2;
  }

  /** `(u >> 1) ^ (~(u & 1) + 1)`. */
  function ZigZagDecode(u: nat, bits: nat): int
    requires bits > 0 && u < Pow2(bits)
  {
    assert u % 2 < Pow2(bits);
    var mask := Cast(Ones(bits) - u % 2 + 1, bits);
    ZigZagDecodeFits(u, bits);
    Signed(Xor(Shr(u, 1), mask), bits)
  }

  lemma {:induction false} EncodeNonnegative(v: int, bits: nat)
    requires bits > 0 && InSigned(v, bits) && v >= 0
    ensures ZigZagEncode(v, bits) == 2 * v
  {
    assert Shl(v, 1) == 2 * Shl(v, 0);
    CastLow(2 * v, bits, 0);
    XorZero(2 * v);
  }

  lemma {:induction false} EncodeNegative(v: int, bits: nat)
    requires bits > 0 && InSigned(v, bits) && v < 0
    ensures ZigZagEncode(v, bits) == -2 * v - 1
  {
    var low, w := Pow2(bits) + 2 * v, Word(v, bits);
    assert Shl(w, 1) == 2 * Shl(w, 0);
    assert Shl(w, 1) == low + Pow2(bits) * 1;
    CastLow(low, bits, 1);
    XorOnes(low, bits);
  }

  /** In numbers: 0, -1, 1, -2, 2, ... become 0, 1, 2, 3, 4, ... */
  lemma {:induction false} ZigZagMeaning(v: int, bits: nat)
    requires bits > 0 && InSigned(v, bits)
    ensures ZigZagEncode(v, bits) == (if v >= 0 then 2 * v else -2 * v - 1) < Pow2(bits)
  {
    if v >= 0 {
      EncodeNonnegative(v, bits);
    } else {
      EncodeNegative(v, bits);
    }
  }

  lemma {:induction false} DecodeMeaning(u: nat, bits: nat)
    requires bits > 0 && u < Pow2(bits)
    ensures ZigZagDecode(u, bits) == if u % 2 == 0 then u / 2 else -(u / 2) - 1
  {
    ZigZagDecodeFits(u, bits);
  }

  /** Zigzag is a bijection between the signed and the unsigned values of a width. */
  lemma {:induction false} ZigZagBijection(v: int, u: nat, bits: nat)
    requires bits > 0 && InSigned(v, bits) && u < Pow2(bits)
    ensures ZigZagEncode(v, bits) < Pow2(bits) && ZigZagDecode(ZigZagEncode(v, bits), bits) == v
    ensures ZigZagEncode(ZigZagDecode(u, bits), bits) == u
  {
    ZigZagMeaning(v, bits);
    DecodeMeaning(ZigZagEncode(v, bits), bits);
    DecodeMeaning(u, bits);
    ZigZagMeaning(ZigZagDecode(u, bits), bits);
  }

  // ---- groups of seven bits (unsigned LEB128, section 7.6 of DWARF Version 5) ----

  function Groups(v: nat): (bs: seq<byte>)
    ensures |bs| >= 1
  {
    if v < 0x80 then [v] else [0x80 + v % 0x80] + Groups(v / 0x80)
  }

  /** All groups but the last carry the continuation bit. */
  predicate Terminated(bs: seq<byte>) {
    |bs| > 0 && bs[|bs| - 1] < 0x80 && forall i :: 0 <= i < |bs| - 1 ==> bs[i] >= 0x80
  }

  function Value(bs: seq<byte>): nat {
    if bs == [] then 0 else bs[0] % 0x80 + 0x80 * Value(bs[1..])
  }

  lemma {:induction false} GroupsRoundTrip(v: nat)
    ensures Terminated(Groups(v)) && Value(Groups(v)) == v
  {
    if v >= 0x80 {
      GroupsRoundTrip(v / 0x80);
      var tail := Groups(v / 0x80);
      assert Groups(v)[1..] == tail;
      forall i | 0 <= i < |tail| ensures Groups(v)[i + 1] == tail[i] {}
    }
  }

  lemma {:induction false} GroupCount(v: nat, groups: nat)
    requires groups > 0 && v < Pow2(7 * groups)
    ensures |Groups(v)| <= groups
  {
    if v >= 0x80 {
      assert Pow2(7) == 0x80;
      assert groups > 1;
      Pow2Add(7, 7 * (groups - 1));
      GroupCount(v / 0x80, groups - 1);
    }
  }

  /** At most `limit` bytes, up to and including the first without continuation bit; a failed read gives 0. */
  function ReadGroups(r: Reader, limit: nat): (g: (seq<byte>, Reader))
    requires r.Valid()
    ensures g.1.Valid() && |g.0| <= limit && g.1.Left() <= r.Left()
    ensures limit > 0 ==> |g.0| > 0
    decreases limit
  {
    if limit == 0 then ([], r)
    else
      var (b, next) := r.Read(1);
      if b[0] < 0x80 then (b, next)
      else
        var (rest, last) := ReadGroups(next, limit - 1);
        (b + rest, last)
  }

  /** The check of the last byte: bits above the type's width, the continuation bit included. */
  predicate Overflows(count: nat, last: byte, bits: nat)
    requires count <= MaxGroups(bits)
  {
    7 * count > bits && Shr(last, bits + 7 - 7 * count) != 0
  }

  function ReadCompact(r: Reader, bits: nat, checked: bool): (c: (nat, Reader))
    requires r.Valid() && bits > 0
    ensures c.1.Valid() && c.0 < Pow2(bits)
  {
    var (bs, next) := ReadGroups(r, MaxGroups(bits));
    CastBound(Value(bs), bits);
    (Cast(Value(bs), bits),
     if checked && Overflows(|bs|, bs[|bs| - 1], bits) then next.Report(INVALID_DATA) else next)
  }

  lemma {:induction false} ReadTerminated(r: Reader, bs: seq<byte>, limit: nat)
    requires Ahead(r, bs) && Terminated(bs) && |bs| <= limit
    ensures ReadGroups(r, limit) == (bs, Advance(r, |bs|))
    decreases limit
  {
    hide Value;
    assert bs == [bs[0]] + bs[1..];
    ReadAhead(r, [bs[0]], bs[1..]);
    if bs[0] >= 0x80 {
      ReadTerminated(Advance(r, 1), bs[1..], limit - 1);
    }
  }

  /** Groups that all ask for another one: when nothing is left, the missing byte reads as zero, which ends
      the groups; only outside of sections that is an error. */
  lemma {:induction false} ReadContinued(r: Reader, bs: seq<byte>, limit: nat)
    requires Ahead(r, bs) && |bs| <= limit
    requires forall i :: 0 <= i < |bs| ==> bs[i] >= 0x80
    requires |bs| < limit ==> r.pos + |bs| == r.end
    ensures |bs| == limit ==> ReadGroups(r, limit) == (bs, Advance(r, |bs|))
    ensures |bs| < limit ==>
              ReadGroups(r, limit) == (bs + Zeros(1), if r.strict then Failed(DATA_OVERFLOW, false) else Advance(r, |bs|))
    decreases limit
  {
    if bs != [] {
      assert bs == [bs[0]] + bs[1..];
      ReadAhead(r, [bs[0]], bs[1..]);
      ReadContinued(Advance(r, 1), bs[1..], limit - 1);
      assert [bs[0]] + (bs[1..] + Zeros(1)) == bs + Zeros(1);
    } else {
      assert bs + Zeros(1) == Zeros(1);
    }
  }

  lemma {:induction false} ValueStep(bs: seq<byte>)
    ensures Value(bs) == if bs == [] then 0 else bs[0] % 0x80 + 0x80 * Value(bs[1..])
    ensures Pow2(0) == 1
  {
  }

  lemma {:induction false} SevenMore(groups: nat)
    ensures Pow2(7 * (groups + 1)) == 0x80 * Pow2(7 * groups)
  {
    assert Pow2(7) == 0x80;
    Pow2Add(7, 7 * groups);
  }

  lemma {:induction false} ValueBound(bs: seq<byte>)
    ensures Value(bs) < Pow2(7 * |bs|)
    ensures |bs| > 0 ==>
      Value(bs) == Value(bs[..|bs| - 1]) + Pow2(7 * (|bs| - 1)) * (bs[|bs| - 1] % 0x80)
  {
    hide Value, Pow2;
    ValueStep(bs);
    if |bs| > 0 {
      SevenMore(|bs| - 1);
      ValueStep(bs[..|bs| - 1]);
      if |bs| > 1 {
        ValueBound(bs[1..]);
        SevenMore(|bs| - 2);
        assert bs[1..][..|bs| - 2] == bs[..|bs| - 1][1..];
        var p, d := Pow2(7 * (|bs| - 2)), bs[|bs| - 1] % 0x80;
        assert 0x80 * (p * d) == (0x80 * p) * d;
      }
    }
  }

  /** The bits of the last of `MaxGroups` groups that still belong to the value. */
  function SpareBits(bits: nat): nat
    requires LegalWidth(bits)
  {
    if bits == 16 then 2 else if bits == 32 then 4 else 1
  }

  lemma {:induction false} ShiftedLast(last: byte, bits: nat)
    requires LegalWidth(bits)
    ensures Shr(last, SpareBits(bits)) != 0 <==> last >= Pow2(SpareBits(bits))
    ensures 1 < Pow2(SpareBits(bits)) < 0x80
  {
    var spare := SpareBits(bits);
    assert Pow2(1) == 2 && Pow2(2) == 4 && Pow2(4) == 16;
    var p := Pow2(spare);
    LowBitsAndRest(last % p, spare, last / p);
    assert last == last % p + p * (last / p);
  }

  lemma {:induction false} FitsIffLastFits(low: nat, power: nat, last: nat, spare: nat)
    requires low < power
    ensures low + power * last < power * spare <==> last < spare
  {
    if last < spare {
      assert power * last <= power * (spare - 1) == power * spare - power;
    } else {
      assert power * last >= power * spare;
    }
  }

  lemma {:induction false} FullGroups(bs: seq<byte>, bits: nat)
    requires LegalWidth(bits) && |bs| == MaxGroups(bits)
    ensures Value(bs) < Pow2(bits) <==> bs[|bs| - 1] % 0x80 < Pow2(SpareBits(bits))
  {
    var low := 7 * (|bs| - 1);
    ValueBound(bs);
    ValueBound(bs[..|bs| - 1]);
    Pow2Add(low, SpareBits(bits));
    assert low + SpareBits(bits) == bits;
    FitsIffLastFits(Value(bs[..|bs| - 1]), Pow2(low), bs[|bs| - 1] % 0x80, Pow2(SpareBits(bits)));
  }

  /** The check on the last byte is exact: it fires iff the groups are unterminated or the value is too big. */
  lemma {:induction false} OverflowIsExact(bs: seq<byte>, bits: nat)
    requires LegalWidth(bits) && 0 < |bs| <= MaxGroups(bits)
    requires forall i :: 0 <= i < |bs| - 1 ==> bs[i] >= 0x80
    requires Terminated(bs) || |bs| == MaxGroups(bits)
    ensures Overflows(|bs|, bs[|bs| - 1], bits) <==> !(Terminated(bs) && Value(bs) < Pow2(bits))
  {
    hide Value, Pow2;
    ValueBound(bs);
    if |bs| < MaxGroups(bits) {
      Pow2Monotone(7 * |bs|, bits);
    } else {
      var last, spare := bs[|bs| - 1], SpareBits(bits);
      ShiftedLast(last, bits);
      FullGroups(bs, bits);
      assert bits + 7 - 7 * |bs| == spare;
    }
  }

  /** The groups that decide what a read does: up to the first terminated one, at most `limit`, or as many as
      there are. */
  function GroupsIn(bytes: seq<byte>, limit: nat): (bs: seq<byte>)
    ensures |bs| <= limit && bs <= bytes
    decreases limit
  {
    if bytes == [] || limit == 0 then []
    else if bytes[0] < 0x80 then [bytes[0]]
    else [bytes[0]] + GroupsIn(bytes[1..], limit - 1)
  }

  function GroupsAhead(r: Reader, bits: nat): seq<byte>
    requires r.Valid() && r.Reading?
  {
    GroupsIn(r.data[r.pos..r.end], MaxGroups(bits))
  }

  ghost predicate Prefix(r: Reader, bs: seq<byte>, bits: nat) {
    && Ahead(r, bs) && |bs| <= MaxGroups(bits)
    && (forall i :: 0 <= i < |bs| - 1 ==> bs[i] >= 0x80)
    && (Terminated(bs) || |bs| == MaxGroups(bits) || r.pos + |bs| == r.end)
  }

  /** A group that asks for another one, in front of groups. */
  lemma MoreGroups(b: byte, tail: seq<byte>)
    requires b >= 0x80 && forall i :: 0 <= i < |tail| - 1 ==> tail[i] >= 0x80
    ensures var bs := [b] + tail;
            (forall i :: 0 <= i < |bs| - 1 ==> bs[i] >= 0x80) && (Terminated(tail) ==> Terminated(bs))
  {
    var bs := [b] + tail;
    forall i | 0 <= i < |bs| - 1 ensures bs[i] >= 0x80 {
      if i > 0 { assert bs[i] == tail[i - 1]; }
    }
  }

  lemma {:induction false} GroupsInShape(bytes: seq<byte>, limit: nat)
    ensures var bs := GroupsIn(bytes, limit);
            (forall i :: 0 <= i < |bs| - 1 ==> bs[i] >= 0x80) &&
            (Terminated(bs) || |bs| == limit || bs == bytes)
    decreases limit
  {
    if bytes != [] && limit > 0 && bytes[0] >= 0x80 {
      GroupsInShape(bytes[1..], limit - 1);
      assert bytes == [bytes[0]] + bytes[1..];
      MoreGroups(bytes[0], GroupsIn(bytes[1..], limit - 1));
    }
  }

  lemma FrontOfSlice<T>(s: seq<T>, start: nat, end: nat, count: nat)
    requires start <= start + count <= end <= |s|
    ensures s[start..end][..count] == s[start..start + count]
  {
  }

  lemma {:induction false} GroupsAheadArePrefix(r: Reader, bits: nat)
    requires r.Valid() && r.Reading?
    ensures Prefix(r, GroupsAhead(r, bits), bits)
  {
    hide GroupsIn, MaxGroups;
    var rest := r.data[r.pos..r.end];
    var bs := GroupsIn(rest, MaxGroups(bits));
    GroupsInShape(rest, MaxGroups(bits));
    FrontOfSlice(r.data, r.pos, r.end, |bs|);
    assert rest[..|bs|] == bs;
  }

  lemma {:induction false} ReadComplete(r: Reader, bs: seq<byte>, bits: nat)
    requires LegalWidth(bits) && Prefix(r, bs, bits) && (Terminated(bs) || |bs| == MaxGroups(bits))
    ensures ReadGroups(r, MaxGroups(bits)) == (bs, Advance(r, |bs|))
    ensures Overflows(|bs|, bs[|bs| - 1], bits) <==> !(Terminated(bs) && Value(bs) < Pow2(bits))
  {
    if Terminated(bs) {
      ReadTerminated(r, bs, MaxGroups(bits));
    } else {
      ReadContinued(r, bs, MaxGroups(bits));
    }
    OverflowIsExact(bs, bits);
  }

  lemma {:induction false} NothingShifted(n: nat)
    ensures Shr(0, n) == 0
  {
    if n > 0 { NothingShifted(n - 1); }
  }

  lemma GroupLimit(count: nat, bits: nat)
    ensures 7 * count < bits <==> count < MaxGroups(bits)
  {
  }

  /** A zero byte in place of the missing group changes nothing: the value stays, and it fits. */
  lemma {:induction false} ZeroGroup(bs: seq<byte>, bits: nat)
    requires LegalWidth(bits) && |bs| < MaxGroups(bits)
    ensures Value(bs + Zeros(1)) == Value(bs) < Pow2(bits) && !Overflows(|bs| + 1, 0, bits)
  {
    hide Value, Pow2, Shr;
    var all := bs + Zeros(1);
    ValueBound(all);
    assert all[..|bs|] == bs && all[|bs|] == 0;
    ValueBound(bs);
    GroupLimit(|bs|, bits);
    Pow2Monotone(7 * |bs|, bits);
    NothingShifted(if 7 * |all| > bits then bits + 7 - 7 * |all| else 0);
  }

  /** Groups cut off by the end of what can be read yield the value of those that are there. */
  lemma {:induction false} ReadCutOff(r: Reader, bs: seq<byte>, bits: nat)
    requires LegalWidth(bits) && Ahead(r, bs) && |bs| < MaxGroups(bits)
    requires r.pos + |bs| == r.end && forall i :: 0 <= i < |bs| ==> bs[i] >= 0x80
    ensures ReadCompact(r, bits, true) == (Value(bs), if r.strict then Failed(DATA_OVERFLOW, false) else Advance(r, |bs|))
  {
    hide Value, Pow2, Shr, Cast, Overflows, ReadGroups;
    ReadContinued(r, bs, MaxGroups(bits));
    ZeroGroup(bs, bits);
    CastLow(Value(bs), bits, 0);
  }

  lemma {:induction false} ReadFull(r: Reader, bs: seq<byte>, bits: nat, fits: bool)
    requires bits > 0 && Ahead(r, bs) && 0 < |bs| <= MaxGroups(bits)
    requires ReadGroups(r, MaxGroups(bits)) == (bs, Advance(r, |bs|))
    requires Overflows(|bs|, bs[|bs| - 1], bits) <==> !fits
    requires fits ==> Value(bs) < Pow2(bits)
    ensures ReadCompact(r, bits, true).1 == if fits then Advance(r, |bs|) else Failed(INVALID_DATA, false)
    ensures fits ==> ReadCompact(r, bits, true).0 == Value(bs)
  {
    if fits {
      CastLow(Value(bs), bits, 0);
    }
  }

  /** The checked reader is exact, for any reading reader.  With `bs` the groups ahead:
      terminated groups whose value fits are accepted and returned; any other complete groups are InvalidData;
      groups cut off by the end of the buffer are DataOverflow; but groups cut off by the end of a section are
      accepted as if they were terminated there. */
  lemma {:induction false} CheckedReadIsExact(r: Reader, bits: nat)
    requires LegalWidth(bits) && r.Valid() && r.Reading?
    ensures var bs := GroupsAhead(r, bits);
            var (v, next) := ReadCompact(r, bits, true);
            var complete := Terminated(bs) || |bs| == MaxGroups(bits);
            var fits := Terminated(bs) && Value(bs) < Pow2(bits);
            (next.Reading? <==> fits || (!complete && !r.strict)) &&
            (next.Reading? ==> v == Value(bs) && next == Advance(r, |bs|)) &&
            (next == Failed(INVALID_DATA, false) <==> complete && !fits) &&
            (next == Failed(DATA_OVERFLOW, false) <==> !complete && r.strict)
  {
    hide Value, Pow2, GroupsAhead, ReadCompact;
    GroupsAheadArePrefix(r, bits);
    var bs := GroupsAhead(r, bits);
    if Terminated(bs) || |bs| == MaxGroups(bits) {
      ReadComplete(r, bs, bits);
      ReadFull(r, bs, bits, Terminated(bs) && Value(bs) < Pow2(bits));
    } else {
      assert forall i :: 0 <= i < |bs| ==> bs[i] >= 0x80;
      ReadCutOff(r, bs, bits);
    }
  }

  /** A group that asks for another one, at the end of a section: not terminated, and yet accepted. */
  lemma {:induction false} CutGroupIsAccepted()
    ensures var r := Start([0x81, 5]).SetEnd(1);
            !Terminated(GroupsAhead(r, 16)) && ReadCompact(r, 16, true) == (1, Advance(r, 1))
  {
    hide ReadCompact, Value, Pow2;
    var r := Start([0x81, 5]).SetEnd(1);
    assert r.data[r.pos..r.end] == [0x81] && [0x81][1..] == [];
    assert GroupsAhead(r, 16) == [0x81];
    ValueStep([]);
    ValueStep([0x81]);
    ReadCutOff(r, [0x81], 16);
  }

  lemma {:induction false} CompactIsRead(r: Reader, v: nat, bits: nat, checked: bool)
    requires LegalWidth(bits) && v < Pow2(bits) && Ahead(r, Groups(v))
    ensures |Groups(v)| <= MaxGroups(bits)
    ensures ReadCompact(r, bits, checked) == (v, Advance(r, |Groups(v)|))
  {
    hide Groups, Value, Pow2, Cast, Terminated;
    GroupsRoundTrip(v);
    Pow2Monotone(bits, 7 * MaxGroups(bits));
    GroupCount(v, MaxGroups(bits));
    ReadTerminated(r, Groups(v), MaxGroups(bits));
    OverflowIsExact(Groups(v), bits);
    CastLow(v, bits, 0);
  }

  /** Every unsigned value comes back, checked or not, leaving what follows. */
  lemma {:induction false} CompactRoundTrip(r: Reader, v: nat, bits: nat, checked: bool)
    requires (bits == 16 || bits == 32 || bits == 64) && v < Pow2(bits) && Ahead(r, Groups(v))
    ensures ReadCompact(r, bits, checked) == (v, Advance(r, |Groups(v)|))
  {
    hide Groups, ReadCompact, Pow2, Ahead;
    CompactIsRead(r, v, bits, checked);
  }

  lemma WordHalves(bits: nat)
    requires bits > 0
    ensures Pow2(bits) == 2 * Pow2(bits - 1)
  {
  }

  /** And every signed value, through zigzag. */
  lemma {:induction false} SignedRoundTrip(r: Reader, v: int, bits: nat, checked: bool)
    requires bits == 16 || bits == 32 || bits == 64
    requires 0 - Pow2(bits - 1) <= v < Pow2(bits - 1) && Ahead(r, Groups(ZigZagEncode(v, bits)))
    ensures var (u, next) := ReadCompact(r, bits, checked);
            ZigZagDecode(u, bits) == v && next == Advance(r, |Groups(ZigZagEncode(v, bits))|)
  {
    hide Groups, ReadCompact, Pow2, Ahead, ZigZagEncode, ZigZagDecode;
    WordHalves(bits);
    ZigZagBijection(v, 0, bits);
    CompactRoundTrip(r, ZigZagEncode(v, bits), bits, checked);
  }

  lemma {:induction false} ContinuationByte(val: nat)
    ensures Cast(Or(val, 0x80), 8) == 0x80 + val % 0x80 < 256
    ensures Shr(val, 7) == val / 0x80
  {
    assert Pow2(7) == 0x80 && Pow2(8) == 0x100;
    LowBitsAndRest(val % 0x80, 7, val / 0x80);
    var or := Cast(Or(val, 0x80), 8);
    forall i: nat ensures Bit(or, i) == Bit(0x80 + val % 0x80, i) {
      CastBit(Or(val, 0x80), 8, i);
      OrBit(val, 0x80, i);
      OrIsSum(val % 0x80, 7, 1);
      OrBit(val % 0x80, 0x80, i);
      if i < 7 {
        assert ToBits(val, 7)[i] == ToBits(val % 0x80, 7)[i];
      } else if i == 7 {
        assert Bit(0x80, 7);
      } else {
        HighBits(val % 0x80 + 0x80, 8, i);
      }
    }
    BitsDetermine(or, 0x80 + val % 0x80);
  }

  lemma {:induction false} GroupStep(val: nat, written: seq<byte>)
    requires val > 0x7F
    ensures Cast(Or(val, 0x80), 8) < 256 && Shr(val, 7) < val
    ensures (written + [Cast(Or(val, 0x80), 8)]) + Groups(Shr(val, 7)) == written + Groups(val)
  {
    ContinuationByte(val);
    assert Groups(val) == [0x80 + val % 0x80] + Groups(val / 0x80);
  }

  method WriteCompact(w: OutputBufferAdapter, v: nat)
    requires w.Valid()
    modifies w
    ensures w.Valid() && w.View() == old(w.View()).Write(Groups(v))
  {
    var val := v;
    ghost var start, written: seq<byte> := w.View(), [];
    assert start.Write([]) == start;
    while val > 0x7F
      invariant w.Valid() && w.View() == start.Write(written)
      invariant written + Groups(val) == Groups(v)
      decreases val
    {
      GroupStep(val, written);
      var group := [Cast(Or(val, 0x80), 8)];
      WritesJoin(start, written, group);
      w.Write(group);
      written := written + group;
      val := Shr(val, 7);
    }
    CastLow(val, 8, 0);
    WritesJoin(start, written, [val]);
    w.Write([Cast(val, 8)]);
  }

  /** The groups that a read has consumed. */
  ghost predicate ReadShape(seen: seq<byte>, bits: nat) {
    && 0 < |seen| <= MaxGroups(bits)
    && (forall i :: 0 <= i < |seen| - 1 ==> seen[i] >= 0x80)
    && (Terminated(seen) || |seen| == MaxGroups(bits))
  }

  lemma {:induction false} GroupsShape(r: Reader, limit: nat)
    requires r.Valid() && limit > 0
    ensures var seen := ReadGroups(r, limit).0;
            (forall i :: 0 <= i < |seen| - 1 ==> seen[i] >= 0x80) && (Terminated(seen) || |seen| == limit)
    decreases limit
  {
    var (b, next) := r.Read(1);
    assert b == [b[0]];
    if b[0] >= 0x80 && limit > 1 {
      GroupsShape(next, limit - 1);
      MoreGroups(b[0], ReadGroups(next, limit - 1).0);
    }
  }

  /** InvalidData is reported exactly when the groups read are not the groups of a value of the type. */
  method HandleReadOverflow(r: InputBufferAdapter, shiftedBy: nat, remainder: byte, bits: nat, ghost seen: seq<byte>)
    requires r.Valid() && LegalWidth(bits) && ReadShape(seen, bits)
    requires shiftedBy == 7 * |seen| && remainder == seen[|seen| - 1]
    modifies r
    ensures r.Valid()
    ensures Terminated(seen) && Value(seen) < Pow2(bits) ==> r.View() == old(r.View())
    ensures !(Terminated(seen) && Value(seen) < Pow2(bits)) ==> r.View() == old(r.View()).Report(INVALID_DATA)
  {
    OverflowIsExact(seen, bits);
    if shiftedBy > bits && Shr(remainder, bits + 7 - shiftedBy) != 0 {
      r.Report(INVALID_DATA);
    }
  }

  /** The low seven bits of a group, shifted into place and added, in an accumulator of `fast` bits. */
  function AddGroup(tmp: nat, b: byte, shift: nat, fast: nat): nat {
    Cast(tmp + Cast(Shl(And(b, 0x7F), shift), fast), fast)
  }

  /** The reading loop has consumed `seen`, is at `r`, and goes on as long as `more` says. */
  ghost predicate Progress(start: Reader, limit: nat, seen: seq<byte>, more: bool, r: Reader)
    requires start.Valid() && r.Valid() && |seen| <= limit
  {
    var (all, end) := ReadGroups(start, limit);
    if more then
      var (rest, last) := ReadGroups(r, limit - |seen|);
      all == seen + rest && end == last
    else all == seen && end == r
  }

  lemma LowSeven(b: byte)
    ensures And(b, 0x7F) == b % 0x80
  {
    assert Pow2(7) == 0x80 && Ones(7) == 0x7F;
    AndOnes(b % 0x80, 7, b / 0x80);
    assert b == b % 0x80 + 0x80 * (b / 0x80);
  }

  lemma {:induction false} SplitAt(x: nat, width: nat)
    ensures x == Cast(x, width) + Pow2(width) * Shr(x, width)
  {
    if width > 0 {
      SplitAt(x / 2, width - 1);
      var m := Pow2(width - 1) * Shr(x / 2, width - 1);
      assert Pow2(width) * Shr(x, width) == 2 * m;
    }
  }

  /** Wrapping both summands first does not change a wrapped sum. */
  lemma {:induction false} CastSum(x: nat, y: nat, width: nat)
    ensures Cast(Cast(x, width) + Cast(y, width), width) == Cast(x + y, width)
  {
    hide Cast, Shr, Pow2;
    SplitAt(x, width);
    SplitAt(y, width);
    var a, b := Cast(x, width), Cast(y, width);
    var qx, qy := Shr(x, width), Shr(y, width);
    SplitAt(a + b, width);
    var c, q := Cast(a + b, width), Shr(a + b, width);
    CastBound(a + b, width);
    assert Pow2(width) * q + Pow2(width) * qx + Pow2(width) * qy == Pow2(width) * (q + qx + qy);
    assert x + y == c + Pow2(width) * (q + qx + qy);
    CastLow(c, width, q + qx + qy);
  }

  lemma {:induction false} AccumulateGroup(seen: seq<byte>, b: byte, fast: nat)
    ensures AddGroup(Cast(Value(seen), fast), b, 7 * |seen|, fast) == Cast(Value(seen + [b]), fast)
  {
    LowSeven(b);
    ValueBound(seen + [b]);
    assert (seen + [b])[..|seen|] == seen;
    ShlIsProduct(b % 0x80, 7 * |seen|);
    CastSum(Value(seen), Shl(b % 0x80, 7 * |seen|), fast);
  }

  lemma {:induction false} NextGroup(start: Reader, limit: nat, seen: seq<byte>, r: Reader, fast: nat)
    requires start.Valid() && r.Valid() && |seen| < limit
    requires Progress(start, limit, seen, true, r)
    ensures var (b, next) := r.Read(1);
            Progress(start, limit, seen + b, b[0] > 0x7F, next) &&
            AddGroup(Cast(Value(seen), fast), b[0], 7 * |seen|, fast) == Cast(Value(seen + b), fast)
  {
    var (b, next) := r.Read(1);
    var rest := ReadGroups(next, limit - |seen| - 1).0;
    assert seen + (b + rest) == (seen + b) + rest;
    assert b == [b[0]];
    AccumulateGroup(seen, b[0], fast);
  }

  lemma {:induction false} GroupsDone(start: Reader, limit: nat, seen: seq<byte>, more: bool, r: Reader)
    requires start.Valid() && r.Valid() && |seen| <= limit
    requires Progress(start, limit, seen, more, r) && (more ==> |seen| == limit)
    ensures ReadGroups(start, limit) == (seen, r)
  {
    assert seen + [] == seen;
  }

  method ReadGroupsLoop(r: InputBufferAdapter, bits: nat, fast: nat)
    returns (tmp: nat, count: nat, b1: byte, ghost seen: seq<byte>)
    requires r.Valid() && bits > 0
    modifies r
    ensures r.Valid() && (seen, r.View()) == ReadGroups(old(r.View()), MaxGroups(bits))
    ensures count == |seen| > 0 && b1 == seen[count - 1] && tmp == Cast(Value(seen), fast)
  {
    b1, count, tmp, seen := 0x80, 0, 0, [];
    ghost var start, limit := r.View(), MaxGroups(bits);
    CastLow(0, fast, 0);
    while 7 * count < bits && b1 > 0x7F
      invariant r.Valid() && count == |seen| <= limit
      invariant b1 == if count == 0 then 0x80 else seen[count - 1]
      invariant Progress(start, limit, seen, b1 > 0x7F, r.View()) && tmp == Cast(Value(seen), fast)
      decreases limit - count
    {
      GroupLimit(count, bits);
      NextGroup(start, limit, seen, r.View(), fast);
      var byte := r.ReadBytes(1);
      b1 := byte[0];
      tmp := AddGroup(tmp, b1, 7 * count, fast);
      seen := seen + byte;
      count := count + 1;
    }
    GroupLimit(count, bits);
    GroupsDone(start, limit, seen, b1 > 0x7F, r.View());
  }

  lemma {:induction false} CastTwice(x: nat, wide: nat, narrow: nat)
    requires narrow <= wide
    ensures Cast(Cast(x, wide), narrow) == Cast(x, narrow)
  {
    forall i: nat ensures Bit(Cast(Cast(x, wide), narrow), i) == Bit(Cast(x, narrow), i) {
      CastBit(Cast(x, wide), narrow, i);
      CastBit(x, wide, i);
      CastBit(x, narrow, i);
    }
    BitsDetermine(Cast(Cast(x, wide), narrow), Cast(x, narrow));
  }

  lemma {:induction false} CompactFromGroups(start: Reader, seen: seq<byte>, r: Reader, bits: nat, fast: nat, checked: bool)
    requires start.Valid() && r.Valid() && 0 < bits <= fast
    requires ReadGroups(start, MaxGroups(bits)) == (seen, r)
    ensures |seen| > 0
    ensures ReadCompact(start, bits, checked)
         == (Cast(Cast(Value(seen), fast), bits),
             if checked && Overflows(|seen|, seen[|seen| - 1], bits) then r.Report(INVALID_DATA) else r)
  {
    CastTwice(Value(seen), fast, bits);
  }

  /** The reading loop.  `fast` is the width of the accumulator type the platform picks, at least `bits`:
      it wraps, and the truncation to the value's type makes the choice invisible. */
  method ReadCompactValue(r: InputBufferAdapter, bits: nat, fast: nat, checked: bool) returns (v: nat)
    requires r.Valid() && LegalWidth(bits) && bits <= fast
    modifies r
    ensures r.Valid() && (v, r.View()) == ReadCompact(old(r.View()), bits, checked)
  {
    hide ReadGroups, ReadCompact, Value, Pow2, Terminated, Overflows;
    var tmp, count, b1, seen := ReadGroupsLoop(r, bits, fast);
    CompactFromGroups(old(r.View()), seen, r.View(), bits, fast, checked);
    GroupsShape(old(r.View()), MaxGroups(bits));
    v := Cast(tmp, bits);
    if checked {
      OverflowIsExact(seen, bits);
      HandleReadOverflow(r, 7 * count, b1, bits, seen);
    }
  }
}
