/** The formats in plain bytes: what the operations write for values written out. */
module KnownAnswers {
  import opened Bytes
  import opened Bits
  import opened InputBuffer
  import opened OutputBuffer
  import LengthPrefix
  import Varint
  import Growable
  import W = BitWriter
  import BitPacking
  import ValueRange
  import Limits
  import FileParser
  import Language

  lemma {:induction false} WordInBytes(a: byte, b: byte)
    ensures LittleEndian(a as int + 0x100 * b as int, 2) == [a, b]
  {
    assert LittleEndian(b as int, 1) == [b];
  }

  lemma SizesInBytes()
    ensures LengthPrefix.SizeBytes(0x7F) == [0x7F]
    ensures LengthPrefix.SizeBytes(0x80) == [0x80, 0x80]
    ensures LengthPrefix.SizeBytes(0x1234) == [0x92, 0x34]
    ensures LengthPrefix.SizeBytes(0x3FFF) == [0xBF, 0xFF]
    ensures LengthPrefix.SizeBytes(0x4000) == [0xC0, 0, 0, 0x40]
    ensures LengthPrefix.SizeBytes(0x12345678) == [0xD2, 0x34, 0x78, 0x56]
  {
    WordInBytes(0, 0x40);
    WordInBytes(0x78, 0x56);
  }

  lemma AppendAtEnd(t: Tape, bs: seq<byte>)
    requires t.AtEnd()
    ensures t.Write(bs) == Tape(t.bytes + bs, |t.bytes + bs|)
  {
  }

  /** The two- and the four-byte form start with the bits 10 and 11; only the last two bytes are little-endian. */
  method WriteSizes() returns (bytes: seq<byte>)
    ensures bytes == [0x7F] + [0x92, 0x34] + [0xD2, 0x34, 0x78, 0x56]
  {
    hide LengthPrefix.SizeBytes, LittleEndian, Tape.Write;
    SizesInBytes();
    var w := new OutputBufferAdapter([]);
    AppendAtEnd(w.View(), [0x7F]);
    LengthPrefix.WriteSize(w, 0x7F);
    AppendAtEnd(w.View(), [0x92, 0x34]);
    LengthPrefix.WriteSize(w, 0x1234);
    AppendAtEnd(w.View(), [0xD2, 0x34, 0x78, 0x56]);
    LengthPrefix.WriteSize(w, 0x12345678);
    bytes := w.buffer[..w.WrittenBytesCount()];
  }

  lemma GroupsInBytes()
    ensures Varint.Groups(127) == [0x7F] && Varint.Groups(128) == [0x80, 1]
    ensures Varint.Groups(300) == [0xAC, 2] && Varint.Groups(299) == [0xAB, 2]
  {
    assert Varint.Groups(128) == [0x80] + Varint.Groups(1);
    assert Varint.Groups(300) == [0xAC] + Varint.Groups(2);
    assert Varint.Groups(299) == [0xAB] + Varint.Groups(2);
  }

  lemma ZigZagSample()
    ensures Varint.InSigned(-150, 16) && Varint.ZigZagEncode(-150, 16) == 299
  {
    hide Varint.ZigZagEncode;
    assert Pow2(8) == 0x100;
    Pow2Eight(8);
    assert Pow2(16) == 2 * Pow2(15);
    Varint.ZigZagMeaning(-150, 16);
  }

  /** 300 is 0b10_0101100, and -150 is the value with number 299 in the order 0, -1, 1, -2, ... */
  method WriteCompactValues() returns (bytes: seq<byte>)
    ensures bytes == [0x7F] + [0x80, 1] + [0xAC, 2] + [0xAB, 2]
  {
    hide Varint.Groups, Varint.ZigZagEncode, Pow2, Tape.Write;
    GroupsInBytes();
    ZigZagSample();
    var w := new OutputBufferAdapter([]);
    AppendAtEnd(w.View(), [0x7F]);
    Varint.WriteCompact(w, 127);
    AppendAtEnd(w.View(), [0x80, 1]);
    Varint.WriteCompact(w, 128);
    AppendAtEnd(w.View(), [0xAC, 2]);
    Varint.WriteCompact(w, 300);
    AppendAtEnd(w.View(), [0xAB, 2]);
    Varint.WriteCompact(w, Varint.ZigZagEncode(-150, 16));
    bytes := w.buffer[..w.WrittenBytesCount()];
  }

  lemma {:induction false} FourBytes(a: byte)
    ensures LittleEndian(a as int, 4) == [a, 0, 0, 0]
  {
    assert LittleEndian(0, 1) == [0];
    assert LittleEndian(0, 2) == [0] + LittleEndian(0, 1);
    assert LittleEndian(0, 3) == [0] + LittleEndian(0, 2);
  }

  lemma {:induction false} SectionInBytes()
    ensures Growable.Encode(Growable.SectionValue([Growable.IntValue(0x102, 2), Growable.SectionValue([])]))
         == [10, 0, 0, 0, 2, 1, 4, 0, 0, 0]
  {
    hide LittleEndian;
    var inner, number := Growable.SectionValue([]), Growable.IntValue(0x102, 2);
    FourBytes(4);
    FourBytes(10);
    WordInBytes(2, 1);
    assert Growable.Encode(inner) == [4, 0, 0, 0];
    assert [inner][1..] == [] && [number, inner][1..] == [inner];
    assert Growable.EncodeAll([inner]) == [4, 0, 0, 0];
    assert Growable.EncodeAll([number, inner]) == [2, 1] + [4, 0, 0, 0];
  }

  lemma Widths()
    ensures Pow2(16) == 0x10000 && Pow2(32) == 0x1_0000_0000
  {
    assert Pow2(8) == 0x100;
    Pow2Eight(8);
    Pow2Eight(16);
    Pow2Eight(24);
  }

  lemma {:induction false} SchemasOfExchange(written: seq<Growable.Value>, expected: seq<Growable.Field>)
    requires written == [Growable.IntValue(0x102, 2), Growable.SectionValue([])]
    requires expected == [Growable.IntField(2), Growable.SectionField([]), Growable.IntField(4)]
    ensures Growable.Fits(Growable.SectionValue(written)) && Growable.AllCompatible(written, expected)
    ensures Growable.ProjectAll(written, expected) == written + [Growable.IntValue(0, 4)]
  {
    hide LittleEndian;
    SectionInBytes();
    assert Pow2(16) == 0x10000 && Pow2(32) == 0x1_0000_0000 by { Widths(); }
    assert Growable.EncodeAll([]) == [];
    assert |Growable.Encode(Growable.SectionValue(written))| == 10;
    assert written[1..] == [written[1]] && written[1..][1..] == [];
    assert Growable.Fits(written[0]) && Growable.Fits(written[1]);
    assert Growable.AllFit(written[1..]) && Growable.AllFit(written);
    assert expected[1..][1..] == [expected[2]] && expected[1..][0] == expected[1];
    assert Growable.AllZero([expected[2]]) == [Growable.IntValue(0, 4)] by { assert [expected[2]][1..] == []; }
    assert Growable.AllCompatible(written[1..][1..], expected[1..][1..]);
    assert Growable.AllCompatible(written[1..], expected[1..]);
    assert Growable.ProjectAll(written[1..][1..], expected[1..][1..]) == [Growable.IntValue(0, 4)];
    assert Growable.ProjectAll(written[1..], expected[1..]) == [written[1]] + [Growable.IntValue(0, 4)];
  }

  /** A length counts its own four bytes and all that is in the section; the reader that expects one number of four
      bytes more gets zero for it. */
  method ExchangeSection() returns (data: seq<byte>, got: Growable.Value, code: nat, completed: bool)
    ensures data == [10, 0, 0, 0, 2, 1, 4, 0, 0, 0]
    ensures got == Growable.SectionValue([Growable.IntValue(0x102, 2), Growable.SectionValue([]), Growable.IntValue(0, 4)])
    ensures code == 0 && completed
  {
    var written := [Growable.IntValue(0x102, 2), Growable.SectionValue([])];
    var expected := [Growable.IntField(2), Growable.SectionField([]), Growable.IntField(4)];
    SectionInBytes();
    SchemasOfExchange(written, expected);
    data, got, code, completed := Growable.Exchange(written, expected);
  }

  // ---- bits ----

  lemma {:induction false} NextBit(x: nat, n: nat)
    ensures ToBits(x, n + 1) == [x % 2 == 1] + ToBits(x / 2, n)
  {
  }

  lemma {:induction false} NextFourBits(x: nat, n: nat)
    ensures ToBits(x, n + 4) == [x % 2 == 1, x / 2 % 2 == 1, x / 4 % 2 == 1, x / 8 % 2 == 1] + ToBits(x / 16, n)
  {
    hide ToBits;
    NextBit(x, n + 3);
    NextBit(x / 2, n + 2);
    NextBit(x / 4, n + 1);
    NextBit(x / 8, n);
    assert x / 2 / 2 == x / 4 && x / 4 / 2 == x / 8 && x / 8 / 2 == x / 16;
  }

  /** The bits of a byte, or of the lowest byte of a number. */
  lemma {:induction false} ByteBits(x: nat)
    ensures ToBits(x, 8) == [x % 2 == 1, x / 2 % 2 == 1, x / 4 % 2 == 1, x / 8 % 2 == 1] +
                            [x / 16 % 2 == 1, x / 16 / 2 % 2 == 1, x / 16 / 4 % 2 == 1, x / 16 / 8 % 2 == 1]
  {
    hide ToBits;
    NextFourBits(x, 4);
    NextFourBits(x / 16, 0);
    assert ToBits(x / 16 / 16, 0) == [];
  }

  lemma {:induction false} BitsOfWord()
    ensures ToBits(0x1234, 16) == [false, false, true, false, true, true, false, false] +
                                  [false, true, false, false, true, false, false, false]
  {
    hide ToBits;
    assert Pow2(8) == 0x100 && Shr(0x1234, 8) == 0x12;
    ToBitsSplit(0x1234, 8, 8);
    ByteBits(0x1234);
    ByteBits(0x12);
  }

  lemma {:induction false} FirstByteOf(b: byte, rest: seq<byte>)
    ensures BytesToBits([b] + rest) == ToBits(b, 8) + BytesToBits(rest)
    ensures BytesToBits([]) == []
  {
    hide ToBits;
    assert ([b] + rest)[1..] == rest;
  }

  lemma {:induction false} BitsOfBytes()
    ensures BytesToBits([0xA5] + ([0x91] + [0])) ==
              [true, false, true, false, false, true, false, true] + ([true, false, false, false, true, false, false, true] +
               [false, false, false, false, false, false, false, false])
  {
    hide ToBits, BytesToBits;
    ByteBits(0xA5);
    ByteBits(0x91);
    ByteBits(0);
    FirstByteOf(0xA5, [0x91] + [0]);
    FirstByteOf(0x91, [0]);
    FirstByteOf(0, []);
    assert [0] + [] == [0];
  }

  lemma {:induction false} BitsOfFive()
    ensures ToBits(5, 3) == [true, false, true]
  {
    hide ToBits;
    NextBit(5, 2);
    NextBit(2, 1);
    NextBit(1, 0);
    assert ToBits(0, 0) == [];
  }

  lemma {:induction false} BitsOfSample()
    ensures W.AllBits([W.WriteBits(5, 3, 8), W.WriteBytes(0x1234, 2)], 0) + [false, false, false, false, false]
         == BytesToBits([0xA5] + ([0x91] + [0]))
  {
    hide BytesToBits, Bit;
    var ops := [W.WriteBits(5, 3, 8), W.WriteBytes(0x1234, 2)];
    assert ops[..1][..0] == [] && ops[..1] == [ops[0]];
    assert W.AllBits([], 0) == [];
    assert W.AllBits(ops[..1], 0) == ToBits(5, 3);
    assert W.AllBits(ops, 0) == ToBits(5, 3) + ToBits(0x1234, 16);
    BitsOfWord();
    BitsOfFive();
    BitsOfBytes();
  }

  /** Bits fill a byte from its least significant one. */
  method WriteBitValues() returns (data: seq<byte>, values: seq<nat>, code: nat, completed: bool)
    ensures data == [0xA5, 0x91, 0] && values == [5, 0x1234] && code == 0 && completed
  {
    hide W.AllBits, BytesToBits;
    var ops := [W.WriteBits(5, 3, 8), W.WriteBytes(0x1234, 2)];
    assert Pow2(3) == 8 && Pow2(16) == 0x10000 by { Widths(); }
    BitsOfSample();
    data, values, code, completed := BitPacking.WriteThenRead(ops, 64, 64);
    assert W.Padding(19) == [false, false, false, false, false];
    PackingIsUnique(data, [0xA5] + ([0x91] + [0]));
    assert ops[..1] == [ops[0]];
  }

  lemma Halves()
    ensures Pow2(32) == 2 * Pow2(31)
  {
  }

  lemma {:induction false} RangeSample(range: ValueRange.Range)
    requires range == ValueRange.Range(ValueRange.IntType(32, true), -3, 10)
    ensures range.Valid() && range.BitsRequired() == 4
    ensures ToBits(7, 4) + [false, false, false, false] == BytesToBits([7])
  {
    hide ToBits, Pow2;
    Widths();
    assert Pow2(32) == 2 * Pow2(31) by { Halves(); }
    NextFourBits(7, 0);
    ByteBits(7);
    assert [7][1..] == [] && BytesToBits([]) == [];
  }

  /** 4 is the eighth value of the range from -3 to 10, whose 14 values take four bits. */
  method WriteRangeValue() returns (data: seq<byte>)
    ensures data == [7]
  {
    hide ToBits, BytesToBits, ValueRange.GetSize;
    var range := ValueRange.Range(ValueRange.IntType(32, true), -3, 10);
    RangeSample(range);
    var output := new OutputBufferAdapter([]);
    var writer := new W.OutputAdapterBitPackingWrapper(output, 64);
    ghost var empty := output.View();
    ValueRange.Serialize(writer, range, 4);
    ghost var full := output.View();
    writer.Flush();
    WroteChain(empty, full, output.View());
    WroteAtEnd(empty, output.View());
    data := output.buffer[..output.WrittenBytesCount()];
    assert W.Padding(4) == [false, false, false, false];
    PackingIsUnique(data, [7]);
  }

  // ---- limits ----

  lemma ShortCode(size: byte)
    requires size < 0x80
    ensures Language.IsCode([size], size as int)
  {
  }

  /** A name of 64 bytes is accepted. */
  lemma {:induction false} NameOfSixtyFour(name: seq<byte>)
    requires |name| == 64
    ensures FileParser.Deserialize([0, 0] + ([10, 0, 0, 2] + (([64] + name) + [0]))).accepted
  {
    hide FileParser.Deserialize, Language.IsCode;
    var file := Language.File([0, 0], [10, 0, 0, 2], [64], name, [0], []);
    assert Language.IsCode([64], 64) && Language.IsCode([0], 0) by { ShortCode(64); ShortCode(0); }
    assert Language.SpellHead(file) == [0, 0] + ([10, 0, 0, 2] + (([64] + name) + [0]));
    assert Language.SpellAll([]) == [] && Language.LegalAll([], {});
    assert Language.LegalHead(file) && Language.Legal(file, {});
    assert Language.Spell(file) == Language.SpellHead(file) + Language.SpellAll([]) == Language.SpellHead(file);
    Language.AcceptedIffSpelled(Language.SpellHead(file));
  }

  /** One of 65 is not. */
  lemma {:induction false} NameOfSixtyFive(name: seq<byte>)
    requires |name| == 65
    ensures !FileParser.Deserialize([0, 0, 10, 0, 0, 2] + ([65] + (name + [0]))).accepted
  {
    hide FileParser.Deserialize, Limits.NodeStarts;
    var message := [0, 0, 10, 0, 0, 2] + ([65] + (name + [0]));
    assert message[0..|message|] == message && LengthPrefix.SizeBytes(65) == [65];
    Limits.RootIsFirst(Start(message), {});
    Limits.LongNameRefused(message, Start(message), [0, 0, 10, 0, 0, 2], 65, name + [0]);
  }
}
