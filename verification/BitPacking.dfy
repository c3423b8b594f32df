/** Writer and reader together: same-shaped reads give back what was written. */
module BitPacking {
  import opened Bytes
  import opened Bits
  import opened InputBuffer
  import opened OutputBuffer
  import W = BitWriter
  import opened MeasureSize
  import opened BitReader

  datatype Shape = BitsShape(count: nat) | BytesShape(size: nat) | BufferShape(count: nat, size: nat) | AlignShape

  function ShapeOf(op: W.Op): Shape {
    match op
    case WriteBits(_, count, _) => BitsShape(count)
    case WriteBytes(_, size) => BytesShape(size)
    case WriteBuffer(values, size) => BufferShape(|values|, size)
    case Align => AlignShape
  }

  function ValuesOf(op: W.Op): seq<nat> {
    match op
    case WriteBits(value, _, _) => [value]
    case WriteBytes(value, _) => [value]
    case WriteBuffer(values, _) => values
    case Align => []
  }

  function AllValues(ops: seq<W.Op>): seq<nat> {
    if ops == [] then [] else AllValues(ops[..|ops| - 1]) + ValuesOf(ops[|ops| - 1])
  }

  function ReadShape(s: BitSource, shape: Shape): (r: (seq<nat>, BitSource))
    requires s.Valid()
    ensures r.1.Valid()
  {
    match shape
    case BitsShape(count) => var (bits, next) := s.Take(count); ([FromBits(bits)], next)
    case BytesShape(size) => var (bits, next) := s.TakeBytes(size); ([FromBits(bits)], next)
    case BufferShape(count, size) => s.TakeBuffer(count, size)
    case AlignShape => ([], s.Align())
  }

  function ReadShapes(s: BitSource, ops: seq<W.Op>): (r: (seq<nat>, BitSource))
    requires s.Valid()
    ensures r.1.Valid()
    decreases |ops|
  {
    if ops == [] then ([], s)
    else
      var last := |ops| - 1;
      var (front, mid) := ReadShapes(s, ops[..last]);
      var (values, end) := ReadShape(mid, ShapeOf(ops[last]));
      (front + values, end)
  }

  /** The lockstep of the two machines after `length` bits: the reader's scratch holds exactly what is
      missing to a byte boundary, so it is empty exactly when the writer's is. */
  ghost predicate InStep(s: BitSource, length: nat) {
    && s.Valid() && s.reader.Reading? && s.reader.strict
    && |s.pending| < 8 && (length + |s.pending|) % 8 == 0
  }

  /** The state a read must leave behind when it consumed the bits `bits`. */
  ghost predicate Consumed(s: BitSource, bits: seq<bool>, next: BitSource, length: nat)
    requires s.Valid() && s.reader.Reading?
  {
    && InStep(next, length + |bits|)
    && next.reader.data == s.reader.data && next.reader.end == s.reader.end
    && bits <= s.Stream() && next.Stream() == s.Stream()[|bits|..]
  }

  lemma ConsumedChain(s: BitSource, a: seq<bool>, mid: BitSource, b: seq<bool>, last: BitSource, length: nat)
    requires InStep(s, length) && Consumed(s, a, mid, length)
    requires Consumed(mid, b, last, length + |a|)
    ensures Consumed(s, a + b, last, length)
  {
    assert length + |a| + |b| == length + |a + b|;
    assert s.Stream()[|a|..][|b|..] == s.Stream()[|a + b|..];
  }

  lemma TakeConsumes(s: BitSource, count: nat, length: nat)
    requires InStep(s, length) && count <= |s.Stream()|
    ensures Consumed(s, s.Stream()[..count], s.Take(count).1, length)
    ensures s.Take(count).0 == s.Stream()[..count]
  {
    TakeStream(s, count);
  }

  lemma TakeBytesConsumes(s: BitSource, size: nat, length: nat)
    requires InStep(s, length) && 8 * size <= |s.Stream()|
    ensures Consumed(s, s.Stream()[..8 * size], s.TakeBytes(size).1, length)
    ensures s.TakeBytes(size).0 == s.Stream()[..8 * size]
  {
    TakeBytesStream(s, size);
  }

  lemma {:induction false} ElementsRoundTrip(s: BitSource, values: seq<nat>, size: nat, length: nat)
    requires InStep(s, length) && W.ElementBits(values, size) <= s.Stream()
    requires W.AllFit(values, size)
    ensures s.TakeElements(|values|, size).0 == values
    ensures Consumed(s, W.ElementBits(values, size), s.TakeElements(|values|, size).1, length)
    decreases |values|
  {
    hide BitSource.Stream, BitSource.Take, FromBits, Pow2;
    if values != [] {
      var head := ToBits(values[0], 8 * size);
      var tail := W.ElementBits(values[1..], size);
      assert s.Stream()[..8 * size] == head;
      TakeConsumes(s, 8 * size, length);
      FromToBits(values[0], 8 * size);
      var next := s.Take(8 * size).1;
      assert tail <= next.Stream();
      ElementsRoundTrip(next, values[1..], size, length + 8 * size);
      ConsumedChain(s, head, next, tail, next.TakeElements(|values| - 1, size).1, length);
    }
  }

  lemma {:induction false} ImageRoundTrip(bytes: seq<byte>, values: seq<nat>, size: nat)
    requires BytesToBits(bytes) == W.ElementBits(values, size)
    requires W.AllFit(values, size)
    ensures |bytes| == BlockSize(|values|, size) && FromImage(bytes, |values|, size) == values
    decreases |values|
  {
    W.BufferImageBits(values, size);
    PackingIsUnique(bytes, W.BufferImage(values, size));
    if values != [] {
      LittleEndianRoundTrip(values[0], size);
      W.BufferImageBits(values[1..], size);
      ImageRoundTrip(W.BufferImage(values[1..], size), values[1..], size);
      assert bytes[..size] == LittleEndian(values[0], size);
      assert bytes[size..] == W.BufferImage(values[1..], size);
    }
  }

  lemma BufferRoundTrip(s: BitSource, values: seq<nat>, size: nat, length: nat)
    requires InStep(s, length) && W.ElementBits(values, size) <= s.Stream()
    requires W.AllFit(values, size)
    ensures s.TakeBuffer(|values|, size).0 == values
    ensures Consumed(s, W.ElementBits(values, size), s.TakeBuffer(|values|, size).1, length)
  {
    if s.pending == [] {
      var count := BlockSize(|values|, size);
      assert |s.Stream()| >= 8 * count;
      TakeBytesConsumes(s, count, length);
      var bytes := s.reader.Read(count).0;
      assert BytesToBits(bytes) == s.Stream()[..8 * count] == W.ElementBits(values, size);
      ImageRoundTrip(bytes, values, size);
    } else {
      ElementsRoundTrip(s, values, size, length);
    }
  }

  lemma ShapeRoundTrip(s: BitSource, op: W.Op, length: nat)
    requires W.Legal(op) && InStep(s, length)
    requires W.BitsOf(op, length) <= s.Stream()
    ensures ReadShape(s, ShapeOf(op)).0 == ValuesOf(op)
    ensures Consumed(s, W.BitsOf(op, length), ReadShape(s, ShapeOf(op)).1, length)
  {
    hide Pow2, FromBits, BytesToBits;
    var bits := W.BitsOf(op, length);
    assert s.Stream()[..|bits|] == bits;
    match op
    case WriteBits(value, count, _) =>
      TakeConsumes(s, count, length);
      FromToBits(value, count);
    case WriteBytes(value, size) =>
      TakeBytesConsumes(s, size, length);
      FromToBits(value, 8 * size);
    case WriteBuffer(values, size) =>
      BufferRoundTrip(s, values, size, length);
    case Align =>
      assert |bits| == |s.pending|;
      assert s.pending == s.Stream()[..|s.pending|];
  }

  /** The bit-stream round trip on the references. */
  lemma {:induction false} StreamRoundTrip(s: BitSource, ops: seq<W.Op>, length: nat)
    requires forall op :: op in ops ==> W.Legal(op)
    requires InStep(s, length) && W.AllBits(ops, length) <= s.Stream()
    ensures ReadShapes(s, ops).0 == AllValues(ops)
    ensures Consumed(s, W.AllBits(ops, length), ReadShapes(s, ops).1, length)
    decreases |ops|
  {
    hide W.BitsOf, ReadShape, BitSource.Stream;
    if ops != [] {
      var last := |ops| - 1;
      var front := W.AllBits(ops[..last], length);
      var bits := W.BitsOf(ops[last], length + |front|);
      assert front <= s.Stream();
      StreamRoundTrip(s, ops[..last], length);
      var mid := ReadShapes(s, ops[..last]).1;
      assert bits <= mid.Stream() by {
        assert (front + bits)[|front|..] == bits;
      }
      ShapeRoundTrip(mid, ops[last], length + |front|);
      ConsumedChain(s, front, mid, bits, ReadShape(mid, ShapeOf(ops[last])).1, length);
    }
  }

  lemma {:induction false} PrefixBits(ops: seq<W.Op>, k: nat, length: nat)
    requires k <= |ops|
    ensures W.AllBits(ops[..k], length) <= W.AllBits(ops, length)
    decreases |ops|
  {
    hide W.BitsOf;
    if k < |ops| {
      var last := |ops| - 1;
      assert ops[..last][..k] == ops[..k];
      PrefixBits(ops[..last], k, length);
    } else {
      assert ops[..k] == ops;
    }
  }

  /** After every operation of a run the two scratch words complete each other to whole bytes: the reader
      holds exactly the bits that the writer still lacks, so one is empty exactly when the other is. */
  lemma {:induction false} ScratchesInLockstep(writer: W.OutputAdapterBitPackingWrapper, s: BitSource, ops: seq<W.Op>, k: nat)
    requires forall op :: op in ops ==> W.Legal(op)
    requires InStep(s, 0) && W.AllBits(ops, 0) <= s.Stream() && k <= |ops|
    requires writer.Valid() && writer.View() == W.AllBits(ops[..k], 0)
    ensures |ReadShapes(s, ops[..k]).1.pending| == (8 - writer.scratchBits) % 8
  {
    hide W.AllBits, W.BitsOf, ReadShapes, BitSource.Stream, W.Legal, W.Clean, Tape.Write;
    PrefixBits(ops, k, 0);
    forall op | op in ops[..k] ensures W.Legal(op) {
      assert op in ops;
    }
    StreamRoundTrip(s, ops[..k], 0);
  }

  method ReadAll(reader: InputAdapterBitPackingWrapper, ops: seq<W.Op>) returns (values: seq<nat>)
    requires reader.Valid()
    modifies reader, reader.wrapped
    ensures reader.Valid()
    ensures (values, reader.View()) == ReadShapes(old(reader.View()), ops)
  {
    values := [];
    for i := 0 to |ops|
      invariant reader.Valid()
      invariant (values, reader.View()) == ReadShapes(old(reader.View()), ops[..i])
    {
      assert ops[..i + 1][..i] == ops[..i];
      var got := [];
      match ops[i] {
        case WriteBits(_, count, _) => var v := reader.ReadBits(count); got := [v];
        case WriteBytes(_, size) => var v := reader.ReadBytes(size); got := [v];
        case WriteBuffer(written, size) => got := reader.ReadBuffer(|written|, size);
        case Align => reader.Align();
      }
      values := values + got;
    }
    assert ops[..|ops|] == ops;
  }

  lemma {:induction false} AppendLast(start: seq<bool>, mid: seq<bool>, end: seq<bool>, ops: seq<W.Op>)
    requires |ops| > 0
    requires mid == start + W.AllBits(ops[..|ops| - 1], |start|)
    requires end == mid + W.BitsOf(ops[|ops| - 1], |mid|)
    ensures end == start + W.AllBits(ops, |start|)
  {
    hide W.BitsOf;
    var front := W.AllBits(ops[..|ops| - 1], |start|);
    assert |mid| == |start| + |front|;
    var bits := W.BitsOf(ops[|ops| - 1], |mid|);
    assert W.AllBits(ops, |start|) == front + bits;
    assert (start + front) + bits == start + (front + bits);
  }

  method WriteAll(writer: W.OutputAdapterBitPackingWrapper, ops: seq<W.Op>)
    requires writer.Valid() && forall op :: op in ops ==> W.Legal(op)
    modifies writer, writer.wrapped
    ensures writer.Valid()
    ensures writer.View() == old(writer.View()) + W.AllBits(ops, |old(writer.View())|)
    ensures Wrote(old(writer.wrapped.View()), writer.wrapped.View())
    decreases |ops|
  {
    ghost var start, tape := writer.View(), writer.wrapped.View();
    WroteNothing(tape);
    if |ops| > 0 {
      var last := |ops| - 1;
      WriteAll(writer, ops[..last]);
      ghost var mid, between := writer.View(), writer.wrapped.View();
      writer.Apply(ops[last]);
      AppendLast(start, mid, writer.View(), ops);
      WroteChain(tape, between, writer.wrapped.View());
    }
  }

  /** After the last value only the padding is pending, and the align that ends a read looks at it: a set bit
      among them is reported as InvalidData. */
  lemma PaddingDecides(s: BitSource, ops: seq<W.Op>, pad: seq<bool>)
    requires forall op :: op in ops ==> W.Legal(op)
    requires InStep(s, 0) && s.Stream() == W.AllBits(ops, 0) + pad && |pad| < 8
    ensures ReadShapes(s, ops).0 == AllValues(ops)
    ensures var last := ReadShapes(s, ops).1;
            last.pending == pad && last.reader.Reading? && last.reader.pos == last.reader.end == |last.reader.data| &&
            last.Align() == BitSource(if true in pad then Failed(3, false) else last.reader, [])
  {
    hide W.AllBits, ReadShapes, AllValues;
    StreamRoundTrip(s, ops, 0);
    var last := ReadShapes(s, ops).1;
    assert last.Stream() == pad;
    assert last.pending == last.Stream()[..|last.pending|];
  }

  /** Read back any bytes that begin with the bits of a run and have fewer than eight bits more: the values return,
      and the last align accepts the rest if and only if it is all zero. */
  method ReadBack(data: seq<byte>, ops: seq<W.Op>, ghost pad: seq<bool>, register: nat)
    returns (values: seq<nat>, code: nat, completed: bool)
    requires forall op :: op in ops ==> W.Legal(op)
    requires register >= 16 && |pad| < 8 && BytesToBits(data) == W.AllBits(ops, 0) + pad
    ensures values == AllValues(ops)
    ensures true !in pad ==> code == 0 && completed
    ensures true in pad ==> code == 3 && !completed
  {
    var input := new InputBufferAdapter(data);
    var reader := new InputAdapterBitPackingWrapper(input, register);
    ghost var start := reader.View();
    assert data[0..|data|] == data;
    assert start.Stream() == BytesToBits(data);
    PaddingDecides(start, ops, pad);
    values := ReadAll(reader, ops);
    reader.Align();
    code := input.ErrorCode();
    completed := input.IsCompletedSuccessfully();
  }

  /** The values of a run fit the fields they are written to. */
  lemma AllLegal(ops: seq<W.Op>)
    requires forall op :: op in ops ==>
      match op
      case WriteBits(value, count, width) =>
        (width == 8 || width == 16 || width == 32 || width == 64) && 0 < count <= width && value < Pow2(count)
      case WriteBytes(value, size) => (size == 1 || size == 2 || size == 4 || size == 8) && value < Pow2(8 * size)
      case WriteBuffer(values, size) =>
        (size == 1 || size == 2 || size == 4 || size == 8) && forall i :: 0 <= i < |values| ==> values[i] < Pow2(8 * size)
      case Align => true
    ensures forall op :: op in ops ==> W.Legal(op)
  {
  }

  /** Serialise any legal run of operations into a fresh buffer and read it back with the same shapes:
      the bytes are the packing of the written bits, the values return, nothing is reported and no byte
      is left.  The two registers need not have the same width. */
  method WriteThenRead(ops: seq<W.Op>, writerRegister: nat, readerRegister: nat)
    returns (data: seq<byte>, values: seq<nat>, code: nat, completed: bool)
    requires writerRegister >= 16 && readerRegister >= 16
    requires forall op :: op in ops ==>
      match op
      case WriteBits(value, count, width) =>
        (width == 8 || width == 16 || width == 32 || width == 64) && 0 < count <= width && value < Pow2(count)
      case WriteBytes(value, size) => (size == 1 || size == 2 || size == 4 || size == 8) && value < Pow2(8 * size)
      case WriteBuffer(values, size) =>
        (size == 1 || size == 2 || size == 4 || size == 8) && forall i :: 0 <= i < |values| ==> values[i] < Pow2(8 * size)
      case Align => true
    ensures var bits := W.AllBits(ops, 0); BytesToBits(data) == bits + W.Padding(|bits|)
    ensures values == AllValues(ops) && code == 0 && completed
  {
    AllLegal(ops);
    var output := new OutputBufferAdapter([]);
    var writer := new W.OutputAdapterBitPackingWrapper(output, writerRegister);
    ghost var empty := output.View();
    WriteAll(writer, ops);
    assert writer.View() == W.AllBits(ops, 0);
    ghost var full := output.View();
    writer.Flush();
    WroteChain(empty, full, output.View());
    WroteAtEnd(empty, output.View());
    data := output.buffer[..output.WrittenBytesCount()];
    values, code, completed := ReadBack(data, ops, W.Padding(|W.AllBits(ops, 0)|), readerRegister);
  }

  /** The dry run of any seek-free run of operations reports the size the real run produces. */
  method MeasureAndWrite(ops: seq<W.Op>, register: nat) returns (measured: nat, data: seq<byte>)
    requires register >= 16 && forall op :: op in ops ==> W.Legal(op)
    ensures measured == |data|
    ensures var bits := W.AllBits(ops, 0); BytesToBits(data) == bits + W.Padding(|bits|)
  {
    var measure := new BasicMeasureSize();
    for i := 0 to |ops|
      invariant measure.currPosBits == |W.AllBits(ops[..i], 0)| && measure.prevLargestPos == 0
    {
      assert ops[..i + 1][..i] == ops[..i];
      measure.Apply(ops[i]);
    }
    assert ops[..|ops|] == ops;
    measure.Flush();
    measured := measure.WrittenBytesCount();

    var values, code, completed;
    data, values, code, completed := WriteThenRead(ops, register, register);
  }
}
