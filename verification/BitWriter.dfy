/** The bit-packing writer over the growing output buffer.
    Its reference is a plain list of bits: every operation appends bits to that list. */
module BitWriter {
  import opened Bytes
  import opened Bits
  import opened OutputBuffer

  /** `width` is the width of the value's unsigned type, `size` its size in bytes. */
  datatype Op =
    | WriteBits(value: nat, count: nat, width: nat)
    | WriteBytes(value: nat, size: nat)
    | WriteBuffer(values: seq<nat>, size: nat)
    | Align

  predicate LegalSize(size: nat) {
    size == 1 || size == 2 || size == 4 || size == 8
  }

  predicate AllFit(values: seq<nat>, size: nat) {
    forall i :: 0 <= i < |values| ==> values[i] < Pow2(8 * size)
  }

  /** What the asserts and the types of the source demand of an operation. */
  predicate Legal(op: Op) {
    match op
    case WriteBits(value, count, width) =>
      width % 8 == 0 && LegalSize(width / 8) && 0 < count <= width && value < Pow2(count)
    case WriteBytes(value, size) => LegalSize(size) && value < Pow2(8 * size)
    case WriteBuffer(values, size) => LegalSize(size) && AllFit(values, size)
    case Align => true
  }

  /** Zero bits up to the next byte boundary. */
  function Padding(length: nat): (pad: seq<bool>)
    ensures |pad| < 8 && (length + |pad|) % 8 == 0
  {
    seq((8 - length % 8) % 8, _ => false)
  }

  function ElementBits(values: seq<nat>, size: nat): (bits: seq<bool>)
    ensures |bits| == 8 * BlockSize(|values|, size)
  {
    if values == [] then [] else ToBits(values[0], 8 * size) + ElementBits(values[1..], size)
  }

  lemma {:induction false} ElementBitsAppend(values: seq<nat>, value: nat, size: nat)
    ensures ElementBits(values + [value], size) == ElementBits(values, size) + ToBits(value, 8 * size)
  {
    if values == [] {
      assert (values + [value])[1..] == [];
    } else {
      assert (values + [value])[1..] == values[1..] + [value];
      ElementBitsAppend(values[1..], value, size);
    }
  }

  /** The bits an operation appends to a list of `length` bits. */
  function BitsOf(op: Op, length: nat): seq<bool> {
    match op
    case WriteBits(value, count, _) => ToBits(value, count)
    case WriteBytes(value, size) => ToBits(value, 8 * size)
    case WriteBuffer(values, size) => ElementBits(values, size)
    case Align => Padding(length)
  }

  /** The bits a whole sequence of operations appends. */
  function AllBits(ops: seq<Op>, length: nat): seq<bool> {
    if ops == [] then []
    else
      var last := |ops| - 1;
      var front := AllBits(ops[..last], length);
      front + BitsOf(ops[last], length + |front|)
  }

  /** Bits `0..s` of `merged` are those of `scratch`; above them lies `value`, cut at the register width. */
  ghost predicate Merged(merged: nat, scratch: nat, s: nat, value: nat, register: nat) {
    forall i: nat :: Bit(merged, i) == if i < s then Bit(scratch, i) else i < register && Bit(value, i - s)
  }

  /** Every set bit of `scratch` from `s` on is a bit of `value` at its place: the stray bits the loop
      leaves behind are bits of the value that is still to be emitted. */
  ghost predicate StrayBitsOf(scratch: nat, s: nat, value: nat, register: nat) {
    forall i: nat :: i >= s && Bit(scratch, i) ==> i < register && Bit(value, i - s)
  }

  /** No bit from `s` on: nothing stray is left. */
  ghost predicate Clean(scratch: nat, s: nat) {
    forall i: nat :: i >= s ==> !Bit(scratch, i)
  }

  lemma MergeScratch(scratch: nat, s: nat, value: nat, register: nat)
    requires s < 8 <= register
    requires StrayBitsOf(scratch, s, value, register)
    ensures Merged(Cast(Or(scratch, Shl(Cast(value, register), s)), register), scratch, s, value, register)
  {
    var shifted := Shl(Cast(value, register), s);
    var merged := Cast(Or(scratch, shifted), register);
    forall i: nat
      ensures Bit(merged, i) == if i < s then Bit(scratch, i) else i < register && Bit(value, i - s)
    {
      CastBit(Or(scratch, shifted), register, i);
      OrBit(scratch, shifted, i);
      ShlBit(Cast(value, register), s, i);
      if i >= s { CastBit(value, register, i - s); }
    }
  }

  /** What one emission does: the low byte goes out, and the rest is again scratch plus stray bits. */
  lemma EmitByte(merged: nat, scratch: nat, s: nat, value: nat, bits: nat, register: nat)
    requires s < 8 && bits <= 8 && s + bits >= 8 && register >= 16
    requires Merged(merged, scratch, s, value, register)
    ensures var out := Cast(And(merged, Ones(8)), 8);
            out < 256 && ToBits(out, 8) + ToBits(Shr(merged, 8), s + bits - 8) == ToBits(scratch, s) + ToBits(value, bits)
    ensures bits == 8 ==> StrayBitsOf(Shr(merged, 8), s, Shr(value, 8), register)
    ensures bits < 8 && value < Pow2(bits) ==> Clean(Shr(merged, 8), s + bits - 8)
  {
    var out := Cast(And(merged, Ones(8)), 8);
    CastBound(And(merged, Ones(8)), 8);
    assert Pow2(8) == 256;
    forall i: nat | i < 8 ensures Bit(out, i) == Bit(merged, i) {
      CastBit(And(merged, Ones(8)), 8, i);
      AndBit(merged, Ones(8), i);
      OnesBit(8, i);
    }
    var left := ToBits(out, 8) + ToBits(Shr(merged, 8), s + bits - 8);
    var right := ToBits(scratch, s) + ToBits(value, bits);
    forall i: nat | i < s + bits ensures left[i] == right[i] {
      if i >= 8 { ShrBit(merged, 8, i - 8); }
      assert left[i] == Bit(merged, i);
    }
    forall i: nat | Bit(Shr(merged, 8), i)
      ensures bits == 8 && i >= s ==> i < register && Bit(Shr(value, 8), i - s)
      ensures bits < 8 && value < Pow2(bits) ==> i < s + bits - 8
    {
      ShrBit(merged, 8, i);
      assert i + 8 < register && Bit(value, i + 8 - s);
      if bits == 8 && i >= s {
        ShrBit(value, 8, i - s);
      }
      if bits < 8 && value < Pow2(bits) && i + 8 - s >= bits {
        HighBits(value, bits, i + 8 - s);
      }
    }
  }

  /** The bytes of an array of fixed-size integers in memory. */
  function BufferImage(values: seq<nat>, size: nat): (image: seq<byte>)
    ensures |image| == BlockSize(|values|, size)
  {
    if values == [] then [] else LittleEndian(values[0], size) + BufferImage(values[1..], size)
  }

  lemma {:induction false} BufferImageBits(values: seq<nat>, size: nat)
    ensures BytesToBits(BufferImage(values, size)) == ElementBits(values, size)
  {
    if values != [] {
      BytesToBitsConcat(LittleEndian(values[0], size), BufferImage(values[1..], size));
      LittleEndianBits(values[0], size);
      BufferImageBits(values[1..], size);
    }
  }

  /** No emission: the value's bits join the pending ones. */
  lemma StayPending(merged: nat, scratch: nat, s: nat, value: nat, bits: nat, register: nat)
    requires s + bits < 8 <= register && value < Pow2(bits)
    requires Merged(merged, scratch, s, value, register)
    ensures ToBits(merged, s + bits) == ToBits(scratch, s) + ToBits(value, bits)
    ensures Clean(merged, s + bits)
  {
    forall i: nat | i >= s + bits ensures !Bit(merged, i) {
      HighBits(value, bits, i - s);
    }
  }

  function Chunk(bitsLeft: nat): nat {
    if bitsLeft < 8 then bitsLeft else 8
  }

  lemma AppendChunk(start: seq<bool>, before: seq<bool>, v: nat, done: nat, bits: nat, chunk: seq<bool>)
    requires before == start + ToBits(v, done) && chunk == ToBits(Shr(v, done), bits)
    ensures before + chunk == start + ToBits(v, done + bits)
  {
    ToBitsSplit(v, done, bits);
  }

  /** The loop invariant of the general overload: `value` is what remains of `v`, and while something
      remains the stray bits of the scratch word are bits of it. */
  ghost predicate Remaining(v: nat, done: nat, value: nat, bitsLeft: nat, scratch: nat, s: nat, register: nat) {
    if bitsLeft == 0 then Clean(scratch, s)
    else value == Shr(v, done) && value < Pow2(bitsLeft) && StrayBitsOf(scratch, s, value, register)
  }

  lemma {:induction false} ShrShr(x: nat, m: nat, n: nat)
    ensures Shr(Shr(x, m), n) == Shr(x, m + n)
  {
    if m > 0 { ShrShr(x / 2, m - 1, n); }
  }

  /** When the last byte of a value has gone out, no stray bit remains. */
  lemma NothingLeft(scratch: nat, s: nat, value: nat, register: nat)
    requires value < Pow2(8) && StrayBitsOf(scratch, s, Shr(value, 8), register)
    ensures Clean(scratch, s)
  {
    forall i: nat | i >= s ensures !Bit(scratch, i) {
      ShrBit(value, 8, i - s);
      HighBits(value, 8, i - s + 8);
    }
  }

  /** One chunk of at most eight bits keeps that invariant. */
  lemma NextChunk(v: nat, done: nat, value: nat, bitsLeft: nat, scratch: nat, s: nat, register: nat)
    requires bitsLeft > 0 && value == Shr(v, done) && value < Pow2(bitsLeft)
    requires bitsLeft >= 8 ==> StrayBitsOf(scratch, s, Shr(value, 8), register)
    requires bitsLeft < 8 ==> Clean(scratch, s)
    ensures bitsLeft >= 8 ==> Remaining(v, done + 8, Shr(value, 8), bitsLeft - 8, scratch, s, register)
    ensures bitsLeft < 8 ==> Remaining(v, done + bitsLeft, value, 0, scratch, s, register)
  {
    if bitsLeft == 8 {
      NothingLeft(scratch, s, value, register);
    } else if bitsLeft > 8 {
      LowByteAndRest(value);
      Pow2Eight(bitsLeft - 8);
      ShrShr(v, done, 8);
    }
  }

  lemma OneByte(b: byte)
    ensures BytesToBits([b]) == ToBits(b, 8)
  {
    assert BytesToBits([b]) == ToBits(b, 8) + BytesToBits([]);
  }

  class OutputAdapterBitPackingWrapper {
    const wrapped: OutputBufferAdapter
    /** The width of `uint_fast16_t`, which is the platform's choice. */
    const register: nat
    var scratch: nat
    var scratchBits: nat

    ghost predicate Bounds()
      reads this, wrapped
    {
      && wrapped.Valid() && scratchBits < 8 && register >= 16
    }

    /** Between operations fewer than eight bits are pending and no stray bit is left. */
    ghost predicate Valid()
      reads this, wrapped
    {
      && Bounds()
      && Clean(scratch, scratchBits)
    }

    /** All bits before the position, the pending ones included. */
    ghost function View(): seq<bool>
      requires wrapped.Valid()
      reads this, wrapped
    {
      BytesToBits(wrapped.View().Done()) + ToBits(scratch, scratchBits)
    }

    constructor (adapter: OutputBufferAdapter, registerWidth: nat)
      requires adapter.Valid() && registerWidth >= 16
      ensures wrapped == adapter && register == registerWidth
      ensures Valid() && View() == BytesToBits(adapter.View().Done())
    {
      wrapped := adapter;
      register := registerWidth;
      scratch := 0;
      scratchBits := 0;
      new;
      forall i: nat ensures !Bit(0, i) { ZeroBit(i); }
    }

    /** The emission both overloads share: the low byte of the scratch word goes to the adapter. */
    method EmitLowByte(ghost was: nat, ghost s: nat, ghost value: nat, ghost bits: nat)
      requires wrapped.Valid()
      requires s < 8 && bits <= 8 && scratchBits == s + bits >= 8 && register >= 16
      requires Merged(scratch, was, s, value, register)
      modifies this, wrapped
      ensures Bounds() && scratchBits == s + bits - 8
      ensures Wrote(old(wrapped.View()), wrapped.View())
      ensures View() == BytesToBits(old(wrapped.View()).Done()) + ToBits(was, s) + ToBits(value, bits)
      ensures bits == 8 ==> StrayBitsOf(scratch, scratchBits, Shr(value, 8), register)
      ensures bits < 8 && value < Pow2(bits) ==> Clean(scratch, scratchBits)
    {
      hide Or, Shl, Shr, And, Cast, Ones, Bit, Merged, StrayBitsOf, Clean, Pow2, BytesToBits, Wrote;
      hide Tape.Write, Tape.Done, OutputBufferAdapter.Valid, OutputBufferAdapter.View, OutputBufferAdapter.WrittenBytesCount;
      EmitByte(scratch, was, s, value, bits, register);
      var out := Cast(And(scratch, Ones(8)), 8);
      ghost var before := wrapped.View().Done();
      WriteWrote(wrapped.View(), [out]);
      wrapped.Write([out]);
      BytesToBitsConcat(before, [out]);
      OneByte(out);
      scratch := Shr(scratch, 8);
      scratchBits := scratchBits - 8;
      assert View() == BytesToBits(before) + (ToBits(out, 8) + ToBits(scratch, scratchBits));
      assert View() == BytesToBits(before) + (ToBits(was, s) + ToBits(value, bits));
    }

    /** The loop body, which is also the whole of the byte overload: merge the unmasked value into the
        scratch word, and emit the low byte if there is one. */
    method WriteChunk(ghost v: nat, ghost done: nat, value: nat, bitsLeft: nat) returns (rest: nat)
      requires Bounds() && bitsLeft > 0
      requires Remaining(v, done, value, bitsLeft, scratch, scratchBits, register)
      modifies this, wrapped
      ensures Bounds()
      ensures Wrote(old(wrapped.View()), wrapped.View())
      ensures Remaining(v, done + Chunk(bitsLeft), rest, bitsLeft - Chunk(bitsLeft), scratch, scratchBits, register)
      ensures View() == old(View()) + ToBits(value, Chunk(bitsLeft))
    {
      hide Or, Shl, Shr, Cast, Bit, Merged, StrayBitsOf, Clean, Pow2, ToBits, BytesToBits, Tape.Write, Tape.Seek, Tape.AtEnd;
      hide OutputBufferAdapter.Valid, OutputBufferAdapter.View, OutputBufferAdapter.WrittenBytesCount;
      var bits := Chunk(bitsLeft);
      ghost var was, s := scratch, scratchBits;
      ghost var bytes := BytesToBits(wrapped.View().Done());
      MergeScratch(scratch, scratchBits, value, register);
      scratch := Cast(Or(scratch, Shl(Cast(value, register), scratchBits)), register);
      scratchBits := scratchBits + bits;
      rest := value;
      if scratchBits >= 8 {
        EmitLowByte(was, s, value, bits);
        rest := Shr(value, 8);
      } else {
        StayPending(scratch, was, s, value, bits, register);
        WroteNothing(wrapped.View());
      }
      NextChunk(v, done, value, bitsLeft, scratch, scratchBits, register);
      assert View() == (bytes + ToBits(was, s)) + ToBits(value, bits);
    }

    /** The general overload: eight bits at a time, the value not masked before it is merged. */
    method WriteBitsInternal(v: nat, size: nat)
      requires Valid() && v < Pow2(size)
      modifies this, wrapped
      ensures Valid() && View() == old(View()) + ToBits(v, size)
      ensures Wrote(old(wrapped.View()), wrapped.View())
    {
      var value := v;
      var bitsLeft := size;
      ghost var done := 0;
      WroteNothing(wrapped.View());
      while bitsLeft > 0
        invariant Bounds() && bitsLeft >= 0 && done + bitsLeft == size
        invariant Remaining(v, done, value, bitsLeft, scratch, scratchBits, register)
        invariant View() == old(View()) + ToBits(v, done) && Wrote(old(wrapped.View()), wrapped.View())
      {
        var bits := Chunk(bitsLeft);
        ghost var before, tape := View(), wrapped.View();
        ghost var chunk := ToBits(value, bits);
        value := WriteChunk(v, done, value, bitsLeft);
        AppendChunk(old(View()), before, v, done, bits, chunk);
        WroteChain(old(wrapped.View()), tape, wrapped.View());
        bitsLeft := bitsLeft - bits;
        done := done + bits;
      }
    }

    /** The overload for the adapter's own byte type: at most eight bits, so at most one emission. */
    method WriteByteBitsInternal(v: nat, size: nat)
      requires Valid() && size <= 8 && v < Pow2(size)
      modifies this, wrapped
      ensures Valid() && View() == old(View()) + ToBits(v, size)
      ensures Wrote(old(wrapped.View()), wrapped.View())
    {
      WroteNothing(wrapped.View());
      if size > 0 {
        var rest := WriteChunk(v, 0, v, size);
      }
    }

    method WriteBits(v: nat, bitsCount: nat, width: nat)
      requires Valid() && Legal(Op.WriteBits(v, bitsCount, width))
      modifies this, wrapped
      ensures Valid() && View() == old(View()) + ToBits(v, bitsCount)
      ensures Wrote(old(wrapped.View()), wrapped.View())
    {
      if width == 8 {
        WriteByteBitsInternal(v, bitsCount);
      } else {
        WriteBitsInternal(v, bitsCount);
      }
    }

    /** The direct path: nothing is pending, so bytes go straight to the adapter. */
    method WriteAligned(bytes: seq<byte>)
      requires Valid() && scratchBits == 0
      modifies wrapped
      ensures Valid() && View() == old(View()) + BytesToBits(bytes)
      ensures Wrote(old(wrapped.View()), wrapped.View())
    {
      ghost var before := wrapped.View().Done();
      WriteWrote(wrapped.View(), bytes);
      wrapped.Write(bytes);
      BytesToBitsConcat(before, bytes);
    }

    /** The scratch path for a whole value; the overload follows from the value's type. */
    method WriteUnaligned(v: nat, size: nat)
      requires Valid() && v < Pow2(8 * size)
      modifies this, wrapped
      ensures Valid() && View() == old(View()) + ToBits(v, 8 * size)
      ensures Wrote(old(wrapped.View()), wrapped.View())
    {
      if size == 1 {
        WriteByteBitsInternal(v, 8);
      } else {
        WriteBitsInternal(v, 8 * size);
      }
    }

    method WriteBytes(v: nat, size: nat)
      requires Valid() && Legal(Op.WriteBytes(v, size))
      modifies this, wrapped
      ensures Valid() && View() == old(View()) + ToBits(v, 8 * size)
      ensures Wrote(old(wrapped.View()), wrapped.View())
    {
      if scratchBits == 0 {
        LittleEndianBits(v, size);
        WriteAligned(LittleEndian(v, size));
      } else {
        WriteUnaligned(v, size);
      }
    }

    method WriteBuffer(values: seq<nat>, size: nat)
      requires Valid() && Legal(Op.WriteBuffer(values, size))
      modifies this, wrapped
      ensures Valid() && View() == old(View()) + ElementBits(values, size)
      ensures Wrote(old(wrapped.View()), wrapped.View())
    {
      hide BytesToBits, Clean, ElementBits, BufferImage, Tape.Write, Tape.Done, Wrote;
      if scratchBits == 0 {
        BufferImageBits(values, size);
        WriteAligned(BufferImage(values, size));
      } else {
        var i := 0;
        WroteNothing(wrapped.View());
        while i < |values|
          invariant 0 <= i <= |values| && Valid() && Wrote(old(wrapped.View()), wrapped.View())
          invariant View() == old(View()) + ElementBits(values[..i], size)
        {
          assert values[..i + 1] == values[..i] + [values[i]];
          ElementBitsAppend(values[..i], values[i], size);
          ghost var tape := wrapped.View();
          WriteUnaligned(values[i], size);
          WroteChain(old(wrapped.View()), tape, wrapped.View());
          i := i + 1;
        }
        assert values[..i] == values;
      }
    }

    method Align()
      requires Valid()
      modifies this, wrapped
      ensures Valid() && scratchBits == 0
      ensures Wrote(old(wrapped.View()), wrapped.View())
      ensures View() == old(View()) + Padding(|old(View())|)
    {
      hide BytesToBits, Clean;
      var count := (8 - scratchBits) % 8;
      ghost var before := View();
      assert |before| % 8 == scratchBits % 8;
      assert ToBits(0, count) == Padding(|before|) by {
        forall i: nat ensures !Bit(0, i) { ZeroBit(i); }
      }
      WriteByteBitsInternal(0, count);
      assert |View()| % 8 == 0;
    }

    method Flush()
      requires Valid()
      modifies this, wrapped
      ensures Valid() && scratchBits == 0
      ensures Wrote(old(wrapped.View()), wrapped.View())
      ensures BytesToBits(wrapped.View().Done()) == View() == old(View()) + Padding(|old(View())|)
    {
      Align();
      assert ToBits(scratch, 0) == [];
    }

    /** A seek first brings the bits to a byte boundary. */
    method SetCurrentWritePos(pos: nat)
      requires Valid()
      modifies this, wrapped
      ensures Valid() && scratchBits == 0 && wrapped.View().pos == pos
      ensures exists aligned: Tape {:trigger Wrote(old(wrapped.View()), aligned)} ::
                Wrote(old(wrapped.View()), aligned) && BytesToBits(aligned.Done()) == old(View()) + Padding(|old(View())|) &&
                (pos <= |aligned.bytes| ==> wrapped.View() == aligned.Seek(pos)) &&
                (pos > |aligned.bytes| ==> wrapped.View().AtEnd() && aligned.bytes <= wrapped.View().bytes)
    {
      Flush();
      ghost var aligned := wrapped.View();
      wrapped.SetCurrentWritePos(pos);
      assert Wrote(old(wrapped.View()), aligned);
    }

    method Apply(op: Op)
      requires Valid() && Legal(op)
      modifies this, wrapped
      ensures Valid() && View() == old(View()) + BitsOf(op, |old(View())|)
      ensures Wrote(old(wrapped.View()), wrapped.View())
    {
      match op
      case WriteBits(value, count, width) => WriteBits(value, count, width);
      case WriteBytes(value, size) => WriteBytes(value, size);
      case WriteBuffer(values, size) => WriteBuffer(values, size);
      case Align => Align();
    }
  }
}
