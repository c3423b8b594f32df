/** The bit-unpacking reader over the input buffer.
    Its reference holds the pending bits as a list and fetches whole bytes when the list is too short. */
module BitReader {
  import opened Bytes
  import opened Bits
  import opened InputBuffer

  /** The integers whose memory image a block of bytes is. */
  function FromImage(bytes: seq<byte>, count: nat, size: nat): (values: seq<nat>)
    requires |bytes| == BlockSize(count, size)
    ensures |values| == count
    decreases count
  {
    if count == 0 then []
    else
      [FromLittleEndian(bytes[..size])] + FromImage(bytes[size..], count - 1, size)
  }

  datatype BitSource = BitSource(reader: Reader, pending: seq<bool>) {
    predicate Valid() {
      reader.Valid()
    }

    function Fetch(): (s: BitSource)
      requires Valid()
      ensures s.Valid() && |s.pending| == |pending| + 8
    {
      var (bytes, next) := reader.Read(1);
      BitSource(next, pending + ToBits(bytes[0], 8))
    }

    /** The next `count` bits. */
    function Take(count: nat): (r: (seq<bool>, BitSource))
      requires Valid()
      ensures r.1.Valid() && |r.0| == count
      decreases if count <= |pending| then 0 else count - |pending|
    {
      if count <= |pending| then (pending[..count], BitSource(reader, pending[count..]))
      else Fetch().Take(count)
    }

    /** A whole value: straight from the adapter when no bit is pending. */
    function TakeBytes(size: nat): (r: (seq<bool>, BitSource))
      requires Valid()
      ensures r.1.Valid() && |r.0| == 8 * size
    {
      if pending == [] then
        var (bytes, next) := reader.Read(size);
        (BytesToBits(bytes), BitSource(next, []))
      else Take(8 * size)
    }

    function TakeElements(count: nat, size: nat): (r: (seq<nat>, BitSource))
      requires Valid()
      ensures r.1.Valid() && |r.0| == count
      decreases count
    {
      if count == 0 then ([], this)
      else
        var (bits, next) := Take(8 * size);
        var (values, last) := next.TakeElements(count - 1, size);
        ([FromBits(bits)] + values, last)
    }

    /** An array: one read of the whole block when no bit is pending, element by element otherwise. */
    function TakeBuffer(count: nat, size: nat): (r: (seq<nat>, BitSource))
      requires Valid()
      ensures r.1.Valid() && |r.0| == count
    {
      if pending == [] then
        var (bytes, next) := reader.Read(BlockSize(count, size));
        (FromImage(bytes, count, size), BitSource(next, []))
      else TakeElements(count, size)
    }

    /** Drop the pending bits; a set bit among them is an error. */
    function Align(): (s: BitSource)
      requires Valid()
      ensures s.Valid() && s.pending == []
    {
      BitSource(if true in pending then reader.Report(INVALID_DATA) else reader, [])
    }

    /** The bits that are still to come, for a source that is not in error. */
    ghost function Stream(): seq<bool>
      requires Valid() && reader.Reading?
    {
      pending + BytesToBits(reader.data[reader.pos..reader.end])
    }
  }

  lemma FetchStream(s: BitSource)
    requires s.Valid() && s.reader.Reading? && |s.Stream()| > |s.pending|
    ensures s.Fetch().reader.Reading? && s.Fetch().Stream() == s.Stream()
    ensures s.Fetch().reader == s.reader.(pos := s.reader.pos + 1)
  {
    var rest := s.reader.data[s.reader.pos..s.reader.end];
    assert rest[1..] == s.reader.data[s.reader.pos + 1..s.reader.end];
    assert s.Stream() == s.pending + (ToBits(rest[0], 8) + BytesToBits(rest[1..]));
  }

  /** Only the last fetched byte can be left over. */
  lemma {:induction false} TakeMore(s: BitSource, count: nat)
    requires s.Valid() && count > |s.pending|
    ensures |s.Take(count).1.pending| < 8
    decreases count - |s.pending|
  {
    if count > |s.Fetch().pending| {
      TakeMore(s.Fetch(), count);
    }
  }

  /** Taking bits takes them from the front of the stream, however the bytes fall. */
  lemma {:induction false} TakeStream(s: BitSource, count: nat)
    requires s.Valid() && s.reader.Reading? && count <= |s.Stream()|
    ensures var (bits, next) := s.Take(count);
            next.reader.Reading? && bits == s.Stream()[..count] && next.Stream() == s.Stream()[count..]
    ensures s.Take(count).1.reader.Reading? && s.Take(count).1.reader.strict == s.reader.strict
    ensures s.Take(count).1.reader.data == s.reader.data && s.Take(count).1.reader.end == s.reader.end
    ensures |s.pending| < 8 ==> |s.Take(count).1.pending| < 8
    decreases if count <= |s.pending| then 0 else count - |s.pending|
  {
    if count > |s.pending| {
      FetchStream(s);
      if count <= |s.Fetch().pending| {
        assert |s.pending| < 8 ==> |s.Fetch().pending[count..]| < 8;
      } else {
        TakeMore(s, count);
      }
      TakeStream(s.Fetch(), count);
    }
  }

  function Falses(count: nat): (bits: seq<bool>)
    ensures |bits| == count && true !in bits
  {
    seq(count, _ => false)
  }

  /** Where nothing can be read any more, zero bits follow the pending ones and the reader stays as it is. */
  lemma {:induction false} TakeFromNothing(s: BitSource, count: nat)
    requires s.Valid() && s.reader.Read(1) == (Zeros(1), s.reader) && count >= |s.pending|
    ensures s.Take(count).0 == s.pending + Falses(count - |s.pending|) && s.Take(count).1.reader == s.reader
    decreases count - |s.pending|
  {
    if count > |s.pending| {
      forall i | 0 <= i < 8 ensures !Bit(0, i) { ZeroBit(i); }
      assert ToBits(0, 8) == Falses(8);
      var next := s.Fetch();
      assert next == BitSource(s.reader, s.pending + Falses(8));
      if count >= |next.pending| {
        TakeFromNothing(next, count);
        assert Falses(8) + Falses(count - |next.pending|) == Falses(count - |s.pending|);
      } else {
        assert next.pending[..count] == s.pending + Falses(count - |s.pending|);
      }
    }
  }

  /** More bits than there are: those that are there, then zeros; an error outside of sections only. */
  lemma {:induction false} TakeOverruns(s: BitSource, count: nat)
    requires s.Valid() && s.reader.Reading? && count > |s.Stream()|
    ensures s.Take(count).0 == s.Stream() + Falses(count - |s.Stream()|)
    ensures s.Take(count).1.reader == if s.reader.strict then Failed(2, false) else s.reader.(pos := s.reader.end)
    decreases count - |s.pending|
  {
    if s.reader.pos < s.reader.end {
      FetchStream(s);
      TakeOverruns(s.Fetch(), count);
    } else {
      assert s.Stream() == s.pending;
      forall i | 0 <= i < 8 ensures !Bit(0, i) { ZeroBit(i); }
      assert ToBits(0, 8) == Falses(8);
      var next := s.Fetch();
      assert next.pending == s.pending + Falses(8);
      if count >= |next.pending| {
        TakeFromNothing(next, count);
        assert Falses(8) + Falses(count - |next.pending|) == Falses(count - |s.pending|);
      } else {
        assert next.pending[..count] == s.pending + Falses(count - |s.pending|);
      }
    }
  }

  lemma CutSlice<T>(s: seq<T>, start: nat, end: nat, count: nat)
    requires start <= start + count <= end <= |s|
    ensures s[start..end][..count] == s[start..start + count] && s[start..end][count..] == s[start + count..end]
  {
  }

  lemma TakeBytesStream(s: BitSource, size: nat)
    requires s.Valid() && s.reader.Reading? && 8 * size <= |s.Stream()|
    ensures var (bits, next) := s.TakeBytes(size);
            next.reader.Reading? && bits == s.Stream()[..8 * size] && next.Stream() == s.Stream()[8 * size..]
    ensures s.TakeBytes(size).1.reader.Reading? && s.TakeBytes(size).1.reader.strict == s.reader.strict
    ensures s.TakeBytes(size).1.reader.data == s.reader.data && s.TakeBytes(size).1.reader.end == s.reader.end
    ensures |s.pending| < 8 ==> |s.TakeBytes(size).1.pending| < 8
  {
    if s.pending == [] {
      var r := s.reader;
      var rest := r.data[r.pos..r.end];
      assert rest == rest[..size] + rest[size..];
      BytesToBitsConcat(rest[..size], rest[size..]);
      CutSlice(r.data, r.pos, r.end, size);
      assert s.Stream() == BytesToBits(rest);
      assert s.TakeBytes(size).1.Stream() == BytesToBits(rest[size..]);
    } else {
      TakeStream(s, 8 * size);
    }
  }

  lemma {:induction false} TakeAfterDrop(s: BitSource, first: nat, second: nat)
    requires s.Valid() && first <= |s.pending|
    ensures var (b, last) := BitSource(s.reader, s.pending[first..]).Take(second);
            s.Take(first + second) == (s.pending[..first] + b, last)
    decreases if first + second <= |s.pending| then 0 else first + second - |s.pending|
  {
    var dropped := BitSource(s.reader, s.pending[first..]);
    if first + second <= |s.pending| {
      assert s.pending[..first + second] == s.pending[..first] + dropped.pending[..second];
      assert s.pending[first..][second..] == s.pending[first + second..];
    } else {
      assert dropped.Fetch() == BitSource(s.Fetch().reader, s.Fetch().pending[first..]);
      assert s.Fetch().pending[..first] == s.pending[..first];
      TakeAfterDrop(s.Fetch(), first, second);
    }
  }

  /** Taking bits in two steps is taking them at once: the reader may fetch chunk by chunk. */
  lemma {:induction false} TakeSplits(s: BitSource, first: nat, second: nat)
    requires s.Valid()
    ensures var (a, mid) := s.Take(first);
            var (b, last) := mid.Take(second);
            s.Take(first + second) == (a + b, last)
    decreases if first <= |s.pending| then 0 else first - |s.pending|, second
  {
    if first <= |s.pending| {
      TakeAfterDrop(s, first, second);
    } else {
      TakeSplits(s.Fetch(), first, second);
      if second == 0 {
        assert s.Take(first + second) == s.Fetch().Take(first + second);
      }
    }
  }

  lemma {:induction false} NoHighBits(x: nat, n: nat)
    requires forall i: nat :: i >= n ==> !Bit(x, i)
    ensures x < Pow2(n)
  {
    forall i: nat ensures Bit(x, i) == Bit(Cast(x, n), i) { CastBit(x, n, i); }
    BitsDetermine(x, Cast(x, n));
    CastBound(x, n);
  }

  /** A fetched byte lands above the pending bits, inside the register. */
  lemma MergeFetched(scratch: nat, s: nat, tmp: byte, register: nat)
    requires s < 8 && scratch < Pow2(s) && register >= 16
    ensures var merged := Cast(Or(scratch, Shl(tmp, s)), register);
            ToBits(merged, s + 8) == ToBits(scratch, s) + ToBits(tmp, 8) && merged < Pow2(s + 8)
  {
    var merged := Cast(Or(scratch, Shl(tmp, s)), register);
    assert Pow2(8) == 256;
    forall i: nat
      ensures Bit(merged, i) == if i < s then Bit(scratch, i) else i < s + 8 && Bit(tmp, i - s)
    {
      CastBit(Or(scratch, Shl(tmp, s)), register, i);
      OrBit(scratch, Shl(tmp, s), i);
      ShlBit(tmp, s, i);
      if i >= s { HighBits(scratch, s, i); }
      if i >= s + 8 { HighBits(tmp, 8, i - s); }
    }
    NoHighBits(merged, s + 8);
  }

  /** Mask and shift split the scratch word. */
  lemma SplitScratch(scratch: nat, s: nat, bits: nat)
    requires bits <= s && scratch < Pow2(s)
    ensures ToBits(And(scratch, Ones(bits)), bits) == ToBits(scratch, s)[..bits]
    ensures ToBits(Shr(scratch, bits), s - bits) == ToBits(scratch, s)[bits..]
    ensures And(scratch, Ones(bits)) < Pow2(bits) && Shr(scratch, bits) < Pow2(s - bits)
  {
    forall i: nat
      ensures Bit(And(scratch, Ones(bits)), i) == (i < bits && Bit(scratch, i))
      ensures Bit(Shr(scratch, bits), i) == Bit(scratch, i + bits)
      ensures i >= s - bits ==> !Bit(Shr(scratch, bits), i)
    {
      AndBit(scratch, Ones(bits), i);
      OnesBit(bits, i);
      ShrBit(scratch, bits, i);
      if i >= s - bits { HighBits(scratch, s, i + bits); }
    }
    NoHighBits(And(scratch, Ones(bits)), bits);
    NoHighBits(Shr(scratch, bits), s - bits);
  }

  lemma AccumulateChunk(res: nat, done: nat, chunk: nat, bits: nat)
    requires res < Pow2(done) && chunk < Pow2(bits)
    ensures ToBits(Or(res, Shl(chunk, done)), done + bits) == ToBits(res, done) + ToBits(chunk, bits)
    ensures Or(res, Shl(chunk, done)) < Pow2(done + bits)
  {
    forall i: nat
      ensures Bit(Or(res, Shl(chunk, done)), i)
           == if i < done then Bit(res, i) else i < done + bits && Bit(chunk, i - done)
    {
      OrBit(res, Shl(chunk, done), i);
      ShlBit(chunk, done, i);
      if i >= done { HighBits(res, done, i); }
      if i >= done + bits { HighBits(chunk, bits, i - done); }
    }
    NoHighBits(Or(res, Shl(chunk, done)), done + bits);
  }

  lemma NonzeroIffBitSet(x: nat, n: nat)
    requires x < Pow2(n)
    ensures x != 0 <==> true in ToBits(x, n)
  {
    forall i: nat ensures !Bit(0, i) { ZeroBit(i); }
    if true !in ToBits(x, n) {
      forall i: nat ensures Bit(x, i) == Bit(0, i) {
        if i < n {
          assert ToBits(x, n)[i] == Bit(x, i);
        } else {
          HighBits(x, n, i);
        }
      }
      BitsDetermine(x, 0);
    }
  }

  class InputAdapterBitPackingWrapper {
    const wrapped: InputBufferAdapter
    const register: nat
    var scratch: nat
    var scratchBits: nat

    ghost predicate Valid()
      reads this, wrapped
    {
      && wrapped.Valid() && register >= 16
      && scratchBits < 8 && scratch < Pow2(scratchBits)
    }

    ghost function View(): (s: BitSource)
      requires wrapped.Valid()
      reads this, wrapped
      ensures s.Valid()
    {
      BitSource(wrapped.View(), ToBits(scratch, scratchBits))
    }

    constructor (adapter: InputBufferAdapter, registerWidth: nat)
      requires adapter.Valid() && registerWidth >= 16
      ensures wrapped == adapter && register == registerWidth
      ensures Valid() && View() == BitSource(adapter.View(), [])
    {
      wrapped := adapter;
      register := registerWidth;
      scratch := 0;
      scratchBits := 0;
      new;
      assert ToBits(scratch, 0) == [];
    }

    /** One chunk of at most eight bits, fetching a byte first when the scratch word is too short. */
    method ReadChunk(bits: nat) returns (chunk: nat)
      requires Valid() && 0 < bits <= 8
      modifies this, wrapped
      ensures Valid()
      ensures (ToBits(chunk, bits), View()) == old(View()).Take(bits)
      ensures chunk < Pow2(bits)
    {
      hide Or, Shl, Shr, And, Cast, Ones, Pow2;
      ghost var before := View();
      if scratchBits < bits {
        var bytes := wrapped.ReadBytes(1);
        var tmp := bytes[0];
        ghost var was, s := scratch, scratchBits;
        scratch := Cast(Or(scratch, Shl(tmp, scratchBits)), register);
        scratchBits := scratchBits + 8;
        MergeFetched(was, s, tmp, register);
        assert View() == before.Fetch();
      }
      ghost var full := ToBits(scratch, scratchBits);
      SplitScratch(scratch, scratchBits, bits);
      chunk := And(scratch, Ones(bits));
      scratch := Shr(scratch, bits);
      scratchBits := scratchBits - bits;
      assert ToBits(scratch, scratchBits) == full[bits..] && ToBits(chunk, bits) == full[..bits];
    }

    method ReadBitsInternal(size: nat) returns (v: nat)
      requires Valid()
      modifies this, wrapped
      ensures Valid()
      ensures (ToBits(v, size), View()) == old(View()).Take(size)
      ensures v < Pow2(size)
    {
      hide Pow2, Or, Shl, BitSource.Fetch;
      var bitsLeft := size;
      var res: nat := 0;
      ghost var done := 0;
      assert ToBits(0, 0) == [] && old(View()).pending[..0] == [] && old(View()).pending[0..] == old(View()).pending;
      while bitsLeft > 0
        invariant Valid() && bitsLeft >= 0 && done + bitsLeft == size
        invariant (ToBits(res, done), View()) == old(View()).Take(done)
        invariant res < Pow2(done)
      {
        var bits := if bitsLeft < 8 then bitsLeft else 8;
        TakeSplits(old(View()), done, bits);
        var chunk := ReadChunk(bits);
        AccumulateChunk(res, done, chunk, bits);
        res := Or(res, Shl(chunk, size - bitsLeft));
        bitsLeft := bitsLeft - bits;
        done := done + bits;
      }
      v := res;
    }

    method ReadBits(bitsCount: nat) returns (v: nat)
      requires Valid()
      modifies this, wrapped
      ensures Valid()
      ensures v == FromBits(old(View()).Take(bitsCount).0) && View() == old(View()).Take(bitsCount).1
    {
      v := ReadBitsInternal(bitsCount);
      FromToBits(v, bitsCount);
    }

    method ReadBytes(size: nat) returns (v: nat)
      requires Valid()
      modifies this, wrapped
      ensures Valid()
      ensures v == FromBits(old(View()).TakeBytes(size).0) && View() == old(View()).TakeBytes(size).1
    {
      assert scratchBits == 0 <==> View().pending == [];
      if scratchBits == 0 {
        var bytes := wrapped.ReadBytes(size);
        v := FromLittleEndian(bytes);
        FromBitsOfBytes(bytes);
      } else {
        v := ReadBits(8 * size);
      }
    }

    method ReadBuffer(count: nat, size: nat) returns (values: seq<nat>)
      requires Valid()
      modifies this, wrapped
      ensures Valid()
      ensures (values, View()) == old(View()).TakeBuffer(count, size)
    {
      hide BitSource.Take, FromBits, Pow2, FromImage;
      assert scratchBits == 0 <==> View().pending == [];
      if scratchBits == 0 {
        var bytes := wrapped.ReadBytes(BlockSize(count, size));
        values := FromImage(bytes, count, size);
      } else {
        values := [];
        ghost var (all, end) := View().TakeElements(count, size);
        for i := 0 to count
          invariant Valid()
          invariant values + View().TakeElements(count - i, size).0 == all
          invariant View().TakeElements(count - i, size).1 == end
        {
          var v := ReadBits(8 * size);
          values := values + [v];
        }
        assert values + [] == values;
      }
    }

    method Align()
      requires Valid()
      modifies this, wrapped
      ensures Valid() && scratchBits == 0 && View() == old(View()).Align()
    {
      if scratchBits > 0 {
        ghost var pending := View().pending;
        assert pending[..scratchBits] == pending && pending[scratchBits..] == [];
        var tmp := ReadBitsInternal(scratchBits);
        NonzeroIffBitSet(tmp, |pending|);
        if tmp != 0 {
          wrapped.Report(INVALID_DATA);
        }
      } else {
        assert View().pending == [];
      }
    }

    /** A seek drops the pending bits first. */
    method SetCurrentReadPos(pos: nat)
      requires Valid()
      modifies this, wrapped
      ensures Valid() && View() == BitSource(old(View()).Align().reader.Seek(pos), [])
    {
      Align();
      wrapped.SetCurrentReadPos(pos);
    }
  }
}
