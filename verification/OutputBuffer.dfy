/** The output side of the buffer adapter: a growing, seekable buffer.
    `Tape` is the reference: the bytes written so far and a position in them. */
module OutputBuffer {
  import opened Bytes

  datatype Tape = Tape(bytes: seq<byte>, pos: nat) {
    predicate Valid() {
      pos <= |bytes|
    }

    /** Overwrite from the position on, extending the tape where it ends. */
    function Write(data: seq<byte>): (t: Tape)
      requires Valid()
      ensures t.Valid() && |t.bytes| >= |bytes|
    {
      var newPos := pos + |data|;
      Tape(bytes[..pos] + data + (if newPos < |bytes| then bytes[newPos..] else []), newPos)
    }

    /** What lies behind the next `count` bytes. */
    function Tail(count: nat): seq<byte> {
      if pos + count < |bytes| then bytes[pos + count..] else []
    }

    function Seek(target: nat): (t: Tape)
      requires target <= |bytes|
      ensures t.Valid()
    {
      Tape(bytes, target)
    }

    /** The bytes up to the position. */
    function Done(): seq<byte>
      requires Valid()
    {
      bytes[..pos]
    }

    predicate AtEnd() {
      pos == |bytes|
    }
  }

  lemma WritesJoin(t: Tape, a: seq<byte>, b: seq<byte>)
    requires t.Valid()
    ensures t.Write(a).Write(b) == t.Write(a + b)
  {
    assert t.Write(a).Write(b).bytes == t.Write(a + b).bytes;
  }

  lemma WriteShape(t: Tape, data: seq<byte>)
    requires t.Valid()
    ensures t.Write(data) == Tape(t.bytes[..t.pos] + data + t.Tail(|data|), t.pos + |data|)
  {
  }

  /** `after` is `before` with some bytes written: what lies behind them is untouched. */
  ghost predicate Wrote(before: Tape, after: Tape)
    requires before.Valid()
  {
    before.pos <= after.pos <= |after.bytes| && after == before.Write(after.bytes[before.pos..after.pos])
  }

  lemma WriteWrote(t: Tape, data: seq<byte>)
    requires t.Valid()
    ensures Wrote(t, t.Write(data)) && t.Write(data).Done() == t.Done() + data
  {
    assert t.Write(data).bytes[t.pos..t.pos + |data|] == data;
  }

  lemma WroteNothing(t: Tape)
    requires t.Valid()
    ensures Wrote(t, t)
  {
    assert t.bytes[t.pos..t.pos] == [] && t.Write([]) == t;
  }

  lemma WroteChain(a: Tape, b: Tape, c: Tape)
    requires a.Valid() && Wrote(a, b) && Wrote(b, c)
    ensures Wrote(a, c)
  {
    var first, second := b.bytes[a.pos..b.pos], c.bytes[b.pos..c.pos];
    WritesJoin(a, first, second);
    hide Tape.Write, Wrote;
    WriteWrote(a, first + second);
  }

  lemma WroteAtEnd(before: Tape, after: Tape)
    requires before.AtEnd() && Wrote(before, after)
    ensures after.AtEnd() && after.Done() == after.bytes
  {
  }

  /** Seeking back, overwriting and returning changes the overwritten slice and nothing else. */
  lemma BackPatch(t: Tape, start: nat, patch: seq<byte>)
    requires t.Valid() && start + |patch| <= |t.bytes|
    ensures t.Seek(start).Write(patch).Seek(t.pos)
         == Tape(t.bytes[..start] + patch + t.bytes[start + |patch|..], t.pos)
  {
    assert start + |patch| == |t.bytes| ==> t.bytes[start + |patch|..] == [];
  }

  /** A header written as a placeholder and patched once the body is written might have been written at once. */
  lemma PatchedHeader(t: Tape, placeholder: seq<byte>, patch: seq<byte>, body: seq<byte>)
    requires t.Valid() && |placeholder| == |patch|
    ensures t.Write(placeholder + body).Seek(t.pos).Write(patch).Seek(t.pos + |patch + body|) == t.Write(patch + body)
  {
    hide Tape.Write;
    var written, tail := t.Write(placeholder + body), t.Tail(|patch + body|);
    WriteShape(t, placeholder + body);
    WriteShape(t, patch + body);
    BackPatch(written, t.pos, patch);
    assert t.bytes[..t.pos] + (placeholder + body) + tail == (t.bytes[..t.pos] + placeholder) + (body + tail);
    assert written.bytes[t.pos + |patch|..] == body + tail;
    assert t.bytes[..t.pos] + patch + (body + tail) == t.bytes[..t.pos] + (patch + body) + tail;
  }

  /** The size the buffer is resized to when it is full, `capacity` being what the container already owns: growth is
      geometric, to the one whole number of cache lines there is in a range of 64 sizes. */
  function GrownSize(size: nat, capacity: nat): (grown: nat)
    ensures 2 * grown > 3 * size && grown > size && grown >= capacity
    ensures grown != capacity ==> size * 3 / 2 + 64 < grown <= size * 3 / 2 + 128 && grown % 64 == 0
    ensures grown > size * 3 / 2 + 64
  {
    var newSize := size * 3 / 2 + 128;
    var rounded := newSize - newSize % 64;
    if rounded < capacity then capacity else rounded
  }

  class OutputBufferAdapter {
    var buffer: seq<byte>
    var capacity: nat
    var currOffset: nat
    var bufferSize: nat
    var biggestCurrentPos: nat

    ghost predicate Valid()
      reads this
    {
      && bufferSize == |buffer| <= capacity
      && currOffset <= bufferSize
      && biggestCurrentPos <= bufferSize
    }

    function WrittenBytesCount(): (count: nat)
      requires Valid()
      reads this
      ensures currOffset <= count <= |buffer|
    {
      if currOffset > biggestCurrentPos then currOffset else biggestCurrentPos
    }

    ghost function View(): (t: Tape)
      requires Valid()
      reads this
      ensures t.Valid()
    {
      Tape(buffer[..WrittenBytesCount()], currOffset)
    }

    constructor (initial: seq<byte>)
      ensures Valid() && View() == Tape([], 0)
    {
      buffer := initial;
      capacity := |initial|;
      currOffset := 0;
      bufferSize := |initial|;
      biggestCurrentPos := 0;
      new;
      if |initial| == 0 {
        IncreaseBufferSize();
      }
    }

    /** Grow the container; `vector::resize` appends zero bytes and may reserve more than it was asked for. */
    method IncreaseBufferSize()
      requires Valid()
      modifies this`buffer, this`capacity, this`bufferSize
      ensures Valid()
      ensures |buffer| == GrownSize(old(|buffer|), old(capacity))
      ensures buffer == old(buffer) + Zeros(|buffer| - old(|buffer|))
    {
      var newSize := GrownSize(|buffer|, capacity);
      buffer := buffer + Zeros(newSize - |buffer|);
      var reserved :| reserved >= |buffer|;
      capacity := reserved;
      bufferSize := |buffer|;
    }

    /** The retry recursion of the source: it ends because every growth step strictly enlarges the buffer. */
    method Write(data: seq<byte>)
      requires Valid()
      modifies this`buffer, this`capacity, this`bufferSize, this`currOffset
      ensures Valid() && View() == old(View()).Write(data)
      decreases if currOffset + |data| <= bufferSize then 0 else currOffset + |data| - bufferSize
    {
      var newOffset := currOffset + |data|;
      if newOffset <= bufferSize {
        buffer := buffer[..currOffset] + data + buffer[newOffset..];
        currOffset := newOffset;
        assert View().bytes == old(View()).Write(data).bytes;
      } else {
        var before := View();
        IncreaseBufferSize();
        assert View() == before;
        Write(data);
      }
    }

    /** The growth steps of the seek, retried until `pos` fits. */
    method Reserve(pos: nat)
      requires Valid()
      modifies this`buffer, this`capacity, this`bufferSize
      ensures Valid() && pos <= bufferSize
      ensures |buffer| >= old(|buffer|) && buffer == old(buffer) + Zeros(|buffer| - old(|buffer|))
      decreases if pos <= bufferSize then 0 else pos - bufferSize
    {
      if pos > bufferSize {
        IncreaseBufferSize();
        Reserve(pos);
      }
    }

    /** Positions up to the written count are plain seeks; a position beyond it keeps everything written, and
        the gap holds what the buffer held there, zeros where it had to grow. */
    method SetCurrentWritePos(pos: nat)
      requires Valid()
      modifies this
      ensures Valid()
      ensures pos <= |old(View()).bytes| ==> View() == old(View()).Seek(pos)
      ensures pos > |old(View()).bytes| ==>
                View() == Tape((old(buffer) + Zeros(pos))[..pos], pos) && old(View()).bytes <= View().bytes
    {
      var maxPos := if currOffset > pos then currOffset else pos;
      ghost var before := View();
      // the buffer has room for `pos` before `biggestCurrentPos` may grow to it
      Reserve(pos);
      if maxPos > biggestCurrentPos {
        biggestCurrentPos := maxPos;
      }
      currOffset := pos;
    }
  }
}
