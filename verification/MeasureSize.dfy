/** The dry-run twin of the writers: it only counts. */
module MeasureSize {
  import opened Bytes
  import W = BitWriter

  /** The counters, and beside them `largest`, the largest position ever reached: what a real buffer holds. */
  datatype Counters = Counters(curr: nat, prevLargest: nat) {
    function Seek(bytePos: nat): Counters {
      var newPos := 8 * bytePos;
      Counters(newPos, if curr > newPos then curr else prevLargest)
    }

    function Measured(): nat {
      if curr > prevLargest then curr else prevLargest
    }
  }

  /** A seek keeps a correct count correct exactly when it goes forward or leaves the largest position
      reached: `_prevLargestPos` is overwritten by every backward seek, also by one from a smaller position. */
  lemma SeekKeepsCountIff(c: Counters, largest: nat, bytePos: nat)
    requires c.Measured() == largest
    ensures var reached := if 8 * bytePos > largest then 8 * bytePos else largest;
            c.Seek(bytePos).Measured() == reached <==> 8 * bytePos >= c.curr || c.curr == largest
  {
  }

  /** Ten bytes, back to the start, one byte, back again: the dry run then reports one byte. */
  lemma SecondBackwardSeekLosesTheCount()
    ensures var afterTen := Counters(80, 0);
            var rewound := afterTen.Seek(0);
            var afterOne := Counters(rewound.curr + 8, rewound.prevLargest);
            rewound.Measured() == 80 && afterOne.Measured() == 80 && afterOne.Seek(0).Measured() == 8
  {
  }

  // ---- whole runs ----

  datatype Move = Count(bits: nat) | SeekTo(bytePos: nat)

  function Aligned(pos: nat): nat {
    pos + |W.Padding(pos)|
  }

  /** The position after a run, in bits. */
  function Position(moves: seq<Move>): nat {
    if moves == [] then 0
    else
      var before := Position(moves[..|moves| - 1]);
      match moves[|moves| - 1]
      case Count(bits) => before + bits
      case SeekTo(bytePos) => 8 * bytePos
  }

  function Max(a: nat, b: nat): nat {
    if a > b then a else b
  }

  /** The largest position reached on the way: what the real buffer holds. */
  function Largest(moves: seq<Move>): nat {
    if moves == [] then 0
    else
      var front := moves[..|moves| - 1];
      Max(Max(Largest(front), Position(moves)), if moves[|moves| - 1].SeekTo? then Aligned(Position(front)) else 0)
  }

  /** Where the last seek that went back came from, 0 if none did. */
  function LastLeft(moves: seq<Move>): nat {
    if moves == [] then 0
    else
      var front := moves[..|moves| - 1];
      match moves[|moves| - 1]
      case Count(_) => LastLeft(front)
      case SeekTo(bytePos) =>
        if Aligned(Position(front)) > 8 * bytePos then Aligned(Position(front)) else LastLeft(front)
  }

  function CountersAfter(moves: seq<Move>): Counters {
    if moves == [] then Counters(0, 0)
    else
      var c := CountersAfter(moves[..|moves| - 1]);
      match moves[|moves| - 1]
      case Count(bits) => Counters(c.curr + bits, c.prevLargest)
      case SeekTo(bytePos) => Counters(Aligned(c.curr), c.prevLargest).Seek(bytePos)
  }

  lemma {:induction false} CountersTell(moves: seq<Move>)
    ensures CountersAfter(moves) == Counters(Position(moves), LastLeft(moves))
    ensures Position(moves) <= Largest(moves) && LastLeft(moves) <= Largest(moves)
    decreases |moves|
  {
    hide W.Padding;
    if moves != [] {
      CountersTell(moves[..|moves| - 1]);
    }
  }

  /** Over any run of writes and seeks the count is right if and only if the run ends at the largest position it
      has reached, or its last seek back came from there. */
  lemma {:induction false} CountIsRightIff(moves: seq<Move>)
    ensures CountersAfter(moves).Measured() == Largest(moves) <==>
            Position(moves) == Largest(moves) || LastLeft(moves) == Largest(moves)
  {
    CountersTell(moves);
  }

  class BasicMeasureSize {
    var prevLargestPos: nat
    var currPosBits: nat

    function View(): Counters
      reads this
    {
      Counters(currPosBits, prevLargestPos)
    }

    constructor ()
      ensures View() == Counters(0, 0)
    {
      prevLargestPos := 0;
      currPosBits := 0;
    }

    method Align()
      modifies this`currPosBits
      ensures currPosBits == old(currPosBits) + |W.Padding(old(currPosBits))|
    {
      var scratch := currPosBits % 8;
      currPosBits := currPosBits + (8 - scratch) % 8;
    }

    method Apply(op: W.Op)
      requires W.Legal(op)
      modifies this`currPosBits
      ensures currPosBits == old(currPosBits) + |W.BitsOf(op, old(currPosBits))|
    {
      match op
      case WriteBits(_, count, _) => currPosBits := currPosBits + count;
      case WriteBytes(_, size) => currPosBits := currPosBits + 8 * size;
      case WriteBuffer(values, size) =>
        BlockSizeIsProduct(|values|, size);
        currPosBits := currPosBits + 8 * (|values| * size);
      case Align => Align();
    }

    method Flush()
      modifies this`currPosBits
      ensures currPosBits == old(currPosBits) + |W.Padding(old(currPosBits))|
    {
      Align();
    }

    method SetCurrentWritePos(pos: nat)
      modifies this
      ensures View() == Counters(old(currPosBits) + |W.Padding(old(currPosBits))|, old(prevLargestPos)).Seek(pos)
    {
      Align();
      var newPos := pos * 8;
      if currPosBits > newPos {
        prevLargestPos := currPosBits;
      }
      currPosBits := newPos;
    }

    function CurrentWritePos(): nat
      reads this
    {
      currPosBits / 8
    }

    function WrittenBytesCount(): nat
      reads this
    {
      View().Measured() / 8
    }
  }
}
