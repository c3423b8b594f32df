/** The input side of the buffer adapter.
    `Reader` is the explicit machine a caller thinks of: either reading at a position, or latched
    on an error.  `InputBufferAdapter` is the source's form, which has no error field at all and
    encodes the error in its own offsets. */
module InputBuffer {
  import opened Bytes

  const NO_ERROR: nat := 0

  const READING_ERROR: nat := 1

  const DATA_OVERFLOW: nat := 2

  const INVALID_DATA: nat := 3

  const INVALID_POINTER: nat := 4

  /** `strict` says whether running over `end` is an error (no section end has been set).
      `Failed` keeps the error code and whether the adapter still claims to sit at the end. */
  datatype Reader =
    | Reading(data: seq<byte>, pos: nat, end: nat, strict: bool)
    | Failed(code: nat, atEnd: bool)
  {
    predicate Valid() {
      match this
      case Reading(data, pos, end, strict) => pos <= end <= |data| && (strict ==> end == |data|)
      case Failed(code, _) => code > 0
    }

    function ErrorCode(): nat {
      if Reading? then NO_ERROR else code
    }

    predicate Completed() {
      match this
      case Reading(data, pos, _, _) => pos == |data|
      case Failed(_, atEnd) => atEnd
    }

    /** Bytes that can still be read: the termination measure of every parser. */
    function Left(): nat
      requires Valid()
    {
      if Reading? then end - pos else 0
    }

    function Report(error: nat): (r: Reader)
      requires Valid()
      ensures r.Valid() && r.Left() <= Left()
    {
      if Failed? then this
      else if error == 0 then Reading([], 0, 0, strict)
      else Failed(error, false)
    }

    /** Read `count` bytes: all of them or none. */
    function Read(count: nat): (r: (seq<byte>, Reader))
      requires Valid()
      ensures |r.0| == count && r.1.Valid()
      ensures r.1.Left() <= Left()
      ensures r.0 != Zeros(count) ==> r.1.Left() == Left() - count
    {
      match this
      case Failed(_, _) => (Zeros(count), this)
      case Reading(data, pos, end, strict) =>
        if pos + count <= end then (data[pos..pos + count], Reading(data, pos + count, end, strict))
        else if strict then (Zeros(count), Failed(DATA_OVERFLOW, false))
        else (Zeros(count), this)
    }

    /** Moving past the section end but inside the buffer latches an error whose code is the distance. */
    function Seek(target: nat): (r: Reader)
      requires Valid()
      ensures r.Valid()
    {
      match this
      case Failed(_, _) => this
      case Reading(data, pos, end, strict) =>
        if target > |data| then Failed(DATA_OVERFLOW, false)
        else if target > end then Failed(target - end, target == |data|)
        else Reading(data, target, end, strict)
    }

    /** End position 0 stands for "no section": the whole buffer, strict. */
    function SetEnd(target: nat): (r: Reader)
      requires Valid()
      ensures r.Valid()
    {
      match this
      case Failed(_, _) => this
      case Reading(data, pos, end, strict) =>
        if target > |data| then Failed(DATA_OVERFLOW, false)
        else
          var newEnd := if target == 0 then |data| else target;
          if pos > newEnd then Failed(pos - newEnd, pos == |data|)
          else Reading(data, pos, newEnd, target == 0)
    }
  }

  function Start(data: seq<byte>): (r: Reader)
    ensures r.Valid() && r.Left() == |data|
  {
    Reading(data, 0, |data|, true)
  }

  /** The bytes `bs` lie right ahead of the reader. */
  predicate Ahead(r: Reader, bs: seq<byte>) {
    r.Reading? && r.Valid() && r.pos + |bs| <= r.end && r.data[r.pos..r.pos + |bs|] == bs
  }

  function Advance(r: Reader, count: nat): Reader
    requires r.Reading?
  {
    r.(pos := r.pos + count)
  }

  lemma ReadAhead(r: Reader, first: seq<byte>, second: seq<byte>)
    requires Ahead(r, first + second)
    ensures r.Read(|first|) == (first, Advance(r, |first|))
    ensures Ahead(Advance(r, |first|), second)
  {
    var all := r.data[r.pos..r.pos + |first + second|];
    assert r.data[r.pos..r.pos + |first|] == all[..|first|] == first;
    assert r.data[r.pos + |first|..r.pos + |first| + |second|] == all[|first|..] == second;
  }

  // ---- whole runs ----

  datatype Op = ReadOp(count: nat) | SeekOp(target: nat) | SetEndOp(target: nat) | ReportOp(error: nat)

  function Step(r: Reader, op: Op): (s: (seq<byte>, Reader))
    requires r.Valid()
    ensures s.1.Valid()
  {
    match op
    case ReadOp(count) => r.Read(count)
    case SeekOp(target) => ([], r.Seek(target))
    case SetEndOp(target) => ([], r.SetEnd(target))
    case ReportOp(error) => ([], r.Report(error))
  }

  /** The outputs of the operations, one by one, and the last state. */
  function Run(r: Reader, ops: seq<Op>): (s: (seq<seq<byte>>, Reader))
    requires r.Valid()
    ensures s.1.Valid() && |s.0| == |ops|
    decreases |ops|
  {
    if ops == [] then ([], r)
    else
      var (out, next) := Step(r, ops[0]);
      var (outs, last) := Run(next, ops[1..]);
      ([out] + outs, last)
  }

  /** Once an error is latched nothing changes it, and every later read yields zeros. */
  lemma {:induction false} ErrorLatch(r: Reader, ops: seq<Op>)
    requires r.Valid() && r.Failed?
    ensures Run(r, ops).1 == r
    ensures forall i :: 0 <= i < |ops| && ops[i].ReadOp? ==> Run(r, ops).0[i] == Zeros(ops[i].count)
  {
    if ops != [] {
      ErrorLatch(r, ops[1..]);
      forall i | 0 <= i < |ops| && ops[i].ReadOp?
        ensures Run(r, ops).0[i] == Zeros(ops[i].count)
      {
        if i > 0 {
          assert ops[i] == ops[1..][i - 1];
          assert Run(r, ops).0[i] == Run(r, ops[1..]).0[i - 1];
        }
      }
    }
  }

  lemma {:induction false} RunSplits(r: Reader, first: seq<Op>, second: seq<Op>)
    requires r.Valid()
    ensures Run(r, first + second).1 == Run(Run(r, first).1, second).1
    ensures Run(r, first + second).0 == Run(r, first).0 + Run(Run(r, first).1, second).0
    decreases |first|
  {
    if first == [] {
      assert first + second == second;
    } else {
      assert (first + second)[1..] == first[1..] + second;
      RunSplits(Step(r, first[0]).1, first[1..], second);
    }
  }

  /** Checking the error once, at the very end, is enough: if the last state shows no error then no
      state on the way did, whatever seeks and section ends were used. */
  lemma {:induction false} FinalCheckCoversTheRun(r: Reader, before: seq<Op>, after: seq<Op>)
    requires r.Valid()
    requires Run(r, before + after).1.Reading?
    ensures Run(r, before).1.Reading?
  {
    RunSplits(r, before, after);
    var middle := Run(r, before).1;
    if middle.Failed? {
      ErrorLatch(middle, after);
    }
  }

  function Total(ops: seq<Op>): nat {
    if ops == [] then 0 else (if ops[0].ReadOp? then ops[0].count else 0) + Total(ops[1..])
  }

  function Concat(parts: seq<seq<byte>>): seq<byte> {
    if parts == [] then [] else parts[0] + Concat(parts[1..])
  }

  /** What the acceptance test of a plain parse means: a run of reads from the start ends with no
      error and at the end of the buffer iff the reads tile the buffer, and then they returned it. */
  lemma {:induction false} AcceptedReadsTileTheBuffer(data: seq<byte>, pos: nat, ops: seq<Op>)
    requires pos <= |data|
    requires forall op :: op in ops ==> op.ReadOp?
    ensures var (outs, last) := Run(Reading(data, pos, |data|, true), ops);
            (last.Reading? && last.Completed() <==> pos + Total(ops) == |data|) &&
            (last.Reading? ==> pos + Total(ops) <= |data| && Concat(outs) == data[pos..pos + Total(ops)])
    decreases |ops|
  {
    hide Zeros;
    if ops != [] {
      var count := ops[0].count;
      if pos + count <= |data| {
        AcceptedReadsTileTheBuffer(data, pos + count, ops[1..]);
        var (outs, last) := Run(Reading(data, pos, |data|, true), ops);
        assert outs[1..] == Run(Reading(data, pos + count, |data|, true), ops[1..]).0;
      } else {
        ErrorLatch(Failed(DATA_OVERFLOW, false), ops[1..]);
      }
    }
  }

  // ---- the two halves of the acceptance test ----

  /** The operations that latch an error at the very end of the buffer: a seek out of a section to the end of
      the buffer, and a section end set before a position that is the end of the buffer. */
  predicate EndsAtTheEndInError(r: Reader, op: Op)
    requires r.Valid() && r.Reading?
  {
    match op
    case SeekOp(target) => r.end < target == |r.data|
    case SetEndOp(target) => 0 < target < r.pos == |r.data|
    case _ => false
  }

  /** No error before operation `n`, which latches one at the end of the buffer. */
  predicate ErrorAt(r: Reader, ops: seq<Op>, n: nat)
    requires r.Valid() && n < |ops|
  {
    var before := Run(r, ops[..n]).1;
    before.Reading? && EndsAtTheEndInError(before, ops[n])
  }

  /** Being at the end of the buffer is not yet success.  It goes with an error exactly when one of those
      operations was the first to latch one. */
  lemma {:induction false} CompletedInErrorIff(r: Reader, ops: seq<Op>)
    requires r.Valid() && r.Reading?
    ensures Run(r, ops).1.Failed? && Run(r, ops).1.Completed() <==>
            exists n :: 0 <= n < |ops| && ErrorAt(r, ops, n)
    decreases |ops|
  {
    if ops != [] {
      var next := Step(r, ops[0]).1;
      assert ops[..0] == [];
      if next.Failed? {
        ErrorLatch(next, ops[1..]);
        forall n | 0 < n < |ops| ensures Run(r, ops[..n]).1.Failed? {
          assert ops[..n][1..] == ops[1..n];
          ErrorLatch(next, ops[1..n]);
        }
        assert ErrorAt(r, ops, 0) <==> next.Completed();
      } else {
        CompletedInErrorIff(next, ops[1..]);
        forall n | 0 < n < |ops| ensures ErrorAt(r, ops, n) <==> ErrorAt(next, ops[1..], n - 1) {
          assert ops[..n][1..] == ops[1..][..n - 1];
        }
        assert !ErrorAt(r, ops, 0);
        if n :| 0 <= n < |ops[1..]| && ErrorAt(next, ops[1..], n) {
          assert ErrorAt(r, ops, n + 1);
        }
      }
    }
  }

  /** Without section ends the position alone tells success, so a plain parse needs only that half of the test. */
  lemma {:induction false} WithoutSectionsCompletionIsSuccess(r: Reader, ops: seq<Op>)
    requires r.Valid() && r.Reading? && r.strict
    requires forall op :: op in ops ==> !op.SetEndOp?
    ensures Run(r, ops).1.Completed() ==> Run(r, ops).1.Reading?
    decreases |ops|
  {
    if ops != [] {
      var next := Step(r, ops[0]).1;
      if next.Failed? {
        ErrorLatch(next, ops[1..]);
      } else {
        WithoutSectionsCompletionIsSuccess(next, ops[1..]);
      }
    }
  }

  /** Two bytes, a section of one, a seek to the end of the buffer. */
  lemma CompletedInAnErrorState()
    ensures var r := Start([0, 0]).SetEnd(1).Seek(2); r.Failed? && r.Completed()
  {
  }

  /** A report latches an error exactly when it reports one: reporting NoError empties the buffer instead, and
      the reader then passes the whole acceptance test. */
  lemma ReportLatchesIff(r: Reader, error: nat)
    requires r.Valid() && r.Reading?
    ensures r.Report(error).Failed? <==> error != NO_ERROR
    ensures r.Report(NO_ERROR).Reading? && r.Report(NO_ERROR).data == [] && r.Report(NO_ERROR).Completed()
  {
  }

  /** The codes of positions out of place: a position behind the buffer is a data overflow, code 2; one behind the
      section, or an end before the position, latches how far it is off, whatever error that distance is the code of. */
  lemma CodesOfPositions(r: Reader, target: nat)
    requires r.Valid() && r.Reading?
    ensures target > |r.data| ==> r.Seek(target).ErrorCode() == 2 && r.SetEnd(target).ErrorCode() == 2
    ensures target <= |r.data| ==> r.Seek(target).ErrorCode() == if target <= r.end then 0 else target - r.end
    ensures 0 < target <= |r.data| ==> r.SetEnd(target).ErrorCode() == if r.pos <= target then 0 else r.pos - target
    ensures r.SetEnd(0).ErrorCode() == 0
    ensures forall count :: r.Read(count).1.ErrorCode() == if r.strict && r.pos + count > |r.data| then 2 else 0
  {
  }

  // ---- the adapter itself ----

  class InputBufferAdapter {
    const buffer: seq<byte>
    var currOffset: nat
    var endReadOffset: nat
    var bufferSize: nat
    var overflowOnReadEndPos: bool

    ghost predicate Valid()
      reads this
    {
      && bufferSize <= |buffer|
      && (currOffset <= endReadOffset ==> endReadOffset <= bufferSize)
      && (currOffset <= endReadOffset && overflowOnReadEndPos ==> endReadOffset == bufferSize)
    }

    predicate Latched()
      reads this
    {
      currOffset > endReadOffset
    }

    ghost function View(): (r: Reader)
      requires Valid()
      reads this
      ensures r.Valid()
    {
      if Latched() then Failed(currOffset - endReadOffset, currOffset == bufferSize)
      else Reading(buffer[..bufferSize], currOffset, endReadOffset, overflowOnReadEndPos)
    }

    constructor (data: seq<byte>)
      ensures Valid() && View() == Start(data)
    {
      buffer := data;
      currOffset := 0;
      endReadOffset := |data|;
      bufferSize := |data|;
      overflowOnReadEndPos := true;
    }

    method ErrorCode() returns (code: nat)
      requires Valid()
      ensures code == View().ErrorCode()
    {
      return if currOffset <= endReadOffset then NO_ERROR else currOffset - endReadOffset;
    }

    method IsCompletedSuccessfully() returns (completed: bool)
      requires Valid()
      ensures completed == View().Completed()
    {
      return currOffset == bufferSize;
    }

    method Report(error: nat)
      requires Valid()
      modifies this
      ensures Valid() && View() == old(View()).Report(error)
      ensures old(Latched()) ==> unchanged(this)
    {
      if currOffset <= endReadOffset {
        endReadOffset := 0;
        bufferSize := 0;
        currOffset := error;
      }
    }

    method ReadBytes(count: nat) returns (bytes: seq<byte>)
      requires Valid()
      modifies this
      ensures Valid() && (bytes, View()) == old(View()).Read(count)
      ensures old(Latched()) ==> unchanged(this)
    {
      var newOffset := currOffset + count;
      if newOffset <= endReadOffset {
        bytes := buffer[currOffset..newOffset];
        assert bytes == buffer[..bufferSize][currOffset..newOffset];
        currOffset := newOffset;
      } else {
        bytes := Zeros(count);
        if overflowOnReadEndPos {
          Report(DATA_OVERFLOW);
        }
      }
    }

    method CurrentReadPos() returns (pos: nat)
      requires Valid()
      ensures pos == if View().Reading? then View().pos else 0
    {
      var error := ErrorCode();
      return if error == NO_ERROR then currOffset else 0;
    }

    method SetCurrentReadPos(pos: nat)
      requires Valid()
      modifies this
      ensures Valid() && View() == old(View()).Seek(pos)
      ensures old(Latched()) ==> unchanged(this)
    {
      var error := ErrorCode();
      if bufferSize >= pos && error == NO_ERROR {
        currOffset := pos;
      } else {
        Report(DATA_OVERFLOW);
      }
    }

    method CurrentReadEndPos() returns (pos: nat)
      requires Valid()
      ensures View().Reading? ==> pos == if View().strict then 0 else View().end
      ensures View().Failed? ==> pos == if overflowOnReadEndPos then 0 else endReadOffset
    {
      return if overflowOnReadEndPos then 0 else endReadOffset;
    }

    method SetCurrentReadEndPos(pos: nat)
      requires Valid()
      modifies this
      ensures Valid() && View() == old(View()).SetEnd(pos)
      ensures old(View()).Failed? ==> unchanged(this)
    {
      var error := ErrorCode();
      if bufferSize >= pos && error == NO_ERROR {
        overflowOnReadEndPos := pos == 0;
        endReadOffset := if pos == 0 then bufferSize else pos;
      } else {
        Report(DATA_OVERFLOW);
      }
    }
  }
}
