/** What the limits of the format mean for a message: where the announced sizes are read and where they are refused,
    and that the first error met anywhere in a message decides about all of it. */
module Limits {
  import opened Wrappers
  import opened Bytes
  import opened InputBuffer
  import opened LengthPrefix
  import opened FileGraph
  import opened FileParser

  // ---- one node ----

  /** The six fixed bytes of a node, whatever follows. */
  lemma {:induction false} FixedIsRead(r: Reader, fixed: seq<byte>, rest: seq<byte>)
    requires |fixed| == 6 && Ahead(r, fixed + rest)
    ensures Ahead(Advance(r, 6), rest)
    ensures ParseHead(r).2 == ParseNameAndCount(Advance(r, 6)).2
    ensures ParseHead(r).1 == ParseNameAndCount(Advance(r, 6)).1
    ensures ParseHead(r).0.ip == fixed[2..] && ParseHead(r).0.name == ParseNameAndCount(Advance(r, 6)).0
  {
    hide ParseNameAndCount, FromLittleEndian, ReadEach, Reader.Valid;
    var kind, ip := fixed[..2], fixed[2..];
    assert fixed + rest == kind + (ip + rest);
    ReadAhead(r, kind, ip + rest);
    EachRoundTrip(Advance(r, 2), ip, rest);
    assert Advance(Advance(r, 2), 4) == Advance(r, 6);
  }

  lemma FailedReadsFail(r: Reader, maxSize: nat)
    requires r.Valid() && r.Failed?
    ensures ReadSize(r, maxSize).1 == r && DecodeSize(r) == (0, r)
  {
    hide FromLittleEndian;
  }

  /** A name announced with more than 64 bytes is invalid data, however long the message is. */
  lemma {:induction false} LongNameFails(r: Reader, fixed: seq<byte>, size: nat, rest: seq<byte>)
    requires |fixed| == 6 && 64 < size < 0x40000000 && Ahead(r, fixed + (SizeBytes(size) + rest))
    ensures ParseHead(r).2 == Failed(3, false)
  {
    hide ParseHead, DecodeSize, SizeBytes;
    FixedIsRead(r, fixed, SizeBytes(size) + rest);
    SizeRoundTrip(Advance(r, 6), size, rest);
    FailedReadsFail(Failed(3, false), 256);
  }

  /** So are more than 256 children. */
  lemma {:induction false} LongListFails(r: Reader, fixed: seq<byte>, name: seq<byte>, count: nat, rest: seq<byte>)
    requires |fixed| == 6 && |name| <= 64 && 256 < count < 0x40000000
    requires Ahead(r, fixed + (SizeBytes(|name|) + (name + (SizeBytes(count) + rest))))
    ensures ParseHead(r).2 == Failed(3, false)
  {
    hide ParseHead, DecodeSize, SizeBytes;
    FixedIsRead(r, fixed, SizeBytes(|name|) + (name + (SizeBytes(count) + rest)));
    var r1 := Advance(r, 6);
    SizeRoundTrip(r1, |name|, name + (SizeBytes(count) + rest));
    var r2 := Advance(r1, |SizeBytes(|name|)|);
    ReadAhead(r2, name, SizeBytes(count) + rest);
    SizeRoundTrip(Advance(r2, |name|), count, rest);
  }

  /** All sizes up to them are read. */
  lemma {:induction false} SizesWithinAreRead(r: Reader, fixed: seq<byte>, name: seq<byte>, count: nat, rest: seq<byte>)
    requires |fixed| == 6 && |name| <= 64 && count <= 256
    requires Ahead(r, fixed + (SizeBytes(|name|) + (name + (SizeBytes(count) + rest))))
    ensures var (head, announced, next) := ParseHead(r);
            head.ip == fixed[2..] && head.name == name && announced == count &&
            next == Advance(r, 6 + |SizeBytes(|name|)| + |name| + |SizeBytes(count)|) && Ahead(next, rest)
  {
    hide ParseHead, DecodeSize, SizeBytes;
    FixedIsRead(r, fixed, SizeBytes(|name|) + (name + (SizeBytes(count) + rest)));
    var r1 := Advance(r, 6);
    SizeRoundTrip(r1, |name|, name + (SizeBytes(count) + rest));
    var r2 := Advance(r1, |SizeBytes(|name|)|);
    ReadAhead(r2, name, SizeBytes(count) + rest);
    SizeRoundTrip(Advance(r2, |name|), count, rest);
  }

  // ---- whole messages ----

  ghost function SlotStarts(r: Reader, seen: set<nat>): seq<Reader>
    requires r.Valid()
    decreases r.Left(), 0, 0
  {
    var (id, next) := DecodeSize(r);
    if id == 0 || id in seen then [] else NodeStarts(next, seen + {id})
  }

  ghost function SlotsStarts(r: Reader, count: nat, seen: set<nat>): seq<Reader>
    requires r.Valid()
    decreases r.Left(), 0, count
  {
    if count == 0 then []
    else
      var first := ParseSlot(r, seen);
      SlotStarts(r, seen) + SlotsStarts(first.reader, count - 1, first.seen)
  }

  /** Where the nodes met in a parse begin, in the order they are met. */
  ghost function NodeStarts(r: Reader, seen: set<nat>): seq<Reader>
    requires r.Valid()
    decreases r.Left(), 1, 0
  {
    var (_, count, next) := ParseHead(r);
    [r] + SlotsStarts(next, count, seen)
  }

  lemma RootIsFirst(r: Reader, seen: set<nat>)
    requires r.Valid()
    ensures r in NodeStarts(r, seen)
  {
    assert NodeStarts(r, seen)[0] == r;
  }

  lemma {:induction false} EachStaysFailed(r: Reader, count: nat)
    requires r.Valid() && r.Failed?
    ensures ReadEach(r, count).1 == r
    decreases count
  {
    if count > 0 {
      EachStaysFailed(r, count - 1);
    }
  }

  lemma {:induction false} HeadStaysFailed(r: Reader)
    requires r.Valid() && r.Failed?
    ensures ParseHead(r).2 == r
  {
    hide ReadSize, FromLittleEndian;
    EachStaysFailed(r, 4);
    FailedReadsFail(r, MAX_NAME);
    FailedReadsFail(r, MAX_FILE_CAPACITY);
  }

  lemma {:induction false} SlotStaysFailed(r: Reader, seen: set<nat>)
    requires r.Valid() && r.Failed?
    ensures ParseSlot(r, seen).reader == r
  {
    hide DecodeSize, Reader.Valid;
    FailedReadsFail(r, 0);
  }

  lemma {:induction false} SlotsStayFailed(r: Reader, count: nat, seen: set<nat>)
    requires r.Valid() && r.Failed?
    ensures ParseSlots(r, count, seen).reader == r
    decreases count
  {
    hide ParseSlot, Reader.Valid;
    if count > 0 {
      SlotStaysFailed(r, seen);
      SlotsStayFailed(r, count - 1, ParseSlot(r, seen).seen);
    }
  }

  lemma {:induction false} NodeEndsInFirstError(r: Reader, seen: set<nat>, start: Reader)
    requires r.Valid() && start in NodeStarts(r, seen) && start.Valid() && ParseHead(start).2.Failed?
    ensures ParseNode(r, seen).reader == ParseHead(start).2
    decreases r.Left(), 1, 0
  {
    hide ParseHead, ParseSlots, SlotsStarts, Reader.Valid;
    var (head, count, next) := ParseHead(r);
    if start == r {
      SlotsStayFailed(next, count, seen);
    } else {
      SlotsEndInFirstError(next, count, seen, start);
    }
  }

  lemma {:induction false} SlotEndsInFirstError(r: Reader, seen: set<nat>, start: Reader)
    requires r.Valid() && start in SlotStarts(r, seen) && start.Valid() && ParseHead(start).2.Failed?
    ensures ParseSlot(r, seen).reader == ParseHead(start).2
    decreases r.Left(), 0, 0
  {
    hide ParseHead, DecodeSize, ParseNode, NodeStarts, Reader.Valid;
    var (id, next) := DecodeSize(r);
    NodeEndsInFirstError(next, seen + {id}, start);
  }

  /** The first error decides: where the head of a node fails, the parse of everything around it ends in that error. */
  lemma {:induction false} SlotsEndInFirstError(r: Reader, count: nat, seen: set<nat>, start: Reader)
    requires r.Valid() && start in SlotsStarts(r, count, seen) && start.Valid() && ParseHead(start).2.Failed?
    ensures ParseSlots(r, count, seen).reader == ParseHead(start).2
    decreases r.Left(), 0, count
  {
    hide ParseSlot, ParseHead, SlotStarts, Reader.Valid;
    var first := ParseSlot(r, seen);
    if start in SlotStarts(r, seen) {
      SlotEndsInFirstError(r, seen, start);
      SlotsStayFailed(first.reader, count - 1, first.seen);
    } else {
      SlotsEndInFirstError(first.reader, count - 1, first.seen, start);
    }
  }

  /** A message in which, before any other error, a node announces a name of more than 64 bytes is refused with
      InvalidData. */
  lemma {:induction false} LongNameRefused(data: seq<byte>, start: Reader, fixed: seq<byte>, size: nat, rest: seq<byte>)
    requires start in NodeStarts(Start(data), {})
    requires |fixed| == 6 && 64 < size < 0x40000000 && Ahead(start, fixed + (SizeBytes(size) + rest))
    ensures ParseNode(Start(data), {}).reader == Failed(3, false) && !Deserialize(data).accepted
  {
    hide ParseHead, ParseNode, NodeStarts, SizeBytes;
    LongNameFails(start, fixed, size, rest);
    NodeEndsInFirstError(Start(data), {}, start);
  }

  /** And so is one in which a node announces more than 256 children. */
  lemma {:induction false} LongListRefused(data: seq<byte>, start: Reader, fixed: seq<byte>, name: seq<byte>, count: nat,
                                           rest: seq<byte>)
    requires start in NodeStarts(Start(data), {})
    requires |fixed| == 6 && |name| <= 64 && 256 < count < 0x40000000
    requires Ahead(start, fixed + (SizeBytes(|name|) + (name + (SizeBytes(count) + rest))))
    ensures ParseNode(Start(data), {}).reader == Failed(3, false) && !Deserialize(data).accepted
  {
    hide ParseHead, ParseNode, NodeStarts, SizeBytes;
    LongListFails(start, fixed, name, count, rest);
    NodeEndsInFirstError(Start(data), {}, start);
  }

  /** The graph round trip in plain numbers: two bytes of type, four of address, up to 64 of name and up to 256
      children for each of fewer than 2^30 objects are enough. */
  lemma {:induction false} GraphsWithinTheLimits<A>(h: Heap<A>, root: Node<A>)
    requires |h| < 0x40000000 && Targets(root.contents, h.Keys)
    requires root.kind < 0x10000 && |root.ip| == 4 && |root.name| <= 64 && |root.contents| <= 256
    requires forall a :: a in h ==>
      h[a].kind < 0x10000 && |h[a].ip| == 4 && |h[a].name| <= 64 && |h[a].contents| <= 256 && Targets(h[a].contents, h.Keys)
    ensures HeapOk(h) && NodeOk(root)
    ensures var w := Serialize(h, root);
            Deserialize(w.bytes).accepted && Isomorphic(h, root, Deserialize(w.bytes), w.ids)
  {
    hide Serialize, Deserialize, Isomorphic;
    GraphRoundTrip(h, root);
  }
}
