/** The message as a whole is self-delimiting: no accepted message is a proper prefix of another, so a
    truncated message and a message with trailing bytes are always refused. */
module Truncation {
  import opened Bytes
  import opened Wrappers
  import opened InputBuffer
  import opened LengthPrefix
  import opened FileGraph
  import opened FileParser

  /** Both readers stand at the same place, `b` with more bytes behind its end. */
  ghost predicate Longer(a: Reader, b: Reader) {
    && a.Reading? && b.Reading? && a.Valid() && b.Valid() && a.strict && b.strict
    && a.pos == b.pos && a.data < b.data
  }

  /** As long as `a` has not failed, `b` is its longer twin. */
  ghost predicate Follows(a: Reader, b: Reader) {
    a.Valid() && b.Valid() && (a.Reading? ==> Longer(a, b))
  }

  /** A step from `a` to `a1` that has not failed had no failure before it, and `b` does the same. */
  ghost predicate Twin<T(!new)>(a: Reader, b: Reader, x: T, a1: Reader, y: T, b1: Reader) {
    Follows(a1, b1) && (a1.Reading? ==> a.Reading? && x == y)
  }

  lemma ReadTwin(a: Reader, b: Reader, count: nat)
    requires Follows(a, b)
    ensures Twin(a, b, a.Read(count).0, a.Read(count).1, b.Read(count).0, b.Read(count).1)
  {
    if a.Reading? && a.pos + count <= a.end {
      assert a.data == b.data[..|a.data|];
      assert a.data[a.pos..a.pos + count] == b.data[a.pos..a.pos + count];
    }
  }

  lemma {:induction false} ReadEachTwin(a: Reader, b: Reader, count: nat)
    requires Follows(a, b)
    ensures Twin(a, b, ReadEach(a, count).0, ReadEach(a, count).1, ReadEach(b, count).0, ReadEach(b, count).1)
    decreases count
  {
    if count > 0 {
      ReadTwin(a, b, 1);
      hide Reader.Read, Longer, Reader.Valid;
      ReadEachTwin(a.Read(1).1, b.Read(1).1, count - 1);
    }
  }

  lemma DecodeTwin(a: Reader, b: Reader)
    requires Follows(a, b)
    ensures Twin(a, b, DecodeSize(a).0, DecodeSize(a).1, DecodeSize(b).0, DecodeSize(b).1)
  {
    hide Reader.Read, Longer, Reader.Valid, FromLittleEndian;
    ReadTwin(a, b, 1);
    var a1, b1 := a.Read(1).1, b.Read(1).1;
    ReadTwin(a1, b1, 1);
    ReadTwin(a1.Read(1).1, b1.Read(1).1, 2);
  }

  lemma ReadSizeTwin(a: Reader, b: Reader, maxSize: nat)
    requires Follows(a, b)
    ensures Twin(a, b, ReadSize(a, maxSize).0, ReadSize(a, maxSize).1, ReadSize(b, maxSize).0, ReadSize(b, maxSize).1)
  {
    hide DecodeSize;
    DecodeTwin(a, b);
  }

  lemma {:induction false} NameTwin(a: Reader, b: Reader)
    requires Follows(a, b)
    ensures var (name, count, a1) := ParseNameAndCount(a);
            var (name', count', b1) := ParseNameAndCount(b);
            Twin(a, b, (name, count), a1, (name', count'), b1)
  {
    hide Reader.Read, Longer, Reader.Valid, ReadSize;
    ReadSizeTwin(a, b, MAX_NAME);
    var (size, a1) := ReadSize(a, MAX_NAME);
    var (size', b1) := ReadSize(b, MAX_NAME);
    ReadTwin(a1, b1, size);
    ReadSizeTwin(a1.Read(size).1, b1.Read(size').1, MAX_FILE_CAPACITY);
  }

  lemma {:induction false} HeadTwin(a: Reader, b: Reader)
    requires Follows(a, b)
    ensures Twin(a, b, (ParseHead(a).0, ParseHead(a).1), ParseHead(a).2, (ParseHead(b).0, ParseHead(b).1), ParseHead(b).2)
  {
    hide Reader.Read, Longer, Reader.Valid, ReadSize, ReadEach, FromLittleEndian;
    ReadTwin(a, b, 2);
    var a1, b1 := a.Read(2).1, b.Read(2).1;
    ReadEachTwin(a1, b1, 4);
    var a2, b2 := ReadEach(a1, 4).1, ReadEach(b1, 4).1;
    NameTwin(a2, b2);
  }

  // ---- whole graphs ----

  ghost predicate SameParse<T(!new)>(a: Reader, b: Reader, p: Parsed<T>, q: Parsed<T>) {
    Twin(a, b, (p.value, p.seen, p.heap), p.reader, (q.value, q.seen, q.heap), q.reader)
  }

  lemma {:induction false} NodeTwin(a: Reader, b: Reader, seen: set<nat>)
    requires Follows(a, b)
    ensures SameParse(a, b, ParseNode(a, seen), ParseNode(b, seen))
    decreases a.Left(), 1, 0
  {
    hide Longer, ParseHead, ParseSlots;
    HeadTwin(a, b);
    var (head, count, a1) := ParseHead(a);
    var (head', count', b1) := ParseHead(b);
    SlotsTwin(a1, b1, count, seen);
  }

  lemma {:induction false} SlotTwin(a: Reader, b: Reader, seen: set<nat>)
    requires Follows(a, b)
    ensures SameParse(a, b, ParseSlot(a, seen), ParseSlot(b, seen))
    decreases a.Left(), 0, 0
  {
    hide Longer, DecodeSize, ParseNode;
    DecodeTwin(a, b);
    var (id, a1) := DecodeSize(a);
    var (id', b1) := DecodeSize(b);
    if id != 0 && id !in seen {
      NodeTwin(a1, b1, seen + {id});
    }
  }

  lemma {:induction false} SlotsTwin(a: Reader, b: Reader, count: nat, seen: set<nat>)
    requires Follows(a, b)
    ensures SameParse(a, b, ParseSlots(a, count, seen), ParseSlots(b, count, seen))
    decreases a.Left(), 0, count
  {
    hide Longer, ParseSlot;
    if count > 0 {
      SlotTwin(a, b, seen);
      var p, q := ParseSlot(a, seen), ParseSlot(b, seen);
      SlotsTwin(p.reader, q.reader, count - 1, p.seen);
    }
  }

  /** No accepted message is a proper prefix of an accepted message. */
  lemma {:induction false} AcceptedIsPrefixFree(data: seq<byte>, count: nat)
    requires Deserialize(data).accepted && count < |data|
    ensures !Deserialize(data[..count]).accepted
  {
    hide ParseNode;
    NodeTwin(Start(data[..count]), Start(data), {});
  }

  /** Of the bytes of a graph, the deserialiser accepts all of them and nothing less. */
  lemma {:induction false} OnlyTheWholeGraphIsAccepted<A>(h: Heap<A>, root: Node<A>, count: nat)
    requires HeapOk(h) && NodeOk(root) && Targets(root.contents, h.Keys) && |h| < SIZE_LIMIT
    requires count <= |Serialize(h, root).bytes|
    ensures Deserialize(Serialize(h, root).bytes[..count]).accepted <==> count == |Serialize(h, root).bytes|
  {
    hide Serialize, Deserialize, HeapOk, NodeOk, Isomorphic;
    GraphRoundTrip(h, root);
    var bytes := Serialize(h, root).bytes;
    assert bytes[..|bytes|] == bytes;
    if count < |bytes| {
      AcceptedIsPrefixFree(bytes, count);
    }
  }

  // ---- how many bytes a graph takes at most ----

  lemma {:induction false} HeadSize<A>(n: Node<A>)
    requires NodeOk(n)
    ensures |Head(n)| <= 73 && |n.contents| <= 256
  {
  }

  lemma {:induction false} NewSlotBytes<A>(h: Heap<A>, a: A, ids: map<A, nat>)
    requires HeapOk(h) && a in h && a !in ids && NodeOk(h[a]) && Targets(h[a].contents, h.Keys)
    requires ids.Keys <= h.Keys && |h| < SIZE_LIMIT && Numbered(ids)
    requires var entered := ids[a := |ids| + 1];
             entered.Keys <= h.Keys && Numbered(entered) && h.Keys - entered.Keys < h.Keys - ids.Keys && |ids| < |h|
    ensures var children := WriteSlots(h, h[a].contents, ids[a := |ids| + 1]);
            var w := WriteSlot(h, Some(a), ids);
            w.ids == children.ids && |w.bytes| == |SizeBytes(|ids| + 1)| + |Head(h[a])| + |children.bytes|
  {
    hide HeapOk, Numbered, WriteSlots, Head, NodeOk, SizeBytes, Targets;
  }

  lemma {:induction false} SlotTakesAtMost<A>(h: Heap<A>, slot: Option<A>, ids: map<A, nat>)
    requires HeapOk(h) && (slot.Some? ==> slot.value in h)
    requires ids.Keys <= h.Keys && |h| < SIZE_LIMIT && Numbered(ids)
    ensures |WriteSlot(h, slot, ids).bytes| <= 4 + 1097 * (|WriteSlot(h, slot, ids).ids| - |ids|)
    decreases h.Keys - ids.Keys, 0
  {
    hide HeapOk, Numbered, WriteSlots, Head, NodeOk, SizeBytes, Extends, Targets;
    if slot.Some? && slot.value !in ids {
      var a := slot.value;
      NextId(h, ids, a);
      HeapNode(h, a);
      HeadSize(h[a]);
      var entered := ids[a := |ids| + 1];
      SlotsTakeAtMost(h, h[a].contents, entered);
      NewSlotBytes(h, a, ids);
      assert |entered| == |ids| + 1;
    }
  }

  /** An object takes at most 73 bytes of its own and 4 for each of at most 256 children. */
  lemma {:induction false} SlotsTakeAtMost<A>(h: Heap<A>, slots: seq<Option<A>>, ids: map<A, nat>)
    requires HeapOk(h) && Targets(slots, h.Keys)
    requires ids.Keys <= h.Keys && |h| < SIZE_LIMIT && Numbered(ids)
    ensures |WriteSlots(h, slots, ids).bytes| <= 4 * |slots| + 1097 * (|WriteSlots(h, slots, ids).ids| - |ids|)
    decreases h.Keys - ids.Keys, |slots|
  {
    hide HeapOk, Numbered, WriteSlot, Extends;
    if slots != [] {
      RestTargets(slots, h.Keys);
      SlotTakesAtMost(h, slots[0], ids);
      var first := WriteSlot(h, slots[0], ids);
      ExtendsKeys(ids, first.ids);
      NotMore(h.Keys, ids.Keys, first.ids.Keys);
      SlotsTakeAtMost(h, slots[1..], first.ids);
      WriteSlotsStep(h, slots, ids);
    }
  }

  lemma NoIds<A>()
    ensures Numbered<A>(map[])
  {
  }

  /** The bytes of any graph. */
  lemma {:induction false} GraphTakesAtMost<A>(h: Heap<A>, root: Node<A>)
    requires HeapOk(h) && NodeOk(root) && Targets(root.contents, h.Keys) && |h| < SIZE_LIMIT
    ensures |Serialize(h, root).bytes| <= 1097 * (|h| + 1)
  {
    hide HeapOk, NodeOk, Head, WriteSlots, Numbered;
    HeadSize(root);
    var none: map<A, nat> := map[];
    NoIds<A>();
    SlotsTakeAtMost(h, root.contents, none);
    FewIds(h, Serialize(h, root).ids);
  }

  // ---- a graph of any size ----

  ghost predicate LongNames<A>(h: Heap<A>) {
    forall a :: a in h ==> |h[a].name| == MAX_NAME
  }

  lemma {:induction false} SlotSize<A>(h: Heap<A>, slot: Option<A>, ids: map<A, nat>)
    requires HeapOk(h) && (slot.Some? ==> slot.value in h) && LongNames(h)
    requires ids.Keys <= h.Keys && |h| < SIZE_LIMIT && Numbered(ids)
    ensures |WriteSlot(h, slot, ids).bytes| >= MAX_NAME * (|WriteSlot(h, slot, ids).ids| - |ids|)
    decreases h.Keys - ids.Keys, 0
  {
    if slot.Some? && slot.value !in ids {
      var a := slot.value;
      NextId(h, ids, a);
      HeapNode(h, a);
      assert |h[a].name| == MAX_NAME;
      hide HeapOk, Numbered, LongNames, WriteSlots;
      var entered := ids[a := |ids| + 1];
      assert |entered| == |ids| + 1;
      SlotsSize(h, h[a].contents, entered);
      assert |Head(h[a])| > MAX_NAME;
    }
  }

  /** Every object written takes more bytes than its name has. */
  lemma {:induction false} SlotsSize<A>(h: Heap<A>, slots: seq<Option<A>>, ids: map<A, nat>)
    requires HeapOk(h) && Targets(slots, h.Keys) && LongNames(h)
    requires ids.Keys <= h.Keys && |h| < SIZE_LIMIT && Numbered(ids)
    ensures |WriteSlots(h, slots, ids).bytes| >= MAX_NAME * (|WriteSlots(h, slots, ids).ids| - |ids|)
    decreases h.Keys - ids.Keys, |slots|
  {
    hide HeapOk, Numbered, LongNames, WriteSlot, Extends;
    if slots != [] {
      RestTargets(slots, h.Keys);
      SlotSize(h, slots[0], ids);
      var first := WriteSlot(h, slots[0], ids);
      ExtendsKeys(ids, first.ids);
      NotMore(h.Keys, ids.Keys, first.ids.Keys);
      SlotsSize(h, slots[1..], first.ids);
      WriteSlotsStep(h, slots, ids);
    }
  }

  function ChainNode(i: nat, n: nat): Node<nat> {
    Node(0, Zeros(4), Zeros(MAX_NAME), if i < n then [Some(i + 1)] else [])
  }

  /** Directories `1..n`, each in the one before. */
  ghost function Chain(n: nat): (h: Heap<nat>)
    ensures h.Keys == UpTo(n) && |h| == n
  {
    var h := map i | i in UpTo(n) :: ChainNode(i, n);
    assert h.Keys == UpTo(n) && |h| == |h.Keys|;
    h
  }

  lemma {:induction false} ChainIsLegal(n: nat)
    requires 0 < n < SIZE_LIMIT
    ensures HeapOk(Chain(n)) && LongNames(Chain(n)) && NodeOk(ChainNode(0, n)) &&
            Targets(ChainNode(0, n).contents, Chain(n).Keys)
  {
  }

  lemma {:induction false} ChainReached(n: nat, s: set<nat>, i: nat)
    requires Closed(Chain(n), s) && 1 in s && 1 <= i <= n
    ensures i in s
    decreases i
  {
    if i > 1 {
      ChainReached(n, s, i - 1);
      assert Chain(n)[i - 1].contents[0] == Some(i);
    }
  }

  lemma {:induction false} ChainAllWritten(n: nat)
    requires 0 < n < SIZE_LIMIT && HeapOk(Chain(n)) && NodeOk(ChainNode(0, n)) &&
             Targets(ChainNode(0, n).contents, Chain(n).Keys)
    ensures |Serialize(Chain(n), ChainNode(0, n)).ids| == n
  {
    hide HeapOk, NodeOk, Serialize, Chain, Closed;
    var h, root := Chain(n), ChainNode(0, n);
    ReachableObjectsGetIds(h, root);
    var ids := Serialize(h, root).ids;
    assert root.contents[0] == Some(1);
    forall i | i in UpTo(n) ensures i in ids {
      ChainReached(n, ids.Keys, i);
    }
    assert ids.Keys == UpTo(n) && |ids| == |ids.Keys|;
  }

  lemma NoneNumbered()
    ensures Numbered<nat>(map[])
  {
  }

  /** Graphs within all limits can take more bytes than any given number of names. */
  lemma {:induction false} ChainSize(n: nat)
    requires 0 < n < SIZE_LIMIT
    ensures HeapOk(Chain(n)) && NodeOk(ChainNode(0, n)) && Targets(ChainNode(0, n).contents, Chain(n).Keys)
    ensures |Serialize(Chain(n), ChainNode(0, n)).bytes| >= MAX_NAME * n
  {
    hide HeapOk, NodeOk, LongNames, Chain, ChainNode, Targets, WriteSlots, Head;
    ChainIsLegal(n);
    ChainAllWritten(n);
    var none: map<nat, nat> := map[];
    NoneNumbered();
    SlotsSize(Chain(n), ChainNode(0, n).contents, none);
  }
}
