/** The parser of the wire form, on any bytes, and its two theorems: parsing is total and bounded, and
    it undoes the writer up to renaming of the objects. */
module FileParser {
  import opened Wrappers
  import opened Bytes
  import opened InputBuffer
  import opened LengthPrefix
  import opened FileGraph

  /** `seen` are the ids met so far, `heap` the nodes created on the way, by id. */
  datatype Parsed<T> = Parsed(value: T, reader: Reader, seen: set<nat>, heap: Heap<nat>)

  /** Single-byte reads, one after the other: each can fail on its own. */
  function ReadEach(r: Reader, count: nat): (d: (seq<byte>, Reader))
    requires r.Valid()
    ensures d.1.Valid() && |d.0| == count && d.1.Left() <= r.Left()
    decreases count
  {
    if count == 0 then ([], r)
    else
      var (b, next) := r.Read(1);
      var (rest, last) := ReadEach(next, count - 1);
      (b + rest, last)
  }

  function ParseNameAndCount(r: Reader): (d: (seq<byte>, nat, Reader))
    requires r.Valid()
    ensures d.2.Valid() && d.2.Left() <= r.Left()
    ensures |d.0| <= MAX_NAME && d.1 <= MAX_FILE_CAPACITY
  {
    var (nameSize, r1) := ReadSize(r, MAX_NAME);
    var (name, r2) := r1.Read(nameSize);
    var (count, r3) := ReadSize(r2, MAX_FILE_CAPACITY);
    (name, count, r3)
  }

  /** All of a node but its children, and the number of the children. */
  function ParseHead(r: Reader): (d: (Node<nat>, nat, Reader))
    requires r.Valid()
    ensures d.2.Valid() && d.2.Left() <= r.Left()
    ensures NodeOk(d.0) && d.0.contents == [] && d.1 <= MAX_FILE_CAPACITY
  {
    var (kind, r1) := r.Read(2);
    var (ip, r2) := ReadEach(r1, 4);
    var (name, count, r3) := ParseNameAndCount(r2);
    WordBound(kind);
    (Node(FromLittleEndian(kind), ip, name, []), count, r3)
  }

  function ParseNode(r: Reader, seen: set<nat>): (p: Parsed<Node<nat>>)
    requires r.Valid()
    ensures p.reader.Valid() && p.reader.Left() <= r.Left()
    decreases r.Left(), 1, 0
  {
    var (head, count, next) := ParseHead(r);
    var children := ParseSlots(next, count, seen);
    Parsed(head.(contents := children.value), children.reader, children.seen, children.heap)
  }

  /** Id 0 is null, an id met before is the object created for it, a new id is followed by a payload. */
  function ParseSlot(r: Reader, seen: set<nat>): (p: Parsed<Option<nat>>)
    requires r.Valid()
    ensures p.reader.Valid() && p.reader.Left() <= r.Left()
    decreases r.Left(), 0, 0
  {
    var (id, next) := DecodeSize(r);
    if id == 0 then Parsed(None, next, seen, map[])
    else if id in seen then Parsed(Some(id), next, seen, map[])
    else
      var payload := ParseNode(next, seen + {id});
      Parsed(Some(id), payload.reader, payload.seen, payload.heap[id := payload.value])
  }

  function ParseSlots(r: Reader, count: nat, seen: set<nat>): (p: Parsed<seq<Option<nat>>>)
    requires r.Valid()
    ensures p.reader.Valid() && p.reader.Left() <= r.Left() && |p.value| == count
    decreases r.Left(), 0, count
  {
    if count == 0 then Parsed([], r, seen, map[])
    else
      var first := ParseSlot(r, seen);
      var rest := ParseSlots(first.reader, count - 1, first.seen);
      Parsed([first.value] + rest.value, rest.reader, rest.seen, first.heap + rest.heap)
  }

  // ---- parsing is total ----

  /** What any parse guarantees: the new ids are those of the created nodes, at most one for each byte
      consumed; every created node is well formed and points only to ids met in this run. */
  ghost predicate Sound<T>(r: Reader, seen: set<nat>, p: Parsed<T>)
    requires r.Valid() && p.reader.Valid()
  {
    && seen <= p.seen && p.heap.Keys == p.seen - seen
    && |p.heap| + p.reader.Left() <= r.Left()
    && forall id :: id in p.heap ==> NodeOk(p.heap[id]) && Targets(p.heap[id].contents, p.seen)
  }

  lemma {:induction false} TargetsChain(slot: Option<nat>, seen: set<nat>, slots: seq<Option<nat>>, later: set<nat>)
    requires seen <= later && (slot.Some? ==> slot.value in seen) && Targets(slots, later)
    ensures Targets([slot] + slots, later)
  {
  }

  lemma UnionSize(a: Heap<nat>, b: Heap<nat>)
    requires a.Keys !! b.Keys
    ensures |a + b| == |a| + |b|
  {
    assert (a + b).Keys == a.Keys + b.Keys;
    assert |a.Keys + b.Keys| == |a.Keys| + |b.Keys|;
    assert |(a + b).Keys| == |a + b| && |a.Keys| == |a| && |b.Keys| == |b|;
  }

  lemma {:induction false} SoundChain<S, T, U>(r: Reader, seen: set<nat>, first: Parsed<S>, rest: Parsed<T>, whole: Parsed<U>)
    requires r.Valid() && first.reader.Valid() && rest.reader.Valid()
    requires Sound(r, seen, first) && Sound(first.reader, first.seen, rest)
    requires whole.reader == rest.reader && whole.seen == rest.seen && whole.heap == first.heap + rest.heap
    ensures Sound(r, seen, whole) && first.seen <= whole.seen
  {
    hide NodeOk, Reader.Left, Reader.Valid;
    assert first.heap.Keys !! rest.heap.Keys;
    UnionSize(first.heap, rest.heap);
    assert whole.heap.Keys == first.heap.Keys + rest.heap.Keys;
    assert first.seen <= rest.seen;
  }

  lemma {:induction false} CreatedNode(r: Reader, next: Reader, seen: set<nat>, id: nat,
                                       payload: Parsed<Node<nat>>, whole: Parsed<Option<nat>>)
    requires r.Valid() && next.Valid() && payload.reader.Valid() && next.Left() < r.Left() && id !in seen
    requires Sound(next, seen + {id}, payload) && NodeOk(payload.value) && Targets(payload.value.contents, payload.seen)
    requires whole == Parsed(Some(id), payload.reader, payload.seen, payload.heap[id := payload.value])
    ensures Sound(r, seen, whole) && id in whole.seen
  {
    hide NodeOk, Reader.Left, Reader.Valid;
    assert whole.heap.Keys == payload.heap.Keys + {id};
    assert id !in payload.heap;
    assert |whole.heap| == |payload.heap| + 1;
  }

  lemma {:induction false} NodeIsSound(r: Reader, seen: set<nat>)
    requires r.Valid()
    ensures var p := ParseNode(r, seen);
            Sound(r, seen, p) && NodeOk(p.value) && Targets(p.value.contents, p.seen)
    decreases r.Left(), 1, 0
  {
    var (head, count, next) := ParseHead(r);
    SlotsAreSound(next, count, seen);
  }

  lemma {:induction false} SlotIsSound(r: Reader, seen: set<nat>)
    requires r.Valid()
    ensures var p := ParseSlot(r, seen);
            Sound(r, seen, p) && (p.value.Some? ==> p.value.value in p.seen)
    decreases r.Left(), 0, 0
  {
    var (id, next) := DecodeSize(r);
    if id != 0 && id !in seen {
      NodeIsSound(next, seen + {id});
      CreatedNode(r, next, seen, id, ParseNode(next, seen + {id}), ParseSlot(r, seen));
    }
  }

  lemma {:induction false} SlotsAreSound(r: Reader, count: nat, seen: set<nat>)
    requires r.Valid()
    ensures var p := ParseSlots(r, count, seen);
            Sound(r, seen, p) && Targets(p.value, p.seen)
    decreases r.Left(), 0, count
  {
    if count > 0 {
      hide Sound, ParseSlot, NodeOk, Targets;
      var first := ParseSlot(r, seen);
      SlotIsSound(r, seen);
      SlotsAreSound(first.reader, count - 1, first.seen);
      var rest := ParseSlots(first.reader, count - 1, first.seen);
      var whole := ParseSlots(r, count, seen);
      SoundChain(r, seen, first, rest, whole);
      TargetsChain(first.value, first.seen, rest.value, rest.seen);
    }
  }

  /** The outcome of deserialising a buffer into a fresh root. */
  datatype Outcome = Outcome(accepted: bool, root: Node<nat>, heap: Heap<nat>)

  function Deserialize(data: seq<byte>): Outcome {
    var p := ParseNode(Start(data), {});
    Outcome(p.reader.Reading? && p.reader.Completed(), p.value, p.heap)
  }

  /** On every byte string, accepted or not: at most as many nodes as bytes, all within the limits of the
      format, and every non-null child is a node created in this run.  So whatever was parsed can be
      serialised again. */
  lemma ParsingIsTotal(data: seq<byte>)
    ensures var o := Deserialize(data);
            |o.heap| <= |data| && HeapOk(o.heap) && NodeOk(o.root) && Targets(o.root.contents, o.heap.Keys)
  {
    NodeIsSound(Start(data), {});
    var p := ParseNode(Start(data), {});
    assert p.heap.Keys == p.seen;
  }

  // ---- the round trip ----

  function RenameSlot<A>(slot: Option<A>, ids: map<A, nat>): Option<nat>
    requires slot.Some? ==> slot.value in ids
  {
    match slot
    case None => None
    case Some(a) => Some(ids[a])
  }

  function RenameSlots<A>(slots: seq<Option<A>>, ids: map<A, nat>): (renamed: seq<Option<nat>>)
    requires Targets(slots, ids.Keys)
    ensures |renamed| == |slots|
    ensures forall i :: 0 <= i < |slots| ==> renamed[i] == RenameSlot(slots[i], ids)
  {
    seq(|slots|, i requires 0 <= i < |slots| => RenameSlot(slots[i], ids))
  }

  function RenameNode<A>(n: Node<A>, ids: map<A, nat>): Node<nat>
    requires Targets(n.contents, ids.Keys)
  {
    Node(n.kind, n.ip, n.name, RenameSlots(n.contents, ids))
  }

  /** The ids of a set of objects. */
  ghost predicate IdsOf<A>(seen: set<nat>, ids: map<A, nat>, final: map<A, nat>) {
    && (forall a :: a in ids ==> a in final && final[a] in seen)
    && (forall a :: a in final && final[a] in seen ==> a in ids)
  }

  /** The nodes created are the renamed objects entered between `ids` and `later`, and no others. */
  ghost predicate Copies<A>(heap: Heap<nat>, h: Heap<A>, ids: map<A, nat>, later: map<A, nat>, final: map<A, nat>) {
    && (forall a :: a in later && a !in ids ==>
          a in h && a in final && Targets(h[a].contents, final.Keys) &&
          final[a] in heap && heap[final[a]] == RenameNode(h[a], final))
    && (forall id :: id in heap ==> exists a :: a in later && a !in ids && a in final && final[a] == id)
  }

  /** `final` is the complete numbering of a run of the writer that passes through `later`. */
  ghost predicate Final<A>(h: Heap<A>, later: map<A, nat>, final: map<A, nat>) {
    && Numbered(final) && Extends(later, final) && final.Keys <= h.Keys
    && forall a :: a in final ==> Targets(h[a].contents, final.Keys)
  }

  lemma {:induction false} NameRoundTrip(r: Reader, name: seq<byte>, count: nat)
    requires |name| <= MAX_NAME && count <= MAX_FILE_CAPACITY && Ahead(r, NameAndCount(name, count))
    ensures ParseNameAndCount(r) == (name, count, Advance(r, |NameAndCount(name, count)|))
  {
    hide SizeBytes, DecodeSize;
    var size, children := SizeBytes(|name|), SizeBytes(count);
    SizeRoundTrip(r, |name|, name + children);
    var r1 := Advance(r, |size|);
    ReadAhead(r1, name, children);
    assert children == children + [];
    SizeRoundTrip(Advance(r1, |name|), count, []);
  }

  lemma KindRoundTrip(kind: nat)
    requires kind < 0x10000
    ensures FromLittleEndian(LittleEndian(kind, 2)) == kind
  {
    WordPower();
    LittleEndianRoundTrip(kind, 2);
  }

  lemma {:induction false} EachRoundTrip(r: Reader, bs: seq<byte>, rest: seq<byte>)
    requires Ahead(r, bs + rest)
    ensures ReadEach(r, |bs|) == (bs, Advance(r, |bs|)) && Ahead(Advance(r, |bs|), rest)
    decreases |bs|
  {
    if bs == [] {
      assert bs + rest == rest;
    } else {
      assert bs + rest == [bs[0]] + (bs[1..] + rest);
      ReadAhead(r, [bs[0]], bs[1..] + rest);
      EachRoundTrip(Advance(r, 1), bs[1..], rest);
      assert bs == [bs[0]] + bs[1..];
    }
  }

  lemma {:induction false} HeadRoundTrip<A>(r: Reader, n: Node<A>, rest: seq<byte>)
    requires NodeOk(n) && Ahead(r, Head(n) + rest)
    ensures ParseHead(r) == (Node(n.kind, n.ip, n.name, []), |n.contents|, Advance(r, |Head(n)|))
    ensures Ahead(Advance(r, |Head(n)|), rest)
  {
    hide NameAndCount, ParseNameAndCount, LittleEndian, FromLittleEndian, ReadEach;
    var names := NameAndCount(n.name, |n.contents|);
    var kind := LittleEndian(n.kind, 2);
    ReadAhead(r, Head(n), rest);
    assert Ahead(r, kind + (n.ip + names));
    ReadAhead(r, kind, n.ip + names);
    KindRoundTrip(n.kind);
    EachRoundTrip(Advance(r, 2), n.ip, names);
    NameRoundTrip(Advance(Advance(r, 2), 4), n.name, |n.contents|);
  }

  /** What parsing the bytes of a run of the writer from `ids` to `w.ids` must leave behind. */
  ghost predicate ReadBack<A, T>(h: Heap<A>, ids: map<A, nat>, w: Written<A>, final: map<A, nat>, r: Reader, p: Parsed<T>)
    requires r.Reading?
  {
    && p.reader == Advance(r, |w.bytes|)
    && IdsOf(p.seen, w.ids, final)
    && Copies(p.heap, h, ids, w.ids, final)
  }

  lemma {:induction false} NoSlotsRoundTrip<A>(h: Heap<A>, ids: map<A, nat>, final: map<A, nat>, r: Reader, seen: set<nat>)
    requires HeapOk(h) && ids.Keys <= h.Keys && |h| < SIZE_LIMIT && Numbered(ids)
    requires IdsOf(seen, ids, final) && r.Valid() && r.Reading?
    ensures Targets<A>([], h.Keys) && Targets<A>([], final.Keys)
    ensures ParseSlots(r, 0, seen).value == RenameSlots<A>([], final)
    ensures ReadBack(h, ids, WriteSlots(h, [], ids), final, r, ParseSlots(r, 0, seen))
  {
    assert WriteSlots(h, [], ids) == Written([], ids);
  }

  lemma ExtendsKeys<A>(ids: map<A, nat>, later: map<A, nat>)
    requires Extends(ids, later)
    ensures ids.Keys <= later.Keys
  {
  }

  lemma {:induction false} WriteSlotsStep<A>(h: Heap<A>, slots: seq<Option<A>>, ids: map<A, nat>)
    requires HeapOk(h) && slots != [] && Targets(slots, h.Keys) && Targets(slots[1..], h.Keys)
    requires ids.Keys <= h.Keys && |h| < SIZE_LIMIT && Numbered(ids) && (slots[0].Some? ==> slots[0].value in h)
    ensures var first := WriteSlot(h, slots[0], ids);
            var rest := WriteSlots(h, slots[1..], first.ids);
            WriteSlots(h, slots, ids) == Written(first.bytes + rest.bytes, rest.ids)
  {
  }

  lemma {:induction false} FinalEarlier<A>(h: Heap<A>, mid: map<A, nat>, later: map<A, nat>, final: map<A, nat>)
    requires Final(h, later, final) && Extends(mid, later)
    ensures Final(h, mid, final)
  {
  }

  lemma {:induction false} KnownSlotRoundTrip<A>(h: Heap<A>, a: A, ids: map<A, nat>, final: map<A, nat>, r: Reader,
                                                 seen: set<nat>)
    requires a in ids && 1 <= ids[a] < SIZE_LIMIT && Extends(ids, final) && IdsOf(seen, ids, final)
    requires Ahead(r, SizeBytes(ids[a]))
    ensures a in final && final[a] == ids[a]
    ensures ParseSlot(r, seen) == Parsed(Some(ids[a]), Advance(r, |SizeBytes(ids[a])|), seen, map[])
    ensures Copies(map[], h, ids, ids, final)
  {
    hide SizeBytes, DecodeSize;
    assert SizeBytes(ids[a]) == SizeBytes(ids[a]) + [];
    SizeRoundTrip(r, ids[a], []);
  }

  lemma {:induction false} EnterId<A>(seen: set<nat>, ids: map<A, nat>, a: A, final: map<A, nat>)
    requires IdsOf(seen, ids, final) && Numbered(final) && a in final && a !in ids
    ensures IdsOf(seen + {final[a]}, ids[a := final[a]], final) && final[a] !in seen
  {
  }

  lemma {:induction false} CopyEntered<A>(heap: Heap<nat>, h: Heap<A>, ids: map<A, nat>, a: A, later: map<A, nat>,
                                          final: map<A, nat>)
    requires a in h && a !in ids && a in later && a in final && Numbered(final) && Targets(h[a].contents, final.Keys)
    requires Copies(heap, h, ids[a := final[a]], later, final)
    ensures Copies(heap[final[a] := RenameNode(h[a], final)], h, ids, later, final)
  {
    var whole := heap[final[a] := RenameNode(h[a], final)];
    forall b | b in later && b !in ids
      ensures b in h && b in final && Targets(h[b].contents, final.Keys)
      ensures final[b] in whole && whole[final[b]] == RenameNode(h[b], final)
    {
      if b != a {
        assert b !in ids[a := final[a]];
      }
    }
    forall id | id in whole
      ensures exists b :: b in later && b !in ids && b in final && final[b] == id
    {
      if id == final[a] {
        assert a in later;
      } else {
        var b :| b in later && b !in ids[a := final[a]] && b in final && final[b] == id;
        assert b !in ids;
      }
    }
  }

  lemma {:induction false} FirstSlotRoundTrip<A>(h: Heap<A>, slots: seq<Option<A>>, ids: map<A, nat>,
                                                 final: map<A, nat>, r: Reader, seen: set<nat>)
    requires HeapOk(h) && slots != [] && Targets(slots, h.Keys) && Targets(slots[1..], h.Keys)
    requires ids.Keys <= h.Keys && |h| < SIZE_LIMIT && Numbered(ids) && (slots[0].Some? ==> slots[0].value in h)
    requires Final(h, WriteSlots(h, slots, ids).ids, final) && IdsOf(seen, ids, final)
    requires Ahead(r, WriteSlots(h, slots, ids).bytes)
    ensures slots[0].Some? ==> slots[0].value in final
    ensures ParseSlot(r, seen).value == RenameSlot(slots[0], final)
    ensures var first := WriteSlot(h, slots[0], ids);
            var p := ParseSlot(r, seen);
            var rest := WriteSlots(h, slots[1..], first.ids);
            ReadBack(h, ids, first, final, r, p) && IdsOf(p.seen, first.ids, final) &&
            Final(h, rest.ids, final) && Ahead(p.reader, rest.bytes)
    decreases h.Keys - ids.Keys, |slots|, 1
  {
    WriteSlotsStep(h, slots, ids);
    hide HeapOk, NodeOk, Numbered, IdsOf, Copies, Final, Targets, WriteSlot, ParseSlot, WriteSlots;
    var first := WriteSlot(h, slots[0], ids);
    var rest := WriteSlots(h, slots[1..], first.ids);
    FinalEarlier(h, first.ids, rest.ids, final);
    ReadAhead(r, first.bytes, rest.bytes);
    assert Ahead(r, first.bytes);
    SlotRoundTrip(h, slots[0], ids, final, r, seen);
  }

  lemma {:induction false} CopiesChain<A>(first: Heap<nat>, second: Heap<nat>, h: Heap<A>,
                                          ids: map<A, nat>, mid: map<A, nat>, later: map<A, nat>, final: map<A, nat>)
    requires Extends(ids, mid) && Extends(mid, later) && Numbered(final)
    requires Copies(first, h, ids, mid, final) && Copies(second, h, mid, later, final)
    ensures Copies(first + second, h, ids, later, final)
  {
    forall a | a in later && a !in ids
      ensures a in h && a in final && Targets(h[a].contents, final.Keys)
      ensures final[a] in first + second && (first + second)[final[a]] == RenameNode(h[a], final)
    {
    }
    forall id | id in first + second
      ensures exists a :: a in later && a !in ids && a in final && final[a] == id
    {
      if id in second {
        var a :| a in later && a !in mid && a in final && final[a] == id;
        assert a !in ids;
      } else {
        var a :| a in mid && a !in ids && a in final && final[a] == id;
        assert a in later;
      }
    }
  }

  lemma {:induction false} ReadBackChain<A>(h: Heap<A>, ids: map<A, nat>, first: Written<A>, rest: Written<A>,
                                            final: map<A, nat>,
                                            r: Reader, p: Parsed<Option<nat>>, q: Parsed<seq<Option<nat>>>)
    requires r.Reading? && p.reader.Reading? && Numbered(final)
    requires Extends(ids, first.ids) && Extends(first.ids, rest.ids)
    requires ReadBack(h, ids, first, final, r, p) && ReadBack(h, first.ids, rest, final, p.reader, q)
    ensures ReadBack(h, ids, Written(first.bytes + rest.bytes, rest.ids), final, r,
                     Parsed([p.value] + q.value, q.reader, q.seen, p.heap + q.heap))
  {
    hide Copies, IdsOf, Numbered, Extends;
    CopiesChain(p.heap, q.heap, h, ids, first.ids, rest.ids, final);
  }

  lemma {:induction false} ParseSlotsStep(r: Reader, count: nat, seen: set<nat>)
    requires r.Valid() && count > 0
    ensures var p := ParseSlot(r, seen);
            var q := ParseSlots(p.reader, count - 1, p.seen);
            ParseSlots(r, count, seen) == Parsed([p.value] + q.value, q.reader, q.seen, p.heap + q.heap)
  {
  }

  lemma {:induction false} RenameFirst<A>(slots: seq<Option<A>>, final: map<A, nat>)
    requires slots != [] && Targets(slots[1..], final.Keys) && (slots[0].Some? ==> slots[0].value in final)
    ensures Targets(slots, final.Keys)
    ensures RenameSlots(slots, final) == [RenameSlot(slots[0], final)] + RenameSlots(slots[1..], final)
  {
    forall i | 0 <= i < |slots| && slots[i].Some? ensures slots[i].value in final.Keys {
      if i > 0 { assert slots[1..][i - 1] == slots[i]; }
    }
  }

  lemma {:induction false} NumberedFinal<A>(h: Heap<A>, later: map<A, nat>, final: map<A, nat>)
    requires Final(h, later, final)
    ensures Numbered(final) && Extends(later, final)
  {
  }

  /** The first slot and the rest read back make the whole list read back. */
  lemma {:induction false} SlotsJoin<A>(h: Heap<A>, slots: seq<Option<A>>, ids: map<A, nat>, final: map<A, nat>,
                                        r: Reader, seen: set<nat>)
    requires HeapOk(h) && slots != [] && Targets(slots, h.Keys) && Targets(slots[1..], h.Keys)
    requires ids.Keys <= h.Keys && |h| < SIZE_LIMIT && Numbered(ids)
    requires (slots[0].Some? ==> slots[0].value in h) && (slots[0].Some? ==> slots[0].value in final)
    requires r.Valid() && r.Reading? && ParseSlot(r, seen).reader.Reading? && Targets(slots[1..], final.Keys)
    requires Final(h, WriteSlots(h, slots[1..], WriteSlot(h, slots[0], ids).ids).ids, final)
    requires var first := WriteSlot(h, slots[0], ids);
             var p := ParseSlot(r, seen);
             var q := ParseSlots(p.reader, |slots| - 1, p.seen);
             p.value == RenameSlot(slots[0], final) && ReadBack(h, ids, first, final, r, p) &&
             q.value == RenameSlots(slots[1..], final) &&
             ReadBack(h, first.ids, WriteSlots(h, slots[1..], first.ids), final, p.reader, q)
    ensures Targets(slots, final.Keys)
    ensures ParseSlots(r, |slots|, seen).value == RenameSlots(slots, final)
    ensures ReadBack(h, ids, WriteSlots(h, slots, ids), final, r, ParseSlots(r, |slots|, seen))
  {
    WriteSlotsStep(h, slots, ids);
    ParseSlotsStep(r, |slots|, seen);
    hide HeapOk, NodeOk, Numbered, IdsOf, Copies, Final, Targets, WriteSlot, ParseSlot, WriteSlots, ParseSlots;
    hide ReadBack, RenameSlots;
    var first := WriteSlot(h, slots[0], ids);
    var rest := WriteSlots(h, slots[1..], first.ids);
    var p := ParseSlot(r, seen);
    NumberedFinal(h, rest.ids, final);
    ReadBackChain(h, ids, first, rest, final, r, p, ParseSlots(p.reader, |slots| - 1, p.seen));
    RenameFirst(slots, final);
  }

  lemma {:induction false} RestTargets<A>(slots: seq<Option<A>>, s: set<A>)
    requires slots != [] && Targets(slots, s)
    ensures Targets(slots[1..], s) && (slots[0].Some? ==> slots[0].value in s)
  {
    assert slots[0] == slots[0];
  }

  lemma {:induction false} SlotsRoundTrip<A>(h: Heap<A>, slots: seq<Option<A>>, ids: map<A, nat>,
                                             final: map<A, nat>, r: Reader, seen: set<nat>)
    requires HeapOk(h) && Targets(slots, h.Keys)
    requires ids.Keys <= h.Keys && |h| < SIZE_LIMIT && Numbered(ids)
    requires Final(h, WriteSlots(h, slots, ids).ids, final) && IdsOf(seen, ids, final)
    requires Ahead(r, WriteSlots(h, slots, ids).bytes)
    ensures Targets(slots, final.Keys)
    ensures ParseSlots(r, |slots|, seen).value == RenameSlots(slots, final)
    ensures ReadBack(h, ids, WriteSlots(h, slots, ids), final, r, ParseSlots(r, |slots|, seen))
    decreases h.Keys - ids.Keys, |slots|, 2
  {
    hide HeapOk, NodeOk, Numbered, IdsOf, Copies, Final, Targets, WriteSlot, ParseSlot, WriteSlots, ParseSlots;
    hide RenameSlots, Extends;
    if slots == [] {
      NoSlotsRoundTrip(h, ids, final, r, seen);
    } else {
      RestTargets(slots, h.Keys);
      FirstSlotRoundTrip(h, slots, ids, final, r, seen);
      var first := WriteSlot(h, slots[0], ids);
      ExtendsKeys(ids, first.ids);
      NotMore(h.Keys, ids.Keys, first.ids.Keys);
      var p := ParseSlot(r, seen);
      SlotsRoundTrip(h, slots[1..], first.ids, final, p.reader, p.seen);
      SlotsJoin(h, slots, ids, final, r, seen);
    }
  }

  lemma {:induction false} NodeRoundTrip<A>(h: Heap<A>, n: Node<A>, ids: map<A, nat>, final: map<A, nat>,
                                            r: Reader, seen: set<nat>)
    requires HeapOk(h) && NodeOk(n) && Targets(n.contents, h.Keys)
    requires ids.Keys <= h.Keys && |h| < SIZE_LIMIT && Numbered(ids)
    requires Final(h, WriteNode(h, n, ids).ids, final) && IdsOf(seen, ids, final)
    requires Ahead(r, WriteNode(h, n, ids).bytes)
    ensures Targets(n.contents, final.Keys)
    ensures ParseNode(r, seen).value == RenameNode(n, final)
    ensures ReadBack(h, ids, WriteNode(h, n, ids), final, r, ParseNode(r, seen))
    decreases h.Keys - ids.Keys, |n.contents| + 1
  {
    hide HeapOk, NodeOk, Numbered, Final, IdsOf, Copies, Head, ParseHead;
    var children := WriteSlots(h, n.contents, ids);
    HeadRoundTrip(r, n, children.bytes);
    SlotsRoundTrip(h, n.contents, ids, final, Advance(r, |Head(n)|), seen);
  }

  lemma {:induction false} NewSlotRoundTrip<A>(h: Heap<A>, a: A, ids: map<A, nat>, final: map<A, nat>, r: Reader,
                                               seen: set<nat>)
    requires HeapOk(h) && a in h && a !in ids && NodeOk(h[a]) && Targets(h[a].contents, h.Keys)
    requires ids.Keys <= h.Keys && |h| < SIZE_LIMIT && Numbered(ids)
    requires Final(h, WriteSlot(h, Some(a), ids).ids, final) && IdsOf(seen, ids, final)
    requires Ahead(r, WriteSlot(h, Some(a), ids).bytes)
    requires var entered := ids[a := |ids| + 1];
             entered.Keys <= h.Keys && Numbered(entered) && h.Keys - entered.Keys < h.Keys - ids.Keys && |ids| < |h|
    ensures a in final && ParseSlot(r, seen).value == Some(final[a])
    ensures ReadBack(h, ids, WriteSlot(h, Some(a), ids), final, r, ParseSlot(r, seen))
    decreases h.Keys - ids.Keys, 0, 0
  {
    hide HeapOk, NodeOk, Numbered, SizeBytes, DecodeSize, Copies, WriteNode, ParseNode;
    var id := |ids| + 1;
    var entered := ids[a := id];
    var payload := WriteNode(h, h[a], entered);
    assert WriteSlot(h, Some(a), ids) == Written(SizeBytes(id) + payload.bytes, payload.ids);
    assert final[a] == id;
    SizeRoundTrip(r, id, payload.bytes);
    var next := Advance(r, |SizeBytes(id)|);
    EnterId(seen, ids, a, final);
    NodeRoundTrip(h, h[a], entered, final, next, seen + {id});
    var p := ParseNode(next, seen + {id});
    assert ParseSlot(r, seen) == Parsed(Some(id), p.reader, p.seen, p.heap[id := p.value]);
    CopyEntered(p.heap, h, ids, a, payload.ids, final);
  }

  lemma {:induction false} SlotRoundTrip<A>(h: Heap<A>, slot: Option<A>, ids: map<A, nat>, final: map<A, nat>,
                                            r: Reader, seen: set<nat>)
    requires HeapOk(h) && (slot.Some? ==> slot.value in h)
    requires ids.Keys <= h.Keys && |h| < SIZE_LIMIT && Numbered(ids)
    requires Final(h, WriteSlot(h, slot, ids).ids, final) && IdsOf(seen, ids, final)
    requires Ahead(r, WriteSlot(h, slot, ids).bytes)
    ensures slot.Some? ==> slot.value in final
    ensures ParseSlot(r, seen).value == RenameSlot(slot, final)
    ensures ReadBack(h, ids, WriteSlot(h, slot, ids), final, r, ParseSlot(r, seen))
    decreases h.Keys - ids.Keys, 0, 1
  {
    match slot
    case None =>
      hide HeapOk, Numbered;
      assert SizeBytes(0) == SizeBytes(0) + [];
      SizeRoundTrip(r, 0, []);
    case Some(a) =>
      FewIds(h, ids);
      if a in ids {
        KnownSlotRoundTrip(h, a, ids, final, r, seen);
      } else {
        NextId(h, ids, a);
        HeapNode(h, a);
        hide HeapOk, NodeOk, Numbered, IdsOf, Final, ReadBack;
        NewSlotRoundTrip(h, a, ids, final, r, seen);
      }
  }

  // ---- the main theorem ----

  /** `iso` maps the reachable objects one-to-one onto the nodes of the copy, keeping type, ip, name and
      the order of the children. */
  ghost predicate Isomorphic<A>(h: Heap<A>, root: Node<A>, copy: Outcome, iso: map<A, nat>) {
    && IsReachableSet(h, root, iso.Keys) && iso.Values == copy.heap.Keys
    && (forall a, b :: a in iso && b in iso && iso[a] == iso[b] ==> a == b)
    && copy.root == RenameNode(root, iso)
    && forall a :: a in iso ==> copy.heap[iso[a]] == RenameNode(h[a], iso)
  }

  lemma {:induction false} RunIsFinal<A>(h: Heap<A>, root: Node<A>, ids: map<A, nat>)
    requires HeapOk(h) && Numbered(ids) && ids.Keys <= h.Keys && IsReachableSet(h, root, ids.Keys)
    ensures Final(h, ids, ids) && IdsOf({}, map[], ids)
  {
    forall a | a in ids ensures ids[a] !in {} {}
  }

  lemma {:induction false} CopiesAreIsomorphic<A>(h: Heap<A>, root: Node<A>, ids: map<A, nat>, copy: Outcome)
    requires Numbered(ids) && IsReachableSet(h, root, ids.Keys) && Copies(copy.heap, h, map[], ids, ids)
    requires copy.root == RenameNode(root, ids)
    ensures Isomorphic(h, root, copy, ids)
  {
    forall id ensures id in ids.Values <==> id in copy.heap {
      if id in ids.Values {
        var a :| a in ids && ids[a] == id;
      }
      if id in copy.heap {
        var a :| a in ids && ids[a] == id;
      }
    }
    assert ids.Values == copy.heap.Keys;
  }

  /** The graph round trip: serialising any finite graph and deserialising the bytes into a fresh root
      is accepted and gives an isomorphic graph, the isomorphism being the writer's numbering. */
  lemma {:induction false} GraphRoundTrip<A>(h: Heap<A>, root: Node<A>)
    requires HeapOk(h) && NodeOk(root) && Targets(root.contents, h.Keys) && |h| < SIZE_LIMIT
    ensures var w := Serialize(h, root);
            Deserialize(w.bytes).accepted && Isomorphic(h, root, Deserialize(w.bytes), w.ids)
  {
    var w := Serialize(h, root);
    var none: map<A, nat> := map[];
    ReachableObjectsGetIds(h, root);
    RunIsFinal(h, root, w.ids);
    var r := Start(w.bytes);
    assert w.bytes[0..|w.bytes|] == w.bytes;
    hide HeapOk, NodeOk, Numbered, Final, Copies, ParseNode, WriteNode, IsReachableSet;
    NodeRoundTrip(h, root, none, w.ids, r, {});
    CopiesAreIsomorphic(h, root, w.ids, Deserialize(w.bytes));
  }

  /** Whatever a node accepted from the network it can ship on: the parsed graph meets the serialiser's
      preconditions and survives another round trip. */
  lemma {:induction false} AcceptedGraphsCanBeShippedOn(data: seq<byte>)
    requires |data| < SIZE_LIMIT
    ensures var o := Deserialize(data);
            HeapOk(o.heap) && NodeOk(o.root) && Targets(o.root.contents, o.heap.Keys) && |o.heap| < SIZE_LIMIT &&
            var w := Serialize(o.heap, o.root);
            Deserialize(w.bytes).accepted && Isomorphic(o.heap, o.root, Deserialize(w.bytes), w.ids)
  {
    ParsingIsTotal(data);
    var o := Deserialize(data);
    GraphRoundTrip(o.heap, o.root);
  }

  /** The sample of the writer, read back: one node with id 1, which is its own child and twice the root's. */
  lemma {:induction false} SampleParsed()
    ensures Deserialize([0, 0, 10, 0, 0, 2, 0, 3] + ([1] + ([1, 0, 127, 0, 0, 1, 1, 120, 1] + [1]) + ([0] + [1])))
         == Outcome(true, SAMPLE_ROOT.(contents := [Some(1), None, Some(1)]), map[1 := SAMPLE_FILE.(contents := [Some(1)])])
  {
    hide Serialize, Deserialize, HeapOk, NodeOk, IsReachableSet;
    SampleBytes();
    GraphRoundTrip(SAMPLE_HEAP, SAMPLE_ROOT);
    var w := Serialize(SAMPLE_HEAP, SAMPLE_ROOT);
    var o := Deserialize(w.bytes);
    assert o.heap.Keys == {1};
    assert RenameNode(SAMPLE_ROOT, w.ids).contents == [Some(1), None, Some(1)];
    assert RenameNode(SAMPLE_FILE, w.ids).contents == [Some(1)];
    assert o.heap[w.ids[7]] == RenameNode(SAMPLE_HEAP[7], w.ids);
    assert o.heap == map[1 := SAMPLE_FILE.(contents := [Some(1)])];
  }
}
