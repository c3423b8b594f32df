/** Serialising the file tree in place: the adapter and the linking context are updated step by step,
    and the outcome is that of the writer on heaps. */
module SerializeFs {
  import opened Wrappers
  import opened Bytes
  import opened OutputBuffer
  import opened LengthPrefix
  import opened PointerLinking
  import opened FileGraph
  import opened FileParser
  import opened FileTree

  // ---- the linking context as a numbering ----

  ghost function Ids(reg: Registry<FileContent>): (ids: map<FileContent, nat>)
    ensures ids.Keys == reg.ptrMap.Keys && |ids| == |reg.ptrMap|
  {
    var ids := map p | p in reg.ptrMap :: reg.ptrMap[p].id;
    assert ids.Keys == reg.ptrMap.Keys;
    assert |ids| == |ids.Keys| && |reg.ptrMap| == |reg.ptrMap.Keys|;
    ids
  }

  ghost predicate SharedOnly(reg: Registry<FileContent>) {
    && reg.currId == |reg.ptrMap|
    && forall p :: p in reg.ptrMap ==> reg.ptrMap[p].info.ownershipType.SharedOwner?
  }

  ghost predicate CanWrite(h: Heap<FileContent>, ids: map<FileContent, nat>) {
    HeapOk(h) && |h| < SIZE_LIMIT && Numbered(ids) && ids.Keys <= h.Keys
  }

  /** Only shared pointers have been met, all of them of the heap, and they are numbered `1..n`. */
  ghost predicate Ready(h: Heap<FileContent>, reg: Registry<FileContent>) {
    SharedOnly(reg) && CanWrite(h, Ids(reg))
  }

  /** `h` is what the objects in memory are. */
  ghost predicate Mirrors(h: Heap<FileContent>)
    reads h.Keys
  {
    forall o :: o in h ==> h[o] == o.Value()
  }

  lemma MirroredAt(h: Heap<FileContent>, o: FileContent)
    requires Mirrors(h) && o in h
    ensures h[o] == o.Value()
  {
  }

  // ---- what the pieces of code write ----

  ghost predicate SlotWritten(h: Heap<FileContent>, slot: Option<FileContent>, t: Tape, ids: map<FileContent, nat>,
                              after: Tape, later: map<FileContent, nat>) {
    && t.Valid() && CanWrite(h, ids) && (slot.Some? ==> slot.value in h)
    && var w := WriteSlot(h, slot, ids); after == t.Write(w.bytes) && later == w.ids
  }

  ghost predicate SlotsWritten(h: Heap<FileContent>, slots: seq<Option<FileContent>>, t: Tape, ids: map<FileContent, nat>,
                               after: Tape, later: map<FileContent, nat>) {
    && t.Valid() && CanWrite(h, ids) && Targets(slots, h.Keys)
    && var w := WriteSlots(h, slots, ids); after == t.Write(w.bytes) && later == w.ids
  }

  ghost predicate NodeWritten(h: Heap<FileContent>, n: Node<FileContent>, t: Tape, ids: map<FileContent, nat>,
                              after: Tape, later: map<FileContent, nat>) {
    && t.Valid() && CanWrite(h, ids) && NodeOk(n) && Targets(n.contents, h.Keys)
    && var w := WriteNode(h, n, ids); after == t.Write(w.bytes) && later == w.ids
  }

  lemma {:induction false} NodeFromParts(h: Heap<FileContent>, n: Node<FileContent>, t: Tape, ids: map<FileContent, nat>,
                                         after: Tape, later: map<FileContent, nat>)
    requires t.Valid() && NodeOk(n)
    requires SlotsWritten(h, n.contents, t.Write(Head(n)), ids, after, later)
    ensures NodeWritten(h, n, t, ids, after, later)
  {
    hide Tape.Write, HeapOk, Numbered, Head;
    WritesJoin(t, Head(n), WriteSlots(h, n.contents, ids).bytes);
  }

  lemma WriteNothing(t: Tape)
    requires t.Valid()
    ensures t.Write([]) == t
  {
  }

  lemma {:induction false} NoSlots(h: Heap<FileContent>, t: Tape, reg: Registry<FileContent>)
    requires t.Valid() && Ready(h, reg)
    ensures SlotsWritten(h, [], t, Ids(reg), t, Ids(reg))
  {
    WriteNothing(t);
  }

  lemma {:induction false} SlotsAppend(h: Heap<FileContent>, slots: seq<Option<FileContent>>, slot: Option<FileContent>,
                                       ids: map<FileContent, nat>)
    requires CanWrite(h, ids) && Targets(slots + [slot], h.Keys) && Targets(slots, h.Keys) && (slot.Some? ==> slot.value in h)
    ensures var front := WriteSlots(h, slots, ids);
            var last := WriteSlot(h, slot, front.ids);
            WriteSlots(h, slots + [slot], ids) == Written(front.bytes + last.bytes, last.ids)
    decreases |slots|
  {
    hide HeapOk, Numbered, WriteSlot, Targets;
    var more := slots + [slot];
    if slots == [] {
      assert more == [slot] && more[1..] == [];
      var last := WriteSlot(h, slot, ids);
      RestTargets(more, h.Keys);
      WriteSlotsStep(h, more, ids);
      assert WriteSlots(h, [], last.ids) == Written([], last.ids);
      assert [] + last.bytes == last.bytes + [];
      return;
    }
    assert more[1..] == slots[1..] + [slot] && more[0] == slots[0];
    RestTargets(slots, h.Keys);
    RestTargets(more, h.Keys);
    WriteSlotsStep(h, slots, ids);
    WriteSlotsStep(h, more, ids);
    var mid := WriteSlot(h, slots[0], ids);
    SlotsAppend(h, slots[1..], slot, mid.ids);
    var front := WriteSlots(h, slots[1..], mid.ids);
    assert mid.bytes + (front.bytes + WriteSlot(h, slot, front.ids).bytes)
        == (mid.bytes + front.bytes) + WriteSlot(h, slot, front.ids).bytes;
  }

  lemma {:induction false} OneMoreSlot(h: Heap<FileContent>, slots: seq<Option<FileContent>>, slot: Option<FileContent>,
                                       t: Tape, ids: map<FileContent, nat>, mid: Tape, between: map<FileContent, nat>,
                                       after: Tape, later: map<FileContent, nat>)
    requires SlotsWritten(h, slots, t, ids, mid, between) && SlotWritten(h, slot, mid, between, after, later)
    ensures SlotsWritten(h, slots + [slot], t, ids, after, later)
    decreases |slots|
  {
    var more := slots + [slot];
    forall i | 0 <= i < |more| && more[i].Some? ensures more[i].value in h.Keys {
      if i < |slots| { assert slots[i] == more[i]; }
    }
    SlotsAppend(h, slots, slot, ids);
    hide Tape.Write, CanWrite;
    WritesJoin(t, WriteSlots(h, slots, ids).bytes, WriteSlot(h, slot, between).bytes);
  }

  lemma {:induction false} SlotsGrow(h: Heap<FileContent>, slots: seq<Option<FileContent>>, t: Tape, ids: map<FileContent, nat>,
                                     after: Tape, later: map<FileContent, nat>)
    requires SlotsWritten(h, slots, t, ids, after, later)
    ensures h.Keys - later.Keys == h.Keys - ids.Keys || h.Keys - later.Keys < h.Keys - ids.Keys
  {
    NotMore(h.Keys, ids.Keys, later.Keys);
  }

  // ---- the context's answers ----

  ghost predicate KnownObject(h: Heap<FileContent>, o: FileContent, ids: map<FileContent, nat>, id: nat,
                              later: map<FileContent, nat>) {
    CanWrite(h, ids) && o in h && id < SIZE_LIMIT && WriteSlot(h, Some(o), ids) == Written(SizeBytes(id), later)
  }

  /** The slot of a new object is its id and its payload, and there are fewer objects left. */
  ghost predicate NewObject(h: Heap<FileContent>, o: FileContent, ids: map<FileContent, nat>, id: nat,
                            entered: map<FileContent, nat>) {
    && CanWrite(h, ids) && CanWrite(h, entered) && o in h && NodeOk(h[o]) && Targets(h[o].contents, h.Keys)
    && id < SIZE_LIMIT && h.Keys - entered.Keys < h.Keys - ids.Keys
    && var payload := WriteNode(h, h[o], entered);
       WriteSlot(h, Some(o), ids) == Written(SizeBytes(id) + payload.bytes, payload.ids)
  }

  ghost predicate Answer(h: Heap<FileContent>, o: FileContent, ids: map<FileContent, nat>, e: Entry,
                         later: map<FileContent, nat>) {
    && e.id < SIZE_LIMIT && o in h && NodeOk(h[o]) && Targets(h[o].contents, h.Keys)
    && if e.info.isSharedProcessed then KnownObject(h, o, ids, e.id, later)
       else NewObject(h, o, ids, e.id, later) && h.Keys - later.Keys < h.Keys - ids.Keys
  }

  lemma {:induction false} NewSlot(h: Heap<FileContent>, o: FileContent, ids: map<FileContent, nat>)
    requires CanWrite(h, ids) && o in h && o !in ids
    ensures NewObject(h, o, ids, |ids| + 1, ids[o := |ids| + 1])
  {
    NextId(h, ids, o);
    HeapNode(h, o);
  }

  lemma {:induction false} EnterKnown(reg: Registry<FileContent>, o: FileContent, h: Heap<FileContent>)
    requires Ready(h, reg) && o in reg.ptrMap
    ensures reg.Permits(o, SharedOwner)
    ensures var next := reg.Enter(o, SharedOwner);
            Ready(h, next) && Ids(next) == Ids(reg) &&
            next.ptrMap[o].info.isSharedProcessed && next.ptrMap[o].id == Ids(reg)[o] <= |h|
  {
    var next := reg.Enter(o, SharedOwner);
    FewIds(h, Ids(reg));
    assert next.ptrMap.Keys == reg.ptrMap.Keys;
    assert Ids(next) == Ids(reg);
  }

  lemma {:induction false} IdsOfEntered(reg: Registry<FileContent>, next: Registry<FileContent>, o: FileContent)
    requires o !in reg.ptrMap && next == reg.Enter(o, SharedOwner) && reg.currId == |reg.ptrMap|
    ensures Ids(next) == Ids(reg)[o := |Ids(reg)| + 1] && |next.ptrMap| == |reg.ptrMap| + 1
  {
    assert Ids(next).Keys == Ids(reg)[o := |Ids(reg)| + 1].Keys;
    assert next.ptrMap.Keys == reg.ptrMap.Keys + {o};
    assert |next.ptrMap| == |next.ptrMap.Keys| && |reg.ptrMap| == |reg.ptrMap.Keys|;
  }

  lemma {:induction false} EnterNew(reg: Registry<FileContent>, o: FileContent, h: Heap<FileContent>)
    requires Ready(h, reg) && o in h && o !in reg.ptrMap
    ensures reg.Permits(o, SharedOwner)
    ensures var next := reg.Enter(o, SharedOwner);
            Ready(h, next) && Ids(next) == Ids(reg)[o := |Ids(reg)| + 1] &&
            !next.ptrMap[o].info.isSharedProcessed && next.ptrMap[o].id == |Ids(reg)| + 1 <= |h|
  {
    hide Numbered, Ids, HeapOk;
    NextId(h, Ids(reg), o);
    IdsOfEntered(reg, reg.Enter(o, SharedOwner), o);
    assert SharedOnly(reg.Enter(o, SharedOwner));
  }

  /** What is to be written for an object, told by the entry the context makes for it: its id, and its
      payload unless it has been processed. */
  lemma {:induction false} SharedSlot(h: Heap<FileContent>, o: FileContent, reg: Registry<FileContent>)
    requires Ready(h, reg) && o in h
    ensures reg.Permits(o, SharedOwner)
    ensures var next := reg.Enter(o, SharedOwner);
            Ready(h, next) && Answer(h, o, Ids(reg), next.ptrMap[o], Ids(next))
  {
    HeapNode(h, o);
    if o in reg.ptrMap {
      EnterKnown(reg, o, h);
    } else {
      EnterNew(reg, o, h);
      NewSlot(h, o, Ids(reg));
    }
  }

  lemma {:induction false} PayloadWritten(h: Heap<FileContent>, o: FileContent, ids: map<FileContent, nat>, id: nat,
                                          entered: map<FileContent, nat>, t: Tape, after: Tape, later: map<FileContent, nat>)
    requires t.Valid() && NewObject(h, o, ids, id, entered)
    requires NodeWritten(h, h[o], t.Write(SizeBytes(id)), entered, after, later)
    ensures SlotWritten(h, Some(o), t, ids, after, later)
  {
    hide Tape.Write, HeapOk, Numbered, SizeBytes, WriteSlot, WriteNode;
    WritesJoin(t, SizeBytes(id), WriteNode(h, h[o], entered).bytes);
  }

  lemma {:induction false} IdWritten(h: Heap<FileContent>, o: FileContent, ids: map<FileContent, nat>, id: nat,
                                     t: Tape, later: map<FileContent, nat>)
    requires t.Valid() && KnownObject(h, o, ids, id, later)
    ensures SlotWritten(h, Some(o), t, ids, t.Write(SizeBytes(id)), later)
  {
  }

  // ---- the serialiser ----

  method WriteIp(w: OutputBufferAdapter, ip: seq<byte>)
    requires w.Valid()
    modifies w
    ensures w.Valid() && w.View() == old(w.View()).Write(ip)
  {
    ghost var start := w.View();
    assert start.Write([]) == start;
    for i := 0 to |ip|
      invariant w.Valid() && w.View() == start.Write(ip[..i])
    {
      WritesJoin(start, ip[..i], [ip[i]]);
      assert ip[..i + 1] == ip[..i] + [ip[i]];
      w.Write([ip[i]]);
    }
    assert ip[..|ip|] == ip;
  }

  method WriteName(w: OutputBufferAdapter, name: seq<byte>, count: nat)
    requires w.Valid() && |name| <= MAX_NAME && count <= MAX_FILE_CAPACITY
    modifies w
    ensures w.Valid() && w.View() == old(w.View()).Write(NameAndCount(name, count))
  {
    hide SizeBytes, Tape.Write, OutputBufferAdapter.View, OutputBufferAdapter.Valid;
    ghost var start := w.View();
    WriteNothing(start.Write(SizeBytes(|name|)));
    WriteSize(w, |name|);
    if |name| > 0 {
      w.Write(name);
    }
    WriteSize(w, count);
    WritesJoin(start, SizeBytes(|name|), name);
    WritesJoin(start, SizeBytes(|name|) + name, SizeBytes(count));
    assert SizeBytes(|name|) + name + SizeBytes(count) == NameAndCount(name, count);
  }

  lemma {:induction false} HeadWritten(start: Tape, n: Node<FileContent>)
    requires start.Valid() && NodeOk(n)
    ensures start.Write(LittleEndian(n.kind, 2)).Write(n.ip).Write(NameAndCount(n.name, |n.contents|)) == start.Write(Head(n))
  {
    hide LittleEndian, NameAndCount, Tape.Write;
    var kind, names := LittleEndian(n.kind, 2), NameAndCount(n.name, |n.contents|);
    WritesJoin(start, kind, n.ip);
    WritesJoin(start, kind + n.ip, names);
    assert kind + n.ip + names == kind + (n.ip + names);
  }

  method WriteHead(w: OutputBufferAdapter, node: FileContent)
    requires w.Valid() && NodeOk(node.Value())
    modifies w
    ensures w.Valid() && w.View() == old(w.View()).Write(Head(node.Value()))
  {
    hide LittleEndian, NameAndCount, Tape.Write, OutputBufferAdapter.View, OutputBufferAdapter.Valid;
    ghost var start, n := w.View(), node.Value();
    w.Write(LittleEndian(node.kind, 2));
    WriteIp(w, node.ip);
    WriteName(w, node.name, |node.contents|);
    HeadWritten(start, n);
  }

  lemma ChildInHeap(h: Heap<FileContent>, slots: seq<Option<FileContent>>, i: nat)
    requires Targets(slots, h.Keys) && i < |slots|
    ensures slots[i].Some? ==> slots[i].value in h
  {
  }

  method LookUp(child: FileContent, ctx: PointerLinkingContextSerialization<FileContent>, ghost h: Heap<FileContent>)
    returns (entry: Entry)
    requires Ready(h, ctx.View()) && child in h
    modifies ctx
    ensures Ready(h, ctx.View()) && Answer(h, child, old(Ids(ctx.View())), entry, Ids(ctx.View()))
  {
    hide Ready, Answer, Ids, Registry.Enter, Registry.Permits;
    SharedSlot(h, child, ctx.View());
    entry := ctx.GetInfoByPtr(child, SharedOwner);
  }

  method SerializeSlots(children: seq<FileContent?>, w: OutputBufferAdapter,
                        ctx: PointerLinkingContextSerialization<FileContent>,
                        ghost h: Heap<FileContent>)
    requires w.Valid() && Ready(h, ctx.View()) && Mirrors(h) && Targets(Slots(children), h.Keys)
    modifies w, ctx
    ensures w.Valid() && Ready(h, ctx.View()) && Mirrors(h)
    ensures SlotsWritten(h, Slots(children), old(w.View()), old(Ids(ctx.View())), w.View(), Ids(ctx.View()))
    decreases h.Keys - Ids(ctx.View()).Keys, |children|
  {
    hide Ready, SlotsWritten, SlotWritten, Tape.Write, Mirrors, Ids, Targets, Slots, OutputBufferAdapter.View;
    hide OutputBufferAdapter.Valid;
    ghost var start, first, slots := w.View(), Ids(ctx.View()), Slots(children);
    NoSlots(h, start, ctx.View());
    for i := 0 to |children|
      invariant w.Valid() && Ready(h, ctx.View()) && Mirrors(h)
      invariant SlotsWritten(h, slots[..i], start, first, w.View(), Ids(ctx.View()))
    {
      ghost var mid, between := w.View(), Ids(ctx.View());
      SlotsGrow(h, slots[..i], start, first, mid, between);
      ChildInHeap(h, slots, i);
      SerializePointer(children[i], w, ctx, h);
      OneMoreSlot(h, slots[..i], slots[i], start, first, mid, between, w.View(), Ids(ctx.View()));
      assert slots[..i + 1] == slots[..i] + [slots[i]];
    }
    assert slots[..|children|] == slots;
  }

  method SerializeNode(node: FileContent, w: OutputBufferAdapter, ctx: PointerLinkingContextSerialization<FileContent>,
                       ghost h: Heap<FileContent>)
    requires w.Valid() && Ready(h, ctx.View()) && Mirrors(h)
    requires NodeOk(node.Value()) && Targets(node.Value().contents, h.Keys)
    modifies w, ctx
    ensures w.Valid() && Ready(h, ctx.View()) && Mirrors(h)
    ensures NodeWritten(h, node.Value(), old(w.View()), old(Ids(ctx.View())), w.View(), Ids(ctx.View()))
    decreases h.Keys - Ids(ctx.View()).Keys, |node.contents| + 1
  {
    hide Head, HeapOk, Ready, Tape.Write, Mirrors, Targets, SlotsWritten, NodeWritten, Ids;
    hide OutputBufferAdapter.View, OutputBufferAdapter.Valid;
    ghost var start, n := w.View(), node.Value();
    WriteHead(w, node);
    SerializeSlots(node.contents, w, ctx, h);
    NodeFromParts(h, n, start, old(Ids(ctx.View())), w.View(), Ids(ctx.View()));
  }

  method SerializeObject(child: FileContent, w: OutputBufferAdapter, ctx: PointerLinkingContextSerialization<FileContent>,
                         ghost h: Heap<FileContent>)
    requires w.Valid() && Ready(h, ctx.View()) && Mirrors(h) && child in h
    modifies w, ctx
    ensures w.Valid() && Ready(h, ctx.View()) && Mirrors(h)
    ensures SlotWritten(h, Some(child), old(w.View()), old(Ids(ctx.View())), w.View(), Ids(ctx.View()))
    decreases h.Keys - Ids(ctx.View()).Keys, 0, 0
  {
    hide Ready, CanWrite, KnownObject, NewObject, SlotWritten, NodeWritten, Tape.Write, Mirrors, Ids, SizeBytes;
    hide NodeOk, Targets;
    hide FileContent.Value, OutputBufferAdapter.View, OutputBufferAdapter.Valid;
    ghost var start, ids := w.View(), Ids(ctx.View());
    MirroredAt(h, child);
    var entry := LookUp(child, ctx, h);
    WriteSize(w, entry.id);
    if entry.info.isSharedProcessed {
      IdWritten(h, child, ids, entry.id, start, Ids(ctx.View()));
    } else {
      ghost var entered := Ids(ctx.View());
      SerializeNode(child, w, ctx, h);
      PayloadWritten(h, child, ids, entry.id, entered, start, w.View(), Ids(ctx.View()));
    }
  }

  method SerializePointer(child: FileContent?, w: OutputBufferAdapter, ctx: PointerLinkingContextSerialization<FileContent>,
                          ghost h: Heap<FileContent>)
    requires w.Valid() && Ready(h, ctx.View()) && Mirrors(h) && (child != null ==> child in h)
    modifies w, ctx
    ensures w.Valid() && Ready(h, ctx.View()) && Mirrors(h)
    ensures SlotWritten(h, Slot(child), old(w.View()), old(Ids(ctx.View())), w.View(), Ids(ctx.View()))
    decreases h.Keys - Ids(ctx.View()).Keys, 0, 1
  {
    if child == null {
      WriteSize(w, 0);
    } else {
      SerializeObject(child, w, ctx, h);
    }
  }
}
