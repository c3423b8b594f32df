/** Deserialising a file tree in place: objects are created and filled while the adapter and the linking
    context advance, and the outcome is that of the parser on heaps. */
module DeserializeFs {
  import opened Wrappers
  import opened Bytes
  import opened InputBuffer
  import opened LengthPrefix
  import opened PointerLinking
  import opened FileGraph
  import opened FileParser
  import opened FileTree

  type Context = PointerLinkingContextDeserialization<FileContent>

  // ---- the linking context as a table of objects ----

  /** The objects a context has created, by id. */
  ghost function Objects(links: Links<FileContent>): map<nat, FileContent> {
    map id | id in links.idMap && links.idMap[id].sharedState.Some? :: links.idMap[id].sharedState.value
  }

  /** Only shared pointers have been met, each with its own object. */
  ghost predicate SharedOnly(links: Links<FileContent>) {
    && (forall id :: id in links.idMap ==>
          links.idMap[id].info.ownershipType.SharedOwner? && links.idMap[id].sharedState.Some? &&
          links.idMap[id].observers == [])
    && (forall a, b :: a in links.idMap && b in links.idMap && links.idMap[a].sharedState == links.idMap[b].sharedState ==> a == b)
  }

  ghost predicate Grown(before: map<nat, FileContent>, after: map<nat, FileContent>) {
    forall id :: id in before ==> id in after && after[id] == before[id]
  }

  lemma {:induction false} KnownId(links: Links<FileContent>, id: nat)
    requires SharedOnly(links) && id in links.idMap
    ensures links.Permits(id, SharedOwner) && id in Objects(links)
    ensures var next := links.GetInfoById(id, SharedOwner);
            SharedOnly(next) && Objects(next) == Objects(links) && next.idMap[id].sharedState == Some(Objects(links)[id])
  {
  }

  lemma {:induction false} NewId(links: Links<FileContent>, id: nat)
    requires SharedOnly(links) && id !in links.idMap
    ensures links.Permits(id, SharedOwner) && links.GetInfoById(id, SharedOwner).idMap[id].sharedState.None?
  {
  }

  lemma {:induction false} NewObject(links: Links<FileContent>, id: nat, o: FileContent)
    requires SharedOnly(links) && id !in links.idMap && o !in Objects(links).Values
    ensures links.Permits(id, SharedOwner)
    ensures var next := links.GetInfoById(id, SharedOwner).ShareState(id, o);
            SharedOnly(next) && Objects(next) == Objects(links)[id := o]
  {
    var next := links.GetInfoById(id, SharedOwner).ShareState(id, o);
    forall a | a in links.idMap ensures links.idMap[a].sharedState != Some(o) {
      assert Objects(links)[a] in Objects(links).Values;
    }
    assert Objects(next).Keys == Objects(links)[id := o].Keys;
  }

  lemma {:induction false} ObjectsAllocated(links: Links<FileContent>)
    ensures forall o :: o in Objects(links).Values ==> allocated(o)
  {
    forall o | o in Objects(links).Values ensures allocated(o) {
      var id :| id in Objects(links) && Objects(links)[id] == o;
      assert id in links.idMap && links.idMap[id].sharedState == Some(o);
    }
  }

  lemma {:induction false} OwnerProcessed(links: Links<FileContent>, id: nat)
    requires SharedOnly(links) && id in links.idMap
    ensures id in Objects(links)
    ensures var next := links.ProcessOwner(id, Objects(links)[id]); SharedOnly(next) && Objects(next) == Objects(links)
  {
  }

  lemma {:induction false} KeysOfObjects(links: Links<FileContent>)
    requires SharedOnly(links)
    ensures Objects(links).Keys == links.idMap.Keys
  {
  }

  // ---- memory against the parser's heap ----

  ghost predicate SlotMatches(child: FileContent?, slot: Option<nat>, objects: map<nat, FileContent>) {
    match slot
    case None => child == null
    case Some(id) => id in objects && child == objects[id]
  }

  ghost predicate SlotsMatch(children: seq<FileContent?>, slots: seq<Option<nat>>, objects: map<nat, FileContent>) {
    |children| == |slots| && forall i :: 0 <= i < |slots| ==> SlotMatches(children[i], slots[i], objects)
  }

  ghost predicate Matches(o: FileContent, n: Node<nat>, objects: map<nat, FileContent>)
    reads o
  {
    o.kind == n.kind && o.ip == n.ip && o.name == n.name && SlotsMatch(o.contents, n.contents, objects)
  }

  /** The objects created for the nodes of a heap. */
  ghost function Created(heap: Heap<nat>, objects: map<nat, FileContent>): set<FileContent> {
    set id | id in heap && id in objects :: objects[id]
  }

  ghost predicate HeapMatches(heap: Heap<nat>, objects: map<nat, FileContent>)
    reads Created(heap, objects)
  {
    forall id :: id in heap ==> id in objects && objects[id] in Created(heap, objects) && Matches(objects[id], heap[id], objects)
  }

  lemma {:induction false} SlotsMatchGrown(children: seq<FileContent?>, slots: seq<Option<nat>>,
                                           before: map<nat, FileContent>, after: map<nat, FileContent>)
    requires SlotsMatch(children, slots, before) && Grown(before, after)
    ensures SlotsMatch(children, slots, after)
  {
    forall i | 0 <= i < |slots| ensures SlotMatches(children[i], slots[i], after) {
      assert SlotMatches(children[i], slots[i], before);
    }
  }

  lemma {:induction false} HeapMatchesGrown(heap: Heap<nat>, before: map<nat, FileContent>, after: map<nat, FileContent>)
    requires HeapMatches(heap, before) && Grown(before, after)
    ensures HeapMatches(heap, after) && Created(heap, after) == Created(heap, before)
  {
    forall id | id in heap ensures id in after && Matches(after[id], heap[id], after) {
      assert Matches(before[id], heap[id], before);
      SlotsMatchGrown(before[id].contents, heap[id].contents, before, after);
    }
    assert Created(heap, after) == Created(heap, before);
  }

  lemma {:induction false} HeapMatchesUnion(a: Heap<nat>, b: Heap<nat>, objects: map<nat, FileContent>)
    requires HeapMatches(a, objects) && HeapMatches(b, objects)
    ensures HeapMatches(a + b, objects) && Created(a + b, objects) == Created(a, objects) + Created(b, objects)
  {
    hide Matches;
    assert Created(a + b, objects) == Created(a, objects) + Created(b, objects);
  }

  /** What a piece of the deserialiser that parses `p` does to the reader and the table of objects. */
  ghost predicate Effect<T>(p: Parsed<T>, before: map<nat, FileContent>, r: Reader, links: Links<FileContent>) {
    && r == p.reader && SharedOnly(links)
    && Objects(links).Keys == p.seen && Grown(before, Objects(links)) && p.heap.Keys == p.seen - before.Keys
  }

  // ---- the deserialiser ----

  ghost predicate EachContinues(start: Reader, done: seq<byte>, r: Reader, remaining: nat)
    requires start.Valid() && r.Valid()
  {
    var rest := ReadEach(r, remaining);
    (done + rest.0, rest.1) == ReadEach(start, |done| + remaining)
  }

  lemma {:induction false} NextEach(start: Reader, done: seq<byte>, r: Reader, remaining: nat)
    requires start.Valid() && r.Valid() && remaining > 0 && EachContinues(start, done, r, remaining)
    ensures var (b, next) := r.Read(1); EachContinues(start, done + b, next, remaining - 1)
  {
    var (b, next) := r.Read(1);
    var rest := ReadEach(next, remaining - 1);
    assert done + (b + rest.0) == (done + b) + rest.0;
    assert |done + b| + (remaining - 1) == |done| + remaining;
  }

  /** The bytes of an array of four, each read on its own. */
  method ReadIp(r: InputBufferAdapter) returns (ip: seq<byte>)
    requires r.Valid()
    modifies r
    ensures r.Valid() && (ip, r.View()) == ReadEach(old(r.View()), 4)
  {
    hide InputBufferAdapter.View, InputBufferAdapter.Valid, Reader.Read;
    ip := [];
    ghost var start := r.View();
    assert ip + ReadEach(start, 4).0 == ReadEach(start, 4).0;
    for i := 0 to 4
      invariant r.Valid() && |ip| == i
      invariant EachContinues(start, ip, r.View(), 4 - i)
    {
      NextEach(start, ip, r.View(), 4 - i);
      var b := r.ReadBytes(1);
      ip := ip + b;
    }
    assert ip + [] == ip;
  }

  lemma ReadNothing(r: Reader)
    requires r.Valid()
    ensures r.Read(0) == (Zeros(0), r)
  {
  }

  method ReadName(r: InputBufferAdapter) returns (name: seq<byte>, count: nat)
    requires r.Valid()
    modifies r
    ensures r.Valid() && (name, count, r.View()) == ParseNameAndCount(old(r.View()))
  {
    var nameSize := ReadSizeChecked(r, MAX_NAME);
    name := Zeros(nameSize);
    if nameSize != 0 {
      name := r.ReadBytes(nameSize);
    } else {
      ReadNothing(r.View());
    }
    count := ReadSizeChecked(r, MAX_FILE_CAPACITY);
  }

  method ReadHead(r: InputBufferAdapter, o: FileContent) returns (count: nat)
    requires r.Valid()
    modifies r, o
    ensures r.Valid()
    ensures var (head, parsedCount, next) := ParseHead(old(r.View()));
            o.kind == head.kind && o.ip == head.ip && o.name == head.name && count == parsedCount && r.View() == next
  {
    hide InputBufferAdapter.View, Reader.Read, ReadEach, ParseNameAndCount, FromLittleEndian;
    var kind := r.ReadBytes(2);
    o.kind := FromLittleEndian(kind);
    o.ip := ReadIp(r);
    o.name, count := ReadName(r);
  }

  lemma {:induction false} EffectState<T>(p: Parsed<T>, before: map<nat, FileContent>, r: Reader, links: Links<FileContent>)
    requires Effect(p, before, r, links)
    ensures p.reader == r && p.seen == Objects(links).Keys && SharedOnly(links)
  {
  }

  lemma {:induction false} NodeParsed(start: Reader, before: map<nat, FileContent>, children: Parsed<seq<Option<nat>>>,
                                      r: Reader, links: Links<FileContent>)
    requires start.Valid() && Effect(children, before, r, links)
    requires children == ParseSlots(ParseHead(start).2, ParseHead(start).1, before.Keys)
    ensures Effect(ParseNode(start, before.Keys), before, r, links)
    ensures ParseNode(start, before.Keys).value == ParseHead(start).0.(contents := children.value)
    ensures ParseNode(start, before.Keys).heap == children.heap
  {
  }

  lemma {:induction false} NothingParsed(r: Reader, links: Links<FileContent>)
    requires SharedOnly(links)
    ensures var none: Heap<nat> := map[];
            var slots: seq<Option<nat>> := [];
            Effect(Parsed(slots, r, Objects(links).Keys, none), Objects(links), r, links) &&
            HeapMatches(none, Objects(links)) && Created(none, Objects(links)) == {}
    ensures SlotsMatch([], [], Objects(links))
  {
  }

  /** One slot more: the effects add up. */
  lemma {:induction false} OneMoreParsed(acc: Parsed<seq<Option<nat>>>, first: Parsed<Option<nat>>,
                                         before: map<nat, FileContent>,
                                         r1: Reader, links1: Links<FileContent>, r2: Reader, links2: Links<FileContent>,
                                         done: seq<FileContent?>, child: FileContent?)
    requires Effect(acc, before, r1, links1) && Effect(first, Objects(links1), r2, links2)
    requires HeapMatches(acc.heap, Objects(links1)) && HeapMatches(first.heap, Objects(links2))
    requires SlotsMatch(done, acc.value, Objects(links1)) && SlotMatches(child, first.value, Objects(links2))
    ensures var next := Parsed(acc.value + [first.value], first.reader, first.seen, acc.heap + first.heap);
            var objects := Objects(links2);
            Effect(next, before, r2, links2) && r2 == first.reader && SharedOnly(links2) &&
            HeapMatches(next.heap, objects) &&
            Created(next.heap, objects) == Created(acc.heap, Objects(links1)) + Created(first.heap, objects) &&
            SlotsMatch(done + [child], next.value, objects)
  {
    hide Matches, Created, SharedOnly, SlotMatches, HeapMatches;
    HeapMatchesGrown(acc.heap, Objects(links1), Objects(links2));
    HeapMatchesUnion(acc.heap, first.heap, Objects(links2));
    SlotsMatchGrown(done, acc.value, Objects(links1), Objects(links2));
    assert (acc.heap + first.heap).Keys == acc.heap.Keys + first.heap.Keys;
  }

  /** `acc` and what remains to be parsed make up `whole`. */
  ghost predicate Continues(acc: Parsed<seq<Option<nat>>>, remaining: nat, whole: Parsed<seq<Option<nat>>>) {
    && acc.reader.Valid()
    && var rest := ParseSlots(acc.reader, remaining, acc.seen);
       whole == Parsed(acc.value + rest.value, rest.reader, rest.seen, acc.heap + rest.heap)
  }

  lemma {:induction false} AllParsed(acc: Parsed<seq<Option<nat>>>, whole: Parsed<seq<Option<nat>>>)
    requires Continues(acc, 0, whole)
    ensures acc == whole
  {
    var none: Heap<nat> := map[];
    assert acc.value + [] == acc.value && acc.heap + none == acc.heap;
  }

  lemma {:induction false} StartContinues(r: Reader, count: nat, seen: set<nat>)
    requires r.Valid()
    ensures Continues(Parsed([], r, seen, map[]), count, ParseSlots(r, count, seen))
  {
    var whole := ParseSlots(r, count, seen);
    assert [] + whole.value == whole.value && map[] + whole.heap == whole.heap;
  }

  lemma {:induction false} NextContinues(acc: Parsed<seq<Option<nat>>>, remaining: nat, whole: Parsed<seq<Option<nat>>>)
    requires remaining > 0 && Continues(acc, remaining, whole)
    ensures var first := ParseSlot(acc.reader, acc.seen);
            Continues(Parsed(acc.value + [first.value], first.reader, first.seen, acc.heap + first.heap), remaining - 1, whole)
  {
    hide ParseSlot;
    ParseSlotsStep(acc.reader, remaining, acc.seen);
    var first := ParseSlot(acc.reader, acc.seen);
    var rest := ParseSlots(first.reader, remaining - 1, first.seen);
    assert (acc.value + [first.value]) + rest.value == acc.value + ([first.value] + rest.value);
    assert (acc.heap + first.heap) + rest.heap == acc.heap + (first.heap + rest.heap);
  }

  /** The rest of a slot once its id is read. */
  ghost function ParseSlotAfterId(r: Reader, seen: set<nat>, id: nat): Parsed<Option<nat>>
    requires r.Valid()
  {
    if id in seen then Parsed(Some(id), r, seen, map[])
    else
      var payload := ParseNode(r, seen + {id});
      Parsed(Some(id), payload.reader, payload.seen, payload.heap[id := payload.value])
  }

  lemma {:induction false} NothingCreated<T>(value: T, links: Links<FileContent>, r: Reader, now: Links<FileContent>)
    requires SharedOnly(links) && SharedOnly(now) && Objects(now) == Objects(links)
    ensures var none: Heap<nat> := map[];
            Effect(Parsed(value, r, Objects(links).Keys, none), Objects(links), r, now) &&
            HeapMatches(none, Objects(now)) && Created(none, Objects(now)) == {}
  {
  }

  lemma {:induction false} SharedStateOf(links: Links<FileContent>, id: nat)
    requires SharedOnly(links) && id in Objects(links)
    ensures id in links.idMap && links.idMap[id].sharedState == Some(Objects(links)[id])
    ensures links.idMap[id].info.ownershipType.SharedOwner?
  {
  }

  lemma {:induction false} SameObjects<T>(p: Parsed<T>, before: map<nat, FileContent>, r: Reader,
                                          links: Links<FileContent>, now: Links<FileContent>)
    requires Effect(p, before, r, links) && SharedOnly(now) && Objects(now) == Objects(links)
    ensures Effect(p, before, r, now)
  {
  }

  lemma {:induction false} ObjectAdded(payload: Parsed<Node<nat>>, before: map<nat, FileContent>, id: nat, child: FileContent,
                                       r: Reader, links: Links<FileContent>)
    requires id !in before && Effect(payload, before[id := child], r, links)
    requires HeapMatches(payload.heap, Objects(links)) && Matches(child, payload.value, Objects(links))
    ensures var p := Parsed(Some(id), payload.reader, payload.seen, payload.heap[id := payload.value]);
            Effect(p, before, r, links) && id in Objects(links) &&
            HeapMatches(p.heap, Objects(links)) &&
            Created(p.heap, Objects(links)) == Created(payload.heap, Objects(links)) + {child}
  {
    hide Matches, SharedOnly;
    var heap := payload.heap[id := payload.value];
    assert id in before[id := child] && Objects(links)[id] == child;
    assert heap.Keys == payload.heap.Keys + {id};
    assert payload.heap.Keys == payload.seen - before[id := child].Keys;
    assert Created(heap, Objects(links)) == Created(payload.heap, Objects(links)) + {child};
  }

  method DeserializeNode(r: InputBufferAdapter, ctx: Context, o: FileContent)
    requires r.Valid() && SharedOnly(ctx.View()) && o.contents == []
    modifies r, ctx, o
    ensures r.Valid()
    ensures var p := ParseNode(old(r.View()), old(Objects(ctx.View())).Keys);
            var objects := Objects(ctx.View());
            Effect(p, old(Objects(ctx.View())), r.View(), ctx.View()) &&
            HeapMatches(p.heap, objects) && fresh(Created(p.heap, objects)) && Matches(o, p.value, objects)
    decreases r.View().Left(), 1, 0
  {
    hide Effect, SharedOnly, SlotsMatch, SlotMatches, Objects, HeapMatches, Continues, ParseHead, ParseSlots, ParseSlot, NodeOk;
    hide InputBufferAdapter.View, InputBufferAdapter.Valid, Reader.Left, Reader.Valid;
    ghost var start, before := r.View(), Objects(ctx.View());
    var count := ReadHead(r, o);
    ghost var head := ParseHead(start).0;
    ghost var children := ParseSlots(r.View(), count, before.Keys);
    ghost var acc := Parsed([], r.View(), before.Keys, map[]);
    o.contents := seq(count, _ => null);
    StartContinues(r.View(), count, before.Keys);
    NothingParsed(r.View(), ctx.View());
    for i := 0 to count
      invariant r.Valid() && SharedOnly(ctx.View()) && |o.contents| == count
      invariant o.kind == head.kind && o.ip == head.ip && o.name == head.name
      invariant Effect(acc, before, r.View(), ctx.View()) && r.View().Left() <= start.Left()
      invariant HeapMatches(acc.heap, Objects(ctx.View())) && fresh(Created(acc.heap, Objects(ctx.View())))
      invariant SlotsMatch(o.contents[..i], acc.value, Objects(ctx.View()))
      invariant forall j :: i <= j < count ==> o.contents[j] == null
      invariant Continues(acc, count - i, children)
    {
      ghost var reader, links := r.View(), ctx.View();
      ghost var first := ParseSlot(reader, Objects(links).Keys);
      ghost var done := o.contents[..i];
      EffectState(acc, before, reader, links);
      NextContinues(acc, count - i, children);
      assert o !in Created(acc.heap, Objects(links));
      DeserializeSlot(r, ctx, o, i);
      assert HeapMatches(acc.heap, Objects(links));
      OneMoreParsed(acc, first, before, reader, links, r.View(), ctx.View(), done, o.contents[i]);
      assert o.contents[..i + 1] == done + [o.contents[i]];
      acc := Parsed(acc.value + [first.value], first.reader, first.seen, acc.heap + first.heap);
    }
    assert o.contents[..count] == o.contents;
    AllParsed(acc, children);
    NodeParsed(start, before, acc, r.View(), ctx.View());
  }

  /** An id met for the first time: create its object, share it before its payload is read, so that the
      payload may refer to it, and fill it. */
  method CreateShared(r: InputBufferAdapter, ctx: Context, o: FileContent, i: nat, id: nat, ghost links: Links<FileContent>)
    requires r.Valid() && SharedOnly(links) && id !in links.idMap && i < |o.contents|
    requires links.Permits(id, SharedOwner) && ctx.View() == links.GetInfoById(id, SharedOwner)
    modifies r, ctx, o`contents
    ensures r.Valid()
    ensures var p := ParseSlotAfterId(old(r.View()), Objects(links).Keys, id);
            var objects := Objects(ctx.View());
            Effect(p, Objects(links), r.View(), ctx.View()) && id in objects &&
            HeapMatches(p.heap, objects) && fresh(Created(p.heap, objects))
    ensures |o.contents| == old(|o.contents|)
    ensures forall j :: 0 <= j < |o.contents| && j != i ==> o.contents[j] == old(o.contents[j])
    decreases r.View().Left(), 2, 0
  {
    hide SharedOnly, HeapMatches, Objects, Created, Effect, Matches, InputBufferAdapter.View;
    hide InputBufferAdapter.Valid, ParseNode;
    hide Reader.Left, Reader.Valid, Links.GetInfoById, Links.Permits;
    KeysOfObjects(links);
    ghost var start := r.View();
    ObjectsAllocated(links);
    var child := new FileContent();
    o.contents := o.contents[i := child];
    NewObject(links, id, child);
    ctx.ShareState(id, child);
    ghost var before := Objects(ctx.View());
    assert before.Keys == Objects(links).Keys + {id};
    DeserializeNode(r, ctx, child);
    ObjectAdded(ParseNode(start, before.Keys), Objects(links), id, child, r.View(), ctx.View());
  }

  method DeserializeSlot(r: InputBufferAdapter, ctx: Context, o: FileContent, i: nat)
    requires r.Valid() && SharedOnly(ctx.View()) && i < |o.contents| && o.contents[i] == null
    modifies r, ctx, o`contents
    ensures r.Valid()
    ensures var p := ParseSlot(old(r.View()), old(Objects(ctx.View())).Keys);
            var objects := Objects(ctx.View());
            Effect(p, old(Objects(ctx.View())), r.View(), ctx.View()) &&
            HeapMatches(p.heap, objects) && fresh(Created(p.heap, objects)) &&
            |o.contents| == old(|o.contents|) && SlotMatches(o.contents[i], p.value, objects)
    ensures forall j :: 0 <= j < |o.contents| && j != i ==> o.contents[j] == old(o.contents[j])
    decreases r.View().Left(), 0, 0
  {
    hide SharedOnly, Objects, Effect, InputBufferAdapter.View, InputBufferAdapter.Valid, DecodeSize, ParseNode;
    hide Reader.Left, Reader.Valid, Links.GetInfoById, Links.ProcessOwner, Links.Permits;
    ghost var links := ctx.View();
    KeysOfObjects(links);
    var id := ReadSizeUnchecked(r);
    NothingCreated<Option<nat>>(None, links, r.View(), links);
    if id != 0 {
      if id in ctx.idMap { KnownId(links, id); } else { NewId(links, id); }
      ghost var parsed := ParseSlotAfterId(r.View(), Objects(links).Keys, id);
      var info := ctx.GetInfoById(id, SharedOwner);
      if info.sharedState.None? {
        CreateShared(r, ctx, o, i, id, links);
      } else {
        NothingCreated(Some(id), links, r.View(), ctx.View());
      }
      ghost var linked := ctx.View();
      EffectState(parsed, Objects(links), r.View(), linked);
      SharedStateOf(linked, id);
      OwnerProcessed(linked, id);
      assert o !in Created(parsed.heap, Objects(linked));
      o.contents := o.contents[i := ctx.idMap[id].sharedState.value];
      assert HeapMatches(parsed.heap, Objects(linked));
      ctx.ProcessOwner(id, o.contents[i]);
      SameObjects(parsed, Objects(links), r.View(), linked, ctx.View());
    }
  }
}
