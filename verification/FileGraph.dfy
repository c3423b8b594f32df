/** The wire form of a file graph and its parser, on finite heaps.
    A heap maps addresses to nodes; children are optional addresses, so sharing, cycles and null
    children are all there.  The root is a node value of its own: it is serialised as an object, not
    through a pointer, and gets no id. */
module FileGraph {
  import opened Wrappers
  import opened Bytes
  import opened InputBuffer
  import opened LengthPrefix

  const MAX_NAME: nat := 64

  const MAX_FILE_CAPACITY: nat := 256

  datatype Node<A> = Node(kind: nat, ip: seq<byte>, name: seq<byte>, contents: seq<Option<A>>)

  type Heap<A> = map<A, Node<A>>

  /** The types and the asserts of the serialiser. */
  predicate NodeOk<A>(n: Node<A>) {
    n.kind < 0x10000 && |n.ip| == 4 && |n.name| <= MAX_NAME && |n.contents| <= MAX_FILE_CAPACITY
  }

  ghost predicate Targets<A>(slots: seq<Option<A>>, s: set<A>) {
    forall i :: 0 <= i < |slots| && slots[i].Some? ==> slots[i].value in s
  }

  /** Every node is well formed and every child lies in the heap. */
  ghost predicate HeapOk<A>(h: Heap<A>) {
    forall a :: a in h ==> NodeOk(h[a]) && Targets(h[a].contents, h.Keys)
  }

  lemma HeapNode<A>(h: Heap<A>, a: A)
    requires HeapOk(h) && a in h
    ensures NodeOk(h[a]) && Targets(h[a].contents, h.Keys)
  {
  }

  // ---- writing ----

  function NameAndCount(name: seq<byte>, count: nat): seq<byte>
    requires |name| <= MAX_NAME && count <= MAX_FILE_CAPACITY
  {
    SizeBytes(|name|) + (name + SizeBytes(count))
  }

  /** All of a node but its children. */
  function Head<A>(n: Node<A>): (bs: seq<byte>)
    requires NodeOk(n)
  {
    LittleEndian(n.kind, 2) + (n.ip + NameAndCount(n.name, |n.contents|))
  }

  datatype Written<A> = Written(bytes: seq<byte>, ids: map<A, nat>)

  /** The ids are exactly `1..|ids|`, one for each object. */
  ghost predicate Numbered<A>(ids: map<A, nat>) {
    && (forall a :: a in ids ==> 1 <= ids[a] <= |ids|)
    && (forall a, b :: a in ids && b in ids && ids[a] == ids[b] ==> a == b)
  }

  ghost predicate Extends<A>(ids: map<A, nat>, larger: map<A, nat>) {
    forall a :: a in ids ==> a in larger && larger[a] == ids[a]
  }

  lemma SubsetSize<T>(a: set<T>, b: set<T>)
    requires a <= b
    ensures |a| <= |b|
    ensures a != b ==> |a| < |b|
  {
    var rest := b - a;
    assert b == a + rest && a !! rest;
    assert |b| == |a| + |rest|;
  }

  lemma FewIds<A>(h: Heap<A>, ids: map<A, nat>)
    requires ids.Keys <= h.Keys
    ensures |ids| <= |h|
  {
    SubsetSize(ids.Keys, h.Keys);
    assert |ids| == |ids.Keys| && |h| == |h.Keys|;
  }

  lemma NextId<A>(h: Heap<A>, ids: map<A, nat>, a: A)
    requires ids.Keys <= h.Keys && a in h && a !in ids && Numbered(ids)
    ensures Numbered(ids[a := |ids| + 1]) && |ids| < |h|
    ensures ids[a := |ids| + 1].Keys <= h.Keys && h.Keys - ids[a := |ids| + 1].Keys < h.Keys - ids.Keys
  {
    var entered := ids[a := |ids| + 1];
    assert entered.Keys == ids.Keys + {a};
    assert |entered| == |ids| + 1;
    SubsetSize(ids.Keys, h.Keys);
    assert a in h.Keys - ids.Keys;
  }

  lemma NotMore<A>(all: set<A>, ids: set<A>, later: set<A>)
    requires ids <= later <= all
    ensures all - later == all - ids || all - later < all - ids
  {
    if ids != later {
      var a :| a in later && a !in ids;
      assert a in all - ids;
    }
  }

  function WriteNode<A>(h: Heap<A>, n: Node<A>, ids: map<A, nat>): (w: Written<A>)
    requires HeapOk(h) && NodeOk(n) && Targets(n.contents, h.Keys)
    requires ids.Keys <= h.Keys && |h| < SIZE_LIMIT && Numbered(ids)
    ensures w.ids.Keys <= h.Keys && Extends(ids, w.ids) && Numbered(w.ids)
    decreases h.Keys - ids.Keys, |n.contents| + 1
  {
    var children := WriteSlots(h, n.contents, ids);
    Written(Head(n) + children.bytes, children.ids)
  }

  /** A child: 0 for null, the id alone for an object met before, the id and the payload otherwise. */
  function WriteSlot<A>(h: Heap<A>, slot: Option<A>, ids: map<A, nat>): (w: Written<A>)
    requires HeapOk(h) && (slot.Some? ==> slot.value in h)
    requires ids.Keys <= h.Keys && |h| < SIZE_LIMIT && Numbered(ids)
    ensures w.ids.Keys <= h.Keys && Extends(ids, w.ids) && Numbered(w.ids)
    decreases h.Keys - ids.Keys, 0
  {
    match slot
    case None => Written(SizeBytes(0), ids)
    case Some(a) =>
      FewIds(h, ids);
      if a in ids then Written(SizeBytes(ids[a]), ids)
      else
        NextId(h, ids, a);
        var payload := WriteNode(h, h[a], ids[a := |ids| + 1]);
        Written(SizeBytes(|ids| + 1) + payload.bytes, payload.ids)
  }

  function WriteSlots<A>(h: Heap<A>, slots: seq<Option<A>>, ids: map<A, nat>): (w: Written<A>)
    requires HeapOk(h) && Targets(slots, h.Keys)
    requires ids.Keys <= h.Keys && |h| < SIZE_LIMIT && Numbered(ids)
    ensures w.ids.Keys <= h.Keys && Extends(ids, w.ids) && Numbered(w.ids)
    decreases h.Keys - ids.Keys, |slots|
  {
    hide Numbered, HeapOk;
    if slots == [] then Written([], ids)
    else
      var first := WriteSlot(h, slots[0], ids);
      NotMore(h.Keys, ids.Keys, first.ids.Keys);
      var rest := WriteSlots(h, slots[1..], first.ids);
      Written(first.bytes + rest.bytes, rest.ids)
  }

  // ---- which objects get written ----

  ghost predicate Closed<A>(h: Heap<A>, s: set<A>) {
    forall a :: a in s ==> a in h && Targets(h[a].contents, s)
  }

  /** `s` is the set of objects reachable from the root: the least set that holds its children and is closed. */
  ghost predicate IsReachableSet<A>(h: Heap<A>, root: Node<A>, s: set<A>) {
    && Closed(h, s) && Targets(root.contents, s)
    && forall larger: set<A> {:trigger Closed(h, larger)} ::
         larger <= h.Keys && Closed(h, larger) && Targets(root.contents, larger) ==> s <= larger
  }

  /** All children of the objects entered since `ids` have ids. */
  ghost predicate ChildrenNumbered<A>(h: Heap<A>, ids: map<A, nat>, later: map<A, nat>) {
    forall a :: a in later && a !in ids ==> a in h && Targets(h[a].contents, later.Keys)
  }

  lemma {:induction false} ChildEntered<A>(h: Heap<A>, ids: map<A, nat>, a: A, later: map<A, nat>)
    requires a in h && a in later && Targets(h[a].contents, later.Keys)
    requires ChildrenNumbered(h, ids[a := |ids| + 1], later)
    ensures ChildrenNumbered(h, ids, later)
  {
  }

  lemma {:induction false} SlotNumbersTarget<A>(h: Heap<A>, slot: Option<A>, ids: map<A, nat>)
    requires HeapOk(h) && (slot.Some? ==> slot.value in h)
    requires ids.Keys <= h.Keys && |h| < SIZE_LIMIT && Numbered(ids)
    ensures var later := WriteSlot(h, slot, ids).ids;
            (slot.Some? ==> slot.value in later) && ChildrenNumbered(h, ids, later)
    decreases h.Keys - ids.Keys, 0
  {
    if slot.Some? && slot.value !in ids {
      var a := slot.value;
      NextId(h, ids, a);
      HeapNode(h, a);
      hide HeapOk, Numbered, NodeOk, SizeBytes, Head;
      var entered := ids[a := |ids| + 1];
      SlotsNumberTargets(h, h[a].contents, entered);
      var later := WriteSlots(h, h[a].contents, entered).ids;
      ChildEntered(h, ids, a, later);
      assert WriteSlot(h, slot, ids).ids == WriteNode(h, h[a], entered).ids == later;
    }
  }

  lemma {:induction false} SlotsNumberTargets<A>(h: Heap<A>, slots: seq<Option<A>>, ids: map<A, nat>)
    requires HeapOk(h) && Targets(slots, h.Keys)
    requires ids.Keys <= h.Keys && |h| < SIZE_LIMIT && Numbered(ids)
    ensures var later := WriteSlots(h, slots, ids).ids;
            Targets(slots, later.Keys) && ChildrenNumbered(h, ids, later)
    decreases h.Keys - ids.Keys, |slots|
  {
    hide HeapOk, Numbered;
    if slots != [] {
      var mid := WriteSlot(h, slots[0], ids).ids;
      SlotNumbersTarget(h, slots[0], ids);
      NotMore(h.Keys, ids.Keys, mid.Keys);
      SlotsNumberTargets(h, slots[1..], mid);
      var later := WriteSlots(h, slots, ids).ids;
      assert later == WriteSlots(h, slots[1..], mid).ids;
      forall i | 0 <= i < |slots| && slots[i].Some? ensures slots[i].value in later.Keys {
        if i > 0 { assert slots[1..][i - 1] == slots[i]; }
      }
    }
  }

  lemma {:induction false} SlotStaysInside<A>(h: Heap<A>, slot: Option<A>, ids: map<A, nat>, s: set<A>)
    requires HeapOk(h) && (slot.Some? ==> slot.value in h)
    requires ids.Keys <= h.Keys && |h| < SIZE_LIMIT && Numbered(ids)
    requires Closed(h, s) && (slot.Some? ==> slot.value in s) && ids.Keys <= s
    ensures WriteSlot(h, slot, ids).ids.Keys <= s
    decreases h.Keys - ids.Keys, 0
  {
    if slot.Some? && slot.value !in ids {
      var a := slot.value;
      NextId(h, ids, a);
      HeapNode(h, a);
      hide HeapOk, Numbered;
      SlotsStayInside(h, h[a].contents, ids[a := |ids| + 1], s);
    }
  }

  lemma {:induction false} SlotsStayInside<A>(h: Heap<A>, slots: seq<Option<A>>, ids: map<A, nat>, s: set<A>)
    requires HeapOk(h) && Targets(slots, h.Keys)
    requires ids.Keys <= h.Keys && |h| < SIZE_LIMIT && Numbered(ids)
    requires Closed(h, s) && Targets(slots, s) && ids.Keys <= s
    ensures WriteSlots(h, slots, ids).ids.Keys <= s
    decreases h.Keys - ids.Keys, |slots|
  {
    hide HeapOk, Numbered;
    if slots != [] {
      var mid := WriteSlot(h, slots[0], ids).ids;
      SlotStaysInside(h, slots[0], ids, s);
      NotMore(h.Keys, ids.Keys, mid.Keys);
      SlotsStayInside(h, slots[1..], mid, s);
    }
  }

  function Serialize<A>(h: Heap<A>, root: Node<A>): (w: Written<A>)
    requires HeapOk(h) && NodeOk(root) && Targets(root.contents, h.Keys) && |h| < SIZE_LIMIT
    ensures w.ids.Keys <= h.Keys && Numbered(w.ids)
  {
    WriteNode(h, root, map[])
  }

  /** The numbers `1..n`. */
  function UpTo(n: nat): (s: set<nat>)
    ensures forall i :: i in s <==> 1 <= i <= n
    ensures |s| == n
  {
    if n == 0 then {} else UpTo(n - 1) + {n}
  }

  lemma {:induction false} ValuesSize<A>(ids: map<A, nat>, keys: set<A>)
    requires keys <= ids.Keys && Numbered(ids)
    ensures |set a | a in keys :: ids[a]| == |keys|
    decreases keys
  {
    if keys != {} {
      var k :| k in keys;
      ValuesSize(ids, keys - {k});
      var smaller := set a | a in keys - {k} :: ids[a];
      assert (set a | a in keys :: ids[a]) == smaller + {ids[k]};
      assert ids[k] !in smaller;
    }
  }

  /** An injective numbering by numbers up to its size uses them all. */
  lemma {:induction false} AllIdsUsed<A>(ids: map<A, nat>)
    requires Numbered(ids)
    ensures ids.Values == UpTo(|ids|)
  {
    var all := UpTo(|ids|);
    ValuesSize(ids, ids.Keys);
    assert ids.Values == set a | a in ids.Keys :: ids[a];
    if ids.Values != all {
      SubsetSize(ids.Values, all);
    }
  }

  /** Exactly the reachable objects are written, and their ids are exactly `1..n`. */
  lemma {:induction false} ReachableObjectsGetIds<A>(h: Heap<A>, root: Node<A>)
    requires HeapOk(h) && NodeOk(root) && Targets(root.contents, h.Keys) && |h| < SIZE_LIMIT
    ensures var ids := Serialize(h, root).ids;
            IsReachableSet(h, root, ids.Keys) && ids.Values == UpTo(|ids|)
  {
    var ids := Serialize(h, root).ids;
    SlotsNumberTargets(h, root.contents, map[]);
    forall larger: set<A> | larger <= h.Keys && Closed(h, larger) && Targets(root.contents, larger)
      ensures ids.Keys <= larger
    {
      SlotsStayInside(h, root.contents, map[], larger);
    }
    AllIdsUsed(ids);
  }

  // ---- the bytes of a small graph ----

  const SAMPLE_FILE: Node<nat> := Node(1, [127, 0, 0, 1], [120], [Some(7)])

  const SAMPLE_ROOT: Node<nat> := Node(0, [10, 0, 0, 2], [], [Some(7), None, Some(7)])

  const SAMPLE_HEAP: Heap<nat> := map[7 := SAMPLE_FILE]

  lemma SampleIsLegal()
    ensures HeapOk(SAMPLE_HEAP) && NodeOk(SAMPLE_ROOT) && NodeOk(SAMPLE_FILE) && |SAMPLE_HEAP| < SIZE_LIMIT
    ensures Targets(SAMPLE_ROOT.contents, SAMPLE_HEAP.Keys) && Targets(SAMPLE_FILE.contents, SAMPLE_HEAP.Keys)
  {
  }

  lemma SampleHeads()
    requires NodeOk(SAMPLE_ROOT) && NodeOk(SAMPLE_FILE)
    ensures Head(SAMPLE_ROOT) == [0, 0, 10, 0, 0, 2, 0, 3]
    ensures Head(SAMPLE_FILE) == [1, 0, 127, 0, 0, 1, 1, 120, 1]
  {
    assert LittleEndian(0, 2) == [0, 0] && LittleEndian(1, 2) == [1, 0];
  }

  /** One step of the slots of the sample. */
  lemma {:induction false} SampleSlots(slots: seq<Option<nat>>, ids: map<nat, nat>, first: seq<byte>, mid: map<nat, nat>,
                                       rest: seq<byte>, last: map<nat, nat>)
    requires HeapOk(SAMPLE_HEAP) && slots != [] && Targets(slots, SAMPLE_HEAP.Keys) && Targets(slots[1..], SAMPLE_HEAP.Keys)
    requires ids.Keys <= SAMPLE_HEAP.Keys && |SAMPLE_HEAP| < SIZE_LIMIT && Numbered(ids)
    requires mid.Keys <= SAMPLE_HEAP.Keys && Numbered(mid) && (slots[0].Some? ==> slots[0].value in SAMPLE_HEAP)
    requires WriteSlot(SAMPLE_HEAP, slots[0], ids) == Written(first, mid)
    requires WriteSlots(SAMPLE_HEAP, slots[1..], mid) == Written(rest, last)
    ensures WriteSlots(SAMPLE_HEAP, slots, ids) == Written(first + rest, last)
  {
  }

  /** The child's slot while no id is given out, and once it has id 1. */
  lemma {:induction false} SampleSlot(ids: map<nat, nat>)
    requires HeapOk(SAMPLE_HEAP) && NodeOk(SAMPLE_FILE) && Targets(SAMPLE_FILE.contents, SAMPLE_HEAP.Keys) &&
             |SAMPLE_HEAP| < SIZE_LIMIT
    requires ids.Keys <= SAMPLE_HEAP.Keys && Numbered(ids) && (ids == map[] || ids == map[7 := 1])
    ensures WriteSlot(SAMPLE_HEAP, None, ids) == Written([0], ids)
    ensures WriteSlot(SAMPLE_HEAP, Some(7), ids)
         == Written(if 7 in ids then [1] else [1] + (Head(SAMPLE_FILE) + [1]), map[7 := 1])
    decreases SAMPLE_HEAP.Keys - ids.Keys
  {
    hide HeapOk, NodeOk, Head;
    if 7 !in ids {
      var one: map<nat, nat> := map[7 := 1];
      NextId(SAMPLE_HEAP, ids, 7);
      assert ids[7 := |ids| + 1] == one;
      SampleSlot(one);
      SampleSlots([Some(7)], one, [1], one, [], one);
    }
  }

  /** A root with a child, a null child and the same child again, the child being its own child: type,
      address, name and count of the root; id 1 and the payload with its own id inside; 0; id 1. */
  lemma {:induction false} SampleBytes()
    ensures HeapOk(SAMPLE_HEAP) && NodeOk(SAMPLE_ROOT) && Targets(SAMPLE_ROOT.contents, SAMPLE_HEAP.Keys) &&
            |SAMPLE_HEAP| < SIZE_LIMIT
    ensures Serialize(SAMPLE_HEAP, SAMPLE_ROOT)
         == Written([0, 0, 10, 0, 0, 2, 0, 3] + ([1] + ([1, 0, 127, 0, 0, 1, 1, 120, 1] + [1]) + ([0] + [1])), map[7 := 1])
  {
    hide HeapOk, NodeOk, Head, WriteSlot, SizeBytes;
    SampleIsLegal();
    SampleHeads();
    var none: map<nat, nat>, one: map<nat, nat> := map[], map[7 := 1];
    SampleSlot(none);
    SampleSlot(one);
    SampleSlots([Some(7)], one, [1], one, [], one);
    SampleSlots([None, Some(7)], one, [0], one, [1] + [], one);
    SampleSlots(SAMPLE_ROOT.contents, none, [1] + (Head(SAMPLE_FILE) + [1]), one, [0] + [1], one);
  }
}
