/** The network file system: what a node ships of its tree, what it accepts, and what it merges. */
module NetworkFs {
  import opened Wrappers
  import opened Bytes
  import opened InputBuffer
  import opened OutputBuffer
  import opened LengthPrefix
  import opened PointerLinking
  import opened FileGraph
  import opened FileParser
  import opened FileTree
  import opened Truncation
  import opened SerializeFs
  import opened DeserializeFs
  import opened Merge
  import opened MergeTotal
  import opened MergeInPlace
  import opened MergeLists

  const INITIAL_BUFFER: nat := 512

  /** The number of written bytes is kept in 32 bits. */
  const COUNT_LIMIT: nat := 0x1_0000_0000

  /** `h` is the memory below `root`: all of it within the limits that the serialiser asserts. */
  ghost predicate Serializable(h: Heap<FileContent>, root: FileContent)
    reads h.Keys, root
  {
    && HeapOk(h) && |h| < SIZE_LIMIT && Mirrors(h)
    && NodeOk(root.Value()) && Targets(root.Value().contents, h.Keys)
  }

  lemma BytesOfBuffer(w: OutputBufferAdapter)
    requires w.Valid()
    ensures w.WrittenBytesCount() <= |w.buffer| && w.View().bytes == w.buffer[..w.WrittenBytesCount()]
  {
  }

  lemma MeetsAsserts(h: Heap<FileContent>, root: FileContent)
    requires Serializable(h, root)
    ensures HeapOk(h) && |h| < SIZE_LIMIT && Mirrors(h) && NodeOk(root.Value()) && Targets(root.Value().contents, h.Keys)
  {
  }

  lemma {:induction false} NothingNumbered(h: Heap<FileContent>, reg: Registry<FileContent>)
    requires HeapOk(h) && |h| < SIZE_LIMIT && reg == Registry(0, map[])
    ensures Ready(h, reg) && Ids(reg) == map[]
  {
  }

  lemma {:induction false} WholeTape(h: Heap<FileContent>, n: Node<FileContent>, t: Tape, ids: map<FileContent, nat>)
    requires HeapOk(h) && |h| < SIZE_LIMIT && NodeOk(n) && Targets(n.contents, h.Keys)
    requires NodeWritten(h, n, Tape([], 0), map[], t, ids)
    ensures t.bytes == Serialize(h, n).bytes
  {
    hide WriteNode, HeapOk, NodeOk, Numbered;
  }

  /** The count is kept in 32 bits, which is enough for three million objects of any kind. */
  lemma {:induction false} SmallGraphsFit(h: Heap<FileContent>, root: Node<FileContent>)
    requires HeapOk(h) && NodeOk(root) && Targets(root.contents, h.Keys) && |h| < SIZE_LIMIT
    ensures |h| < 3000000 ==> |Serialize(h, root).bytes| < 0x1_0000_0000
  {
    hide HeapOk, NodeOk, Targets, Serialize;
    GraphTakesAtMost(h, root);
  }

  // ---- accepting ----

  /** The objects made from a message: a new one for each node of the parsed heap, linked as it says. */
  ghost predicate Loaded(o: Outcome, content: FileContent, objects: map<nat, FileContent>)
    reads content, objects.Values
  {
    && objects.Keys == o.heap.Keys
    && (forall a, b :: a in objects && b in objects && objects[a] == objects[b] ==> a == b)
    && DeserializeFs.Matches(content, o.root, objects)
    && forall id :: id in objects ==> objects[id] in objects.Values && DeserializeFs.Matches(objects[id], o.heap[id], objects)
  }

  lemma {:induction false} NothingLinked(links: Links<FileContent>)
    requires links.idMap == map[]
    ensures DeserializeFs.SharedOnly(links) && Objects(links) == map[] && Objects(links).Keys == {}
  {
  }

  lemma {:induction false} AllLoaded(data: seq<byte>, content: FileContent, r: Reader, links: Links<FileContent>)
    requires Effect(ParseNode(Start(data), {}), map[], r, links)
    requires HeapMatches(ParseNode(Start(data), {}).heap, Objects(links))
    requires DeserializeFs.Matches(content, ParseNode(Start(data), {}).value, Objects(links))
    ensures r == ParseNode(Start(data), {}).reader
    ensures Loaded(Deserialize(data), content, Objects(links))
    ensures Created(ParseNode(Start(data), {}).heap, Objects(links)) == Objects(links).Values
  {
    hide DeserializeFs.Matches, ParseNode;
    var objects := Objects(links);
    forall a, b | a in objects && b in objects && objects[a] == objects[b] ensures a == b {
      assert links.idMap[a].sharedState == links.idMap[b].sharedState;
    }
    assert Created(ParseNode(Start(data), {}).heap, objects) == objects.Values;
  }

  // ---- the file system of a node ----

  lemma {:induction false} OneEntry(x: FileContent, kids: seq<Shape>, t: Shape)
    requires t.data == x && MergeInPlace.Matches(t) && Distinct(t)
    ensures Entries([x], [t]) && ObjsAll([t]) == Objs(t)
    ensures PutAll(kids, [t]) == Put(kids, t) && TouchedByAll(kids, [t]) == TouchedByPut(kids, t)
  {
    hide Objs, Distinct, MergeInPlace.Matches, Put, TouchedByPut;
    assert [t][..0] == [];
    ObjsAt([t], 0);
  }

  lemma {:induction false} DistinctPut(root: Shape, t: Shape)
    requires Distinct(root) && Distinct(t) && Objs(root) !! Objs(t)
    ensures Distinct(root.(kids := Put(root.kids, t)))
  {
    PutObjects(root.kids, t);
  }

  class NetworkFS {
    const gfsRoot: FileContent
    const localFs: FileContent

    /** What the global root looks like. */
    ghost var view: Shape

    ghost predicate Valid()
      reads this, gfsRoot, Objs(view)
    {
      view.data == gfsRoot && MergeInPlace.Matches(view) && Distinct(view)
    }

    constructor ()
      ensures Valid() && view == Tree(gfsRoot, 0, [], []) && fresh(gfsRoot) && fresh(localFs)
      ensures localFs.contents == [] && localFs.kind == 0
    {
      gfsRoot := new FileContent();
      localFs := new FileContent();
      view := Tree(gfsRoot, DIRECTORY, [], []);
    }

    method SerializeLocalFS(ghost h: Heap<FileContent>) returns (buffer: seq<byte>)
      requires Serializable(h, localFs)
      ensures var bytes := Serialize(h, localFs.Value()).bytes;
              buffer == bytes[..|bytes| % 0x1_0000_0000] && (|h| < 3000000 ==> buffer == bytes)
    {
      hide Serializable, Ready, Ids, NodeWritten, WriteNode, FileContent.Value, Serialize, HeapOk, NodeOk;
      hide Targets, Mirrors, Numbered;
      hide OutputBufferAdapter.View, OutputBufferAdapter.Valid, OutputBufferAdapter.WrittenBytesCount;
      MeetsAsserts(h, localFs);
      var w := new OutputBufferAdapter(Zeros(INITIAL_BUFFER));
      var ctx := new PointerLinkingContextSerialization<FileContent>();
      NothingNumbered(h, ctx.View());
      SerializeNode(localFs, w, ctx, h);
      WholeTape(h, localFs.Value(), w.View(), Ids(ctx.View()));
      SmallGraphsFit(h, localFs.Value());
      var written := w.WrittenBytesCount() % COUNT_LIMIT;
      BytesOfBuffer(w);
      buffer := w.buffer[..written];
      assert w.View().bytes[..written] == buffer;
    }

    static method DeserializeToFileContent(data: seq<byte>, content: FileContent)
      returns (ok: bool, ghost objects: map<nat, FileContent>)
      requires content.contents == []
      modifies content
      ensures ok == Deserialize(data).accepted
      ensures Loaded(Deserialize(data), content, objects) && fresh(objects.Values)
    {
      hide ParseNode, HeapMatches, Objects, Effect, DeserializeFs.SharedOnly, SlotsMatch, SlotMatches;
      hide InputBufferAdapter.View, InputBufferAdapter.Valid;
      var r := new InputBufferAdapter(data);
      var ctx := new PointerLinkingContextDeserialization<FileContent>();
      NothingLinked(ctx.View());
      DeserializeNode(r, ctx, content);
      objects := Objects(ctx.View());
      AllLoaded(data, content, r.View(), ctx.View());
      ObjectsAllocated(ctx.View());
      var error := r.ErrorCode();
      var completed := r.IsCompletedSuccessfully();
      ok := error == NO_ERROR && completed;
    }

    /** One more tree under the global root. */
    method MergeDiff(inContent: FileContent, ghost t: Shape) returns (ok: bool)
      requires Valid() && t.data == inContent && MergeInPlace.Matches(t) && Distinct(t) && Objs(view) !! Objs(t)
      modifies `view, ({gfsRoot} + TouchedByPut(view.kids, t))`contents
      ensures Valid() && ok && view == old(view).(kids := Put(old(view).kids, t))
    {
      hide MergeInPlace.Matches, Objs, ObjsAll, Distinct, Put, TouchedByPut;
      var addContent := [inContent];
      OneEntry(inContent, view.kids, t);
      AddAsChildDirectory(gfsRoot, addContent, view, [t]);
      DistinctPut(view, t);
      Allocated(view.(kids := Put(view.kids, t)));
      label merged:
      view := view.(kids := Put(view.kids, t));
      MatchesKept@merged(view);
      ok := true;
    }
  }

  // ---- all trees at once, or one by one ----

  /** The view of the whole network, under a new root. */
  method MergeTotalFileContent(files: seq<FileContent>, ghost ts: seq<Shape>) returns (dfs: FileContent)
    requires Entries(files, ts)
    modifies TouchedByAll([], ts)`contents
    ensures fresh(dfs) && dfs.ip == [0, 0, 0, 0]
    ensures MergeInPlace.Matches(Tree(dfs, 0, [71, 117, 116, 104, 105, 32, 70, 105, 108, 101, 32, 83, 121, 115, 116, 101, 109],
                                      PutAll([], ts)))
  {
    AllAllocated(ts);
    dfs := new FileContent();
    dfs.name := ROOT_NAME;
    dfs.kind := DIRECTORY;
    AddAsChildDirectory(dfs, files, Tree(dfs, DIRECTORY, ROOT_NAME, []), ts);
  }

  /** The trees arriving one after the other: an empty root ends up with the children of the total. */
  method MergeDiffs(fs: NetworkFS, files: seq<FileContent>, ghost ts: seq<Shape>)
    requires fs.Valid() && Entries(files, ts) && Objs(fs.view) !! ObjsAll(ts)
    modifies fs`view, ({fs.gfsRoot} + TouchedByAll(fs.view.kids, ts))`contents
    ensures fs.Valid() && fs.view == old(fs.view).(kids := PutAll(old(fs.view).kids, ts))
  {
    hide MergeInPlace.Matches, MatchesAll, Objs, ObjsAll, Distinct, DistinctAll, TouchedByAll, TouchedByPut, PutAll, Put;
    ghost var t := fs.view;
    NoneAdded(t, ts);
    AllAllocated(ts);
    for i := 0 to |files|
      invariant fs.Valid() && fs.view == WithFirst(t, ts, i) && MatchesAll(ts[i..])
    {
      EntryFrame(t, ts, i);
      MatchesRest(ts, i);
      label entry:
      var ok := fs.MergeDiff(files[i], ts[i]);
      AllMatchKept@entry(ts[i + 1..]);
    }
    assert ts[..|files|] == ts;
  }

  // ---- there and back ----

  ghost predicate Twins(n: Node<FileContent>, o: FileContent, twin: map<FileContent, FileContent>)
    reads o
  {
    && o.kind == n.kind && o.ip == n.ip && o.name == n.name && |o.contents| == |n.contents|
    && forall i :: 0 <= i < |n.contents| ==>
         match n.contents[i]
         case None => o.contents[i] == null
         case Some(child) => child in twin && o.contents[i] == twin[child]
  }

  /** `twin` maps the objects reachable from the root one-to-one onto objects of the copy, keeping type,
      ip, name and the order of the children. */
  ghost predicate CopyOf(h: Heap<FileContent>, root: Node<FileContent>, copy: FileContent, twin: map<FileContent, FileContent>)
    reads copy, twin.Values
  {
    && IsReachableSet(h, root, twin.Keys)
    && (forall a, b :: a in twin && b in twin && twin[a] == twin[b] ==> a == b)
    && Twins(root, copy, twin)
    && forall a :: a in twin ==> twin[a] in twin.Values && a in h && Twins(h[a], twin[a], twin)
  }

  ghost function Composed(ids: map<FileContent, nat>, objects: map<nat, FileContent>): (twin: map<FileContent, FileContent>)
    ensures twin.Values <= objects.Values
  {
    map a | a in ids && ids[a] in objects :: objects[ids[a]]
  }

  lemma {:induction false} KeysOfComposed(ids: map<FileContent, nat>, objects: map<nat, FileContent>)
    requires ids.Values == objects.Keys
    ensures Composed(ids, objects).Keys == ids.Keys
  {
    assert forall a :: a in ids ==> ids[a] in ids.Values;
  }

  lemma {:induction false} ReachableTargets(h: Heap<FileContent>, root: Node<FileContent>, s: set<FileContent>)
    requires IsReachableSet(h, root, s)
    ensures Targets(root.contents, s) && forall a :: a in s ==> a in h && Targets(h[a].contents, s)
  {
  }

  lemma {:induction false} TwinsOf(n: Node<FileContent>, ids: map<FileContent, nat>, o: FileContent,
                                   objects: map<nat, FileContent>)
    requires Targets(n.contents, ids.Keys) && DeserializeFs.Matches(o, RenameNode(n, ids), objects)
    ensures Twins(n, o, Composed(ids, objects))
  {
    forall i | 0 <= i < |n.contents|
      ensures match n.contents[i]
              case None => o.contents[i] == null
              case Some(child) => child in Composed(ids, objects) && o.contents[i] == Composed(ids, objects)[child]
    {
      assert SlotMatches(o.contents[i], RenameSlots(n.contents, ids)[i], objects);
    }
  }

  lemma {:induction false} LoadedIsCopy(h: Heap<FileContent>, root: Node<FileContent>, o: Outcome, ids: map<FileContent, nat>,
                                        copy: FileContent, objects: map<nat, FileContent>)
    requires HeapOk(h) && ids.Keys <= h.Keys && Isomorphic(h, root, o, ids) && Loaded(o, copy, objects)
    ensures CopyOf(h, root, copy, Composed(ids, objects))
  {
    hide HeapOk, NodeOk, IsReachableSet, Closed, Twins, RenameNode, DeserializeFs.Matches;
    ReachableTargets(h, root, ids.Keys);
    var twin := Composed(ids, objects);
    KeysOfComposed(ids, objects);
    TwinsOf(root, ids, copy, objects);
    forall a | a in twin ensures twin[a] in twin.Values && a in h && Twins(h[a], twin[a], twin) {
      assert ids[a] in ids.Values;
      TwinsOf(h[a], ids, objects[ids[a]], objects);
    }
  }

  /** Serialise a tree, ship the bytes, load them into a new object: the test at the end is passed
      exactly when the byte count fits its 32 bits, and then the new tree is a copy of the old one. */
  method ShipAndLoad(fs: NetworkFS, ghost h: Heap<FileContent>)
    returns (ok: bool, copy: FileContent, ghost twin: map<FileContent, FileContent>)
    requires Serializable(h, fs.localFs)
    ensures ok <==> |Serialize(h, fs.localFs.Value()).bytes| < 0x1_0000_0000
    ensures |h| < 3000000 ==> ok
    ensures ok ==> CopyOf(h, fs.localFs.Value(), copy, twin)
    ensures fresh(copy) && fresh(twin.Values) && copy !in twin.Values
  {
    hide HeapOk, Mirrors, Targets, NodeOk, FileContent.Value, Serialize, Deserialize, Loaded, CopyOf;
    var val := fs.SerializeLocalFS(h);
    copy := new FileContent();
    ghost var objects;
    ok, objects := NetworkFS.DeserializeToFileContent(val, copy);
    ghost var n := fs.localFs.Value();
    ghost var written := Serialize(h, n);
    SmallGraphsFit(h, n);
    OnlyTheWholeGraphIsAccepted(h, n, |written.bytes| % COUNT_LIMIT);
    twin := map[];
    if ok {
      GraphRoundTrip(h, n);
      assert val == written.bytes;
      twin := Composed(written.ids, objects);
      LoadedIsCopy(h, n, Deserialize(val), written.ids, copy, objects);
    }
  }

  /** The cut does happen: a chain of 2^26 or more directories with full names is within every limit and
      takes 2^32 bytes or more. */
  lemma {:induction false} GraphsCanOutgrowTheCount(n: nat)
    requires 0x4000000 <= n < SIZE_LIMIT
    ensures HeapOk(Chain(n)) && NodeOk(ChainNode(0, n)) && |Chain(n)| < SIZE_LIMIT
    ensures Targets(ChainNode(0, n).contents, Chain(n).Keys)
    ensures |Serialize(Chain(n), ChainNode(0, n)).bytes| >= 0x1_0000_0000
  {
    hide Chain, ChainNode, Serialize, HeapOk, NodeOk, Targets, UpTo;
    ChainSize(n);
  }
}
