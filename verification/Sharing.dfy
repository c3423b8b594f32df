/** From one node's tree to another node's view: what was shipped is a tree again, and merging it is
    merging the tree it came from. */
module Sharing {
  import opened Wrappers
  import opened Bytes
  import opened LengthPrefix
  import opened FileGraph
  import opened FileTree
  import opened Merge
  import opened MergeTotal
  import opened MergeInPlace
  import opened MergeLists
  import opened NetworkFs

  type Twin = map<FileContent, FileContent>

  // ---- a tree as a heap ----

  /** What the serialiser asserts of a node, all the way down. */
  ghost predicate WithinLimits(t: Shape)
    reads Objs(t)
    decreases t
  {
    && t.kind < 0x10000 && |t.data.ip| == 4 && |t.name| <= MAX_NAME && |t.kids| <= MAX_FILE_CAPACITY
    && forall i :: 0 <= i < |t.kids| ==> Objs(t.kids[i]) <= Objs(t) && WithinLimits(t.kids[i])
  }

  ghost function HeapOf(objects: set<FileContent>): (h: Heap<FileContent>)
    reads objects
    ensures h.Keys == objects && |h| == |objects|
    ensures forall o :: o in objects ==> h[o] == o.Value()
  {
    var h := map o | o in objects :: o.Value();
    assert h.Keys == objects && |h| == |h.Keys|;
    h
  }

  ghost predicate Legal(o: FileContent, s: set<FileContent>)
    reads o
  {
    NodeOk(o.Value()) && Targets(o.Value().contents, s)
  }

  lemma NotBelowKid(t: Shape)
    ensures ObjsAll(t.kids) <= Objs(t) && t.data in Objs(t)
  {
  }

  /** Every node of the tree is legal, with children among its objects. */
  lemma {:induction false} NodesAreLegal(t: Shape, s: set<FileContent>)
    requires MergeInPlace.Matches(t) && WithinLimits(t) && ObjsAll(t.kids) <= s
    ensures forall o :: o in Objs(t) ==> Legal(o, s)
    decreases t
  {
    MatchesParts(t);
    AllMatchAt(t.kids);
    forall i | 0 <= i < |t.kids| ensures t.kids[i].data in s && forall o :: o in Objs(t.kids[i]) ==> Legal(o, s) {
      ObjsAt(t.kids, i);
      NotBelowKid(t.kids[i]);
      NodesAreLegal(t.kids[i], s);
    }
    forall o | o in ObjsAll(t.kids) ensures Legal(o, s) {
      InSome(t.kids, o);
    }
  }

  lemma {:induction false} TreeIsSerializable(t: Shape)
    requires MergeInPlace.Matches(t) && WithinLimits(t) && |ObjsAll(t.kids)| < SIZE_LIMIT
    ensures Serializable(HeapOf(ObjsAll(t.kids)), t.data)
  {
    var h := HeapOf(ObjsAll(t.kids));
    NodesAreLegal(t, ObjsAll(t.kids));
    hide NodeOk, Targets, WithinLimits, MergeInPlace.Matches, ObjsAll, FileContent.Value;
    forall o | o in h ensures NodeOk(h[o]) && Targets(h[o].contents, h.Keys) {
      assert Legal(o, h.Keys);
    }
    assert Legal(t.data, h.Keys);
  }

  /** All of the tree is reachable from its root. */
  lemma {:induction false} AllReached(h: Heap<FileContent>, t: Shape, s: set<FileContent>)
    requires MergeInPlace.Matches(t) && Closed(h, s) && Targets(t.data.Value().contents, s)
    requires forall o :: o in ObjsAll(t.kids) && o in h ==> h[o] == o.Value()
    ensures ObjsAll(t.kids) <= s
    decreases t
  {
    MatchesParts(t);
    AllMatchAt(t.kids);
    forall i | 0 <= i < |t.kids| ensures Objs(t.kids[i]) <= s {
      assert t.data.Value().contents[i] == Some(t.kids[i].data);
      ObjsAt(t.kids, i);
      NotBelowKid(t.kids[i]);
      AllReached(h, t.kids[i], s);
    }
    AllWithin(t.kids, s);
  }

  // ---- the tree that arrives ----

  ghost function At(twin: Twin, o: FileContent): FileContent {
    if o in twin then twin[o] else o
  }

  ghost function Image(s: set<FileContent>, twin: Twin): set<FileContent> {
    set a | a in s :: At(twin, a)
  }

  ghost function RenamedAll(kids: seq<Shape>, twin: Twin): (r: seq<Shape>)
    ensures |r| == |kids|
    decreases kids, 1
  {
    if kids == [] then []
    else
      var last := kids[|kids| - 1];
      RenamedAll(kids[..|kids| - 1], twin) + [Renamed(last, At(twin, last.data), twin)]
  }

  /** The tree with its root at `o` and its other objects replaced by their twins. */
  ghost function Renamed(t: Shape, o: FileContent, twin: Twin): Shape
    decreases t, 0
  {
    Tree(o, t.kind, t.name, RenamedAll(t.kids, twin))
  }

  lemma {:induction false} RenamedAt(kids: seq<Shape>, twin: Twin, i: nat)
    requires i < |kids|
    ensures RenamedAll(kids, twin)[i] == Renamed(kids[i], At(twin, kids[i].data), twin)
    decreases |kids|
  {
    hide Renamed;
    if i < |kids| - 1 {
      RenamedAt(kids[..|kids| - 1], twin, i);
    }
  }

  /** The objects that arrive are the twins of those that left. */
  lemma {:induction false} RenamedObjs(kids: seq<Shape>, twin: Twin, s: set<FileContent>)
    requires ObjsAll(kids) <= s
    ensures ObjsAll(RenamedAll(kids, twin)) <= Image(s, twin)
    decreases kids, 1
  {
    var r := RenamedAll(kids, twin);
    forall i | 0 <= i < |kids| ensures Objs(r[i]) <= Image(s, twin) {
      RenamedAt(kids, twin, i);
      ObjsAt(kids, i);
      NotBelowKid(kids[i]);
      RenamedObjs(kids[i].kids, twin, s);
    }
    AllWithin(r, Image(s, twin));
  }

  ghost predicate Injective(twin: Twin) {
    forall a, b :: a in twin && b in twin && twin[a] == twin[b] ==> a == b
  }

  lemma ImagesApart(a: set<FileContent>, b: set<FileContent>, twin: Twin)
    requires Injective(twin) && a + b <= twin.Keys && a !! b
    ensures Image(a, twin) !! Image(b, twin)
  {
  }

  lemma {:induction false} RenamedKid(t: Shape, twin: Twin)
    requires Distinct(t) && Injective(twin) && Objs(t) <= twin.Keys
    ensures At(twin, t.data) !in Image(ObjsAll(t.kids), twin)
    ensures Objs(Renamed(t, At(twin, t.data), twin)) <= Image(Objs(t), twin)
  {
    NotBelowKid(t);
    RenamedObjs(t.kids, twin, Objs(t));
  }

  lemma {:induction false} RenamedDistinct(t: Shape, o: FileContent, twin: Twin)
    requires Distinct(t) && Injective(twin) && ObjsAll(t.kids) <= twin.Keys && o !in Image(ObjsAll(t.kids), twin)
    ensures Distinct(Renamed(t, o, twin))
    decreases t
  {
    var kids, r := t.kids, RenamedAll(t.kids, twin);
    RenamedObjs(kids, twin, ObjsAll(kids));
    hide RenamedAll, Image, Injective;
    forall i | 0 <= i < |kids| ensures Distinct(r[i]) && Objs(r[i]) <= Image(Objs(kids[i]), twin) && Objs(kids[i]) <= twin.Keys {
      RenamedAt(kids, twin, i);
      ObjsAt(kids, i);
      RenamedKid(kids[i], twin);
      RenamedDistinct(kids[i], At(twin, kids[i].data), twin);
    }
    forall i, j | 0 <= i < j < |kids| ensures Objs(r[i]) !! Objs(r[j]) {
      ImagesApart(Objs(kids[i]), Objs(kids[j]), twin);
    }
  }

  /** The new objects are linked as the renamed tree says. */
  lemma {:induction false} RenamedMatches(t: Shape, o: FileContent, twin: Twin)
    requires MergeInPlace.Matches(t) && ObjsAll(t.kids) <= twin.Keys && Twins(t.data.Value(), o, twin)
    requires forall a :: a in ObjsAll(t.kids) ==> Twins(a.Value(), twin[a], twin)
    ensures MergeInPlace.Matches(Renamed(t, o, twin))
    decreases t
  {
    MatchesParts(t);
    AllMatchAt(t.kids);
    var kids, r := t.kids, RenamedAll(t.kids, twin);
    hide ObjsAll, RenamedAll;
    forall i | 0 <= i < |kids| ensures MergeInPlace.Matches(r[i]) && Objs(r[i]) <= ObjsAll(r) && o.contents[i] == r[i].data {
      RenamedAt(kids, twin, i);
      ObjsAt(kids, i);
      ObjsAt(r, i);
      NotBelowKid(kids[i]);
      RenamedMatches(kids[i], twin[kids[i].data], twin);
      assert t.data.Value().contents[i] == Some(kids[i].data);
    }
    assert o.contents == Datas(r);
  }

  // ---- what a tree shows ----

  ghost function Pictures(kids: seq<Shape>): (ps: seq<Tree<seq<byte>>>)
    reads ObjsAll(kids)
    ensures |ps| == |kids|
    decreases kids, 1
  {
    if kids == [] then [] else Pictures(kids[..|kids| - 1]) + [Picture(kids[|kids| - 1])]
  }

  /** The tree with the addresses of its nodes in place of the objects: all that a user of it sees. */
  ghost function Picture(t: Shape): Tree<seq<byte>>
    reads Objs(t)
    decreases t, 0
  {
    Tree(t.data.ip, t.kind, t.name, Pictures(t.kids))
  }

  lemma {:induction false} PictureAt(kids: seq<Shape>, i: nat)
    requires i < |kids|
    ensures Pictures(kids)[i] == Picture(kids[i])
    decreases |kids|
  {
    hide Picture;
    if i < |kids| - 1 {
      PictureAt(kids[..|kids| - 1], i);
    }
  }

  twostate lemma {:induction false} PicturesKept(kids: seq<Shape>)
    requires forall o :: o in ObjsAll(kids) ==> old(allocated(o)) && o.ip == old(o.ip)
    ensures Pictures(kids) == old(Pictures(kids))
    decreases kids, 1
  {
    if kids != [] {
      assert ObjsAll(kids) == ObjsAll(kids[..|kids| - 1]) + Objs(kids[|kids| - 1]);
      PicturesKept(kids[..|kids| - 1]);
      PictureKept(kids[|kids| - 1]);
    }
  }

  /** Pushing into `contents` changes no picture of a tree as it was. */
  twostate lemma {:induction false} PictureKept(t: Shape)
    requires forall o :: o in Objs(t) ==> old(allocated(o)) && o.ip == old(o.ip)
    ensures Picture(t) == old(Picture(t))
    decreases t, 0
  {
    NotBelowKid(t);
    PicturesKept(t.kids);
  }

  /** What arrives looks like what was sent. */
  lemma {:induction false} RenamedPicture(t: Shape, o: FileContent, twin: Twin)
    requires ObjsAll(t.kids) <= twin.Keys && o.ip == t.data.ip
    requires forall a :: a in ObjsAll(t.kids) ==> twin[a].ip == a.ip
    ensures Picture(Renamed(t, o, twin)) == Picture(t)
    decreases t
  {
    var kids, r := t.kids, RenamedAll(t.kids, twin);
    hide ObjsAll, RenamedAll, Pictures;
    forall i | 0 <= i < |kids| ensures Pictures(r)[i] == Pictures(kids)[i] {
      RenamedAt(kids, twin, i);
      ObjsAt(kids, i);
      NotBelowKid(kids[i]);
      RenamedPicture(kids[i], twin[kids[i].data], twin);
      PictureAt(kids, i);
      PictureAt(r, i);
    }
    assert Pictures(r) == Pictures(kids);
  }

  // ---- merging pictures ----

  lemma {:induction false} PictureFind(kids: seq<Shape>, name: seq<byte>)
    ensures Find(Pictures(kids), name) == Find(kids, name)
  {
    hide Find, Pictures;
    var ps := Pictures(kids);
    forall i | 0 <= i < |kids| ensures ps[i].name == kids[i].name {
      PictureAt(kids, i);
    }
  }

  lemma {:induction false} PictureUpdate(kids: seq<Shape>, i: nat, x: Shape)
    requires i < |kids|
    ensures Pictures(kids[i := x]) == Pictures(kids)[i := Picture(x)]
  {
    hide Picture, Pictures;
    var more := kids[i := x];
    forall j | 0 <= j < |kids| ensures Pictures(more)[j] == Pictures(kids)[i := Picture(x)][j] {
      PictureAt(more, j);
      PictureAt(kids, j);
    }
  }

  lemma {:induction false} PictureAppend(kids: seq<Shape>, x: Shape)
    ensures Pictures(kids + [x]) == Pictures(kids) + [Picture(x)]
  {
    hide Picture;
    assert (kids + [x])[..|kids|] == kids;
  }

  lemma {:induction false} PictureOfInsert(kids: seq<Shape>, x: Shape)
    ensures Pictures(Insert(kids, x)) == Insert(Pictures(kids), Picture(x))
    decreases x, 1
  {
    hide Find, Pictures;
    PictureFind(kids, x.name);
    var i := Find(kids, x.name);
    if i == |kids| || x.kind == FILE {
      PictureAppend(kids, x);
    } else {
      PictureOfMerge(kids[i].kids, x.kids);
      PictureUpdate(kids, i, Merged(kids[i], x));
      PictureAt(kids, i);
    }
  }

  /** Merging sees nothing but pictures: the picture of a merge is the merge of the pictures. */
  lemma {:induction false} PictureOfMerge(kids: seq<Shape>, more: seq<Shape>)
    ensures Pictures(MergeKids(kids, more)) == MergeKids(Pictures(kids), Pictures(more))
    decreases more, 2
  {
    hide Insert, Picture;
    if more != [] {
      var n := |more| - 1;
      PictureOfMerge(kids, more[..n]);
      PictureOfInsert(MergeKids(kids, more[..n]), more[n]);
      assert Pictures(more)[..n] == Pictures(more[..n]);
    }
  }

  lemma {:induction false} PictureOfPut(kids: seq<Shape>, x: Shape)
    ensures Pictures(Put(kids, x)) == Put(Pictures(kids), Picture(x))
  {
    hide Find, Pictures;
    PictureFind(kids, x.name);
    var i := Find(kids, x.name);
    if i == |kids| {
      PictureAppend(kids, x);
    } else {
      PictureOfMerge(kids[i].kids, x.kids);
      PictureUpdate(kids, i, Merged(kids[i], x));
      PictureAt(kids, i);
    }
  }

  // ---- shipping and merging ----

  lemma {:induction false} TwinAddresses(t: Shape, copy: FileContent, h: Heap<FileContent>, twin: Twin)
    requires Twins(t.data.Value(), copy, twin) && h == HeapOf(ObjsAll(t.kids)) && ObjsAll(t.kids) <= twin.Keys
    requires forall a :: a in twin ==> a in h && Twins(h[a], twin[a], twin)
    ensures copy.ip == t.data.ip && forall a :: a in ObjsAll(t.kids) ==> twin[a].ip == a.ip
  {
  }

  lemma {:induction false} CopyParts(h: Heap<FileContent>, root: Node<FileContent>, copy: FileContent, twin: Twin)
    requires CopyOf(h, root, copy, twin)
    ensures Closed(h, twin.Keys) && Targets(root.contents, twin.Keys) && Injective(twin)
    ensures Twins(root, copy, twin) && forall a :: a in twin ==> a in h && Twins(h[a], twin[a], twin)
  {
  }

  /** What a copy of a tree is: a tree in its own objects, alike in everything. */
  lemma {:induction false} CopyIsTree(t: Shape, h: Heap<FileContent>, copy: FileContent, twin: Twin)
    requires MergeInPlace.Matches(t) && Distinct(t) && h == HeapOf(ObjsAll(t.kids))
    requires CopyOf(h, t.data.Value(), copy, twin) && copy !in twin.Values
    ensures var arrived := Renamed(t, copy, twin);
            MergeInPlace.Matches(arrived) && Distinct(arrived) && Picture(arrived) == Picture(t) &&
            Objs(arrived) <= {copy} + twin.Values
  {
    CopyParts(h, t.data.Value(), copy, twin);
    hide CopyOf, Twins, IsReachableSet;
    AllReached(h, t, twin.Keys);
    assert forall a :: a in twin ==> twin[a] in twin.Values;
    assert Image(ObjsAll(t.kids), twin) <= twin.Values;
    RenamedObjs(t.kids, twin, ObjsAll(t.kids));
    RenamedDistinct(t, copy, twin);
    RenamedMatches(t, copy, twin);
    TwinAddresses(t, copy, h, twin);
    RenamedPicture(t, copy, twin);
  }

  lemma ViewIsTree(fs: NetworkFS)
    requires fs.Valid()
    ensures fs.view.data == fs.gfsRoot && MergeInPlace.Matches(fs.view) && Distinct(fs.view)
  {
  }

  lemma TreeIsView(fs: NetworkFS)
    requires fs.view.data == fs.gfsRoot && MergeInPlace.Matches(fs.view) && Distinct(fs.view)
    ensures fs.Valid()
  {
  }

  lemma PictureAfterPut(root: Shape, x: Shape)
    ensures Picture(root.(kids := Put(root.kids, x))) == Picture(root).(kids := Put(Picture(root).kids, Picture(x)))
  {
    PictureOfPut(root.kids, x);
  }

  twostate lemma SameHeap(t: Shape)
    requires forall o :: o in Objs(t) ==> old(allocated(o)) && unchanged(o)
    ensures HeapOf(ObjsAll(t.kids)) == old(HeapOf(ObjsAll(t.kids)))
  {
    NotBelowKid(t);
  }

  /** The bytes a tree is shipped as. */
  ghost function TreeBytes(t: Shape): seq<byte>
    requires MergeInPlace.Matches(t) && WithinLimits(t) && |ObjsAll(t.kids)| < SIZE_LIMIT
    reads Objs(t)
  {
    TreeIsSerializable(t);
    Serialize(HeapOf(ObjsAll(t.kids)), t.data.Value()).bytes
  }

  /** One node ships its tree and another merges what arrives.  If the bytes fit their 32-bit count, the
      receiver then shows the merge of what it showed before and what the sender shows; if not, nothing
      happens.  The sender's tree stays as it is. */
  method ShipAndMerge(sender: NetworkFS, receiver: NetworkFS, ghost t: Shape) returns (ok: bool)
    requires t.data == sender.localFs && MergeInPlace.Matches(t) && Distinct(t)
    requires WithinLimits(t) && |ObjsAll(t.kids)| < SIZE_LIMIT
    requires receiver.Valid() && Objs(receiver.view) !! Objs(t)
    modifies receiver`view, Objs(receiver.view)`contents
    ensures receiver.Valid() && MergeInPlace.Matches(t)
    ensures ok <==> |old(TreeBytes(t))| < 0x1_0000_0000
    ensures |ObjsAll(t.kids)| < 3000000 ==> ok
    ensures var shown := old(Picture(receiver.view));
            ok ==> Picture(receiver.view) == shown.(kids := Put(shown.kids, old(Picture(t))))
    ensures !ok ==> receiver.view == old(receiver.view)
  {
    hide MergeInPlace.Matches, Distinct, Objs, ObjsAll, WithinLimits, Picture, Put, TouchedByPut, Serialize;
    hide CopyOf, NetworkFS.Valid;
    ghost var h, view := HeapOf(ObjsAll(t.kids)), receiver.view;
    Allocated(t);
    Allocated(view);
    ViewIsTree(receiver);
    TreeIsSerializable(t);
    var copy: FileContent;
    ghost var twin;
    ok, copy, twin := ShipAndLoad(sender, h);
    MatchesKept(t);
    MatchesKept(view);
    TreeIsView(receiver);
    if ok {
      PictureKept(t);
      PictureKept(view);
      SameHeap(t);
      CopyIsTree(t, h, copy, twin);
      ghost var arrived := Renamed(t, copy, twin);
      Allocated(arrived);
      PutObjects(view.kids, arrived);
      NotBelowKid(view);
      label merging:
      var merged := receiver.MergeDiff(copy, arrived);
      MatchesKept@merging(t);
      PictureKept@merging(view);
      PictureKept@merging(arrived);
      PictureAfterPut(view, arrived);
    }
  }
}
