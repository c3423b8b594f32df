/** Merging lists of trees in place: the total of all nodes' trees, and the root that grows by one tree at
    a time.  Both are the same fold of `Put`, so neither the batch nor the increments can differ. */
module MergeLists {
  import opened Bytes
  import opened FileTree
  import opened Merge
  import opened MergeTotal
  import opened MergeInPlace

  /** "Guthi File System" */
  const ROOT_NAME: seq<byte> := [71, 117, 116, 104, 105, 32, 70, 105, 108, 101, 32, 83, 121, 115, 116, 101, 109]

  // ---- what is pushed into ----

  ghost function TouchedByPut(kids: seq<Shape>, x: Shape): set<FileContent> {
    var i := Find(kids, x.name);
    if i == |kids| then {} else Touched(kids[i], x)
  }

  ghost function TouchedByAll(kids: seq<Shape>, more: seq<Shape>): set<FileContent>
    decreases |more|
  {
    if more == [] then {}
    else TouchedByAll(kids, more[..|more| - 1]) + TouchedByPut(PutAll(kids, more[..|more| - 1]), more[|more| - 1])
  }

  lemma {:induction false} TouchedByAllPart(kids: seq<Shape>, more: seq<Shape>, i: nat)
    requires i < |more|
    ensures TouchedByPut(PutAll(kids, more[..i]), more[i]) <= TouchedByAll(kids, more)
    decreases |more|
  {
    hide TouchedByPut, PutAll;
    var n := |more| - 1;
    if i < n {
      assert more[..n][..i] == more[..i];
      TouchedByAllPart(kids, more[..n], i);
    }
  }

  lemma TouchedIfNamed(kids: seq<Shape>, x: Shape)
    ensures TouchedByPut(kids, x) == {} <==> !Has(kids, x.name)
  {
  }

  /** The frame of the merge is empty exactly when no name repeats: then the entries are only linked to the
      root and no object of the list changes. */
  lemma {:induction false} ListUntouchedIff(kids: seq<Shape>, more: seq<Shape>)
    ensures TouchedByAll(kids, more) == {} <==> forall n :: 0 <= n < |more| ==> !Repeats(kids, more, n)
    decreases |more|
  {
    hide PutAll, Has;
    if more != [] {
      var n := |more| - 1;
      ListUntouchedIff(kids, more[..n]);
      PutNames(kids, more[..n], more[n].name);
      hide Repeats;
      PutRepeats(kids, more, n);
      forall i | 0 <= i < n ensures Repeats(kids, more[..n], i) <==> Repeats(kids, more, i) {
        assert more[..n][..i] == more[..i];
        PutRepeats(kids, more[..n], i);
        PutRepeats(kids, more, i);
      }
      TouchedIfNamed(PutAll(kids, more[..n]), more[n]);
    }
  }

  // ---- the objects of a total ----

  lemma {:induction false} PutObjects(kids: seq<Shape>, x: Shape)
    ensures ObjsAll(Put(kids, x)) <= ObjsAll(kids) + Objs(x)
    ensures TouchedByPut(kids, x) <= ObjsAll(kids) + Objs(x)
    ensures DistinctAll(kids) && Distinct(x) && ObjsAll(kids) !! Objs(x) ==> DistinctAll(Put(kids, x))
  {
    hide Find, ObjsAll, Touched;
    var i := Find(kids, x.name);
    if i == |kids| {
      ObjsAppend(kids, x);
      if DistinctAll(kids) && Distinct(x) && ObjsAll(kids) !! Objs(x) {
        DistinctAppend(kids, x);
      }
    } else {
      ObjsAt(kids, i);
      TouchedObjs(kids[i], x);
      MergedObjs(kids[i].kids, x.kids);
      ObjsUpdate(kids, i, Merged(kids[i], x));
      if DistinctAll(kids) && Distinct(x) && ObjsAll(kids) !! Objs(x) {
        assert Distinct(kids[i]);
        MergedDistinct(kids[i].kids, x.kids);
        DistinctUpdate(kids, i, Merged(kids[i], x), Objs(x));
      }
    }
  }

  lemma {:induction false} TotalObjects(kids: seq<Shape>, more: seq<Shape>)
    requires DistinctAll(kids) && DistinctAll(more) && ObjsAll(kids) !! ObjsAll(more)
    ensures DistinctAll(PutAll(kids, more)) && ObjsAll(PutAll(kids, more)) <= ObjsAll(kids) + ObjsAll(more)
    decreases |more|
  {
    hide Put, Objs, ObjsAll, DistinctAll, Distinct, TouchedByPut;
    if more != [] {
      var n := |more| - 1;
      DistinctFront(more, n);
      TotalObjects(kids, more[..n]);
      PutObjects(PutAll(kids, more[..n]), more[n]);
    }
  }

  /** The root after `i` entries of the list. */
  ghost function WithFirst(t: Shape, more: seq<Shape>, i: nat): Shape
    requires i <= |more|
  {
    t.(kids := PutAll(t.kids, more[..i]))
  }

  lemma {:induction false} EntryFrame(t: Shape, more: seq<Shape>, i: nat)
    requires Distinct(t) && DistinctAll(more) && Objs(t) !! ObjsAll(more) && i < |more|
    ensures var cur, x := WithFirst(t, more, i), more[i];
            var touched := {cur.data} + TouchedByPut(cur.kids, x);
            Distinct(cur) && Distinct(x) && Objs(cur) !! Objs(x) &&
            touched <= {t.data} + TouchedByAll(t.kids, more) && touched !! ObjsAll(more[i + 1..]) &&
            ObjsAll(more[i + 1..]) <= ObjsAll(more) &&
            WithFirst(t, more, i + 1) == cur.(kids := Put(cur.kids, x))
  {
    hide TouchedByPut, TouchedByAll, Put, DistinctAll, ObjsAll;
    DistinctFront(more, i);
    DistinctLater(more, i);
    TotalObjects(t.kids, more[..i]);
    TouchedByAllPart(t.kids, more, i);
    PutObjects(WithFirst(t, more, i).kids, more[i]);
    assert more[..i + 1][..i] == more[..i];
  }

  // ---- the code ----

  method PutChild(root: FileContent, x: FileContent, ghost t: Shape, ghost tx: Shape)
    requires t.data == root && Matches(t) && Distinct(t)
    requires tx.data == x && Matches(tx) && Distinct(tx)
    requires Objs(t) !! Objs(tx)
    modifies ({root} + TouchedByPut(t.kids, tx))`contents
    ensures Matches(t.(kids := Put(t.kids, tx)))
  {
    hide Matches, MatchesAll, Objs, ObjsAll, Distinct, DistinctAll, Find, Touched, Merged, Datas;
    Allocated(t);
    Allocated(tx);
    MatchesParts(t);
    MatchesParts(tx);
    var k := FindByName(root.contents, x.name, t.kids);
    MatchesKept(t);
    MatchesKept(tx);
    MatchesParts(t);
    NotBelow(t);
    if k == |root.contents| {
      label push:
      root.contents := root.contents + [x];
      AllMatchKept@push(t.kids);
      MatchesKept@push(tx);
      PushMatches(t, tx);
    } else {
      DistinctKid(t, k);
      AllMatchAt(t.kids);
      ChildFrame(t, k, tx);
      label merge:
      MergeSingleFileContent(root.contents[k], x, t.kids[k], tx);
      forall i | 0 <= i < |t.kids| && i != k ensures Matches(t.kids[i]) {
        MatchesKept@merge(t.kids[i]);
      }
      UpdateMatches(t, k, Merged(t.kids[k], tx));
    }
  }

  ghost predicate Entries(files: seq<FileContent>, ts: seq<Shape>)
    reads ObjsAll(ts)
  {
    |files| == |ts| && (forall i :: 0 <= i < |ts| ==> ts[i].data == files[i]) && MatchesAll(ts) && DistinctAll(ts)
  }

  lemma {:induction false} NoneAdded(t: Shape, ts: seq<Shape>)
    ensures WithFirst(t, ts, 0) == t && ts[0..] == ts
  {
  }

  lemma {:induction false} AllAllocated(ts: seq<Shape>)
    ensures forall o :: o in ObjsAll(ts) ==> allocated(o)
  {
    forall o | o in ObjsAll(ts) ensures allocated(o) {
      InSome(ts, o);
      var i :| 0 <= i < |ts| && o in Objs(ts[i]);
      Allocated(ts[i]);
    }
  }

  method AddAsChildDirectory(root: FileContent, newAddition: seq<FileContent>, ghost t: Shape, ghost ts: seq<Shape>)
    requires t.data == root && Matches(t) && Distinct(t) && Entries(newAddition, ts) && Objs(t) !! ObjsAll(ts)
    modifies ({root} + TouchedByAll(t.kids, ts))`contents
    ensures Matches(t.(kids := PutAll(t.kids, ts)))
  {
    hide Matches, MatchesAll, Objs, ObjsAll, Distinct, DistinctAll, TouchedByAll, TouchedByPut, PutAll, Put;
    NoneAdded(t, ts);
    AllAllocated(ts);
    for i := 0 to |newAddition|
      invariant Matches(WithFirst(t, ts, i)) && MatchesAll(ts[i..])
    {
      EntryFrame(t, ts, i);
      MatchesRest(ts, i);
      label entry:
      PutChild(root, newAddition[i], WithFirst(t, ts, i), ts[i]);
      AllMatchKept@entry(ts[i + 1..]);
    }
    assert ts[..|newAddition|] == ts;
  }
}
