/** The merge of the code: loops and recursion that push into `contents` through shared pointers.
    A tree whose `data` are the objects themselves says what lies in memory, before and after. */
module MergeInPlace {
  import opened Bytes
  import opened FileTree
  import opened Merge

  type Shape = Tree<FileContent>

  // ---- trees in memory ----

  ghost function ObjsAll(kids: seq<Shape>): set<FileContent>
    decreases kids, 0
  {
    if kids == [] then {} else ObjsAll(kids[..|kids| - 1]) + Objs(kids[|kids| - 1])
  }

  ghost function Objs(t: Shape): set<FileContent>
    decreases t, 1
  {
    {t.data} + ObjsAll(t.kids)
  }

  ghost predicate DistinctAll(kids: seq<Shape>)
    decreases kids, 0
  {
    && (forall i :: 0 <= i < |kids| ==> Distinct(kids[i]))
    && forall i, j :: 0 <= i < j < |kids| ==> Objs(kids[i]) !! Objs(kids[j])
  }

  /** No object occurs twice. */
  ghost predicate Distinct(t: Shape)
    decreases t, 1
  {
    t.data !in ObjsAll(t.kids) && DistinctAll(t.kids)
  }

  ghost function Datas(kids: seq<Shape>): (children: seq<FileContent?>)
    ensures |children| == |kids|
    ensures forall i :: 0 <= i < |kids| ==> children[i] == kids[i].data
  {
    seq(|kids|, i requires 0 <= i < |kids| => kids[i].data)
  }

  ghost predicate MatchesAll(kids: seq<Shape>)
    reads ObjsAll(kids)
    decreases kids, 0
  {
    forall i :: 0 <= i < |kids| ==> Objs(kids[i]) <= ObjsAll(kids) && Matches(kids[i])
  }

  /** The objects in memory are linked, named and typed as the tree says. */
  ghost predicate Matches(t: Shape)
    reads Objs(t)
    decreases t, 1
  {
    && t.data.kind == t.kind && t.data.name == t.name && t.data.contents == Datas(t.kids)
    && MatchesAll(t.kids)
  }

  // ---- what a merge touches ----

  /** The objects that are pushed into when `x` is merged into an entry. */
  ghost function Touched(into: Shape, x: Shape): set<FileContent>
    decreases x, 0
  {
    {into.data} + TouchedKids(into.kids, x.kids)
  }

  ghost function TouchedBy(kids: seq<Shape>, x: Shape): set<FileContent>
    decreases x, 1
  {
    var i := Find(kids, x.name);
    if i == |kids| || x.kind == FILE then {} else Touched(kids[i], x)
  }

  ghost function TouchedKids(kids: seq<Shape>, more: seq<Shape>): set<FileContent>
    decreases more, 2
  {
    if more == [] then {}
    else TouchedKids(kids, more[..|more| - 1]) + TouchedBy(MergeKids(kids, more[..|more| - 1]), more[|more| - 1])
  }

  lemma {:induction false} TouchedPart(kids: seq<Shape>, more: seq<Shape>, i: nat)
    requires i < |more|
    ensures TouchedBy(MergeKids(kids, more[..i]), more[i]) <= TouchedKids(kids, more)
    decreases |more|
  {
    hide TouchedBy, MergeKids;
    var n := |more| - 1;
    if i < n {
      assert more[..n][..i] == more[..i];
      TouchedPart(kids, more[..n], i);
    }
  }

  // ---- the objects of a merged tree ----

  lemma {:induction false} ObjsAt(kids: seq<Shape>, i: nat)
    requires i < |kids|
    ensures Objs(kids[i]) <= ObjsAll(kids)
    decreases |kids|
  {
    hide Objs;
    var n := |kids| - 1;
    if i < n {
      assert kids[..n][i] == kids[i];
      ObjsAt(kids[..n], i);
    }
  }

  lemma {:induction false} InSome(kids: seq<Shape>, o: FileContent)
    requires o in ObjsAll(kids)
    ensures exists i :: 0 <= i < |kids| && o in Objs(kids[i])
    decreases |kids|
  {
    hide Objs;
    var n := |kids| - 1;
    if o in ObjsAll(kids[..n]) {
      InSome(kids[..n], o);
      var i :| 0 <= i < n && o in Objs(kids[..n][i]);
      assert o in Objs(kids[i]);
    }
  }

  /** The objects of a list lie in a set if those of every entry do. */
  lemma {:induction false} AllWithin(kids: seq<Shape>, s: set<FileContent>)
    requires forall i :: 0 <= i < |kids| ==> Objs(kids[i]) <= s
    ensures ObjsAll(kids) <= s
    decreases |kids|
  {
    hide Objs;
    if kids != [] {
      AllWithin(kids[..|kids| - 1], s);
    }
  }

  /** ... and lie outside of it if those of every entry do. */
  lemma {:induction false} AllOutside(kids: seq<Shape>, s: set<FileContent>)
    requires forall i :: 0 <= i < |kids| ==> Objs(kids[i]) !! s
    ensures ObjsAll(kids) !! s
    decreases |kids|
  {
    hide Objs;
    if kids != [] {
      AllOutside(kids[..|kids| - 1], s);
    }
  }

  lemma {:induction false} ObjsUpdate(kids: seq<Shape>, i: nat, x: Shape)
    requires i < |kids|
    ensures ObjsAll(kids[i := x]) <= ObjsAll(kids) + Objs(x)
  {
    hide Objs, ObjsAll;
    var after := kids[i := x];
    forall j | 0 <= j < |after| ensures Objs(after[j]) <= ObjsAll(kids) + Objs(x) {
      ObjsAt(kids, j);
    }
    AllWithin(after, ObjsAll(kids) + Objs(x));
  }

  lemma {:induction false} ObjsAppend(kids: seq<Shape>, x: Shape)
    ensures ObjsAll(kids + [x]) == ObjsAll(kids) + Objs(x)
  {
    hide Objs;
    assert (kids + [x])[..|kids|] == kids;
  }

  lemma {:induction false} InsertedObjs(kids: seq<Shape>, x: Shape)
    ensures ObjsAll(Insert(kids, x)) <= ObjsAll(kids) + Objs(x)
    decreases x, 1
  {
    hide Find, ObjsAll;
    var i := Find(kids, x.name);
    if i == |kids| || x.kind == FILE {
      ObjsAppend(kids, x);
    } else {
      ObjsAt(kids, i);
      MergedObjs(kids[i].kids, x.kids);
      ObjsUpdate(kids, i, Merged(kids[i], x));
    }
  }

  lemma {:induction false} MergedObjs(kids: seq<Shape>, more: seq<Shape>)
    ensures ObjsAll(MergeKids(kids, more)) <= ObjsAll(kids) + ObjsAll(more)
    decreases more, 2
  {
    hide Insert, Objs, ObjsAll;
    if more != [] {
      var n := |more| - 1;
      assert more[..n] + [more[n]] == more;
      ObjsAppend(more[..n], more[n]);
      MergedObjs(kids, more[..n]);
      InsertedObjs(MergeKids(kids, more[..n]), more[n]);
    }
  }

  lemma {:induction false} DistinctAppend(kids: seq<Shape>, x: Shape)
    requires DistinctAll(kids) && Distinct(x) && ObjsAll(kids) !! Objs(x)
    ensures DistinctAll(kids + [x])
  {
    hide Objs, Distinct;
    forall i | 0 <= i < |kids| ensures Objs(kids[i]) !! Objs(x) {
      ObjsAt(kids, i);
    }
  }

  lemma {:induction false} DistinctFront(kids: seq<Shape>, n: nat)
    requires DistinctAll(kids) && n < |kids|
    ensures DistinctAll(kids[..n]) && Distinct(kids[n]) && ObjsAll(kids[..n]) !! Objs(kids[n])
    ensures ObjsAll(kids[..n]) <= ObjsAll(kids) && Objs(kids[n]) <= ObjsAll(kids)
  {
    hide Objs, Distinct, ObjsAll;
    assert forall i :: 0 <= i < n ==> kids[..n][i] == kids[i];
    AllOutside(kids[..n], Objs(kids[n]));
    forall i | 0 <= i < |kids| ensures Objs(kids[i]) <= ObjsAll(kids) {
      ObjsAt(kids, i);
    }
    AllWithin(kids[..n], ObjsAll(kids));
  }

  lemma {:induction false} DistinctUpdate(kids: seq<Shape>, i: nat, y: Shape, others: set<FileContent>)
    requires i < |kids| && DistinctAll(kids) && Distinct(y) && Objs(y) <= Objs(kids[i]) + others && ObjsAll(kids) !! others
    ensures DistinctAll(kids[i := y])
  {
    hide Objs, Distinct;
    forall j | 0 <= j < |kids| && j != i ensures Objs(kids[j]) !! Objs(y) {
      ObjsAt(kids, j);
      ObjsAt(kids, i);
    }
  }

  lemma {:induction false} InsertedDistinct(kids: seq<Shape>, x: Shape)
    requires DistinctAll(kids) && Distinct(x) && ObjsAll(kids) !! Objs(x)
    ensures DistinctAll(Insert(kids, x))
    decreases x, 1
  {
    hide Find, ObjsAll;
    var i := Find(kids, x.name);
    if i == |kids| || x.kind == FILE {
      DistinctAppend(kids, x);
    } else {
      ObjsAt(kids, i);
      MergedObjs(kids[i].kids, x.kids);
      MergedDistinct(kids[i].kids, x.kids);
      assert Distinct(kids[i]);
      DistinctUpdate(kids, i, Merged(kids[i], x), Objs(x));
    }
  }

  lemma {:induction false} MergedDistinct(kids: seq<Shape>, more: seq<Shape>)
    requires DistinctAll(kids) && DistinctAll(more) && ObjsAll(kids) !! ObjsAll(more)
    ensures DistinctAll(MergeKids(kids, more))
    decreases more, 2
  {
    hide Insert, Objs, ObjsAll, DistinctAll, Distinct;
    if more != [] {
      var n := |more| - 1;
      DistinctFront(more, n);
      MergedObjs(kids, more[..n]);
      MergedDistinct(kids, more[..n]);
      InsertedDistinct(MergeKids(kids, more[..n]), more[n]);
    }
  }

  lemma {:induction false} TouchedObjs(into: Shape, x: Shape)
    ensures Touched(into, x) <= Objs(into) + ObjsAll(x.kids)
    decreases x, 0
  {
    hide ObjsAll;
    TouchedKidsObjs(into.kids, x.kids);
  }

  lemma {:induction false} TouchedByObjs(kids: seq<Shape>, x: Shape)
    ensures TouchedBy(kids, x) <= ObjsAll(kids) + Objs(x)
    decreases x, 1
  {
    hide Find, ObjsAll, Touched;
    var i := Find(kids, x.name);
    if i < |kids| {
      ObjsAt(kids, i);
      TouchedObjs(kids[i], x);
    }
  }

  lemma {:induction false} TouchedKidsObjs(kids: seq<Shape>, more: seq<Shape>)
    ensures TouchedKids(kids, more) <= ObjsAll(kids) + ObjsAll(more)
    decreases more, 2
  {
    hide Insert, Objs, ObjsAll, TouchedBy, MergeKids;
    if more != [] {
      var n := |more| - 1;
      assert more[..n] + [more[n]] == more;
      ObjsAppend(more[..n], more[n]);
      TouchedKidsObjs(kids, more[..n]);
      MergedObjs(kids, more[..n]);
      TouchedByObjs(MergeKids(kids, more[..n]), more[n]);
    }
  }

  // ---- when the second tree stays as it is ----

  /** At every level, the name of a directory repeats no earlier sibling's name. */
  ghost predicate Separate(kids: seq<Shape>)
    decreases kids
  {
    && (forall i, j :: 0 <= i < j < |kids| && kids[j].kind != FILE ==> kids[i].name != kids[j].name)
    && forall i :: 0 <= i < |kids| ==> Separate(kids[i].kids)
  }

  lemma {:induction false} OtherName(kids: seq<Shape>, x: Shape, name: seq<byte>)
    requires x.name != name
    ensures var i := Find(kids, name);
            var after := Insert(kids, x);
            if i < |kids| then Find(after, name) == i < |after| && after[i] == kids[i] else !Has(after, name)
  {
    hide Find;
    var i, after := Find(kids, name), Insert(kids, x);
    if i < |kids| {
      InsertNames(kids, x);
    } else if Find(kids, x.name) < |kids| && x.kind != FILE {
      assert Merged(kids[Find(kids, x.name)], x).name == x.name;
      FindSameNames(kids, after, name);
    } else {
      assert forall j :: 0 <= j < |kids| ==> after[j] == kids[j];
    }
  }

  /** Entries of other names leave an entry as it is. */
  lemma {:induction false} OtherNames(kids: seq<Shape>, more: seq<Shape>, name: seq<byte>)
    requires forall i :: 0 <= i < |more| ==> more[i].name != name
    ensures var i := Find(kids, name);
            var after := MergeKids(kids, more);
            if i < |kids| then Find(after, name) == i < |after| && after[i] == kids[i] else !Has(after, name)
    decreases |more|
  {
    hide Find, Merged;
    if more != [] {
      var n := |more| - 1;
      OtherNames(kids, more[..n], name);
      OtherName(MergeKids(kids, more[..n]), more[n], name);
    }
  }

  lemma {:induction false} SecondListUntouched(kids: seq<Shape>, more: seq<Shape>, n: nat)
    requires Separate(more) && n <= |more|
    ensures TouchedKids(kids, more[..n]) <= ObjsAll(kids)
    decreases more, n
  {
    hide ObjsAll, Find, MergeKids, Objs, Touched;
    if n > 0 {
      var x := more[n - 1];
      assert more[..n][..n - 1] == more[..n - 1];
      SecondListUntouched(kids, more, n - 1);
      if x.kind != FILE {
        OtherNames(kids, more[..n - 1], x.name);
        var i := Find(kids, x.name);
        if i < |kids| {
          SecondTreeUntouched(kids[i], x);
          ObjsAt(kids, i);
        }
      }
    }
  }

  /** Then the merge pushes only into objects of the first tree. */
  lemma {:induction false} SecondTreeUntouched(into: Shape, x: Shape)
    requires Separate(x.kids)
    ensures Touched(into, x) <= Objs(into)
    decreases x, 0
  {
    hide ObjsAll, Separate;
    SecondListUntouched(into.kids, x.kids, |x.kids|);
    assert x.kids[..|x.kids|] == x.kids;
  }

  // ---- memory, piece by piece ----

  lemma {:induction false} Allocated(t: Shape)
    ensures forall o :: o in Objs(t) ==> allocated(o)
    decreases t
  {
    forall o | o in Objs(t) ensures allocated(o) {
      if o != t.data {
        InSome(t.kids, o);
        var i :| 0 <= i < |t.kids| && o in Objs(t.kids[i]);
        Allocated(t.kids[i]);
      }
    }
  }

  twostate lemma {:induction false} AllMatchKept(kids: seq<Shape>)
    requires old(MatchesAll(kids)) && forall o :: o in ObjsAll(kids) ==> old(allocated(o)) && unchanged(o)
    ensures MatchesAll(kids)
    decreases kids, 0
  {
    forall i | 0 <= i < |kids| ensures Objs(kids[i]) <= ObjsAll(kids) && Matches(kids[i]) {
      ObjsAt(kids, i);
      MatchesKept(kids[i]);
    }
  }

  /** Objects that nobody pushes into go on matching. */
  twostate lemma {:induction false} MatchesKept(t: Shape)
    requires old(Matches(t)) && forall o :: o in Objs(t) ==> old(allocated(o)) && unchanged(o)
    ensures Matches(t)
    decreases t, 1
  {
    assert t.data in Objs(t);
    AllMatchKept(t.kids);
  }

  lemma {:induction false} MatchesParts(t: Shape)
    requires Matches(t)
    ensures t.data.kind == t.kind && t.data.name == t.name && t.data.contents == Datas(t.kids) && MatchesAll(t.kids)
  {
  }

  lemma {:induction false} MatchesAt(kids: seq<Shape>, i: nat)
    requires MatchesAll(kids) && i < |kids|
    ensures Matches(kids[i]) && kids[i].data.name == kids[i].name && kids[i].data.kind == kids[i].kind
  {
    hide Objs, ObjsAll;
  }

  lemma {:induction false} AllMatchAt(kids: seq<Shape>)
    requires MatchesAll(kids)
    ensures forall i :: 0 <= i < |kids| ==> Matches(kids[i])
  {
    hide Objs, ObjsAll;
  }

  lemma {:induction false} MatchesRest(kids: seq<Shape>, i: nat)
    requires i < |kids| && MatchesAll(kids[i..])
    ensures Matches(kids[i]) && MatchesAll(kids[i + 1..])
  {
    hide Objs, ObjsAll, Matches;
    var rest, later := kids[i..], kids[i + 1..];
    assert rest[0] == kids[i];
    forall j | 0 <= j < |later| ensures Matches(later[j]) && Objs(later[j]) <= ObjsAll(later) {
      assert later[j] == rest[j + 1];
      ObjsAt(later, j);
    }
  }

  lemma {:induction false} PushMatches(t: Shape, x: Shape)
    requires t.data.kind == t.kind && t.data.name == t.name && t.data.contents == Datas(t.kids) + [x.data]
    requires MatchesAll(t.kids) && Matches(x)
    ensures Matches(t.(kids := t.kids + [x]))
  {
    hide Objs;
    var kids := t.kids + [x];
    assert Datas(kids) == Datas(t.kids) + [x.data];
    forall i | 0 <= i < |kids| ensures Matches(kids[i]) && Objs(kids[i]) <= ObjsAll(kids) {
      assert i < |t.kids| ==> kids[i] == t.kids[i];
      ObjsAt(kids, i);
    }
  }

  lemma {:induction false} UpdateMatches(t: Shape, k: nat, y: Shape)
    requires t.data.kind == t.kind && t.data.name == t.name && t.data.contents == Datas(t.kids)
    requires k < |t.kids| && y.data == t.kids[k].data && Matches(y)
    requires forall i :: 0 <= i < |t.kids| && i != k ==> Matches(t.kids[i])
    ensures Matches(t.(kids := t.kids[k := y]))
  {
    hide Objs;
    var kids := t.kids[k := y];
    assert Datas(kids) == Datas(t.kids);
    forall i | 0 <= i < |kids| ensures Matches(kids[i]) && Objs(kids[i]) <= ObjsAll(kids) {
      assert i != k ==> kids[i] == t.kids[i];
      ObjsAt(kids, i);
    }
  }

  lemma {:induction false} DistinctKid(t: Shape, k: nat)
    requires Distinct(t) && k < |t.kids|
    ensures Distinct(t.kids[k]) && t.data !in Objs(t.kids[k]) && Objs(t.kids[k]) <= ObjsAll(t.kids) <= Objs(t)
    ensures forall i :: 0 <= i < |t.kids| && i != k ==> Objs(t.kids[i]) !! Objs(t.kids[k])
  {
    ObjsAt(t.kids, k);
    hide Distinct, Objs, ObjsAll;
  }

  /** Merging into one child leaves its parent and its siblings alone. */
  lemma {:induction false} ChildFrame(t: Shape, k: nat, x: Shape)
    requires Distinct(t) && Objs(t) !! Objs(x) && k < |t.kids|
    ensures var touched := Touched(t.kids[k], x);
            t.data !in touched && forall i :: 0 <= i < |t.kids| && i != k ==> Objs(t.kids[i]) <= Objs(t) && Objs(t.kids[i]) !! touched
    ensures Merged(t.kids[k], x).data == t.kids[k].data
  {
    DistinctKid(t, k);
    TouchedObjs(t.kids[k], x);
    hide Distinct, ObjsAll, Touched;
    forall i | 0 <= i < |t.kids| && i != k ensures Objs(t.kids[i]) <= Objs(t) && Objs(t.kids[i]) !! Touched(t.kids[k], x) {
      DistinctKid(t, i);
    }
  }

  /** The first tree after `i` rounds. */
  ghost function Round(t1: Shape, t2: Shape, i: nat): Shape
    requires i <= |t2.kids|
  {
    t1.(kids := MergeKids(t1.kids, t2.kids[..i]))
  }

  lemma {:induction false} NextRound(kids: seq<Shape>, more: seq<Shape>, i: nat)
    requires i < |more|
    ensures MergeKids(kids, more[..i + 1]) == Insert(MergeKids(kids, more[..i]), more[i])
  {
    hide Insert;
    assert more[..i + 1][..i] == more[..i];
  }

  lemma {:induction false} DistinctLater(kids: seq<Shape>, i: nat)
    requires DistinctAll(kids) && i < |kids|
    ensures ObjsAll(kids[i + 1..]) !! ObjsAll(kids[..i]) && ObjsAll(kids[i + 1..]) !! Objs(kids[i])
    ensures ObjsAll(kids[i + 1..]) <= ObjsAll(kids)
  {
    hide Objs, Distinct, ObjsAll;
    var front, later := kids[..i], kids[i + 1..];
    forall k | 0 <= k < |later| ensures Objs(later[k]) !! ObjsAll(front) && Objs(later[k]) <= ObjsAll(kids) {
      assert later[k] == kids[i + 1 + k];
      ObjsAt(kids, i + 1 + k);
      forall j | 0 <= j < i ensures Objs(front[j]) !! Objs(later[k]) {
        assert front[j] == kids[j];
      }
      AllOutside(front, Objs(later[k]));
    }
    AllOutside(later, ObjsAll(front));
    AllOutside(later, Objs(kids[i]));
    AllWithin(later, ObjsAll(kids));
  }

  /** What a round may push into: objects of the first tree, as it is by then, and of the entry at hand. */
  lemma {:induction false} RoundFrame(t1: Shape, t2: Shape, i: nat)
    requires Distinct(t1) && Distinct(t2) && Objs(t1) !! Objs(t2) && i < |t2.kids|
    ensures var cur, x := Round(t1, t2, i), t2.kids[i];
            var touched := {cur.data} + TouchedBy(cur.kids, x);
            Distinct(cur) && Distinct(x) && Objs(cur) !! Objs(x) &&
            touched <= Touched(t1, t2) && touched !! ObjsAll(t2.kids[i + 1..]) && t2.data !in touched &&
            ObjsAll(t2.kids[i + 1..]) <= Objs(t2) &&
            Round(t1, t2, i + 1) == cur.(kids := Insert(cur.kids, x))
  {
    hide TouchedBy, TouchedKids, MergeKids, Insert, DistinctAll, ObjsAll;
    var cur, x := Round(t1, t2, i), t2.kids[i];
    DistinctFront(t2.kids, i);
    DistinctLater(t2.kids, i);
    MergedObjs(t1.kids, t2.kids[..i]);
    MergedDistinct(t1.kids, t2.kids[..i]);
    TouchedPart(t1.kids, t2.kids, i);
    TouchedByObjs(cur.kids, x);
    NextRound(t1.kids, t2.kids, i);
  }

  // ---- the code ----

  lemma {:induction false} NamesMatch(kids: seq<Shape>)
    requires MatchesAll(kids)
    ensures forall i :: 0 <= i < |kids| ==> kids[i].data.name == kids[i].name
  {
    forall i | 0 <= i < |kids| ensures kids[i].data.name == kids[i].name {
      MatchesAt(kids, i);
    }
  }

  method FindByName(contents: seq<FileContent?>, name: seq<byte>, ghost kids: seq<Shape>) returns (i: nat)
    requires contents == Datas(kids) && MatchesAll(kids)
    ensures i == Find(kids, name)
  {
    hide Matches, MatchesAll, Find;
    NamesMatch(kids);
    i := 0;
    while i < |contents| && contents[i].name != name
      invariant i <= |kids| && forall j :: 0 <= j < i ==> kids[j].name != name
    {
      i := i + 1;
    }
  }

  lemma {:induction false} FirstRound(t1: Shape, t2: Shape)
    ensures Round(t1, t2, 0) == t1 && t2.kids[0..] == t2.kids
  {
  }

  lemma {:induction false} NotBelow(t: Shape)
    requires Distinct(t)
    ensures t.data !in ObjsAll(t.kids) && ObjsAll(t.kids) <= Objs(t) && t.data in Objs(t)
  {
  }

  /** One round of the loop. */
  method MergeChild(file1: FileContent, x: FileContent, ghost t1: Shape, ghost tx: Shape)
    requires t1.data == file1 && Matches(t1) && Distinct(t1)
    requires tx.data == x && Matches(tx) && Distinct(tx)
    requires Objs(t1) !! Objs(tx)
    modifies ({file1} + TouchedBy(t1.kids, tx))`contents
    ensures Matches(t1.(kids := Insert(t1.kids, tx)))
    decreases tx, 2
  {
    hide Matches, MatchesAll, Objs, ObjsAll, Distinct, DistinctAll, Find, Touched, Merged, Datas;
    Allocated(t1);
    Allocated(tx);
    MatchesParts(t1);
    var k := FindByName(file1.contents, x.name, t1.kids);
    MatchesKept(t1);
    MatchesKept(tx);
    MatchesParts(t1);
    MatchesParts(tx);
    NotBelow(t1);
    if k == |file1.contents| || x.kind == FILE {
      label push:
      file1.contents := file1.contents + [x];
      AllMatchKept@push(t1.kids);
      MatchesKept@push(tx);
      PushMatches(t1, tx);
    } else {
      DistinctKid(t1, k);
      AllMatchAt(t1.kids);
      ChildFrame(t1, k, tx);
      label merge:
      MergeSingleFileContent(file1.contents[k], x, t1.kids[k], tx);
      forall i | 0 <= i < |t1.kids| && i != k ensures Matches(t1.kids[i]) {
        MatchesKept@merge(t1.kids[i]);
      }
      UpdateMatches(t1, k, Merged(t1.kids[k], tx));
    }
  }

  /** Merge `file2` into `file1`: what is named alike is merged, all else is shared.  The objects pushed
      into are those of `Touched`, and no others. */
  method MergeSingleFileContent(file1: FileContent, file2: FileContent, ghost t1: Shape, ghost t2: Shape)
    requires t1.data == file1 && Matches(t1) && Distinct(t1)
    requires t2.data == file2 && Matches(t2) && Distinct(t2)
    requires Objs(t1) !! Objs(t2)
    modifies Touched(t1, t2)`contents
    ensures Matches(Merged(t1, t2))
    decreases t2, 1
  {
    hide Matches, MatchesAll, Objs, ObjsAll, Distinct, DistinctAll, Touched, TouchedBy, MergeKids, Insert, Datas;
    MatchesParts(t2);
    FirstRound(t1, t2);
    Allocated(t2);
    var i := 0;
    while i < |file2.contents|
      invariant i <= |t2.kids| && file2.contents == Datas(t2.kids)
      invariant Matches(Round(t1, t2, i)) && MatchesAll(t2.kids[i..])
    {
      RoundFrame(t1, t2, i);
      MatchesRest(t2.kids, i);
      label round:
      MergeChild(file1, file2.contents[i], Round(t1, t2, i), t2.kids[i]);
      AllMatchKept@round(t2.kids[i + 1..]);
      i := i + 1;
    }
    assert t2.kids[..i] == t2.kids;
  }
}
