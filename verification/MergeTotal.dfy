/** Merging whole lists of top-level entries, and what becomes of the files: merging conserves them,
    path by path, except where a top-level File repeats an earlier name. */
module MergeTotal {
  import opened Bytes
  import opened FileTree
  import opened Merge

  type Path = p: seq<seq<byte>> | p != [] witness [[]]

  // ---- the files of a forest ----

  ghost function Carries<A>(x: Tree<A>, d: A): nat {
    if x.data == d then 1 else 0
  }

  ghost function FilesOf<A>(x: Tree<A>, path: Path, d: A): nat
    decreases x, 0
  {
    if x.name != path[0] then 0
    else if |path| > 1 then FilesAt(x.kids, path[1..], d)
    else if x.kind == FILE then Carries(x, d)
    else 0
  }

  /** The number of File nodes at a path that carry `d`. */
  ghost function FilesAt<A>(kids: seq<Tree<A>>, path: Path, d: A): nat
    decreases kids, 1
  {
    if kids == [] then 0
    else FilesAt(kids[..|kids| - 1], path, d) + FilesOf(kids[|kids| - 1], path, d)
  }

  lemma {:induction false} FilesAppend<A>(kids: seq<Tree<A>>, x: Tree<A>, path: Path, d: A)
    ensures FilesAt(kids + [x], path, d) == FilesAt(kids, path, d) + FilesOf(x, path, d)
  {
    hide FilesOf;
    assert (kids + [x])[..|kids|] == kids;
  }

  lemma {:induction false} FilesUpdate<A>(kids: seq<Tree<A>>, i: nat, x: Tree<A>, path: Path, d: A)
    requires i < |kids|
    ensures FilesAt(kids[i := x], path, d) + FilesOf(kids[i], path, d) == FilesAt(kids, path, d) + FilesOf(x, path, d)
    decreases |kids|
  {
    hide FilesOf;
    var n := |kids| - 1;
    if i == n {
      assert kids[i := x][..n] == kids[..n];
    } else {
      assert kids[i := x][..n] == kids[..n][i := x];
      FilesUpdate(kids[..n], i, x, path, d);
    }
  }

  lemma {:induction false} DirectoryOnly<A>(x: Tree<A>, path: Path, d: A)
    ensures x.kind != FILE || path != [x.name] ==> FilesOf(x.(kind := DIRECTORY), path, d) == FilesOf(x, path, d)
    ensures x.kind == FILE && path == [x.name] ==> FilesOf(x, path, d) == Carries(x, d) && FilesOf(x.(kind := DIRECTORY), path, d) == 0
  {
    hide FilesAt;
  }

  /** Merging conserves the files of both sides at every path: files are neither overwritten nor deduplicated. */
  lemma {:induction false} MergeConservesFiles<A>(kids: seq<Tree<A>>, more: seq<Tree<A>>, path: Path, d: A)
    ensures FilesAt(MergeKids(kids, more), path, d) == FilesAt(kids, path, d) + FilesAt(more, path, d)
    decreases more, 2
  {
    hide Insert, FilesOf;
    if more != [] {
      var n := |more| - 1;
      MergeConservesFiles(kids, more[..n], path, d);
      InsertConservesFiles(MergeKids(kids, more[..n]), more[n], path, d);
    }
  }

  /** Merging `x` into an entry brings in all of its files but itself. */
  lemma {:induction false} MergedFiles<A>(into: Tree<A>, x: Tree<A>, path: Path, d: A)
    requires into.name == x.name
    ensures FilesOf(Merged(into, x), path, d) == FilesOf(into, path, d) + FilesOf(x.(kind := DIRECTORY), path, d)
    decreases x, 0
  {
    hide FilesAt, MergeKids;
    if |path| > 1 {
      MergeConservesFiles(into.kids, x.kids, path[1..], d);
    }
  }

  lemma {:induction false} InsertConservesFiles<A>(kids: seq<Tree<A>>, x: Tree<A>, path: Path, d: A)
    ensures FilesAt(Insert(kids, x), path, d) == FilesAt(kids, path, d) + FilesOf(x, path, d)
    decreases x, 1
  {
    hide Find, FilesOf, FilesAt;
    var i := Find(kids, x.name);
    if i == |kids| || x.kind == FILE {
      FilesAppend(kids, x, path, d);
    } else {
      MergedFiles(kids[i], x, path, d);
      DirectoryOnly(x, path, d);
      FilesUpdate(kids, i, Merged(kids[i], x), path, d);
    }
  }

  // ---- lists of top-level entries ----

  /** An entry of a new name is appended, any other is merged into the first entry of its name, File or not. */
  function Put<A>(kids: seq<Tree<A>>, x: Tree<A>): seq<Tree<A>> {
    var i := Find(kids, x.name);
    if i == |kids| then kids + [x] else kids[i := Merged(kids[i], x)]
  }

  function PutAll<A>(kids: seq<Tree<A>>, more: seq<Tree<A>>): seq<Tree<A>> {
    if more == [] then kids
    else Put(PutAll(kids, more[..|more| - 1]), more[|more| - 1])
  }

  /** The name has been seen before entry `n`. */
  predicate Repeats<A>(kids: seq<Tree<A>>, more: seq<Tree<A>>, n: nat)
    requires n < |more|
  {
    Has(kids, more[n].name) || exists i :: 0 <= i < n && more[i].name == more[n].name
  }

  /** The Files among `more[..n]` that repeat a name. */
  ghost function Lost<A>(kids: seq<Tree<A>>, more: seq<Tree<A>>, n: nat, path: Path, d: A): nat
    requires n <= |more|
  {
    if n == 0 then 0
    else
      var x := more[n - 1];
      Lost(kids, more, n - 1, path, d) +
      if x.kind == FILE && path == [x.name] && Repeats(kids, more, n - 1) then Carries(x, d) else 0
  }

  lemma MergedName<A>(into: Tree<A>, x: Tree<A>)
    ensures Merged(into, x).name == into.name
  {
  }

  lemma {:induction false} PutName<A>(kids: seq<Tree<A>>, x: Tree<A>, name: seq<byte>)
    ensures Has(Put(kids, x), name) <==> Has(kids, name) || x.name == name
  {
    hide Find, Merged;
    var after := Put(kids, x);
    if Find(kids, x.name) == |kids| {
      assert after[|kids|].name == x.name;
      if Has(kids, name) {
        FindInFront(kids, [x], name);
      }
    } else {
      MergedName(kids[Find(kids, x.name)], x);
      FindSameNames(kids, after, name);
      FindSameNames(kids, after, x.name);
    }
  }

  lemma {:induction false} PutNames<A>(kids: seq<Tree<A>>, more: seq<Tree<A>>, name: seq<byte>)
    ensures Has(PutAll(kids, more), name) <==> Has(kids, name) || exists i :: 0 <= i < |more| && more[i].name == name
    decreases |more|
  {
    if more != [] {
      var n := |more| - 1;
      PutNames(kids, more[..n], name);
      PutName(PutAll(kids, more[..n]), more[n], name);
      assert forall i :: 0 <= i < n ==> more[..n][i] == more[i];
    }
  }

  lemma {:induction false} PutRepeats<A>(kids: seq<Tree<A>>, more: seq<Tree<A>>, n: nat)
    requires n < |more|
    ensures Has(PutAll(kids, more[..n]), more[n].name) <==> Repeats(kids, more, n)
  {
    hide PutAll, Has;
    PutNames(kids, more[..n], more[n].name);
    assert forall i :: 0 <= i < n ==> more[..n][i] == more[i];
  }

  lemma {:induction false} PutFiles<A>(kids: seq<Tree<A>>, x: Tree<A>, path: Path, d: A)
    ensures FilesAt(Put(kids, x), path, d) +
            (if x.kind == FILE && path == [x.name] && Has(kids, x.name) then Carries(x, d) else 0)
         == FilesAt(kids, path, d) + FilesOf(x, path, d)
  {
    hide Find, FilesOf, FilesAt;
    var i := Find(kids, x.name);
    if i == |kids| {
      FilesAppend(kids, x, path, d);
    } else {
      MergedFiles(kids[i], x, path, d);
      DirectoryOnly(x, path, d);
      FilesUpdate(kids, i, Merged(kids[i], x), path, d);
    }
  }

  /** What a list of entries brings in and what it loses, exactly, at every path. */
  lemma {:induction false} TotalFiles<A>(kids: seq<Tree<A>>, more: seq<Tree<A>>, n: nat, path: Path, d: A)
    requires n <= |more|
    ensures FilesAt(PutAll(kids, more[..n]), path, d) + Lost(kids, more, n, path, d) == FilesAt(kids, path, d) + FilesAt(more[..n], path, d)
    decreases n
  {
    hide FilesOf, Put, Repeats, Has;
    if n > 0 {
      var x := more[n - 1];
      assert more[..n][..n - 1] == more[..n - 1];
      TotalFiles(kids, more, n - 1, path, d);
      PutRepeats(kids, more, n - 1);
      PutFiles(PutAll(kids, more[..n - 1]), x, path, d);
    }
  }

  lemma {:induction false} LostGrows<A>(kids: seq<Tree<A>>, more: seq<Tree<A>>, n: nat, end: nat, path: Path, d: A)
    requires n < end <= |more| && more[n].kind == FILE && Repeats(kids, more, n)
    requires path == [more[n].name] && d == more[n].data
    ensures Lost(kids, more, end, path, d) > 0
    decreases end
  {
    hide Repeats;
    if n + 1 < end {
      LostGrows(kids, more, n, end - 1, path, d);
    }
  }

  lemma {:induction false} NothingLost<A>(kids: seq<Tree<A>>, more: seq<Tree<A>>, n: nat, path: Path, d: A)
    requires n <= |more| && forall i :: 0 <= i < |more| && more[i].kind == FILE ==> !Repeats(kids, more, i)
    ensures Lost(kids, more, n, path, d) == 0
    decreases n
  {
    hide Repeats;
    if n > 0 {
      NothingLost(kids, more, n - 1, path, d);
    }
  }

  /** Merging a list of top-level entries conserves the files at every path if and only if no File among
      them repeats a name. */
  lemma {:induction false} TotalConservesIff<A>(kids: seq<Tree<A>>, more: seq<Tree<A>>)
    ensures (forall path: Path, d: A :: FilesAt(PutAll(kids, more), path, d) == FilesAt(kids, path, d) + FilesAt(more, path, d))
       <==> (forall n :: 0 <= n < |more| && more[n].kind == FILE ==> !Repeats(kids, more, n))
  {
    hide FilesAt, PutAll, Repeats;
    assert more[..|more|] == more;
    if n :| 0 <= n < |more| && more[n].kind == FILE && Repeats(kids, more, n) {
      var path: Path, d := [more[n].name], more[n].data;
      TotalFiles(kids, more, |more|, path, d);
      LostGrows(kids, more, n, |more|, path, d);
      assert FilesAt(PutAll(kids, more), path, d) != FilesAt(kids, path, d) + FilesAt(more, path, d);
    } else {
      forall path: Path, d: A ensures FilesAt(PutAll(kids, more), path, d) == FilesAt(kids, path, d) + FilesAt(more, path, d) {
        TotalFiles(kids, more, |more|, path, d);
        NothingLost(kids, more, |more|, path, d);
      }
    }
  }

  lemma {:induction false} OneFile<A>(x: Tree<A>, path: Path, d: A)
    ensures FilesAt([x], path, d) == FilesOf(x, path, d)
  {
    hide FilesOf;
    assert [x][..0] == [];
  }

  /** Two Files of one name on the top level: the second is gone. */
  lemma {:induction false} RepeatedFileIsLost<A>(x: Tree<A>, y: Tree<A>)
    requires x.kind == FILE && y.kind == FILE && x.name == y.name && x.kids == [] && y.kids == [] && x.data != y.data
    ensures PutAll([], [x, y]) == [x]
    ensures FilesAt([x, y], [x.name], y.data) == 1 && FilesAt(PutAll([], [x, y]), [x.name], y.data) == 0
  {
    hide FilesAt, Find;
    assert [x, y][..1] == [x] && [x][..0] == [] && [] + [x] == [x] && [x] + [y] == [x, y];
    assert PutAll([], [x]) == Put([], x) == [x];
    assert Put([x], y) == [Merged(x, y)] == [x];
    OneFile(x, [x.name], y.data);
    FilesAppend([x], y, [x.name], y.data);
  }

  // ---- the order of the list ----

  lemma {:induction false} FilesOfList<A>(xs: seq<Tree<A>>, i: nat, path: Path, d: A)
    requires i < |xs|
    ensures FilesAt(xs, path, d) == FilesAt(xs[..i] + xs[i + 1..], path, d) + FilesOf(xs[i], path, d)
    decreases |xs|
  {
    hide FilesOf;
    var n := |xs| - 1;
    if i == n {
      assert xs[..i] + xs[i + 1..] == xs[..n];
    } else {
      FilesOfList(xs[..n], i, path, d);
      assert (xs[..i] + xs[i + 1..])[..n - 1] == xs[..n][..i] + xs[..n][i + 1..];
    }
  }

  lemma Without<T>(xs: seq<T>, i: nat)
    requires i < |xs|
    ensures multiset(xs[..i] + xs[i + 1..]) == multiset(xs) - multiset{xs[i]}
  {
    assert xs == xs[..i] + [xs[i]] + xs[i + 1..];
  }

  lemma {:induction false} FilesOfPermutation<A>(xs: seq<Tree<A>>, ys: seq<Tree<A>>, path: Path, d: A)
    requires multiset(xs) == multiset(ys)
    ensures FilesAt(xs, path, d) == FilesAt(ys, path, d)
    decreases |xs|
  {
    hide FilesOf;
    if xs == [] {
      assert |multiset(ys)| == 0;
    } else {
      var n := |xs| - 1;
      assert xs[n] in multiset(ys);
      var i :| 0 <= i < |ys| && ys[i] == xs[n];
      Without(ys, i);
      Without(xs, n);
      assert xs[..n] + xs[n + 1..] == xs[..n];
      FilesOfPermutation(xs[..n], ys[..i] + ys[i + 1..], path, d);
      FilesOfList(ys, i, path, d);
    }
  }

  /** Merging directories in any order gives the same files at every path. */
  lemma {:induction false} OrderKeepsFiles<A>(xs: seq<Tree<A>>, ys: seq<Tree<A>>, path: Path, d: A)
    requires multiset(xs) == multiset(ys) && forall x :: x in xs ==> x.kind != FILE
    ensures FilesAt(PutAll([], xs), path, d) == FilesAt(PutAll([], ys), path, d)
  {
    hide FilesAt, PutAll, Repeats;
    forall y | y in ys ensures y.kind != FILE {
      assert y in multiset(ys);
    }
    TotalConservesIff([], xs);
    TotalConservesIff([], ys);
    FilesOfPermutation(xs, ys, path, d);
  }

  // ---- directories only ----

  lemma {:induction false} PutAllIsMerge<A>(kids: seq<Tree<A>>, more: seq<Tree<A>>)
    requires forall x :: x in more ==> x.kind != FILE
    ensures PutAll(kids, more) == MergeKids(kids, more)
    decreases |more|
  {
    if more != [] {
      PutAllIsMerge(kids, more[..|more| - 1]);
    }
  }

  /** Totals can be merged in groups: the total of a list is the total of its first part merged with the
      total of the rest, so partial views combine to the view of the whole network. */
  lemma {:induction false} TotalsCombine<A>(xs: seq<Tree<A>>, ys: seq<Tree<A>>)
    requires forall x :: x in xs + ys ==> x.kind != FILE
    requires CleanInside(ys) && Agree(ys, ys)
    ensures PutAll([], xs + ys) == MergeKids(PutAll([], xs), PutAll([], ys))
  {
    PutAllIsMerge([], xs + ys);
    PutAllIsMerge([], xs);
    PutAllIsMerge([], ys);
    MergeInTwoParts([], xs, ys);
    MergeIsAssociative(MergeKids([], xs), [], ys);
  }

  lemma {:induction false} PutIsClean<A>(kids: seq<Tree<A>>, x: Tree<A>)
    requires Clean(kids) && Clean(x.kids)
    ensures Clean(Put(kids, x))
  {
    hide Find;
    var i := Find(kids, x.name);
    if i < |kids| {
      assert Clean(kids[i].kids);
      MergeIsClean(kids[i].kids, x.kids);
    }
    forall j | 0 <= j < |Put(kids, x)| ensures Clean(Put(kids, x)[j].kids) {
      assert j < |kids| ==> Clean(kids[j].kids);
    }
  }

  /** Sibling directory names stay unique at every level of a total. */
  lemma {:induction false} TotalIsClean<A>(kids: seq<Tree<A>>, more: seq<Tree<A>>)
    requires Clean(kids) && CleanInside(more)
    ensures Clean(PutAll(kids, more))
    decreases |more|
  {
    hide Put, Clean;
    if more != [] {
      var n := |more| - 1;
      CleanFront(more);
      TotalIsClean(kids, more[..n]);
      PutIsClean(PutAll(kids, more[..n]), more[n]);
    }
  }
}
