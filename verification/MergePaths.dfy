/** What a merge does to the paths and to the entries that were there: no path is lost and none invented, and every
    earlier entry stays at its place with its type, name and data, at every level. */
module MergePaths {
  import opened Bytes
  import opened FileTree
  import opened Merge
  import opened MergeTotal

  ghost predicate Leads<A>(x: Tree<A>, path: Path)
    decreases x, 0
  {
    x.name == path[0] && (|path| > 1 ==> HasPath(x.kids, path[1..]))
  }

  ghost predicate HasPath<A>(kids: seq<Tree<A>>, path: Path)
    decreases kids, 1
  {
    exists i :: 0 <= i < |kids| && Leads(kids[i], path)
  }

  lemma {:induction false} PathsAppend<A>(kids: seq<Tree<A>>, x: Tree<A>, path: Path)
    ensures HasPath(kids + [x], path) <==> HasPath(kids, path) || Leads(x, path)
  {
    hide Leads;
    assert (kids + [x])[|kids|] == x;
    assert forall i :: 0 <= i < |kids| ==> (kids + [x])[i] == kids[i];
  }

  lemma {:induction false} PathsUpdate<A>(kids: seq<Tree<A>>, i: nat, y: Tree<A>, x: Tree<A>, path: Path)
    requires i < |kids| && (Leads(y, path) <==> Leads(kids[i], path) || Leads(x, path))
    ensures HasPath(kids[i := y], path) <==> HasPath(kids, path) || Leads(x, path)
  {
    hide Leads;
    assert kids[i := y][i] == y;
    assert forall j :: 0 <= j < |kids| && j != i ==> kids[i := y][j] == kids[j];
  }

  lemma {:induction false} PathsOfMerged<A>(into: Tree<A>, x: Tree<A>, path: Path)
    requires into.name == x.name
    ensures Leads(Merged(into, x), path) <==> Leads(into, path) || Leads(x, path)
    decreases x, 0
  {
    hide HasPath, MergeKids;
    if |path| > 1 {
      PathsOfMerge(into.kids, x.kids, path[1..]);
    }
  }

  lemma {:induction false} PathsOfInsert<A>(kids: seq<Tree<A>>, x: Tree<A>, path: Path)
    ensures HasPath(Insert(kids, x), path) <==> HasPath(kids, path) || Leads(x, path)
    decreases x, 1
  {
    hide Find, Leads, HasPath, Merged;
    var i := Find(kids, x.name);
    if i == |kids| || x.kind == FILE {
      PathsAppend(kids, x, path);
    } else {
      PathsOfMerged(kids[i], x, path);
      PathsUpdate(kids, i, Merged(kids[i], x), x, path);
    }
  }

  /** The paths of a merge are those of both sides. */
  lemma {:induction false} PathsOfMerge<A>(kids: seq<Tree<A>>, more: seq<Tree<A>>, path: Path)
    ensures HasPath(MergeKids(kids, more), path) <==> HasPath(kids, path) || HasPath(more, path)
    decreases more, 2
  {
    hide Insert, Leads;
    if more != [] {
      var n := |more| - 1;
      PathsOfMerge(kids, more[..n], path);
      PathsOfInsert(MergeKids(kids, more[..n]), more[n], path);
      assert more[..n] + [more[n]] == more;
      PathsAppend(more[..n], more[n], path);
    }
  }

  lemma NoPaths<A>(path: Path)
    ensures !HasPath<A>([], path)
  {
  }

  /** So are those of a total: even the top-level File that is lost leaves its path. */
  lemma {:induction false} PathsOfTotal<A>(kids: seq<Tree<A>>, more: seq<Tree<A>>, path: Path)
    ensures HasPath(PutAll(kids, more), path) <==> HasPath(kids, path) || HasPath(more, path)
    decreases |more|
  {
    hide Find, Leads, HasPath, Merged;
    if more == [] {
      assert !HasPath(more, path) by { NoPaths<A>(path); }
    } else {
      var n := |more| - 1;
      var before, x := PutAll(kids, more[..n]), more[n];
      PathsOfTotal(kids, more[..n], path);
      assert more[..n] + [x] == more;
      PathsAppend(more[..n], x, path);
      var i := Find(before, x.name);
      if i == |before| {
        PathsAppend(before, x, path);
      } else {
        PathsOfMerged(before[i], x, path);
        PathsUpdate(before, i, Merged(before[i], x), x, path);
      }
    }
  }

  // ---- the entries that were there ----

  ghost predicate GrownEntry<A>(before: Tree<A>, after: Tree<A>)
    decreases before, 0
  {
    after.data == before.data && after.kind == before.kind && after.name == before.name && Grown(before.kids, after.kids)
  }

  /** Every entry is still at its place, with its data, type and name, and its entries are at theirs. */
  ghost predicate Grown<A>(before: seq<Tree<A>>, after: seq<Tree<A>>)
    decreases before, 1
  {
    |before| <= |after| && forall i :: 0 <= i < |before| ==> GrownEntry(before[i], after[i])
  }

  lemma {:induction false} Unchanged<A>(kids: seq<Tree<A>>)
    ensures Grown(kids, kids)
    decreases kids
  {
    forall i | 0 <= i < |kids| ensures GrownEntry(kids[i], kids[i]) {
      Unchanged(kids[i].kids);
    }
  }

  lemma {:induction false} GrownChain<A>(a: seq<Tree<A>>, b: seq<Tree<A>>, c: seq<Tree<A>>)
    requires Grown(a, b) && Grown(b, c)
    ensures Grown(a, c)
    decreases a
  {
    forall i | 0 <= i < |a| ensures GrownEntry(a[i], c[i]) {
      assert GrownEntry(a[i], b[i]) && GrownEntry(b[i], c[i]);
      GrownChain(a[i].kids, b[i].kids, c[i].kids);
    }
  }

  lemma {:induction false} UpdateGrows<A>(kids: seq<Tree<A>>, i: nat, x: Tree<A>)
    requires i < |kids| && Grown(kids[i].kids, MergeKids(kids[i].kids, x.kids))
    ensures Grown(kids, kids[i := Merged(kids[i], x)])
  {
    hide MergeKids;
    forall j | 0 <= j < |kids| ensures GrownEntry(kids[j], kids[i := Merged(kids[i], x)][j]) {
      Unchanged(kids[j].kids);
    }
  }

  lemma {:induction false} AppendGrows<A>(kids: seq<Tree<A>>, x: Tree<A>)
    ensures Grown(kids, kids + [x])
  {
    forall j | 0 <= j < |kids| ensures GrownEntry(kids[j], (kids + [x])[j]) {
      Unchanged(kids[j].kids);
    }
  }

  lemma {:induction false} InsertGrows<A>(kids: seq<Tree<A>>, x: Tree<A>)
    ensures Grown(kids, Insert(kids, x))
    decreases x, 1
  {
    hide Find, Grown, Merged;
    var i := Find(kids, x.name);
    if i == |kids| || x.kind == FILE {
      AppendGrows(kids, x);
    } else {
      MergeGrows(kids[i].kids, x.kids);
      UpdateGrows(kids, i, x);
    }
  }

  /** A merge only adds. */
  lemma {:induction false} MergeGrows<A>(kids: seq<Tree<A>>, more: seq<Tree<A>>)
    ensures Grown(kids, MergeKids(kids, more))
    decreases more, 2
  {
    hide Insert, Grown;
    if more == [] {
      Unchanged(kids);
    } else {
      var n := |more| - 1;
      MergeGrows(kids, more[..n]);
      InsertGrows(MergeKids(kids, more[..n]), more[n]);
      GrownChain(kids, MergeKids(kids, more[..n]), MergeKids(kids, more));
    }
  }
}
