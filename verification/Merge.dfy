/** Merging file trees by directory name, as a function on trees.
    `data` is what a node carries along: an address for the algebra, the object itself for the code. */
module Merge {
  import opened Bytes
  import opened FileTree

  datatype Tree<A> = Tree(data: A, kind: nat, name: seq<byte>, kids: seq<Tree<A>>)

  /** The place of the first entry of that name, or the length. */
  function Find<A>(kids: seq<Tree<A>>, name: seq<byte>): (i: nat)
    ensures i <= |kids|
    ensures i < |kids| ==> kids[i].name == name
    ensures forall j :: 0 <= j < i ==> kids[j].name != name
  {
    if kids == [] || kids[0].name == name then 0 else 1 + Find(kids[1..], name)
  }

  predicate Has<A>(kids: seq<Tree<A>>, name: seq<byte>) {
    Find(kids, name) < |kids|
  }

  /** A File, or an entry of a new name, is appended; a directory is merged into the first entry of its name. */
  function Insert<A>(kids: seq<Tree<A>>, x: Tree<A>): seq<Tree<A>>
    decreases x, 1
  {
    var i := Find(kids, x.name);
    if i == |kids| || x.kind == FILE then kids + [x] else kids[i := Merged(kids[i], x)]
  }

  function MergeKids<A>(kids: seq<Tree<A>>, more: seq<Tree<A>>): seq<Tree<A>>
    decreases more, 2
  {
    if more == [] then kids
    else Insert(MergeKids(kids, more[..|more| - 1]), more[|more| - 1])
  }

  function Merged<A>(into: Tree<A>, x: Tree<A>): Tree<A>
    decreases x, 0
  {
    into.(kids := MergeKids(into.kids, x.kids))
  }

  // ---- one level ----

  lemma {:induction false} FindSameNames<A>(kids: seq<Tree<A>>, others: seq<Tree<A>>, name: seq<byte>)
    requires |kids| == |others| && forall i :: 0 <= i < |kids| ==> kids[i].name == others[i].name
    ensures Find(kids, name) == Find(others, name)
  {
    hide Find;
  }

  lemma {:induction false} FindInFront<A>(kids: seq<Tree<A>>, more: seq<Tree<A>>, name: seq<byte>)
    requires Has(kids, name)
    ensures Find(kids + more, name) == Find(kids, name)
  {
    hide Find;
    assert (kids + more)[Find(kids, name)] == kids[Find(kids, name)];
  }

  /** What one insertion does to the names: nothing, or one more at the end. */
  lemma {:induction false} InsertNames<A>(kids: seq<Tree<A>>, x: Tree<A>)
    ensures Has(Insert(kids, x), x.name)
    ensures forall name :: Has(kids, name) ==> Has(Insert(kids, x), name) && Find(Insert(kids, x), name) == Find(kids, name)
  {
    hide Find;
    var i := Find(kids, x.name);
    var after := Insert(kids, x);
    if i == |kids| || x.kind == FILE {
      assert after[|kids|].name == x.name;
      forall name | Has(kids, name) ensures Find(after, name) == Find(kids, name) {
        FindInFront(kids, [x], name);
      }
    } else {
      forall name ensures Find(after, name) == Find(kids, name) {
        FindSameNames(kids, after, name);
      }
    }
  }

  lemma {:induction false} MergeKeepsNames<A>(kids: seq<Tree<A>>, more: seq<Tree<A>>, name: seq<byte>)
    requires Has(kids, name)
    ensures Has(MergeKids(kids, more), name)
    decreases |more|
  {
    if more != [] {
      var n := |more| - 1;
      MergeKeepsNames(kids, more[..n], name);
      InsertNames(MergeKids(kids, more[..n]), more[n]);
    }
  }

  lemma {:induction false} MergeInTwoParts<A>(kids: seq<Tree<A>>, first: seq<Tree<A>>, second: seq<Tree<A>>)
    ensures MergeKids(kids, first + second) == MergeKids(MergeKids(kids, first), second)
    decreases |second|
  {
    hide Insert;
    if second == [] {
      assert first + second == first;
    } else {
      var n := |second| - 1;
      assert (first + second)[..|first + second| - 1] == first + second[..n];
      MergeInTwoParts(kids, first, second[..n]);
    }
  }

  /** A directory that is merged into an entry commutes with whatever does not touch that entry. */
  lemma {:induction false} InsertsCommute<A>(kids: seq<Tree<A>>, x: Tree<A>, w: Tree<A>)
    requires x.kind != FILE && Has(kids, x.name)
    requires w.kind == FILE || w.name != x.name
    ensures Insert(Insert(kids, x), w) == Insert(Insert(kids, w), x)
  {
    hide Find, Merged;
    InsertNames(kids, x);
    InsertNames(kids, w);
    FindSameNames(kids, Insert(kids, x), w.name);
  }

  lemma {:induction false} InsertPastRest<A>(kids: seq<Tree<A>>, x: Tree<A>, rest: seq<Tree<A>>)
    requires x.kind != FILE && Has(kids, x.name)
    requires forall i :: 0 <= i < |rest| ==> rest[i].kind == FILE || rest[i].name != x.name
    ensures MergeKids(Insert(kids, x), rest) == Insert(MergeKids(kids, rest), x)
    decreases |rest|
  {
    hide Insert, Has;
    if rest != [] {
      var n := |rest| - 1;
      InsertPastRest(kids, x, rest[..n]);
      MergeKeepsNames(kids, rest[..n], x.name);
      InsertsCommute(MergeKids(kids, rest[..n]), x, rest[n]);
    }
  }

  // ---- well-named trees ----

  predicate CleanInside<A>(kids: seq<Tree<A>>)
    decreases kids, 0
  {
    forall i :: 0 <= i < |kids| ==> Clean(kids[i].kids)
  }

  /** At every level, no two sibling directories share a name. */
  predicate Clean<A>(kids: seq<Tree<A>>)
    decreases kids, 1
  {
    && (forall i, j :: 0 <= i < j < |kids| && kids[i].kind != FILE && kids[j].kind != FILE ==> kids[i].name != kids[j].name)
    && CleanInside(kids)
  }

  predicate AgreeEntries<A>(x: Tree<A>, y: Tree<A>) {
    (x.kind == FILE <==> y.kind == FILE) && (x.kind != FILE ==> Agree(x.kids, y.kids))
  }

  /** At every path, what is a File on one side is no directory on the other. */
  predicate Agree<A>(xs: seq<Tree<A>>, ys: seq<Tree<A>>) {
    forall i, j :: 0 <= i < |xs| && 0 <= j < |ys| && xs[i].name == ys[j].name ==> AgreeEntries(xs[i], ys[j])
  }

  lemma {:induction false} InsertIsClean<A>(kids: seq<Tree<A>>, x: Tree<A>)
    requires Clean(kids) && Clean(x.kids)
    ensures Clean(Insert(kids, x))
    decreases x, 1
  {
    hide Find;
    var i := Find(kids, x.name);
    if i < |kids| && x.kind != FILE {
      assert Clean(kids[i].kids);
      MergeIsClean(kids[i].kids, x.kids);
    }
    forall j | 0 <= j < |Insert(kids, x)| ensures Clean(Insert(kids, x)[j].kids) {
      assert j < |kids| ==> Clean(kids[j].kids);
    }
  }

  /** Sibling directory names stay unique at every level, whatever names the files have. */
  lemma {:induction false} MergeIsClean<A>(kids: seq<Tree<A>>, more: seq<Tree<A>>)
    requires Clean(kids) && CleanInside(more)
    ensures Clean(MergeKids(kids, more))
    decreases more, 2
  {
    hide Insert;
    if more != [] {
      var n := |more| - 1;
      MergeIsClean(kids, more[..n]);
      InsertIsClean(MergeKids(kids, more[..n]), more[n]);
    }
  }

  lemma {:induction false} AgreeParts<A>(first: seq<Tree<A>>, second: seq<Tree<A>>, others: seq<Tree<A>>)
    ensures Agree(first + second, others) <==> Agree(first, others) && Agree(second, others)
    ensures Agree(others, first + second) <==> Agree(others, first) && Agree(others, second)
  {
    hide AgreeEntries;
    var both := first + second;
    assert forall i :: 0 <= i < |first| ==> first[i] == both[i];
    assert forall i :: 0 <= i < |second| ==> second[i] == both[|first| + i];
  }

  lemma {:induction false} InsertAgrees<A>(kids: seq<Tree<A>>, x: Tree<A>, others: seq<Tree<A>>)
    requires Agree(kids, others) && Agree([x], others)
    ensures Agree(Insert(kids, x), others)
    decreases x, 1
  {
    hide Find;
    var i := Find(kids, x.name);
    if i == |kids| || x.kind == FILE {
      AgreeParts(kids, [x], others);
    } else {
      forall j | 0 <= j < |others| && others[j].name == x.name ensures AgreeEntries(Merged(kids[i], x), others[j]) {
        assert AgreeEntries(kids[i], others[j]) && AgreeEntries([x][0], others[j]);
        MergeAgrees(kids[i].kids, x.kids, others[j].kids);
      }
    }
  }

  lemma {:induction false} MergeAgrees<A>(kids: seq<Tree<A>>, more: seq<Tree<A>>, others: seq<Tree<A>>)
    requires Agree(kids, others) && Agree(more, others)
    ensures Agree(MergeKids(kids, more), others)
    decreases more, 2
  {
    hide Insert, AgreeEntries;
    if more != [] {
      var n := |more| - 1;
      assert more[..n] + [more[n]] == more;
      AgreeParts(more[..n], [more[n]], others);
      MergeAgrees(kids, more[..n], others);
      InsertAgrees(MergeKids(kids, more[..n]), more[n], others);
    }
  }

  // ---- associativity ----

  lemma {:induction false} CleanFront<A>(c: seq<Tree<A>>)
    requires CleanInside(c) && c != []
    ensures CleanInside(c[..|c| - 1]) && Clean(c[|c| - 1].kids)
  {
    hide Clean;
    assert forall i :: 0 <= i < |c| - 1 ==> c[..|c| - 1][i] == c[i];
  }

  lemma SplitAt<T>(s: seq<T>, i: nat, x: T)
    requires i < |s|
    ensures s == s[..i] + [s[i]] + s[i + 1..] && s[i := x] == s[..i] + [x] + s[i + 1..]
  {
  }

  lemma {:induction false} InsertStep<A>(kids: seq<Tree<A>>, x: Tree<A>)
    requires Has(kids, x.name) && x.kind != FILE
    ensures Insert(kids, x) == kids[Find(kids, x.name) := Merged(kids[Find(kids, x.name)], x)]
  {
  }

  lemma {:induction false} MergeThrough<A>(a: seq<Tree<A>>, p: seq<Tree<A>>, y: Tree<A>, s: seq<Tree<A>>)
    ensures MergeKids(a, p + [y] + s) == MergeKids(Insert(MergeKids(a, p), y), s)
  {
    hide Insert;
    MergeInTwoParts(a, p + [y], s);
    assert (p + [y])[..|p|] == p;
  }

  lemma CleanHasCleanInside<A>(kids: seq<Tree<A>>)
    requires Clean(kids)
    ensures CleanInside(kids)
  {
  }

  /** Merging is associative, as exact trees with sibling order.  Nothing is asked of `a`. */
  lemma {:induction false} MergeIsAssociative<A>(a: seq<Tree<A>>, b: seq<Tree<A>>, c: seq<Tree<A>>)
    requires Clean(b) && CleanInside(c) && Agree(b, c) && Agree(c, c)
    ensures MergeKids(MergeKids(a, b), c) == MergeKids(a, MergeKids(b, c))
    decreases c, 3
  {
    hide Insert, Clean, CleanInside, Agree;
    if c != [] {
      var n := |c| - 1;
      var front, x := c[..n], c[n];
      assert front + [x] == c;
      AgreeParts(front, [x], b);
      AgreeParts(front, [x], c);
      AgreeParts(front, [x], front);
      AgreeParts(front, [x], [x]);
      CleanFront(c);
      MergeIsAssociative(a, b, front);
      MergeIsClean(b, front);
      MergeAgrees(b, front, [x]);
      MergeOfInsert(a, MergeKids(b, front), x);
    }
  }

  /** Two directories of one name, one after the other or merged beforehand. */
  lemma {:induction false} InsertMerged<A>(kids: seq<Tree<A>>, y: Tree<A>, x: Tree<A>)
    requires x.name == y.name && x.kind != FILE && y.kind != FILE
    requires Clean(y.kids) && Clean(x.kids) && Agree(y.kids, x.kids) && Agree(x.kids, x.kids)
    ensures Insert(kids, Merged(y, x)) == Insert(Insert(kids, y), x)
    decreases x, 4
  {
    hide Find, Clean, Agree;
    InsertNames(kids, y);
    var i := Find(kids, x.name);
    if i < |kids| {
      assert CleanInside(x.kids) by { CleanHasCleanInside(x.kids); }
      MergeIsAssociative(kids[i].kids, y.kids, x.kids);
    } else {
      assert (kids + [y])[|kids|].name == x.name;
    }
  }

  /** Inserting before or after merging into `a` is the same. */
  lemma {:induction false} MergeOfInsert<A>(a: seq<Tree<A>>, b: seq<Tree<A>>, x: Tree<A>)
    requires Clean(b) && Clean(x.kids) && Agree(b, [x]) && Agree([x], [x])
    ensures MergeKids(a, Insert(b, x)) == Insert(MergeKids(a, b), x)
    decreases x, 5
  {
    var i := Find(b, x.name);
    if i == |b| || x.kind == FILE {
      assert (b + [x])[..|b|] == b;
    } else {
      assert AgreeEntries(b[i], [x][0]) && AgreeEntries([x][0], [x][0]);
      assert Clean(b[i].kids);
      hide Find, Insert, MergeKids;
      var p, y, s := b[..i], b[i], b[i + 1..];
      var a1 := MergeKids(a, p);
      SplitAt(b, i, Merged(y, x));
      InsertStep(b, x);
      MergeThrough(a, p, Merged(y, x), s);
      MergeThrough(a, p, y, s);
      InsertMerged(a1, y, x);
      InsertNames(a1, y);
      InsertPastRest(Insert(a1, y), x, s);
    }
  }

  lemma {:induction false} InsertFirst<A>(y: Tree<A>, rest: seq<Tree<A>>, x: Tree<A>)
    requires x.kind != FILE && y.name == x.name
    ensures Insert([y] + rest, x) == [Merged(y, x)] + rest
  {
    hide Merged;
    assert Find([y] + rest, x.name) == 0;
  }

  lemma {:induction false} MergeOne<A>(kids: seq<Tree<A>>, x: Tree<A>)
    ensures MergeKids(kids, [x]) == Insert(kids, x)
  {
    hide Insert;
    assert [x][..0] == [];
  }

  lemma {:induction false} MergeTwo<A>(kids: seq<Tree<A>>, x: Tree<A>, y: Tree<A>)
    ensures MergeKids(kids, [x, y]) == Insert(Insert(kids, x), y)
  {
    hide Insert;
    assert [x, y][..1] == [x];
    MergeOne(kids, x);
  }

  /** Neither hypothesis on names can be dropped: with two directories of one name in `b` ... */
  lemma AssociativityNeedsUniqueNames<A>(d: A)
    ensures var f, g := Tree(d, FILE, [1], []), Tree(d, FILE, [2], []);
            var a, c := [Tree(d, DIRECTORY, [0], [])], [Tree(d, DIRECTORY, [0], [f])];
            var b := [Tree(d, DIRECTORY, [0], []), Tree(d, DIRECTORY, [0], [g])];
            MergeKids(MergeKids(a, b), c) != MergeKids(a, MergeKids(b, c))
  {
    var f, g := Tree(d, FILE, [1], []), Tree(d, FILE, [2], []);
    var e, df, dg := Tree(d, DIRECTORY, [0], []), Tree(d, DIRECTORY, [0], [f]), Tree(d, DIRECTORY, [0], [g]);
    MergeTwo([e], e, dg);
    MergeOne([dg], df);
    MergeOne([e, dg], df);
    MergeTwo([e], df, dg);
    MergeOne([], f);
    MergeOne([], g);
    MergeOne([g], f);
    MergeOne([f], g);
    assert f.name[0] != g.name[0];
    assert Insert([], f) == [f] && Insert([], g) == [g] && Insert([g], f) == [g, f] && Insert([f], g) == [f, g];
    assert Merged(e, e) == e && Merged(e, df) == df && Merged(e, dg) == dg;
    assert Merged(dg, df) == e.(kids := [g, f]) && Merged(df, dg) == e.(kids := [f, g]);
    InsertFirst(e, [], e);
    InsertFirst(e, [], dg);
    InsertFirst(dg, [], df);
    InsertFirst(e, [dg], df);
    InsertFirst(e, [], df);
    InsertFirst(df, [], dg);
    assert [e] + [] == [e] && [df] + [] == [df] && [dg] + [] == [dg] && [e] + [dg] == [e, dg];
    var gf, fg := e.(kids := [g, f]), e.(kids := [f, g]);
    assert [gf] + [] == [gf] && [fg] + [] == [fg] && [df] + [dg] == [df, dg];
    assert MergeKids(MergeKids([e], [e, dg]), [df])[0].kids[0] == g;
    assert MergeKids([e], MergeKids([e, dg], [df]))[0].kids[0] == f;
  }

  /** ... or with a File and a directory of one name in `c`. */
  lemma AssociativityNeedsOneKind<A>(d: A)
    ensures var f, file := Tree(d, FILE, [1], []), Tree(d, FILE, [0], []);
            var a, b, c := [Tree(d, DIRECTORY, [0], [])], [], [file, Tree(d, DIRECTORY, [0], [f])];
            MergeKids(MergeKids(a, b), c) != MergeKids(a, MergeKids(b, c))
  {
    var f, file := Tree(d, FILE, [1], []), Tree(d, FILE, [0], []);
    var e, df := Tree(d, DIRECTORY, [0], []), Tree(d, DIRECTORY, [0], [f]);
    MergeTwo([e], file, df);
    MergeTwo([], file, df);
    MergeOne([], f);
    MergeOne([e], file.(kids := [f]));
    assert MergeKids(MergeKids([e], []), [file, df])[0].kids == [f];
    assert MergeKids([e], MergeKids([], [file, df]))[0].kids == [];
  }
}
