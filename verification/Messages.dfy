/** Two messages written out in bytes, what they are read as and what they merge to in memory: the type bytes of an
    entry decide whether it is merged. */
module Messages {
  import opened Wrappers
  import opened Bytes
  import opened InputBuffer
  import opened FileGraph
  import opened FileParser
  import opened FileTree
  import opened Language
  import opened Merge
  import opened MergeInPlace
  import opened NetworkFs
  import opened Sharing

  // ---- two messages ----

  /** A root without a name, in it, with id 1, an entry "d" with the given type byte, in it, with id 2, a file with
      the given name. */
  function Message(ip: seq<byte>, kind: byte, name: byte): seq<byte> {
    [0, 0] + ip + [0, 1] + [1] + ([kind, 0] + ip + [1, 100, 1]) + [2] + ([1, 0] + ip + [1, name, 0])
  }

  function MessageFile(ip: seq<byte>, name: byte): File {
    File([1, 0], ip, [1], [name], [0], [])
  }

  function MessageEntry(ip: seq<byte>, kind: byte, name: byte): File {
    File([kind, 0], ip, [1], [100], [1], [New([2], 2, MessageFile(ip, name))])
  }

  function MessageTree(ip: seq<byte>, kind: byte, name: byte): File {
    File([0, 0], ip, [0], [], [1], [New([1], 1, MessageEntry(ip, kind, name))])
  }

  lemma {:induction false} SmallCodes()
    ensures IsCode([0], 0) && IsCode([1], 1) && IsCode([2], 2)
  {
  }

  lemma {:induction false} OneChild(c: Child)
    ensures SpellAll([c]) == SpellChild(c) && Defined([c]) == DefinedBy(c) && AllTargets([c]) == [Target(c)]
  {
    hide SpellChild, DefinedBy, Target;
    assert [c][1..] == [];
  }

  lemma {:induction false} OneLegal(c: Child, seen: set<nat>)
    requires LegalChild(c, seen)
    ensures LegalAll([c], seen)
  {
    hide LegalChild;
    assert [c][1..] == [];
  }

  lemma {:induction false} MessageSpelled(ip: seq<byte>, kind: byte, name: byte)
    requires |ip| == 4
    ensures Language.Legal(MessageTree(ip, kind, name), {}) && Spell(MessageTree(ip, kind, name)) == Message(ip, kind, name)
  {
    hide IsCode, Defined, DefinedBy;
    SmallCodes();
    OneChild(New([2], 2, MessageFile(ip, name)));
    OneChild(New([1], 1, MessageEntry(ip, kind, name)));
    var file, entry, tree := MessageFile(ip, name), MessageEntry(ip, kind, name), MessageTree(ip, kind, name);
    assert Language.Legal(file, {1} + {2});
    OneLegal(New([2], 2, file), {1});
    assert LegalAll(entry.children, {1}) && {} + {1} == {1};
    assert Language.Legal(entry, {} + {1});
    OneLegal(New([1], 1, entry), {});
    assert LegalAll(tree.children, {});
  }

  lemma {:induction false} MessageRead(ip: seq<byte>, kind: byte, name: byte)
    requires |ip| == 4
    ensures Deserialize(Message(ip, kind, name))
         == Outcome(true, Node(0, ip, [], [Some(1)]),
                    map[1 := Node(kind, ip, [100], [Some(2)]), 2 := Node(1, ip, [name], [])])
  {
    hide Deserialize, Language.Legal, Spell;
    MessageSpelled(ip, kind, name);
    AcceptedIffSpelled(Message(ip, kind, name));
    OneChild(New([2], 2, MessageFile(ip, name)));
    OneChild(New([1], 1, MessageEntry(ip, kind, name)));
  }

  // ---- what they merge to ----

  function TreeOfMessage<A>(root: A, entry: A, file: A, kind: nat, name: byte): Tree<A> {
    Tree(root, 0, [], [Tree(entry, kind, [100], [Tree(file, 1, [name], [])])])
  }

  lemma {:induction false} OneMerged<A>(kids: seq<Tree<A>>, x: Tree<A>)
    ensures MergeKids(kids, [x]) == Insert(kids, x)
  {
    hide Insert;
    assert [x][..0] == [] && MergeKids(kids, []) == kids;
  }

  /** An entry with type 1 never merges; any other one merges into the first entry of its name, and files in it
      stay even if they have one name. */
  lemma {:induction false} MessagesMerge<A>(root: A, d: A, x: A, root': A, d': A, y: A, kind: nat, kind': nat,
                                            name: byte, name': byte)
    ensures Merged(TreeOfMessage(root, d, x, kind, name), TreeOfMessage(root', d', y, kind', name'))
         == Tree(root, 0, [], if kind' == 1 then
              [Tree(d, kind, [100], [Tree(x, 1, [name], [])]), Tree(d', 1, [100], [Tree(y, 1, [name'], [])])]
            else [Tree(d, kind, [100], [Tree(x, 1, [name], []), Tree(y, 1, [name'], [])])])
  {
    var entry, file := Tree(d, kind, [100], [Tree(x, 1, [name], [])]), Tree(y, 1, [name'], []);
    var other := Tree(d', kind', [100], [file]);
    OneMerged([entry], other);
    OneMerged(entry.kids, file);
    assert Insert(entry.kids, file) == entry.kids + [file];
    assert Find([entry], [100]) == 0 && [entry][0] == entry;
    assert Insert([entry], other) == if kind' == 1 then [entry] + [other] else [entry][0 := Merged(entry, other)];
    assert Merged(entry, other) == entry.(kids := entry.kids + [file]);
    assert [entry][0 := Merged(entry, other)] == [Merged(entry, other)];
    assert entry.kids + [file] == [Tree(x, 1, [name], []), file];
    assert Merged(TreeOfMessage(root, d, x, kind, name), TreeOfMessage(root', d', y, kind', name'))
        == Tree(root, 0, [], MergeKids([entry], [other]));
  }

  // ---- in memory ----

  lemma {:induction false} Linked(o: FileContent, n: Node<nat>, objects: map<nat, FileContent>)
    requires DeserializeFs.Matches(o, n, objects) && |n.contents| <= 1
    ensures o.kind == n.kind && o.ip == n.ip && o.name == n.name
    ensures n.contents == [] ==> o.contents == []
    ensures |n.contents| == 1 && n.contents[0].Some? ==>
              n.contents[0].value in objects && o.contents == [objects[n.contents[0].value]]
  {
    if |n.contents| == 1 {
      assert DeserializeFs.SlotMatches(o.contents[0], n.contents[0], objects);
    }
  }

  lemma {:induction false} OneObjs(t: Shape)
    ensures ObjsAll([t]) == Objs(t) && Pictures([t]) == [Picture(t)] && Datas([t]) == [t.data]
    ensures Distinct(t) ==> DistinctAll([t])
    ensures MergeInPlace.Matches(t) ==> MatchesAll([t])
  {
    hide Objs, Picture, Distinct, MergeInPlace.Matches;
    assert [t][..0] == [];
  }

  lemma {:induction false} ShapeOfObjects(root: FileContent, d: FileContent, x: FileContent, kind: nat, name: byte)
    requires root != d && root != x && d != x
    requires root.kind == 0 && root.name == [] && root.contents == [d]
    requires d.kind == kind && d.name == [100] && d.contents == [x]
    requires x.kind == 1 && x.name == [name] && x.contents == []
    ensures var t := TreeOfMessage(root, d, x, kind, name);
            MergeInPlace.Matches(t) && Distinct(t) && Objs(t) == {root, d, x} &&
            Picture(t) == TreeOfMessage(root.ip, d.ip, x.ip, kind, name)
  {
    var file := Tree(x, 1, [name], []);
    var entry := Tree(d, kind, [100], [file]);
    OneObjs(file);
    OneObjs(entry);
    assert Distinct(file) && MergeInPlace.Matches(file) && Objs(file) == {x} && Picture(file) == Tree(x.ip, 1, [name], []);
    assert Distinct(entry) && MergeInPlace.Matches(entry) && Objs(entry) == {d, x};
  }

  /** The objects made from a message form its tree. */
  lemma {:induction false} ShapeOfMessage(ip: seq<byte>, kind: byte, name: byte, content: FileContent,
                                          objects: map<nat, FileContent>)
    requires |ip| == 4 && Loaded(Deserialize(Message(ip, kind, name)), content, objects) && content !in objects.Values
    ensures 1 in objects && 2 in objects
    ensures var t := TreeOfMessage(content, objects[1], objects[2], kind, name);
            MergeInPlace.Matches(t) && Distinct(t) && Objs(t) <= {content} + objects.Values &&
            Picture(t) == TreeOfMessage(ip, ip, ip, kind, name)
  {
    hide Deserialize, Message, DeserializeFs.Matches;
    MessageRead(ip, kind, name);
    assert 1 in objects && 2 in objects && objects[1] in objects.Values && objects[2] in objects.Values;
    assert objects[1] != objects[2];
    Linked(content, Node(0, ip, [], [Some(1)]), objects);
    Linked(objects[1], Node(kind, ip, [100], [Some(2)]), objects);
    Linked(objects[2], Node(1, ip, [name], []), objects);
    ShapeOfObjects(content, objects[1], objects[2], kind, name);
  }

  lemma PictureParts(t: Shape)
    ensures Picture(t) == Tree(t.data.ip, t.kind, t.name, Pictures(t.kids))
  {
  }

  /** Two messages with an entry "d" each are loaded and merged: one entry with both files in it, or two of them if
      the second one came with type 1. */
  method MergeTwoMessages(ip: seq<byte>, kind: byte, name: byte, ip': seq<byte>, kind': byte, name': byte)
    returns (root: FileContent, ghost t: Shape)
    requires |ip| == 4 && |ip'| == 4
    ensures t.data == root && MergeInPlace.Matches(t)
    ensures Picture(t) == Tree(ip, 0, [], if kind' == 1 then
              [Tree(ip, kind, [100], [Tree(ip, 1, [name], [])]), Tree(ip', 1, [100], [Tree(ip', 1, [name'], [])])]
            else [Tree(ip, kind, [100], [Tree(ip, 1, [name], []), Tree(ip', 1, [name'], [])])])
  {
    hide MergeInPlace.Matches, Distinct, Objs, Picture, ObjsAll, Pictures, Loaded, Deserialize, Message, Touched, MergeKids;
    root := new FileContent();
    var ok, objects := NetworkFS.DeserializeToFileContent(Message(ip, kind, name), root);
    ShapeOfMessage(ip, kind, name, root, objects);
    ghost var t1 := TreeOfMessage(root, objects[1], objects[2], kind, name);
    assert t1.data == root;
    Allocated(t1);
    label first:
    var other := new FileContent();
    var ok', objects' := NetworkFS.DeserializeToFileContent(Message(ip', kind', name'), other);
    MatchesKept@first(t1);
    PictureKept@first(t1);
    ShapeOfMessage(ip', kind', name', other, objects');
    ghost var t2 := TreeOfMessage(other, objects'[1], objects'[2], kind', name');
    Allocated(t2);
    TouchedObjs(t1, t2);
    NotBelowKid(t2);
    label both:
    MergeSingleFileContent(root, other, t1, t2);
    PictureKept@both(t1);
    PictureKept@both(t2);
    t := Merged(t1, t2);
    PictureOfMerge(t1.kids, t2.kids);
    PictureParts(t);
    PictureParts(t1);
    PictureParts(t2);
    MessagesMerge(ip, ip, ip, ip', ip', ip', kind, kind', name, name');
  }
}
