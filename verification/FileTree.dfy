/** The shared file tree as objects in memory. */
module FileTree {
  import opened Wrappers
  import opened Bytes
  import opened FileGraph

  const DIRECTORY: nat := 0

  const FILE: nat := 1

  class FileContent {
    var kind: nat
    var ip: seq<byte>
    var name: seq<byte>
    var contents: seq<FileContent?>

    constructor ()
      ensures kind == 0 && ip == [0, 0, 0, 0] && name == [] && contents == []
    {
      kind := DIRECTORY;
      ip := Zeros(4);
      name := [];
      contents := [];
    }

    /** The object as a node of a heap whose addresses are the objects themselves. */
    ghost function Value(): Node<FileContent>
      reads this
    {
      Node(kind, ip, name, Slots(contents))
    }
  }

  ghost function Slot(child: FileContent?): Option<FileContent> {
    if child == null then None else Some(child)
  }

  ghost function Slots(children: seq<FileContent?>): (slots: seq<Option<FileContent>>)
    ensures |slots| == |children|
    ensures forall i :: 0 <= i < |children| ==> slots[i] == Slot(children[i])
  {
    seq(|children|, i requires 0 <= i < |children| => Slot(children[i]))
  }
}
