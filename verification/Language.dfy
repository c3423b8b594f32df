/** The language the deserialiser accepts, as a grammar of its own: a message is accepted if and only if it is
    spelled by a legal syntax tree, and then it means what the tree means.  Sizes and ids may be spelled in any of
    their codes and ids may be any numbers; the limits are those of the format, 64 and 256. */
module Language {
  import opened Wrappers
  import opened Bytes
  import opened InputBuffer
  import opened LengthPrefix
  import opened FileGraph
  import opened FileParser

  // ---- syntax ----

  /** A code of a size: one, two or four bytes, not necessarily as few as possible. */
  ghost predicate IsCode(code: seq<byte>, size: nat) {
    var at: seq<nat> := seq(|code|, i requires 0 <= i < |code| => code[i]);
    match |code|
    case 1 => at[0] < 0x80 && size == at[0]
    case 2 => 0x80 <= at[0] < 0xC0 && size == (at[0] - 0x80) * 0x100 + at[1]
    case 4 => 0xC0 <= at[0] && size == ((at[0] - 0xC0) * 0x100 + at[1]) * 0x10000 + (at[2] + 0x100 * at[3])
    case _ => false
  }

  datatype Child = Null(code: seq<byte>) | Known(code: seq<byte>, id: nat) | New(code: seq<byte>, id: nat, file: File)

  /** A file: its fixed bytes, its name behind a code of its length, its children behind a code of their number. */
  datatype File = File(kind: seq<byte>, ip: seq<byte>, nameCode: seq<byte>, name: seq<byte>, countCode: seq<byte>,
                       children: seq<Child>)

  function SpellHead(f: File): seq<byte> {
    f.kind + (f.ip + ((f.nameCode + f.name) + f.countCode))
  }

  function SpellChild(c: Child): seq<byte>
    decreases c, 0
  {
    if c.New? then c.code + Spell(c.file) else c.code
  }

  function SpellAll(children: seq<Child>): seq<byte>
    decreases children, 1
  {
    if children == [] then [] else SpellChild(children[0]) + SpellAll(children[1..])
  }

  function Spell(f: File): seq<byte>
    decreases f, 2
  {
    SpellHead(f) + SpellAll(f.children)
  }

  function SeenAll(children: seq<Child>, seen: set<nat>): set<nat>
    decreases children, 1
  {
    if children == [] then seen else SeenAll(children[1..], Seen(children[0], seen))
  }

  /** The ids met once a child is read. */
  function Seen(c: Child, seen: set<nat>): set<nat>
    decreases c, 0
  {
    if c.New? then SeenAll(c.file.children, seen + {c.id}) else seen
  }

  ghost predicate LegalHead(f: File) {
    && |f.kind| == 2 && |f.ip| == 4
    && IsCode(f.nameCode, |f.name|) && |f.name| <= 64
    && IsCode(f.countCode, |f.children|) && |f.children| <= 256
  }

  /** Id 0 is null; an id met before stands alone; any other id is followed by its file, in which it is known. */
  ghost predicate LegalChild(c: Child, seen: set<nat>)
    decreases c, 0
  {
    match c
    case Null(code) => IsCode(code, 0)
    case Known(code, id) => IsCode(code, id) && id > 0 && id in seen
    case New(code, id, file) => IsCode(code, id) && id > 0 && id !in seen && Legal(file, seen + {id})
  }

  ghost predicate LegalAll(children: seq<Child>, seen: set<nat>)
    decreases children, 1
  {
    children == [] || (LegalChild(children[0], seen) && LegalAll(children[1..], Seen(children[0], seen)))
  }

  ghost predicate Legal(f: File, seen: set<nat>)
    decreases f, 2
  {
    LegalHead(f) && LegalAll(f.children, seen)
  }

  // ---- meaning ----

  function Target(c: Child): Option<nat> {
    if c.Null? then None else Some(c.id)
  }

  function AllTargets(children: seq<Child>): (slots: seq<Option<nat>>)
    ensures |slots| == |children|
  {
    if children == [] then [] else [Target(children[0])] + AllTargets(children[1..])
  }

  function Meaning(f: File): Node<nat>
    requires |f.kind| == 2
  {
    Node(f.kind[0] as int + 0x100 * f.kind[1] as int, f.ip, f.name, AllTargets(f.children))
  }

  ghost function DefinedBy(c: Child): Heap<nat>
    decreases c, 0
  {
    if c.New? && |c.file.kind| == 2 then Defined(c.file.children)[c.id := Meaning(c.file)] else map[]
  }

  /** The files defined among the children, by their ids. */
  ghost function Defined(children: seq<Child>): Heap<nat>
    decreases children, 1
  {
    if children == [] then map[] else DefinedBy(children[0]) + Defined(children[1..])
  }

  // ---- what is spelled by a legal tree is read as it means ----

  lemma {:induction false} TwoBytes(word: seq<byte>)
    requires |word| == 2
    ensures FromLittleEndian(word) == word[0] as int + 0x100 * word[1] as int
  {
    assert word[1..][1..] == [];
    assert FromLittleEndian(word[1..]) == word[1];
  }

  lemma {:induction false} LongCodeIsRead(r: Reader, hb: byte, lb: byte, word: seq<byte>, rest: seq<byte>)
    requires hb >= 0xC0 && |word| == 2 && Ahead(r, [hb] + ([lb] + (word + rest)))
    ensures DecodeSize(r) == (((hb as int - 0xC0) * 0x100 + lb as int) * 0x10000 + FromLittleEndian(word), Advance(r, 4))
    ensures Ahead(Advance(r, 4), rest)
  {
    hide FromLittleEndian;
    ReadAhead(r, [hb], [lb] + (word + rest));
    ReadAhead(Advance(r, 1), [lb], word + rest);
    ReadAhead(Advance(r, 2), word, rest);
  }

  lemma {:induction false} MiddleCodeIsRead(r: Reader, hb: byte, lb: byte, rest: seq<byte>)
    requires 0x80 <= hb < 0xC0 && Ahead(r, [hb] + ([lb] + rest))
    ensures DecodeSize(r) == ((hb as int - 0x80) * 0x100 + lb as int, Advance(r, 2)) && Ahead(Advance(r, 2), rest)
  {
    hide FromLittleEndian;
    ReadAhead(r, [hb], [lb] + rest);
    ReadAhead(Advance(r, 1), [lb], rest);
  }

  lemma {:induction false} ShortCodeIsRead(r: Reader, hb: byte, rest: seq<byte>)
    requires hb < 0x80 && Ahead(r, [hb] + rest)
    ensures DecodeSize(r) == (hb as int, Advance(r, 1)) && Ahead(Advance(r, 1), rest)
  {
    hide FromLittleEndian;
    ReadAhead(r, [hb], rest);
  }

  lemma {:induction false} CodeIsRead(r: Reader, code: seq<byte>, size: nat, rest: seq<byte>)
    requires IsCode(code, size) && Ahead(r, code + rest)
    ensures DecodeSize(r) == (size, Advance(r, |code|)) && Ahead(Advance(r, |code|), rest) && |code| > 0
  {
    hide DecodeSize, FromLittleEndian;
    if |code| == 1 {
      assert code == [code[0]];
      ShortCodeIsRead(r, code[0], rest);
    } else if |code| == 2 {
      assert code + rest == [code[0]] + ([code[1]] + rest);
      MiddleCodeIsRead(r, code[0], code[1], rest);
    } else {
      assert code + rest == [code[0]] + ([code[1]] + (code[2..] + rest));
      LongCodeIsRead(r, code[0], code[1], code[2..], rest);
      TwoBytes(code[2..]);
    }
  }

  lemma {:induction false} NamesAreRead(r: Reader, f: File, rest: seq<byte>)
    requires LegalHead(f) && Ahead(r, f.nameCode + (f.name + (f.countCode + rest)))
    ensures ParseNameAndCount(r) == (f.name, |f.children|, Advance(r, |f.nameCode| + |f.name| + |f.countCode|))
    ensures Ahead(Advance(r, |f.nameCode| + |f.name| + |f.countCode|), rest)
  {
    hide IsCode, DecodeSize, Reader.Valid;
    CodeIsRead(r, f.nameCode, |f.name|, f.name + (f.countCode + rest));
    var r1 := Advance(r, |f.nameCode|);
    ReadAhead(r1, f.name, f.countCode + rest);
    CodeIsRead(Advance(r1, |f.name|), f.countCode, |f.children|, rest);
  }

  lemma {:induction false} HeadIsRead(r: Reader, f: File, rest: seq<byte>)
    requires LegalHead(f) && Ahead(r, SpellHead(f) + rest)
    ensures ParseHead(r) == (Meaning(f).(contents := []), |f.children|, Advance(r, |SpellHead(f)|))
    ensures Ahead(Advance(r, |SpellHead(f)|), rest)
  {
    hide IsCode, ParseNameAndCount, FromLittleEndian, ReadEach, Reader.Valid;
    var names := f.nameCode + (f.name + (f.countCode + rest));
    assert SpellHead(f) + rest == f.kind + (f.ip + names);
    ReadAhead(r, f.kind, f.ip + names);
    TwoBytes(f.kind);
    EachRoundTrip(Advance(r, 2), f.ip, names);
    NamesAreRead(Advance(r, 6), f, rest);
  }

  lemma {:induction false} FileIsRead(r: Reader, f: File, seen: set<nat>, rest: seq<byte>)
    requires Legal(f, seen) && Ahead(r, Spell(f) + rest)
    ensures ParseNode(r, seen) == Parsed(Meaning(f), Advance(r, |Spell(f)|), SeenAll(f.children, seen), Defined(f.children))
    ensures Ahead(Advance(r, |Spell(f)|), rest)
    decreases f, 2
  {
    hide SpellHead, ParseHead, ParseSlots, SpellAll, SeenAll, Defined, LegalAll, Reader.Valid;
    assert Spell(f) + rest == SpellHead(f) + (SpellAll(f.children) + rest);
    HeadIsRead(r, f, SpellAll(f.children) + rest);
    ChildrenAreRead(Advance(r, |SpellHead(f)|), f.children, seen, rest);
  }

  lemma KindOfLegal(f: File, seen: set<nat>)
    requires Legal(f, seen)
    ensures |f.kind| == 2
  {
  }

  lemma {:induction false} ChildIsRead(r: Reader, c: Child, seen: set<nat>, rest: seq<byte>)
    requires LegalChild(c, seen) && Ahead(r, SpellChild(c) + rest)
    ensures ParseSlot(r, seen) == Parsed(Target(c), Advance(r, |SpellChild(c)|), Seen(c, seen), DefinedBy(c))
    ensures Ahead(Advance(r, |SpellChild(c)|), rest)
    decreases c, 0
  {
    hide IsCode, DecodeSize, ParseNode, Spell, Meaning, SeenAll, Defined, Reader.Valid, LegalHead, LegalAll;
    match c
    case Null(code) => CodeIsRead(r, code, 0, rest);
    case Known(code, id) => CodeIsRead(r, code, id, rest);
    case New(code, id, file) =>
      assert SpellChild(c) + rest == code + (Spell(file) + rest);
      CodeIsRead(r, code, id, Spell(file) + rest);
      FileIsRead(Advance(r, |code|), file, seen + {id}, rest);
      KindOfLegal(file, seen + {id});
  }

  lemma {:induction false} ChildrenAreRead(r: Reader, children: seq<Child>, seen: set<nat>, rest: seq<byte>)
    requires LegalAll(children, seen) && Ahead(r, SpellAll(children) + rest)
    ensures ParseSlots(r, |children|, seen)
         == Parsed(AllTargets(children), Advance(r, |SpellAll(children)|), SeenAll(children, seen), Defined(children))
    ensures Ahead(Advance(r, |SpellAll(children)|), rest)
    decreases children, 1
  {
    hide SpellChild, ParseSlot, DefinedBy, Seen, LegalChild, Reader.Valid;
    if children == [] {
      assert SpellAll(children) + rest == rest;
    } else {
      var c, others := children[0], children[1..];
      assert SpellAll(children) + rest == SpellChild(c) + (SpellAll(others) + rest);
      ChildIsRead(r, c, seen, SpellAll(others) + rest);
      ChildrenAreRead(Advance(r, |SpellChild(c)|), others, Seen(c, seen), rest);
    }
  }

  // ---- what is read was spelled by a legal tree ----

  /** From `r` to `next` exactly `bs` was read, all of it. */
  ghost predicate Consumed(r: Reader, bs: seq<byte>, next: Reader) {
    r.Reading? && r.strict && Ahead(r, bs) && next == Advance(r, |bs|)
  }

  lemma {:induction false} ConsumedBoth(r: Reader, first: seq<byte>, mid: Reader, second: seq<byte>, next: Reader)
    requires Consumed(r, first, mid) && Consumed(mid, second, next)
    ensures Consumed(r, first + second, next)
  {
    assert r.data[r.pos..r.pos + |first + second|] == r.data[r.pos..r.pos + |first|] + mid.data[mid.pos..mid.pos + |second|];
  }

  ghost predicate StrictOrFailed(r: Reader) {
    r.Valid() && (r.Reading? ==> r.strict)
  }

  lemma {:induction false} ReadConsumes(r: Reader, count: nat)
    requires StrictOrFailed(r)
    ensures var (bs, next) := r.Read(count);
            StrictOrFailed(next) && (next.Reading? ==> |bs| == count && Consumed(r, bs, next))
  {
  }

  lemma {:induction false} EmptyAhead(r: Reader)
    requires r.Valid() && r.Reading?
    ensures Ahead(r, []) && Advance(r, 0) == r
  {
  }

  lemma {:induction false} EachConsumes(r: Reader, count: nat)
    requires StrictOrFailed(r)
    ensures var (bs, next) := ReadEach(r, count);
            StrictOrFailed(next) && (next.Reading? ==> |bs| == count && Consumed(r, bs, next))
    decreases count
  {
    hide Reader.Read, Reader.Valid;
    if count == 0 {
      if r.Reading? {
        assert Consumed(r, [], r) by { EmptyAhead(r); }
      }
    } else {
      ReadConsumes(r, 1);
      var (b, next) := r.Read(1);
      EachConsumes(next, count - 1);
      var (rest, last) := ReadEach(next, count - 1);
      if last.Reading? {
        ConsumedBoth(r, b, next, rest, last);
      }
    }
  }

  lemma {:induction false} DecodeConsumes(r: Reader) returns (code: seq<byte>)
    requires StrictOrFailed(r)
    ensures var (size, next) := DecodeSize(r);
            StrictOrFailed(next) && (next.Reading? ==> IsCode(code, size) && Consumed(r, code, next))
  {
    hide Reader.Read, Reader.Valid, FromLittleEndian, Ahead, Advance;
    ReadConsumes(r, 1);
    var (first, r1) := r.Read(1);
    code := first;
    if first[0] >= 0x80 {
      ReadConsumes(r1, 1);
      var (second, r2) := r1.Read(1);
      if r2.Reading? {
        ConsumedBoth(r, first, r1, second, r2);
        code := first + second;
      }
      if first[0] >= 0xC0 {
        ReadConsumes(r2, 2);
        var (word, r3) := r2.Read(2);
        if r3.Reading? {
          ConsumedBoth(r, code, r2, word, r3);
          code := code + word;
          TwoBytes(word);
        }
      }
    }
  }

  lemma {:induction false} HeadConsumes(r: Reader) returns (f: File)
    requires StrictOrFailed(r)
    ensures var (head, count, next) := ParseHead(r);
            StrictOrFailed(next) &&
            (next.Reading? ==> |f.kind| == 2 && |f.ip| == 4 && IsCode(f.nameCode, |f.name|) && |f.name| <= 64 &&
                               IsCode(f.countCode, count) && count <= 256 && Consumed(r, SpellHead(f), next))
  {
    hide Reader.Read, Reader.Valid, FromLittleEndian, ReadEach, IsCode, DecodeSize, Ahead;
    ReadConsumes(r, 2);
    var (kind, r1) := r.Read(2);
    EachConsumes(r1, 4);
    var (ip, r2) := ReadEach(r1, 4);
    var nameCode := DecodeConsumes(r2);
    var (nameSize, r3) := ReadSize(r2, 64);
    ReadConsumes(r3, nameSize);
    var (name, r4) := r3.Read(nameSize);
    var countCode := DecodeConsumes(r4);
    var (count, r5) := ReadSize(r4, 256);
    f := File(kind, ip, nameCode, name, countCode, []);
    if r5.Reading? {
      ConsumedBoth(r2, nameCode, r3, name, r4);
      ConsumedBoth(r2, nameCode + name, r4, countCode, r5);
      ConsumedBoth(r1, ip, r2, (nameCode + name) + countCode, r5);
      ConsumedBoth(r, kind, r1, ip + ((nameCode + name) + countCode), r5);
    }
  }

  lemma {:induction false} NothingConsumed(r: Reader)
    requires r.Valid() && r.Reading? && r.strict
    ensures Consumed(r, [], r)
  {
    EmptyAhead(r);
  }

  lemma {:induction false} FileConsumes(r: Reader, seen: set<nat>) returns (f: File)
    requires StrictOrFailed(r)
    ensures var p := ParseNode(r, seen);
            StrictOrFailed(p.reader) &&
            (p.reader.Reading? ==> Legal(f, seen) && Consumed(r, Spell(f), p.reader) && p.seen == SeenAll(f.children, seen))
    decreases r.Left(), 1, 0
  {
    hide Reader.Valid, ParseSlots, ParseHead, Ahead, LegalAll, SpellAll, SeenAll;
    var (head, count, next) := ParseHead(r);
    f := HeadConsumes(r);
    var children := ChildrenConsume(next, count, seen);
    var p := ParseSlots(next, count, seen);
    f := f.(children := children);
    if p.reader.Reading? {
      ConsumedBoth(r, SpellHead(f), next, SpellAll(children), p.reader);
    }
  }

  lemma {:induction false} ChildConsumes(r: Reader, seen: set<nat>) returns (c: Child)
    requires StrictOrFailed(r)
    ensures var p := ParseSlot(r, seen);
            StrictOrFailed(p.reader) &&
            (p.reader.Reading? ==> LegalChild(c, seen) && Consumed(r, SpellChild(c), p.reader) && p.seen == Seen(c, seen))
    decreases r.Left(), 0, 0
  {
    hide Reader.Valid, DecodeSize, ParseNode, Ahead, Legal, Spell, SeenAll, IsCode;
    var (id, next) := DecodeSize(r);
    var code := DecodeConsumes(r);
    if id == 0 {
      c := Null(code);
    } else if id in seen {
      c := Known(code, id);
    } else {
      var f := FileConsumes(next, seen + {id});
      c := New(code, id, f);
      var p := ParseNode(next, seen + {id});
      if p.reader.Reading? {
        ConsumedBoth(r, code, next, Spell(f), p.reader);
      }
    }
  }

  lemma {:induction false} ChildrenConsume(r: Reader, count: nat, seen: set<nat>) returns (children: seq<Child>)
    requires StrictOrFailed(r)
    ensures var p := ParseSlots(r, count, seen);
            StrictOrFailed(p.reader) &&
            (p.reader.Reading? ==> |children| == count && LegalAll(children, seen) && p.seen == SeenAll(children, seen) &&
                                   Consumed(r, SpellAll(children), p.reader))
    decreases r.Left(), 0, count
  {
    hide Reader.Valid, ParseSlot, Ahead, LegalChild, SpellChild, Seen;
    children := [];
    if count == 0 {
      if r.Reading? {
        NothingConsumed(r);
      }
    } else {
      var first := ParseSlot(r, seen);
      var c := ChildConsumes(r, seen);
      var others := ChildrenConsume(first.reader, count - 1, first.seen);
      var rest := ParseSlots(first.reader, count - 1, first.seen);
      children := [c] + others;
      if rest.reader.Reading? {
        ConsumedBoth(r, SpellChild(c), first.reader, SpellAll(others), rest.reader);
        assert children[1..] == others;
      }
    }
  }

  // ---- the language ----

  /** A message is accepted if and only if it is spelled by a legal tree, and any legal tree that spells it tells
      what it was read as. */
  lemma {:induction false} AcceptedIffSpelled(data: seq<byte>)
    ensures Deserialize(data).accepted <==> exists f :: Legal(f, {}) && Spell(f) == data
    ensures forall f :: Legal(f, {}) && Spell(f) == data ==>
              |f.kind| == 2 && Deserialize(data) == Outcome(true, Meaning(f), Defined(f.children))
  {
    hide ParseNode, Legal, Spell, Meaning, Defined;
    if Deserialize(data).accepted {
      var f := FileConsumes(Start(data), {});
      assert data[0..|data|] == data;
    }
    forall f | Legal(f, {}) && Spell(f) == data
      ensures |f.kind| == 2 && Deserialize(data) == Outcome(true, Meaning(f), Defined(f.children))
    {
      KindOfLegal(f, {});
      assert data[0..|data|] == data && Spell(f) + [] == data;
      FileIsRead(Start(data), f, {}, []);
    }
  }
}
