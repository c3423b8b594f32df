/** Growable sections: a four-byte length, patched in afterwards, and then the fields.  Writer and reader
    may disagree on how many fields a section has, at every depth and in either direction. */
module Growable {
  import opened Bytes
  import opened InputBuffer
  import opened OutputBuffer
  import opened MeasureSize

  datatype Value = IntValue(value: nat, size: nat) | SectionValue(fields: seq<Value>)

  datatype Field = IntField(size: nat) | SectionField(fields: seq<Field>)

  // ---- the wire form ----

  function EncodeAll(vs: seq<Value>): (bs: seq<byte>)
    decreases vs, 1
  {
    if vs == [] then [] else Encode(vs[0]) + EncodeAll(vs[1..])
  }

  function Encode(v: Value): (bs: seq<byte>)
    decreases v, 0
  {
    match v
    case IntValue(value, size) => LittleEndian(value, size)
    case SectionValue(fields) =>
      var body := EncodeAll(fields);
      LittleEndian(4 + |body|, 4) + body
  }

  ghost predicate AllFit(vs: seq<Value>)
    decreases vs, 1
  {
    vs == [] || (Fits(vs[0]) && AllFit(vs[1..]))
  }

  /** Integers fit their fields and section lengths fit their four bytes. */
  ghost predicate Fits(v: Value)
    decreases v, 0
  {
    match v
    case IntValue(value, size) => value < Pow2(8 * size)
    case SectionValue(fields) => 4 + |EncodeAll(fields)| < Pow2(32) && AllFit(fields)
  }

  ghost predicate AllNumbersFit(vs: seq<Value>)
    decreases vs, 1
  {
    vs == [] || (NumbersFit(vs[0]) && AllNumbersFit(vs[1..]))
  }

  /** What a value takes, without looking at lengths. */
  ghost predicate NumbersFit(v: Value)
    decreases v, 0
  {
    match v
    case IntValue(value, size) => value < Pow2(8 * size)
    case SectionValue(fields) => AllNumbersFit(fields)
  }

  lemma {:induction false} FitsBelow(v: Value)
    requires |Encode(v)| < 0x1_0000_0000 && Pow2(32) == 0x1_0000_0000
    ensures Fits(v) <==> NumbersFit(v)
    decreases v, 0
  {
    hide LittleEndian, Pow2;
    if v.SectionValue? {
      AllFitIff(v.fields);
    }
  }

  lemma {:induction false} AllFitIff(vs: seq<Value>)
    requires |EncodeAll(vs)| < 0x1_0000_0000 && Pow2(32) == 0x1_0000_0000
    ensures AllFit(vs) <==> AllNumbersFit(vs)
    decreases vs, 1
  {
    hide LittleEndian, Pow2;
    if vs != [] {
      FitsBelow(vs[0]);
      AllFitIff(vs[1..]);
    }
  }

  lemma LengthPower()
    ensures Pow2(32) == 0x1_0000_0000
  {
    assert Pow2(8) == 0x100;
    Pow2Eight(8);
    Pow2Eight(16);
    Pow2Eight(24);
  }

  /** A section can be written if and only if its numbers fit their fields and all of it takes less than 2^32 bytes:
      the lengths of inner sections then fit as well. */
  lemma {:induction false} FitsIff(fields: seq<Value>)
    ensures Fits(SectionValue(fields)) <==>
              AllNumbersFit(fields) && |Encode(SectionValue(fields))| < 0x1_0000_0000
  {
    hide LittleEndian, Pow2;
    LengthPower();
    if |EncodeAll(fields)| + 4 < 0x1_0000_0000 {
      AllFitIff(fields);
    }
  }

  // ---- schema evolution ----

  predicate AllCompatible(vs: seq<Value>, fs: seq<Field>)
    decreases vs, 1
  {
    vs == [] || fs == [] || (Compatible(vs[0], fs[0]) && AllCompatible(vs[1..], fs[1..]))
  }

  /** Where both sides have a field, they agree on its kind; one side's list is a prefix of the other's. */
  predicate Compatible(v: Value, f: Field)
    decreases v, 0
  {
    match (v, f)
    case (IntValue(_, size), IntField(expected)) => size == expected
    case (SectionValue(fields), SectionField(expected)) => AllCompatible(fields, expected)
    case _ => false
  }

  function AllZero(fs: seq<Field>): seq<Value>
    decreases fs, 1
  {
    if fs == [] then [] else [Zero(fs[0])] + AllZero(fs[1..])
  }

  function Zero(f: Field): Value
    decreases f, 0
  {
    match f
    case IntField(size) => IntValue(0, size)
    case SectionField(fields) => SectionValue(AllZero(fields))
  }

  function ProjectAll(vs: seq<Value>, fs: seq<Field>): (ps: seq<Value>)
    requires AllCompatible(vs, fs)
    decreases fs, 1
  {
    if fs == [] then []
    else if vs == [] then AllZero(fs)
    else [Project(vs[0], fs[0])] + ProjectAll(vs[1..], fs[1..])
  }

  /** What a reader with the given fields should see: common fields as written, missing ones zero. */
  function Project(v: Value, f: Field): Value
    requires Compatible(v, f)
    decreases f, 0
  {
    match (v, f)
    case (IntValue(value, size), IntField(_)) => v
    case (SectionValue(fields), SectionField(expected)) => SectionValue(ProjectAll(fields, expected))
  }

  // ---- reading ----

  /** The steps of the deserialiser, on any input. */
  function ReadField(r: Reader, f: Field): (d: (Value, Reader))
    requires r.Valid()
    ensures d.1.Valid()
    decreases f, 0
  {
    match f
    case IntField(size) =>
      var (bytes, next) := r.Read(size);
      (IntValue(FromLittleEndian(bytes), size), next)
    case SectionField(fields) =>
      var (values, next) := ReadSection(r, fields);
      (SectionValue(values), next)
  }

  function ReadFields(r: Reader, fs: seq<Field>): (d: (seq<Value>, Reader))
    requires r.Valid()
    ensures d.1.Valid() && |d.0| == |fs|
    decreases fs, 1
  {
    if fs == [] then ([], r)
    else
      var (first, next) := ReadField(r, fs[0]);
      var (rest, last) := ReadFields(next, fs[1..]);
      ([first] + rest, last)
  }

  function ReadSection(r: Reader, fields: seq<Field>): (d: (seq<Value>, Reader))
    requires r.Valid()
    ensures d.1.Valid()
    decreases fields, 2
  {
    var readEndPos := if r.Reading? && !r.strict then r.end else 0;
    var startPos := if r.Reading? then r.pos else 0;
    var (bytes, header) := r.Read(4);
    var sectionEnd := startPos + FromLittleEndian(bytes);
    var (values, inside) := ReadFields(header.SetEnd(sectionEnd), fields);
    (values, inside.Seek(sectionEnd).SetEnd(readEndPos))
  }

  lemma {:induction false} ExhaustedFields(r: Reader, fs: seq<Field>)
    requires r.Valid() && r.Reading? && !r.strict && r.pos == r.end > 0
    ensures ReadFields(r, fs) == (AllZero(fs), r)
    decreases fs, 1
  {
    if fs != [] {
      ExhaustedField(r, fs[0]);
      ExhaustedFields(r, fs[1..]);
    }
  }

  /** At the end of a section everything reads as zero and nothing moves, nested sections included. */
  lemma {:induction false} ExhaustedField(r: Reader, f: Field)
    requires r.Valid() && r.Reading? && !r.strict && r.pos == r.end > 0
    ensures ReadField(r, f) == (Zero(f), r)
    decreases f, 0
  {
    match f
    case IntField(size) =>
      FromLittleEndianZeros(size);
    case SectionField(fields) =>
      FromLittleEndianZeros(4);
      ExhaustedFields(r, fields);
  }

  /** Opening a section: the end position is set behind the body. */
  lemma {:induction false} SectionHeader(r: Reader, header: seq<byte>, body: seq<byte>)
    requires |header| == 4 && Ahead(r, header + body)
    ensures r.Read(4) == (header, Advance(r, 4))
    ensures Advance(r, 4).SetEnd(r.pos + 4 + |body|) == Reading(r.data, r.pos + 4, r.pos + 4 + |body|, false)
    ensures Ahead(Reading(r.data, r.pos + 4, r.pos + 4 + |body|, false), body)
  {
    ReadAhead(r, header, body);
  }

  /** Leaving a section restores the end position the outer reader had. */
  lemma {:induction false} SectionLeft(r: Reader, inside: Reader, sectionEnd: nat)
    requires r.Valid() && r.Reading? && 0 < sectionEnd <= r.end
    requires inside.Valid() && inside.Reading? && inside.data == r.data && inside.end == sectionEnd && !inside.strict
    ensures inside.Seek(sectionEnd).SetEnd(if r.strict then 0 else r.end) == r.(pos := sectionEnd)
  {
  }

  /** Inside a section that holds exactly the written fields, the reader sees the projection of them;
      it stays in the section and changes neither its end nor its mode. */
  lemma {:induction false} FieldsEvolve(r: Reader, vs: seq<Value>, fs: seq<Field>)
    requires AllFit(vs) && AllCompatible(vs, fs)
    requires Ahead(r, EncodeAll(vs)) && !r.strict && r.end == r.pos + |EncodeAll(vs)| > 0
    ensures ReadFields(r, fs).0 == ProjectAll(vs, fs)
    ensures var last := ReadFields(r, fs).1;
            last.Reading? && last == r.(pos := last.pos) && r.pos <= last.pos <= r.end
    decreases fs, 1
  {
    if fs != [] {
      if vs == [] {
        ExhaustedFields(r, fs);
      } else {
        ReadAhead(r, Encode(vs[0]), EncodeAll(vs[1..]));
        assert Ahead(r, Encode(vs[0]));
        FieldEvolves(r, vs[0], fs[0]);
        FieldsEvolve(Advance(r, |Encode(vs[0])|), vs[1..], fs[1..]);
      }
    }
  }

  lemma {:induction false} SectionEvolves(r: Reader, header: seq<byte>, fields: seq<Value>, expected: seq<Field>)
    requires AllFit(fields) && AllCompatible(fields, expected)
    requires |header| == 4 && FromLittleEndian(header) == 4 + |EncodeAll(fields)|
    requires Ahead(r, header + EncodeAll(fields))
    ensures ReadField(r, SectionField(expected))
         == (SectionValue(ProjectAll(fields, expected)), Advance(r, 4 + |EncodeAll(fields)|))
    decreases expected, 2
  {
    hide AllFit, AllCompatible, EncodeAll, ProjectAll, ReadFields, FromLittleEndian;
    var sectionEnd := r.pos + 4 + |EncodeAll(fields)|;
    SectionHeader(r, header, EncodeAll(fields));
    var section := Reading(r.data, r.pos + 4, sectionEnd, false);
    FieldsEvolve(section, fields, expected);
    var (values, inside) := ReadFields(section, expected);
    SectionLeft(r, inside, sectionEnd);
  }

  /** Schema evolution: common fields agree, missing fields read as zero, no error is reported, and the
      reader ends exactly behind the section with its outer end position restored. */
  lemma {:induction false} FieldEvolves(r: Reader, v: Value, f: Field)
    requires Fits(v) && Compatible(v, f) && Ahead(r, Encode(v))
    ensures ReadField(r, f) == (Project(v, f), Advance(r, |Encode(v)|))
    decreases f, 0
  {
    match (v, f)
    case (IntValue(value, size), IntField(_)) =>
      assert Encode(v) == Encode(v) + [];
      ReadAhead(r, Encode(v), []);
      LittleEndianRoundTrip(value, size);
    case (SectionValue(fields), SectionField(expected)) =>
      var body := EncodeAll(fields);
      var header := LittleEndian(4 + |body|, 4);
      LittleEndianRoundTrip(4 + |body|, 4);
      SectionEvolves(r, header, fields, expected);
  }

  // ---- leaving a section, on any input ----

  /** `after` is behind the section that begins at `before`, by the length it announces, and nothing else has
      changed: neither the data nor the end position, an end at 0 standing for no section. */
  ghost predicate LeftAtItsEnd(before: Reader, after: Reader)
    requires before.Valid()
  {
    && before.Reading? && after.Reading? && after.data == before.data
    && after.pos == before.pos + FromLittleEndian(before.Read(4).0)
    && if before.strict || before.end > 0 then after.end == before.end && after.strict == before.strict
       else after.end == |before.data| && after.strict
  }

  lemma {:induction false} StaysFailed(r: Reader, fs: seq<Field>)
    requires r.Valid() && r.Failed?
    ensures ReadFields(r, fs).1 == r
    decreases fs, 1
  {
    if fs != [] {
      FieldStaysFailed(r, fs[0]);
      StaysFailed(r, fs[1..]);
    }
  }

  lemma {:induction false} FieldStaysFailed(r: Reader, f: Field)
    requires r.Valid() && r.Failed?
    ensures ReadField(r, f).1 == r
    decreases f, 0
  {
    if f.SectionField? {
      StaysFailed(r, f.fields);
    }
  }

  lemma {:induction false} FieldsKeepData(r: Reader, fs: seq<Field>)
    requires r.Valid()
    ensures ReadFields(r, fs).1.Reading? ==> r.Reading? && ReadFields(r, fs).1.data == r.data
    decreases fs, 1
  {
    hide ReadSection;
    if fs != [] {
      if fs[0].SectionField? {
        SectionIsLeftAtItsEnd(r, fs[0].fields);
      }
      FieldsKeepData(ReadField(r, fs[0]).1, fs[1..]);
    }
  }

  /** Whatever the length says and whatever the fields do: a section that is left without an error is left at
      its end, with the outer end position restored. */
  lemma {:induction false} SectionIsLeftAtItsEnd(r: Reader, fields: seq<Field>)
    requires r.Valid()
    ensures ReadSection(r, fields).1.Reading? ==> LeftAtItsEnd(r, ReadSection(r, fields).1)
    decreases fields, 2
  {
    hide ReadFields, FromLittleEndian;
    if r.Reading? {
      FieldsKeepData(r.Read(4).1.SetEnd(r.pos + FromLittleEndian(r.Read(4).0)), fields);
    } else {
      StaysFailed(r, fields);
    }
  }

  // ---- the adapter code ----

  method SerializeAll(w: OutputBufferAdapter, vs: seq<Value>)
    requires w.Valid()
    modifies w
    ensures w.Valid() && w.View() == old(w.View()).Write(EncodeAll(vs))
    decreases vs, 1
  {
    if vs == [] {
      assert w.View().Write([]) == w.View();
    } else {
      ghost var start := w.View();
      Serialize(w, vs[0]);
      SerializeAll(w, vs[1..]);
      WritesJoin(start, Encode(vs[0]), EncodeAll(vs[1..]));
    }
  }

  method Serialize(w: OutputBufferAdapter, v: Value)
    requires w.Valid()
    modifies w
    ensures w.Valid() && w.View() == old(w.View()).Write(Encode(v))
    decreases v, 0
  {
    hide LittleEndian, EncodeAll;
    match v
    case IntValue(value, size) =>
      w.Write(LittleEndian(value, size));
    case SectionValue(fields) =>
      ghost var start, body := w.View(), EncodeAll(fields);
      var startPos := w.currOffset;
      w.Write(LittleEndian(0, 4));
      SerializeAll(w, fields);
      WritesJoin(start, LittleEndian(0, 4), body);
      var endPos := w.currOffset;
      var patch := LittleEndian(endPos - startPos, 4);
      PatchedHeader(start, LittleEndian(0, 4), patch, body);
      w.SetCurrentWritePos(startPos);
      w.Write(patch);
      w.SetCurrentWritePos(endPos);
  }

  /** The end position asked for at the start is only needed, and then known, when no error is latched. */
  lemma {:induction false} SameEndPos(start: Reader, inside: Reader, fields: seq<Field>, sectionEnd: nat, readEndPos: nat)
    requires start.Valid() && inside.Valid()
    requires inside == ReadFields(start.Read(4).1.SetEnd(sectionEnd), fields).1
    requires start.Reading? ==> readEndPos == if start.strict then 0 else start.end
    ensures inside.Seek(sectionEnd).SetEnd(readEndPos)
         == inside.Seek(sectionEnd).SetEnd(if start.Reading? && !start.strict then start.end else 0)
  {
    if start.Failed? {
      StaysFailed(start, fields);
    }
  }

  method Deserialize(r: InputBufferAdapter, f: Field) returns (v: Value)
    requires r.Valid()
    modifies r
    ensures r.Valid() && (v, r.View()) == ReadField(old(r.View()), f)
    decreases f, 0
  {
    match f
    case IntField(size) =>
      var bytes := r.ReadBytes(size);
      v := IntValue(FromLittleEndian(bytes), size);
    case SectionField(fields) =>
      var values := DeserializeSection(r, fields);
      v := SectionValue(values);
  }

  method DeserializeAll(r: InputBufferAdapter, fs: seq<Field>) returns (vs: seq<Value>)
    requires r.Valid()
    modifies r
    ensures r.Valid() && (vs, r.View()) == ReadFields(old(r.View()), fs)
    decreases fs, 1
  {
    if fs == [] {
      vs := [];
    } else {
      var first := Deserialize(r, fs[0]);
      var rest := DeserializeAll(r, fs[1..]);
      vs := [first] + rest;
    }
  }

  method DeserializeSection(r: InputBufferAdapter, fields: seq<Field>) returns (values: seq<Value>)
    requires r.Valid()
    modifies r
    ensures r.Valid() && (values, r.View()) == ReadSection(old(r.View()), fields)
    ensures r.View().Reading? ==> LeftAtItsEnd(old(r.View()), r.View())
    decreases fields, 2
  {
    hide ReadFields, FromLittleEndian, LeftAtItsEnd, Reader.Read, Reader.Seek, Reader.SetEnd;
    hide InputBufferAdapter.View, InputBufferAdapter.Valid;
    ghost var start := r.View();
    var readEndPos := r.CurrentReadEndPos();
    var startPos := r.CurrentReadPos();
    var bytes := r.ReadBytes(4);
    var size := FromLittleEndian(bytes);
    r.SetCurrentReadEndPos(startPos + size);
    values := DeserializeAll(r, fields);
    ghost var inside := r.View();
    SameEndPos(start, inside, fields, startPos + size, readEndPos);
    SectionIsLeftAtItsEnd(start, fields);
    r.SetCurrentReadPos(startPos + size);
    r.SetCurrentReadEndPos(readEndPos);
  }

  /** A whole exchange: one side writes its section, the other reads it with its own fields. */
  method Exchange(written: seq<Value>, expected: seq<Field>) returns (data: seq<byte>, got: Value, code: nat, completed: bool)
    requires Fits(SectionValue(written)) && AllCompatible(written, expected)
    ensures data == Encode(SectionValue(written))
    ensures got == SectionValue(ProjectAll(written, expected)) && code == NO_ERROR && completed
  {
    var output := new OutputBufferAdapter([]);
    Serialize(output, SectionValue(written));
    data := output.buffer[..output.WrittenBytesCount()];
    var input := new InputBufferAdapter(data);
    assert data[0..|data|] == data;
    FieldEvolves(Start(data), SectionValue(written), SectionField(expected));
    got := Deserialize(input, SectionField(expected));
    code := input.ErrorCode();
    completed := input.IsCompletedSuccessfully();
  }

  method MeasureAll(m: BasicMeasureSize, vs: seq<Value>)
    requires m.currPosBits % 8 == 0 && m.prevLargestPos <= m.currPosBits
    modifies m
    ensures m.currPosBits == old(m.currPosBits) + 8 * |EncodeAll(vs)| && m.prevLargestPos <= m.currPosBits
    decreases vs, 1
  {
    if vs != [] {
      Measure(m, vs[0]);
      MeasureAll(m, vs[1..]);
    }
  }

  /** The dry run counts nested sections correctly although it seeks back for every length. */
  method Measure(m: BasicMeasureSize, v: Value)
    requires m.currPosBits % 8 == 0 && m.prevLargestPos <= m.currPosBits
    modifies m
    ensures m.currPosBits == old(m.currPosBits) + 8 * |Encode(v)| && m.prevLargestPos <= m.currPosBits
    decreases v, 0
  {
    match v
    case IntValue(_, size) =>
      m.currPosBits := m.currPosBits + 8 * size;
    case SectionValue(fields) =>
      var startPos := m.CurrentWritePos();
      m.currPosBits := m.currPosBits + 32;
      MeasureAll(m, fields);
      var endPos := m.CurrentWritePos();
      m.SetCurrentWritePos(startPos);
      m.currPosBits := m.currPosBits + 32;
      m.SetCurrentWritePos(endPos);
  }
}
