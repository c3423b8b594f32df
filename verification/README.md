# Verification of the Guthi-Core shared file tree

Guthi-Core keeps a tree of `FileContent` nodes on every node of a network. A node serialises its tree,
ships the bytes, deserialises what it receives and merges the trees into one view. This project models
that path in Dafny and proves what it is for:

- **Shared graphs survive the wire.** For every finite graph of nodes - with sharing, cycles and null
  children - serialising and deserialising into a new root gives an isomorphic graph. The serialiser and
  the deserialiser are loops and recursion over objects in memory, proved equal to a writer and a parser
  on finite heaps; the parser is total on all byte strings, it accepts exactly the messages of a grammar of
  its own (`Language.AcceptedIffSpelled`), and no accepted message is a proper prefix of another.
- **Pointer linking.** Over whole runs of unique owners, shared owners, shared observers and observers:
  the ids are dense, each payload is written at the first owning reference, and every pointer slot ends
  up at its owner's object whichever came first.
- **Bit packing.** The scratch-register machines of both wrappers, with the byte-aligned path and the
  stray high bits of the writer loop, refine a plain list of bits, stay in lockstep and undo each other.
- **Codecs.** Buffer adapters, length prefixes, zigzag varints, range-coded integers and back-patched
  growable sections, each with its round trip and with exactly what its reader accepts.
- **Merging.** The merge by name is associative and conserves files; the merge of the code, which pushes
  into `contents` through shared pointers, computes it in place and changes nothing but the `contents` of
  the objects named.
- **End to end.** When one node ships its tree and another merges what arrives, the receiver shows the
  merge of what both showed before, or nothing happens if the bytes do not fit (`Sharing.ShipAndMerge`).

The default configuration is fixed: little endian, adapter and data checks on, asserts as preconditions.

## Layout

| file | contents |
|---|---|
| Bytes, Bits, Wrappers | bytes, powers of two, C++ bit operators on naturals, bit lists |
| InputBuffer, OutputBuffer | the two buffer adapters and the machines they refine |
| BitWriter, BitReader, BitPacking, MeasureSize | bit packing and the dry run |
| LengthPrefix, Varint, ValueRange, Growable | the codecs |
| PointerLinking | both linking contexts and whole runs of references |
| FileGraph, FileParser, Truncation | the wire form of a graph on finite heaps, its parser, the theorems |
| Language, Limits | the language of accepted messages; where announced sizes are refused |
| FileTree, SerializeFs, DeserializeFs, NetworkFs | the objects, the serialiser, the deserialiser, a node's file system |
| Merge, MergeTotal, MergePaths | the merge as a function on trees: algebra and conservation |
| MergeInPlace, MergeLists | the merge in memory |
| Sharing | from one node's tree to another node's view |
| Messages, KnownAnswers | messages and formats written out in bytes |

`Reader`, `Tape`, `BitSource`, `Registry`, `Links`, `Heap` and `Tree` are the values that the classes are
proved against: each method says how it changes that value, and the theorems are about the values.

## What the code does not do

Seven properties one might expect are false of the code. The model keeps the code as it is, names an input
that breaks the property and states exactly when it holds.

- The serialiser counts its bytes in 32 bits, so a graph of 2^32 bytes or more is cut off, such as a chain of
  2^26 directories with full names (`NetworkFs.GraphsCanOutgrowTheCount`). The cut message is always
  refused: the round trip succeeds if and only if the bytes fit (`NetworkFs.ShipAndLoad`).
- The assert in `PLCInfo::update` lets a shared reference follow a unique owner of the same object. The
  writer then writes no payload but the reader expects one (`PointerLinking.UniqueThenSharedPartsThem`).
  A legal run of references is read back in step if and only if no shared reference in it follows a unique
  owner of its object (`PointerLinking.LegalRunIsReadBack`).
- A varint cut off by the end of a section is no error: the missing byte reads as zero and ends it
  (`Varint.CutGroupIsAccepted`). What is accepted, what is InvalidData and what is DataOverflow, inside
  sections and outside, is `Varint.CheckedReadIsExact`.
- A length prefix cut off by the end of a section is accepted too, and can take more bytes to write than were
  read (`LengthPrefix.CutSizeIsLonger`); `LengthPrefix.AcceptedIsNotShorterIff` says when it does not.
- `BasicMeasureSize` overwrites its largest position at every backward seek, so a second seek back loses
  the count (`MeasureSize.SecondBackwardSeekLosesTheCount`); over any run the count is right if and only if
  the run ends at its largest position or its last seek back came from there
  (`MeasureSize.CountIsRightIff`). Growable sections, nested or not, stay within that.
- `MergeTotalFileContent` and `AddAsChildDirectory` have no test for Files: a top-level File that repeats
  a name is lost (`MergeTotal.RepeatedFileIsLost`), and files are conserved if and only if there is none
  (`MergeTotal.TotalConservesIff`).
- `isCompletedSuccessfully` can hold in an error state (`InputBuffer.CompletedInAnErrorState`): exactly when
  the first error is latched by a seek out of a section to the end of the buffer, or by a section end set
  before a position at the end of the buffer (`InputBuffer.CompletedInErrorIff`). Without sections it
  cannot (`InputBuffer.WithoutSectionsCompletionIsSuccess`). And a report of `ReaderError::NoError`
  latches nothing but empties the buffer, which then passes the acceptance test
  (`InputBuffer.ReportLatchesIff`).

## Model

| member | source | states |
|---|---|---|
| InputBuffer.InputBufferAdapter.constructor | include/serializer/bitsery/adapter/buffer.h:44-49 | a new adapter is at position 0 of a strict reader over the whole buffer |
| InputBuffer.InputBufferAdapter.ErrorCode | include/serializer/bitsery/adapter/buffer.h:88-92 | the offsets encode exactly the error of the explicit machine; no error means position <= end <= size |
| InputBuffer.InputBufferAdapter.IsCompletedSuccessfully | include/serializer/bitsery/adapter/buffer.h:102-104 | the completion test of the explicit machine, which an error state can pass |
| InputBuffer.InputBufferAdapter.Report | include/serializer/bitsery/adapter/buffer.h:94-100 | the first error is latched; a later report changes no field at all |
| InputBuffer.InputBufferAdapter.ReadBytes | include/serializer/bitsery/adapter/buffer.h:126-158 | a read yields all of its bytes or zeros; running over a strict end latches DataOverflow, over a section end it does not; once latched no field moves |
| InputBuffer.InputBufferAdapter.CurrentReadPos | include/serializer/bitsery/adapter/buffer.h:172-174 | the position, or 0 in an error state |
| InputBuffer.InputBufferAdapter.SetCurrentReadPos | include/serializer/bitsery/adapter/buffer.h:160-166 | a seek, with the latched distance as error code when it passes the section end; once latched no field moves |
| InputBuffer.InputBufferAdapter.SetCurrentReadEndPos | include/serializer/bitsery/adapter/buffer.h:69-80 | opens or closes a section; an end before the position latches an error; once latched no field moves |
| InputBuffer.InputBufferAdapter.CurrentReadEndPos | include/serializer/bitsery/adapter/buffer.h:82-86 | 0 outside sections, the end position inside |
| InputBuffer.ErrorLatch | include/serializer/bitsery/adapter/buffer.h:88-174 | over every run of reads, seeks, end changes and reports a latched error never changes and every later read yields zeros |
| InputBuffer.RunSplits | include/serializer/bitsery/adapter/buffer.h:61-174 | a run of operations can be cut anywhere: its outputs and its state are those of the two parts |
| InputBuffer.FinalCheckCoversTheRun | include/serializer/bitsery/adapter/buffer.h:88-104 | if the state after a run shows no error, no state on the way did: checking once at the end is enough |
| InputBuffer.AcceptedReadsTileTheBuffer | src/filesystem/serialize_fs.cpp:39-44 | a run of reads passes the acceptance test if and only if the reads tile the buffer, and then they returned it |
| InputBuffer.CompletedInAnErrorState | include/serializer/bitsery/adapter/buffer.h:102-104 | a run that ends with an error and at the end of the buffer |
| InputBuffer.CompletedInErrorIff | include/serializer/bitsery/adapter/buffer.h:61-104 | over any run, error and completion come together if and only if the first error is latched by a seek from inside a section to the end of the buffer, or by a section end before a position there |
| InputBuffer.WithoutSectionsCompletionIsSuccess | src/filesystem/serialize_fs.cpp:39-44 | in a run without section ends the completion test implies that there is no error |
| InputBuffer.ReportLatchesIff | include/serializer/bitsery/adapter/buffer.h:94-100 | a report latches an error if and only if it is not NoError, which empties the buffer and completes it |
| InputBuffer.CodesOfPositions | include/serializer/bitsery/adapter/buffer.h:61-166 | the error code of every position out of place: 2 behind the buffer, the distance for one behind the section or an end before the position |
| OutputBuffer.GrownSize | include/serializer/bitsery/traits/core/std_defaults.h:87-94 | growth is geometric: the capacity at hand, or the one multiple of 64 above 3/2 size + 64 and up to 3/2 size + 128 |
| OutputBuffer.OutputBufferAdapter.constructor | include/serializer/bitsery/adapter/buffer.h:202-206 | a new adapter has written nothing, whatever the buffer holds |
| OutputBuffer.OutputBufferAdapter.IncreaseBufferSize | include/serializer/bitsery/traits/core/std_defaults.h:87-94 | the buffer grows to the size of the growth step, keeps its contents and appends zeros |
| OutputBuffer.OutputBufferAdapter.Write | include/serializer/bitsery/adapter/buffer.h:264-287 | the retry recursion ends, and the written bytes become those of overwrite-or-extend on the reference tape, across reallocations |
| OutputBuffer.OutputBufferAdapter.SetCurrentWritePos | include/serializer/bitsery/adapter/buffer.h:213-219 | a seek to a position already reached is a seek of the tape; a farther one keeps everything written, the gap holding what the buffer held there, and zeros where it grew |
| OutputBuffer.OutputBufferAdapter.Reserve | include/serializer/bitsery/adapter/buffer.h:289-297 | the growth recursion of a seek ends with enough room, keeps the contents and appends zeros |
| OutputBuffer.WritesJoin | include/serializer/bitsery/adapter/buffer.h:264-287 | writing in two pieces is writing the concatenation, at any position |
| OutputBuffer.BackPatch | include/serializer/bitsery/ext/growable.h:48-51 | seek back, overwrite, return: exactly the patched slice changes |
| OutputBuffer.PatchedHeader | include/serializer/bitsery/ext/growable.h:41-52 | a placeholder patched after the body is written leaves the tape as if the header had been written at once, at any position |
| BitWriter.OutputAdapterBitPackingWrapper.constructor | include/serializer/bitsery/serializer.h:43-46 | a new wrapper continues the bits before its adapter's position, wherever that is |
| BitWriter.OutputAdapterBitPackingWrapper.EmitLowByte | include/serializer/bitsery/serializer.h:130-136 | one emission moves the low byte out and leaves pending bits whose stray bits belong to the value still to come |
| BitWriter.OutputAdapterBitPackingWrapper.WriteChunk | include/serializer/bitsery/serializer.h:126-138 | one round appends exactly the low bits of the value and keeps the stray-bit invariant |
| BitWriter.OutputAdapterBitPackingWrapper.WriteBitsInternal | include/serializer/bitsery/serializer.h:121-140 | the loop appends the value least significant bit first and leaves no stray bit |
| BitWriter.OutputAdapterBitPackingWrapper.WriteByteBitsInternal | include/serializer/bitsery/serializer.h:142-154 | the single-emission overload appends the same bits |
| BitWriter.OutputAdapterBitPackingWrapper.WriteBits | include/serializer/bitsery/serializer.h:81-89 | appends the low bits of the value to the plain bit list |
| BitWriter.OutputAdapterBitPackingWrapper.WriteBytes | include/serializer/bitsery/serializer.h:53-64 | the aligned direct path and the scratch path append the same bits |
| BitWriter.OutputAdapterBitPackingWrapper.WriteAligned | include/serializer/bitsery/serializer.h:58-71 | with nothing pending, bytes go straight to the adapter and are their own bits |
| BitWriter.OutputAdapterBitPackingWrapper.WriteUnaligned | include/serializer/bitsery/serializer.h:61-63 | with bits pending, a whole value goes through the scratch word |
| BitWriter.OutputAdapterBitPackingWrapper.WriteBuffer | include/serializer/bitsery/serializer.h:66-79 | an array appends the bits of its elements, in one block or one by one |
| BitWriter.OutputAdapterBitPackingWrapper.Align | include/serializer/bitsery/serializer.h:91-93 | appends zero bits up to the byte boundary |
| BitWriter.OutputAdapterBitPackingWrapper.Flush | include/serializer/bitsery/serializer.h:104-107 | the bytes before the position are then the packing of all bits with zero padding, and those behind it are untouched |
| BitWriter.OutputAdapterBitPackingWrapper.SetCurrentWritePos | include/serializer/bitsery/serializer.h:95-98 | a seek first pads the bits to a byte boundary; what lies behind them is untouched, and a seek beyond them keeps all of it |
| BitWriter.OutputAdapterBitPackingWrapper.Apply | include/serializer/bitsery/serializer.h:53-107 | every operation appends the bits the plain bit list says |
| BitWriter.MergeScratch | include/serializer/bitsery/serializer.h:128 | or-ing the unmasked value above the pending bits merges them, given that the bits in the way are bits of the value |
| BitWriter.EmitByte | include/serializer/bitsery/serializer.h:130-136 | the emitted byte and the rest are the pending bits followed by the value; the rest has only bits of the value as stray bits |
| BitWriter.NextChunk | include/serializer/bitsery/serializer.h:126-139 | the loop invariant survives a round, whether or not a byte was emitted |
| Bits.PackingIsUnique | include/serializer/bitsery/serializer.h:121-154 | a bit list has at most one packing into bytes, so the bit list determines the output |
| Bits.LittleEndianBits | include/serializer/bitsery/serializer.h:58-63 | little-endian bytes and least-significant-bit-first packing are the same bits, which is why both paths agree |
| BitReader.InputAdapterBitPackingWrapper.constructor | include/serializer/bitsery/deserializer.h:42-45 | a new wrapper has no bit pending |
| BitReader.InputAdapterBitPackingWrapper.ReadChunk | include/serializer/bitsery/deserializer.h:136-148 | one round takes exactly the next bits, fetching a byte when the scratch word is too short |
| BitReader.InputAdapterBitPackingWrapper.ReadBitsInternal | include/serializer/bitsery/deserializer.h:130-151 | the loop takes the next bits of the stream and accumulates the value they stand for |
| BitReader.InputAdapterBitPackingWrapper.ReadBits | include/serializer/bitsery/deserializer.h:79-83 | the value of the next bits |
| BitReader.InputAdapterBitPackingWrapper.ReadBytes | include/serializer/bitsery/deserializer.h:52-61 | the value of the next bytes, direct or through the scratch word |
| BitReader.InputAdapterBitPackingWrapper.ReadBuffer | include/serializer/bitsery/deserializer.h:63-77 | an array, read as a block or element by element |
| BitReader.InputAdapterBitPackingWrapper.Align | include/serializer/bitsery/deserializer.h:85-91 | drops the pending bits and reports InvalidData if one of them is set; BitPacking.PaddingDecides says for which messages that is |
| BitReader.InputAdapterBitPackingWrapper.SetCurrentReadPos | include/serializer/bitsery/deserializer.h:93-96 | a seek first drops the pending bits, with their check |
| BitReader.TakeStream | include/serializer/bitsery/deserializer.h:130-151 | taking bits takes them from the front of the stream, however the bytes fall, and leaves fewer than eight pending |
| BitReader.TakeSplits | include/serializer/bitsery/deserializer.h:135-149 | taking bits in two steps is taking them at once, errors included |
| BitReader.TakeOverruns | include/serializer/bitsery/deserializer.h:52-156 | bits asked for beyond the data read as zero, with DataOverflow if no section ends there |
| BitPacking.ShapeRoundTrip | include/serializer/bitsery/deserializer.h:52-156 | every operation is undone by the read of its shape, from any point of the stream |
| BitPacking.StreamRoundTrip | include/serializer/bitsery/deserializer.h:52-156 | same-shaped reads of any run of operations return its values, consume exactly its bits and report nothing |
| BitPacking.PaddingDecides | include/serializer/bitsery/deserializer.h:85-91 | for any bits of a run followed by fewer than eight more, the align after the last value reports InvalidData if and only if one of those is set |
| BitPacking.ReadBack | include/serializer/bitsery/deserializer.h:85-156 | reading any such bytes and aligning: the values return, and the code is 0 with every byte consumed if the rest is zero and 3 otherwise |
| BitPacking.ScratchesInLockstep | include/serializer/bitsery/deserializer.h:130-156 | after every operation the reader holds exactly the bits that the writer lacks to a byte, so one scratch word is empty exactly when the other is |
| BitPacking.WriteThenRead | include/serializer/bitsery/serializer.h:53-154 | write any interleaving of operations, flush, read: the bytes are the bit list with zero padding, the values return, no error, no byte left, for any register widths and any values that fit their fields |
| KnownAnswers.WriteBitValues | include/serializer/bitsery/serializer.h:53-154 | the bytes of three bits and a word |
| BitPacking.MeasureAndWrite | include/serializer/bitsery/adapter/measure_size.h:41-87 | the dry run of any seek-free run reports exactly the byte count of the real run |
| MeasureSize.BasicMeasureSize.Apply | include/serializer/bitsery/adapter/measure_size.h:41-60 | the counter advances by the bits that the real writer appends |
| MeasureSize.BasicMeasureSize.Align | include/serializer/bitsery/adapter/measure_size.h:74-77 | the counter advances by the padding of the real writer |
| MeasureSize.BasicMeasureSize.SetCurrentWritePos | include/serializer/bitsery/adapter/measure_size.h:62-68 | a seek aligns and then overwrites the largest position whenever it goes back |
| MeasureSize.SeekKeepsCountIff | include/serializer/bitsery/adapter/measure_size.h:62-68 | a seek keeps a correct count if and only if it goes forward or leaves the largest position |
| MeasureSize.CountIsRightIff | include/serializer/bitsery/adapter/measure_size.h:62-87 | over any run of writes and seeks the count is the largest position reached if and only if the run ends there or its last seek back came from there |
| MeasureSize.SecondBackwardSeekLosesTheCount | include/serializer/bitsery/adapter/measure_size.h:62-68 | ten bytes, rewind, one byte, rewind: one byte is reported |
| LengthPrefix.WriteSize | include/serializer/bitsery/details/adapter_common.h:84-99 | the shifts, ors and casts write the one-, two- or four-byte code of the size |
| LengthPrefix.ReadSizeUnchecked | include/serializer/bitsery/details/adapter_common.h:53-70 | the branches on the top bits decode the code in arithmetic form |
| LengthPrefix.ReadSizeChecked | include/serializer/bitsery/details/adapter_common.h:72-78 | a size above the limit is reported and taken as zero |
| LengthPrefix.SizeRoundTrip | include/serializer/bitsery/details/adapter_common.h:52-99 | every size below 2^30 comes back and the trailing bytes are left |
| LengthPrefix.SelfDelimiting | include/serializer/bitsery/details/adapter_common.h:84-99 | the code is uniquely decodable: no code is a prefix of another |
| LengthPrefix.AcceptedIsNotShorterIff | include/serializer/bitsery/details/adapter_common.h:52-70 | for every reader that has not failed: a decoding is accepted if and only if the announced bytes are there or a section ends in them; an accepted size re-encodes to no more bytes than were read if and only if they were all there or those there held only zeros |
| LengthPrefix.CutSizeIsLonger | include/serializer/bitsery/adapter/buffer.h:126-138 | one byte at the end of a section, accepted as a size that takes four bytes to write |
| LengthPrefix.LimitIsExact | include/serializer/bitsery/details/adapter_common.h:72-78 | the checked reader accepts exactly the sizes up to the limit |
| KnownAnswers.WriteSizes | include/serializer/bitsery/details/adapter_common.h:84-99 | the bytes of a size in each of the three forms |
| Varint.WriteCompact | include/serializer/bitsery/ext/compact_value.h:103-112 | the loop writes the seven-bit groups of the value (unsigned LEB128, section 7.6 of DWARF Version 5) |
| Varint.ReadGroupsLoop | include/serializer/bitsery/ext/compact_value.h:116-124 | the loop consumes exactly the groups of the reference reader; its wrapping accumulator is their value modulo its width |
| Varint.ReadCompactValue | include/serializer/bitsery/ext/compact_value.h:114-128 | the width of the platform's fast accumulator does not matter |
| Varint.HandleReadOverflow | include/serializer/bitsery/ext/compact_value.h:129-135 | InvalidData is reported if and only if the groups read are unterminated or their value does not fit the type |
| Varint.ZigZagMeaning | include/serializer/bitsery/ext/compact_value.h:92-95 | shift and exclusive or number 0, -1, 1, -2, ... as 0, 1, 2, 3, ... |
| Varint.DecodeMeaning | include/serializer/bitsery/ext/compact_value.h:97-100 | what decoding yields for even and for odd codes |
| Varint.ZigZagBijection | include/serializer/bitsery/ext/compact_value.h:92-100 | zigzag is a bijection between the signed and unsigned values of every width |
| Varint.GroupsRoundTrip | include/serializer/bitsery/ext/compact_value.h:103-128 | the groups of a value are terminated and stand for it |
| Varint.OverflowIsExact | include/serializer/bitsery/ext/compact_value.h:130-135 | the check of the last group fires if and only if the groups are unterminated or the value does not fit |
| Varint.CheckedReadIsExact | include/serializer/bitsery/ext/compact_value.h:114-135 | for every reader that has not failed, by the groups ahead: accepted if and only if at most ceil(bits/7) groups are terminated and fit, or a section ends in them; InvalidData if and only if they are complete and are not a value of the type; DataOverflow if and only if the buffer ends in them |
| Varint.CutGroupIsAccepted | include/serializer/bitsery/adapter/buffer.h:126-138 | an unterminated group at the end of a section is accepted |
| Varint.ReadCutOff | include/serializer/bitsery/ext/compact_value.h:114-128 | groups cut off by the end of what can be read give the value of those that are there |
| Varint.CompactRoundTrip | include/serializer/bitsery/ext/compact_value.h:103-128 | every unsigned value of 16, 32 or 64 bits comes back, leaving what follows |
| Varint.SignedRoundTrip | include/serializer/bitsery/ext/compact_value.h:67-79 | every signed value comes back through zigzag |
| KnownAnswers.WriteCompactValues | include/serializer/bitsery/ext/compact_value.h:88-112 | the bytes of 127, 128, 300 and, through zigzag, -150 |
| ValueRange.SizeIsMinimal | include/serializer/bitsery/ext/value_range.h:44-47 | the recursive size is the bit length |
| ValueRange.BitCountIsMinimal | include/serializer/bitsery/ext/value_range.h:49-53 | the bit count is the least that holds every code of the range, and it fits the type |
| ValueRange.RawCodeIsExact | include/serializer/bitsery/ext/value_range.h:128-150 | under wrap-around, exactly the codes up to max - min decode to a valid value, the one they stand for |
| ValueRange.RangeRoundTrip | include/serializer/bitsery/ext/value_range.h:109-131 | every value of the range has its offset as code and comes back |
| ValueRange.FullRange | include/serializer/bitsery/ext/value_range.h:109-131 | the full range of every unsigned type, and of every signed one narrow enough for its difference, is a legal range of as many bits |
| ValueRange.Serialize | include/serializer/bitsery/ext/value_range.h:170-175 | the offset of the value is written in the minimal number of bits |
| KnownAnswers.WriteRangeValue | include/serializer/bitsery/ext/value_range.h:170-175 | the byte of a value of a range around zero |
| ValueRange.Deserialize | include/serializer/bitsery/ext/value_range.h:177-196 | for any input the result lies in the range: the decoded value, or the minimum with InvalidData for a code above max - min |
| Growable.Serialize | include/serializer/bitsery/ext/growable.h:41-52 | the back-patched section is length and body, at any nesting depth and any position of the tape |
| Growable.Deserialize | include/serializer/bitsery/ext/growable.h:54-67 | the deserialiser takes the steps of the reference reader on any input |
| Growable.DeserializeSection | include/serializer/bitsery/ext/growable.h:54-67 | the steps of the reference reader on any input; without an error the section is left at its end with the outer end position restored, whatever its fields did |
| Growable.SectionIsLeftAtItsEnd | include/serializer/bitsery/ext/growable.h:54-67 | on any input and for any fields: a section left without an error is left at the position its length says, with data, end position and mode as before |
| Growable.ExhaustedFields | include/serializer/bitsery/adapter/buffer.h:126-138 | at the end of a section every further field, nested sections included, reads as zero and nothing moves |
| Growable.FieldEvolves | include/serializer/bitsery/ext/growable.h:41-67 | when one side's field list is a prefix of the other's, at every depth: common fields agree, missing ones are zero, no error, and the reader is behind the section with its end restored |
| Growable.FieldsEvolve | include/serializer/bitsery/ext/growable.h:54-67 | inside a section the reader sees the projection of the written fields and stays within it |
| Growable.Exchange | include/serializer/bitsery/ext/growable.h:41-67 | a whole exchange between different schemas ends with no error and every byte consumed |
| Growable.FitsIff | include/serializer/bitsery/ext/growable.h:41-52 | a section can be written if and only if its numbers fit their fields and all of it takes less than 2^32 bytes |
| KnownAnswers.ExchangeSection | include/serializer/bitsery/ext/growable.h:41-67 | the bytes of a nested section, and what a reader with one more field makes of them |
| Growable.Measure | include/serializer/bitsery/adapter/measure_size.h:62-87 | the dry run counts nested growable sections correctly although each seeks back |
| PointerLinking.PointerLinkingContextSerialization.GetInfoByPtr | include/serializer/bitsery/ext/utils/pointer_utils.h:168-177 | a new object gets the next id, a known one keeps its id and updates its ownership; PointerLinking.PermittedIff says in which runs it may be called |
| PointerLinking.PointerLinkingContextSerialization.IsPointerSerializationValid | include/serializer/bitsery/ext/utils/pointer_utils.h:181-187 | the check passes exactly when every object has an owner recorded |
| PointerLinking.PointerLinkingContextDeserialization.GetInfoById | include/serializer/bitsery/ext/utils/pointer_utils.h:213-219 | the reader keeps ownership of an id as the writer does of an object |
| PointerLinking.PointerLinkingContextDeserialization.ShareState | include/serializer/bitsery/ext/std_smart_ptr.h:118-126 | the object created for an id is remembered for the references to come |
| PointerLinking.PointerLinkingContextDeserialization.ProcessOwner | include/serializer/bitsery/ext/utils/pointer_utils.h:128-135 | the loop patches exactly the waiting observers and empties the list |
| PointerLinking.PointerLinkingContextDeserialization.ProcessObserver | include/serializer/bitsery/ext/utils/pointer_utils.h:137-143 | an observer is linked at once or put on the waiting list |
| PointerLinking.PointerLinkingContextDeserialization.IsPointerDeserializationValid | include/serializer/bitsery/ext/utils/pointer_utils.h:227-233 | the reader's check passes exactly when every id has an owner recorded |
| PointerLinking.IdsAreDense | include/serializer/bitsery/ext/utils/pointer_utils.h:168-177 | after any legal run of references the ids are exactly 1..n, one for each object |
| PointerLinking.EnterKeepsDense | include/serializer/bitsery/ext/utils/pointer_utils.h:168-177 | no step changes the id of an object |
| PointerLinking.RegistryCounts | include/serializer/bitsery/ext/utils/pointer_utils.h:85-102 | the two flags of an entry tell whether its object has been owned not at all, once or more often |
| PointerLinking.PayloadAtFirstOwner | include/serializer/bitsery/ext/utils/pointer_utils.h:290-307 | a payload is written if and only if the reference is the first owning one to its object |
| PointerLinking.ValidIffAllOwned | include/serializer/bitsery/ext/utils/pointer_utils.h:179-187 | the writer's check passes if and only if every object referred to has a unique or shared owner in the run |
| PointerLinking.PermittedIff | include/serializer/bitsery/ext/utils/pointer_utils.h:85-101 | from the references alone: the asserts of a run hold if and only if no unique owner follows another owner, unique or shared, of its object |
| PointerLinking.RunKeepsInvariant | include/serializer/bitsery/ext/utils/pointer_utils.h:309-336 | a run in step keeps slots, owners, waiting observers, shared states and the writer's history consistent to its end |
| PointerLinking.OpenKeepsInvariant | include/serializer/bitsery/ext/utils/pointer_utils.h:427-458 | the step for each kind of reference that does not part reader and writer keeps that invariant |
| PointerLinking.CloseKeepsInvariant | include/serializer/bitsery/ext/utils/pointer_utils.h:440-443 | ending a payload keeps it: the owner is announced to the observers waiting for it |
| PointerLinking.EverySlotIsLinked | include/serializer/bitsery/ext/utils/pointer_utils.h:128-143 | when a run in step is over, every payload ended and no id left with observers only, each slot holds the object made by its id's first owning reference, whichever came first |
| PointerLinking.ObjectsAreMadeOnce | include/serializer/bitsery/ext/utils/pointer_utils.h:404-443 | the object of an id is the one made by its first owning reference, for the whole run |
| PointerLinking.ValidLinksEverySlot | include/serializer/bitsery/ext/utils/pointer_utils.h:226-233 | the reader's own check implies that nothing is left to link |
| PointerLinking.InStepIff | include/serializer/bitsery/ext/utils/pointer_utils.h:404-443 | the reader permits a reference if and only if the writer does, and reads a payload exactly when one was written if and only if the reference is not a shared one to an object with a unique owner among the references before |
| PointerLinking.AcceptedKeepsStep | include/serializer/bitsery/ext/utils/pointer_utils.h:290-336 | every other reference keeps the ownership records, the unique owners and the payloads of both sides equal |
| PointerLinking.RunInStepIff | include/serializer/bitsery/ext/utils/pointer_utils.h:290-336 | from any state in step, however payloads nest, a permitted run stays in step if and only if no shared reference follows a unique owner of its object |
| PointerLinking.LegalRunIsReadBack | include/serializer/bitsery/ext/utils/pointer_utils.h:290-336 | for any legal run of references to objects: no assert fails in the reader and it reads exactly the payloads written, if and only if no shared reference follows a unique owner; then its check passes exactly when the writer's does, and with every payload ended every slot holds the object made for its id |
| PointerLinking.LegalRunHasReading | include/serializer/bitsery/ext/utils/pointer_utils.h:290-336 | the same from nothing but references in which each unique owner of an object comes before every other owner of it, with payloads that end at once |
| PointerLinking.WireRun | include/serializer/bitsery/ext/utils/pointer_utils.h:168-177 | naming objects by the ids written changes neither what is permitted nor what is recorded |
| PointerLinking.WirePayload | include/serializer/bitsery/ext/utils/pointer_utils.h:290-307 | nor for which references payloads are written |
| PointerLinking.FlatFits | include/serializer/bitsery/ext/utils/pointer_utils.h:290-336 | every run of references has such a reading, with payloads that end at once |
| PointerLinking.UniqueThenSharedPartsThem | include/serializer/bitsery/ext/utils/pointer_utils.h:94-96 | the run that passes every assert and parts reader and writer |
| FileGraph.WriteNode | src/filesystem/serialize_fs.hpp:16-30 | writing a node extends the numbering by objects of the heap only, changes no id and keeps the ids dense |
| FileGraph.WriteSlots | include/serializer/bitsery/serializer.h:286-297 | so does writing its children in order |
| FileGraph.WriteSlot | include/serializer/bitsery/ext/utils/pointer_utils.h:290-307 | so does writing a pointer, which terminates because a payload is written only for an object without an id |
| FileGraph.ReachableObjectsGetIds | include/serializer/bitsery/ext/utils/pointer_utils.h:290-307 | exactly the objects reachable from the root are written, with ids exactly 1..n |
| FileGraph.AllIdsUsed | include/serializer/bitsery/ext/utils/pointer_utils.h:168-177 | an injective numbering by numbers up to its size uses them all |
| FileParser.ParseNode | src/filesystem/serialize_fs.hpp:16-30 | parsing a node terminates on any input: it never has more bytes left than before |
| FileParser.ParseSlots | include/serializer/bitsery/deserializer.h:293-303 | so does parsing any number of children, and it yields that many |
| FileParser.ParseSlot | include/serializer/bitsery/ext/utils/pointer_utils.h:309-336 | so does parsing a pointer; a new id costs a byte, which is the termination measure |
| FileParser.NodeIsSound | src/filesystem/serialize_fs.hpp:16-30 | on any input: the new nodes are those of the new ids, at most one for each byte consumed, well formed and linked among ids met in the run |
| FileParser.ParsingIsTotal | src/filesystem/serialize_fs.cpp:28-44 | on every byte string, accepted or not: at most as many nodes as bytes, names within 64, lists within 256, every non-null child created in the run |
| FileParser.HeadRoundTrip | src/filesystem/serialize_fs.hpp:18-24 | type, address and name come back, and the number of children |
| FileParser.NodeRoundTrip | include/serializer/bitsery/ext/utils/pointer_utils.h:290-336 | parsing the bytes of any part of a run, from any set of known ids, gives renamed copies of the objects entered and consumes exactly the bytes |
| FileParser.SlotRoundTrip | include/serializer/bitsery/ext/utils/pointer_utils.h:427-444 | the same for a pointer: null, known or new |
| FileParser.GraphRoundTrip | src/filesystem/serialize_fs.cpp:3-44 | for every finite graph of fewer than 2^30 nodes the bytes are accepted and give an isomorphic graph: equal type, address, name, child order, sharing and cycles |
| FileParser.AcceptedGraphsCanBeShippedOn | src/filesystem/serialize_fs.cpp:3-44 | whatever is parsed meets every assert of the serialiser and survives another round trip |
| FileGraph.SampleBytes | src/filesystem/serialize_fs.hpp:16-30 | the exact bytes of a graph with a shared child, a null child and a cycle |
| FileParser.SampleParsed | src/filesystem/serialize_fs.cpp:28-44 | and the exact graph they are read back as |
| Truncation.AcceptedIsPrefixFree | src/filesystem/serialize_fs.cpp:28-44 | no accepted message is a proper prefix of an accepted message |
| Truncation.OnlyTheWholeGraphIsAccepted | src/filesystem/serialize_fs.cpp:3-44 | of the bytes of a graph the whole is accepted and no shorter piece |
| Language.AcceptedIffSpelled | src/filesystem/serialize_fs.cpp:28-44 | a message is accepted if and only if a legal syntax tree spells it, with names up to 64 and lists up to 256, and then the graph is what the tree means |
| Language.FileIsRead | src/filesystem/serialize_fs.hpp:16-30 | what a legal tree spells is read as it means, whatever follows |
| Language.FileConsumes | src/filesystem/serialize_fs.hpp:16-30 | whatever is read without an error was spelled by a legal tree |
| Limits.LongNameFails | src/filesystem/serialize_fs.hpp:25 | a node that announces a name of more than 64 bytes is InvalidData, at any place |
| Limits.LongListFails | src/filesystem/serialize_fs.hpp:28-29 | so is one that announces more than 256 children |
| Limits.SizesWithinAreRead | src/filesystem/serialize_fs.hpp:19-29 | all sizes up to 64 and 256 are read |
| Limits.NodeEndsInFirstError | src/filesystem/serialize_fs.hpp:16-30 | the first error in a node met anywhere decides: the parse of everything around it ends in that error |
| Limits.LongNameRefused | src/filesystem/serialize_fs.cpp:28-44 | a message in which, before any other error, a node announces a name of more than 64 bytes is refused with InvalidData |
| Limits.LongListRefused | src/filesystem/serialize_fs.cpp:28-44 | and so is one in which a node announces more than 256 children |
| Limits.GraphsWithinTheLimits | src/filesystem/serialize_fs.cpp:3-44 | the graph round trip in plain numbers: 64 bytes of name, 256 children, fewer than 2^30 objects |
| KnownAnswers.NameOfSixtyFour | src/filesystem/serialize_fs.hpp:25 | a message with a name of 64 bytes is accepted |
| KnownAnswers.NameOfSixtyFive | src/filesystem/serialize_fs.hpp:25 | one with a name of 65 bytes is not |
| Truncation.GraphTakesAtMost | src/filesystem/serialize_fs.cpp:3-26 | the bytes of any graph: at most 1097 for each object and the root |
| Truncation.NodeTwin | src/filesystem/serialize_fs.hpp:16-30 | a parse that has not failed does the same when more bytes follow |
| SerializeFs.SerializeNode | src/filesystem/serialize_fs.hpp:16-30 | the serialiser in memory writes the wire form of the node and numbers objects as it does, and terminates on cyclic graphs |
| SerializeFs.WriteHead | src/filesystem/serialize_fs.hpp:18-24 | type, address byte by byte, name and child count |
| SerializeFs.SerializeSlots | include/serializer/bitsery/serializer.h:286-297 | the loop over the children writes their wire form in order |
| SerializeFs.SerializePointer | include/serializer/bitsery/ext/utils/pointer_utils.h:291-306 | a child is written as the wire form says, null included |
| SerializeFs.SerializeObject | include/serializer/bitsery/ext/utils/pointer_utils.h:295-301 | id always, payload only if the object has not been processed |
| SerializeFs.LookUp | include/serializer/bitsery/ext/utils/pointer_utils.h:168-177 | the context answers with the id and the processed flag that the wire form needs |
| DeserializeFs.DeserializeNode | src/filesystem/serialize_fs.hpp:16-30 | the deserialiser fills the object and creates new objects that match the parser's heap, on any input |
| DeserializeFs.ReadHead | src/filesystem/serialize_fs.hpp:18-24 | type, address, name and child count as parsed |
| DeserializeFs.DeserializeSlot | include/serializer/bitsery/ext/utils/pointer_utils.h:309-336 | a child is null, the object shared earlier or a new one; the other children stay |
| DeserializeFs.CreateShared | include/serializer/bitsery/ext/utils/pointer_utils.h:430-441 | the new object is shared before its payload is read, so the payload may refer to it |
| NetworkFs.NetworkFS.SerializeLocalFS | src/filesystem/serialize_fs.cpp:3-26 | the bytes of the tree, cut to their number modulo 2^32; all of them for fewer than 3000000 objects |
| NetworkFs.NetworkFS.DeserializeToFileContent | src/filesystem/serialize_fs.cpp:28-44 | true exactly for accepted messages, which Language.AcceptedIffSpelled describes; in any case the target and the new objects match the parsed graph, one object for each node |
| NetworkFs.ShipAndLoad | src/main.cpp:46-53 | serialise, ship, load: accepted if and only if the byte count fits 32 bits, so always for fewer than 3000000 objects, and then the copy is isomorphic to the tree, object by object, and made of new objects |
| NetworkFs.GraphsCanOutgrowTheCount | src/filesystem/serialize_fs.cpp:22-23 | a graph within every limit whose bytes do not fit the 32-bit count |
| NetworkFs.SmallGraphsFit | src/filesystem/serialize_fs.cpp:22-23 | the bytes of every graph of fewer than 3000000 objects fit the 32-bit count |
| Truncation.ChainSize | src/filesystem/serialize_fs.hpp:18-28 | a chain of n directories with full names takes at least 64 bytes for each |
| NetworkFs.LoadedIsCopy | src/filesystem/serialize_fs.cpp:28-44 | an isomorphic heap loaded into memory is a copy of the original objects |
| Merge.MergeIsAssociative | src/filesystem/network_fs.hpp:126-145 | merging b then c into a equals merging (c into b) into a, as exact trees with sibling order, if sibling directory names are unique in b and below the top level of c, and no path of b and c, or of c alone, is both File and directory; nothing is asked of a |
| Merge.MergeOfInsert | src/filesystem/network_fs.hpp:126-145 | inserting an entry before or after merging into a is the same |
| Merge.MergeInTwoParts | src/filesystem/network_fs.hpp:128-144 | the loop over the children can be cut anywhere |
| Merge.InsertsCommute | src/filesystem/network_fs.hpp:130-143 | a directory merged into an entry commutes with whatever does not touch that entry |
| Merge.MergeIsClean | src/filesystem/network_fs.hpp:126-145 | sibling directory names stay unique at every level |
| Merge.MergeAgrees | src/filesystem/network_fs.hpp:126-145 | agreement of File and directory names with a third tree is kept |
| Merge.AssociativityNeedsUniqueNames | src/filesystem/network_fs.hpp:130-142 | with two directories of one name in b the two merges differ |
| Merge.AssociativityNeedsOneKind | src/filesystem/network_fs.hpp:133-142 | with a File and a directory of one name in c the two merges differ |
| MergeTotal.MergeConservesFiles | src/filesystem/network_fs.hpp:126-145 | for every path and content, the number of File nodes after a merge is the sum of both sides', unconditionally |
| MergePaths.PathsOfMerge | src/filesystem/network_fs.hpp:126-145 | the paths of a merge are exactly those of both sides, empty directories included |
| MergePaths.PathsOfTotal | src/filesystem/network_fs.hpp:148-174 | so are the paths of a total |
| MergePaths.MergeGrows | src/filesystem/network_fs.hpp:126-145 | every entry of the first tree stays at its place with its type, name and data, at every level |
| MergeTotal.TotalFiles | src/filesystem/network_fs.hpp:158-172 | exactly what a list of top-level entries brings in and what it loses, at every path |
| MergeTotal.TotalConservesIff | src/filesystem/network_fs.hpp:148-192 | files are conserved at every path if and only if no top-level File repeats a name |
| MergeTotal.RepeatedFileIsLost | src/filesystem/network_fs.hpp:161-171 | two top-level Files of one name: the second is gone |
| MergeTotal.OrderKeepsFiles | src/filesystem/network_fs.hpp:148-174 | for directories the order of the list does not change the files at any path |
| MergeTotal.TotalsCombine | src/filesystem/network_fs.hpp:148-174 | the total of a list is the total of its first part merged with the total of the rest |
| MergeTotal.TotalIsClean | src/filesystem/network_fs.hpp:148-192 | sibling directory names stay unique at every level of a total |
| MergeInPlace.MergeSingleFileContent | src/filesystem/network_fs.hpp:126-145 | the mutating recursion leaves file1 equal to the functional merge, sharing the objects of file2, and changes nothing but the `contents` of the objects named in its frame |
| Messages.MessageRead | src/filesystem/serialize_fs.hpp:16-30 | the graph of a message written out in bytes, with the type bytes of its entry left open |
| Messages.MessagesMerge | src/filesystem/network_fs.hpp:126-145 | two such trees: an entry of type 1 never merges, any other one merges into the first entry of its name, and files in it stay even with one name |
| Messages.MergeTwoMessages | src/filesystem/network_fs.hpp:126-145 | the two messages loaded and merged in memory: one directory with both files, or two entries if the second came with type 1 |
| MergeInPlace.MergeChild | src/filesystem/network_fs.hpp:130-143 | one round appends the child or merges it into the first entry of its name |
| MergeInPlace.FindByName | src/filesystem/network_fs.hpp:130-131 | the index of the first entry of that name, or the length |
| MergeInPlace.SecondTreeUntouched | src/filesystem/network_fs.hpp:126-145 | if no directory repeats an earlier sibling's name, everything reachable from file2 stays as it is |
| MergeInPlace.MergedDistinct | src/filesystem/network_fs.hpp:138-142 | the merged tree still holds no object twice |
| MergeInPlace.RoundFrame | src/filesystem/network_fs.hpp:128-144 | a round touches neither file2 itself nor the children still to come |
| MergeLists.PutChild | src/filesystem/network_fs.hpp:158-172 | one top-level entry: appended or merged, File or not |
| MergeLists.AddAsChildDirectory | src/filesystem/network_fs.hpp:176-192 | the children of the root become the fold over the list; only the `contents` of the named objects change |
| MergeLists.ListUntouchedIff | src/filesystem/network_fs.hpp:161-170 | the frame names no object besides the root if and only if no name repeats |
| MergeLists.TotalObjects | src/filesystem/network_fs.hpp:148-192 | a total holds no object twice and only objects of the list |
| NetworkFs.NetworkFS.MergeDiff | src/filesystem/network_fs.hpp:213-221 | one more tree under the global root, in place, changing only the `contents` of the named objects |
| NetworkFs.MergeDiffs | src/filesystem/network_fs.hpp:213-221 | trees arriving one by one give the children of the total of the list |
| NetworkFs.MergeTotalFileContent | src/filesystem/network_fs.hpp:148-174 | a new root, named, with address zero and the total of the list as its children |
| Sharing.ShipAndMerge | src/filesystem/network_fs.hpp:210-221 | ship a tree, merge what arrives: the receiver's tree, with addresses, becomes the merge of its old tree and the sender's, if and only if the bytes fit 32 bits, which those of fewer than 3000000 objects do; the sender's tree stays |
| Sharing.CopyIsTree | src/filesystem/serialize_fs.cpp:28-44 | the copy of a tree is a tree again, in its own objects, with equal types, names, addresses and order |
| Sharing.TreeIsSerializable | src/filesystem/serialize_fs.hpp:16-30 | a tree in memory within the limits meets every assert of the serialiser |
| Sharing.AllReached | include/serializer/bitsery/ext/utils/pointer_utils.h:290-307 | every object of a tree is reachable from its root, so all of it is shipped |
| Sharing.RenamedDistinct | include/serializer/bitsery/ext/utils/pointer_utils.h:430-443 | no object of the arriving tree occurs twice |
| Sharing.RenamedMatches | include/serializer/bitsery/ext/utils/pointer_utils.h:430-443 | the new objects are linked as the tree that was sent |
| Sharing.PictureOfMerge | src/filesystem/network_fs.hpp:126-145 | the merge depends on nothing but what a tree shows: types, names, addresses and order |
| Sharing.PictureOfPut | src/filesystem/network_fs.hpp:158-172 | and so does adding a top-level entry |

## Left out

- File cache, event queue, daemon, pipes, file tracking, shared memory, semaphores, system information and the C API: clocks, disks and operating system calls.
- Polymorphic pointers, run-time type information, memory resources and deleters: C++ type machinery that `FileContent` does not use.
- Floating-point ranges, byte swapping for big-endian hosts, unchecked adapters, stream adapters, brief syntax and the wrappers for other standard containers.
- NetworkFs.NetworkFS.DeserializeToFileContent: the target has no children yet, as after default construction. The code reuses objects that a target already holds, and if it holds one twice, two ids end up with one object.
- DeserializeFs.DeserializeNode: the same, for an object that is being filled.
- DeserializeFs.DeserializeSlot: the same, for a slot that already holds an object.
- MergeInPlace.MergeSingleFileContent: both arguments are trees without null children, each object occurring once and none in both. The code dereferences every child, recurses for ever on a cycle, and on an object in both trees can push into the vector it iterates over, which C++ leaves undefined. Sharing inside one argument is defined but not modelled.
- MergeInPlace.MergeChild: the same, for the child of one round.
- MergeLists.PutChild: the same, for a top-level entry.
- NetworkFs.NetworkFS.MergeDiff: the same, for the root and the tree that is added, so no tree is added twice.
- NetworkFs.MergeTotalFileContent: the same, for the entries of the list.
- MergeLists.AddAsChildDirectory: no object occurs twice among the root and the entries. It stands for the loop of MergeTotalFileContent as well, which is the same loop written twice in the code.
- NetworkFs.MergeDiffs: no object occurs twice among the root and the entries. Nothing in the repository calls MergeDiff; the list of calls is the caller this model supplies.
- Sharing.ShipAndMerge: the repository receives trees and merges trees but does not yet do one after the other; this method is the composition.
- NetworkFs.ShipAndLoad: the bytes reach the other side unchanged; transport and framing are not modelled.
- BitReader.InputAdapterBitPackingWrapper.ReadBits: it returns the whole number the bits stand for, so a count above the width of the target, undefined in C++, is not excluded.
- Sizes and offsets are natural numbers: overflow of `size_t` and exhaustion of memory are not modelled. The growth step computes in `double`, which is exact below 2^52 bytes.
- OutputBuffer.OutputBufferAdapter.SetCurrentWritePos: the code raises its largest position before it grows the buffer, the model after, with the same result.
- Growable.Serialize: sections begun in the middle of a byte, through the bit-packing wrapper, are left out.
- Growable.FieldEvolves: fields are fixed-size integers and nested sections; containers and pointers inside sections are left out.
- ValueRange.Serialize: integral types only; enumerations go through the same code.
- PointerLinking.RunKeepsInvariant: pointer slots are numbered and start out null; a slot that already holds an object is left out, and so is the lifetime of weakly owned objects.
- The kind of a node is a 16-bit number, as the wire does not restrict it to the two enumerators; a default-constructed node, whose type the code leaves uninitialised, is a directory.
