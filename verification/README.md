# A verified model of the nanopb codec

This project models nanopb 0.3.9.5, the Protocol Buffers codec under `ios/Pods/nanopb`, and proves what
its encoder and decoder promise each other. nanopb is driven by descriptors: an array of `pb_field_t`
entries says where each field of a C struct lies and how it is written. The encoder walks the entries
and writes records; the decoder reads records in any order, finds the entry of each by a cyclic search,
and stores the value.

The model has two layers, and an independent account of both ends of the wire.

* **Meaning.** `Encoding` assigns to a descriptor and a message the bytes that are written, or an error.
  `Decoding` assigns to a byte string and a previous state the new state and the bytes left unread, or a
  failure. Both follow the branches of the C code. The theorems are about these functions.
* **Code.** `IStream`, `OStream`, `FieldIter` and `Struct` are the objects the C code updates. The
  methods on them have the loops, buffers, limits, bitmap and substreams of the C functions, and each is
  proved to do exactly what the functions of the first layer say.
* **Format.** `WireFormat`, `Reading` and `DefaultState` say in terms of bytes and numbers alone what is on the wire and
  what it means, without the functions of the first layer; those are proved to agree.

| file | content |
|---|---|
| `Bytes`, `Varint`, `Integers` | words, bit operations, varints, zigzag, field widths |
| `Schema` | descriptors, messages, default values |
| `Encoding`, `Decoding` | the bytes of a message; the message of some bytes |
| `WireFormat`, `Conformance` | the wire format, told without the encoder; pb_encode is exactly this |
| `Reading`, `DefaultState` | what single records, tags and skipped fields are; what a field without a record holds |
| `ForeignReaders` | encoded messages as seen by readers that do not know their fields |
| `Locality`, `Merging`, `Concatenation`, `Packing` | how records compose, commute, merge, and may be packed |
| `Bounds` | decoded messages stay within their storage |
| `Preservation` | what decoding into a message leaves alone |
| `FixedArrays` | arrays without counter are received whole or not at all |
| `Sameness`, `Reception`, `Fidelity`, `Framing` | round trips from messages |
| `Memory`, `Normalising` | structs that hold a decoded message; round trips from bytes |
| `FieldIterator` | the cyclic iterator and the offset macros |
| `RequiredFields` | the bitmap of required fields |
| `ShortestInputs`, `MissingFields` | the shortest input a message accepts; accepted inputs that lack required fields |
| `InputStream`, `Decoder` | the decoder as methods |
| `OutputStream`, `Encoder`, `NegativeVarint` | the encoder as methods |
| `Allocation` | the size arithmetic of dynamically allocated arrays |

## How the C code is represented

* A message is a typed tree (`Message`), not a memory image. A union is one cell with its which_ tag. Bytes
  nobody may look at (behind an array's count, behind a string's terminator, of a union's other members)
  have no counterpart. An array without counter is represented by the elements received so far; the
  decoder's `fixed_count_size` is their number.
* A string value is what stands in the buffer before the terminator the decoder wrote, or the whole
  buffer when there is none, so embedded and missing terminators can both be expressed.
* A decoded message says nothing about the elements of an array without counter that were not received.
  `Memory.Holds` relates it to every struct the decoder may have left behind; statements about encoding after decoding
  are about all of these structs.
* `MessageOk(Raw, ...)` says that a message is what a C struct can hold by its type: arrays without counter have all
  their elements, a bool may be any byte, and which_ may name no member. It is all the encoder asks. In
  `MessageOk(Stored, ...)` bools are 0 or 1 and which_ names a member or is 0. `MessageOk(Decoded, ...)` says that a
  message stays within the storage the descriptor reserves. `MessageOk(Shaped, ...)` only says that its values are of
  the right kinds; it is all the decoder asks of a struct it merges into.
* `FieldsOk` is what the descriptor generator guarantees: distinct tags from 1 to 2^29 - 1, data sizes that match the
  type, no default value for a proto3 field.
* PB_MAX_REQUIRED_FIELDS has its default value 64.
* The widths of `pb_size_t`, `size_t` and pointers are constants without a value: every result holds for all of
  them. `uint_fast8_t` has 8 bits, as on Apple platforms, so the 32-bit reader's bit position wraps at 256.
* The conversion of a length to `uint64_t` and all other casts are written out; byte counters themselves are unbounded.

## What turned out not to hold for all inputs

Each item names the theorem with the exact condition and a lemma with an input that fails.

* The round trip fails when a string fills its buffer without a terminator: the encoder writes it and the
  decoder rejects what was written (`Fidelity.RoundTrip`, `Fidelity.UnterminatedIsRejected`).
* Decoding x ++ y is merging y into the result of x, unless y starts with the array without counter that x ended
  with: then the concatenation is rejected (`Concatenation.ConcatenationIsMerging`,
  `Concatenation.ResumedArrayIsRejected`).
* A struct that was decoded into is not always encoded as the same message. An array without counter that never
  occurred is accepted, keeps stale elements, and is written with all of them, or is an encoding error. Encoding and
  decoding again give the message exactly when every such array that is written was received
  (`Normalising.DecodeEncodeDecode`, `Normalising.UnsetArrayFails`).
* The comment on `pb_decode_noinit` in the header says that merging updates only the fields present in the new
  input. That is so for the fields of the message and of its required and optional submessages. A submessage in a
  union is reset to its defaults by every record, so what the record does not mention survives exactly when it was
  the default already (`Preservation.UnionSubmessageStartsAfresh`, `Preservation.UnionMemberForgets`).
* The 32-bit varint reader accepts varints of more than ten bytes which the 64-bit reader rejects; on everything else
  the 32-bit reader accepts they agree (`Varint.ReadersAgree`, `Varint.PaddedZero`).
* An accepted input may lack required fields: only 64 are tracked. Every accepted input has all of them exactly when
  there are at most 64, or no input is accepted at all (`MissingFields.AllOccurIff`,
  `MissingFields.LastOf65Missing`).
* Not every message accepts some input: the bodies of its required submessages may take 2^32 bytes or more. It does
  exactly when the least size of each, computed from the descriptor, is below that (`ShortestInputs.ShortestAccepted`,
  `ShortestInputs.DoublingAcceptsNothing`).
* A proto3 submessage that would be written empty is left out, unless it has an array without counter or a which_ that
  names no member: then an empty record is written (`Normalising.DefaultIffEmpty`, `Normalising.StaleWhich`).
* The iterator takes two adjacent unions for one when they lie exactly PB_SIZE_MAX bytes apart
  (`FieldIterator.OffsetsInvertMacros`, `FieldIterator.FarUnionsConfused`).

## Model

| member | source | states |
|---|---|---|
| Fidelity.RoundTrip | ios/Pods/nanopb/pb_decode.c:925-1087 | decoding what pb_encode wrote consumes all of it and returns a message that agrees on every readable field, for every struct, if and only if every string written is terminated in its buffer; otherwise decoding fails |
| Conformance.EncodeIff | ios/Pods/nanopb/pb_encode.c:144-541 | for every struct, pb_encode writes s if and only if s are the bytes the format assigns to the message (varints, sign extension, zigzag, little-endian words, tags with wire types 0, 1, 2, 5, packed numeric arrays, omitted proto3 zeros, entries in order) and every written bytes value and array fits |
| Conformance.MessageUnique | ios/Pods/nanopb/pb_encode.c:519-541 | the format leaves one byte string for a message |
| Conformance.WritableIff | ios/Pods/nanopb/pb_encode.c:144-159 | the exact error condition of pb_encode |
| Conformance.IntWritten | ios/Pods/nanopb/pb_encode.c:767-824 | the varint of a signed, unsigned or zigzag field is that of n, n + 2^64, 2n or -2n-1 |
| Conformance.NegativeTakesTen | ios/Pods/nanopb/pb_encode.c:767-791 | a negative value of a plain signed field of any width takes ten bytes |
| ForeignReaders.ForeignMessageAccepted | ios/Pods/nanopb/pb_encode.c:666-706 | a reader without required fields and without a tag in common accepts every encoded message and leaves its struct alone: the wire type of each record fits the form of its value |
| ForeignReaders.TaggedForm | ios/Pods/nanopb/pb_encode.c:666-706 | the tag of a record is the field's, with wire type 0, 1, 2 or 5 by LTYPE |
| ForeignReaders.NumericArrayForm | ios/Pods/nanopb/pb_encode.c:160-203 | a non-empty array of bools, integers or fixed-width numbers is one length-delimited record of its elements |
| ForeignReaders.OtherArrayForm | ios/Pods/nanopb/pb_encode.c:204-230 | an array of any other type is one record for each element |
| Reading.Varint64Reads | ios/Pods/nanopb/pb_decode.c:255-275 | the base-128 sum modulo 2^64 of at most ten bytes |
| Reading.Varint32Reads | ios/Pods/nanopb/pb_decode.c:187-247 | the base-128 sum modulo 2^32 of at most ten bytes, if they fit |
| Reading.SkipTakes | ios/Pods/nanopb/pb_decode.c:321-331 | wire type 0 skips through the first byte below 128, 1 and 5 skip eight and four bytes, 2 a length and its bytes, all others are errors |
| Reading.TagRead | ios/Pods/nanopb/pb_decode.c:298-319 | a tag is 8 times a number plus a wire type; only zero as a whole ends the message |
| Reading.TagNumberZero | ios/Pods/nanopb/pb_common.c:78-95 | in a message without fields the terminator entry takes a record with tag number 0 |
| Reading.NumberRead | ios/Pods/nanopb/pb_decode.c:1318-1412 | the bool or integer stored, and when it is rejected, from the number on the wire |
| Reading.FixedRead | ios/Pods/nanopb/pb_decode.c:1283-1316 | four or eight bytes, the lowest first |
| Reading.BlobRead | ios/Pods/nanopb/pb_decode.c:1431-1548 | exactly the lengths that fit are accepted and as many bytes are stored; an empty fixed-length value stands for zeros |
| Reading.PackedSplits | ios/Pods/nanopb/pb_decode.c:424-451 | an accepted packed payload splits into values, and the array has room for them |
| Reading.BadRecordRejects | ios/Pods/nanopb/pb_decode.c:943-1021 | one bad tag, value or unknown record fails the message, whatever came before |
| Reading.WireTypeIgnored | ios/Pods/nanopb/pb_decode.c:406-480 | the wire type of a known field matters only for arrays of numbers |
| Reading.LastOneWins | ios/Pods/nanopb/pb_decode.c:415-422 | a singular field ends up with the value of its last record |
| Reading.SubmessageRecord | ios/Pods/nanopb/pb_decode.c:1503-1525 | a record of a singular submessage is merged into what the field held |
| Reading.ElementRecord | ios/Pods/nanopb/pb_decode.c:1514-1518 | an element of a submessage array is decoded on its own, behind those before it |
| Reading.UnionRecord | ios/Pods/nanopb/pb_decode.c:466-475 | a record of a union's member replaces whatever the union held |
| DefaultState.UnmentionedAtDefault | ios/Pods/nanopb/pb_decode.c:836-919 | in an accepted message every field without a record holds its declared default, else zero, with cleared flags, empty arrays and no current union member, at every depth |
| DefaultState.FreshSubmessageAtDefault | ios/Pods/nanopb/pb_decode.c:466-475 | so do members of unions and elements of arrays |
| DefaultState.DefaultArrives | ios/Pods/nanopb/pb_decode.c:878-887 | an optional number with default 5 holds 5 after the empty input |
| Normalising.ImplicitSilentIff | ios/Pods/nanopb/pb_encode.c:256-328 | exactly the proto3 values that vanish are left out: zero numbers, empty blobs, submessages whose fields all vanish |
| Normalising.DefaultIffVanishes | ios/Pods/nanopb/pb_encode.c:237-328 | pb_check_proto3_default_value on a message, as a condition on its values alone |
| Fidelity.ReceivedSame | ios/Pods/nanopb/pb_encode.c:519-541 | what arrives, absent proto3 fields included, cannot be told from what was sent |
| Fidelity.SameSameBytes | ios/Pods/nanopb/pb_encode.c:332-417 | messages that cannot be told apart are encoded as the same bytes, so the relation used by the round trip hides nothing the encoder can see |
| Fidelity.UnterminatedIsRejected | ios/Pods/nanopb/pb_decode.c:1468-1501 | a one-byte string buffer holding a character: encoded, and its encoding rejected |
| Normalising.ReEncode | ios/Pods/nanopb/pb_encode.c:519-541 | encoding any struct that holds a decoded encoding reproduces the bytes |
| Reception.FieldsReceived | ios/Pods/nanopb/pb_decode.c:943-1021 | from any entry on, the records written take the decoder from the state before to the state after the remaining entries, whatever follows, or fail exactly at an unterminated string |
| Reception.MessageReceived | ios/Pods/nanopb/pb_decode.c:1503-1525 | the exact decoded message for every nesting of submessages, arrays and unions |
| Reception.PackedReceived | ios/Pods/nanopb/pb_decode.c:424-451 | a packed payload appends exactly the encoded elements |
| Reception.UnpackedReceived | ios/Pods/nanopb/pb_decode.c:453-464 | tagged elements append one by one, with and without counter |
| Normalising.DecodedEncodes | ios/Pods/nanopb/pb_encode.c:144-233 | when the arrays without counter that are written were received, every struct that holds a message within the decoder's bounds is encoded without error, as the same bytes, all strings terminated |
| Normalising.DecodeEncodeDecode | ios/Pods/nanopb/pb_encode.c:388-399 | for any accepted bytes, canonical or not, and any struct that holds their message: encoding the struct and decoding again give the same message, if and only if every array without counter that is written was received |
| Normalising.DecodeEncodeDecodeWithCounts | ios/Pods/nanopb/pb_encode.c:388-399 | for descriptors without such arrays, decoding, encoding and decoding again always gives the same message |
| Normalising.UnsetArrayFails | ios/Pods/nanopb/pb_encode.c:388-399 | the empty input leaves an array unset that cannot be encoded |
| Memory.SomeStructHolds | ios/Pods/nanopb/pb_decode.c:836-919 | every message the decoder can produce is held by some struct |
| Memory.HeldIsSame | ios/Pods/nanopb/pb_encode.c:388-399 | a struct that holds a message whose arrays were all received cannot be told from it |
| Normalising.DefaultIffEmpty | ios/Pods/nanopb/pb_encode.c:237-328 | a proto3 submessage counts as default exactly when it would have been written empty and has neither an array without counter nor a which_ that names no member |
| Normalising.StaleWhich | ios/Pods/nanopb/pb_encode.c:255-259 | a union with a stale which_: nothing is written, yet it is not default |
| Bounds.DecodedInBounds | ios/Pods/nanopb/pb_decode.c:406-480 | any bytes whatever leave integers, strings, bytes, counts and which_ tags within the bounds of the descriptor |
| FixedArrays.ArraysFullOrUntouched | ios/Pods/nanopb/pb_decode.c:986-1007 | in an accepted message an array without counter is full if it has a record and unchanged if it has none |
| FixedArrays.DecodedWhole | ios/Pods/nanopb/pb_decode.c:1023-1028 | no accepted message, nor any of its submessages, holds part of an array without counter |
| Preservation.MergingKeepsTheRest | ios/Pods/nanopb/pb_decode.c:925-1073 | decoding into a message changes only fields and unions that have a record in the input |
| Preservation.SubmessageKeepsTheRest | ios/Pods/nanopb/pb_decode.c:1503-1525 | a record of a required or optional submessage changes only what has a record in its payload |
| Preservation.UnionSubmessageStartsAfresh | ios/Pods/nanopb/pb_decode.c:466-475 | a record of a submessage in a union sets what it does not mention to the default, and keeps what the union held there if and only if that was the default |
| Preservation.UnionMemberForgets | ios/Pods/nanopb/pb_decode.c:466-475 | a field of a union's submessage that is lost without a record of it |
| Bounds.NoInitInBounds | ios/Pods/nanopb/pb_decode.c:925-1073 | the same for decoding into an existing message |
| Bounds.MessageIncluded | ios/Pods/nanopb/pb_decode.c:925-1073 | what the decoder and the encoder ask of a struct holds of every struct a caller fills in properly, and the decoder's of every struct |
| Bounds.AcceptsWhatFits | ios/Pods/nanopb/pb_decode.c:1329-1412 | an integer field accepts a wire value exactly when it fits the field, and stores it |
| Locality.DecodeRecordLocal | ios/Pods/nanopb/pb_decode.c:957-1020 | a record's effect depends only on the bytes it consumes |
| Locality.RecordsCompose | ios/Pods/nanopb/pb_decode.c:943-1021 | decoding whole records and then more is decoding the more from the state reached |
| Concatenation.ConcatenationIsMerging | ios/Pods/nanopb/pb_decode.c:925-1073 | x ++ y decodes to y merged into the result of x, with the same rest, if and only if y does not resume the array without counter x ended with; then it is rejected |
| Concatenation.RecordsConcatenate | ios/Pods/nanopb/pb_decode.c:1023-1070 | the same for records alone: the concatenation is accepted if and only if the two together have the required fields and no array is resumed |
| Concatenation.ResumedArrayIsRejected | ios/Pods/nanopb/pb_decode.c:986-1007 | two byte strings that decode one after the other and whose concatenation is rejected |
| Concatenation.RecordsCollide | ios/Pods/nanopb/pb_decode.c:986-1007 | a second complete run over the array without counter that is already full always fails |
| Merging.UnknownRecordTransparent | ios/Pods/nanopb/pb_decode.c:278-331 | a record of an unknown tag can be inserted between any two records without any effect |
| Merging.SwapRecords | ios/Pods/nanopb/pb_decode.c:957-1020 | swapping adjacent records of independent fields changes neither message, rest nor success |
| Packing.PackedAndUnpackedAgree | ios/Pods/nanopb/pb_decode.c:424-464 | any split of an element list into packed chunks and single records extends the array by the same elements, from the front when an array without counter is begun, and succeeds exactly when it has room |
| Framing.FramesRoundTrip | ios/Pods/nanopb/pb_decode.c:1104-1117 | a stream of delimited messages decodes one by one to the same messages, leaving exactly what follows |
| Framing.NullTerminatedRoundTrip | ios/Pods/nanopb/pb_encode.c:548-556 | a zero-terminated message decodes to the same message and leaves what follows the zero unread |
| Varint.VarintRoundTrip | ios/Pods/nanopb/pb_encode.c:599-619 | every uint64 takes 1 to 10 bytes and reads back, whatever follows |
| Varint.EncVarintShortest | ios/Pods/nanopb/pb_encode.c:599-619 | no bytes that read as n are fewer than the encoder's |
| Varint.ReadersAgree | ios/Pods/nanopb/pb_decode.c:187-275 | what the 32-bit reader accepts the 64-bit reader accepts exactly up to ten bytes, with equal extent and values equal modulo 2^32 |
| Varint.Varint32Accepts | ios/Pods/nanopb/pb_decode.c:187-247 | of the inputs that end within ten bytes, exactly which overflow the 32-bit reader |
| Varint.PaddedZero | ios/Pods/nanopb/pb_decode.c:213-236 | an eleven-byte zero on which the two readers disagree |
| Varint.Varint32RoundTrip | ios/Pods/nanopb/pb_decode.c:187-252 | the 32-bit reader takes the canonical form of every uint32 |
| Varint.Varint32ReadsNegative | ios/Pods/nanopb/pb_decode.c:223-236 | the 32-bit reader takes the ten-byte form of every negative int32 and returns its two's complement |
| Integers.ZigZagRoundTrip | ios/Pods/nanopb/pb_encode.c:621-630 | zigzag is undone by the decoder for every int64 |
| Integers.UnZigZagRoundTrip | ios/Pods/nanopb/pb_decode.c:1269-1281 | every uint64 is the zigzag of the value it decodes to, which fits int64 |
| Integers.CastKeepsExactlyWhatFits | ios/Pods/nanopb/pb_decode.c:1350-1361 | cast and compare accepts exactly the values of the field's width |
| Sameness.IntReceived | ios/Pods/nanopb/pb_encode.c:767-824 | every in-range value of every signed, unsigned and zigzag field of 8 to 64 bits round-trips |
| RequiredFields.AcceptedIffRequiredOccur | ios/Pods/nanopb/pb_decode.c:1030-1070 | if all records decode and the arrays are complete, the message is accepted exactly when each of the first 64 required fields has a record |
| RequiredFields.MarkKeepsBitmap | ios/Pods/nanopb/pb_decode.c:1012-1017 | marking keeps the bitmap equal to the set of required fields seen, with no other bit ever set |
| RequiredFields.WordComplete | ios/Pods/nanopb/pb_decode.c:1052-1068 | comparing a word with ones for equality decides whether all its fields occurred |
| RequiredFields.AllRequiredSeen | ios/Pods/nanopb/pb_decode.c:1030-1070 | the word comparisons decide whether the first 64 required fields were all seen |
| RequiredFields.CountRequired | ios/Pods/nanopb/pb_decode.c:1036-1045 | driving the iterator to its end counts the required fields |
| ShortestInputs.ShortestAccepted | ios/Pods/nanopb/pb_decode.c:925-1073 | a message accepts some input if and only if the least bodies of its tracked required submessages are below 2^32 bytes; then the least payload is accepted, and no accepted input is shorter |
| ShortestInputs.DoublingAcceptsNothing | ios/Pods/nanopb/pb_decode.c:372-385 | a descriptor 33 levels deep that rejects every input |
| MissingFields.AllOccurIff | ios/Pods/nanopb/pb_decode.c:1012-1070 | every accepted input has a record of every required field, if and only if there are at most 64 required fields or no input is accepted, which the descriptor decides |
| MissingFields.AllOccurIffUpTo64 | ios/Pods/nanopb/pb_decode.c:1047-1048 | without required submessages the number of required fields decides alone |
| MissingFields.LastOf65Missing | ios/Pods/nanopb/pb_decode.c:1047-1048 | 64 records of a message with 65 required fields are accepted |
| FieldIterator.OffsetsInvertMacros | ios/Pods/nanopb/pb.h:393-413 | for entries that fit pb_field_t, the iterator's sums give every member's offset in the struct, and its flag's, if and only if no adjacent unions lie PB_SIZE_MAX apart |
| FieldIterator.FarUnionsConfused | ios/Pods/nanopb/pb_common.c:43-52 | two unions, the first with a long string and a bool, whose members the iterator puts at one offset |
| FieldIterator.FieldIter.Begin | ios/Pods/nanopb/pb_common.c:8-18 | the iterator is canonical at the first entry |
| FieldIterator.FieldIter.Next | ios/Pods/nanopb/pb_common.c:20-76 | the next entry, or the first with result false; pointers and required index stay those of the entry |
| FieldIterator.FieldIter.Find | ios/Pods/nanopb/pb_common.c:78-95 | the first match going round from the current entry, or the same position when there is none |
| FieldIterator.FoundIsUnique | ios/Pods/nanopb/pb_common.c:78-95 | with distinct tags the entry found does not depend on the starting position |
| InputStream.IStream.Read | ios/Pods/nanopb/pb_decode.c:102-137 | exactly count bytes are taken, or none when fewer are left |
| InputStream.IStream.DecodeVarint32Eof | ios/Pods/nanopb/pb_decode.c:187-247 | the loop computes the 32-bit reader and never moves the end of the input |
| InputStream.IStream.DecodeVarint64 | ios/Pods/nanopb/pb_decode.c:255-275 | the loop returns the base-128 sum modulo 2^64 of at most ten bytes |
| InputStream.IStream.ReadTag | ios/Pods/nanopb/pb_decode.c:298-319 | tag, terminator or error |
| InputStream.IStream.SkipField | ios/Pods/nanopb/pb_decode.c:321-331 | skips exactly the value of the wire type |
| InputStream.IStream.MakeSubstream | ios/Pods/nanopb/pb_decode.c:372-385 | the substream sees exactly the payload and the parent keeps the rest |
| InputStream.IStream.CloseSubstream | ios/Pods/nanopb/pb_decode.c:387-400 | the parent continues behind the payload, however much of it was read |
| Decoder.DecodeStaticField | ios/Pods/nanopb/pb_decode.c:406-480 | one field record changes its slot or union cell as specified and nothing else |
| Decoder.DecPacked | ios/Pods/nanopb/pb_decode.c:424-451 | the packed loop on its substream |
| Decoder.DecSubmessage | ios/Pods/nanopb/pb_decode.c:1503-1525 | merging or fresh decoding within the limits of the payload |
| Decoder.DecBlob | ios/Pods/nanopb/pb_decode.c:1431-1548 | bytes, strings and fixed-length bytes with their size checks |
| Decoder.SetToDefaults | ios/Pods/nanopb/pb_decode.c:836-919 | every field is reset to its default, recursively |
| Decoder.DecodeTurn | ios/Pods/nanopb/pb_decode.c:943-1020 | each turn of the loop strictly consumes input and keeps message, bitmap and iterator consistent |
| Decoder.DecodeMessageNoInit | ios/Pods/nanopb/pb_decode.c:925-1073 | the whole decoder terminates on all bytes and any struct to merge into, stays within the stream's limit, and computes Decoding.DecodeNoInit |
| Decoder.DecodeMessage | ios/Pods/nanopb/pb_decode.c:1075-1087 | the same from default values |
| Decoder.DecodeDelimitedMessage | ios/Pods/nanopb/pb_decode.c:1104-1117 | one frame is consumed, its message decoded |
| OutputStream.SizingDecidesWriting | ios/Pods/nanopb/pb_encode.c:103-121 | writing succeeds exactly when sizing does and the size fits, and takes exactly that size |
| OutputStream.EmitThen | ios/Pods/nanopb/pb_encode.c:103-121 | two writes are one write of both, including the bytes left alone |
| OutputStream.OStream.Write | ios/Pods/nanopb/pb_encode.c:74-121 | stores exactly the given bytes at the position, or fails without touching anything outside the limit |
| OutputStream.OStream.WriteVarint | ios/Pods/nanopb/pb_encode.c:599-619 | the ten-byte buffer always suffices and the shortest form is written |
| Encoder.WriteSubmessage | ios/Pods/nanopb/pb_encode.c:708-756 | two passes: the size measured is the size written, so "submsg size changed" cannot happen |
| Encoder.WriteArray | ios/Pods/nanopb/pb_encode.c:144-233 | packed or unpacked array, or an error when the count exceeds the array |
| Encoder.PackedSize | ios/Pods/nanopb/pb_encode.c:167-189 | the computed size of a packed array is the size of its elements |
| Encoder.WriteField | ios/Pods/nanopb/pb_encode.c:332-417 | one entry is written as specified |
| Encoder.CheckAllDefault | ios/Pods/nanopb/pb_encode.c:286-305 | the iterator loop over a submessage decides whether all its fields are default |
| Encoder.WriteMessage | ios/Pods/nanopb/pb_encode.c:519-541 | on sizing streams and buffers alike, for every struct, exactly Encoding.Encode is emitted, or nothing outside the limit is touched |
| Encoder.WriteDelimited | ios/Pods/nanopb/pb_encode.c:543-546 | the size of the message and the message |
| Encoder.WriteNullTerminated | ios/Pods/nanopb/pb_encode.c:548-556 | the message and a zero byte |
| Encoder.GetEncodedSize | ios/Pods/nanopb/pb_encode.c:558-567 | the exact size of the encoding |
| NegativeVarint.WriteNegativeVarint | ios/Pods/nanopb/pb_encode.c:574-596 | with 32-bit arithmetic only, exactly the ten bytes of the 64-bit sign extension |
| NegativeVarint.Slide | ios/Pods/nanopb/pb_encode.c:580-592 | each step of the sliding window is one septet of the 64-bit value; the window is empty after the tenth and not before |
| Allocation.SizesAcceptable | ios/Pods/nanopb/pb_decode.c:491-517 | non-zero sizes are accepted exactly when their product fits size_t |
| Allocation.DecodePackedPointer | ios/Pods/nanopb/pb_decode.c:587-647 | every element is stored inside the last allocation of at most PB_SIZE_MAX elements; only payloads with too many or bad elements are rejected, unless PB_SIZE_MAX elements need more memory than there is |

## Left out

- Callback fields and custom stream callbacks: user code behind function pointers; streams are memory buffers or the sizing stream.
- Extensions: linked lists of user handlers; `find_extension_field` is absent, unknown tags are skipped.
- Pointer fields (PB_ENABLE_MALLOC), `pb_release` and the heap: only the size and growth arithmetic of packed arrays is modelled; `FieldsOk` admits static fields only.
- Update in place of the destination struct: an embedded struct is decoded in a `Struct` of its own and copied back, so aliasing between parent and child memory is not expressed; contents after a failed decode are not described.
- The elements of an array without counter that was not received: the model says how many were received, and `Memory.Holds` allows any others. (pb_message_set_to_defaults writes a zero pb_size_t over the first bytes of such an array and leaves the rest.)
- Bounds.DecodedInBounds: bounds the elements that were received; an array without counter that has no record keeps what the struct held there before.
- Fidelity.SameSameBytes: for messages whose which_ tags name members or are 0; a stale which_ cannot be received, but makes a proto3 submessage be written.
- Normalising.ReEncode: for properly filled structs, for the same reason.
- Decoder.DecodeKnown: the number of elements received is the length of the slot, so there is no counter variable for the iterator's count pointer to be redirected to.
- Error message strings, struct packing, the type byte's bit fields, the AVR workaround, UTF-8 and the meaning of floats (raw words).
- PB_ENCODE_ARRAYS_UNPACKED and PB_BUFFER_ONLY builds, and wrap-around of `size_t` byte counters.
- Descriptors with tag 0 or repeated tags; the terminator entry of an empty message is modelled.
- Merging.SwapRecords: excludes two members of one union and two arrays without counter, whose order matters.
