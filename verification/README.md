# Verified models of the codec and protocol code bundled with treena

This Dafny project models three pieces of library code that the treena app ships and
proves their promises. `dafny verify dfyconfig.toml` checks everything.

**nanopb, the protobuf codec** (`pb_common.c`, `pb_encode.c`, `pb_decode.c`), in its
default configuration: memory-buffer streams, static allocation, 64-bit integers. It is
modelled twice. The functions of `Encoding` and `Decoding` say which bytes a message has
and what a byte string does to a message; the classes and methods of `FieldIterator`,
`InputStream`, `OutputStream`, `RequiredFields`, `Encoder` and `Decoder` follow the C code
statement by statement - cyclic iterator, varint loops with their 8-bit shift counters,
substreams, one shared counter for fixed-count arrays, two 32-bit words of required-field
bits, the sizing pass before each submessage - and each method is proved to compute its
function. On the functions stand the theorems: round trip, forward compatibility,
injectivity, merging by concatenation with its exact exception, at top level and inside
submessages, packed against unpacked arrays, delimited and zero-terminated streams, exact
acceptance of every scalar and payload, and soundness of decoding arbitrary bytes.

| module | content |
|---|---|
| `Bits`, `Varint`, `Scalars` | machine words, the two varint readers, C casts, ZigZag, fixed width |
| `Descriptor` | field descriptors, struct members, default contents |
| `Encoding`, `Decoding` | bytes of a message; effect of bytes on a message |
| `Records`, `Projection`, `DefaultsProjected`, `Progress`, `Compatibility`, `RoundTrip` | a message read back, under its own descriptor or a view of it |
| `Merging`, `DecodeSafety`, `Reencoding` | concatenated input; arbitrary input; sending on what was received |
| `SubmessageMerging`, `RepeatedRecords` | fields that occur in several records, packed or not |
| `ZeroFields`, `WireFormat` | what takes no bytes; the wire format by its numbers, and exactly which bytes each reader accepts |
| `FieldIterator`, `InputStream`, `RequiredFields`, `Decoder` | the decoder as the C code performs it |
| `OutputStream`, `Encoder` | the encoder as the C code performs it |
| `EndToEnd` | measuring and writing, writing and reading back, through the streams |
| `Authentication`, `AuthenticationRuns` | lock sections of the interceptor; all their interleavings |
| `AuthenticationOutcomes`, `AuthenticationOrder` | what handlers are called with, and in which order |
| `AuthenticationLimits`, `AuthenticationFreshness` | runs that show where its guarantees end; which credential is refreshed |
| `FormComponent`, `KeyEncoding` | form-encoding tree update; key case conversion |

A struct is a map from its members to slots, one slot per field and one per oneof. The C
integer types appear as explicit ranges, remainders and casts. Decoding an item into memory
that nothing initialised is visible in the model as the value `Undefined`.

**Alamofire's AuthenticationInterceptor**. Every lock section is a function on the locked
state and a method of a class that updates the fields. A system adds threads, the serial
dispatch queue and outstanding refreshes; an action lets one of them take one step, with
the answers of the authenticator, the credential and the clock chosen freely. The public
credential setter goes through the property wrapper and is therefore two lock sections: one
copies the whole state out, one writes the whole copy back. A lock section in between is
undone, so conservation of handlers, one refresh at a time and the window bound do not hold
of every interleaving. The invariant behind them holds throughout a run exactly when no copy
written back in it is out of date, which a client can arrange by setting the credential only
while no request is being adapted or retried and no refresh is in flight. It is assumed that each call of `adapt` and
`retry` is a call of its own, that `authenticator.refresh` completes once, and that the
clock does not go back.

**Alamofire's URLEncodedFormEncoder**: the recursive tree update `set(_:to:at:)` and the
word-splitting loop `convert`.

Where code and documentation differ the model follows the code. The encoder accepts strings
that fill their buffer without a terminator, which its decoder refuses (`StringReadBack`
states exactly when). Concatenated encodings do not always merge, as the Protocol Buffers
Encoding specification ("Last One Wins") would have it, when a fixed-count array is sent
twice (`ConcatenationMerges`, `FixedArraysDoNotMerge`). A varint of more than 37 padded bytes is
read as a wrong number (`CounterWraps`). Setting the interceptor's credential
while it works can lose requests (`SetterLosesHandler`), and `retry` can have a credential
refreshed again that a refresh has just replaced, which its guards are documented to avoid
(`RetryRefreshesCurrent` states exactly when, `CompletedRefreshMakesStale` gives a run). Setting a form value at an index
beyond the end of an array appends it elsewhere (`ReadBack`).

## Model

| member | source | states |
|---|---|---|
| RoundTrip.MessageRoundTrip | treena/Pods/nanopb/pb_decode.c:1078-1090 | every message set up as documented, of any well-formed descriptor tree, is accepted by the encoder, and decoding its bytes gives the equal message and leaves no bytes |
| RoundTrip.ForwardCompatible | treena/Pods/nanopb/pb_decode.c:946-1024 | bytes written under a descriptor and read under any view of it (fields removed, at any nesting depth) decode to the projection of the message; a oneof whose active member was removed reads as unset |
| EndToEnd.EncodeAndDecode | treena/Pods/nanopb/pb_decode.c:1078-1090 | encoding into a buffer and decoding what was written succeeds exactly when the bytes fit, and gives the message back |
| EndToEnd.SendList | treena/Pods/nanopb/pb_decode.c:1107-1120 | writing a list of messages delimited and reading it back through one buffer succeeds exactly when the list fits, and gives the list back |
| EndToEnd.EncodeList | treena/Pods/nanopb/pb_encode.c:552-555 | appends the delimited messages in order, and fails exactly when they do not fit |
| EndToEnd.DecodeList | treena/Pods/nanopb/pb_decode.c:1107-1120 | reading n delimited messages from any bytes |
| RoundTrip.EncodingInjective | treena/Pods/nanopb/pb_encode.c:528-550 | two messages with the same encoding are equal |
| RoundTrip.NormalEncodable | treena/Pods/nanopb/pb_encode.c:341-426 | no error branch of the encoder is taken for a message set up as documented |
| RoundTrip.StringReadBack | treena/Pods/nanopb/pb_encode.c:875-899 | the encoder accepts a string that fills its buffer without terminator; the decoder takes a string back exactly when the terminator still fits |
| RoundTrip.DelimitedRoundTrip | treena/Pods/nanopb/pb_decode.c:1107-1120 | any list of messages written delimited and back to back is read back as the same list, leaving exactly the tail that followed |
| RoundTrip.DelimitedOne | treena/Pods/nanopb/pb_encode.c:552-555 | one delimited message followed by any bytes, read under any view of its descriptor |
| RoundTrip.NullTerminatedRoundTrip | treena/Pods/nanopb/pb_encode.c:557-565 | a message closed by a zero byte decodes to itself and the decoder stops just behind the zero, whatever follows |
| Compatibility.DecodeThrough | treena/Pods/nanopb/pb_decode.c:928-1076 | decoding onto freshly initialised memory gives the projection, at every nesting depth (the induction behind the two theorems above) |
| Compatibility.WholeMessageThrough | treena/Pods/nanopb/pb_decode.c:946-1024 | the record loop works through the bytes of a whole message and goes on with whatever follows them, with nothing missing or in progress |
| Compatibility.ItemThrough | treena/Pods/nanopb/pb_decode.c:1328-1564 | one encoded value is consumed by exactly its length and stores the projected value |
| Compatibility.ArrayThrough | treena/Pods/nanopb/pb_decode.c:424-464 | the records of one array field, packed or unpacked, counted or fixed-count, fill exactly its struct member |
| Compatibility.MissingFieldThrough | treena/Pods/nanopb/pb_decode.c:960-989 | the records of a field that the reader does not know change nothing but the position |
| Compatibility.LeftOutThrough | treena/Pods/nanopb/pb_encode.c:387-396 | a field the encoder leaves out is one whose member already holds what the reader starts from |
| Records.SkipScalar | treena/Pods/nanopb/pb_decode.c:278-287 | an encoded scalar is skipped by exactly its length |
| Records.SkipLengthPrefixed | treena/Pods/nanopb/pb_decode.c:289-296 | a length-delimited payload is skipped by exactly its length |
| Records.ReadTagBytes | treena/Pods/nanopb/pb_decode.c:298-319 | the tag reader returns the field number and wire type that the tag writer was given |
| Records.SubstreamOfLengthPrefixed | treena/Pods/nanopb/pb_decode.c:372-385 | a payload written with its length is cut out exactly, and what follows stays |
| DefaultsProjected.ZeroIsDefault | treena/Pods/nanopb/pb_encode.c:240-336 | a value that the proto3 check calls zero is the value that the decoder initialises to |
| ZeroFields.ZeroExactly | treena/Pods/nanopb/pb_encode.c:240-336 | for a proto3 singular field, submessages included, the check calls a value zero exactly when it is the default |
| ZeroFields.LeftOutExactly | treena/Pods/nanopb/pb_encode.c:387-396 | such a field occupies no bytes exactly while it holds its default |
| ZeroFields.FixedLengthAlwaysWritten | treena/Pods/nanopb/pb_encode.c:240-336 | the exception: an array of fixed length is written even when it holds its default |
| ZeroFields.EmptyStringLeftOut | treena/Pods/nanopb/pb_encode.c:387-396 | a string is left out exactly when nothing stands before its terminator |
| ZeroFields.EmptyExactly | treena/Pods/nanopb/pb_encode.c:341-426 | a message without required, fixed-count and fixed-length fields has an empty wire image exactly while every field, at every depth of singular submessages, holds its default |
| ZeroFields.DefaultsTakeNoBytes | treena/Pods/nanopb/pb_encode.c:341-426 | the initialised message of such a type is written as no bytes |
| ZeroFields.EmptyMessage | treena/Pods/nanopb/pb_decode.c:839-922 | no bytes decode exactly when no field is required, to a message in which every field has its declared default or zero, flags and counts are cleared and unions empty, at every depth |
| Merging.ConcatenationMerges | treena/Pods/nanopb/pb_decode.c:928-1076 | decoding a then b in one call equals decoding b after a, for every input where the two calls succeed, exactly unless the fixed-count array last in progress in a is the first one that b receives again |
| Merging.MergeWithoutFixedArrays | treena/Pods/nanopb/pb_decode.c:928-1076 | for descriptors without fixed-count arrays concatenation is merging, with no exception |
| Merging.FixedArraysDoNotMerge | treena/Pods/nanopb/pb_decode.c:991-1013 | a concrete descriptor and six bytes for which each half is accepted and their concatenation is refused |
| Merging.RunConcat | treena/Pods/nanopb/pb_decode.c:946-1024 | the record loop does not look beyond the records it consumes |
| Merging.StepFrame | treena/Pods/nanopb/pb_decode.c:946-1024 | one record is read in the same way whatever follows it |
| Merging.ReadItemFrame | treena/Pods/nanopb/pb_decode.c:1519-1541 | one value of any type is read in the same way whatever follows it |
| SubmessageMerging.SubmessageMerges | treena/Pods/nanopb/pb_decode.c:1519-1541 | a record of a singular submessage is merged into the memory as it stands: if payload a takes it from m to m1 and payload b from m1 to m2, the joined payload takes it from m to m2 (no fixed-count arrays among its fields, no zero tag inside a) |
| SubmessageMerging.TwoRecordsAreOne | treena/Pods/nanopb/pb_decode.c:1531-1536 | in the record loop, at any state and before any further bytes, two records of one required, optional or active oneof submessage leave what one record with the joined payload leaves |
| SubmessageMerging.EmptyPayload | treena/Pods/nanopb/pb_decode.c:1531-1536 | an empty payload leaves the submessage as it is, and is refused exactly when one of its fields is required |
| SubmessageMerging.OneofStartsAfresh | treena/Pods/nanopb/pb_decode.c:466-478 | a submessage of a oneof in which another member, or none, was active is decoded from its defaults: nothing of the other member is left |
| SubmessageMerging.LastOneWins | treena/Pods/nanopb/pb_decode.c:406-483 | of two records of a field that is no submessage and no array the second alone counts, whatever their wire types |
| RepeatedRecords.PackedOrNot | treena/Pods/nanopb/pb_decode.c:424-464 | packed and unpacked records of the same scalars have the same effect on any state: on counted and fixed-count arrays, on top of earlier items, and when they do not fit |
| RepeatedRecords.RecordsAppend | treena/Pods/nanopb/pb_decode.c:454-464 | one record per item appends the items to what the array holds, exactly when there is room for all of them |
| RepeatedRecords.FullArrayRefuses | treena/Pods/nanopb/pb_decode.c:436-464 | a full array takes no further item |
| RepeatedRecords.PackedCutOff | treena/Pods/nanopb/pb_decode.c:436-449 | a packed payload that ends inside an item is refused, however many whole items come before |
| RepeatedRecords.ArrayRefusedBothWays | treena/Pods/nanopb/pb_encode.c:147-160 | the encoder refuses a counted array exactly when the decoder would have no room for what it writes |
| RepeatedRecords.FixedRefusedBothWays | treena/Pods/nanopb/pb_decode.c:991-1031 | a fixed-count array is accepted by the encoder exactly when its bytes leave the decoder with a complete one |
| DecodeSafety.DecodedMessageSound | treena/Pods/nanopb/pb_decode.c:1078-1090 | after a successful decode of arbitrary bytes every value is in the range of its field, every count is at most array_size, strings leave room for their terminator, unions hold one of their members, and an absent optional value is still the default, at every depth |
| DecodeSafety.DecodeSound | treena/Pods/nanopb/pb_decode.c:928-1076 | the same when merging arbitrary bytes into a sound struct |
| Reencoding.DecodedMessageReencodes | treena/Pods/nanopb/pb_decode.c:1078-1090 | a message decoded from arbitrary bytes is set up as documented exactly when its strings hold no NUL, its fixed-count arrays were received and no length reaches 2^32; it is then encoded without error and decodes to itself |
| Reencoding.NormalWhenKept | treena/Pods/nanopb/pb_encode.c:528-550 | the same for every sound message, however it came about |
| DecodeSafety.FixedArraysReceivedWhole | treena/Pods/nanopb/pb_decode.c:991-1031 | every fixed-count array that occurred has received all its items, although one counter serves all of them |
| DecodeSafety.ArraySound | treena/Pods/nanopb/pb_decode.c:424-464 | array reading writes only the items between the old and the new counter, and never beyond array_size |
| DecodeSafety.MissingFieldReported | treena/Pods/nanopb/pb_decode.c:1033-1073 | once the record loop ends with its fixed-count check passed, decoding succeeds exactly when each of the first 64 required fields has a record in the bytes |
| DecodeSafety.SeenIsOccurs | treena/Pods/nanopb/pb_decode.c:1015-1020 | the required fields that the loop has noted are those whose records occur in the bytes it read |
| RequiredFields.CheckRequired | treena/Pods/nanopb/pb_decode.c:1033-1073 | the word comparisons report a missing field exactly when one of the first 64 required fields is not in the set that the bitmap stands for |
| RequiredFields.MarkRequired | treena/Pods/nanopb/pb_decode.c:1015-1020 | setting a bit keeps the two words in step with the set of required fields that occurred |
| RequiredFields.CountRequired | treena/Pods/nanopb/pb_decode.c:1039-1049 | seeking to the end with the fixup for the last field counts the required fields, also for the empty message |
| RequiredFields.RanksAreFields | treena/Pods/nanopb/pb_decode.c:1033-1073 | the numbers below the count have all been seen exactly when the first 64 required fields have |
| RequiredFields.WordTest | treena/Pods/nanopb/pb_decode.c:1054-1072 | a word equals the mask of n bits exactly when n consecutive required fields were seen |
| RequiredFields.ShiftedAllBits | treena/Pods/nanopb/pb_decode.c:1066-1067 | shifting the all-ones word right leaves the mask of the remaining bits |
| FieldIterator.FieldIter.Next | treena/Pods/nanopb/pb_common.c:20-76 | after any step the cached data pointer, size pointer and required_field_index are those of a linear walk to the position; at the end it wraps to the start |
| FieldIterator.FieldIter.Begin | treena/Pods/nanopb/pb_common.c:8-18 | positions on the first field and reports whether there is one |
| FieldIterator.FieldIter.Find | treena/Pods/nanopb/pb_common.c:78-95 | the cyclic search ends, finds a field exactly when a non-extension field has the tag, stands on it, and otherwise returns to where it started |
| FieldIterator.UnionSharesData | treena/Pods/nanopb/pb_common.c:44-50 | all members of a union share the data and size pointer of its first member |
| FieldIterator.AddressIsMember | treena/Pods/nanopb/pb_common.c:72-73 | with the offsets that the generator writes, two fields have the same address exactly when they are members of one union, which is when the model gives them one struct member |
| FieldIterator.OffsetsRecovered | treena/Pods/nanopb/pb.h:391-405 | from the relative offsets that the descriptor macros compute the walk recovers the absolute addresses of every member and of its has_, count or which_ field, also behind arrays, pointers and unions |
| FieldIterator.ItemsDoNotOverlap | treena/Pods/nanopb/pb_common.c:40-73 | every item of a static field ends before the next member of the struct begins |
| Decoder.FoundField | treena/Pods/nanopb/pb_common.c:78-95 | the search from any position finds the first field with the tag |
| InputStream.IStream.DecodeVarint | treena/Pods/nanopb/pb_decode.c:255-275 | reads at most ten bytes and returns their value modulo 2^64; never reads beyond bytes_left |
| InputStream.IStream.DecodeVarint32 | treena/Pods/nanopb/pb_decode.c:187-247 | the 32-bit reader with its sign-extension and overflow rules; reports an empty stream |
| InputStream.IStream.DecodeSvarint | treena/Pods/nanopb/pb_decode.c:1279-1291 | the ZigZag inverse of the 64-bit value read |
| InputStream.IStream.DecodeFixed | treena/Pods/nanopb/pb_decode.c:1293-1326 | four or eight bytes as a little-endian number |
| InputStream.IStream.DecodeTag | treena/Pods/nanopb/pb_decode.c:298-319 | splits a tag; a zero tag is reported as the end of the message |
| InputStream.IStream.SkipOneVarint | treena/Pods/nanopb/pb_decode.c:278-287 | skips up to and including the first byte without continuation bit |
| InputStream.IStream.SkipString | treena/Pods/nanopb/pb_decode.c:289-296 | skips a length and that many bytes |
| InputStream.IStream.SkipWire | treena/Pods/nanopb/pb_decode.c:321-331 | skips a value of the given wire type by exactly its length; unknown wire types fail |
| InputStream.IStream.Read | treena/Pods/nanopb/pb_decode.c:102-137 | fails without moving when too few bytes are left, else moves by exactly the count |
| InputStream.IStream.ReadByte | treena/Pods/nanopb/pb_decode.c:141-157 | one byte, or failure at the end |
| InputStream.IStream.MakeSubstream | treena/Pods/nanopb/pb_decode.c:372-385 | the substream is limited to the announced length, which leaves the parent at once |
| InputStream.IStream.CloseSubstream | treena/Pods/nanopb/pb_decode.c:387-400 | whatever the substream consumed, the parent continues just behind the announced length |
| Decoder.DecodeMessage | treena/Pods/nanopb/pb_decode.c:928-1076 | the record loop with iterator, fixed-count counter and bitmap computes DecodeNoinit, ends by itself, and on success has moved the pointer by what it took from bytes_left |
| Decoder.DecodeRecord | treena/Pods/nanopb/pb_decode.c:946-1024 | one iteration performs one Step of the record machine and keeps the local variables in step with its state |
| Decoder.EnterField | treena/Pods/nanopb/pb_decode.c:991-1020 | the fixed-count bookkeeping and the required bit; fails exactly when another fixed-count array is incomplete; the size pointer is redirected exactly for fixed-count arrays |
| Decoder.DecodeTerminator | treena/Pods/nanopb/pb_decode.c:955-1023 | in an empty descriptor a zero field number matches the terminating entry, which is decoded as a bool and changes no member |
| Decoder.DecodeField | treena/Pods/nanopb/pb_decode.c:406-483 | one field of any rule: required, optional, repeated or oneof, with the union cleared when its member changes |
| Decoder.DecodeArray | treena/Pods/nanopb/pb_decode.c:424-464 | packed and unpacked items are appended or, for fixed-count arrays, stored at the counter; overflow and leftover bytes fail |
| Decoder.DecodePacked | treena/Pods/nanopb/pb_decode.c:436-447 | the packed loop consumes the whole payload exactly when all its items are readable and fit |
| Decoder.DecItem | treena/Pods/nanopb/pb_decode.c:68-81 | the decoder of each field type |
| Decoder.DecSubmessage | treena/Pods/nanopb/pb_decode.c:1519-1541 | array entries are initialised first, other submessages are merged into; the parent moves by exactly the announced length |
| Decoder.MessageSetToDefaults | treena/Pods/nanopb/pb_decode.c:911-922 | initialises every member of the struct, at every depth |
| Decoder.FieldSetToDefault | treena/Pods/nanopb/pb_decode.c:839-909 | has_ flag, count or which_ field cleared, single values set to the default or to zero |
| Descriptor.DefaultsAt | treena/Pods/nanopb/pb_decode.c:911-922 | initialisation gives every member its default and touches nothing else |
| Decoder.DecScalar | treena/Pods/nanopb/pb_decode.c:1328-1439 | the scalar decoders with their width checks |
| Decoder.DecVarint | treena/Pods/nanopb/pb_decode.c:1339-1374 | a field of at most 32 bits takes the signed low 32 bits, and fails when they do not fit its width |
| Decoder.DecUvarint | treena/Pods/nanopb/pb_decode.c:1376-1398 | fails exactly when the wire value does not fit the width |
| Decoder.DecSvarint | treena/Pods/nanopb/pb_decode.c:1400-1422 | fails exactly when the ZigZag value does not fit the width |
| Decoder.DecBool | treena/Pods/nanopb/pb_decode.c:1328-1337 | any non-zero 32-bit varint is true |
| Decoder.DecBytes | treena/Pods/nanopb/pb_decode.c:1441-1479 | fails when the array with its size field does not fit |
| Decoder.DecString | treena/Pods/nanopb/pb_decode.c:1481-1517 | fails when the terminator does not fit or the size wraps |
| Decoder.DecFixedLengthBytes | treena/Pods/nanopb/pb_decode.c:1543-1564 | an empty payload means all zeros, any other length must match |
| Decoder.DecodeFromDefaults | treena/Pods/nanopb/pb_decode.c:1078-1090 | initialise, then merge |
| Decoder.DecodeDelimitedMessage | treena/Pods/nanopb/pb_decode.c:1107-1120 | on success the stream has moved past exactly the announced length |
| EndToEnd.MeasureAndEncode | treena/Pods/nanopb/pb_encode.c:567-576 | measuring and then writing a message: writing succeeds exactly when measuring does and the size fits, advances by exactly that size, and leaves the rest of the buffer alone |
| OutputStream.OStream.Write | treena/Pods/nanopb/pb_encode.c:103-124 | appends exactly the bytes when they fit, else fails; never writes outside the window of the stream |
| OutputStream.OStream.BufWrite | treena/Pods/nanopb/pb_encode.c:74-84 | copies the bytes to the write pointer and changes nothing else in the buffer |
| OutputStream.OStream.EncodeVarint | treena/Pods/nanopb/pb_encode.c:608-628 | appends the canonical varint of any 64-bit value |
| OutputStream.VarintBuffer | treena/Pods/nanopb/pb_encode.c:608-628 | the loop over the ten-byte buffer produces the canonical varint and never overruns it |
| OutputStream.OStream.EncodeSvarint | treena/Pods/nanopb/pb_encode.c:630-639 | appends the varint of the ZigZag code |
| OutputStream.OStream.EncodeFixed | treena/Pods/nanopb/pb_encode.c:641-667 | the shifted and masked bytes are the little-endian digits |
| OutputStream.OStream.EncodeTag | treena/Pods/nanopb/pb_encode.c:669-673 | appends field number and wire type as one varint |
| OutputStream.OStream.EncodeString | treena/Pods/nanopb/pb_encode.c:709-715 | appends a length and that many bytes |
| Encoder.EncodeMessage | treena/Pods/nanopb/pb_encode.c:528-550 | succeeds exactly when the message is encodable and its bytes fit, and then appends exactly MsgBytes; on a sizing stream it counts them |
| Encoder.EncodeSubmessage | treena/Pods/nanopb/pb_encode.c:717-765 | measuring first and writing into an exactly sized substream appends the length and exactly the payload |
| Encoder.EncodePayload | treena/Pods/nanopb/pb_encode.c:737-764 | the second pass never overflows its substream and writes what the first pass counted: the size comparison cannot fail, at any depth |
| Encoder.EncodeField | treena/Pods/nanopb/pb_encode.c:341-426 | which fields are written, by rule, has_ flag, which_ field or the proto3 zero check |
| Encoder.EncodeArray | treena/Pods/nanopb/pb_encode.c:147-236 | packed when the type allows it; more items than array_size are refused |
| Encoder.EncodePacked | treena/Pods/nanopb/pb_encode.c:162-205 | tag, computed length and items; the length is right for fixed widths and for measured items |
| Encoder.PackedSize | treena/Pods/nanopb/pb_encode.c:169-189 | the size of the packed contents without writing them |
| Encoder.EncodeUnpacked | treena/Pods/nanopb/pb_encode.c:208-233 | one record per item, in order |
| Encoder.EncItem | treena/Pods/nanopb/pb_encode.c:55-70 | the encoder of each field type |
| Encoder.EncScalar | treena/Pods/nanopb/pb_encode.c:769-850 | the scalar encoders; a data_size that no integer type has is refused |
| Encoder.EncBytes | treena/Pods/nanopb/pb_encode.c:852-873 | refused when the array with its size field exceeds data_size |
| Encoder.EncString | treena/Pods/nanopb/pb_encode.c:875-899 | writes the characters before the terminator, at most data_size of them |
| Encoder.CStringLength | treena/Pods/nanopb/pb_encode.c:888-896 | the bounded search for the terminator |
| Encoder.EncFixedLengthBytes | treena/Pods/nanopb/pb_encode.c:909-912 | writes exactly data_size bytes |
| Encoder.CheckDefault | treena/Pods/nanopb/pb_encode.c:240-336 | the proto3 check by rule, has_ flag, count or which_ field |
| Encoder.CheckMessage | treena/Pods/nanopb/pb_encode.c:289-308 | a submessage is zero exactly when all its fields are |
| Encoder.EncodeDelimited | treena/Pods/nanopb/pb_encode.c:552-555 | a delimited message is its length and its bytes |
| Encoder.EncodeNullterminated | treena/Pods/nanopb/pb_encode.c:557-565 | a message followed by one zero byte |
| Encoder.GetEncodedSize | treena/Pods/nanopb/pb_encode.c:567-576 | returns the exact size of an encodable message and fails for any other |
| Encoding.MsgEncodableAt | treena/Pods/nanopb/pb_encode.c:528-550 | a message is accepted exactly when each of its fields is |
| Varint.Varint64RoundTrip | treena/Pods/nanopb/pb_decode.c:255-275 | every 64-bit value is read back from its varint, leaving what follows |
| Varint.EncVarintLength | treena/Pods/nanopb/pb_encode.c:608-628 | the encoding has the least number k >= 1 of bytes with n < 2^(7k) |
| Varint.EncVarintFits | treena/Pods/nanopb/pb_encode.c:610-611 | a 64-bit value never needs more than the ten-byte buffer |
| Varint.EncVarintMinimal | treena/Pods/nanopb/pb_encode.c:608-628 | no shorter byte string is read as the same value |
| Varint.ReadersAgree | treena/Pods/nanopb/pb_decode.c:187-247 | where the 32-bit and 64-bit readers both succeed they consume the same bytes and agree modulo 2^32 |
| Varint.Varint32RoundTrip | treena/Pods/nanopb/pb_decode.c:187-247 | the 32-bit reader accepts the canonical encoding of every uint32 |
| Varint.Varint32SignExtended | treena/Pods/nanopb/pb_decode.c:221-229 | it accepts the ten-byte sign-extended encoding of every negative int32 |
| Varint.ReadVarint32Frame | treena/Pods/nanopb/pb_decode.c:187-247 | it does not look beyond the varint |
| Varint.ShiftedOr | treena/Pods/nanopb/pb_decode.c:269 | OR-ing a shifted group onto fewer collected bits adds it, modulo the word size |
| Scalars.ScalarRoundTrip | treena/Pods/nanopb/pb_encode.c:769-850 | bool, int, uint, ZigZag sint of every width and both fixed widths are read back for all values, whatever follows |
| Scalars.ReadScalarStores | treena/Pods/nanopb/pb_decode.c:1328-1439 | on arbitrary bytes a successful read stores a value of the field width: the exact wire value for unsigned and ZigZag fields, the signed low 32 or 64 bits for int fields, and takes exactly the varint |
| Scalars.ZigZagInverse | treena/Pods/nanopb/pb_encode.c:630-639 | small magnitudes get small codes, and every int64 comes back |
| Scalars.UnZigZagInverse | treena/Pods/nanopb/pb_decode.c:1279-1291 | every uint64 code comes back: the two functions are inverse |
| Scalars.LittleEndianInverse | treena/Pods/nanopb/pb_decode.c:1293-1326 | fixed-width numbers are read back |
| WireFormat.Varint64Exactly | treena/Pods/nanopb/pb_decode.c:255-275 | the 64-bit reader succeeds exactly on varints of at most ten bytes, canonical or not |
| WireFormat.Varint32Exactly | treena/Pods/nanopb/pb_decode.c:187-247 | of all varints that its counter can count the 32-bit reader accepts exactly those whose fifth byte, if last, has no high bits and whose later bytes are zero or a sign extension; the result is the value modulo 2^32 |
| WireFormat.CounterWraps | treena/Pods/nanopb/pb_decode.c:187-247 | behind 37 bytes of padding the counter has wrapped and a last byte lands at bit 3 |
| WireFormat.GroupAt | treena/Pods/nanopb/pb_encode.c:608-628 | byte k of a varint holds bits 7k to 7k + 6 and says whether more follow |
| WireFormat.ByteAt | treena/Pods/nanopb/pb_encode.c:641-666 | byte k of a fixed-width number holds bits 8k to 8k + 7 |
| WireFormat.IntExactly | treena/Pods/nanopb/pb_decode.c:1339-1374 | a signed field accepts exactly the varints whose low 32 bits (64 for int64), read as a signed number, fit its width |
| WireFormat.UIntExactly | treena/Pods/nanopb/pb_decode.c:1376-1398 | an unsigned field accepts exactly the values of its width |
| WireFormat.SIntExactly | treena/Pods/nanopb/pb_decode.c:1400-1422 | a ZigZag field accepts exactly the codes 0, 1, 2, 3 ... of the numbers 0, -1, 1, -2 ... of its width |
| WireFormat.FiveByteNegative | treena/Pods/nanopb/pb_decode.c:1339-1374 | a negative int32 is read from its five-byte form as from its ten-byte form |
| WireFormat.NegativeInTenBytes | treena/Pods/nanopb/pb_encode.c:776-797 | signed numbers are written in two's complement of 64 bits, negative ones in ten bytes |
| WireFormat.BoolExactly | treena/Pods/nanopb/pb_decode.c:1328-1337 | every 32-bit varint but zero reads as true, and true is written as the byte 1 |
| WireFormat.PayloadExactly | treena/Pods/nanopb/pb_decode.c:1441-1564 | a payload is accepted exactly when it fits with its size field or terminator; for an array of fixed length it must have that length or be empty, which stands for zeros |
| WireFormat.BytesRefusedBothWays | treena/Pods/nanopb/pb_encode.c:852-873 | the encoder refuses an array of bytes exactly when the decoder would refuse what it writes |
| WireFormat.KeyNumbers | treena/Pods/nanopb/pb_encode.c:675-707 | the key of each field type is eight times the field number plus 0, 1, 2 or 5 |
| WireFormat.FieldsInOrder | treena/Pods/nanopb/pb_encode.c:528-550 | fields are written in the order of the descriptor |
| WireFormat.ItemsInOrder | treena/Pods/nanopb/pb_encode.c:147-238 | items of an array are written one after the other |
| WireFormat.PackedArray | treena/Pods/nanopb/pb_encode.c:147-238 | scalars are packed into one record of wire type 2, and an empty array is no record at all |
| WireFormat.UnknownExactly | treena/Pods/nanopb/pb_decode.c:321-331 | a record of an unknown field, also of field number zero, is skipped by the length that its wire type says; wire types 3, 4, 6 and 7 end decoding in failure |
| AuthenticationRuns.EveryRun | treena/Pods/Alamofire/Source/AuthenticationInterceptor.swift:251-403 | from creation on, in every interleaving in which no credential setter writes back an out-of-date copy: each completion handler is in exactly one place, at most one refresh is in flight and only then are requests parked, and no window covers too many refresh starts; once nothing remains to be done every handler has been called exactly once. The invariant holds throughout a run exactly when the run is of that kind, and it is when no lock section of adapt, retry or a refresh completion comes between the two of a setter |
| AuthenticationRuns.StepConserves | treena/Pods/Alamofire/Source/AuthenticationInterceptor.swift:251-403 | no step of adapt, retry, a dispatched block or a refresh completion, nor the first half of the credential setter, loses or duplicates a handler |
| AuthenticationRuns.StepOneRefresh | treena/Pods/Alamofire/Source/AuthenticationInterceptor.swift:331-403 | under the same steps, dispatched or outstanding refreshes number one while isRefreshing, else zero, and the queues are empty unless isRefreshing |
| AuthenticationRuns.RecordWithinLimit | treena/Pods/Alamofire/Source/AuthenticationInterceptor.swift:331-369 | although the clock is read once for the check and again for the record, no closed interval of the window length holds more than max(0, maximumAttempts) refresh starts |
| AuthenticationRuns.StepWithinLimit | treena/Pods/Alamofire/Source/AuthenticationInterceptor.swift:331-369 | the same steps keep that bound |
| AuthenticationRuns.WriteBackConserves | treena/Pods/Alamofire/Source/AuthenticationInterceptor.swift:219-222 | the second half of the setter keeps every handler in one place if and only if its copy has the parked handlers of the current state |
| AuthenticationRuns.WriteBackKeepsInvariant | treena/Pods/Alamofire/Source/Protected.swift:98-102 | it keeps the whole invariant if and only if the copy also shows the current refresh in flight and the current recorded times |
| AuthenticationRuns.ThroughoutWhenOrderly | treena/Pods/Alamofire/Source/AuthenticationInterceptor.swift:219-222 | a run keeps the invariant in every state exactly when every copy written back in it is current |
| AuthenticationRuns.ExclusiveIsOrderly | treena/Pods/Alamofire/Source/AuthenticationInterceptor.swift:219-222 | copies are current when no other lock section comes between the two of a setter; overlapping setters do no harm to each other |
| AuthenticationLimits.SetterLosesHandler | treena/Pods/Alamofire/Source/AuthenticationInterceptor.swift:219-222 | a run of three steps after which a started call has its handler in no place, while its refresh is in flight and neither isRefreshing nor a timestamp says so |
| AuthenticationLimits.LostForEver | treena/Pods/Alamofire/Source/AuthenticationInterceptor.swift:219-222 | such a handler is never called, whatever happens, until another copy is written back |
| AuthenticationLimits.SetterDoublesHandler | treena/Pods/Alamofire/Source/AuthenticationInterceptor.swift:219-222 | a run after which a handler is both parked and dispatched, and isRefreshing is set with no refresh in flight |
| AuthenticationLimits.SetterBreaksWindow | treena/Pods/Alamofire/Source/AuthenticationInterceptor.swift:356-369 | a run in which a window that allows one refresh covers two, because the record of the first was overwritten |
| AuthenticationRuns.AllCalledAtRest | treena/Pods/Alamofire/Source/AuthenticationInterceptor.swift:371-403 | with no task left and no refresh outstanding, each started call has had its handler called exactly once |
| AuthenticationRuns.InternalStepProgress | treena/Pods/Alamofire/Source/AuthenticationInterceptor.swift:331-387 | while time stays in one window every internal step uses up budget (attempts left plus the one in flight), work or a pending setter, so re-adapting after success starts only finitely many refreshes |
| AuthenticationRuns.NeverStuck | treena/Pods/Alamofire/Source/AuthenticationInterceptor.swift:251-403 | until everything has come to rest some internal step can be taken |
| AuthenticationRuns.Final | treena/Pods/Alamofire/Source/AuthenticationInterceptor.swift:251-403 | any schedule of internal steps within one window, with any answers from outside, comes to rest |
| AuthenticationRuns.EveryCallIsAnswered | treena/Pods/Alamofire/Source/AuthenticationInterceptor.swift:251-403 | and then every started call has been answered exactly once |
| AuthenticationOutcomes.CalledWithVerdict | treena/Pods/Alamofire/Source/AuthenticationInterceptor.swift:251-403 | in every orderly run from creation a handler is called with nothing but the verdict on its call, which is fixed by the first of: the guards or the lock section that answered it (adapted with the credential stored at that moment, missingCredential exactly when there was none), an excessive refresh, or the end of the refresh it was parked for |
| AuthenticationOutcomes.ParkedRetryAnswered | treena/Pods/Alamofire/Source/AuthenticationInterceptor.swift:371-403 | a handler that retry parked is called with retry if the refresh that ended its wait succeeded, and with the very error of that refresh if it failed |
| AuthenticationOutcomes.ParkedAdaptFails | treena/Pods/Alamofire/Source/AuthenticationInterceptor.swift:389-403 | a handler that adapt parked is called with the error of the refresh that failed |
| AuthenticationOutcomes.AnswersOfTheRightKind | treena/Pods/Alamofire/Source/AuthenticationInterceptor.swift:251-403 | in every run, orderly or not, calls of adapt get answers of adapt and calls of retry answers of retry |
| AuthenticationOrder.FirstParkedFirstCalled | treena/Pods/Alamofire/Source/AuthenticationInterceptor.swift:371-403 | of two handlers that one refresh releases, the one parked first, adapts before retries, is called first, whatever other threads do |
| AuthenticationOrder.StepParksLast | treena/Pods/Alamofire/Source/AuthenticationInterceptor.swift:251-326 | a step other than the end of a setter leaves each list of parked handlers alone, empties it, or extends it at its end |
| AuthenticationRuns.ExcessiveExactly | treena/Pods/Alamofire/Source/AuthenticationInterceptor.swift:356-369 | a refresh is refused exactly when a window is configured and the closed interval of its length that ends now holds maximumAttempts starts or more |
| AuthenticationRuns.RefusedExactly | treena/Pods/Alamofire/Source/AuthenticationInterceptor.swift:356-369 | the same after every orderly run, in terms of all refreshes ever started; so with a positive maximum a refresh is not refused once a whole interval has passed without one |
| AuthenticationLimits.EndlessWithoutWindow | treena/Pods/Alamofire/Source/AuthenticationInterceptor.swift:356-369 | without a refresh window any number of refreshes can follow each other and answer nothing, as the documentation of the initialiser warns |
| Authentication.Interceptor.AdaptInsideLock | treena/Pods/Alamofire/Source/AuthenticationInterceptor.swift:252-275 | park while refreshing, fail without credential, park and refresh when the credential asks for it, else adapt |
| AuthenticationFreshness.StaleExactly | treena/Pods/Alamofire/Source/AuthenticationInterceptor.swift:331-354 | of all tasks only the lock section of retry can dispatch a refresh for a credential that is not the stored one, and it does exactly when no refresh is in flight, none is excessive, and the credential it brings along is no longer stored |
| AuthenticationFreshness.RetryRefreshesCurrent | treena/Pods/Alamofire/Source/AuthenticationInterceptor.swift:307-324 | from the guards of retry over any run to its lock section: the refresh it starts is for the credential of the moment whenever no action in between stored one, and stale exactly when the stored one differs from the one the guards read |
| AuthenticationFreshness.RunKeepsCredential | treena/Pods/Alamofire/Source/AuthenticationInterceptor.swift:219-222 | only the end of a setter and of a successful refresh store a credential |
| AuthenticationFreshness.RefreshEndsFresh | treena/Pods/Alamofire/Source/AuthenticationInterceptor.swift:371-403 | the end of a refresh dispatches no other |
| AuthenticationFreshness.CompletedRefreshMakesStale | treena/Pods/Alamofire/Source/AuthenticationInterceptor.swift:307-324 | a run without any setter in which a whole refresh happens between guards and lock section, so that retry has the replaced credential refreshed again |
| AuthenticationFreshness.SetterMakesStale | treena/Pods/Alamofire/Source/AuthenticationInterceptor.swift:307-324 | a run in which a setter, not itself interrupted, does the same |
| Authentication.Interceptor.WriteMutableState | treena/Pods/Alamofire/Source/Protected.swift:98-102 | the second lock section of the credential setter stores every field of the copy |
| Authentication.Interceptor.RetryInsideLock | treena/Pods/Alamofire/Source/AuthenticationInterceptor.swift:318-324 | park the handler, and refresh unless a refresh is in flight |
| Authentication.Interceptor.RefreshInsideLock | treena/Pods/Alamofire/Source/AuthenticationInterceptor.swift:331-354 | an excessive refresh fails everything parked, else it is recorded and dispatched |
| Authentication.Interceptor.IsRefreshExcessive | treena/Pods/Alamofire/Source/AuthenticationInterceptor.swift:356-369 | counts the recorded attempts not older than the interval |
| Authentication.Interceptor.HandleRefreshSuccess | treena/Pods/Alamofire/Source/AuthenticationInterceptor.swift:371-387 | stores the credential and dispatches the parked requests in order: adapts first, then retries |
| Authentication.Interceptor.HandleRefreshFailure | treena/Pods/Alamofire/Source/AuthenticationInterceptor.swift:389-403 | dispatches a failure to everything parked |
| FormComponent.SetAt | treena/Pods/Alamofire/Source/URLEncodedFormEncoder.swift:497-547 | the recursive update computes Set |
| FormComponent.Context.SetComponent | treena/Pods/Alamofire/Source/URLEncodedFormEncoder.swift:492-494 | updates the shared tree in place |
| FormComponent.ReadBack | treena/Pods/Alamofire/Source/URLEncodedFormEncoder.swift:497-547 | the value is read back at its path exactly when every index met an array at least that long, else nothing is there |
| FormComponent.ReadBackWhereItLands | treena/Pods/Alamofire/Source/URLEncodedFormEncoder.swift:497-547 | the value can always be read back at the path with each index clamped to the array length: beyond the end it was appended |
| FormComponent.AddressableLands | treena/Pods/Alamofire/Source/URLEncodedFormEncoder.swift:524-531 | the two paths coincide exactly when the read-back condition holds |
| FormComponent.OthersUnchanged | treena/Pods/Alamofire/Source/URLEncodedFormEncoder.swift:497-547 | every path that leaves the updated one at a container of the right kind reads as before |
| FormComponent.WrongKindReplaced | treena/Pods/Alamofire/Source/URLEncodedFormEncoder.swift:532-545 | a container of the wrong kind is replaced as a whole |
| FormComponent.LastSetWins | treena/Pods/Alamofire/Source/URLEncodedFormEncoder.swift:497-547 | setting twice at a readable path is setting once |
| FormComponent.KeysStayUnique | treena/Pods/Alamofire/Source/URLEncodedFormEncoder.swift:535-545 | no object of the tree gets a key twice |
| FormComponent.SetBelow | treena/Pods/Alamofire/Source/URLEncodedFormEncoder.swift:497-547 | setting a value below a node changes that node as if it were the whole tree |
| FormComponent.KeysInOrder | treena/Pods/Alamofire/Source/URLEncodedFormEncoder.swift:535-545 | every object of the tree keeps its keys in the order of insertion |
| KeyEncoding.Words | treena/Pods/Alamofire/Source/URLEncodedFormEncoder.swift:215-261 | the search loop ends and its ranges are non-empty, contiguous and cover the key, with words beginning exactly at the positions that the case pattern defines |
| KeyEncoding.Convert | treena/Pods/Alamofire/Source/URLEncodedFormEncoder.swift:215-267 | the result is the key in lower case with the separator before each such position |
| KeyEncoding.JoinedIsConverted | treena/Pods/Alamofire/Source/URLEncodedFormEncoder.swift:262-264 | joining the lower-cased ranges equals that position-by-position description |
| KeyEncoding.GroupBoundaries | treena/Pods/Alamofire/Source/URLEncodedFormEncoder.swift:231-259 | in a group of capitals the only other word begins just before the lower-case letter that ends it |
| KeyEncoding.ConvertedKeepsLetters | treena/Pods/Alamofire/Source/URLEncodedFormEncoder.swift:262-264 | without separators the result is the lower-cased key |
| KeyEncoding.ConvertTwice | treena/Pods/Alamofire/Source/URLEncodedFormEncoder.swift:215-267 | a converted key is a fixed point of the conversion with any separator |
| KeyEncoding.SameLetter | treena/Pods/Alamofire/Source/URLEncodedFormEncoder.swift:262-264 | a capital becomes the small letter at its place in the alphabet, and no other character changes |
| KeyEncoding.DocumentedKey | treena/Pods/Alamofire/Source/URLEncodedFormEncoder.swift:176-176 | the documented example oneTwoThree is split into its three words |
| KeyEncoding.DocumentedAbbreviation | treena/Pods/Alamofire/Source/URLEncodedFormEncoder.swift:223-224 | the documented example myURLProperty is split into my, URL and Property |

## Left out

- Pointer and callback fields, `pb_release` and the allocation functions: heap ownership and foreign code. `Descriptor.WellFormed` admits static fields only, and descriptors are finite trees, as static allocation makes them.
- Extension fields and `find_extension_field`: without an extension entry in the descriptor an unknown tag is skipped, which is what the model does.
- Streams with user callbacks, among them the 16-byte skip loop of `pb_read`, and error message text.
- The alternative builds `PB_WITHOUT_64BIT`, `PB_ENCODE_ARRAYS_UNPACKED` and `PB_BUFFER_ONLY`. The model has `pb_size_t` of 32 bits (`PB_FIELD_32BIT`).
- Raw struct layout: the iterator's offset walk is modelled, but the decoded struct is a map of members, so padding and aliasing of struct memory are not captured. Members of a oneof share one slot.
- The contents of the struct and the position of the stream after a failed call, except that no failed call reads or writes outside its stream.
- Overflow of `size_t`: sizes are unbounded, with the cast of a length to 64 bits written out. Encoded messages of 2^64 bytes and more are therefore outside the C program's behaviour.
- Encoder.EncodeMessage: does not model reading memory whose value was never set or has another type than its field, which C leaves undefined; the method refuses such a member.
- `pb_decode_delimited_noinit` and `pb_decode_nullterminated`: each is another modelled function under a second name, or differs only in leaving out the initialisation.
- Varints of more than 37 bytes in the 32-bit reader: the model follows the code, with the 8-bit wrap of its bit position, but `Varint32Exactly` ends there and `CounterWraps` only shows how they go wrong.
- Floating-point rounding of the interceptor's clock arithmetic: times are real numbers.
- Decoder.FieldSetToDefault: does not model the zero count that `pb_field_set_to_default` stores over the first four bytes of a fixed-count array, and beyond the end of an array of fewer than four bytes; the model's array is undefined until received.
- FormComponent.SetAt: does not model negative indices, for which the Swift code stops the program, nor canonical equivalence of keys: two spellings of one key are one in Swift and two in the model.
- KeyEncoding.Convert: does not model keys outside ASCII, whose case classes and case mapping are those of Foundation.
- Percent encoding, the other key, array, date, data and Boolean encodings, and the Encodable containers.
- The rest of Alamofire (sessions, requests and their serializer queue, trust evaluation, monitors), FSCalendar's headers, and the app's own views and Firebase calls.
