# ErrorInfo wire codec, builder and product mapper

A Dafny model of two pieces of the product service's generated code:

- The `ErrorInfo` protocol-buffer message (`string timestamp = 1`, `string path = 2`,
  `int32 httpStatus = 3`, `string message = 4`) and its `Builder`. This covers `writeTo`,
  `getSerializedSize`, `equals`, `isInitialized`, the setters and clearers, `clear`,
  `buildPartial` / `buildPartial0` / `build`, `mergeFrom(ErrorInfo)`, the tag-dispatch loop
  `mergeFrom(CodedInputStream)` and `parseFrom(byte[])`. It also covers the part of the protobuf
  runtime that this code calls: varints, tags, length-delimited records, `readStringRequireUtf8`,
  `readInt32` and the unknown-field set, following the Protocol Buffers encoding guide
  ("Base 128 Varints", "Message Structure", "Length-Delimited Records").
- `ProductMapperImpl`, the MapStruct mapper between `ProductEntity` and the `Product` message.

The model is functional. Messages and builders are immutable datatypes, and every builder operation
maps a builder to a new builder. Parsing consumes a `seq<byte>` and returns the unread suffix.
A Java `null` is `Option.None`, and a thrown exception is `Result.Failure`. A string is its
UTF-8 bytes. `Utf8.ValidUtf8` is the well-formedness rule of Unicode Table 3-7, which is what
`readStringRequireUtf8` and `checkByteStringIsUtf8` enforce. The presence mask `bitField0_` is a
`bv32`, the same width as the Java `int`.

Files, one module each: `wrappers.dfy` (Option/Result), `primitives.dfy` (bytes, int32, sign
extension), `utf8.dfy`, `varint.dfy`, `wire_format.dfy` (tags and records), `unknown_fields.dfy`,
`error_info.dfy` (the message), `error_info_builder.dfy`, `error_info_parser.dfy` (the parse loop
and the round-trip theorems) and `product_mapper.dfy`.

## Model

| member | source | states |
|---|---|---|
| ErrorInfoParser.ParseOfWriteTo | RestAPI-protobuf-json/microservices/product-service-protobuf/target/generated-sources/com/luca/error/protobuf/ErrorInfoProto.java:253-269 | Parsing what `writeTo` emits gives back exactly the message, and `equals` holds between the two. This holds for every message whose strings are valid UTF-8 and whose unknown records could have been read. |
| ErrorInfoParser.ParseWritten | RestAPI-protobuf-json/microservices/product-service-protobuf/target/generated-sources/com/luca/error/protobuf/ErrorInfoProto.java:524-547 | Reading a serialised message into any builder, followed by any further input, has the same effect as `mergeFrom(ErrorInfo)` with that message followed by the same input. |
| ErrorInfoParser.ParseOfConcatenation | RestAPI-protobuf-json/microservices/product-service-protobuf/target/generated-sources/com/luca/error/protobuf/ErrorInfoProto.java:555-604 | Parsing two serialised messages one after the other gives the first merged with the second, the way `mergeFrom` merges. |
| ErrorInfoParser.LastStringWins | RestAPI-protobuf-json/microservices/product-service-protobuf/target/generated-sources/com/luca/error/protobuf/ErrorInfoProto.java:570-579 | A string field whose record appears twice keeps the value read last. |
| ErrorInfoParser.LastInt32Wins | RestAPI-protobuf-json/microservices/product-service-protobuf/target/generated-sources/com/luca/error/protobuf/ErrorInfoProto.java:580-584 | `httpStatus` appearing twice keeps the value read last, negative values included. |
| ErrorInfoParser.EmptyIsDefault | RestAPI-protobuf-json/microservices/product-service-protobuf/target/generated-sources/com/luca/error/protobuf/ErrorInfoProto.java:565-569 | The empty input parses to the default instance, and the default instance serialises to no bytes. |
| ErrorInfoParser.ExplicitDefaultIsInvisible | RestAPI-protobuf-json/microservices/product-service-protobuf/target/generated-sources/com/luca/error/protobuf/ErrorInfoProto.java:570-574 | A string field sent explicitly with the empty value parses to the default message. |
| ErrorInfoParser.StrayEndGroupIsRefused | RestAPI-protobuf-json/microservices/product-service-protobuf/target/generated-sources/com/luca/error/protobuf/ErrorInfoProto.java:590-595 | An end-group tag with no group open stops the loop, and `parseFrom` refuses the input with an invalid-end-tag error. |
| ErrorInfoParser.ShortRecordIsTruncated | RestAPI-protobuf-json/microservices/product-service-protobuf/target/generated-sources/com/luca/error/protobuf/ErrorInfoProto.java:590-595 | A length-delimited record whose declared length runs past the end of the input is refused as truncated, under any field number. |
| ErrorInfoParser.InvalidUtf8IsRefused | RestAPI-protobuf-json/microservices/product-service-protobuf/target/generated-sources/com/luca/error/protobuf/ErrorInfoProto.java:570-589 | A string field whose bytes are not well-formed UTF-8 is refused with an invalid-UTF-8 error. |
| ErrorInfoParser.UnknownBytesAreKept | RestAPI-protobuf-json/microservices/product-service-protobuf/target/generated-sources/com/luca/error/protobuf/ErrorInfoProto.java:590-595 | A length-delimited record under a field number the schema does not know (5 or more) is kept, byte for byte, as the message's only unknown record. |
| ErrorInfoParser.MergeStopsOnError | RestAPI-protobuf-json/microservices/product-service-protobuf/target/generated-sources/com/luca/error/protobuf/ErrorInfoProto.java:596-600 | An exception in any pass of the loop ends the whole merge with that same error. |
| ErrorInfoParser.ParseNothing | RestAPI-protobuf-json/microservices/product-service-protobuf/target/generated-sources/com/luca/error/protobuf/ErrorInfoProto.java:565-569 | At the end of the input the loop stops with tag 0 and leaves the builder unchanged. |
| ErrorInfoParser.FieldOfTag | RestAPI-protobuf-json/microservices/product-service-protobuf/target/generated-sources/com/luca/error/protobuf/ErrorInfoProto.java:570-595 | A tag selects a field exactly when it is one of the four known tags, and then it is that field's `(number << 3) \| wiretype` tag. |
| ErrorInfoParser.MergeStep | RestAPI-protobuf-json/microservices/product-service-protobuf/target/generated-sources/com/luca/error/protobuf/ErrorInfoProto.java:563-596 | One pass of the loop either stops on tag 0 or an end-group tag with the builder unchanged, or consumes input and keeps the builder's invariants. |
| ErrorInfoParser.MergeFromInput | RestAPI-protobuf-json/microservices/product-service-protobuf/target/generated-sources/com/luca/error/protobuf/ErrorInfoProto.java:555-604 | The loop stops only at the end of the input or at an end-group tag, and keeps the builder consistent and well-formed. |
| ErrorInfoParser.ParseFrom | RestAPI-protobuf-json/microservices/product-service-protobuf/target/generated-sources/com/luca/error/protobuf/ErrorInfoProto.java:868-888 | A successful parse yields a well-formed message. |
| ErrorInfoParser.ReadField | RestAPI-protobuf-json/microservices/product-service-protobuf/target/generated-sources/com/luca/error/protobuf/ErrorInfoProto.java:570-589 | A known field's case sets that field and its presence bit and leaves the other fields, their bits and the unknown fields unchanged. A string field receives only well-formed UTF-8. The case fails exactly when `readStringRequireUtf8` or `readInt32` fails on the bytes after the tag. |
| ErrorInfoParser.AddUnknown | RestAPI-protobuf-json/microservices/product-service-protobuf/target/generated-sources/com/luca/error/protobuf/ErrorInfoProto.java:590-595 | `parseUnknownField` keeps a record after the ones already held, leaves every field and presence bit unchanged, and keeps the builder consistent and well-formed. |
| ErrorInfoParser.StepOfKnownTag | RestAPI-protobuf-json/microservices/product-service-protobuf/target/generated-sources/com/luca/error/protobuf/ErrorInfoProto.java:565-589 | A known field's tag sends the loop to that field's case. |
| ErrorInfoParser.ParseStringRecord | RestAPI-protobuf-json/microservices/product-service-protobuf/target/generated-sources/com/luca/error/protobuf/ErrorInfoProto.java:570-579 | One string record is stored in its field with the bit set, and the loop carries on after it. |
| ErrorInfoParser.ParseInt32Record | RestAPI-protobuf-json/microservices/product-service-protobuf/target/generated-sources/com/luca/error/protobuf/ErrorInfoProto.java:580-584 | The `httpStatus` record, including a 10-byte negative value, is stored with the bit set, and the loop carries on after it. |
| ErrorInfoParser.ParseUnknownRecord | RestAPI-protobuf-json/microservices/product-service-protobuf/target/generated-sources/com/luca/error/protobuf/ErrorInfoProto.java:590-595 | One record under an unknown tag is appended to the unknown fields, and the loop carries on after it. |
| ErrorInfoParser.ParseUnknownRecords | RestAPI-protobuf-json/microservices/product-service-protobuf/target/generated-sources/com/luca/error/protobuf/ErrorInfoProto.java:590-595 | A sequence of unknown records is appended to the unknown fields in order. |
| ErrorInfoParser.ParseFieldRecord | RestAPI-protobuf-json/microservices/product-service-protobuf/target/generated-sources/com/luca/error/protobuf/ErrorInfoProto.java:524-543 | Reading field f's record has the effect of `mergeFrom`'s step for f. This includes the case of a default value, which writes no record. |
| ErrorInfoParser.FieldRecord | RestAPI-protobuf-json/microservices/product-service-protobuf/target/generated-sources/com/luca/error/protobuf/ErrorInfoProto.java:256-266 | A field's record is empty exactly when the field holds its default value. |
| ErrorInfoParser.MergeShortcutIsRedundant | RestAPI-protobuf-json/microservices/product-service-protobuf/target/generated-sources/com/luca/error/protobuf/ErrorInfoProto.java:525 | The early return for the default instance agrees with merging it field by field. |
| ErrorInfoParser.MergeDefaultIsNoOp | RestAPI-protobuf-json/microservices/product-service-protobuf/target/generated-sources/com/luca/error/protobuf/ErrorInfoProto.java:524-547 | Merging the default instance leaves the builder unchanged. |
| ErrorInfoParser.BuildOfMerged | RestAPI-protobuf-json/microservices/product-service-protobuf/target/generated-sources/com/luca/error/protobuf/ErrorInfoProto.java:411-420 | Building a fresh builder after merging a message into it gives the message back. |
| ErrorInfoParser.BuildOfToBuilder | RestAPI-protobuf-json/microservices/product-service-protobuf/target/generated-sources/com/luca/error/protobuf/ErrorInfoProto.java:417-420 | `toBuilder().buildPartial()` and `toBuilder().build()` give back the message. |
| ErrorInfoParser.SerializedSizeIsLength | RestAPI-protobuf-json/microservices/product-service-protobuf/target/generated-sources/com/luca/error/protobuf/ErrorInfoProto.java:271-293 | `getSerializedSize` is the number of bytes `writeTo` emits. |
| ErrorInfoParser.RecordLength | RestAPI-protobuf-json/microservices/product-service-protobuf/target/generated-sources/com/luca/error/protobuf/ErrorInfoProto.java:277-289 | Each field's share of `getSerializedSize` is the length of that field's record. |
| ErrorInfoMessage.EqualsIsEquality | RestAPI-protobuf-json/microservices/product-service-protobuf/target/generated-sources/com/luca/error/protobuf/ErrorInfoProto.java:296-315 | `equals` holds exactly when the four field values and the unknown-field lists are equal, so it is an equivalence. |
| ErrorInfoMessage.WriteTo | RestAPI-protobuf-json/microservices/product-service-protobuf/target/generated-sources/com/luca/error/protobuf/ErrorInfoProto.java:253-269 | A message serialises to no bytes exactly when it is the default instance, with every field at its default and no unknown record. `ParseOfWriteTo` is its inverse. |
| ErrorInfoMessage.SerializedSize | RestAPI-protobuf-json/microservices/product-service-protobuf/target/generated-sources/com/luca/error/protobuf/ErrorInfoProto.java:271-293 | The computed size is 0 exactly for the default instance. `SerializedSizeIsLength` ties it to `writeTo`. |
| ErrorInfoMessage.JavaSerializedSize | RestAPI-protobuf-json/microservices/product-service-protobuf/target/generated-sources/com/luca/error/protobuf/ErrorInfoProto.java:276-292 | `getSerializedSize` throws `IllegalArgumentException` exactly when a string field's UTF-8 form is longer than 2^31 - 1 bytes, which no well-formed message has. Otherwise the `int` it returns has the low 32 bits of the true size, and equals the true size exactly when the true size fits in an `int`. |
| ErrorInfoMessage.IsInitialized | RestAPI-protobuf-json/microservices/product-service-protobuf/target/generated-sources/com/luca/error/protobuf/ErrorInfoProto.java:243-251 | A proto3 message has no required fields, so `isInitialized` holds for every message. |
| ErrorInfoMessage.DefaultInstance | RestAPI-protobuf-json/microservices/product-service-protobuf/target/generated-sources/com/luca/error/protobuf/ErrorInfoProto.java:95-99 | The default instance holds `""`, `""`, 0, `""` and no unknown fields. |
| ErrorInfoMessage.KnownTagValues | RestAPI-protobuf-json/microservices/product-service-protobuf/target/generated-sources/com/luca/error/protobuf/ErrorInfoProto.java:570-590 | The four known tags are 10, 18, 24 and 34. |
| ErrorInfoBuilder.NewBuilder | RestAPI-protobuf-json/microservices/product-service-protobuf/target/generated-sources/com/luca/error/protobuf/ErrorInfoProto.java:411-413 | A new builder holds every default, has no presence bit set and has no unknown fields. |
| ErrorInfoBuilder.SetTimestamp | RestAPI-protobuf-json/microservices/product-service-protobuf/target/generated-sources/com/luca/error/protobuf/ErrorInfoProto.java:646-653 | A null value throws NullPointerException. Otherwise the value is stored, its bit is set, and the other fields, their bits and the unknown fields are unchanged. |
| ErrorInfoBuilder.SetPath | RestAPI-protobuf-json/microservices/product-service-protobuf/target/generated-sources/com/luca/error/protobuf/ErrorInfoProto.java:718-725 | The same as `setTimestamp`, for `path`. |
| ErrorInfoBuilder.SetMessage | RestAPI-protobuf-json/microservices/product-service-protobuf/target/generated-sources/com/luca/error/protobuf/ErrorInfoProto.java:822-829 | The same as `setTimestamp`, for `message`. |
| ErrorInfoBuilder.SetStringBytes | RestAPI-protobuf-json/microservices/product-service-protobuf/target/generated-sources/com/luca/error/protobuf/ErrorInfoProto.java:669-677 | A null value throws. Bytes that are not UTF-8 are refused. Otherwise the bytes are stored with the field's bit set, and nothing else changes. |
| ErrorInfoBuilder.SetHttpStatus | RestAPI-protobuf-json/microservices/product-service-protobuf/target/generated-sources/com/luca/error/protobuf/ErrorInfoProto.java:765-771 | The value is stored and its bit is set. The other fields and bits are unchanged, and consistency and well-formedness are kept. |
| ErrorInfoBuilder.PutString | RestAPI-protobuf-json/microservices/product-service-protobuf/target/generated-sources/com/luca/error/protobuf/ErrorInfoProto.java:526-542 | The store shared by the string setters, `mergeFrom` and the parse loop. It sets the field and its bit, leaves everything else unchanged, and keeps the invariants. |
| ErrorInfoBuilder.ClearTimestamp | RestAPI-protobuf-json/microservices/product-service-protobuf/target/generated-sources/com/luca/error/protobuf/ErrorInfoProto.java:658-663 | The field returns to its default and its bit is cleared. Other fields and bits are unchanged, and consistency is kept. |
| ErrorInfoBuilder.ClearPath | RestAPI-protobuf-json/microservices/product-service-protobuf/target/generated-sources/com/luca/error/protobuf/ErrorInfoProto.java:730-735 | The same as `clearTimestamp`, for `path`. |
| ErrorInfoBuilder.ClearHttpStatus | RestAPI-protobuf-json/microservices/product-service-protobuf/target/generated-sources/com/luca/error/protobuf/ErrorInfoProto.java:776-781 | The same as `clearTimestamp`, for `httpStatus`. |
| ErrorInfoBuilder.ClearMessage | RestAPI-protobuf-json/microservices/product-service-protobuf/target/generated-sources/com/luca/error/protobuf/ErrorInfoProto.java:834-839 | The same as `clearTimestamp`, for `message`. |
| ErrorInfoBuilder.ClearUndoesPut | RestAPI-protobuf-json/microservices/product-service-protobuf/target/generated-sources/com/luca/error/protobuf/ErrorInfoProto.java:646-663 | Setting a string field and then clearing it builds the same message as clearing it alone. |
| ErrorInfoBuilder.ClearUndoesSetHttpStatus | RestAPI-protobuf-json/microservices/product-service-protobuf/target/generated-sources/com/luca/error/protobuf/ErrorInfoProto.java:765-781 | Setting `httpStatus` and then clearing it builds the same message as clearing it alone. |
| ErrorInfoBuilder.Clear | RestAPI-protobuf-json/microservices/product-service-protobuf/target/generated-sources/com/luca/error/protobuf/ErrorInfoProto.java:460-468 | After `clear`, every field holds its default, the whole mask is 0 and there are no unknown fields. |
| ErrorInfoBuilder.ClearIsNew | RestAPI-protobuf-json/microservices/product-service-protobuf/target/generated-sources/com/luca/error/protobuf/ErrorInfoProto.java:460-468 | `clear()` returns any builder to the state of a new one. |
| ErrorInfoBuilder.BuildPartial0 | RestAPI-protobuf-json/microservices/product-service-protobuf/target/generated-sources/com/luca/error/protobuf/ErrorInfoProto.java:498-512 | Exactly the fields whose bit is set are copied into the result. The others keep the result's values. |
| ErrorInfoBuilder.BuildPartial | RestAPI-protobuf-json/microservices/product-service-protobuf/target/generated-sources/com/luca/error/protobuf/ErrorInfoProto.java:491-496 | Each field of the result is the builder's value if its bit is set, and the default otherwise. On a consistent builder this is the builder's current value. Unknown fields are carried over. |
| ErrorInfoBuilder.Build | RestAPI-protobuf-json/microservices/product-service-protobuf/target/generated-sources/com/luca/error/protobuf/ErrorInfoProto.java:482-489 | `build` never throws, because `isInitialized` is always true. The result is that of `buildPartial`. |
| ErrorInfoBuilder.MergeFrom | RestAPI-protobuf-json/microservices/product-service-protobuf/target/generated-sources/com/luca/error/protobuf/ErrorInfoProto.java:524-547 | A non-default field of `other` overwrites the builder's value and sets its bit. A default field leaves value and bit as they were. `other`'s unknown fields are appended. Consistency and well-formedness are kept. |
| ErrorInfoBuilder.MergeField | RestAPI-protobuf-json/microservices/product-service-protobuf/target/generated-sources/com/luca/error/protobuf/ErrorInfoProto.java:526-543 | One field's step of `mergeFrom`, with every other field and bit unchanged. |
| ErrorInfoBuilder.ToBuilder | RestAPI-protobuf-json/microservices/product-service-protobuf/target/generated-sources/com/luca/error/protobuf/ErrorInfoProto.java:417-420 | The builder holds the message's values and unknown fields, and is consistent. |
| UnknownFields.ParseWrittenFields | RestAPI-protobuf-json/microservices/product-service-protobuf/target/generated-sources/com/luca/error/protobuf/ErrorInfoProto.java:268 | Unknown records written by `writeTo` are read back by the unknown-field parser in the same order. |
| UnknownFields.MergeFieldFromPayload | RestAPI-protobuf-json/microservices/product-service-protobuf/target/generated-sources/com/luca/error/protobuf/ErrorInfoProto.java:590-595 | The payload of every well-formed record, groups included, is captured as that very record, and what follows it is left unread. |
| UnknownFields.MergeFieldFrom | RestAPI-protobuf-json/microservices/product-service-protobuf/target/generated-sources/com/luca/error/protobuf/ErrorInfoProto.java:590-595 | A captured record has the tag that was read. An end-group tag, and only that, captures nothing. Wire types 6 and 7 are refused. |
| UnknownFields.MergeFieldSet | RestAPI-protobuf-json/microservices/product-service-protobuf/target/generated-sources/com/luca/error/protobuf/ErrorInfoProto.java:590-595 | The unknown-field parser stops only at the end of the input, having consumed all of it, or at an end-group tag. Every record it captures is well-formed at its nesting depth. |
| UnknownFields.WriteFields | RestAPI-protobuf-json/microservices/product-service-protobuf/target/generated-sources/com/luca/error/protobuf/ErrorInfoProto.java:268 | The unknown records serialise to no bytes exactly when there are none. |
| UnknownFields.FieldsLength | RestAPI-protobuf-json/microservices/product-service-protobuf/target/generated-sources/com/luca/error/protobuf/ErrorInfoProto.java:290 | The unknown fields' share of `getSerializedSize` is the length of their bytes. |
| WireFormat.ReadTagOfEncoding | RestAPI-protobuf-json/microservices/product-service-protobuf/target/generated-sources/com/luca/error/protobuf/ErrorInfoProto.java:565 | `readTag` reads back any written tag with a nonzero field number. |
| WireFormat.ReadTag | RestAPI-protobuf-json/microservices/product-service-protobuf/target/generated-sources/com/luca/error/protobuf/ErrorInfoProto.java:565-569 | `readTag` returns 0 at the end of the input and only there. Any other tag it returns has a nonzero field number and consumes input. A zero tag byte is an invalid tag. |
| WireFormat.ReadLengthDelimitedExtent | RestAPI-protobuf-json/microservices/product-service-protobuf/target/generated-sources/com/luca/error/protobuf/ErrorInfoProto.java:571 | `readBytes` refuses a length whose sign bit is set as a negative size, and a length running past the input as truncated. Otherwise it takes exactly the declared number of bytes, and the payload followed by the rest is what followed the length. |
| WireFormat.ReadStringRefusesOnlyBadUtf8 | RestAPI-protobuf-json/microservices/product-service-protobuf/target/generated-sources/com/luca/error/protobuf/ErrorInfoProto.java:571 | `readStringRequireUtf8` fails with `readBytes`' error where `readBytes` fails. Otherwise it refuses exactly the ill-formed UTF-8 payloads, with an invalid-UTF-8 error, and returns what `readBytes` read. |
| WireFormat.ReadStringOfEncoding | RestAPI-protobuf-json/microservices/product-service-protobuf/target/generated-sources/com/luca/error/protobuf/ErrorInfoProto.java:571 | `readStringRequireUtf8` reads back what `writeString` wrote. |
| WireFormat.ShortPayloadIsTruncated | RestAPI-protobuf-json/microservices/product-service-protobuf/target/generated-sources/com/luca/error/protobuf/ErrorInfoProto.java:571 | A declared length longer than the remaining input is refused as truncated. |
| WireFormat.StringFieldLength | RestAPI-protobuf-json/microservices/product-service-protobuf/target/generated-sources/com/luca/error/protobuf/ErrorInfoProto.java:278 | `computeStringSize` is the length of what `writeString` emits. |
| WireFormat.Int32FieldLength | RestAPI-protobuf-json/microservices/product-service-protobuf/target/generated-sources/com/luca/error/protobuf/ErrorInfoProto.java:284-285 | `computeInt32Size` is the length of what `writeInt32` emits. |
| Varint.ReadInt32OfEncoding | RestAPI-protobuf-json/microservices/product-service-protobuf/target/generated-sources/com/luca/error/protobuf/ErrorInfoProto.java:581 | `readInt32` reads back any int32 written by `writeInt32`, including negative values, which are written as 10 bytes and read back by truncation to 32 bits. |
| Varint.EncodeInt32 | RestAPI-protobuf-json/microservices/product-service-protobuf/target/generated-sources/com/luca/error/protobuf/ErrorInfoProto.java:263 | A negative int32 is written as 10 bytes. |
| Varint.EncodingShape | RestAPI-protobuf-json/microservices/product-service-protobuf/target/generated-sources/com/luca/error/protobuf/ErrorInfoProto.java:263 | Every byte of a written varint but the last has the continuation bit set, and the last does not. |
| Varint.ReadRawVarint64Extent | RestAPI-protobuf-json/microservices/product-service-protobuf/target/generated-sources/com/luca/error/protobuf/ErrorInfoProto.java:590-595 | `readRawVarint64` consumes one to ten bytes, through the first byte without the continuation bit. It fails as truncated exactly when the input runs out before that byte, and as malformed exactly when ten bytes all carry the bit. |
| Varint.ReadRawVarint32IsLowBits | RestAPI-protobuf-json/microservices/product-service-protobuf/target/generated-sources/com/luca/error/protobuf/ErrorInfoProto.java:565 | `readRawVarint32` accepts and refuses the same input as `readRawVarint64`, consumes the same bytes and keeps the low 32 bits of the value. |
| Varint.ReadInt32IsTwosComplement | RestAPI-protobuf-json/microservices/product-service-protobuf/target/generated-sources/com/luca/error/protobuf/ErrorInfoProto.java:581 | `readInt32` accepts and refuses the same input as `readRawVarint32`, and returns the `int` whose two's-complement bits are the 32 bits read. |
| Varint.ReadVarint64OfEncoding | RestAPI-protobuf-json/microservices/product-service-protobuf/target/generated-sources/com/luca/error/protobuf/ErrorInfoProto.java:590-595 | A 64-bit varint is read back exactly. |
| Varint.TenthByteValueIgnored | RestAPI-protobuf-json/microservices/product-service-protobuf/target/generated-sources/com/luca/error/protobuf/ErrorInfoProto.java:590-595 | A varint that runs to ten bytes is read whole, with bit 63 set, and the value bits of its tenth byte are not read: two inputs that differ only there read alike. |
| Varint.ReadGroupsBound | RestAPI-protobuf-json/microservices/product-service-protobuf/target/generated-sources/com/luca/error/protobuf/ErrorInfoProto.java:590-595 | The value read fits the bits its remaining groups carry (64 for a whole varint), and a read through the tenth byte has the top one of them set. |
| Varint.NonCanonicalTenthByte | RestAPI-protobuf-json/microservices/product-service-protobuf/target/generated-sources/com/luca/error/protobuf/ErrorInfoProto.java:590-595 | Nine bytes 0x80 followed by 0x00 read as 2^63, not 0. |
| Primitives.NarrowSignExtended | RestAPI-protobuf-json/microservices/product-service-protobuf/target/generated-sources/com/luca/error/protobuf/ErrorInfoProto.java:581 | Truncating a sign-extended int32 to 32 bits gives back the original value. |
| Utf8.IsValidUtf8 | RestAPI-protobuf-json/microservices/product-service-protobuf/target/generated-sources/com/luca/error/protobuf/ErrorInfoProto.java:672 | The scan behind `checkByteStringIsUtf8` accepts a byte string exactly when it is well-formed UTF-8. |
| ProductMapper.EntityToApi | RestAPI-protobuf-json/microservices/product-service-protobuf/target/generated-sources/annotations/com/luca/core/product/mapper/ProductMapperImpl.java:17-29 | A null entity maps to null without throwing. A null name throws NullPointerException, and nothing else does. Otherwise the message carries the entity's productId, name and weight. |
| ProductMapper.ApiToEntity | RestAPI-protobuf-json/microservices/product-service-protobuf/target/generated-sources/annotations/com/luca/core/product/mapper/ProductMapperImpl.java:32-44 | A null message maps to null. Otherwise the entity carries the message's productId, name and weight. |
| ProductMapper.EntityRoundTrip | RestAPI-protobuf-json/microservices/product-service-protobuf/target/generated-sources/annotations/com/luca/core/product/mapper/ProductMapperImpl.java:17-44 | An entity with a non-null name survives the trip to the message and back unchanged. |
| ProductMapper.ApiRoundTrip | RestAPI-protobuf-json/microservices/product-service-protobuf/target/generated-sources/annotations/com/luca/core/product/mapper/ProductMapperImpl.java:17-44 | Every message without unknown fields, and null, survives the trip to the entity and back unchanged. |

## Left out

- `hashCode` and the memo fields `memoizedSize` / `memoizedIsInitialized`. The hash depends on Java's `String.hashCode` and on descriptor identity, and the memo fields only cache results.
- Descriptors, `FieldAccessorTable`, runtime-version checks, `registerAllExtensions` and the extension registry. These are reflection and environment plumbing. `mergeFrom(CodedInputStream, null)` throws NullPointerException for a null registry, and that check is not modelled.
- The lazy `String`/`ByteString` caches in the getters, and the `getXBytes` getters. A string is modelled as its UTF-8 bytes.
- `onChanged`, `onBuilt`, `BuilderParent`, and the Spring and MapStruct annotations. These are framework hooks with no effect on values.
- `mergeFrom(Message)` for messages of other types. It goes through the runtime's reflective merge. For an `ErrorInfo` argument it is `mergeFrom(ErrorInfo)`, which is modelled.
- The stream, `ByteBuffer`, `ByteString` and delimited `parseFrom` overloads, and the partial message attached to a parse exception. Only `parseFrom(byte[])` is modelled.
- The `CodedInputStream` size limit, and any limit on the size of the whole input. The limit on group nesting depth (100) is modelled.
- ErrorInfoMessage.EqualsIsEquality, and the predicate `Equals` it is about: the unknown fields are a list, kept in the order the records were read. The runtime's `UnknownFieldSet` is a map sorted by field number. Within one number, it groups the records by wire type: varints, then fixed32, fixed64, length-delimited and groups. Its `equals` is equality of those maps. So `Equals` and `EqualsIsEquality` are finer than Java's `equals`: two messages whose unknown records differ only in an order the map forgets are equal in Java but not in the model. Appending lists in `mergeFrom` and in the parse loop agrees with the runtime's merge once both sides are put in that canonical order.
- ErrorInfoMessage.WriteTo: the unknown records are written in list order. Java writes them in the canonical order above, so the bytes agree only when the list is already in that order, as it is for records that arrive in increasing field-number order with one wire type per number. `ParseOfWriteTo` and `ParseOfConcatenation` are stated about the list. `WriteTo` emits the bytes of any string field; what the runtime does when asked to write a `String` longer than an `int` can count is not modelled.
- ErrorInfoBuilder.OthersUnchanged: setters and clearers are stated to keep the other three fields' values and presence bits. They are not stated to keep bits 4-31 of `bitField0_` unchanged. `Consistent` does state that those bits stay 0.
- The protobuf runtime's own classes are not reproduced. `Varint`, `WireFormat`, `UnknownFields` and `Utf8` model the parts of `CodedInputStream`, `CodedOutputStream`, `UnknownFieldSet` and `Utf8` that this code calls. They follow the runtime's behaviour: `CodedInputStream.readTag` returns 0 only at the end of the input and refuses a zero field number as an invalid tag, a varint reader takes at most ten bytes, the byte-array decoder behind `parseFrom(byte[])` reads the tenth byte of a varint only for its continuation bit and sets bit 63, and `parseFrom` refuses input containing a top-level end-group tag. Byte layouts follow the Protocol Buffers encoding guide. Stream buffering, refills and aliasing are left out.
- ErrorInfoMessage.SerializedSize: the size is an unbounded `nat`. The generated code adds the field sizes in a Java `int`, which wraps once the sum passes 2^31 - 1. Before that, sizing a single `String` field whose UTF-8 form is longer than 2^31 - 1 bytes throws `IllegalArgumentException`. `JavaSerializedSize` models both the throw and the wrap. `SerializedSizeIsLength` and `RecordLength` are about the true size, and `WellFormed` does not bound it, because `toByteArray` cannot allocate an array that long in any case.
- `Product` and `ProductEntity` are modelled only as three-field records. `weight` is a type parameter that is only copied, so there is no floating-point arithmetic. The `Product` message's own wire codec is not part of this model, because its generated class is not part of it either. A `Product`'s unknown fields are not modelled either. `apiToEntity` drops them, so `ApiRoundTrip` is stated for messages that have none. `ProductEntity` is not part of this model: its `getProductId`, `getName` and `getWeight` are taken to be plain getters that neither throw nor compute, so a null name is the only way `entityToApi` throws.
- ProductMapper.EntityRoundTrip: stated for entities whose name is non-null, since a null name throws in `entityToApi`.
- ErrorInfoBuilder.SetTimestamp, and likewise `SetPath` and `SetMessage`: a Java `String` is modelled as the bytes `writeTo` emits for it. An unpaired surrogate such as `"\uD800"` cannot be represented. Java accepts it in the setter and writes it as `?`, so such a message does not round-trip in Java either, and that is not modelled. In the other direction, these setters accept any byte sequence, while only well-formed UTF-8 stands for a Java `String`. Arguments that are not well-formed UTF-8 model no Java call; `SetStringBytes` is the operation that meets such bytes and refuses them.
- Concurrency and the `volatile` publication of the cached fields.
