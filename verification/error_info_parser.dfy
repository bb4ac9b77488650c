/** The generated `mergeFrom(CodedInputStream)` loop and the one `parseFrom(byte[])` entry point built
    on it, with the proofs that what `writeTo` emits is read back. */
module ErrorInfoParser {
  import opened Primitives
  import opened Wrappers
  import opened Utf8
  import opened Varint
  import opened WireFormat
  import opened UnknownFields
  import opened ErrorInfoMessage
  import opened ErrorInfoBuilder

  /** Where the loop stopped: the builder it filled, and the tag that ended it (0 at the end of the
      input, otherwise the end-group tag that `parseUnknownField` refused). */
  datatype Stop = Stop(builder: Builder, lastTag: nat)

  /** One pass of the loop body: either the loop goes on with a builder and the unread input, or it
      has stopped. */
  datatype Step = Continue(next: Builder, rest: seq<byte>) | Done(stop: Stop)

  /** The `switch (tag)` case labels: 10, 18, 24 and 34 name the four fields; any other tag is
      left to `parseUnknownField`. */
  function FieldOfTag(tag: nat): (r: Option<Field>)
    ensures r.Some? <==> IsKnownTag(tag)
    ensures r.Some? ==> KnownTag(r.value) == tag
  {
    KnownTagValues();
    if tag == 10 then Some(Timestamp)
    else if tag == 18 then Some(Path)
    else if tag == 24 then Some(HttpStatus)
    else if tag == 34 then Some(Message)
    else None
  }

  /** The body of the `while (!done)` loop of `Builder.mergeFrom(CodedInputStream,
      ExtensionRegistryLite)`: read a tag; 0 ends the loop; a field's tag stores the value read
      into that field; every other tag goes to `parseUnknownField`, which appends a record or, for
      an end-group tag, ends the loop. */
  function MergeStep(b: Builder, s: seq<byte>): (r: Result<Step, ParseError>)
    ensures r.Success? && r.value.Continue? ==> |r.value.rest| < |s|
    ensures r.Success? && r.value.Done? ==> r.value.stop.builder == b
    ensures r.Success? && r.value.Done? ==>
              r.value.stop.lastTag == 0 || TagWireTypeCode(r.value.stop.lastTag) == 4
    ensures r.Success? && r.value.Continue? && Consistent(b) ==> Consistent(r.value.next)
    ensures r.Success? && r.value.Continue? && BuilderWellFormed(b) ==> BuilderWellFormed(r.value.next)
  {
    var t :- ReadTag(s);
    if t.0 == 0 then Success(Done(Stop(b, 0)))
    else
      match FieldOfTag(t.0)
      case Some(f) => ReadField(b, f, t.1)
      case None =>
        var u :- MergeFieldFrom(t.0, t.1, 0);
        if u.0.None? then Success(Done(Stop(b, t.0)))
        else Success(Continue(AddUnknown(b, u.0.value), u.1))
  }

  /** A case of the switch: `readStringRequireUtf8` into a string field, `readInt32` into
      `httpStatus`, and the field's presence bit set, even when the value read is the default. */
  function ReadField(b: Builder, f: Field, s: seq<byte>): (r: Result<Step, ParseError>)
    ensures r.Success? ==> r.value.Continue? && |r.value.rest| < |s|
    ensures r.Success? ==> r.value.next.Has(f) && OthersUnchanged(b, r.value.next, f)
    ensures r.Success? && f.IsString() ==> ValidString(r.value.next.Get(f).bytes)
    ensures f.IsString() ==> (r.Success? <==> ReadStringRequireUtf8(s).Success?)
    ensures !f.IsString() ==> (r.Success? <==> ReadInt32(s).Success?)
    ensures r.Success? && Consistent(b) ==> Consistent(r.value.next)
    ensures r.Success? && BuilderWellFormed(b) ==> BuilderWellFormed(r.value.next)
  {
    if f.IsString() then
      var v :- ReadStringRequireUtf8(s);
      Success(Continue(PutString(b, f, v.0), v.1))
    else
      var v :- ReadInt32(s);
      Success(Continue(SetHttpStatus(b, v.0), v.1))
  }

  /** `Builder.mergeFrom(CodedInputStream, ExtensionRegistryLite)`: the loop body until it stops or
      an exception leaves it. */
  function MergeFromInput(b: Builder, s: seq<byte>): (r: Result<Stop, ParseError>)
    ensures r.Success? ==> r.value.lastTag == 0 || TagWireTypeCode(r.value.lastTag) == 4
    ensures r.Success? && Consistent(b) ==> Consistent(r.value.builder)
    ensures r.Success? && BuilderWellFormed(b) ==> BuilderWellFormed(r.value.builder)
    decreases |s|
  {
    var step :- MergeStep(b, s);
    match step
    case Done(stop) => Success(stop)
    case Continue(next, rest) => MergeFromInput(next, rest)
  }

  /** A step that goes on is followed by the rest of the loop. */
  lemma MergeAfterStep(b: Builder, s: seq<byte>, next: Builder, rest: seq<byte>)
    requires MergeStep(b, s) == Success(Continue(next, rest))
    ensures MergeFromInput(b, s) == MergeFromInput(next, rest)
  {
  }

  /** `parseUnknownField` keeping a record: it goes after the ones already held. */
  function AddUnknown(b: Builder, u: UnknownField): (r: Builder)
    ensures r.unknownFields == b.unknownFields + [u]
    ensures forall f :: r.Get(f) == b.Get(f) && r.Has(f) == b.Has(f)
    ensures Consistent(b) ==> Consistent(r)
    ensures BuilderWellFormed(b) && WellFormedField(u, 0) && !IsKnownTag(FieldTag(u)) ==> BuilderWellFormed(r)
  {
    b.(unknownFields := b.unknownFields + [u])
  }

  /** `ErrorInfo.parseFrom(byte[])`: a fresh builder filled by the loop, refused with
      `InvalidEndTag` when the loop stopped at an end-group tag rather than at the end of the input,
      and otherwise frozen by `buildPartial`. */
  function ParseFrom(s: seq<byte>): (r: Result<ErrorInfo, ParseError>)
    ensures r.Success? ==> WellFormed(r.value)
  {
    var stop :- MergeFromInput(NewBuilder(), s);
    if stop.lastTag != 0 then Failure(InvalidEndTag)
    else Success(BuildPartial(stop.builder))
  }

  /** The bytes `writeTo` emits for field `f` of `m`: nothing for a default value, otherwise the
      field's tag and its value. */
  function FieldRecord(m: ErrorInfo, f: Field): (bytes: seq<byte>)
    ensures |bytes| == 0 <==> m.Get(f) == DefaultValue(f)
  {
    match m.Get(f)
    case StringValue(s) => if |s| == 0 then [] else WriteStringField(FieldNumber(f), s)
    case Int32Value(v) => if v == 0 then [] else WriteInt32Field(FieldNumber(f), v)
  }

  /** `writeTo` is the four field records in field-number order, each present exactly when the field
      differs from its default, followed by the unknown records. */
  lemma WriteToLayout(m: ErrorInfo)
    ensures WriteTo(m) == FieldRecord(m, Timestamp) + FieldRecord(m, Path) + FieldRecord(m, HttpStatus)
                          + FieldRecord(m, Message) + WriteFields(m.unknownFields)
  {
  }

  /** A field's tag sends the loop to that field's case. */
  lemma StepOfKnownTag(b: Builder, f: Field, rest: seq<byte>)
    ensures MergeStep(b, EncodeVarint(KnownTag(f)) + rest) == ReadField(b, f, rest)
  {
    KnownTagValues();
    ReadTagOfEncoding(KnownTag(f), rest);
    assert FieldOfTag(KnownTag(f)) == Some(f);
  }

  /** A string field's payload is read into that field, and the loop carries on after it. */
  lemma ReadStringField(b: Builder, f: Field, v: seq<byte>, rest: seq<byte>)
    requires f.IsString() && ValidString(v)
    ensures ReadField(b, f, WriteLengthDelimited(v) + rest) == Success(Continue(PutString(b, f, v), rest))
  {
    ReadStringOfEncoding(v, rest);
  }

  /** A string field's record is its tag followed by the length-prefixed bytes. */
  lemma StringRecordBytes(f: Field, v: seq<byte>, rest: seq<byte>)
    requires f.IsString()
    ensures WriteStringField(FieldNumber(f), v) + rest == EncodeVarint(KnownTag(f)) + (WriteLengthDelimited(v) + rest)
  {
  }

  /** A string field's record is read back into that field, and the loop carries on after it. */
  lemma ParseStringRecord(b: Builder, f: Field, v: seq<byte>, rest: seq<byte>)
    requires f.IsString() && ValidString(v)
    ensures MergeStep(b, WriteStringField(FieldNumber(f), v) + rest) == Success(Continue(PutString(b, f, v), rest))
    ensures MergeFromInput(b, WriteStringField(FieldNumber(f), v) + rest)
            == MergeFromInput(PutString(b, f, v), rest)
  {
    var s := WriteStringField(FieldNumber(f), v) + rest;
    StringRecordBytes(f, v, rest);
    StepOfKnownTag(b, f, WriteLengthDelimited(v) + rest);
    ReadStringField(b, f, v, rest);
    MergeAfterStep(b, s, PutString(b, f, v), rest);
  }

  /** The `httpStatus` payload, negative values included, is read into `httpStatus`. */
  lemma ReadInt32Field(b: Builder, v: int32, rest: seq<byte>)
    ensures ReadField(b, HttpStatus, EncodeInt32(v) + rest) == Success(Continue(SetHttpStatus(b, v), rest))
  {
    ReadInt32OfEncoding(v, rest);
  }

  /** The `httpStatus` record is its tag followed by the value's varint. */
  lemma Int32RecordBytes(v: int32, rest: seq<byte>)
    ensures WriteInt32Field(HttpStatusFieldNumber, v) + rest == EncodeVarint(KnownTag(HttpStatus)) + (EncodeInt32(v) + rest)
  {
  }

  /** The `httpStatus` record, negative values included, is read back into `httpStatus`. */
  lemma ParseInt32Record(b: Builder, v: int32, rest: seq<byte>)
    ensures MergeStep(b, WriteInt32Field(HttpStatusFieldNumber, v) + rest) == Success(Continue(SetHttpStatus(b, v), rest))
    ensures MergeFromInput(b, WriteInt32Field(HttpStatusFieldNumber, v) + rest)
            == MergeFromInput(SetHttpStatus(b, v), rest)
  {
    var s := WriteInt32Field(HttpStatusFieldNumber, v) + rest;
    Int32RecordBytes(v, rest);
    StepOfKnownTag(b, HttpStatus, EncodeInt32(v) + rest);
    ReadInt32Field(b, v, rest);
    MergeAfterStep(b, s, SetHttpStatus(b, v), rest);
  }

  /** One record under a tag the loop does not know is appended to the unknown fields. */
  lemma ParseUnknownRecord(b: Builder, u: UnknownField, rest: seq<byte>)
    requires WellFormedField(u, 0) && !IsKnownTag(FieldTag(u))
    ensures MergeStep(b, WriteField(u) + rest) == Success(Continue(AddUnknown(b, u), rest))
    ensures MergeFromInput(b, WriteField(u) + rest) == MergeFromInput(AddUnknown(b, u), rest)
  {
    KnownTagValues();
    var s := WriteField(u) + rest;
    assert s == EncodeVarint(FieldTag(u)) + (WritePayload(u) + rest);
    ReadTagOfEncoding(FieldTag(u), WritePayload(u) + rest);
    MergeFieldFromPayload(u, rest, 0);
    MergeAfterStep(b, s, AddUnknown(b, u), rest);
  }

  /** A list of such records is appended in order. */
  lemma {:induction false} ParseUnknownRecords(b: Builder, us: seq<UnknownField>, rest: seq<byte>)
    requires WellFormedUnknown(us)
    ensures MergeFromInput(b, WriteFields(us) + rest) == MergeFromInput(AppendUnknown(b, us), rest)
    decreases |us|
  {
    if |us| == 0 {
      assert WriteFields(us) + rest == rest;
      AppendNothing(b);
    } else {
      var tail := WriteFields(us[1..]) + rest;
      SplitUnknown(us, rest);
      ParseUnknownRecord(b, us[0], tail);
      ParseUnknownRecords(AddUnknown(b, us[0]), us[1..], rest);
      AppendAfterAdd(b, us);
    }
  }

  /** The builder after `parseUnknownField` has appended the records `us`. */
  function AppendUnknown(b: Builder, us: seq<UnknownField>): (r: Builder)
    ensures r.unknownFields == b.unknownFields + us
  {
    b.(unknownFields := b.unknownFields + us)
  }

  lemma AppendNothing(b: Builder)
    ensures AppendUnknown(b, []) == b
  {
    assert b.unknownFields + [] == b.unknownFields;
  }

  lemma AppendAfterAdd(b: Builder, us: seq<UnknownField>)
    requires |us| > 0
    ensures AppendUnknown(AddUnknown(b, us[0]), us[1..]) == AppendUnknown(b, us)
  {
    assert (b.unknownFields + [us[0]]) + us[1..] == b.unknownFields + us;
  }

  /** The first of a list of top-level unknown records, and the rest. */
  lemma SplitUnknown(us: seq<UnknownField>, rest: seq<byte>)
    requires WellFormedUnknown(us) && |us| > 0
    ensures WellFormedField(us[0], 0) && !IsKnownTag(FieldTag(us[0]))
    ensures WellFormedUnknown(us[1..])
    ensures WriteFields(us) + rest == WriteField(us[0]) + (WriteFields(us[1..]) + rest)
  {
    assert WellFormedField(us[0], 0);
  }

  /** Reading field `f`'s record has the effect of `mergeFrom`'s step for `f`. */
  lemma ParseFieldRecord(b: Builder, m: ErrorInfo, f: Field, rest: seq<byte>)
    requires WellFormed(m)
    ensures MergeFromInput(b, FieldRecord(m, f) + rest) == MergeFromInput(MergeField(b, m, f), rest)
  {
    if m.Get(f) == DefaultValue(f) {
      assert FieldRecord(m, f) + rest == rest;
    } else if f.IsString() {
      ParseStringRecord(b, f, m.Get(f).bytes, rest);
    } else {
      ParseInt32Record(b, m.httpStatus, rest);
    }
  }

  /** Reading a serialised message into a builder has the effect of `mergeFrom(ErrorInfo)` with that
      message, and the loop then carries on with whatever followed it. */
  lemma ParseWritten(b: Builder, m: ErrorInfo, rest: seq<byte>)
    requires WellFormed(m)
    ensures MergeFromInput(b, WriteTo(m) + rest) == MergeFromInput(MergeFrom(b, m), rest)
  {
    var tail := WriteFields(m.unknownFields) + rest;
    WriteToThenRest(m, rest);
    ParseFieldRecords(b, m, tail);
    ParseUnknownRecords(MergeKnownFields(b, m), m.unknownFields, rest);
    MergeFieldsInSteps(b, m);
    MergeShortcutIsRedundant(b, m);
  }

  /** `mergeFrom`'s four field steps, in field-number order. */
  function MergeKnownFields(b: Builder, m: ErrorInfo): Builder {
    MergeField(MergeField(MergeField(MergeField(b, m, Timestamp), m, Path), m, HttpStatus), m, Message)
  }

  lemma MergeFieldsInSteps(b: Builder, m: ErrorInfo)
    ensures MergeFields(b, m) == AppendUnknown(MergeKnownFields(b, m), m.unknownFields)
  {
  }

  lemma WriteToThenRest(m: ErrorInfo, rest: seq<byte>)
    ensures WriteTo(m) + rest
            == FieldRecord(m, Timestamp) + (FieldRecord(m, Path) + (FieldRecord(m, HttpStatus)
               + (FieldRecord(m, Message) + (WriteFields(m.unknownFields) + rest))))
  {
    WriteToLayout(m);
    Regroup(FieldRecord(m, Timestamp), FieldRecord(m, Path), FieldRecord(m, HttpStatus), FieldRecord(m, Message),
            WriteFields(m.unknownFields), rest);
  }

  lemma Regroup(a: seq<byte>, b: seq<byte>, c: seq<byte>, d: seq<byte>, e: seq<byte>, rest: seq<byte>)
    ensures a + b + c + d + e + rest == a + (b + (c + (d + (e + rest))))
  {
  }

  /** The four field records are read as `mergeFrom`'s four field steps. */
  lemma ParseFieldRecords(b: Builder, m: ErrorInfo, tail: seq<byte>)
    requires WellFormed(m)
    ensures MergeFromInput(b, FieldRecord(m, Timestamp) + (FieldRecord(m, Path) + (FieldRecord(m, HttpStatus)
              + (FieldRecord(m, Message) + tail))))
            == MergeFromInput(MergeKnownFields(b, m), tail)
  {
    var r2, r3, r4 := FieldRecord(m, Path), FieldRecord(m, HttpStatus), FieldRecord(m, Message);
    var b1 := MergeField(b, m, Timestamp);
    var b2 := MergeField(b1, m, Path);
    var b3 := MergeField(b2, m, HttpStatus);
    ParseFieldRecord(b, m, Timestamp, r2 + (r3 + (r4 + tail)));
    ParseFieldRecord(b1, m, Path, r3 + (r4 + tail));
    ParseFieldRecord(b2, m, HttpStatus, r4 + tail);
    ParseFieldRecord(b3, m, Message, tail);
  }

  /** `mergeFrom`'s skip of the default instance changes nothing: merging it field by field leaves
      the builder as it was. */
  lemma MergeShortcutIsRedundant(b: Builder, m: ErrorInfo)
    ensures MergeFrom(b, m) == MergeFields(b, m)
  {
    if m == DefaultInstance() {
      MergeDefaultIsNoOp(b);
    }
  }

  lemma MergeDefaultIsNoOp(b: Builder)
    ensures MergeFields(b, DefaultInstance()) == b
    ensures MergeFrom(b, DefaultInstance()) == b
  {
    assert b.unknownFields + [] == b.unknownFields;
  }

  /** The end of the input stops the loop with the builder as it is. */
  lemma ParseNothing(b: Builder)
    ensures MergeFromInput(b, []) == Success(Stop(b, 0))
  {
  }

  /** Round trip: parsing what `writeTo` emits gives back the message, for every message whose
      strings are well-formed UTF-8 and whose unknown records the parser could have captured. */
  lemma ParseOfWriteTo(m: ErrorInfo)
    requires WellFormed(m)
    ensures ParseFrom(WriteTo(m)) == Success(m)
    ensures ParseFrom(WriteTo(m)).Success? && Equals(ParseFrom(WriteTo(m)).value, m)
  {
    ParseWritten(NewBuilder(), m, []);
    assert WriteTo(m) + [] == WriteTo(m);
    BuildOfMerged(m);
    EqualsIsEquality(m, m);
  }

  /** Parsing two serialised messages one after the other is merging the second into the first:
      later non-default fields win, earlier ones survive, unknown records accumulate. */
  lemma ParseOfConcatenation(a: ErrorInfo, c: ErrorInfo)
    requires WellFormed(a) && WellFormed(c)
    ensures ParseFrom(WriteTo(a) + WriteTo(c))
            == Success(BuildPartial(MergeFrom(MergeFrom(NewBuilder(), a), c)))
  {
    var first := MergeFrom(NewBuilder(), a);
    var both := MergeFrom(first, c);
    ParseWritten(NewBuilder(), a, WriteTo(c));
    ParseWritten(first, c, []);
    assert WriteTo(c) + [] == WriteTo(c);
    ParseNothing(both);
    assert MergeFromInput(NewBuilder(), WriteTo(a) + WriteTo(c)) == Success(Stop(both, 0));
  }

  /** A string field seen twice keeps the value read last. */
  lemma LastStringWins(f: Field, x: seq<byte>, y: seq<byte>)
    requires f.IsString() && ValidString(x) && ValidString(y)
    ensures ParseFrom(WriteStringField(FieldNumber(f), x) + WriteStringField(FieldNumber(f), y)).Success?
    ensures ParseFrom(WriteStringField(FieldNumber(f), x) + WriteStringField(FieldNumber(f), y)).value.Get(f)
            == StringValue(y)
  {
    var b1 := PutString(NewBuilder(), f, x);
    ParseStringRecord(NewBuilder(), f, x, WriteStringField(FieldNumber(f), y));
    ParseStringRecord(b1, f, y, []);
    assert WriteStringField(FieldNumber(f), y) + [] == WriteStringField(FieldNumber(f), y);
  }

  /** `httpStatus` seen twice keeps the value read last. */
  lemma LastInt32Wins(x: int32, y: int32)
    ensures ParseFrom(WriteInt32Field(HttpStatusFieldNumber, x) + WriteInt32Field(HttpStatusFieldNumber, y)).Success?
    ensures ParseFrom(WriteInt32Field(HttpStatusFieldNumber, x) + WriteInt32Field(HttpStatusFieldNumber, y)).value.httpStatus
            == y
  {
    var b1 := SetHttpStatus(NewBuilder(), x);
    ParseInt32Record(NewBuilder(), x, WriteInt32Field(HttpStatusFieldNumber, y));
    ParseInt32Record(b1, y, []);
    assert WriteInt32Field(HttpStatusFieldNumber, y) + [] == WriteInt32Field(HttpStatusFieldNumber, y);
  }

  /** The empty input is the default instance, and the default instance encodes to nothing. */
  lemma EmptyIsDefault()
    ensures WriteTo(DefaultInstance()) == []
    ensures ParseFrom([]) == Success(DefaultInstance())
  {
  }

  /** A string field sent with its default value explicitly parses to the default message: the
      presence bit is set, but the value is still `""`. */
  lemma ExplicitDefaultIsInvisible(f: Field)
    requires f.IsString()
    ensures ParseFrom(WriteStringField(FieldNumber(f), [])) == Success(DefaultInstance())
  {
    assert ValidUtf8([]);
    ParseStringRecord(NewBuilder(), f, [], []);
    assert WriteStringField(FieldNumber(f), []) + [] == WriteStringField(FieldNumber(f), []);
  }

  /** An end-group tag with no group open stops the loop, and `parseFrom` refuses the input. */
  lemma StrayEndGroupIsRefused(number: nat, rest: seq<byte>)
    requires 1 <= number <= MaxFieldNumber
    ensures ParseFrom(WriteTag(number, EndGroupWire) + rest) == Failure(InvalidEndTag)
  {
    var tag := MakeTag(number, EndGroupWire);
    KnownTagValues();
    ReadTagOfEncoding(tag, rest);
  }

  /** A length-delimited record whose declared length runs past the end of the input is truncated,
      whether its tag is one of the four fields' or not. */
  lemma ShortRecordIsTruncated(number: nat, size: nat, payload: seq<byte>)
    requires 1 <= number <= MaxFieldNumber && |payload| < size <= MaxInt32
    ensures ParseFrom(WriteTag(number, LengthDelimitedWire) + EncodeVarint(size) + payload)
            == Failure(TruncatedMessage)
  {
    var tag := MakeTag(number, LengthDelimitedWire);
    KnownTagValues();
    ReadTagOfEncoding(tag, EncodeVarint(size) + payload);
    assert WriteTag(number, LengthDelimitedWire) + EncodeVarint(size) + payload
           == EncodeVarint(tag) + (EncodeVarint(size) + payload);
    ShortPayloadIsTruncated(size, payload);
  }

  /** Bytes that are not well-formed UTF-8 are refused in a string field. */
  lemma InvalidUtf8IsRefused(f: Field, p: seq<byte>)
    requires f.IsString() && !ValidUtf8(p) && |p| <= MaxInt32
    ensures ParseFrom(WriteStringField(FieldNumber(f), p)) == Failure(InvalidUtf8)
  {
    var s := WriteStringField(FieldNumber(f), p);
    assert s == EncodeVarint(KnownTag(f)) + (WriteLengthDelimited(p) + []);
    StepOfKnownTag(NewBuilder(), f, WriteLengthDelimited(p) + []);
    ReadLengthDelimitedOfEncoding(p, []);
    MergeStopsOnError(NewBuilder(), s);
  }

  /** An exception in a step leaves the loop. */
  lemma MergeStopsOnError(b: Builder, s: seq<byte>)
    requires MergeStep(b, s).Failure?
    ensures MergeFromInput(b, s) == Failure(MergeStep(b, s).error)
  {
  }

  /** The same bytes are kept verbatim when the length-delimited record arrives under a field number the
      message does not declare. */
  lemma UnknownBytesAreKept(number: nat, p: seq<byte>)
    requires 5 <= number <= MaxFieldNumber && |p| <= MaxInt32
    ensures ParseFrom(WriteStringField(number, p)).Success?
    ensures ParseFrom(WriteStringField(number, p)).value.unknownFields
            == [UnknownField(number, LengthDelimitedValue(p))]
  {
    KnownTagValues();
    var u := UnknownField(number, LengthDelimitedValue(p));
    assert WriteField(u) + [] == WriteStringField(number, p);
    ParseUnknownRecord(NewBuilder(), u, []);
  }

  /** Building after merging a message into a fresh builder gives the message back. */
  lemma BuildOfMerged(m: ErrorInfo)
    ensures BuildPartial(MergeFrom(NewBuilder(), m)) == m
  {
    var r := BuildPartial(MergeFrom(NewBuilder(), m));
    forall f: Field
      ensures r.Get(f) == m.Get(f)
    {
    }
    assert [] + m.unknownFields == m.unknownFields;
    EqualsIsEquality(r, m);
  }

  /** `toBuilder().build()` is the identity. */
  lemma BuildOfToBuilder(m: ErrorInfo)
    ensures BuildPartial(ToBuilder(m)) == m
    ensures Build(ToBuilder(m)) == Success(m)
  {
    var r := BuildPartial(ToBuilder(m));
    EqualsIsEquality(r, m);
  }

  /** `getSerializedSize` is the number of bytes `writeTo` emits. */
  lemma SerializedSizeIsLength(m: ErrorInfo)
    requires WellFormed(m)
    ensures |WriteTo(m)| == SerializedSize(m)
  {
    WriteToLength(m);
    SerializedSizeLayout(m);
    RecordLength(m, Timestamp);
    RecordLength(m, Path);
    RecordLength(m, HttpStatus);
    RecordLength(m, Message);
    FieldsLength(m.unknownFields, 0);
  }

  lemma WriteToLength(m: ErrorInfo)
    ensures |WriteTo(m)| == |FieldRecord(m, Timestamp)| + |FieldRecord(m, Path)| + |FieldRecord(m, HttpStatus)|
                            + |FieldRecord(m, Message)| + |WriteFields(m.unknownFields)|
  {
    WriteToLayout(m);
  }

  /** The size of field `f`'s record, from the library's size functions. */
  function RecordSize(m: ErrorInfo, f: Field): nat {
    match m.Get(f)
    case StringValue(s) => if |s| == 0 then 0 else StringFieldSize(FieldNumber(f), s)
    case Int32Value(v) => if v == 0 then 0 else Int32FieldSize(FieldNumber(f), v)
  }

  lemma SerializedSizeLayout(m: ErrorInfo)
    ensures SerializedSize(m) == RecordSize(m, Timestamp) + RecordSize(m, Path) + RecordSize(m, HttpStatus)
                                 + RecordSize(m, Message) + FieldsSize(m.unknownFields)
  {
  }

  lemma RecordLength(m: ErrorInfo, f: Field)
    requires WellFormed(m)
    ensures |FieldRecord(m, f)| == RecordSize(m, f)
  {
    if f.IsString() {
      StringFieldLength(FieldNumber(f), m.Get(f).bytes);
    } else {
      Int32FieldLength(FieldNumber(f), m.httpStatus);
    }
  }
}
