/** The `ErrorInfo` message of `ErrorInfo.proto` (proto3):
      string timestamp = 1; string path = 2; int32 httpStatus = 3; string message = 4;
    an immutable value with its unknown-field list, its field-wise equality and its serialisation. */
module ErrorInfoMessage {
  import opened Wrappers
  import opened Primitives
  import opened Utf8
  import opened Varint
  import opened WireFormat
  import opened UnknownFields

  const TimestampFieldNumber: nat := 1
  const PathFieldNumber: nat := 2
  const HttpStatusFieldNumber: nat := 3
  const MessageFieldNumber: nat := 4

  datatype Field = Timestamp | Path | HttpStatus | Message {
    predicate IsString() {
      this != HttpStatus
    }
  }

  /** The value a field holds: a string as its UTF-8 bytes, or an `int`. */
  datatype FieldValue = StringValue(bytes: seq<byte>) | Int32Value(number: int32)

  function FieldNumber(f: Field): (n: nat)
    ensures 1 <= n <= 4
  {
    match f
    case Timestamp => TimestampFieldNumber
    case Path => PathFieldNumber
    case HttpStatus => HttpStatusFieldNumber
    case Message => MessageFieldNumber
  }

  function FieldWireType(f: Field): WireType {
    if f.IsString() then LengthDelimitedWire else VarintWire
  }

  /** The tag under which the parser recognises a field. */
  function KnownTag(f: Field): nat {
    MakeTag(FieldNumber(f), FieldWireType(f))
  }

  predicate IsKnownTag(tag: nat) {
    tag == KnownTag(Timestamp) || tag == KnownTag(Path) || tag == KnownTag(HttpStatus) || tag == KnownTag(Message)
  }

  /** The generated parser's case labels 10, 18, 24 and 34 are `(number << 3) | wireType` of the
      four fields, strings being length-delimited (2) and the `int32` a varint (0). */
  lemma KnownTagValues()
    ensures KnownTag(Timestamp) == 10 && KnownTag(Path) == 18
    ensures KnownTag(HttpStatus) == 24 && KnownTag(Message) == 34
    ensures forall tag :: IsKnownTag(tag) <==> tag == 10 || tag == 18 || tag == 24 || tag == 34
  {
  }

  /** The proto3 default: `""` for a string, `0` for an `int32`. */
  function DefaultValue(f: Field): (v: FieldValue)
    ensures f.IsString() <==> v.StringValue?
  {
    if f.IsString() then StringValue([]) else Int32Value(0)
  }

  datatype ErrorInfo = ErrorInfo(
    timestamp: seq<byte>,
    path: seq<byte>,
    httpStatus: int32,
    message: seq<byte>,
    unknownFields: seq<UnknownField>)
  {
    /** The getters `getTimestamp`, `getPath`, `getHttpStatus`, `getMessage`. */
    function Get(f: Field): (v: FieldValue)
      ensures f.IsString() <==> v.StringValue?
    {
      match f
      case Timestamp => StringValue(timestamp)
      case Path => StringValue(path)
      case HttpStatus => Int32Value(httpStatus)
      case Message => StringValue(message)
    }
  }

  /** `DEFAULT_INSTANCE`, made by the private no-argument constructor. */
  function DefaultInstance(): (m: ErrorInfo)
    ensures forall f :: m.Get(f) == DefaultValue(f)
    ensures m.unknownFields == []
  {
    ErrorInfo([], [], 0, [], [])
  }

  /** A string as Java can hold it: well-formed UTF-8 no longer than a Java array. */
  predicate ValidString(s: seq<byte>) {
    ValidUtf8(s) && |s| <= MaxInt32
  }

  /** Unknown records the parser could have captured at the top level: well-formed, and not under
      one of the four tags it would have stored in a field instead. */
  predicate WellFormedUnknown(fs: seq<UnknownField>) {
    && WellFormedFields(fs, 0)
    && forall i :: 0 <= i < |fs| ==> !IsKnownTag(FieldTag(fs[i]))
  }

  /** Every message the setters, `mergeFrom` and the parser can produce. */
  predicate WellFormed(m: ErrorInfo) {
    && ValidString(m.timestamp)
    && ValidString(m.path)
    && ValidString(m.message)
    && WellFormedUnknown(m.unknownFields)
  }

  /** `isInitialized`: proto3 has no required fields, so every message is initialised. */
  function IsInitialized(m: ErrorInfo): (r: bool)
    ensures r
  {
    true
  }

  /** `writeTo`: the fields in field-number order, each only when it differs from its default,
      then the unknown records. */
  function WriteTo(m: ErrorInfo): (r: seq<byte>)
    ensures |r| == 0 <==> m == DefaultInstance()
  {
    (if |m.timestamp| != 0 then WriteStringField(TimestampFieldNumber, m.timestamp) else [])
    + (if |m.path| != 0 then WriteStringField(PathFieldNumber, m.path) else [])
    + (if m.httpStatus != 0 then WriteInt32Field(HttpStatusFieldNumber, m.httpStatus) else [])
    + (if |m.message| != 0 then WriteStringField(MessageFieldNumber, m.message) else [])
    + WriteFields(m.unknownFields)
  }

  /** `getSerializedSize`, built from the library's size functions rather than from the bytes. */
  function SerializedSize(m: ErrorInfo): (n: nat)
    ensures n == 0 <==> m == DefaultInstance()
  {
    FieldsSizeOfNone(m.unknownFields);
    (if |m.timestamp| != 0 then StringFieldSize(TimestampFieldNumber, m.timestamp) else 0)
    + (if |m.path| != 0 then StringFieldSize(PathFieldNumber, m.path) else 0)
    + (if m.httpStatus != 0 then Int32FieldSize(HttpStatusFieldNumber, m.httpStatus) else 0)
    + (if |m.message| != 0 then StringFieldSize(MessageFieldNumber, m.message) else 0)
    + FieldsSize(m.unknownFields)
  }

  /** The `IllegalArgumentException` that `Utf8.encodedLength` throws for a `String` whose UTF-8
      form is longer than an `int` can count. */
  datatype SizeError = Utf8LengthOverflow

  /** A string field whose UTF-8 length an `int` can hold. A parsed field always is one, since it
      is a slice of a byte array; only a `String` handed to a setter can be longer. */
  predicate FitsInt(s: seq<byte>) {
    |s| <= MaxInt32
  }

  /** `getSerializedSize` as the generated code computes it. Sizing a `String` field longer than
      2^31 - 1 UTF-8 bytes throws, and the exception escapes, since `computeStringSizeNoTag`
      catches only an unpaired surrogate. Otherwise every addition is on a Java `int`, so the
      result carries the low 32 bits of the true size, read as two's complement, and equals the
      true size only while that fits in an `int`. */
  function JavaSerializedSize(m: ErrorInfo): (r: Result<int32, SizeError>)
    ensures r.Failure? <==> !FitsInt(m.timestamp) || !FitsInt(m.path) || !FitsInt(m.message)
    ensures WellFormed(m) ==> r.Success?
    ensures r.Success? ==> r.value % TwoTo32 == SerializedSize(m) % TwoTo32
    ensures r.Success? ==> (SerializedSize(m) <= MaxInt32 <==> r.value == SerializedSize(m))
  {
    if !FitsInt(m.timestamp) || !FitsInt(m.path) || !FitsInt(m.message) then
      Failure(Utf8LengthOverflow)
    else
      Success(Int32OfBits(SerializedSize(m) % TwoTo32))
  }

  /** `equals` between two `ErrorInfo`s: the four getters and the unknown fields. */
  predicate Equals(a: ErrorInfo, b: ErrorInfo) {
    && a.Get(Timestamp) == b.Get(Timestamp)
    && a.Get(Path) == b.Get(Path)
    && a.Get(HttpStatus) == b.Get(HttpStatus)
    && a.Get(Message) == b.Get(Message)
    && a.unknownFields == b.unknownFields
  }

  /** `equals` is exactly equality of the modelled values: the four getters and the unknown
      records; so it is reflexive, symmetric and transitive. */
  lemma EqualsIsEquality(a: ErrorInfo, c: ErrorInfo)
    ensures Equals(a, c) <==> a == c
  {
    if Equals(a, c) {
      assert a.timestamp == c.timestamp by { assert a.Get(Timestamp) == c.Get(Timestamp); }
      assert a.path == c.path by { assert a.Get(Path) == c.Get(Path); }
      assert a.httpStatus == c.httpStatus by { assert a.Get(HttpStatus) == c.Get(HttpStatus); }
      assert a.message == c.message by { assert a.Get(Message) == c.Get(Message); }
    }
  }
}
