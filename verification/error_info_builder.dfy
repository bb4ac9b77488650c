/** `ErrorInfo.Builder`: the four field values, a presence mask `bitField0_` with one bit per field,
    and the unknown fields, changed by setters, clearers, `clear`, `mergeFrom` and the parse loop,
    and frozen by `buildPartial` / `build`. Each operation is a function from builder to builder. */
module ErrorInfoBuilder {
  import opened Primitives
  import opened Wrappers
  import opened Utf8
  import opened Varint
  import opened WireFormat
  import opened UnknownFields
  import opened ErrorInfoMessage

  /** The bits of `bitField0_` above the four presence bits (0x1, 0x2, 0x4, 0x8); no operation
      touches them. */
  function HighBits(mask: bv32): bv32 {
    mask & 0xFFFF_FFF0
  }

  datatype Builder = Builder(
    timestamp: seq<byte>,
    path: seq<byte>,
    httpStatus: int32,
    message: seq<byte>,
    bitField0: bv32,
    unknownFields: seq<UnknownField>)
  {
    /** The builder's getters. */
    function Get(f: Field): (v: FieldValue)
      ensures f.IsString() <==> v.StringValue?
    {
      match f
      case Timestamp => StringValue(timestamp)
      case Path => StringValue(path)
      case HttpStatus => Int32Value(httpStatus)
      case Message => StringValue(message)
    }

    /** The presence bit of `f` is set. */
    predicate Has(f: Field) {
      match f
      case Timestamp => bitField0 & 0x1 != 0
      case Path => bitField0 & 0x2 != 0
      case HttpStatus => bitField0 & 0x4 != 0
      case Message => bitField0 & 0x8 != 0
    }
  }

  /** The invariant every builder keeps: a field whose bit is clear holds its default, and only
      the four presence bits are ever set. */
  predicate Consistent(b: Builder) {
    && ConsistentAt(b, Timestamp)
    && ConsistentAt(b, Path)
    && ConsistentAt(b, HttpStatus)
    && ConsistentAt(b, Message)
    && HighBits(b.bitField0) == 0
  }

  predicate ConsistentAt(b: Builder, f: Field) {
    !b.Has(f) ==> b.Get(f) == DefaultValue(f)
  }

  /** The builder holds only values a message may hold. */
  predicate BuilderWellFormed(b: Builder) {
    && ValidString(b.timestamp)
    && ValidString(b.path)
    && ValidString(b.message)
    && WellFormedUnknown(b.unknownFields)
  }

  /** `r` agrees with `b` on every field but `f`, on the presence bits of those fields, and on the
      unknown fields. */
  predicate OthersUnchanged(b: Builder, r: Builder, f: Field) {
    && (match f
        case Timestamp => SameAt(b, r, Path) && SameAt(b, r, HttpStatus) && SameAt(b, r, Message)
        case Path => SameAt(b, r, Timestamp) && SameAt(b, r, HttpStatus) && SameAt(b, r, Message)
        case HttpStatus => SameAt(b, r, Timestamp) && SameAt(b, r, Path) && SameAt(b, r, Message)
        case Message => SameAt(b, r, Timestamp) && SameAt(b, r, Path) && SameAt(b, r, HttpStatus))
    && r.unknownFields == b.unknownFields
  }

  /** Field `g` has the same value and the same presence bit in both builders. */
  predicate SameAt(b: Builder, r: Builder, g: Field) {
    r.Get(g) == b.Get(g) && r.Has(g) == b.Has(g)
  }

  /** `newBuilder()`: every field at its default, no bit set, no unknown field. */
  function NewBuilder(): (b: Builder)
    ensures forall f :: b.Get(f) == DefaultValue(f) && !b.Has(f)
    ensures b.unknownFields == []
    ensures Consistent(b) && BuilderWellFormed(b)
  {
    Builder([], [], 0, [], 0, [])
  }

  /** The store shared by `setTimestamp`/`setPath`/`setMessage`, `mergeFrom` and the parse loop:
      the value goes into the field and the field's bit is or-ed into the mask. */
  function PutString(b: Builder, f: Field, s: seq<byte>): (r: Builder)
    requires f.IsString()
    ensures r.Get(f) == StringValue(s) && r.Has(f)
    ensures OthersUnchanged(b, r, f)
    ensures Consistent(b) ==> Consistent(r)
    ensures BuilderWellFormed(b) && ValidString(s) ==> BuilderWellFormed(r)
  {
    match f
    case Timestamp => b.(timestamp := s, bitField0 := b.bitField0 | 0x1)
    case Path => b.(path := s, bitField0 := b.bitField0 | 0x2)
    case Message => b.(message := s, bitField0 := b.bitField0 | 0x8)
  }

  /** `setHttpStatus`: an `int` cannot be null, so it always succeeds. */
  function SetHttpStatus(b: Builder, v: int32): (r: Builder)
    ensures r.Get(HttpStatus) == Int32Value(v) && r.Has(HttpStatus)
    ensures OthersUnchanged(b, r, HttpStatus)
    ensures Consistent(b) ==> Consistent(r)
    ensures BuilderWellFormed(b) ==> BuilderWellFormed(r)
  {
    b.(httpStatus := v, bitField0 := b.bitField0 | 0x4)
  }

  /** `setTimestamp(value)`. */
  function SetTimestamp(b: Builder, value: Option<seq<byte>>): (r: Result<Builder, BuilderError>)
    ensures value.None? ==> r == Failure(NullPointer)
    ensures value.Some? ==>
              && r.Success?
              && r.value.Get(Timestamp) == StringValue(value.value)
              && r.value.Has(Timestamp)
              && OthersUnchanged(b, r.value, Timestamp)
  {
    var v :- RequireNonNull(value);
    Success(PutString(b, Timestamp, v))
  }

  /** `setPath(value)`. */
  function SetPath(b: Builder, value: Option<seq<byte>>): (r: Result<Builder, BuilderError>)
    ensures value.None? ==> r == Failure(NullPointer)
    ensures value.Some? ==>
              && r.Success?
              && r.value.Get(Path) == StringValue(value.value)
              && r.value.Has(Path)
              && OthersUnchanged(b, r.value, Path)
  {
    var v :- RequireNonNull(value);
    Success(PutString(b, Path, v))
  }

  /** `setMessage(value)`. */
  function SetMessage(b: Builder, value: Option<seq<byte>>): (r: Result<Builder, BuilderError>)
    ensures value.None? ==> r == Failure(NullPointer)
    ensures value.Some? ==>
              && r.Success?
              && r.value.Get(Message) == StringValue(value.value)
              && r.value.Has(Message)
              && OthersUnchanged(b, r.value, Message)
  {
    var v :- RequireNonNull(value);
    Success(PutString(b, Message, v))
  }

  /** `setTimestampBytes` / `setPathBytes` / `setMessageBytes`: the raw bytes are stored only when
      they are well-formed UTF-8. */
  function SetStringBytes(b: Builder, f: Field, value: Option<seq<byte>>): (r: Result<Builder, BuilderError>)
    requires f.IsString()
    ensures value.None? ==> r == Failure(NullPointer)
    ensures value.Some? && !ValidUtf8(value.value) ==> r == Failure(NotUtf8)
    ensures value.Some? && ValidUtf8(value.value) ==>
              && r.Success?
              && r.value.Get(f) == StringValue(value.value)
              && r.value.Has(f)
              && OthersUnchanged(b, r.value, f)
  {
    var v :- RequireNonNull(value);
    if !ValidUtf8(v) then Failure(NotUtf8) else Success(PutString(b, f, v))
  }

  /** `clearTimestamp()`: back to the default instance's value, bit cleared. */
  function ClearTimestamp(b: Builder): (r: Builder)
    ensures r.Get(Timestamp) == DefaultValue(Timestamp) && !r.Has(Timestamp)
    ensures OthersUnchanged(b, r, Timestamp)
    ensures Consistent(b) ==> Consistent(r)
    ensures BuilderWellFormed(b) ==> BuilderWellFormed(r)
  {
    b.(timestamp := DefaultInstance().timestamp, bitField0 := b.bitField0 & 0xFFFF_FFFE)
  }

  /** `clearPath()`. */
  function ClearPath(b: Builder): (r: Builder)
    ensures r.Get(Path) == DefaultValue(Path) && !r.Has(Path)
    ensures OthersUnchanged(b, r, Path)
    ensures Consistent(b) ==> Consistent(r)
    ensures BuilderWellFormed(b) ==> BuilderWellFormed(r)
  {
    b.(path := DefaultInstance().path, bitField0 := b.bitField0 & 0xFFFF_FFFD)
  }

  /** `clearHttpStatus()`. */
  function ClearHttpStatus(b: Builder): (r: Builder)
    ensures r.Get(HttpStatus) == DefaultValue(HttpStatus) && !r.Has(HttpStatus)
    ensures OthersUnchanged(b, r, HttpStatus)
    ensures Consistent(b) ==> Consistent(r)
    ensures BuilderWellFormed(b) ==> BuilderWellFormed(r)
  {
    b.(bitField0 := b.bitField0 & 0xFFFF_FFFB, httpStatus := 0)
  }

  /** `clearMessage()`. */
  function ClearMessage(b: Builder): (r: Builder)
    ensures r.Get(Message) == DefaultValue(Message) && !r.Has(Message)
    ensures OthersUnchanged(b, r, Message)
    ensures Consistent(b) ==> Consistent(r)
    ensures BuilderWellFormed(b) ==> BuilderWellFormed(r)
  {
    b.(message := DefaultInstance().message, bitField0 := b.bitField0 & 0xFFFF_FFF7)
  }

  /** `clear()`: `super.clear()` drops the unknown fields, then the mask and the four fields are reset. */
  function Clear(b: Builder): (r: Builder)
    ensures forall f :: r.Get(f) == DefaultValue(f) && !r.Has(f)
    ensures r.bitField0 == 0 && r.unknownFields == []
    ensures Consistent(r) && BuilderWellFormed(r)
  {
    var cleared := b.(unknownFields := []);
    cleared.(bitField0 := 0, timestamp := [], path := [], httpStatus := 0, message := [])
  }

  /** `buildPartial0`: copies into `result` exactly the fields whose bit is set. */
  function BuildPartial0(b: Builder, result: ErrorInfo): (m: ErrorInfo)
    ensures forall f :: m.Get(f) == (if b.Has(f) then b.Get(f) else result.Get(f))
    ensures m.unknownFields == result.unknownFields
  {
    var r1 := if b.Has(Timestamp) then result.(timestamp := b.timestamp) else result;
    var r2 := if b.Has(Path) then r1.(path := b.path) else r1;
    var r3 := if b.Has(HttpStatus) then r2.(httpStatus := b.httpStatus) else r2;
    if b.Has(Message) then r3.(message := b.message) else r3
  }

  /** `buildPartial`: a message with default fields and the builder's unknown fields
      (`new ErrorInfo(this)`), then `buildPartial0` when any bit is set. On a consistent builder
      the message holds exactly the builder's current values. */
  function BuildPartial(b: Builder): (m: ErrorInfo)
    ensures forall f :: m.Get(f) == (if b.Has(f) then b.Get(f) else DefaultValue(f))
    ensures m.unknownFields == b.unknownFields
    ensures Consistent(b) ==> forall f :: m.Get(f) == b.Get(f)
    ensures BuilderWellFormed(b) ==> WellFormed(m)
  {
    var result := DefaultInstance().(unknownFields := b.unknownFields);
    if b.bitField0 != 0 then BuildPartial0(b, result) else result
  }

  /** `build`: `buildPartial`, refused only when the message is not initialised, which a proto3
      message always is; so it never fails. */
  function Build(b: Builder): (r: Result<ErrorInfo, BuilderError>)
    ensures r.Success?
    ensures forall f :: r.value.Get(f) == (if b.Has(f) then b.Get(f) else DefaultValue(f))
    ensures r.value.unknownFields == b.unknownFields
    ensures Consistent(b) ==> forall f :: r.value.Get(f) == b.Get(f)
  {
    var result := BuildPartial(b);
    if !IsInitialized(result) then Failure(UninitializedMessage) else Success(result)
  }

  /** `mergeFrom(ErrorInfo other)`: the default instance is skipped outright; otherwise each field of
      `other` that differs from its default overwrites the builder's and sets its bit, and
      `other`'s unknown fields are appended. */
  function MergeFrom(b: Builder, other: ErrorInfo): (r: Builder)
    ensures MergedAt(b, other, r, Timestamp) && MergedAt(b, other, r, Path)
    ensures MergedAt(b, other, r, HttpStatus) && MergedAt(b, other, r, Message)
    ensures r.unknownFields == b.unknownFields + other.unknownFields
    ensures Consistent(b) ==> Consistent(r)
    ensures BuilderWellFormed(b) && WellFormed(other) ==> BuilderWellFormed(r)
  {
    if other == DefaultInstance() then
      assert b.unknownFields + [] == b.unknownFields;
      b
    else
      MergeFields(b, other)
  }

  /** Field `f` after merging `other` into `b`: `other`'s value and a set bit when that value is not
      the default, otherwise the builder's value and bit as they were. */
  predicate MergedAt(b: Builder, other: ErrorInfo, r: Builder, f: Field) {
    if other.Get(f) != DefaultValue(f) then r.Get(f) == other.Get(f) && r.Has(f)
    else SameAt(b, r, f)
  }

  /** The body of `mergeFrom` after the default-instance check. */
  function MergeFields(b: Builder, other: ErrorInfo): (r: Builder)
    ensures MergedAt(b, other, r, Timestamp) && MergedAt(b, other, r, Path)
    ensures MergedAt(b, other, r, HttpStatus) && MergedAt(b, other, r, Message)
    ensures r.unknownFields == b.unknownFields + other.unknownFields
    ensures Consistent(b) ==> Consistent(r)
    ensures BuilderWellFormed(b) && WellFormed(other) ==> BuilderWellFormed(r)
  {
    var b4 := MergeLastTwo(MergeFirstTwo(b, other), other);
    b4.(unknownFields := MergeUnknownFields(b4.unknownFields, other.unknownFields))
  }

  /** The `timestamp` and `path` steps of `mergeFrom`. */
  function MergeFirstTwo(b: Builder, other: ErrorInfo): (r: Builder)
    ensures MergedAt(b, other, r, Timestamp) && MergedAt(b, other, r, Path)
    ensures SameAt(b, r, HttpStatus) && SameAt(b, r, Message) && r.unknownFields == b.unknownFields
    ensures Consistent(b) ==> Consistent(r)
    ensures BuilderWellFormed(b) && WellFormed(other) ==> BuilderWellFormed(r)
  {
    MergeField(MergeField(b, other, Timestamp), other, Path)
  }

  /** The `httpStatus` and `message` steps of `mergeFrom`. */
  function MergeLastTwo(b: Builder, other: ErrorInfo): (r: Builder)
    ensures MergedAt(b, other, r, HttpStatus) && MergedAt(b, other, r, Message)
    ensures SameAt(b, r, Timestamp) && SameAt(b, r, Path) && r.unknownFields == b.unknownFields
    ensures Consistent(b) ==> Consistent(r)
    ensures BuilderWellFormed(b) && WellFormed(other) ==> BuilderWellFormed(r)
  {
    MergeField(MergeField(b, other, HttpStatus), other, Message)
  }

  /** One field's step of `mergeFrom`: a non-empty string or a non-zero `httpStatus` of `other` is
      stored through the setter's path; a default value leaves the builder alone. */
  function MergeField(b: Builder, other: ErrorInfo, f: Field): (r: Builder)
    ensures MergedAt(b, other, r, f)
    ensures OthersUnchanged(b, r, f)
    ensures Consistent(b) ==> Consistent(r)
    ensures BuilderWellFormed(b) && WellFormed(other) ==> BuilderWellFormed(r)
  {
    if other.Get(f) == DefaultValue(f) then b
    else
      match other.Get(f)
      case StringValue(s) => PutString(b, f, s)
      case Int32Value(v) => SetHttpStatus(b, v)
  }

  /** `mergeUnknownFields`: the incoming records follow the ones already held. */
  function MergeUnknownFields(held: seq<UnknownField>, incoming: seq<UnknownField>): (r: seq<UnknownField>)
    ensures |r| == |held| + |incoming|
    ensures r[..|held|] == held && r[|held|..] == incoming
  {
    if |incoming| == 0 then held else held + incoming
  }

  /** `toBuilder()`: a fresh builder, into which any message but the default instance is merged. */
  function ToBuilder(m: ErrorInfo): (b: Builder)
    ensures forall f :: b.Get(f) == m.Get(f)
    ensures b.unknownFields == m.unknownFields
    ensures Consistent(b)
    ensures WellFormed(m) ==> BuilderWellFormed(b)
  {
    if m == DefaultInstance() then NewBuilder() else MergeFrom(NewBuilder(), m)
  }

  /** The four `clear<Field>()` methods, by field. */
  function ClearField(b: Builder, f: Field): (r: Builder)
    ensures r.Get(f) == DefaultValue(f) && !r.Has(f)
    ensures OthersUnchanged(b, r, f)
    ensures Consistent(b) ==> Consistent(r)
  {
    match f
    case Timestamp => ClearTimestamp(b)
    case Path => ClearPath(b)
    case HttpStatus => ClearHttpStatus(b)
    case Message => ClearMessage(b)
  }

  /** Two consistent builders that agree on every field value and on the unknown fields build the
      same message, whatever their masks say. */
  lemma SameValuesBuildSame(b: Builder, c: Builder)
    requires Consistent(b) && Consistent(c)
    requires forall f :: b.Get(f) == c.Get(f)
    requires b.unknownFields == c.unknownFields
    ensures BuildPartial(b) == BuildPartial(c)
  {
    EqualsIsEquality(BuildPartial(b), BuildPartial(c));
  }

  /** Setting a string field and then clearing it leaves what clearing alone would have built. */
  lemma ClearUndoesPut(b: Builder, f: Field, s: seq<byte>)
    requires Consistent(b) && f.IsString()
    ensures BuildPartial(ClearField(PutString(b, f, s), f)) == BuildPartial(ClearField(b, f))
  {
    var r := ClearField(PutString(b, f, s), f);
    var c := ClearField(b, f);
    assert forall g :: r.Get(g) == c.Get(g) by {
      forall g ensures r.Get(g) == c.Get(g) {
        if g != f {
          assert r.Get(g) == b.Get(g);
        }
      }
    }
    SameValuesBuildSame(r, c);
  }

  /** Setting `httpStatus` and then clearing it leaves what clearing alone would have built. */
  lemma ClearUndoesSetHttpStatus(b: Builder, v: int32)
    requires Consistent(b)
    ensures BuildPartial(ClearHttpStatus(SetHttpStatus(b, v))) == BuildPartial(ClearHttpStatus(b))
  {
    var r := ClearHttpStatus(SetHttpStatus(b, v));
    var c := ClearHttpStatus(b);
    assert forall g :: r.Get(g) == c.Get(g) by {
      forall g ensures r.Get(g) == c.Get(g) {
        if g != HttpStatus {
          assert r.Get(g) == b.Get(g);
        }
      }
    }
    SameValuesBuildSame(r, c);
  }

  /** `clear()` returns any builder to the state of a new one. */
  lemma ClearIsNew(b: Builder)
    ensures Clear(b) == NewBuilder()
  {
  }
}
