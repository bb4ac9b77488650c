/** The unknown-field list a message carries: records whose tags the schema does not know,
    kept and re-emitted by `UnknownFieldSet` so that newer senders' data survives a round trip. */
module UnknownFields {
  import opened Primitives
  import opened Wrappers
  import opened Varint
  import opened WireFormat

  /** One captured payload, by wire type. Fixed-width payloads keep their little-endian bytes;
      a group keeps the records it encloses. */
  datatype UnknownValue =
    | VarintValue(bits: uint64)
    | Fixed64Value(raw: seq<byte>)
    | LengthDelimitedValue(payload: seq<byte>)
    | GroupValue(fields: seq<UnknownField>)
    | Fixed32Value(raw: seq<byte>)

  datatype UnknownField = UnknownField(number: nat, value: UnknownValue)

  function ValueWireType(v: UnknownValue): WireType {
    match v
    case VarintValue(_) => VarintWire
    case Fixed64Value(_) => Fixed64Wire
    case LengthDelimitedValue(_) => LengthDelimitedWire
    case GroupValue(_) => StartGroupWire
    case Fixed32Value(_) => Fixed32Wire
  }

  function FieldTag(f: UnknownField): nat {
    MakeTag(f.number, ValueWireType(f.value))
  }

  /** What `UnknownFieldSet` could have read: a legal field number, a 64-bit varint, payloads of the
      right width or of a Java array's length, and groups nested fewer than `RecursionLimit` deep
      when the record itself sits `depth` groups down. */
  predicate WellFormedField(f: UnknownField, depth: nat)
    decreases f
  {
    && 1 <= f.number <= MaxFieldNumber
    && match f.value
       case VarintValue(_) => true
       case Fixed64Value(raw) => |raw| == 8
       case LengthDelimitedValue(p) => |p| <= MaxInt32
       case GroupValue(fs) => depth < RecursionLimit && WellFormedFields(fs, depth + 1)
       case Fixed32Value(raw) => |raw| == 4
  }

  predicate WellFormedFields(fs: seq<UnknownField>, depth: nat)
    decreases fs
  {
    forall i :: 0 <= i < |fs| ==> WellFormedField(fs[i], depth)
  }

  /** `UnknownFieldSet.writeTo` for one record: its tag, then its payload. */
  function WriteField(f: UnknownField): seq<byte>
    decreases f, 1
  {
    EncodeVarint(FieldTag(f)) + WritePayload(f)
  }

  /** The bytes after the tag; a group closes with the end-group tag of its own number. */
  function WritePayload(f: UnknownField): seq<byte>
    decreases f, 0
  {
    match f.value
    case VarintValue(v) => EncodeVarint(v)
    case Fixed64Value(raw) => raw
    case LengthDelimitedValue(p) => WriteLengthDelimited(p)
    case GroupValue(fs) => WriteFields(fs) + WriteTag(f.number, EndGroupWire)
    case Fixed32Value(raw) => raw
  }

  /** The records one after another, in list order. */
  function WriteFields(fs: seq<UnknownField>): (r: seq<byte>)
    ensures |r| == 0 <==> |fs| == 0
    decreases fs, 2
  {
    if |fs| == 0 then [] else WriteField(fs[0]) + WriteFields(fs[1..])
  }

  /** `UnknownFieldSet.Field.getSerializedSize` for one record. */
  function FieldSize(f: UnknownField): nat
    decreases f
  {
    match f.value
    case VarintValue(v) => TagSize(f.number) + VarintSize(v)
    case Fixed64Value(_) => TagSize(f.number) + 8
    case LengthDelimitedValue(p) => TagSize(f.number) + VarintSize(|p|) + |p|
    case GroupValue(fs) => TagSize(f.number) * 2 + FieldsSize(fs)
    case Fixed32Value(_) => TagSize(f.number) + 4
  }

  /** `UnknownFieldSet.getSerializedSize`. */
  function FieldsSize(fs: seq<UnknownField>): nat
    decreases fs
  {
    if |fs| == 0 then 0 else FieldSize(fs[0]) + FieldsSize(fs[1..])
  }

  /** Only the empty list has size 0: every record takes at least its tag. */
  lemma FieldsSizeOfNone(fs: seq<UnknownField>)
    ensures FieldsSize(fs) == 0 <==> |fs| == 0
  {
    if |fs| > 0 {
      assert FieldSize(fs[0]) >= TagSize(fs[0].number) >= 1;
    }
  }

  /** What `UnknownFieldSet.Builder.mergeFrom(CodedInputStream)` leaves behind: the records read, the
      tag that stopped it (0 at the end of the input, otherwise an end-group tag) and the unread input. */
  datatype FieldSetParse = FieldSetParse(fields: seq<UnknownField>, lastTag: nat, rest: seq<byte>)

  /** `UnknownFieldSet.Builder.mergeFieldFrom`: captures the record whose tag was just read. `None`
      means an end-group tag, which is not a record but tells the caller to stop. */
  function MergeFieldFrom(tag: nat, s: seq<byte>, depth: nat): (r: Result<(Option<UnknownField>, seq<byte>), ParseError>)
    requires 8 <= tag < TwoTo32
    ensures r.Success? ==> |r.value.1| <= |s|
    ensures r.Success? && r.value.0.Some? ==>
      var f := r.value.0.value; WellFormedField(f, depth) && FieldTag(f) == tag
    ensures r.Success? && r.value.0.None? <==> TagWireTypeCode(tag) == 4
    ensures TagWireTypeCode(tag) > 5 ==> r == Failure(InvalidWireType)
    decreases |s|, 1
  {
    var number := TagFieldNumber(tag);
    match TagWireTypeCode(tag)
    case 0 =>
      var v :- ReadRawVarint64(s);
      Success((Some(UnknownField(number, VarintValue(v.0))), v.1))
    case 1 =>
      var v :- ReadFixed(s, 8);
      Success((Some(UnknownField(number, Fixed64Value(v.0))), v.1))
    case 2 =>
      var v :- ReadLengthDelimited(s);
      Success((Some(UnknownField(number, LengthDelimitedValue(v.0))), v.1))
    case 3 =>
      if depth >= RecursionLimit then Failure(RecursionLimitExceeded)
      else
        var g :- MergeFieldSet(s, depth + 1);
        if g.lastTag != MakeTag(number, EndGroupWire) then Failure(InvalidEndTag)
        else Success((Some(UnknownField(number, GroupValue(g.fields))), g.rest))
    case 4 =>
      Success((None, s))
    case 5 =>
      var v :- ReadFixed(s, 4);
      Success((Some(UnknownField(number, Fixed32Value(v.0))), v.1))
    case _ =>
      Failure(InvalidWireType)
  }

  /** `UnknownFieldSet.Builder.mergeFrom(CodedInputStream)`: records until the end of the input or
      an end-group tag. */
  function MergeFieldSet(s: seq<byte>, depth: nat): (r: Result<FieldSetParse, ParseError>)
    ensures r.Success? ==> |r.value.rest| <= |s| && WellFormedFields(r.value.fields, depth)
    ensures r.Success? ==> r.value.lastTag == 0 || TagWireTypeCode(r.value.lastTag) == 4
    ensures r.Success? && r.value.lastTag == 0 ==> r.value.rest == []
    decreases |s|, 0
  {
    var t :- ReadTag(s);
    if t.0 == 0 then Success(FieldSetParse([], 0, t.1))
    else
      var f :- MergeFieldFrom(t.0, t.1, depth);
      if f.0.None? then Success(FieldSetParse([], t.0, f.1))
      else
        var more :- MergeFieldSet(f.1, depth);
        Success(FieldSetParse([f.0.value] + more.fields, more.lastTag, more.rest))
  }

  /** Puts `fs` in front of the records of a successful parse; a failure passes through. */
  function Prepend(fs: seq<UnknownField>, r: Result<FieldSetParse, ParseError>): Result<FieldSetParse, ParseError> {
    match r
    case Success(p) => Success(p.(fields := fs + p.fields))
    case Failure(e) => Failure(e)
  }

  /** The payload of a well-formed record is captured back as that very record. */
  lemma {:induction false} MergeFieldFromPayload(f: UnknownField, rest: seq<byte>, depth: nat)
    requires WellFormedField(f, depth)
    ensures MergeFieldFrom(FieldTag(f), WritePayload(f) + rest, depth) == Success((Some(f), rest))
    decreases f, 1
  {
    match f.value
    case VarintValue(v) => VarintPayload(f, rest, depth);
    case Fixed64Value(raw) => FixedPayload(f, rest, depth);
    case LengthDelimitedValue(p) => LengthDelimitedPayload(f, rest, depth);
    case GroupValue(fs) => GroupPayload(f, rest, depth);
    case Fixed32Value(raw) => FixedPayload(f, rest, depth);
  }

  lemma VarintPayload(f: UnknownField, rest: seq<byte>, depth: nat)
    requires WellFormedField(f, depth) && f.value.VarintValue?
    ensures MergeFieldFrom(FieldTag(f), WritePayload(f) + rest, depth) == Success((Some(f), rest))
  {
    ReadVarint64OfEncoding(f.value.bits, rest);
  }

  lemma FixedPayload(f: UnknownField, rest: seq<byte>, depth: nat)
    requires WellFormedField(f, depth) && (f.value.Fixed64Value? || f.value.Fixed32Value?)
    ensures MergeFieldFrom(FieldTag(f), WritePayload(f) + rest, depth) == Success((Some(f), rest))
  {
    var s := WritePayload(f) + rest;
    var raw := f.value.raw;
    assert s[..|raw|] == raw && s[|raw|..] == rest;
  }

  lemma LengthDelimitedPayload(f: UnknownField, rest: seq<byte>, depth: nat)
    requires WellFormedField(f, depth) && f.value.LengthDelimitedValue?
    ensures MergeFieldFrom(FieldTag(f), WritePayload(f) + rest, depth) == Success((Some(f), rest))
  {
    ReadLengthDelimitedOfEncoding(f.value.payload, rest);
  }

  /** A group's records are read back and the parse stops at the group's own end tag. */
  lemma {:induction false} GroupPayload(f: UnknownField, rest: seq<byte>, depth: nat)
    requires WellFormedField(f, depth) && f.value.GroupValue?
    ensures MergeFieldFrom(FieldTag(f), WritePayload(f) + rest, depth) == Success((Some(f), rest))
    decreases f, 0
  {
    var fs := f.value.fields;
    var endTag := MakeTag(f.number, EndGroupWire);
    var tail := EncodeVarint(endTag) + rest;
    assert WritePayload(f) + rest == WriteFields(fs) + tail;
    MergeFieldSetOfWritten(fs, tail, depth + 1);
    EndTagStops(f.number, rest, depth + 1);
    assert fs + [] == fs;
  }

  /** An end-group tag ends a field-set parse at once, leaving what follows it unread. */
  lemma EndTagStops(number: nat, rest: seq<byte>, depth: nat)
    requires 1 <= number <= MaxFieldNumber
    ensures MergeFieldSet(EncodeVarint(MakeTag(number, EndGroupWire)) + rest, depth)
            == Success(FieldSetParse([], MakeTag(number, EndGroupWire), rest))
  {
    ReadTagOfEncoding(MakeTag(number, EndGroupWire), rest);
  }

  /** Records written one after another are read back one after another, in the same order,
      and the parse then carries on with whatever followed them. */
  lemma {:induction false} MergeFieldSetOfWritten(fs: seq<UnknownField>, rest: seq<byte>, depth: nat)
    requires WellFormedFields(fs, depth)
    ensures MergeFieldSet(WriteFields(fs) + rest, depth) == Prepend(fs, MergeFieldSet(rest, depth))
    decreases fs, 1
  {
    if |fs| == 0 {
      assert WriteFields(fs) + rest == rest;
      PrependNothing(MergeFieldSet(rest, depth));
    } else {
      var f := fs[0];
      var tail := WriteFields(fs[1..]) + rest;
      assert WellFormedField(f, depth);
      assert WriteFields(fs) + rest == WriteField(f) + tail;
      MergeFieldSetOfOne(f, tail, depth);
      MergeFieldSetOfWritten(fs[1..], rest, depth);
      PrependTwice([f], fs[1..], MergeFieldSet(rest, depth));
      assert [f] + fs[1..] == fs;
    }
  }

  lemma PrependNothing(r: Result<FieldSetParse, ParseError>)
    ensures Prepend([], r) == r
  {
    if r.Success? {
      assert [] + r.value.fields == r.value.fields;
    }
  }

  lemma PrependTwice(a: seq<UnknownField>, b: seq<UnknownField>, r: Result<FieldSetParse, ParseError>)
    ensures Prepend(a, Prepend(b, r)) == Prepend(a + b, r)
  {
    if r.Success? {
      assert a + (b + r.value.fields) == (a + b) + r.value.fields;
    }
  }

  /** One record: its tag is read, its payload captured, and the parse goes on after it. */
  lemma MergeFieldSetOfOne(f: UnknownField, tail: seq<byte>, depth: nat)
    requires WellFormedField(f, depth)
    ensures MergeFieldSet(WriteField(f) + tail, depth) == Prepend([f], MergeFieldSet(tail, depth))
    decreases f, 2
  {
    var s := WriteField(f) + tail;
    assert s == EncodeVarint(FieldTag(f)) + (WritePayload(f) + tail);
    ReadTagOfEncoding(FieldTag(f), WritePayload(f) + tail);
    assert ReadTag(s) == Success((FieldTag(f), WritePayload(f) + tail));
    MergeFieldFromPayload(f, tail, depth);
  }

  /** Round trip of a whole unknown-field list. */
  lemma ParseWrittenFields(fs: seq<UnknownField>, depth: nat)
    requires WellFormedFields(fs, depth)
    ensures MergeFieldSet(WriteFields(fs), depth) == Success(FieldSetParse(fs, 0, []))
  {
    MergeFieldSetOfWritten(fs, [], depth);
    assert WriteFields(fs) + [] == WriteFields(fs);
    assert fs + [] == fs;
  }

  /** `getSerializedSize` is the length of what `writeTo` emits. */
  lemma {:induction false} FieldLength(f: UnknownField, depth: nat)
    requires WellFormedField(f, depth)
    ensures |WriteField(f)| == FieldSize(f)
    decreases f
  {
    TagLength(f.number, ValueWireType(f.value));
    match f.value
    case VarintValue(v) =>
      EncodedLength(v);
    case Fixed64Value(_) =>
    case LengthDelimitedValue(p) =>
      EncodedLength(|p|);
    case GroupValue(fs) =>
      TagLength(f.number, EndGroupWire);
      FieldsLength(fs, depth + 1);
    case Fixed32Value(_) =>
  }

  lemma {:induction false} FieldsLength(fs: seq<UnknownField>, depth: nat)
    requires WellFormedFields(fs, depth)
    ensures |WriteFields(fs)| == FieldsSize(fs)
    decreases fs
  {
    if |fs| > 0 {
      FieldLength(fs[0], depth);
      FieldsLength(fs[1..], depth);
    }
  }
}
