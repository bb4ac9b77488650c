/** Tags and the length-delimited and fixed-width records of the Protocol Buffers wire format
    ("Message Structure" and "Length-Delimited Records" in the encoding guide), as the generated
    code reaches them through `CodedOutputStream` and `CodedInputStream`. */
module WireFormat {
  import opened Primitives
  import opened Wrappers
  import opened Utf8
  import opened Varint

  datatype WireType = VarintWire | Fixed64Wire | LengthDelimitedWire | StartGroupWire | EndGroupWire | Fixed32Wire

  function WireTypeCode(w: WireType): (c: nat)
    ensures c < 6
  {
    match w
    case VarintWire => 0
    case Fixed64Wire => 1
    case LengthDelimitedWire => 2
    case StartGroupWire => 3
    case EndGroupWire => 4
    case Fixed32Wire => 5
  }

  /** The largest field number a `.proto` file may declare, 2^29 - 1. */
  const MaxFieldNumber: nat := 0x1FFF_FFFF

  /** `CodedInputStream`'s default limit on nested groups. */
  const RecursionLimit: nat := 100

  /** `WireFormat.makeTag`: `(number << 3) | wireType`; the wire type fills the three low bits,
      so the shift-and-or is the sum below. */
  function MakeTag(number: nat, w: WireType): (tag: nat)
    ensures TagFieldNumber(tag) == number && TagWireTypeCode(tag) == WireTypeCode(w)
    ensures 1 <= number <= MaxFieldNumber ==> 8 <= tag < TwoTo32
  {
    number * 8 + WireTypeCode(w)
  }

  /** `WireFormat.getTagFieldNumber`: `tag >>> 3`. */
  function TagFieldNumber(tag: nat): nat {
    tag / 8
  }

  /** `WireFormat.getTagWireType`: `tag & 7`. */
  function TagWireTypeCode(tag: nat): nat {
    tag % 8
  }

  /** `writeTag`. */
  function WriteTag(number: nat, w: WireType): seq<byte> {
    EncodeVarint(MakeTag(number, w))
  }

  /** `computeTagSize`: computed from the tag with wire type 0. */
  function TagSize(number: nat): nat {
    VarintSize(MakeTag(number, VarintWire))
  }

  /** `writeByteArrayNoTag` / `writeStringNoTag`: a varint length, then the bytes. */
  function WriteLengthDelimited(payload: seq<byte>): seq<byte> {
    EncodeVarint(|payload|) + payload
  }

  /** `writeString(number, s)` for a string whose UTF-8 bytes are `s`, and `writeBytes`. */
  function WriteStringField(number: nat, s: seq<byte>): seq<byte> {
    WriteTag(number, LengthDelimitedWire) + WriteLengthDelimited(s)
  }

  /** `writeInt32(number, v)`. */
  function WriteInt32Field(number: nat, v: int32): seq<byte> {
    WriteTag(number, VarintWire) + EncodeInt32(v)
  }

  /** `computeStringSize` / `computeBytesSize`. */
  function StringFieldSize(number: nat, s: seq<byte>): nat {
    TagSize(number) + VarintSize(|s|) + |s|
  }

  /** `computeInt32Size`. */
  function Int32FieldSize(number: nat, v: int32): nat {
    TagSize(number) + Int32Size(v)
  }

  /** `readTag`: 0 at the end of the input and only there; a tag whose field number is 0 is invalid. */
  function ReadTag(s: seq<byte>): (r: Result<(nat, seq<byte>), ParseError>)
    ensures |s| == 0 ==> r == Success((0, s))
    ensures r.Success? && r.value.0 == 0 ==> |s| == 0 && r.value.1 == s
    ensures r.Success? && r.value.0 != 0 ==> 8 <= r.value.0 < TwoTo32 && |r.value.1| < |s|
    ensures |s| > 0 && s[0] == 0 ==> r == Failure(InvalidTag)
  {
    if |s| == 0 then Success((0, s))
    else
      var t :- ReadRawVarint32(s);
      if TagFieldNumber(t.0) == 0 then Failure(InvalidTag) else Success(t)
  }

  /** `readBytes`: a non-negative `int` length, then exactly that many bytes. */
  function ReadLengthDelimited(s: seq<byte>): (r: Result<(seq<byte>, seq<byte>), ParseError>)
    ensures r.Success? ==> |r.value.0| <= MaxInt32 && |r.value.1| < |s|
  {
    var n :- ReadRawVarint32(s);
    var size := Int32OfBits(n.0);
    if size < 0 then Failure(NegativeSize)
    else if size > |n.1| then Failure(TruncatedMessage)
    else Success((n.1[..size], n.1[size..]))
  }

  /** `readStringRequireUtf8`: `readBytes` that refuses ill-formed UTF-8. */
  function ReadStringRequireUtf8(s: seq<byte>): (r: Result<(seq<byte>, seq<byte>), ParseError>)
    ensures r.Success? ==> ValidUtf8(r.value.0) && |r.value.0| <= MaxInt32 && |r.value.1| < |s|
  {
    var p :- ReadLengthDelimited(s);
    if ValidUtf8(p.0) then Success(p) else Failure(InvalidUtf8)
  }

  /** `readRawLittleEndian32` / `readRawLittleEndian64`, keeping the raw bytes. */
  function ReadFixed(s: seq<byte>, width: nat): (r: Result<(seq<byte>, seq<byte>), ParseError>)
    ensures r.Success? ==> |r.value.0| == width && r.value.0 + r.value.1 == s
    ensures r.Failure? <==> |s| < width
  {
    if |s| < width then Failure(TruncatedMessage) else Success((s[..width], s[width..]))
  }

  /** `readBytes` takes exactly the declared number of bytes: a length whose sign bit is set is a
      negative size, a length past the end of the input is a truncated message, and otherwise the
      payload followed by the rest is what followed the length. */
  lemma ReadLengthDelimitedExtent(s: seq<byte>)
    ensures ReadRawVarint32(s).Failure? ==> ReadLengthDelimited(s) == Failure(ReadRawVarint32(s).error)
    ensures ReadRawVarint32(s).Success? ==>
      var bits := ReadRawVarint32(s).value.0;
      var after := ReadRawVarint32(s).value.1;
      && (ReadLengthDelimited(s) == Failure(NegativeSize) <==> bits >= 0x8000_0000)
      && (ReadLengthDelimited(s) == Failure(TruncatedMessage) <==> bits < 0x8000_0000 && |after| < bits)
      && (ReadLengthDelimited(s).Success? ==>
            && |ReadLengthDelimited(s).value.0| == bits
            && ReadLengthDelimited(s).value.0 + ReadLengthDelimited(s).value.1 == after)
  {
    if ReadRawVarint32(s).Success? {
      var after := ReadRawVarint32(s).value.1;
      var bits := ReadRawVarint32(s).value.0;
      if bits < 0x8000_0000 && bits <= |after| {
        assert after[..bits] + after[bits..] == after;
      }
    }
  }

  /** `readStringRequireUtf8` fails where `readBytes` does, with the same error; where `readBytes`
      succeeds it refuses exactly the ill-formed UTF-8 payloads, and otherwise returns what
      `readBytes` read. */
  lemma ReadStringRefusesOnlyBadUtf8(s: seq<byte>)
    ensures ReadLengthDelimited(s).Failure? ==> ReadStringRequireUtf8(s) == ReadLengthDelimited(s)
    ensures ReadLengthDelimited(s).Success? ==>
      (ReadStringRequireUtf8(s).Success? <==> ValidUtf8(ReadLengthDelimited(s).value.0))
    ensures ReadLengthDelimited(s).Success? && ReadStringRequireUtf8(s).Failure? ==>
      ReadStringRequireUtf8(s).error == InvalidUtf8
    ensures ReadStringRequireUtf8(s).Success? ==> ReadStringRequireUtf8(s) == ReadLengthDelimited(s)
  {
  }

  lemma ReadTagOfEncoding(tag: nat, rest: seq<byte>)
    requires 8 <= tag < TwoTo32
    ensures ReadTag(EncodeVarint(tag) + rest) == Success((tag, rest))
  {
    ReadVarint32OfEncoding(tag, rest);
  }

  /** A length-delimited record written by `WriteLengthDelimited` is read back intact. */
  lemma ReadLengthDelimitedOfEncoding(payload: seq<byte>, rest: seq<byte>)
    requires |payload| <= MaxInt32
    ensures ReadLengthDelimited(WriteLengthDelimited(payload) + rest) == Success((payload, rest))
  {
    var e := EncodeVarint(|payload|);
    assert WriteLengthDelimited(payload) + rest == e + (payload + rest);
    ReadVarint32OfEncoding(|payload|, payload + rest);
    assert (payload + rest)[..|payload|] == payload;
    assert (payload + rest)[|payload|..] == rest;
  }

  lemma ReadStringOfEncoding(s: seq<byte>, rest: seq<byte>)
    requires ValidUtf8(s) && |s| <= MaxInt32
    ensures ReadStringRequireUtf8(WriteLengthDelimited(s) + rest) == Success((s, rest))
  {
    ReadLengthDelimitedOfEncoding(s, rest);
  }

  /** A declared length longer than what remains is reported as a truncated message. */
  lemma ShortPayloadIsTruncated(size: nat, payload: seq<byte>)
    requires |payload| < size <= MaxInt32
    ensures ReadLengthDelimited(EncodeVarint(size) + payload) == Failure(TruncatedMessage)
  {
    ReadVarint32OfEncoding(size, payload);
  }

  /** The size functions agree with what the writers emit; the tag's size does not depend on
      its wire type. */
  lemma TagLength(number: nat, w: WireType)
    requires 1 <= number <= MaxFieldNumber
    ensures |WriteTag(number, w)| == TagSize(number)
  {
    EncodedLength(MakeTag(number, w));
    SizeIgnoresLowBits(number, WireTypeCode(w));
  }

  lemma SizeIgnoresLowBits(q: nat, low: nat)
    requires low < 8
    ensures VarintSize(q * 8 + low) == VarintSize(q * 8)
  {
  }

  lemma StringFieldLength(number: nat, s: seq<byte>)
    requires 1 <= number <= MaxFieldNumber && |s| <= MaxInt32
    ensures |WriteStringField(number, s)| == StringFieldSize(number, s)
  {
    TagLength(number, LengthDelimitedWire);
    EncodedLength(|s|);
  }

  lemma Int32FieldLength(number: nat, v: int32)
    requires 1 <= number <= MaxFieldNumber
    ensures |WriteInt32Field(number, v)| == Int32FieldSize(number, v)
  {
    TagLength(number, VarintWire);
    EncodedLength(SignExtend(v));
  }
}
