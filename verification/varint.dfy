/** Base 128 varints, as the "Encoding" guide of Protocol Buffers describes them, and the
    `CodedOutputStream` / `CodedInputStream` helpers that write and read them. */
module Varint {
  import opened Primitives
  import opened Wrappers

  /** Why a parse fails: one constructor per `InvalidProtocolBufferException` the parse path can throw. */
  datatype ParseError =
    | TruncatedMessage
    | MalformedVarint
    | NegativeSize
    | InvalidUtf8
    | InvalidTag
    | InvalidWireType
    | InvalidEndTag
    | RecursionLimitExceeded

  /** A varint reader never reads more than this many bytes. */
  const MaxVarintBytes: nat := 10

  /** Little-endian groups of 7 bits, least significant first. */
  function EncodeVarint(v: nat): (r: seq<byte>)
    ensures |r| >= 1
    decreases v
  {
    if v < 0x80 then [v as byte] else [(v % 0x80 + 0x80) as byte] + EncodeVarint(v / 0x80)
  }

  /** Every byte of an encoding but the last has its continuation bit (0x80) set, which is how a
      reader finds the end. */
  lemma {:induction false} EncodingShape(v: nat)
    ensures var r := EncodeVarint(v); r[|r| - 1] < 0x80 && forall i :: 0 <= i < |r| - 1 ==> r[i] >= 0x80
    decreases v
  {
    if v >= 0x80 {
      EncodingShape(v / 0x80);
      var r := EncodeVarint(v);
      var t := EncodeVarint(v / 0x80);
      assert r[0] >= 0x80;
      assert forall i :: 1 <= i < |r| ==> r[i] == t[i - 1];
    }
  }

  /** `computeUInt64SizeNoTag`: the number of bytes the varint of a 64-bit value takes. */
  function VarintSize(v: nat): (n: nat)
    ensures 1 <= n <= MaxVarintBytes
  {
    if v < 0x80 then 1
    else if v < 0x4000 then 2
    else if v < 0x20_0000 then 3
    else if v < 0x1000_0000 then 4
    else if v < 0x8_0000_0000 then 5
    else if v < 0x400_0000_0000 then 6
    else if v < 0x2_0000_0000_0000 then 7
    else if v < 0x100_0000_0000_0000 then 8
    else if v < 0x8000_0000_0000_0000 then 9
    else 10
  }

  /** `writeInt32NoTag`: a negative `int` is written as the varint of its sign-extended `long`. */
  function EncodeInt32(v: int32): (r: seq<byte>)
    ensures v < 0 ==> |r| == MaxVarintBytes
  {
    EncodedLength(SignExtend(v));
    EncodeVarint(SignExtend(v))
  }

  /** `computeInt32SizeNoTag`. */
  function Int32Size(v: int32): (n: nat)
    ensures v < 0 ==> n == MaxVarintBytes
    ensures v >= 0 ==> n <= 5
  {
    if v >= 0 then VarintSize(v) else MaxVarintBytes
  }

  /** The groups from byte `k` on carry `64 - 7 * k` bits, the tenth byte only one. */
  function GroupBound(k: nat): (b: nat)
    requires k < MaxVarintBytes
    ensures b >= 2
    decreases MaxVarintBytes - k
  {
    if k == MaxVarintBytes - 1 then 2 else 0x80 * GroupBound(k + 1)
  }

  /** Reads the groups of a varint whose first `k` bytes are already consumed; the reader gives up
      with `MalformedVarint` when the tenth byte still has its continuation bit set. The tenth
      byte's value bits are not read: reaching it means the ninth byte's continuation bit, which
      becomes bit 63, was set, so it stands for 1 whatever it holds. A read through the tenth byte
      therefore has the top bit of the bound set. */
  function ReadGroups(s: seq<byte>, k: nat): (r: Result<(nat, seq<byte>), ParseError>)
    requires k < MaxVarintBytes
    ensures r.Success? ==> |r.value.1| < |s|
    ensures r.Failure? ==> r.error == TruncatedMessage || r.error == MalformedVarint
    decreases MaxVarintBytes - k
  {
    if |s| == 0 then Failure(TruncatedMessage)
    else if s[0] < 0x80 then Success((if k == MaxVarintBytes - 1 then 1 else s[0] as nat, s[1..]))
    else if k == MaxVarintBytes - 1 then Failure(MalformedVarint)
    else
      var r :- ReadGroups(s[1..], k + 1);
      Success(((s[0] as int - 0x80) + 0x80 * r.0, r.1))
  }

  /** The value read fits the bits the remaining groups carry, and a read that runs through the
      tenth byte has the top one of them set. */
  lemma {:induction false} ReadGroupsBound(s: seq<byte>, k: nat)
    requires k < MaxVarintBytes
    ensures ReadGroups(s, k).Success? ==> ReadGroups(s, k).value.0 < GroupBound(k)
    ensures ReadGroups(s, k).Success? && |s| - |ReadGroups(s, k).value.1| == MaxVarintBytes - k ==>
      2 * ReadGroups(s, k).value.0 >= GroupBound(k)
    decreases MaxVarintBytes - k
  {
    if |s| > 0 && s[0] >= 0x80 && k < MaxVarintBytes - 1 {
      ReadGroupsBound(s[1..], k + 1);
    }
  }

  /** A whole varint carries 64 bits. */
  lemma GroupBoundOfVarint()
    ensures GroupBound(0) == TwoTo64
  {
  }

  /** `readRawVarint64` of the byte-array decoder behind `parseFrom(byte[])`: the value of the
      groups, so that a ten-byte varint, canonical or not, reads with bit 63 set. */
  function ReadRawVarint64(s: seq<byte>): (r: Result<(uint64, seq<byte>), ParseError>)
    ensures r.Success? ==> |r.value.1| < |s|
    ensures r.Success? && |s| - |r.value.1| == MaxVarintBytes ==> r.value.0 >= TwoTo63
  {
    var g :- ReadGroups(s, 0);
    ReadGroupsBound(s, 0);
    GroupBoundOfVarint();
    Success(g)
  }

  /** `readRawVarint32`: the same bytes are accepted, the value keeps its low 32 bits. */
  function ReadRawVarint32(s: seq<byte>): (r: Result<(nat, seq<byte>), ParseError>)
    ensures r.Success? ==> r.value.0 < TwoTo32 && |r.value.1| < |s|
  {
    var g :- ReadGroups(s, 0);
    Success((g.0 % TwoTo32, g.1))
  }

  /** `readInt32`: the low 32 bits read as a two's-complement `int`. */
  function ReadInt32(s: seq<byte>): (r: Result<(int32, seq<byte>), ParseError>)
    ensures r.Success? ==> |r.value.1| < |s|
  {
    var u :- ReadRawVarint32(s);
    Success((Int32OfBits(u.0), u.1))
  }

  /** A varint reader that succeeds goes through the first byte without the continuation bit,
      which comes within the bytes it has left, and leaves the input after it. */
  lemma {:induction false} ReadGroupsStops(s: seq<byte>, k: nat)
    requires k < MaxVarintBytes
    ensures ReadGroups(s, k).Success? ==>
      var n := |s| - |ReadGroups(s, k).value.1|;
      && 1 <= n <= MaxVarintBytes - k
      && ReadGroups(s, k).value.1 == s[n..]
      && s[n - 1] < 0x80
      && forall i :: 0 <= i < n - 1 ==> s[i] >= 0x80
    decreases MaxVarintBytes - k
  {
    if |s| > 0 && s[0] >= 0x80 && k < MaxVarintBytes - 1 {
      var t := s[1..];
      ReadGroupsStops(t, k + 1);
      var r := ReadGroups(t, k + 1);
      if r.Success? {
        var m := |t| - |r.value.1|;
        assert s[m + 1..] == t[m..];
        assert forall i :: 1 <= i < |s| ==> s[i] == t[i - 1];
      }
    }
  }

  /** Running out of input before a byte without the continuation bit is a truncated message. */
  lemma {:induction false} ReadGroupsTruncated(s: seq<byte>, k: nat)
    requires k < MaxVarintBytes
    ensures ReadGroups(s, k) == Failure(TruncatedMessage) <==>
      |s| < MaxVarintBytes - k && forall i :: 0 <= i < |s| ==> s[i] >= 0x80
    decreases MaxVarintBytes - k
  {
    if |s| > 0 && s[0] >= 0x80 && k < MaxVarintBytes - 1 {
      var t := s[1..];
      ReadGroupsTruncated(t, k + 1);
      assert forall i :: 1 <= i < |s| ==> s[i] == t[i - 1];
    }
  }

  /** The last byte a reader may take still carrying the continuation bit is a malformed varint. */
  lemma {:induction false} ReadGroupsMalformed(s: seq<byte>, k: nat)
    requires k < MaxVarintBytes
    ensures ReadGroups(s, k) == Failure(MalformedVarint) <==>
      |s| >= MaxVarintBytes - k && forall i :: 0 <= i < MaxVarintBytes - k ==> s[i] >= 0x80
    decreases MaxVarintBytes - k
  {
    if |s| > 0 && s[0] >= 0x80 && k < MaxVarintBytes - 1 {
      var t := s[1..];
      ReadGroupsMalformed(t, k + 1);
      if |s| >= MaxVarintBytes - k {
        assert forall i :: 1 <= i < MaxVarintBytes - k ==> s[i] == t[i - 1];
      }
    }
  }

  /** `readRawVarint64` consumes one to ten bytes, ending at the first byte below 0x80, and
      fails exactly on input that runs out first (truncated) or on ten continuation bytes
      (malformed). */
  lemma ReadRawVarint64Extent(s: seq<byte>)
    ensures ReadRawVarint64(s).Success? ==>
      var n := |s| - |ReadRawVarint64(s).value.1|;
      && 1 <= n <= MaxVarintBytes
      && ReadRawVarint64(s).value.1 == s[n..]
      && s[n - 1] < 0x80
      && forall i :: 0 <= i < n - 1 ==> s[i] >= 0x80
    ensures ReadRawVarint64(s) == Failure(TruncatedMessage) <==>
      |s| < MaxVarintBytes && forall i :: 0 <= i < |s| ==> s[i] >= 0x80
    ensures ReadRawVarint64(s) == Failure(MalformedVarint) <==>
      |s| >= MaxVarintBytes && forall i :: 0 <= i < MaxVarintBytes ==> s[i] >= 0x80
  {
    ReadGroupsStops(s, 0);
    ReadGroupsTruncated(s, 0);
    ReadGroupsMalformed(s, 0);
  }

  /** `readRawVarint32` accepts and refuses exactly the input `readRawVarint64` does, consumes the
      same bytes, and keeps the low 32 bits of the 64-bit value. */
  lemma ReadRawVarint32IsLowBits(s: seq<byte>)
    ensures ReadRawVarint32(s).Success? <==> ReadRawVarint64(s).Success?
    ensures ReadRawVarint64(s).Failure? ==> ReadRawVarint32(s).error == ReadRawVarint64(s).error
    ensures ReadRawVarint64(s).Success? ==>
      && ReadRawVarint32(s).value.0 == ReadRawVarint64(s).value.0 % TwoTo32
      && ReadRawVarint32(s).value.1 == ReadRawVarint64(s).value.1
  {
  }

  /** The bytes 0x80 (nine times) and 0x00: a ten-byte varint whose tenth byte carries no value
      bits. The byte-array decoder still reads it with bit 63 set, as 2^63. */
  lemma NonCanonicalTenthByte()
    ensures ReadRawVarint64([0x80, 0x80, 0x80, 0x80, 0x80, 0x80, 0x80, 0x80, 0x80, 0x00]) == Success((TwoTo63, []))
  {
    var s: seq<byte> := [0x80, 0x80, 0x80, 0x80, 0x80, 0x80, 0x80, 0x80, 0x80, 0x00];
    assert ReadGroups(s[9..], 9) == Success((1, []));
    assert ReadGroups(s[8..], 8) == Success((0x80, []));
    assert ReadGroups(s[7..], 7) == Success((0x4000, []));
    assert ReadGroups(s[6..], 6) == Success((0x20_0000, []));
    assert ReadGroups(s[5..], 5) == Success((0x1000_0000, []));
    assert ReadGroups(s[4..], 4) == Success((0x8_0000_0000, []));
    assert ReadGroups(s[3..], 3) == Success((0x400_0000_0000, []));
    assert ReadGroups(s[2..], 2) == Success((0x2_0000_0000_0000, []));
    assert ReadGroups(s[1..], 1) == Success((0x100_0000_0000_0000, []));
    assert ReadGroups(s, 0) == Success((0x8000_0000_0000_0000, []));
  }

  /** The value of continuation bytes `p` followed by a last group holding just 1. */
  function ContinuedValue(p: seq<byte>): (v: nat)
    requires forall i :: 0 <= i < |p| ==> p[i] >= 0x80
  {
    if |p| == 0 then 1 else (p[0] as int - 0x80) + 0x80 * ContinuedValue(p[1..])
  }

  /** Once the first `9 - k` bytes all carry the continuation bit, the byte after them ends the
      varint and its value bits play no part: only its presence, as the top bit, counts. */
  lemma {:induction false} TenthByteIgnored(p: seq<byte>, x: byte, rest: seq<byte>, k: nat)
    requires k < MaxVarintBytes && |p| == MaxVarintBytes - 1 - k
    requires forall i :: 0 <= i < |p| ==> p[i] >= 0x80
    requires x < 0x80
    ensures ReadGroups(p + [x] + rest, k) == Success((ContinuedValue(p), rest))
    decreases MaxVarintBytes - k
  {
    var a := p + [x] + rest;
    if k == MaxVarintBytes - 1 {
      assert a[0] < 0x80 && a[1..] == rest;
    } else {
      var a' := p[1..] + [x] + rest;
      assert a[0] == p[0] >= 0x80;
      assert a[1..] == a';
      TenthByteIgnored(p[1..], x, rest, k + 1);
    }
  }

  /** `readRawVarint64` reads a ten-byte varint whole, with bit 63 set, and the same whatever the
      value bits of its tenth byte. */
  lemma TenthByteValueIgnored(s: seq<byte>, t: seq<byte>)
    requires |s| == |t| >= MaxVarintBytes
    requires forall i :: 0 <= i < MaxVarintBytes - 1 ==> s[i] >= 0x80
    requires forall i :: 0 <= i < |s| && i != MaxVarintBytes - 1 ==> s[i] == t[i]
    requires s[MaxVarintBytes - 1] < 0x80 && t[MaxVarintBytes - 1] < 0x80
    ensures ReadRawVarint64(s) == ReadRawVarint64(t)
    ensures ReadRawVarint64(s).Success? && ReadRawVarint64(s).value.1 == s[MaxVarintBytes..]
    ensures ReadRawVarint64(s).value.0 >= TwoTo63
  {
    var p, rest := s[..MaxVarintBytes - 1], s[MaxVarintBytes..];
    assert s == p + [s[MaxVarintBytes - 1]] + rest;
    assert t == p + [t[MaxVarintBytes - 1]] + rest;
    TenthByteIgnored(p, s[MaxVarintBytes - 1], rest, 0);
    TenthByteIgnored(p, t[MaxVarintBytes - 1], rest, 0);
  }

  /** `readInt32` accepts and refuses exactly the input `readRawVarint32` does, consumes the same
      bytes, and returns the `int` whose two's-complement bits are the 32 bits read. */
  lemma ReadInt32IsTwosComplement(s: seq<byte>)
    ensures ReadInt32(s).Success? <==> ReadRawVarint32(s).Success?
    ensures ReadRawVarint32(s).Failure? ==> ReadInt32(s).error == ReadRawVarint32(s).error
    ensures ReadRawVarint32(s).Success? ==>
      && ReadInt32(s).value.0 % TwoTo32 == ReadRawVarint32(s).value.0
      && (ReadInt32(s).value.0 < 0 <==> ReadRawVarint32(s).value.0 >= 0x8000_0000)
      && ReadInt32(s).value.1 == ReadRawVarint32(s).value.1
  {
  }

  /** The encoder's length agrees with the size function, and so never exceeds ten bytes. */
  lemma {:induction false} EncodedLength(v: nat)
    requires v < TwoTo64
    ensures |EncodeVarint(v)| == VarintSize(v)
    decreases v
  {
    if v >= 0x80 {
      EncodedLength(v / 0x80);
    }
  }

  /** Reading back what `EncodeVarint` wrote yields the value and leaves what followed it, for
      a value that fits the groups left; a varint that reaches the tenth byte holds 1 there. */
  lemma {:induction false} ReadGroupsOfEncoding(v: nat, rest: seq<byte>, k: nat)
    requires k < MaxVarintBytes && |EncodeVarint(v)| + k <= MaxVarintBytes
    requires v < GroupBound(k) && (k == MaxVarintBytes - 1 ==> v == 1)
    ensures ReadGroups(EncodeVarint(v) + rest, k) == Success((v, rest))
    decreases v
  {
    var e := EncodeVarint(v);
    if v >= 0x80 {
      assert (e + rest)[0] == e[0];
      assert (e + rest)[1..] == EncodeVarint(v / 0x80) + rest;
      ReadGroupsOfEncoding(v / 0x80, rest, k + 1);
    } else {
      assert (e + rest)[1..] == rest;
    }
  }

  lemma ReadVarint64OfEncoding(v: uint64, rest: seq<byte>)
    ensures ReadRawVarint64(EncodeVarint(v) + rest) == Success((v, rest))
  {
    EncodedLength(v);
    GroupBoundOfVarint();
    ReadGroupsOfEncoding(v, rest, 0);
  }

  lemma ReadVarint32OfEncoding(v: nat, rest: seq<byte>)
    requires v < TwoTo32
    ensures ReadRawVarint32(EncodeVarint(v) + rest) == Success((v, rest))
  {
    EncodedLength(v);
    GroupBoundOfVarint();
    ReadGroupsOfEncoding(v, rest, 0);
    SmallModulus(v, TwoTo32);
  }

  lemma SmallModulus(v: nat, m: nat)
    requires v < m
    ensures v % m == v
  {
  }

  /** Every `int`, negative ones included, survives `writeInt32NoTag` followed by `readInt32`. */
  lemma ReadInt32OfEncoding(v: int32, rest: seq<byte>)
    ensures ReadInt32(EncodeInt32(v) + rest) == Success((v, rest))
  {
    EncodedLength(SignExtend(v));
    GroupBoundOfVarint();
    ReadGroupsOfEncoding(SignExtend(v), rest, 0);
    NarrowSignExtended(v);
  }
}
