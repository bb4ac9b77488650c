/** Well-formed UTF-8, as table 3-7 of the Unicode Standard (chapter 3.9) defines it: the byte
    sequences protobuf's `readStringRequireUtf8` and `checkByteStringIsUtf8` accept. */
module Utf8 {
  import opened Primitives

  predicate InRange(b: byte, lo: byte, hi: byte) {
    lo <= b <= hi
  }

  predicate IsContinuation(b: byte) {
    InRange(b, 0x80, 0xBF)
  }

  /** Length of the well-formed code-unit sequence that starts `s`, or 0 when none does. */
  function LeadingSequenceLength(s: seq<byte>): (n: nat)
    ensures n <= 4 && n <= |s|
    ensures |s| > 0 && s[0] < 0x80 ==> n == 1
    ensures n > 0 ==> forall i :: 1 <= i < n ==> IsContinuation(s[i])
  {
    if |s| == 0 then 0
    else if s[0] <= 0x7F then 1
    else if InRange(s[0], 0xC2, 0xDF) then
      if |s| >= 2 && IsContinuation(s[1]) then 2 else 0
    else if InRange(s[0], 0xE0, 0xEF) then
      var lo: byte := if s[0] == 0xE0 then 0xA0 else 0x80;
      var hi: byte := if s[0] == 0xED then 0x9F else 0xBF;
      if |s| >= 3 && InRange(s[1], lo, hi) && IsContinuation(s[2]) then 3 else 0
    else if InRange(s[0], 0xF0, 0xF4) then
      var lo: byte := if s[0] == 0xF0 then 0x90 else 0x80;
      var hi: byte := if s[0] == 0xF4 then 0x8F else 0xBF;
      if |s| >= 4 && InRange(s[1], lo, hi) && IsContinuation(s[2]) && IsContinuation(s[3]) then 4 else 0
    else 0
  }

  /** `s` is a concatenation of well-formed code-unit sequences. */
  predicate ValidUtf8(s: seq<byte>)
    decreases |s|
  {
    |s| == 0 || (LeadingSequenceLength(s) > 0 && ValidUtf8(s[LeadingSequenceLength(s)..]))
  }

  /** The scan of `Utf8.isValidUtf8`: walk the bytes one code-unit sequence at a time. */
  method IsValidUtf8(s: seq<byte>) returns (ok: bool)
    ensures ok <==> ValidUtf8(s)
  {
    var i := 0;
    while i < |s|
      invariant 0 <= i <= |s|
      invariant ValidUtf8(s) <==> ValidUtf8(s[i..])
      decreases |s| - i
    {
      var n := LeadingSequenceLength(s[i..]);
      if n == 0 {
        return false;
      }
      assert s[i..][n..] == s[i + n..];
      i := i + n;
    }
    return true;
  }
}
