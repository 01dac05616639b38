/**
 * Well-formed UTF-8 as defined by the byte-sequence syntax of RFC 3629, section 4;
 * this is exactly the acceptance test of Rust's `String::from_utf8`.
 */
module Utf8 {
  import opened Wire

  predicate IsContinuation(b: uint8) {
    0x80 <= b <= 0xBF
  }

  /** Whether `s` is a concatenation of well-formed UTF-8 encoded scalar values. */
  predicate ValidUtf8(s: seq<uint8>)
    decreases |s|
  {
    if s == [] then true
    else if s[0] < 0x80 then ValidUtf8(s[1..])
    else if 0xC2 <= s[0] <= 0xDF then
      |s| >= 2 && IsContinuation(s[1]) && ValidUtf8(s[2..])
    else if s[0] == 0xE0 then
      |s| >= 3 && 0xA0 <= s[1] <= 0xBF && IsContinuation(s[2]) && ValidUtf8(s[3..])
    else if 0xE1 <= s[0] <= 0xEC || 0xEE <= s[0] <= 0xEF then
      |s| >= 3 && IsContinuation(s[1]) && IsContinuation(s[2]) && ValidUtf8(s[3..])
    else if s[0] == 0xED then
      |s| >= 3 && 0x80 <= s[1] <= 0x9F && IsContinuation(s[2]) && ValidUtf8(s[3..])
    else if s[0] == 0xF0 then
      |s| >= 4 && 0x90 <= s[1] <= 0xBF && IsContinuation(s[2]) && IsContinuation(s[3])
      && ValidUtf8(s[4..])
    else if 0xF1 <= s[0] <= 0xF3 then
      |s| >= 4 && IsContinuation(s[1]) && IsContinuation(s[2]) && IsContinuation(s[3])
      && ValidUtf8(s[4..])
    else if s[0] == 0xF4 then
      |s| >= 4 && 0x80 <= s[1] <= 0x8F && IsContinuation(s[2]) && IsContinuation(s[3])
      && ValidUtf8(s[4..])
    else false
  }

  /** ASCII text, NUL padding included, is valid UTF-8. */
  lemma {:induction false} AsciiIsValid(s: seq<uint8>)
    requires forall i :: 0 <= i < |s| ==> s[i] < 0x80
    ensures ValidUtf8(s)
  {
    if s != [] {
      AsciiIsValid(s[1..]);
    }
  }

  /** The bytes 0xC0, 0xC1 and 0xF5..0xFF never occur in valid UTF-8. */
  lemma {:induction false} NoForbiddenBytes(s: seq<uint8>, i: nat)
    requires ValidUtf8(s) && i < |s|
    ensures s[i] != 0xC0 && s[i] != 0xC1 && s[i] < 0xF5
    decreases |s|
  {
    var w := if s[0] < 0x80 then 1 else if s[0] <= 0xDF then 2 else if s[0] <= 0xEF then 3 else 4;
    if i >= w {
      NoForbiddenBytes(s[w..], i - w);
    }
  }
}
