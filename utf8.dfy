/**
 * Well-formed UTF-8 as defined by RFC 3629, section 4: the check that Rust's
 * `String::from_utf8` performs before a decoded string is accepted.
 */
module Utf8 {
  import opened Bytes

  predicate IsContinuation(b: Byte) {
    0x80 <= b <= 0xBF
  }

  /**
   * The length of the well-formed character encoding at the front of s,
   * or 0 when s does not start with one (RFC 3629, section 4, UTF8-1 .. UTF8-4).
   */
  function LeadingCharLength(s: seq<Byte>): (n: nat)
    ensures n <= |s| && n <= 4
    ensures s != [] && s[0] < 0x80 ==> n == 1
    ensures n > 0 ==> s != [] && s[0] != 0xC0 && s[0] != 0xC1 && s[0] < 0xF5
  {
    if s == [] then 0
    else
      var b := s[0];
      if b < 0x80 then 1
      else if 0xC2 <= b <= 0xDF then
        if |s| >= 2 && IsContinuation(s[1]) then 2 else 0
      else if 0xE0 <= b <= 0xEF then
        var lo := if b == 0xE0 then 0xA0 else 0x80;
        var hi := if b == 0xED then 0x9F else 0xBF;
        if |s| >= 3 && lo <= s[1] <= hi && IsContinuation(s[2]) then 3 else 0
      else if 0xF0 <= b <= 0xF4 then
        var lo := if b == 0xF0 then 0x90 else 0x80;
        var hi := if b == 0xF4 then 0x8F else 0xBF;
        if |s| >= 4 && lo <= s[1] <= hi && IsContinuation(s[2]) && IsContinuation(s[3]) then 4 else 0
      else 0
  }

  /** s is a sequence of well-formed UTF-8 character encodings. */
  predicate ValidUtf8(s: seq<Byte>)
    decreases |s|
  {
    s == [] || (LeadingCharLength(s) > 0 && ValidUtf8(s[LeadingCharLength(s)..]))
  }

  /** Every ASCII byte string is well-formed UTF-8. */
  lemma {:induction false} AsciiIsValid(s: seq<Byte>)
    requires forall i :: 0 <= i < |s| ==> s[i] < 0x80
    ensures ValidUtf8(s)
  {
    if s != [] {
      AsciiIsValid(s[1..]);
    }
  }
}
