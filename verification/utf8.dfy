/** Well-formed UTF-8, the check `String::from_utf8` performs on decrypted bytes
    (the byte-sequence table of section 4 of RFC 3629: no overlong forms, no
    surrogates, nothing above U+10FFFF). */
module Utf8 {
  import opened Common

  predicate IsContinuation(b: u8) {
    0x80 <= b <= 0xBF
  }

  /** The length of the well-formed character encoding at the head of `s`,
      or 0 when `s` does not start with one. */
  function HeadWidth(s: seq<u8>): (w: nat)
    requires |s| > 0
    ensures w <= 4 && w <= |s|
    ensures w == 1 <==> s[0] < 0x80
  {
    var b := s[0];
    if b < 0x80 then 1
    else if 0xC2 <= b <= 0xDF then
      if |s| >= 2 && IsContinuation(s[1]) then 2 else 0
    else if 0xE0 <= b <= 0xEF then
      var lo: u8 := if b == 0xE0 then 0xA0 else 0x80;
      var hi: u8 := if b == 0xED then 0x9F else 0xBF;
      if |s| >= 3 && lo <= s[1] <= hi && IsContinuation(s[2]) then 3 else 0
    else if 0xF0 <= b <= 0xF4 then
      var lo: u8 := if b == 0xF0 then 0x90 else 0x80;
      var hi: u8 := if b == 0xF4 then 0x8F else 0xBF;
      if |s| >= 4 && lo <= s[1] <= hi && IsContinuation(s[2]) && IsContinuation(s[3]) then 4 else 0
    else 0
  }

  /** `s` is a sequence of well-formed character encodings. */
  predicate Valid(s: seq<u8>)
    decreases |s|
  {
    |s| == 0 || (HeadWidth(s) > 0 && Valid(s[HeadWidth(s)..]))
  }

  /** Every ASCII string is valid UTF-8, so a Rust `&str` of ASCII text passes the check. */
  lemma {:induction false} AsciiIsValid(s: seq<u8>)
    requires forall i :: 0 <= i < |s| ==> s[i] < 0x80
    ensures Valid(s)
    decreases |s|
  {
    if |s| > 0 {
      assert HeadWidth(s) == 1;
      AsciiIsValid(s[1..]);
    }
  }
}
