/**
 Well-formed UTF-8 (RFC 3629, section 4), which is what a Rust `str` holds and what
 `String::from_utf8` accepts, and the number of characters in it.
 */
module Utf8 {
  import opened Bytes

  predicate Tail(b: byte) {
    0x80 <= b <= 0xBF
  }

  /** The length of the well-formed character at the front of `s`, or 0 when there is none. */
  function FrontLength(s: bytes): (n: nat)
    ensures n <= |s|
    ensures n == 1 <==> s != [] && s[0] < 0x80
  {
    if s == [] then 0
    else if s[0] < 0x80 then 1
    else if |s| >= 2 && 0xC2 <= s[0] <= 0xDF && Tail(s[1]) then 2
    else if |s| >= 3 && SecondOfThree(s[0], s[1]) && Tail(s[2]) then 3
    else if |s| >= 4 && SecondOfFour(s[0], s[1]) && Tail(s[2]) && Tail(s[3]) then 4
    else 0
  }

  predicate SecondOfThree(a: byte, b: byte) {
    || (a == 0xE0 && 0xA0 <= b <= 0xBF)
    || ((0xE1 <= a <= 0xEC || 0xEE <= a <= 0xEF) && Tail(b))
    || (a == 0xED && 0x80 <= b <= 0x9F)
  }

  predicate SecondOfFour(a: byte, b: byte) {
    || (a == 0xF0 && 0x90 <= b <= 0xBF)
    || (0xF1 <= a <= 0xF3 && Tail(b))
    || (a == 0xF4 && 0x80 <= b <= 0x8F)
  }

  predicate Valid(s: bytes)
    decreases |s|
  {
    s == [] || (FrontLength(s) > 0 && Valid(s[FrontLength(s)..]))
  }

  type str = s: bytes | Valid(s)

  /** `v.chars().count()` */
  function CharCount(s: str): (n: nat)
    ensures n <= |s|
    decreases |s|
  {
    if s == [] then 0 else 1 + CharCount(s[FrontLength(s)..])
  }

  predicate Ascii(s: bytes) {
    forall i :: 0 <= i < |s| ==> s[i] < 0x80
  }

  /** The character count is the byte count exactly for ASCII text. */
  lemma {:induction false} CharCountIsByteCount(s: str)
    ensures CharCount(s) == |s| <==> Ascii(s)
    decreases |s|
  {
    if s != [] {
      var t := s[FrontLength(s)..];
      CharCountIsByteCount(t);
      if FrontLength(s) == 1 {
        assert s == [s[0]] + t;
      }
    }
  }
}
