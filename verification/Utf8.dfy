/** Well-formed UTF-8 (RFC 3629, section 4), as the checks on names and strings decide it. */
module Utf8 {
  import opened Bytes

  predicate Tail(b: byte) {
    0x80 <= b <= 0xBF
  }

  /** The length of the well-formed sequence at the front, or 0. */
  function Utf8Step(s: seq<byte>): (n: nat)
    requires s != []
    ensures n <= |s|
  {
    var a := s[0];
    if a <= 0x7F then 1
    else if 0xC2 <= a <= 0xDF && |s| >= 2 && Tail(s[1]) then 2
    else if |s| >= 3 && Tail(s[2])
         && ((a == 0xE0 && 0xA0 <= s[1] <= 0xBF) || (0xE1 <= a <= 0xEC && Tail(s[1]))
             || (a == 0xED && 0x80 <= s[1] <= 0x9F) || (0xEE <= a <= 0xEF && Tail(s[1]))) then 3
    else if |s| >= 4 && Tail(s[2]) && Tail(s[3])
         && ((a == 0xF0 && 0x90 <= s[1] <= 0xBF) || (0xF1 <= a <= 0xF3 && Tail(s[1]))
             || (a == 0xF4 && 0x80 <= s[1] <= 0x8F)) then 4
    else 0
  }

  predicate IsUtf8(s: seq<byte>)
    decreases |s|
  {
    s == [] || (Utf8Step(s) > 0 && IsUtf8(s[Utf8Step(s)..]))
  }

  /** ASCII is well-formed. */
  lemma {:induction false} AsciiIsUtf8(s: seq<byte>)
    requires forall i :: 0 <= i < |s| ==> s[i] <= 0x7F
    ensures IsUtf8(s)
    decreases |s|
  {
    if s != [] { AsciiIsUtf8(s[1..]); }
  }
}
