/**
 * Well-formed UTF-8, as the syntax in section 4 of RFC 3629 defines it.
 * The driver decodes each received line with `core::str::from_utf8`, which
 * accepts exactly the octet sequences of this syntax.
 */
module Utf8 {
  import opened Text

  /** UTF8-tail = %x80-BF */
  predicate IsTail(b: byte) {
    0x80 <= b <= 0xBF
  }

  /**
   * The length of the UTF8-char that `s` starts with, or 0 when `s` does not
   * start with one.
   */
  function CharLength(s: seq<byte>): (n: nat)
    ensures n <= |s| && n <= 4
    ensures n == 1 <==> |s| > 0 && s[0] < 0x80
    ensures n > 0 ==> s[0] < 0x80 || 0xC2 <= s[0] <= 0xF4
    ensures forall k :: 1 <= k < n ==> IsTail(s[k])
  {
    if |s| == 0 then 0
    else if s[0] <= 0x7F then 1
    else if 0xC2 <= s[0] <= 0xDF then
      if |s| >= 2 && IsTail(s[1]) then 2 else 0
    else if s[0] == 0xE0 then
      if |s| >= 3 && 0xA0 <= s[1] <= 0xBF && IsTail(s[2]) then 3 else 0
    else if 0xE1 <= s[0] <= 0xEC || 0xEE <= s[0] <= 0xEF then
      if |s| >= 3 && IsTail(s[1]) && IsTail(s[2]) then 3 else 0
    else if s[0] == 0xED then
      if |s| >= 3 && 0x80 <= s[1] <= 0x9F && IsTail(s[2]) then 3 else 0
    else if s[0] == 0xF0 then
      if |s| >= 4 && 0x90 <= s[1] <= 0xBF && IsTail(s[2]) && IsTail(s[3]) then 4 else 0
    else if 0xF1 <= s[0] <= 0xF3 then
      if |s| >= 4 && IsTail(s[1]) && IsTail(s[2]) && IsTail(s[3]) then 4 else 0
    else if s[0] == 0xF4 then
      if |s| >= 4 && 0x80 <= s[1] <= 0x8F && IsTail(s[2]) && IsTail(s[3]) then 4 else 0
    else 0
  }

  /**
   * UTF8-octets = *( UTF8-char ). A well-formed sequence neither starts with
   * a continuation octet (or one never used: C0, C1, F5..FF) nor ends inside
   * a multi-octet character.
   */
  predicate Valid(s: seq<byte>)
    ensures Valid(s) && |s| > 0 ==> s[0] < 0x80 || 0xC2 <= s[0] <= 0xF4
    ensures Valid(s) && |s| > 0 ==> s[|s| - 1] < 0x80 || IsTail(s[|s| - 1])
    decreases |s|
  {
    |s| == 0 || (CharLength(s) > 0 && Valid(s[CharLength(s)..]))
  }

  /** Pure ASCII is well-formed UTF-8. */
  lemma {:induction false} AsciiIsValid(s: seq<byte>)
    requires AllAscii(s)
    ensures Valid(s)
  {
    if |s| > 0 {
      assert CharLength(s) == 1;
      assert AllAscii(s[1..]) by {
        forall i | 0 <= i < |s[1..]| ensures s[1..][i] < 128 {
          assert s[1..][i] == s[i + 1];
        }
      }
      AsciiIsValid(s[1..]);
    }
  }

  /**
   * A lone continuation octet, the overlong form C0 80 of NUL and the encoded
   * surrogate ED A0 80 are rejected; the three-octet character E2 82 AC is
   * accepted.
   */
  lemma MalformedExamples()
    ensures !Valid([0x80])
    ensures !Valid([0xC0, 0x80])
    ensures !Valid([0xED, 0xA0, 0x80])
    ensures Valid([0xE2, 0x82, 0xAC])
  {
    assert CharLength([0xE2, 0x82, 0xAC]) == 3;
    assert [0xE2, 0x82, 0xAC][3..] == [];
  }
}
