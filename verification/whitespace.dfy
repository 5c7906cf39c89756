/** The JavaScript regular-expression class `\s` and the two tests the editor
    builds from it: `^\s*$` (blank text) and `^\S+$` (a well-formed id). */
module Whitespace {

  /** `\s`: the ECMAScript WhiteSpace and LineTerminator code points. */
  predicate IsSpace(c: char) {
    var k := c as int;
    || k == 0x09 || k == 0x0A || k == 0x0B || k == 0x0C || k == 0x0D
    || k == 0x20 || k == 0xA0 || k == 0x1680
    || (0x2000 <= k <= 0x200A)
    || k == 0x2028 || k == 0x2029 || k == 0x202F || k == 0x205F
    || k == 0x3000 || k == 0xFEFF
  }

  /** `/^\s*$/.test(s)`: the string holds nothing but whitespace (or nothing). */
  predicate Blank(s: string) {
    forall i :: 0 <= i < |s| ==> IsSpace(s[i])
  }

  /** `/^\S+$/.test(s)`: the string is non-empty and holds no whitespace. */
  predicate NoSpace(s: string) {
    |s| > 0 && forall i :: 0 <= i < |s| ==> !IsSpace(s[i])
  }
}
