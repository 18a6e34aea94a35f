/** The parts of Kotlin's string library that the search coordinator relies on. */
module KotlinText {

  /** An ASCII letter or digit. */
  predicate IsAsciiAlphanumeric(c: char)
  {
    ('0' <= c <= '9') || ('a' <= c <= 'z') || ('A' <= c <= 'Z')
  }

  /**
   * Char.isWhitespace() on the JVM: Character.isWhitespace(c) or
   * Character.isSpaceChar(c). That is the controls U+0009..U+000D and
   * U+001C..U+001F, and every space, line or paragraph separator
   * (categories Zs, Zl, Zp), the non-breaking spaces included.
   */
  predicate IsWhitespace(c: char)
    ensures c == ' ' || c == '\t' || c == '\n' || c == '\r' ==> IsWhitespace(c)
    ensures IsAsciiAlphanumeric(c) ==> !IsWhitespace(c)
  {
    var n := c as int;
    || 0x09 <= n <= 0x0D
    || 0x1C <= n <= 0x20
    || n == 0xA0
    || n == 0x1680
    || 0x2000 <= n <= 0x200A
    || n == 0x2028 || n == 0x2029
    || n == 0x202F || n == 0x205F
    || n == 0x3000
  }

  /** CharSequence.isBlank(): empty, or whitespace only. */
  predicate IsBlank(s: string)
    ensures s == [] ==> IsBlank(s)
    ensures (exists i :: 0 <= i < |s| && IsAsciiAlphanumeric(s[i])) ==> !IsBlank(s)
  {
    forall i :: 0 <= i < |s| ==> IsWhitespace(s[i])
  }

  /** CharSequence.ifBlank { default }: the default for a blank string, the string itself otherwise. */
  function IfBlank(s: string, default: string): (r: string)
    ensures IsBlank(s) ==> r == default
    ensures !IsBlank(s) ==> r == s
    ensures !IsBlank(default) ==> !IsBlank(r)
  {
    if IsBlank(s) then default else s
  }
}
