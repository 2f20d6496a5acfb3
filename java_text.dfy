/** The pieces of java.lang.String and java.lang.Character that the
    repository relies on. Java strings are modelled as sequences of
    Unicode code points. */
module JavaText {
  import opened Wrappers

  /** Character.isWhitespace: the Unicode space, line and paragraph
      separators other than the three non-breaking spaces (U+00A0, U+2007,
      U+202F), plus U+0009..U+000D and U+001C..U+001F. */
  predicate IsWhitespace(c: char) {
    var n := c as int;
    (0x09 <= n <= 0x0D) || (0x1C <= n <= 0x20) || n == 0x1680
    || (0x2000 <= n <= 0x2006) || (0x2008 <= n <= 0x200A)
    || n == 0x2028 || n == 0x2029 || n == 0x205F || n == 0x3000
  }

  /** String.isBlank: empty, or made only of white space code points. */
  predicate IsBlank(s: string) {
    forall i :: 0 <= i < |s| ==> IsWhitespace(s[i])
  }

  /** How string concatenation renders a possibly-null String operand. */
  function Render(s: Option<string>): string {
    match s
    case None => "null"
    case Some(t) => t
  }
}
