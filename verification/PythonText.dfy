/** What Python's str methods and patterns count as whitespace and digits. */
module PythonText {
  // str.isspace and \s on strings
  predicate IsSpace(c: char) {
    || c == ' ' || '\t' <= c <= '\r'
    || '\U{1C}' <= c <= '\U{1F}' || c == '\U{85}' || c == '\U{A0}' || c == '\U{1680}'
    || '\U{2000}' <= c <= '\U{200A}' || c == '\U{2028}' || c == '\U{2029}' || c == '\U{202F}'
    || c == '\U{205F}' || c == '\U{3000}'
  }

  // [0-9]
  predicate IsDigit(c: char) {
    '0' <= c <= '9'
  }

  predicate AllDigits(s: string) {
    forall k | 0 <= k < |s| :: IsDigit(s[k])
  }

  // [0-9]+
  predicate IsNumber(s: string) {
    s != "" && AllDigits(s)
  }

  // the whitespace of Unicode as Python counts it, by code point
  lemma Whitespace(c: char)
    ensures IsSpace(c) <==> c as int in {9, 10, 11, 12, 13, 28, 29, 30, 31, 32, 133, 160, 5760, 8192, 8193, 8194, 8195,
                                         8196, 8197, 8198, 8199, 8200, 8201, 8202, 8232, 8233, 8239, 8287, 12288}
  {
  }
}
