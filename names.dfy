/**
 * The XML Name production (section 2.3 of XML 1.0, Fifth Edition) that the DOM's
 * createElement and createAttribute check their argument against before they make
 * a node; a name outside it is refused with INVALID_CHARACTER_ERR.
 */
module Names {
  import opened Paths

  /** NameStartChar: a letter, ':' or '_', or a character of the listed non-ASCII ranges. */
  predicate IsNameStartChar(c: char) {
    c == ':' || ('A' <= c <= 'Z') || c == '_' || ('a' <= c <= 'z') ||
    ('\U{C0}' <= c <= '\U{D6}') || ('\U{D8}' <= c <= '\U{F6}') || ('\U{F8}' <= c <= '\U{2FF}') ||
    ('\U{370}' <= c <= '\U{37D}') || ('\U{37F}' <= c <= '\U{1FFF}') || ('\U{200C}' <= c <= '\U{200D}') ||
    ('\U{2070}' <= c <= '\U{218F}') || ('\U{2C00}' <= c <= '\U{2FEF}') || ('\U{3001}' <= c <= '\U{D7FF}') ||
    ('\U{F900}' <= c <= '\U{FDCF}') || ('\U{FDF0}' <= c <= '\U{FFFD}') || ('\U{10000}' <= c <= '\U{EFFFF}')
  }

  /** NameChar: a NameStartChar, '-', '.', a digit, U+00B7, or a combining range. */
  predicate IsNameChar(c: char) {
    IsNameStartChar(c) || c == '-' || c == '.' || ('0' <= c <= '9') || c == '\U{B7}' ||
    ('\U{300}' <= c <= '\U{36F}') || ('\U{203F}' <= c <= '\U{2040}')
  }

  /** Name ::= NameStartChar (NameChar)* */
  predicate IsXmlName(s: string) {
    s != [] && IsNameStartChar(s[0]) && forall i :: 1 <= i < |s| ==> IsNameChar(s[i])
  }

  /**
   * A token of the fast-lookup alphabet ([A-Za-z0-9.-], no leading '@') is a name
   * exactly when it starts with a letter: `1a`, `.` and `-x` are refused.
   */
  lemma {:induction false} SimpleTokenName(tok: string)
    requires tok != [] && IsSimplePath(tok) && tok[0] != '@'
    ensures IsXmlName(tok) <==> ('a' <= tok[0] <= 'z' || 'A' <= tok[0] <= 'Z')
  {
    assert SimpleChar(tok[0], 0);
    forall i | 1 <= i < |tok| ensures IsNameChar(tok[i]) {
      assert SimpleChar(tok[i], i);
    }
  }
}
