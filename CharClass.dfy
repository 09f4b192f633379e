/**
 * Character classes shared by the masker, the token splitter and the
 * segment builder, and the "longest prefix whose characters satisfy p"
 * helper that all three use to find groups of characters.
 */
module CharClass {

  /** isSuperscriptOrSubscript: a code point in U+2070..U+207F or U+2080..U+208F. */
  predicate IsSuperscriptOrSubscript(c: char) {
    ('\U{2070}' <= c <= '\U{207F}') || ('\U{2080}' <= c <= '\U{208F}')
  }

  /** isSuperscriptChar: a code point in U+2070..U+207F. */
  predicate IsSuperscriptChar(c: char) {
    '\U{2070}' <= c <= '\U{207F}'
  }

  /** Negation of IsSuperscriptOrSubscript, as a named predicate so that it can be passed to TakeWhile. */
  predicate IsPlain(c: char) {
    !IsSuperscriptOrSubscript(c)
  }

  /** The regular-expression class \s without the UNICODE_CHARACTER_CLASS flag: [ \t\n\x0B\f\r]. */
  predicate IsJavaSpace(c: char) {
    c == ' ' || c == '\t' || c == '\n' || c == '\U{B}' || c == '\U{C}' || c == '\r'
  }

  /** The regular-expression class \p{Punct}: the 32 ASCII punctuation characters. */
  predicate IsPunct(c: char) {
    ('!' <= c <= '/') || (':' <= c <= '@') || ('[' <= c <= '`') || ('{' <= c <= '~')
  }

  /** A character around which the token splitter puts a boundary on both sides. */
  predicate IsDelimiter(c: char) {
    IsJavaSpace(c) || IsPunct(c)
  }

  /** A character that belongs to a word token. */
  predicate IsWordChar(c: char) {
    !IsDelimiter(c)
  }

  predicate All(s: string, p: char -> bool) {
    forall i :: 0 <= i < |s| ==> p(s[i])
  }

  /** The longest prefix of s whose characters all satisfy p. */
  function TakeWhile(s: string, p: char -> bool): (w: string)
    ensures w <= s
    ensures All(w, p)
    ensures |w| < |s| ==> !p(s[|w|])
  {
    if s != [] && p(s[0]) then [s[0]] + TakeWhile(s[1..], p) else []
  }

  /** A prefix of s[..k] satisfying p and stopped by a character outside p (or the end) is what TakeWhile finds. */
  lemma {:induction false} TakeWhileExact(s: string, p: char -> bool, k: nat)
    requires k <= |s|
    requires All(s[..k], p)
    requires k == |s| || !p(s[k])
    ensures TakeWhile(s, p) == s[..k]
  {
    if k > 0 {
      assert s[..k][0] == s[0];
      assert s[1..][..k - 1] == s[..k][1..];
      TakeWhileExact(s[1..], p, k - 1);
      assert s[..k] == [s[0]] + s[1..][..k - 1];
    }
  }
}
