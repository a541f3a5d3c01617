/** Character classes shared by the cleaning steps. */
module Chars {

  /** Whitespace as Python's `str.isspace()` sees it: the ASCII controls
      TAB, LF, VT, FF, CR, the separators U+001C..U+001F, the space, and the
      Unicode spaces. The model uses this one predicate both for the regular
      expression classes `\s`/`\S` and for `str.split()`. */
  predicate IsWhitespace(c: char) {
    || ('\t' <= c <= '\r')
    || ('\U{1C}' <= c <= ' ')
    || c == '\U{85}' || c == '\U{A0}' || c == '\U{1680}'
    || ('\U{2000}' <= c <= '\U{200A}')
    || c == '\U{2028}' || c == '\U{2029}' || c == '\U{202F}' || c == '\U{205F}' || c == '\U{3000}'
  }

  /** The 29 characters for which `str.isspace()` holds, listed one by one
      in code-point order. */
  const IsspaceChars: string :=
    "\t\n\U{0B}\U{0C}\r\U{1C}\U{1D}\U{1E}\U{1F} \U{85}\U{A0}\U{1680}"
    + "\U{2000}\U{2001}\U{2002}\U{2003}\U{2004}\U{2005}\U{2006}\U{2007}\U{2008}\U{2009}\U{200A}"
    + "\U{2028}\U{2029}\U{202F}\U{205F}\U{3000}"

  /** The range test above holds for exactly the listed characters. */
  lemma WhitespaceIsIsspace(c: char)
    ensures |IsspaceChars| == 29
    ensures IsWhitespace(c) <==> c in IsspaceChars
  {
  }

  predicate NotWhitespace(c: char) {
    !IsWhitespace(c)
  }

  predicate IsNewline(c: char) {
    c == '\n'
  }

  predicate NotNewline(c: char) {
    c != '\n'
  }

  /** Python's `string.punctuation`, in its own order. */
  const AsciiPunctuation: string := "!\"#$%&'()*+,-./:;<=>?@[\\]^_`{|}~"

  /** Membership in `string.punctuation`: the four ASCII ranges between the
      letters and digits. */
  predicate IsPunctuation(c: char) {
    || ('!' <= c <= '/')
    || (':' <= c <= '@')
    || ('[' <= c <= '`')
    || ('{' <= c <= '~')
  }

  /** The range test above is exactly the 32 characters of `string.punctuation`. */
  lemma PunctuationIsAsciiPunctuation(c: char)
    ensures |AsciiPunctuation| == 32
    ensures IsPunctuation(c) <==> c in AsciiPunctuation
  {
  }

  /** No punctuation character is whitespace. */
  lemma PunctuationIsNotWhitespace(c: char)
    ensures IsPunctuation(c) ==> !IsWhitespace(c)
  {
  }

  predicate IsAsciiUpper(c: char) {
    'A' <= c <= 'Z'
  }

  /** ASCII lower-casing of one character: 'A'..'Z' move to 'a'..'z',
      everything else is left alone. */
  function LowerChar(c: char): (d: char)
    ensures !IsAsciiUpper(d)
    ensures IsAsciiUpper(c) ==> d as int == c as int + 32
    ensures !IsAsciiUpper(c) ==> d == c
  {
    if IsAsciiUpper(c) then (c as int + 32) as char else c
  }
}
