/**
 * The character class `rx_word` of the spell-check extension
 * (calysto/spell-check/main.js, line 13): a negated class, so it matches
 * any single character that is NOT a digit, NOT one of the listed
 * punctuation marks and NOT the space character.
 *
 * The class is written inside a JavaScript string literal, so it is read
 * after string unescaping: `\\\]` becomes the regex escape `\]`, hence
 * backslash is a word character; `\-` becomes a plain `-`, which turns
 * `,-.` into a range whose members are exactly `,`, `-` and `.`.
 */
module WordChars {

  /** The punctuation marks and the space that the class lists, in its order. */
  const Listed: set<char> :=
    {'!', '"', '#', '$', '%', '&', '(', ')', '*', '+', ',', '-', '.', '/',
     ':', ';', '<', '=', '>', '?', '@', '[', ']', '^', '_', '`', '{', '|',
     '}', '~', ' '}

  predicate IsDigit(c: char) {
    '0' <= c <= '9'
  }

  /**
   * True of exactly the characters `rx_word` matches, written with the
   * ASCII ranges the excluded characters form: space to `&`, `(` to `@`
   * (which holds the digits), `[`, `]` to the backquote, and `{` to `~`.
   * The apostrophe (between `&` and `(`) and the backslash (between `[`
   * and `]`) fall in the gaps.
   */
  predicate IsWordChar(c: char) {
    !((' ' <= c <= '&') || ('(' <= c <= '@') || c == '[' || (']' <= c <= '`') || ('{' <= c <= '~'))
  }

  /** The ranges exclude exactly the digits and the characters the class lists. */
  lemma WordCharIsUnlisted(c: char)
    ensures IsWordChar(c) <==> !IsDigit(c) && c !in Listed
  {
  }

  /** Characters the class lets into words although they look like separators. */
  lemma WordCharsOutsideTheList()
    ensures IsWordChar('\'') && IsWordChar('\\') && IsWordChar('\t') && IsWordChar('\n')
    ensures IsWordChar('a') && IsWordChar('Z') && IsWordChar('é')
  {
  }

  /**
   * Reading `\,\-\.` as the range `,-.` (as JavaScript does once the
   * string is unescaped) or as three separate characters gives the same
   * class: the range holds exactly `,`, `-` and `.`.
   */
  lemma CommaToDotRange(c: char)
    ensures IsWordChar(c) <==> !IsDigit(c) && c !in Listed - {',', '-', '.'} && !(',' <= c <= '.')
  {
  }
}
