/**
Character classes. Queries and labels are sequences of Unicode scalar values, which is what the HTTP
layer lets through: it rejects every value that is not valid UTF-8. White space is listed as
unicode.IsSpace defines it; letters and digits stay abstract tables with the facts the code relies on.
*/
module Runes {
  import opened Common

  /** unicode.IsSpace: the Unicode property White_Space. */
  predicate IsSpace(r: char) {
    var c := r as int;
    || 0x09 <= c <= 0x0d || c == 0x20 || c == 0x85 || c == 0xa0 || c == 0x1680
    || 0x2000 <= c <= 0x200a || c == 0x2028 || c == 0x2029 || c == 0x202f || c == 0x205f || c == 0x3000
  }

  predicate IsAsciiDigit(r: char) {
    '0' <= r <= '9'
  }

  predicate IsAsciiLetter(r: char) {
    'a' <= r <= 'z' || 'A' <= r <= 'Z'
  }

  /** The separators trimmed next to a removed token. */
  predicate IsTokenSeparator(r: char) {
    r in "-\U{2013}\U{2014}_|/,:;."
  }

  function TechnicalPairClose(r: char): Option<char> {
    match r
    case '(' => Some(')')
    case '[' => Some(']')
    case '{' => Some('}')
    case _ => None
  }

  predicate IsOpener(r: char) {
    TechnicalPairClose(r).Some?
  }

  predicate IsCloser(r: char) {
    r in ")]}"
  }

  /** The letters and decimal digits of Unicode (categories L and Nd), as tables. */
  datatype Tables = Tables(letters: iset<char>, digits: iset<char>) {
    predicate IsTitleRune(r: char) {
      r in letters || r in digits
    }

    /** What every version of the Unicode tables satisfies. */
    ghost predicate Sane() {
      && (forall r :: IsAsciiLetter(r) ==> r in letters)
      && (forall r :: IsAsciiDigit(r) ==> r in digits)
      && (forall r :: IsSpace(r) || IsTokenSeparator(r) || IsOpener(r) || IsCloser(r) ==> !IsTitleRune(r))
    }
  }

  /** The brackets of technical pairs: round, square and curly ones, each closed by its own kind. */
  lemma BracketsPairUp(open: char, close: char)
    ensures TechnicalPairClose(open) == Some(close) <==> [open, close] in ["()", "[]", "{}"]
  {
    assert "()"[0] == '(' && "()"[1] == ')' && "[]"[0] == '[' && "[]"[1] == ']' && "{}"[0] == '{' && "{}"[1] == '}';
    assert [open, close][0] == open && [open, close][1] == close;
  }

  /** The separators by code point: hyphen, both dashes, underscore, bar, slash, comma, colon, semicolon, stop. */
  lemma SeparatorsByCode(r: char)
    ensures IsTokenSeparator(r) <==> r as int in {0x2d, 0x2013, 0x2014, 0x5f, 0x7c, 0x2f, 0x2c, 0x3a, 0x3b, 0x2e}
  {
    var all := "-\U{2013}\U{2014}_|/,:;.";
    assert all[0] == '-' && all[1] == '\U{2013}' && all[2] == '\U{2014}' && all[3] == '_' && all[4] == '|';
    assert all[5] == '/' && all[6] == ',' && all[7] == ':' && all[8] == ';' && all[9] == '.';
    assert '-' as int == 0x2d && '_' as int == 0x5f && '|' as int == 0x7c && '/' as int == 0x2f;
    assert ',' as int == 0x2c && ':' as int == 0x3a && ';' as int == 0x3b && '.' as int == 0x2e;
  }
}
