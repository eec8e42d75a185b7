/**
 * Character classes used by Python's string methods and by float().
 * Characters are Unicode code points.
 */
module Chars {

  /**
   * Python's notion of whitespace (str.isspace): the characters that
   * str.split() and str.strip() treat as blanks. Listed one by
   * one: tab, line feed, vertical tab, form feed, carriage return, the
   * four information separators U+001C..U+001F, space, next line, no-break
   * space, U+1680, the spaces U+2000..U+200A, the line and paragraph
   * separators, narrow no-break space, medium mathematical space and the
   * ideographic space.
   */
  predicate IsSpace(c: char)
  {
    || c == '\t' || c == '\n' || c == '\U{B}' || c == '\U{C}' || c == '\r'
    || c == '\U{1C}' || c == '\U{1D}' || c == '\U{1E}' || c == '\U{1F}'
    || c == ' ' || c == '\U{85}' || c == '\U{A0}' || c == '\U{1680}'
    || c == '\U{2000}' || c == '\U{2001}' || c == '\U{2002}' || c == '\U{2003}'
    || c == '\U{2004}' || c == '\U{2005}' || c == '\U{2006}' || c == '\U{2007}'
    || c == '\U{2008}' || c == '\U{2009}' || c == '\U{200A}'
    || c == '\U{2028}' || c == '\U{2029}' || c == '\U{202F}' || c == '\U{205F}'
    || c == '\U{3000}'
  }

  /**
   * The blanks float() strips from both ends of its argument. CPython
   * first turns every non-ASCII whitespace character into a space and then
   * strips ASCII whitespace, so the four information separators
   * U+001C..U+001F, which are ASCII but not ASCII whitespace, are kept.
   */
  predicate IsFloatSpace(c: char)
  {
    IsSpace(c) && !('\U{1C}' <= c <= '\U{1F}')
  }

  /** The characters the regular expression [\[\],] matches. */
  predicate IsBracketOrComma(c: char)
  {
    c == '[' || c == ']' || c == ','
  }

  predicate IsDigit(c: char)
  {
    '0' <= c <= '9'
  }

  function DigitValue(c: char): (d: nat)
    requires IsDigit(c)
    ensures d < 10
  {
    c as int - '0' as int
  }

  /** ASCII lower-casing; every other character is left as it is. */
  function AsciiLower(c: char): (l: char)
    ensures 'A' <= c <= 'Z' ==> 'a' <= l <= 'z'
    ensures !('A' <= c <= 'Z') ==> l == c
  {
    if 'A' <= c <= 'Z' then (c as int + 32) as char else c
  }
}
