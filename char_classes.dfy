/**
 * Character classes of RFC 3986 (sections 2.2 and 2.3) as the expander tests them.
 */
module CharClasses {

  /**
   * A Java `char` is one UTF-16 code unit. A Dafny character that stands for
   * one is in the Basic Multilingual Plane; the surrogate code units cannot
   * occur, since Dafny characters are Unicode scalar values.
   */
  predicate IsCodeUnit(c: char) {
    c as int < 0x1_0000
  }

  /** A string all of whose characters are single Java code units. */
  predicate IsBmp(s: string) {
    forall i :: 0 <= i < |s| ==> IsCodeUnit(s[i])
  }

  /** ALPHA: A-Z and a-z. */
  predicate IsAlpha(c: char) {
    'A' <= c <= 'Z' || 'a' <= c <= 'z'
  }

  /** DIGIT: 0-9. */
  predicate IsDigit(c: char) {
    '0' <= c <= '9'
  }

  /** unreserved: ALPHA, DIGIT, "-", ".", "_" and "~". */
  predicate IsUnreserved(c: char) {
    IsAlpha(c) || IsDigit(c) || c == '-' || c == '.' || c == '_' || c == '~'
  }

  /**
   * reserved: the gen-delims and sub-delims. The sub-delim written for the
   * apostrophe is U+2019 (right single quotation mark), not U+0027.
   */
  predicate IsReserved(c: char) {
    c == ':' || c == '/' || c == '?' || c == '#' || c == '[' || c == ']' || c == '@' ||
    c == '!' || c == '$' || c == '&' || c == '’' || c == '(' || c == ')' ||
    c == '*' || c == '+' || c == ',' || c == ';' || c == '='
  }

  /** The reserved set as the expander lists it (U+2019 in place of the apostrophe). */
  const ReservedList: string := ":/?#[]@!$&’()*+,;="

  /** Every unreserved or reserved character is a single Java code unit. */
  lemma ClassesAreCodeUnits(c: char)
    requires IsUnreserved(c) || IsReserved(c)
    ensures IsCodeUnit(c)
  {
  }

  /** The reserved test accepts exactly the 18 listed characters; the ASCII apostrophe is not one of them. */
  lemma ReservedIsListed(c: char)
    ensures IsReserved(c) <==> c in ReservedList
    ensures !IsReserved('\'') && IsReserved('’')
  {
  }

  /** No character is both unreserved and reserved, and the percent sign is neither. */
  lemma ClassesDisjoint(c: char)
    ensures !(IsUnreserved(c) && IsReserved(c))
    ensures !IsUnreserved('%') && !IsReserved('%')
  {
  }
}
