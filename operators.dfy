/**
 * The operator table: one row of expansion parameters per operator of
 * draft-gregorio-uritemplate-07 (Appendix A of RFC 6570), plus the row used
 * when an expression has no operator.
 */
module Operators {
  import opened Wrappers
  import opened PercentEncoding

  /** A row of the table (OperatorParams). */
  datatype OperatorParams = OperatorParams(
    first: string,  // written before the first defined variable
    sep: string,    // written before every later defined variable
    named: bool,    // whether "name=" precedes each value
    ifemp: string,  // written after the name instead of "=value" when the value is empty
    allow: Allow)   // which characters pass unencoded

  /**
   * The table, keyed on an optional operator character: None is the row for
   * "no operator", and a character that is not a key has no row.
   */
  function Params(op: Option<char>): Option<OperatorParams> {
    match op
    case None      => Some(OperatorParams("",  ",", false, "",  U))
    case Some('+') => Some(OperatorParams("",  ",", false, "",  UAndR))
    case Some('.') => Some(OperatorParams(".", ".", false, "",  U))
    case Some('/') => Some(OperatorParams("/", "/", false, "",  U))
    case Some(';') => Some(OperatorParams(";", ";", true,  "",  U))
    case Some('?') => Some(OperatorParams("?", "&", true,  "=", U))
    case Some('&') => Some(OperatorParams("&", "&", true,  "=", U))
    case Some('#') => Some(OperatorParams("#", ",", false, "",  UAndR))
    case Some(_)   => None
  }

  /** Whether the table has a row for the character c (params.containsKey). */
  predicate IsOperator(c: char) {
    Params(Some(c)).Some?
  }

  /** The seven operator characters the table knows. */
  const OperatorChars: string := "+./;?&#"

  /** The table is total on its keys: the "no operator" row and exactly the seven operator characters. */
  lemma OperatorKeys(c: char)
    ensures Params(None).Some?
    ensures IsOperator(c) <==> c in OperatorChars
  {
  }

  /**
   * How the rows differ. Every operator except "+" writes itself before the
   * first value; only ";", "?" and "&" write names, and only "?" and "&" write
   * "=" after the name of an empty value; only "+" and "#" let reserved
   * characters through. The no-operator row and "+" differ in that alone.
   */
  lemma OperatorRows(c: char)
    requires IsOperator(c)
    ensures var p := Params(Some(c)).value;
      && (p.first == if c == '+' then "" else [c])
      && (p.sep == if c in "./;&" then [c] else if c == '?' then "&" else ",")
      && (p.named <==> c in ";?&")
      && (p.ifemp == if c in "?&" then "=" else "")
      && (p.allow == UAndR <==> c in "+#")
    ensures Params(None).value == Params(Some('+')).value.(allow := U)
  {
  }
}
