/**
 * The template expander (class UriTemplate): the scan of the template, the
 * error record, and the functions that specify the scan.
 */
module Template {
  import opened Wrappers
  import opened Expressions

  /** The message recorded for a "{" without a later "}". */
  const NotClosed: string := "Expression not closed"

  /** Java's `s.indexOf(c, from)`: the first index at or after from that holds c, or -1. */
  function IndexOf(s: string, c: char, from: nat): (r: int)
    ensures r == -1 || from <= r < |s|
    decreases |s| - from
  {
    if from >= |s| then -1
    else if s[from] == c then from
    else IndexOf(s, c, from + 1)
  }

  /** IndexOf finds the first occurrence at or after from, and -1 exactly when there is none. */
  lemma {:induction false} IndexOfFirst(s: string, c: char, from: nat)
    ensures IndexOf(s, c, from) == -1 ==> forall k :: from <= k < |s| ==> s[k] != c
    ensures IndexOf(s, c, from) != -1 ==>
      s[IndexOf(s, c, from)] == c && forall k :: from <= k < IndexOf(s, c, from) ==> s[k] != c
    decreases |s| - from
  {
    if from < |s| && s[from] != c {
      IndexOfFirst(s, c, from + 1);
    }
  }

  /**
   * The scan of t from index i meets no empty expression "{}". The scan
   * copies a character other than "{"; at a "{" it skips to after the next
   * "}", or, when there is none, goes on with the character after the "{".
   */
  predicate NoEmptyExpression(t: string, i: nat)
    decreases |t| - i
  {
    if i >= |t| then true
    else if t[i] != '{' then NoEmptyExpression(t, i + 1)
    else
      var e := IndexOf(t, '}', i + 1);
      if e != -1 then e != i + 1 && NoEmptyExpression(t, e + 1)
      else NoEmptyExpression(t, i + 1)
  }

  /**
   * The output of the scan of t from index i, appended to sb (what has been
   * written before): a character other than "{" is copied; "{" body "}"
   * gives the expansion of body; a "{" with no later "}" gives the rest of
   * the template after it, raw, and the scan goes on with that rest.
   */
  function ExpandFrom(t: string, i: nat, vars: Vars, sb: string): string
    requires NoEmptyExpression(t, i) && ValuesAreBmp(vars)
    decreases |t| - i
  {
    if i >= |t| then sb
    else if t[i] != '{' then ExpandFrom(t, i + 1, vars, sb + [t[i]])
    else
      var e := IndexOf(t, '}', i + 1);
      if e != -1 then ExpandFrom(t, e + 1, vars, sb + ExpressionSpec(t[i + 1..e], vars))
      else ExpandFrom(t, i + 1, vars, sb + t[i + 1..])
  }

  /**
   * The position of the last error the scan of t from index i records, or
   * last when it records none: a "{" with no later "}" at index k records k + 1.
   */
  function ErrorFrom(t: string, i: nat, last: Option<nat>): Option<nat>
    decreases |t| - i
  {
    if i >= |t| then last
    else if t[i] != '{' then ErrorFrom(t, i + 1, last)
    else
      var e := IndexOf(t, '}', i + 1);
      if e != -1 then ErrorFrom(t, e + 1, last)
      else ErrorFrom(t, i + 1, Some(i + 1))
  }

  /** What expand returns for template t. */
  function Expanded(t: string, vars: Vars): string
    requires NoEmptyExpression(t, 0) && ValuesAreBmp(vars)
  {
    ExpandFrom(t, 0, vars, [])
  }

  /** The position expand records for template t, or None when it records nothing. */
  function ErrorAt(t: string): Option<nat> {
    ErrorFrom(t, 0, None)
  }

  /** The error record of an expander (UriTemplate.ErrorState). */
  class ErrorState {
    var error: bool
    var msg: Option<string>  // None stands for Java's null
    var at: int

    /** A fresh record holds no error, no message and position 0. */
    constructor ()
      ensures !error && msg == None && at == 0
    {
      error := false;
      msg := None;
      at := 0;
    }

    /** Records an error, overwriting the message and the position. */
    method Set(m: string, a: int)
      modifies this
      ensures error && msg == Some(m) && at == a
    {
      error := true;
      msg := Some(m);
      at := a;
    }

    /** Whether an error has been recorded. */
    method IsError() returns (r: bool)
      ensures r == error
    {
      r := error;
    }

    /** The recorded position. */
    method GetAt() returns (r: int)
      ensures r == at
    {
      r := at;
    }
  }

  /** A template and the error record of its expansions. */
  class UriTemplate {
    const template: string
    const errorState: ErrorState

    constructor (t: string)
      ensures template == t && fresh(errorState)
      ensures !errorState.error && errorState.msg == None && errorState.at == 0
    {
      template := t;
      errorState := new ErrorState();
    }

    /** The error record, shared with the caller. */
    method GetErrorState() returns (e: ErrorState)
      ensures e == errorState
    {
      e := errorState;
    }

    /**
     * expand: returns the expansion of the template. A "{" without a later
     * "}" records "Expression not closed" at the index after it; when the
     * template has none, the record is left as it was, so an error recorded
     * by an earlier call stays. An empty expression "{}" reached by the scan
     * throws in the source, so the template must have none.
     */
    method Expand(vars: Vars) returns (r: string)
      requires ValuesAreBmp(vars) && NoEmptyExpression(template, 0)
      modifies errorState
      ensures r == Expanded(template, vars)
      ensures ErrorAt(template).None? ==>
        errorState.error == old(errorState.error) && errorState.msg == old(errorState.msg) && errorState.at == old(errorState.at)
      ensures ErrorAt(template).Some? ==>
        errorState.error && errorState.msg == Some(NotClosed) && errorState.at == ErrorAt(template).value
    {
      r := [];
      ghost var recorded: Option<nat> := None;  // the position of the last error recorded by this call
      var i := 0;
      while i < |template|
        invariant 0 <= i <= |template|
        invariant NoEmptyExpression(template, i)
        invariant ExpandFrom(template, i, vars, r) == Expanded(template, vars)
        invariant ErrorFrom(template, i, recorded) == ErrorAt(template)
        invariant recorded.None? ==>
          errorState.error == old(errorState.error) && errorState.msg == old(errorState.msg) && errorState.at == old(errorState.at)
        invariant recorded.Some? ==>
          errorState.error && errorState.msg == Some(NotClosed) && errorState.at == recorded.value
      {
        if template[i] != '{' {
          r := r + [template[i]];
        } else {
          var exprStart := i + 1;
          var exprEnd := IndexOf(template, '}', exprStart);
          if exprEnd != -1 {
            var expression := template[exprStart..exprEnd];
            var e := ExpandExpression(expression, vars);
            r := r + e;
            i := exprEnd;
          } else {
            r := r + template[exprStart..];
            errorState.Set(NotClosed, exprStart);
            recorded := Some(exprStart);
          }
        }
        i := i + 1;
      }
    }
  }
}
