/**
 * Expansion of one expression (expandExpression): the text between a "{" and
 * its "}", made of an optional operator and a comma-separated list of names.
 */
module Expressions {
  import opened Wrappers
  import opened CharClasses
  import opened PercentEncoding
  import opened Operators
  import opened VarList
  import opened Sequences

  /**
   * The variables: a missing name and a name mapped to None (Java's null)
   * both mean "undefined".
   */
  type Vars = map<string, Option<string>>

  /** vars.containsKey(name) && vars.get(name) != null */
  predicate IsDefined(vars: Vars, name: string) {
    name in vars && vars[name].Some?
  }

  /** Every defined value is a string of Java code units. */
  predicate ValuesAreBmp(vars: Vars) {
    forall name :: name in vars && vars[name].Some? ==> IsBmp(vars[name].value)
  }

  /** The operator of a non-empty expression: its first character, if the table has a row for it. */
  function Operator(body: string): Option<char>
    requires body != []
  {
    if IsOperator(body[0]) then Some(body[0]) else None
  }

  /** The row of the table that governs the expression. */
  function Row(body: string): OperatorParams
    requires body != []
  {
    Params(Operator(body)).value
  }

  /** The names: what follows the operator (or the whole body), split on commas. */
  function Names(body: string): seq<string>
    requires body != []
  {
    JavaSplit(body[if Operator(body).Some? then 1 else 0..])
  }

  /**
   * What a defined variable contributes after its separator: under a named
   * row the raw name, then either ifemp (empty value) or "=" and the encoded
   * value; under any other row the encoded value alone.
   */
  function RenderVar(p: OperatorParams, name: string, value: string): string
    requires IsBmp(value)
  {
    if p.named then
      name + (if value == [] then p.ifemp else "=" + Encoded(p.allow, value))
    else
      Encoded(p.allow, value)
  }

  /**
   * What the loop over names appends, given whether no defined variable has
   * been seen yet (first): undefined names contribute nothing, and each
   * defined one its separator and RenderVar.
   */
  function RenderVars(p: OperatorParams, names: seq<string>, vars: Vars, first: bool): string
    requires ValuesAreBmp(vars)
    decreases |names|
  {
    if names == [] then []
    else
      var name := names[0];
      if IsDefined(vars, name) then
        (if first then p.first else p.sep) + RenderVar(p, name, vars[name].value)
        + RenderVars(p, names[1..], vars, false)
      else
        RenderVars(p, names[1..], vars, first)
  }

  /** What expandExpression returns for a non-empty body. */
  function ExpressionSpec(body: string, vars: Vars): string
    requires body != [] && ValuesAreBmp(vars)
  {
    RenderVars(Row(body), Names(body), vars, true)
  }

  /**
   * expandExpression. The source reads the first character unconditionally,
   * so an empty body throws; callers must not pass one.
   */
  method ExpandExpression(expression: string, vars: Vars) returns (r: string)
    requires expression != [] && ValuesAreBmp(vars)
    ensures r == ExpressionSpec(expression, vars)
  {
    var operator := Some(expression[0]);
    var varspecStart := 0;
    if IsOperator(expression[0]) {
      varspecStart := varspecStart + 1;
    } else {
      operator := None;
    }
    var p := Params(operator).value;
    var varspec := JavaSplit(expression[varspecStart..]);
    ghost var full := RenderVars(p, varspec, vars, true);
    assert full == ExpressionSpec(expression, vars);

    r := [];
    var first := true;
    for k := 0 to |varspec|
      invariant r + RenderVars(p, varspec[k..], vars, first) == full
    {
      var name := varspec[k];
      ghost var before := r;
      assert varspec[k..][1..] == varspec[k + 1..];
      if IsDefined(vars, name) {
        var value := vars[name].value;
        var lead := if first then p.first else p.sep;
        ghost var rest := RenderVars(p, varspec[k + 1..], vars, false);
        assert RenderVars(p, varspec[k..], vars, first) == lead + RenderVar(p, name, value) + rest;
        r := r + lead;
        first := false;
        if p.named {
          r := r + name;
          if value == [] {
            r := r + p.ifemp;
            Assoc3(before, lead, name, p.ifemp);
          } else {
            r := r + "=";
            var e := EncodeValue(p.allow, value);
            r := r + e;
            Assoc4(before, lead, name, "=", e);
          }
        } else {
          var e := EncodeValue(p.allow, value);
          r := r + e;
          Assoc(before, lead, e);
        }
        assert r == before + (lead + RenderVar(p, name, value));
        Assoc(before, lead + RenderVar(p, name, value), rest);
      } else {
        assert RenderVars(p, varspec[k..], vars, first) == RenderVars(p, varspec[k + 1..], vars, first);
      }
    }
  }

  /** The encoder the row asks for: encodeU or encodeU_AND_R. */
  method EncodeValue(allow: Allow, value: string) returns (e: string)
    requires IsBmp(value)
    ensures e == Encoded(allow, value)
  {
    if allow == U {
      e := EncodeU(value);
    } else {
      e := EncodeUAndR(value);
    }
  }

  /** The contributions of the defined names, in the order the names are listed. */
  function Items(p: OperatorParams, names: seq<string>, vars: Vars): (items: seq<string>)
    requires ValuesAreBmp(vars)
    decreases |names|
  {
    if names == [] then []
    else if IsDefined(vars, names[0]) then
      [RenderVar(p, names[0], vars[names[0]].value)] + Items(p, names[1..], vars)
    else
      Items(p, names[1..], vars)
  }

  /** Each item preceded by sep. */
  function Interleave(sep: string, items: seq<string>): string
    decreases |items|
  {
    if items == [] then [] else sep + items[0] + Interleave(sep, items[1..])
  }

  /** No items give nothing; otherwise lead, the first item, and sep before each later one. */
  function Joined(lead: string, sep: string, items: seq<string>): string {
    if items == [] then [] else lead + items[0] + Interleave(sep, items[1..])
  }

  /** Only the defined names have items, so there are none exactly when no listed name is defined. */
  lemma {:induction false} ItemsEmptyIff(p: OperatorParams, names: seq<string>, vars: Vars)
    requires ValuesAreBmp(vars)
    ensures Items(p, names, vars) == [] <==> forall i :: 0 <= i < |names| ==> !IsDefined(vars, names[i])
    decreases |names|
  {
    if names != [] {
      ItemsEmptyIff(p, names[1..], vars);
      assert forall i :: 1 <= i < |names| ==> names[i] == names[1..][i - 1];
    }
  }

  /**
   * The loop's output is the items of the defined names joined: the row's
   * first before the first item (sep if one was already written), sep before
   * every later one.
   */
  lemma {:induction false} RenderVarsJoined(p: OperatorParams, names: seq<string>, vars: Vars, first: bool)
    requires ValuesAreBmp(vars)
    ensures RenderVars(p, names, vars, first) == Joined(if first then p.first else p.sep, p.sep, Items(p, names, vars))
    decreases |names|
  {
    if names != [] {
      var name := names[0];
      if IsDefined(vars, name) {
        RenderVarsJoined(p, names[1..], vars, false);
        var rest := Items(p, names[1..], vars);
        assert Joined(p.sep, p.sep, rest) == Interleave(p.sep, rest);
      } else {
        RenderVarsJoined(p, names[1..], vars, first);
      }
    }
  }

  /**
   * An expression expands to its defined variables' items joined with the
   * row's first and sep. If no listed variable is defined it expands to
   * nothing at all, without the operator's prefix; otherwise it starts with
   * that prefix.
   */
  lemma ExpressionJoined(body: string, vars: Vars)
    requires body != [] && ValuesAreBmp(vars)
    ensures var p := Row(body);
      ExpressionSpec(body, vars) == Joined(p.first, p.sep, Items(p, Names(body), vars))
    ensures (forall i :: 0 <= i < |Names(body)| ==> !IsDefined(vars, Names(body)[i])) ==>
      ExpressionSpec(body, vars) == []
    ensures (exists i :: 0 <= i < |Names(body)| && IsDefined(vars, Names(body)[i])) ==>
      Row(body).first <= ExpressionSpec(body, vars)
  {
    RenderVarsJoined(Row(body), Names(body), vars, true);
    ItemsEmptyIff(Row(body), Names(body), vars);
  }

  /**
   * The first character is taken as the operator exactly when it is one of
   * "+./;?&#"; the names are then the rest of the body split on commas, and
   * otherwise the whole body split on commas, under the no-operator row.
   */
  lemma OperatorSelection(body: string)
    requires body != []
    ensures Operator(body).Some? <==> body[0] in OperatorChars
    ensures Operator(body).Some? ==> Row(body) == Params(Some(body[0])).value && Names(body) == JavaSplit(body[1..])
    ensures Operator(body).None? ==> Row(body) == Params(None).value && Names(body) == JavaSplit(body)
  {
    OperatorKeys(body[0]);
    assert body[0..] == body;
  }
}
