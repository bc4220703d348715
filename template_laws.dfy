/**
 * Laws of the template scan: how the output and the recorded error of a
 * template follow from its parts (literal text, a closed expression, an
 * unclosed "{"), and where the recorded error lies.
 */
module TemplateLaws {
  import opened Wrappers
  import opened Expressions
  import opened Template
  import opened Sequences

  /** IndexOf returns k when s[k] is the first c at or after from. */
  lemma {:induction false} IndexOfAt(s: string, c: char, from: nat, k: nat)
    requires from <= k < |s| && s[k] == c
    requires forall m :: from <= m < k ==> s[m] != c
    ensures IndexOf(s, c, from) == k
    decreases k - from
  {
    if from < k {
      IndexOfAt(s, c, from + 1, k);
    }
  }

  /** IndexOf returns -1 when no c lies at or after from. */
  lemma {:induction false} IndexOfAbsent(s: string, c: char, from: nat)
    requires forall m :: from <= m < |s| ==> s[m] != c
    ensures IndexOf(s, c, from) == -1
    decreases |s| - from
  {
    if from < |s| {
      IndexOfAbsent(s, c, from + 1);
    }
  }

  /** Searching a + b from inside b is searching b, offset by |a|. */
  lemma {:induction false} IndexOfShift(a: string, b: string, c: char, j: nat)
    ensures IndexOf(a + b, c, |a| + j) == if IndexOf(b, c, j) == -1 then -1 else |a| + IndexOf(b, c, j)
    decreases |b| - j
  {
    if j < |b| {
      assert (a + b)[|a| + j] == b[j];
      if b[j] != c {
        IndexOfShift(a, b, c, j + 1);
      }
    }
  }

  /** Java's `s.lastIndexOf(c)`: the last index that holds c, or -1. */
  function LastIndexOf(s: string, c: char): (r: int)
    ensures -1 <= r < |s|
  {
    if s == [] then -1
    else if s[|s| - 1] == c then |s| - 1
    else LastIndexOf(s[..|s| - 1], c)
  }

  /** LastIndexOf finds the last occurrence, and -1 exactly when there is none. */
  lemma {:induction false} LastIndexOfLast(s: string, c: char)
    ensures LastIndexOf(s, c) == -1 ==> forall k :: 0 <= k < |s| ==> s[k] != c
    ensures LastIndexOf(s, c) != -1 ==>
      s[LastIndexOf(s, c)] == c && forall k :: LastIndexOf(s, c) < k < |s| ==> s[k] != c
  {
    if s != [] && s[|s| - 1] != c {
      LastIndexOfLast(s[..|s| - 1], c);
    }
  }

  /** The error position k of b, as a position of a + b when b follows a text of length n. */
  function ShiftBy(o: Option<nat>, n: nat): Option<nat> {
    if o.Some? then Some(o.value + n) else None
  }

  /**
   * The scan of ExpandFrom with the expansion of an expression body left as
   * a parameter, so that the laws below hold whatever expressions expand to.
   */
  function ScanFrom(t: string, i: nat, expr: string -> string, sb: string): string
    decreases |t| - i
  {
    if i >= |t| then sb
    else if t[i] != '{' then ScanFrom(t, i + 1, expr, sb + [t[i]])
    else
      var e := IndexOf(t, '}', i + 1);
      if e != -1 then ScanFrom(t, e + 1, expr, sb + expr(t[i + 1..e]))
      else ScanFrom(t, i + 1, expr, sb + t[i + 1..])
  }

  /** expandExpression under the variables vars, as a function of the expression body. */
  function ExpressionOf(vars: Vars): (expr: string -> string)
    requires ValuesAreBmp(vars)
  {
    (body: string) => if body == [] then [] else ExpressionSpec(body, vars)
  }

  /** ExpandFrom is the scan with expressions expanded under vars. */
  lemma {:induction false} ExpandFromIsScan(t: string, i: nat, vars: Vars, sb: string)
    requires NoEmptyExpression(t, i) && ValuesAreBmp(vars)
    ensures ExpandFrom(t, i, vars, sb) == ScanFrom(t, i, ExpressionOf(vars), sb)
    decreases |t| - i, 1
  {
    if i < |t| {
      if t[i] != '{' {
        ExpandFromIsScan(t, i + 1, vars, sb + [t[i]]);
      } else if IndexOf(t, '}', i + 1) != -1 {
        ClosedIsScan(t, i, vars, sb);
      } else {
        ExpandFromIsScan(t, i + 1, vars, sb + t[i + 1..]);
      }
    }
  }

  /** ExpandFromIsScan at a closed expression. */
  lemma {:induction false} ClosedIsScan(t: string, i: nat, vars: Vars, sb: string)
    requires i < |t| && t[i] == '{' && IndexOf(t, '}', i + 1) != -1
    requires NoEmptyExpression(t, i) && ValuesAreBmp(vars)
    ensures ExpandFrom(t, i, vars, sb) == ScanFrom(t, i, ExpressionOf(vars), sb)
    decreases |t| - i, 0
  {
    var e := IndexOf(t, '}', i + 1);
    var piece := ExpressionSpec(t[i + 1..e], vars);
    assert ExpressionOf(vars)(t[i + 1..e]) == piece;
    ExpandFromIsScan(t, e + 1, vars, sb + piece);
  }

  /** The output of a scan is what was written before it, followed by what the scan writes. */
  lemma {:induction false} ScanAppend(t: string, i: nat, expr: string -> string, sb: string)
    ensures ScanFrom(t, i, expr, sb) == sb + ScanFrom(t, i, expr, [])
    decreases |t| - i, 0
  {
    if i < |t| {
      if t[i] != '{' {
        AppendStep(t, i + 1, expr, sb, [t[i]]);
      } else {
        var e := IndexOf(t, '}', i + 1);
        if e != -1 {
          AppendStep(t, e + 1, expr, sb, expr(t[i + 1..e]));
        } else {
          AppendStep(t, i + 1, expr, sb, t[i + 1..]);
        }
      }
    }
  }

  /** ScanAppend for the scan that goes on at next after writing piece. */
  lemma {:induction false} AppendStep(t: string, next: nat, expr: string -> string, sb: string, piece: string)
    ensures ScanFrom(t, next, expr, sb + piece) == sb + ScanFrom(t, next, expr, [] + piece)
    decreases |t| - next, 1
  {
    ScanAppend(t, next, expr, sb + piece);
    ScanAppend(t, next, expr, [] + piece);
    assert [] + piece == piece;
    assert sb + piece + ScanFrom(t, next, expr, []) == sb + (piece + ScanFrom(t, next, expr, []));
  }

  /** A scan that records an error ends with its own last error; otherwise with the one it started from. */
  lemma {:induction false} ErrorFromLast(t: string, i: nat, last: Option<nat>)
    ensures ErrorFrom(t, i, last) == if ErrorFrom(t, i, None).Some? then ErrorFrom(t, i, None) else last
    decreases |t| - i
  {
    if i < |t| {
      if t[i] != '{' {
        ErrorFromLast(t, i + 1, last);
      } else if IndexOf(t, '}', i + 1) != -1 {
        ErrorFromLast(t, IndexOf(t, '}', i + 1) + 1, last);
      } else {
        ErrorFromLast(t, i + 1, Some(i + 1));
      }
    }
  }

  /** A run of text without "{" is copied as it is and records nothing. */
  lemma {:induction false} LiteralRun(t: string, i: nat, k: nat, expr: string -> string, sb: string, last: Option<nat>)
    requires i <= k <= |t|
    requires forall m :: i <= m < k ==> t[m] != '{'
    ensures NoEmptyExpression(t, i) == NoEmptyExpression(t, k)
    ensures ScanFrom(t, i, expr, sb) == ScanFrom(t, k, expr, sb + t[i..k])
    ensures ErrorFrom(t, i, last) == ErrorFrom(t, k, last)
    decreases k - i
  {
    if i == k {
      assert sb + t[i..k] == sb;
    } else {
      LiteralRun(t, i + 1, k, expr, sb + [t[i]], last);
      assert sb + [t[i]] + t[i + 1..k] == sb + t[i..k];
    }
  }

  /** Scanning a + b from inside b meets an empty expression exactly when scanning b does. */
  lemma {:induction false} NoEmptyShift(a: string, b: string, j: nat)
    ensures NoEmptyExpression(a + b, |a| + j) == NoEmptyExpression(b, j)
    decreases |b| - j
  {
    if j < |b| {
      assert (a + b)[|a| + j] == b[j];
      if b[j] != '{' {
        NoEmptyShift(a, b, j + 1);
      } else {
        IndexOfShift(a, b, '}', j + 1);
        var e := IndexOf(b, '}', j + 1);
        if e != -1 {
          NoEmptyShift(a, b, e + 1);
        } else {
          NoEmptyShift(a, b, j + 1);
        }
      }
    }
  }

  /** Scanning a + b from inside b writes what scanning b writes. */
  lemma {:induction false} ScanShift(a: string, b: string, j: nat, expr: string -> string, sb: string)
    ensures ScanFrom(a + b, |a| + j, expr, sb) == ScanFrom(b, j, expr, sb)
    decreases |b| - j
  {
    if j < |b| {
      assert (a + b)[|a| + j] == b[j];
      if b[j] != '{' {
        ScanShift(a, b, j + 1, expr, sb + [b[j]]);
      } else {
        IndexOfShift(a, b, '}', j + 1);
        var e := IndexOf(b, '}', j + 1);
        if e != -1 {
          assert (a + b)[|a| + j + 1..|a| + e] == b[j + 1..e];
          ScanShift(a, b, e + 1, expr, sb + expr(b[j + 1..e]));
        } else {
          assert (a + b)[|a| + j + 1..] == b[j + 1..];
          ScanShift(a, b, j + 1, expr, sb + b[j + 1..]);
        }
      }
    }
  }

  /** Scanning a + b from inside b records the errors scanning b records, moved by |a|. */
  lemma {:induction false} ErrorShift(a: string, b: string, j: nat, last: Option<nat>)
    ensures ErrorFrom(a + b, |a| + j, ShiftBy(last, |a|)) == ShiftBy(ErrorFrom(b, j, last), |a|)
    decreases |b| - j
  {
    if j < |b| {
      assert (a + b)[|a| + j] == b[j];
      if b[j] != '{' {
        ErrorShift(a, b, j + 1, last);
      } else {
        IndexOfShift(a, b, '}', j + 1);
        var e := IndexOf(b, '}', j + 1);
        if e != -1 {
          ErrorShift(a, b, e + 1, last);
        } else {
          ErrorShift(a, b, j + 1, Some(j + 1));
        }
      }
    }
  }

  /**
   * A template without "{" expands to itself, for any variables, and
   * records no error.
   */
  lemma BraceFree(t: string, vars: Vars)
    requires '{' !in t && ValuesAreBmp(vars)
    ensures NoEmptyExpression(t, 0)
    ensures Expanded(t, vars) == t
    ensures ErrorAt(t) == None
  {
    LiteralRun(t, 0, |t|, ExpressionOf(vars), [], None);
    assert t[0..|t|] == t;
    ExpandFromIsScan(t, 0, vars, []);
  }

  /** Where the parts of lit + "{" + body + "}" + rest sit in it, as a string. */
  lemma ClosedParts(lit: string, body: string, rest: string)
    ensures var t := lit + "{" + body + "}" + rest;
      && t == (lit + "{" + body + "}") + rest
      && t == (lit + "{") + (body + "}" + rest)
      && t[..|lit|] == lit && t[|lit|] == '{'
      && t[|lit| + 1..|lit| + 1 + |body|] == body
  {
    var t := lit + "{" + body + "}" + rest;
    assert t[..|lit|] == lit;
    assert t[|lit| + 1..|lit| + 1 + |body|] == body;
    Assoc(lit + "{", body, "}");
    Assoc(lit + "{", body + "}", rest);
  }

  /** Where the parts of lit + "{" + body + "}" + rest sit in it, and where the scan finds the "}". */
  lemma ClosedShape(lit: string, body: string, rest: string)
    requires '{' !in lit && '}' !in body
    ensures var t := lit + "{" + body + "}" + rest;
      && t == (lit + "{" + body + "}") + rest
      && t[..|lit|] == lit && t[|lit|] == '{'
      && IndexOf(t, '}', |lit| + 1) == |lit| + 1 + |body|
      && t[|lit| + 1..|lit| + 1 + |body|] == body
  {
    ClosedParts(lit, body, rest);
    var p, x := lit + "{", body + "}" + rest;
    assert x[|body|] == '}';
    IndexOfAt(x, '}', 0, |body|);
    IndexOfShift(p, x, '}', 0);
    var t := lit + "{" + body + "}" + rest;
    assert t == p + x;
    assert IndexOf(t, '}', |p| + 0) == |p| + |body|;
    assert |p| + 0 == |lit| + 1;
  }

  /** The scan of lit + "{" + body + "}" + rest, for any expression expander. */
  lemma ClosedScan(lit: string, body: string, rest: string, expr: string -> string)
    requires '{' !in lit && '}' !in body
    ensures ScanFrom(lit + "{" + body + "}" + rest, 0, expr, []) == lit + expr(body) + ScanFrom(rest, 0, expr, [])
  {
    var prefix := lit + "{" + body + "}";
    var t := prefix + rest;
    var i := |lit|;
    ClosedShape(lit, body, rest);
    LiteralRun(t, 0, i, expr, [], None);
    assert [] + t[0..i] == lit;
    var piece := lit + expr(body);
    assert ScanFrom(t, i, expr, lit) == ScanFrom(t, |prefix|, expr, piece);
    ScanShift(prefix, rest, 0, expr, piece);
    ScanAppend(rest, 0, expr, piece);
  }

  /**
   * Literal text, then a closed expression "{" body "}", then the rest:
   * the text is copied, the expression gives its expansion, the rest
   * expands on its own, and the rest's errors move by the length of what
   * precedes it. An empty body makes the source throw.
   */
  lemma ClosedExpression(lit: string, body: string, rest: string, vars: Vars)
    requires '{' !in lit && '}' !in body && ValuesAreBmp(vars)
    ensures NoEmptyExpression(lit + "{" + body + "}" + rest, 0) <==> body != [] && NoEmptyExpression(rest, 0)
    ensures body != [] && NoEmptyExpression(rest, 0) ==>
      Expanded(lit + "{" + body + "}" + rest, vars) == lit + ExpressionSpec(body, vars) + Expanded(rest, vars)
    ensures ErrorAt(lit + "{" + body + "}" + rest) == ShiftBy(ErrorAt(rest), |lit| + |body| + 2)
  {
    var prefix := lit + "{" + body + "}";
    var t := prefix + rest;
    ClosedShape(lit, body, rest);
    LiteralRun(t, 0, |lit|, ExpressionOf(vars), [], None);
    NoEmptyShift(prefix, rest, 0);
    ErrorShift(prefix, rest, 0, None);
    if body != [] && NoEmptyExpression(rest, 0) {
      ClosedScan(lit, body, rest, ExpressionOf(vars));
      ExpandFromIsScan(t, 0, vars, []);
      ExpandFromIsScan(rest, 0, vars, []);
    }
  }

  /** Where the parts of lit + "{" + tail sit in it. */
  lemma UnclosedShape(lit: string, tail: string)
    requires '{' !in lit && '}' !in tail
    ensures var t := lit + "{" + tail;
      && t[..|lit|] == lit && t[|lit|] == '{'
      && IndexOf(t, '}', |lit| + 1) == -1
      && t[|lit| + 1..] == tail
  {
    var t := lit + "{" + tail;
    assert t[..|lit|] == lit;
    assert t[|lit|] == '{';
    assert t[|lit| + 1..] == tail;
    IndexOfAbsent(tail, '}', 0);
    IndexOfShift(lit + "{", tail, '}', 0);
  }

  /** The scan of lit + "{" + tail, for any expression expander. */
  lemma UnclosedScan(lit: string, tail: string, expr: string -> string)
    requires '{' !in lit && '}' !in tail
    ensures ScanFrom(lit + "{" + tail, 0, expr, []) == lit + tail + ScanFrom(tail, 0, expr, [])
  {
    var prefix := lit + "{";
    var t := prefix + tail;
    var i := |lit|;
    UnclosedShape(lit, tail);
    LiteralRun(t, 0, i, expr, [], None);
    assert [] + t[0..i] == lit;
    assert ScanFrom(t, i, expr, lit) == ScanFrom(t, |prefix|, expr, lit + tail);
    ScanShift(prefix, tail, 0, expr, lit + tail);
    ScanAppend(tail, 0, expr, lit + tail);
  }

  /**
   * Literal text, then a "{" with no later "}": the text is copied, then
   * the tail after the "{" raw, then the tail again as the scan goes on
   * inside it. The error is the tail's last one, moved to its place in the
   * template, or the position after the "{" when the tail records none.
   */
  lemma UnclosedExpression(lit: string, tail: string, vars: Vars)
    requires '{' !in lit && '}' !in tail && ValuesAreBmp(vars)
    ensures NoEmptyExpression(lit + "{" + tail, 0) <==> NoEmptyExpression(tail, 0)
    ensures NoEmptyExpression(tail, 0) ==>
      Expanded(lit + "{" + tail, vars) == lit + tail + Expanded(tail, vars)
    ensures ErrorAt(lit + "{" + tail) ==
      if ErrorAt(tail).Some? then ShiftBy(ErrorAt(tail), |lit| + 1) else Some(|lit| + 1)
  {
    var prefix := lit + "{";
    var t := prefix + tail;
    UnclosedShape(lit, tail);
    LiteralRun(t, 0, |lit|, ExpressionOf(vars), [], None);
    NoEmptyShift(prefix, tail, 0);
    assert ErrorFrom(t, |lit|, None) == ErrorFrom(t, |prefix|, Some(|prefix|));
    ErrorShift(prefix, tail, 0, Some(0));
    ErrorFromLast(tail, 0, Some(0));
    if NoEmptyExpression(tail, 0) {
      UnclosedScan(lit, tail, ExpressionOf(vars));
      ExpandFromIsScan(t, 0, vars, []);
      ExpandFromIsScan(tail, 0, vars, []);
    }
  }

  /** From index i on, the scan records the position after the template's last "{" if no "}" follows it, and nothing otherwise. */
  lemma {:induction false} ErrorFromLastBrace(t: string, i: nat, last: Option<nat>)
    ensures var l := LastIndexOf(t, '{');
      ErrorFrom(t, i, last) == if l >= i && IndexOf(t, '}', l + 1) == -1 then Some(l + 1) else last
    decreases |t| - i
  {
    var l := LastIndexOf(t, '{');
    LastIndexOfLast(t, '{');
    if i < |t| {
      if t[i] != '{' {
        ErrorFromLastBrace(t, i + 1, last);
      } else {
        var e := IndexOf(t, '}', i + 1);
        IndexOfFirst(t, '}', i + 1);
        if e != -1 {
          ErrorFromLastBrace(t, e + 1, last);
          if l >= i && IndexOf(t, '}', l + 1) == -1 {
            IndexOfFirst(t, '}', l + 1);
            assert l > e;
          }
        } else {
          ErrorFromLastBrace(t, i + 1, Some(i + 1));
          IndexOfAbsent(t, '}', l + 1);
        }
      }
    }
  }

  /**
   * expand records an error exactly when no "}" follows the template's last
   * "{", and then at the index after that "{": every earlier "{" without a
   * later "}" is overwritten by the last one.
   */
  lemma ErrorAtLastBrace(t: string)
    ensures var l := LastIndexOf(t, '{');
      ErrorAt(t) == if l != -1 && IndexOf(t, '}', l + 1) == -1 then Some(l + 1) else None
  {
    ErrorFromLastBrace(t, 0, None);
  }

  /** With no "{" directly followed by "}", the scan never meets an empty expression. */
  lemma {:induction false} NoEmptyPair(t: string, i: nat)
    requires forall k :: 0 <= k < |t| - 1 ==> !(t[k] == '{' && t[k + 1] == '}')
    ensures NoEmptyExpression(t, i)
    decreases |t| - i
  {
    if i < |t| {
      if t[i] != '{' {
        NoEmptyPair(t, i + 1);
      } else {
        var e := IndexOf(t, '}', i + 1);
        IndexOfFirst(t, '}', i + 1);
        if e != -1 {
          assert e != i + 1;
          NoEmptyPair(t, e + 1);
        } else {
          NoEmptyPair(t, i + 1);
        }
      }
    }
  }
}
