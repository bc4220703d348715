/**
 * Worked examples: the expansions the project's unit tests expect, derived
 * from the laws of the scan and of expression expansion.
 */
module Vectors {
  import opened Wrappers
  import opened CharClasses
  import opened PercentEncoding
  import opened VarList
  import opened Operators
  import opened Expressions
  import opened Template
  import opened Sequences
  import opened TemplateLaws

  /** A value whose characters the class keeps is written as it is. */
  lemma Plain(allow: Allow, s: string)
    requires forall i :: 0 <= i < |s| ==> Kept(allow, s[i])
    ensures IsBmp(s) && Encoded(allow, s) == s
  {
    forall i | 0 <= i < |s| ensures IsCodeUnit(s[i]) {
      ClassesAreCodeUnits(s[i]);
    }
    EncodedUnchangedIffKept(allow, s);
  }

  /** A single character is written as its own encoding. */
  lemma OneChar(allow: Allow, c: char)
    requires IsCodeUnit(c)
    ensures IsBmp([c]) && Encoded(allow, [c]) == EncodeChar(allow, c)
  {
    assert [c][..0] == [];
  }

  /**
   * A template made of literal text, one expression and more literal text
   * expands to the text around the expression's expansion, and records no error.
   */
  lemma Framed(lit: string, body: string, rest: string, vars: Vars)
    requires '{' !in lit && body != [] && '}' !in body && '{' !in rest && ValuesAreBmp(vars)
    ensures NoEmptyExpression(lit + "{" + body + "}" + rest, 0)
    ensures Expanded(lit + "{" + body + "}" + rest, vars) == lit + ExpressionSpec(body, vars) + rest
    ensures ErrorAt(lit + "{" + body + "}" + rest) == None
  {
    ClosedExpression(lit, body, rest, vars);
    BraceFree(rest, vars);
  }

  /**
   * Text without "{" followed by one expression expands to the text and the
   * expression's expansion.
   */
  lemma Prefixed(lit: string, body: string, vars: Vars)
    requires '{' !in lit && body != [] && '}' !in body && ValuesAreBmp(vars)
    ensures NoEmptyExpression(lit + ("{" + body + "}"), 0)
    ensures Expanded(lit + ("{" + body + "}"), vars) == lit + ExpressionSpec(body, vars)
    ensures ErrorAt(lit + ("{" + body + "}")) == None
  {
    Framed(lit, body, [], vars);
    assert lit + "{" + body + "}" + [] == lit + ("{" + body + "}");
  }

  /** An expression of one name expands to the row's prefix and the name's item, or to nothing when it is undefined. */
  lemma OneName(ops: string, name: string, vars: Vars)
    requires |ops| <= 1 && (ops != [] ==> IsOperator(ops[0]))
    requires name != [] && ',' !in name && (ops == [] ==> !IsOperator(name[0])) && ValuesAreBmp(vars)
    ensures var p := Params(if ops == [] then None else Some(ops[0])).value;
      ExpressionSpec(ops + name, vars) ==
        if IsDefined(vars, name) then p.first + RenderVar(p, name, vars[name].value) else []
  {
    var body := ops + name;
    JavaSplitCharacterised(name);
    OperatorSelection(body);
    if ops == [] {
      assert body == name;
    } else {
      assert body[1..] == name;
    }
    assert Names(body) == [name];
    var p := Row(body);
    assert [name][1..] == [];
    assert RenderVars(p, [], vars, !IsDefined(vars, name)) == [];
  }

  /** The names and the row of an expression of two names. */
  lemma TwoNamesParsed(ops: string, n1: string, n2: string)
    requires |ops| <= 1 && (ops != [] ==> IsOperator(ops[0]))
    requires n1 != [] && n2 != [] && ',' !in n1 && ',' !in n2 && (ops == [] ==> !IsOperator(n1[0]))
    ensures var body := ops + n1 + "," + n2;
      && body != []
      && Names(body) == [n1, n2]
      && Row(body) == Params(if ops == [] then None else Some(ops[0])).value
  {
    var body := ops + n1 + "," + n2;
    var names := [n1, n2];
    assert NoComma(names);
    assert JoinCommas(names) == n1 + [','] + n2 by {
      assert names[1..] == [n2];
    }
    JavaSplitJoin(names);
    OperatorSelection(body);
    if ops == [] {
      assert body == n1 + "," + n2;
    } else {
      assert body[1..] == n1 + "," + n2;
    }
  }

  /** The loop over two names. */
  lemma RenderTwo(p: OperatorParams, n1: string, n2: string, vars: Vars)
    requires ValuesAreBmp(vars)
    ensures RenderVars(p, [n1, n2], vars, true) ==
      match (IsDefined(vars, n1), IsDefined(vars, n2))
      case (true, true) => p.first + RenderVar(p, n1, vars[n1].value) + p.sep + RenderVar(p, n2, vars[n2].value)
      case (true, false) => p.first + RenderVar(p, n1, vars[n1].value)
      case (false, true) => p.first + RenderVar(p, n2, vars[n2].value)
      case (false, false) => []
  {
    var names := [n1, n2];
    assert names[1..] == [n2] && [n2][1..] == [];
    assert RenderVars(p, [], vars, false) == [] && RenderVars(p, [], vars, true) == [];
    if IsDefined(vars, n2) {
      var r2 := RenderVar(p, n2, vars[n2].value);
      assert RenderVars(p, [n2], vars, false) == p.sep + r2 + [];
      assert RenderVars(p, [n2], vars, true) == p.first + r2 + [];
      if IsDefined(vars, n1) {
        var r1 := RenderVar(p, n1, vars[n1].value);
        assert RenderVars(p, names, vars, true) == p.first + r1 + (p.sep + r2 + []);
        Assoc(p.first + r1, p.sep, r2);
      }
    } else {
      assert RenderVars(p, [n2], vars, false) == [];
      assert RenderVars(p, [n2], vars, true) == [];
    }
  }

  /**
   * An expression of two names expands to the row's prefix before the first
   * defined one and the row's separator between two defined ones.
   */
  lemma TwoNames(ops: string, n1: string, n2: string, vars: Vars)
    requires |ops| <= 1 && (ops != [] ==> IsOperator(ops[0]))
    requires n1 != [] && n2 != [] && ',' !in n1 && ',' !in n2 && (ops == [] ==> !IsOperator(n1[0]))
    requires ValuesAreBmp(vars)
    ensures var p := Params(if ops == [] then None else Some(ops[0])).value;
      ExpressionSpec(ops + n1 + "," + n2, vars) ==
        match (IsDefined(vars, n1), IsDefined(vars, n2))
        case (true, true) => p.first + RenderVar(p, n1, vars[n1].value) + p.sep + RenderVar(p, n2, vars[n2].value)
        case (true, false) => p.first + RenderVar(p, n1, vars[n1].value)
        case (false, true) => p.first + RenderVar(p, n2, vars[n2].value)
        case (false, false) => []
  {
    TwoNamesParsed(ops, n1, n2);
    RenderTwo(Params(if ops == [] then None else Some(ops[0])).value, n1, n2, vars);
  }

  lemma NoExpandText()
    ensures '{' !in "http://www.example.com/xyzzy#foobar"
  {
  }

  /**
   * testNoExpand: a template without expressions expands to itself, whatever
   * the variables, and a fresh expander records no error.
   */
  method NoExpand(vars: Vars) returns (result: string, isError: bool)
    requires ValuesAreBmp(vars)
    ensures result == "http://www.example.com/xyzzy#foobar"
    ensures !isError
  {
    NoExpandText();
    BraceFree("http://www.example.com/xyzzy#foobar", vars);
    var template := new UriTemplate("http://www.example.com/xyzzy#foobar");
    result := template.Expand(vars);
    var error := template.GetErrorState();
    isError := error.IsError();
  }

  lemma VarText()
    ensures "{var}" == [] + "{" + "var" + "}" + []
    ensures !IsOperator('v')
    ensures [] + ("" + "value") + [] == "value"
    ensures IsBmp("value") && Encoded(U, "value") == "value"
  {
    Letters(U, "value");
  }

  /** "{var}" gives "value". */
  lemma SimpleVar(vars: Vars)
    requires ValuesAreBmp(vars) && "var" in vars && vars["var"] == Some("value")
    ensures Expanded("{var}", vars) == "value"
  {
    VarText();
    Framed([], "var", [], vars);
    OneName([], "var", vars);
  }

  /** A character from 0x10 to 0x7F outside the class is written as "%XX". */
  lemma AsciiEncoded(allow: Allow, c: char)
    requires 0x10 <= c as int < 0x80 && !Kept(allow, c)
    ensures IsBmp([c]) && Encoded(allow, [c]) == ['%', HexDigit(c as int / 16), HexDigit(c as int % 16)]
  {
    OneChar(allow, c);
    PctEncodedAscii(c);
  }

  lemma SpaceEncoded()
    ensures IsBmp(" ") && Encoded(U, " ") == "%20"
  {
    AsciiEncoded(U, ' ');
  }

  lemma BangEncoded()
    ensures IsBmp("!") && Encoded(U, "!") == "%21"
  {
    AsciiEncoded(U, '!');
  }

  /** A value of letters is written as it is. */
  lemma Letters(allow: Allow, s: string)
    requires forall i :: 0 <= i < |s| ==> IsAlpha(s[i])
    ensures IsBmp(s) && Encoded(allow, s) == s
  {
    Plain(allow, s);
  }

  /** A value of digits is written as it is. */
  lemma Digits(allow: Allow, s: string)
    requires forall i :: 0 <= i < |s| ==> IsDigit(s[i])
    ensures IsBmp(s) && Encoded(allow, s) == s
  {
    Plain(allow, s);
  }

  lemma HelloWords()
    ensures IsBmp("Hello") && Encoded(U, "Hello") == "Hello"
    ensures IsBmp("World") && Encoded(U, "World") == "World"
  {
    Letters(U, "Hello");
    Letters(U, "World");
  }

  lemma HelloText()
    ensures "Hello" + " " + "World" + "!" == "Hello World!"
    ensures "Hello" + "%20" + "World" + "%21" == "Hello%20World%21"
    ensures "{hello}" == [] + "{" + "hello" + "}" + []
    ensures !IsOperator('h')
    ensures [] + ("" + "Hello%20World%21") + [] == "Hello%20World%21"
  {
  }

  /** The space and the "!" of "Hello World!" are percent-encoded. */
  lemma HelloEncoded()
    ensures IsBmp("Hello World!") && Encoded(U, "Hello World!") == "Hello%20World%21"
  {
    HelloWords();
    HelloText();
    SpaceEncoded();
    BangEncoded();
    EncodedAppend(U, "Hello", " ");
    EncodedAppend(U, "Hello" + " ", "World");
    EncodedAppend(U, "Hello" + " " + "World", "!");
  }

  /** "{hello}" gives "Hello%20World%21". */
  lemma SimpleHello(vars: Vars)
    requires ValuesAreBmp(vars) && "hello" in vars && vars["hello"] == Some("Hello World!")
    ensures Expanded("{hello}", vars) == "Hello%20World%21"
  {
    HelloText();
    HelloEncoded();
    Framed([], "hello", [], vars);
    OneName([], "hello", vars);
  }

  lemma PercentSignEncoded()
    ensures IsBmp("%") && Encoded(U, "%") == "%25"
  {
    AsciiEncoded(U, '%');
  }

  lemma HalfParts()
    ensures "50" + "%" == "50%" && "50" + "%25" == "50%25"
  {
  }

  /** The "%" of "50%" is itself encoded. */
  lemma HalfEncoded()
    ensures IsBmp("50%") && Encoded(U, "50%") == "50%25"
  {
    HalfParts();
    Digits(U, "50");
    PercentSignEncoded();
    EncodedAppend(U, "50", "%");
  }

  lemma HalfText()
    ensures "{half}" == [] + "{" + "half" + "}" + []
    ensures !IsOperator('h')
    ensures [] + ("" + "50%25") + [] == "50%25"
  {
  }

  /** "{half}" gives "50%25". */
  lemma SimpleHalf(vars: Vars)
    requires ValuesAreBmp(vars) && "half" in vars && vars["half"] == Some("50%")
    ensures Expanded("{half}", vars) == "50%25"
  {
    HalfText();
    HalfEncoded();
    Framed([], "half", [], vars);
    OneName([], "half", vars);
  }

  lemma EmptyText()
    ensures "O{empty}X" == "O" + "{" + "empty" + "}" + "X"
    ensures !IsOperator('e')
    ensures "O" + ("" + []) + "X" == "OX"
  {
  }

  /** "O{empty}X" gives "OX": an empty value under the no-operator row contributes nothing. */
  lemma EmptyValue(vars: Vars)
    requires ValuesAreBmp(vars) && "empty" in vars && vars["empty"] == Some("")
    ensures NoEmptyExpression("O{empty}X", 0)
    ensures Expanded("O{empty}X", vars) == "OX"
  {
    EmptyText();
    Framed("O", "empty", "X", vars);
    OneName([], "empty", vars);
  }

  lemma UndefText()
    ensures "O{undef}X" == "O" + "{" + "undef" + "}" + "X"
    ensures !IsOperator('u')
    ensures "O" + [] + "X" == "OX"
  {
  }

  /** "O{undef}X" gives "OX": an undefined variable contributes nothing. */
  lemma UndefinedValue(vars: Vars)
    requires ValuesAreBmp(vars) && !IsDefined(vars, "undef")
    ensures NoEmptyExpression("O{undef}X", 0)
    ensures Expanded("O{undef}X", vars) == "OX"
  {
    UndefText();
    Framed("O", "undef", "X", vars);
    OneName([], "undef", vars);
  }

  lemma ListText()
    ensures "{x,y}" == [] + "{" + "x,y" + "}" + []
    ensures "x,y" == [] + "x" + "," + "y"
    ensures [] + ("" + "1024" + "," + "768") + [] == "1024,768"
    ensures !IsOperator('x')
  {
  }

  lemma ListValues()
    ensures IsBmp("1024") && Encoded(U, "1024") == "1024"
    ensures IsBmp("768") && Encoded(U, "768") == "768"
  {
    Digits(U, "1024");
    Digits(U, "768");
  }

  /** "{x,y}" gives "1024,768". */
  lemma SimpleList(vars: Vars)
    requires ValuesAreBmp(vars) && "x" in vars && vars["x"] == Some("1024") && "y" in vars && vars["y"] == Some("768")
    ensures Expanded("{x,y}", vars) == "1024,768"
  {
    ListText();
    ListValues();
    Framed([], "x,y", [], vars);
    TwoNames([], "x", "y", vars);
  }

  lemma XEmptyText()
    ensures "?{x,empty}" == "?" + ("{" + ([] + "x" + "," + "empty") + "}")
    ensures '}' !in [] + "x" + "," + "empty" && ',' !in "empty"
    ensures "?" + ("" + "1024" + "," + []) == "?1024,"
    ensures !IsOperator('x') && '{' !in "?"
  {
  }

  /** "?{x,empty}" gives "?1024,": under the no-operator row an empty value still gets its separator. */
  lemma QueryXEmpty(vars: Vars)
    requires ValuesAreBmp(vars) && "x" in vars && vars["x"] == Some("1024") && "empty" in vars && vars["empty"] == Some("")
    ensures NoEmptyExpression("?{x,empty}", 0) && Expanded("?{x,empty}", vars) == "?1024,"
  {
    XEmptyText();
    ListValues();
    Prefixed("?", [] + "x" + "," + "empty", vars);
    TwoNames([], "x", "empty", vars);
  }

  lemma XUndefText()
    ensures "?{x,undef}" == "?" + ("{" + ([] + "x" + "," + "undef") + "}")
    ensures '}' !in [] + "x" + "," + "undef" && ',' !in "undef"
    ensures "?" + ("" + "1024") == "?1024"
    ensures !IsOperator('x') && '{' !in "?"
  {
  }

  /** "?{x,undef}" gives "?1024": an undefined variable gets no separator. */
  lemma QueryXUndef(vars: Vars)
    requires ValuesAreBmp(vars) && "x" in vars && vars["x"] == Some("1024") && !IsDefined(vars, "undef")
    ensures NoEmptyExpression("?{x,undef}", 0) && Expanded("?{x,undef}", vars) == "?1024"
  {
    XUndefText();
    ListValues();
    Prefixed("?", [] + "x" + "," + "undef", vars);
    TwoNames([], "x", "undef", vars);
  }

  lemma UndefYText()
    ensures "?{undef,y}" == "?" + ("{" + ([] + "undef" + "," + "y") + "}")
    ensures '}' !in [] + "undef" + "," + "y" && ',' !in "undef"
    ensures "?" + ("" + "768") == "?768"
    ensures !IsOperator('u') && '{' !in "?"
  {
  }

  /** "?{undef,y}" gives "?768": the first defined variable gets first, not sep. */
  lemma QueryUndefY(vars: Vars)
    requires ValuesAreBmp(vars) && "y" in vars && vars["y"] == Some("768") && !IsDefined(vars, "undef")
    ensures NoEmptyExpression("?{undef,y}", 0) && Expanded("?{undef,y}", vars) == "?768"
  {
    UndefYText();
    ListValues();
    Prefixed("?", [] + "undef" + "," + "y", vars);
    TwoNames([], "undef", "y", vars);
  }

  lemma SegmentEncoded()
    ensures IsBmp("xyzzy#foobar") && Encoded(UAndR, "xyzzy#foobar") == "xyzzy#foobar"
  {
    Plain(UAndR, "xyzzy#foobar");
  }

  lemma PlusText()
    ensures "{+segment}" == "{" + ("+" + "segment") + "}"
    ensures '}' !in "+" + "segment" && ',' !in "segment" && IsOperator('+')
    ensures "" + "xyzzy#foobar" == "xyzzy#foobar"
    ensures Params(Some('+')).value == OperatorParams("", ",", false, "", UAndR)
  {
  }

  /** testPlusExpand: under "+" the reserved "#" of the value is kept. */
  lemma PlusExpand(base: string, vars: Vars)
    requires '{' !in base && ValuesAreBmp(vars) && "segment" in vars && vars["segment"] == Some("xyzzy#foobar")
    ensures NoEmptyExpression(base + "{+segment}", 0)
    ensures Expanded(base + "{+segment}", vars) == base + "xyzzy#foobar"
  {
    PlusText();
    SegmentEncoded();
    Prefixed(base, "+" + "segment", vars);
    OneName("+", "segment", vars);
  }

  lemma UserValues()
    ensures IsBmp("12345") && Encoded(U, "12345") == "12345" && Encoded(UAndR, "12345") == "12345"
    ensures IsBmp("67890") && Encoded(U, "67890") == "67890"
    ensures IsBmp("email") && Encoded(U, "email") == "email" && Encoded(UAndR, "email") == "email"
  {
    Digits(U, "12345");
    Digits(UAndR, "12345");
    Digits(U, "67890");
    Letters(U, "email");
    Letters(UAndR, "email");
  }

  lemma UserNames()
    ensures ',' !in "userid" && ',' !in "type" && ',' !in "rightid"
  {
  }

  lemma DotText()
    ensures "{.userid,type}" == "{" + ("." + "userid" + "," + "type") + "}"
    ensures '}' !in "." + "userid" + "," + "type" && IsOperator('.')
    ensures "." + "12345" + "." + "email" == ".12345.email"
    ensures Params(Some('.')).value == OperatorParams(".", ".", false, "", U)
  {
  }

  /** testDotExpand: "." before each value. */
  lemma DotExpand(base: string, vars: Vars)
    requires '{' !in base && ValuesAreBmp(vars)
    requires "userid" in vars && vars["userid"] == Some("12345") && "type" in vars && vars["type"] == Some("email")
    ensures NoEmptyExpression(base + "{.userid,type}", 0)
    ensures Expanded(base + "{.userid,type}", vars) == base + ".12345.email"
  {
    DotText();
    UserValues();
    UserNames();
    Prefixed(base, "." + "userid" + "," + "type", vars);
    TwoNames(".", "userid", "type", vars);
  }

  lemma PathText()
    ensures "{/userid}" == "{" + ("/" + "userid") + "}"
    ensures '}' !in "/" + "userid" && IsOperator('/')
    ensures "/" + "12345" == "/12345"
    ensures Params(Some('/')).value == OperatorParams("/", "/", false, "", U)
  {
  }

  /** testPathExpand: "/" before the value. */
  lemma PathExpand(base: string, vars: Vars)
    requires '{' !in base && ValuesAreBmp(vars) && "userid" in vars && vars["userid"] == Some("12345")
    ensures NoEmptyExpression(base + "{/userid}", 0)
    ensures Expanded(base + "{/userid}", vars) == base + "/12345"
  {
    PathText();
    UserValues();
    UserNames();
    Prefixed(base, "/" + "userid", vars);
    OneName("/", "userid", vars);
  }

  lemma Regroup(base: string, a: string, b: string, c: string, d: string)
    ensures base + (a + b + c + d) == base + a + b + c + d
  {
  }

  lemma RightsText()
    ensures "/rights{/rightid}" == "/rights" + ("{" + ("/" + "rightid") + "}")
    ensures '}' !in "/" + "rightid" && '{' !in "/rights" && IsOperator('/')
    ensures "/rights" + ("/" + "67890") == "/rights/67890"
  {
  }

  /** The second half of the template of testPathMultiExpand. */
  lemma RightsExpand(vars: Vars)
    requires ValuesAreBmp(vars) && "rightid" in vars && vars["rightid"] == Some("67890")
    ensures NoEmptyExpression("/rights{/rightid}", 0)
    ensures Expanded("/rights{/rightid}", vars) == "/rights/67890"
  {
    RightsText();
    UserValues();
    UserNames();
    Prefixed("/rights", "/" + "rightid", vars);
    OneName("/", "rightid", vars);
  }

  lemma PathMultiText()
    ensures "{/userid}/rights{/rightid}" == "{" + ("/" + "userid") + "}" + "/rights{/rightid}"
    ensures '}' !in "/" + "userid" && IsOperator('/')
    ensures "/" + "12345" + "/rights/67890" == "/12345/rights/67890"
  {
  }

  /** testPathMultiExpand: two expressions in one template, each expanded in place. */
  lemma PathMultiExpand(base: string, vars: Vars)
    requires '{' !in base && ValuesAreBmp(vars)
    requires "userid" in vars && vars["userid"] == Some("12345") && "rightid" in vars && vars["rightid"] == Some("67890")
    ensures NoEmptyExpression(base + "{/userid}/rights{/rightid}", 0)
    ensures Expanded(base + "{/userid}/rights{/rightid}", vars) == base + "/12345/rights/67890"
  {
    PathMultiText();
    UserValues();
    UserNames();
    RightsExpand(vars);
    Regroup(base, "{", "/" + "userid", "}", "/rights{/rightid}");
    OneName("/", "userid", vars);
    ClosedExpression(base, "/" + "userid", "/rights{/rightid}", vars);
    Assoc(base, "/" + "12345", "/rights/67890");
  }

  lemma PathStyleText()
    ensures "{;userid,rightid}" == "{" + (";" + "userid" + "," + "rightid") + "}"
    ensures '}' !in ";" + "userid" + "," + "rightid" && IsOperator(';')
    ensures ";" + ("userid" + ("=" + "12345")) + ";" + ("rightid" + ("=" + "67890")) == ";userid=12345;rightid=67890"
    ensures Params(Some(';')).value == OperatorParams(";", ";", true, "", U)
  {
  }

  /** testPathStyleExpand: ";" and the name before each value. */
  lemma PathStyleExpand(base: string, vars: Vars)
    requires '{' !in base && ValuesAreBmp(vars)
    requires "userid" in vars && vars["userid"] == Some("12345") && "rightid" in vars && vars["rightid"] == Some("67890")
    ensures NoEmptyExpression(base + "{;userid,rightid}", 0)
    ensures Expanded(base + "{;userid,rightid}", vars) == base + ";userid=12345;rightid=67890"
  {
    PathStyleText();
    UserValues();
    UserNames();
    Prefixed(base, ";" + "userid" + "," + "rightid", vars);
    TwoNames(";", "userid", "rightid", vars);
  }

  lemma QueryText()
    ensures "{?userid,type}" == "{" + ("?" + "userid" + "," + "type") + "}"
    ensures '}' !in "?" + "userid" + "," + "type" && IsOperator('?')
    ensures "?" + ("userid" + ("=" + "12345")) + "&" + ("type" + ("=" + "email")) == "?userid=12345&type=email"
    ensures Params(Some('?')).value == OperatorParams("?", "&", true, "=", U)
  {
  }

  /** testQueryExpand: "?" before the first pair, "&" between pairs. */
  lemma QueryExpand(base: string, vars: Vars)
    requires '{' !in base && ValuesAreBmp(vars)
    requires "userid" in vars && vars["userid"] == Some("12345") && "type" in vars && vars["type"] == Some("email")
    ensures NoEmptyExpression(base + "{?userid,type}", 0)
    ensures Expanded(base + "{?userid,type}", vars) == base + "?userid=12345&type=email"
  {
    QueryText();
    UserValues();
    UserNames();
    Prefixed(base, "?" + "userid" + "," + "type", vars);
    TwoNames("?", "userid", "type", vars);
  }

  lemma ContinuationText()
    ensures "{&userid,type}" == "{" + ("&" + "userid" + "," + "type") + "}"
    ensures '}' !in "&" + "userid" + "," + "type" && IsOperator('&')
    ensures "&" + ("userid" + ("=" + "12345")) + "&" + ("type" + ("=" + "email")) == "&userid=12345&type=email"
    ensures Params(Some('&')).value == OperatorParams("&", "&", true, "=", U)
  {
  }

  /** testQueryExtendExpand: "&" before every pair. */
  lemma QueryContinuation(base: string, vars: Vars)
    requires '{' !in base && ValuesAreBmp(vars)
    requires "userid" in vars && vars["userid"] == Some("12345") && "type" in vars && vars["type"] == Some("email")
    ensures NoEmptyExpression(base + "{&userid,type}", 0)
    ensures Expanded(base + "{&userid,type}", vars) == base + "&userid=12345&type=email"
  {
    ContinuationText();
    UserValues();
    UserNames();
    Prefixed(base, "&" + "userid" + "," + "type", vars);
    TwoNames("&", "userid", "type", vars);
  }

  lemma FragmentText()
    ensures "{#userid,type}" == "{" + ("#" + "userid" + "," + "type") + "}"
    ensures '}' !in "#" + "userid" + "," + "type" && IsOperator('#')
    ensures "#" + "12345" + "," + "email" == "#12345,email"
    ensures Params(Some('#')).value == OperatorParams("#", ",", false, "", UAndR)
  {
  }

  /** testFragmentdExpand: "#" before the first value, "," between values. */
  lemma FragmentExpand(base: string, vars: Vars)
    requires '{' !in base && ValuesAreBmp(vars)
    requires "userid" in vars && vars["userid"] == Some("12345") && "type" in vars && vars["type"] == Some("email")
    ensures NoEmptyExpression(base + "{#userid,type}", 0)
    ensures Expanded(base + "{#userid,type}", vars) == base + "#12345,email"
  {
    FragmentText();
    UserValues();
    UserNames();
    Prefixed(base, "#" + "userid" + "," + "type", vars);
    TwoNames("#", "userid", "type", vars);
  }

  /** The variables of the tests of unclosed expressions. */
  function UseridVars(): (vars: Vars)
    ensures ValuesAreBmp(vars)
  {
    map["userid" := Some("12345")]
  }

  lemma UnclosedText()
    ensures "http://www.example.com/users/{/userid" == "http://www.example.com/users/" + "{" + "/userid"
    ensures "http://www.example.com/users/{" == "http://www.example.com/users/" + "{" + []
    ensures '{' !in "/userid" && '}' !in "/userid"
  {
  }

  lemma UnclosedResult()
    ensures |"http://www.example.com/users/"| + 1 == 30
    ensures '{' !in "http://www.example.com/users/"
    ensures "http://www.example.com/users/" + "/userid" + "/userid" == "http://www.example.com/users//userid/userid"
    ensures "http://www.example.com/users/" + [] + [] == "http://www.example.com/users/"
  {
  }

  /**
   * testUnclosedExpession: the error is recorded at 30, the index after the
   * "{", and the tail after the "{" is written twice: raw, then scanned.
   */
  method UnclosedUserid() returns (result: string, isError: bool, at: int)
    ensures result == "http://www.example.com/users//userid/userid"
    ensures isError && at == 30
  {
    var vars := UseridVars();
    UnclosedText();
    UnclosedResult();
    UnclosedExpression("http://www.example.com/users/", "/userid", vars);
    BraceFree("/userid", vars);
    var template := new UriTemplate("http://www.example.com/users/{/userid");
    result := template.Expand(vars);
    var error := template.GetErrorState();
    isError := error.IsError();
    at := error.GetAt();
  }

  /** testJustOpenedExpression: a template ending in "{" records the error at 30 and drops the "{". */
  method JustOpened() returns (result: string, isError: bool, at: int)
    ensures result == "http://www.example.com/users/"
    ensures isError && at == 30
  {
    var vars := UseridVars();
    UnclosedText();
    UnclosedResult();
    UnclosedExpression("http://www.example.com/users/", [], vars);
    BraceFree([], vars);
    var template := new UriTemplate("http://www.example.com/users/{");
    result := template.Expand(vars);
    var error := template.GetErrorState();
    isError := error.IsError();
    at := error.GetAt();
  }

  lemma NestedText()
    ensures "a{b{c" == "a" + "{" + "b{c" && "b{c" == "b" + "{" + "c"
    ensures '{' !in "a" && '{' !in "b" && '{' !in "c"
    ensures '}' !in "b{c" && '}' !in "c"
    ensures "a" + "b{c" + ("b" + "c" + "c") == "ab{cbcc"
  {
  }

  /**
   * A "{" inside the tail of an unclosed "{": the tail "b{c" is written raw,
   * then its own scan writes "b", its tail "c" raw, and "c" again; the
   * later "{" overwrites the recorded position with 4.
   */
  lemma NestedUnclosed(vars: Vars)
    requires ValuesAreBmp(vars)
    ensures NoEmptyExpression("a{b{c", 0)
    ensures Expanded("a{b{c", vars) == "ab{cbcc"
    ensures ErrorAt("a{b{c") == Some(4)
  {
    NestedText();
    BraceFree("c", vars);
    UnclosedExpression("b", "c", vars);
    UnclosedExpression("a", "b{c", vars);
  }
}
