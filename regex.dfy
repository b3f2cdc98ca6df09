/**
 * Lesson 10, task 1: arithmetic expressions in one variable `x`. A string is
 * split into tokens, a recursive-descent `Parser` builds an `Expression`
 * tree from the tokens, `Calculate` evaluates a tree with Kotlin `Int`
 * arithmetic and `ExprToString` prints a tree fully parenthesised.
 *
 * Grammar accepted by the parser, lowest precedence first:
 *   expression = item { ("+" | "-") item }
 *   item       = factor { ("*" | "/") factor }
 *   factor     = "x" | "-" factor | "(" expression ")" | number [ "^" factor ]
 */
module Regex {
  import opened Wrappers
  import opened Arith
  import opened Text

  /** A Kotlin `Int`. */
  type Int32 = v: int | IntMin <= v <= IntMax

  datatype Operation = PLUS | MINUS | TIMES | DIV | POW

  datatype Expression =
    | Variable
    | Constant(value: Int32)
    | Binary(left: Expression, op: Operation, right: Expression)
    | Negate(expr: Expression)

  // ---------------------------------------------------------------- tokenize

  /** The characters that form a token on their own. */
  predicate IsOperatorChar(c: char) {
    c == 'x' || c == '+' || c == '-' || c == '*' || c == '/' || c == '^' || c == '(' || c == ')'
  }

  /** The characters `tokenize` accepts. */
  predicate Allowed(c: char) { c == ' ' || IsDigit(c) || IsOperatorChar(c) }

  /** A token: a run of decimal digits or one operator character. */
  predicate IsToken(t: string) {
    (|t| >= 1 && AllDigits(t)) || (|t| == 1 && IsOperatorChar(t[0]))
  }

  /** The length of the run of digits that starts `s`. */
  function DigitRun(s: string): (n: nat)
    ensures n <= |s| && AllDigits(s[..n])
    ensures n < |s| ==> !IsDigit(s[n])
  {
    if s != [] && IsDigit(s[0]) then
      var n := 1 + DigitRun(s[1..]);
      assert s[..n] == [s[0]] + s[1..][..n - 1];
      n
    else 0
  }

  /** `t` in front of the tokens of `r`, when there are any. */
  function Prepend(t: string, r: Result<seq<string>>): Result<seq<string>> {
    if r.Ok? then Ok([t] + r.value) else r
  }

  /** The tokens `tokenize` produces: spaces dropped, digit runs kept whole. */
  function Tokens(s: string): (r: Result<seq<string>>)
    ensures r.Fail? ==> r.error == IllegalArgument
    ensures r.Ok? ==> forall k :: 0 <= k < |r.value| ==> IsToken(r.value[k])
    decreases |s|
  {
    if s == [] then Ok([])
    else if s[0] == ' ' then Tokens(s[1..])
    else if IsDigit(s[0]) then
      var n := DigitRun(s);
      Prepend(s[..n], Tokens(s[n..]))
    else if IsOperatorChar(s[0]) then Prepend([s[0]], Tokens(s[1..]))
    else Fail(IllegalArgument)
  }

  /** The tokens of `a` followed by those of `b`; a failure of either is a failure. */
  function Both(a: Result<seq<string>>, b: Result<seq<string>>): Result<seq<string>> {
    if a.Fail? then a else if b.Fail? then b else Ok(a.value + b.value)
  }

  /** The tokens written one after another. */
  function Concat(tokens: seq<string>): string {
    if tokens == [] then "" else tokens[0] + Concat(tokens[1..])
  }

  /** How `Tokens` continues at position `i`: the one token read there and where reading resumes. */
  lemma TokensStep(s: string, i: nat, n: nat)
    requires i < |s| && Allowed(s[i]) && i + n <= |s|
    requires n == (if s[i] == ' ' || IsOperatorChar(s[i]) then 1 else DigitRun(s[i..]))
    ensures s[i] == ' ' ==> Tokens(s[i..]) == Tokens(s[i + n..])
    ensures s[i] != ' ' ==> Tokens(s[i..]) == Prepend(s[i..i + n], Tokens(s[i + n..]))
  {
    var rest := s[i..];
    assert rest[0] == s[i];
    assert rest[n..] == s[i + n..];
    assert rest[..n] == s[i..i + n];
    if s[i] != ' ' && !IsDigit(s[i]) {
      assert rest[..1] == [rest[0]];
    }
  }

  /** The run of digits that starts at `i`, read one character at a time. */
  method ReadNumber(expression: string, i: nat) returns (number: string, j: nat)
    requires i <= |expression|
    ensures j == i + DigitRun(expression[i..]) && number == expression[i..j]
  {
    number := "";
    j := i;
    while j < |expression| && IsDigit(expression[j])
      invariant i <= j <= |expression|
      invariant number == expression[i..j]
      invariant DigitRun(expression[i..]) == (j - i) + DigitRun(expression[j..])
    {
      assert expression[j..][1..] == expression[j + 1..];
      number := number + [expression[j]];
      j := j + 1;
    }
  }

  /** `tokenize(expression)`. */
  method Tokenize(expression: string) returns (r: Result<seq<string>>)
    ensures r == Tokens(expression)
  {
    var result: seq<string> := [];
    var i := 0;
    assert expression[i..] == expression;
    if Tokens(expression).Ok? {
      assert result + Tokens(expression).value == Tokens(expression).value;
    }
    while i < |expression|
      invariant 0 <= i <= |expression|
      invariant Tokens(expression) == Both(Ok(result), Tokens(expression[i..]))
    {
      var c := expression[i];
      if c == ' ' {
        TokensStep(expression, i, 1);
        i := i + 1;
      } else if '0' <= c <= '9' {
        var number, j := ReadNumber(expression, i);
        TokensStep(expression, i, j - i);
        AppendBoth(result, number, Tokens(expression[j..]));
        result := result + [number];
        i := j;
      } else if IsOperatorChar(c) {
        TokensStep(expression, i, 1);
        assert expression[i..i + 1] == [c];
        AppendBoth(result, [c], Tokens(expression[i + 1..]));
        result := result + [[c]];
        i := i + 1;
      } else {
        assert expression[i..][0] == c;
        return Fail(IllegalArgument);
      }
    }
    assert expression[i..] == [];
    assert result + [] == result;
    return Ok(result);
  }

  /** `tokenize` fails exactly when some character is neither a space, a digit nor an operator. */
  lemma {:induction false} TokensFailIff(s: string)
    ensures Tokens(s).Fail? <==> exists i :: 0 <= i < |s| && !Allowed(s[i])
    decreases |s|
  {
    if s == [] {
    } else if s[0] == ' ' || IsOperatorChar(s[0]) || IsDigit(s[0]) {
      var n := if IsDigit(s[0]) then DigitRun(s) else 1;
      TokensFailIff(s[n..]);
      forall k | 0 <= k < n ensures Allowed(s[k]) {
        if IsDigit(s[0]) { assert IsDigit(s[..n][k]); }
      }
      if exists i :: 0 <= i < |s| && !Allowed(s[i]) {
        var i :| 0 <= i < |s| && !Allowed(s[i]);
        assert s[n..][i - n] == s[i];
      }
      if exists i :: 0 <= i < |s[n..]| && !Allowed(s[n..][i]) {
        var i :| 0 <= i < |s[n..]| && !Allowed(s[n..][i]);
        assert s[n + i] == s[n..][i];
      }
    }
  }

  /** The digit run of `a + b` is the digit run of `a` when it ends inside `a` or `b` does not go on with a digit. */
  lemma {:induction false} DigitRunAppend(a: string, b: string)
    requires DigitRun(a) < |a| || b == [] || !IsDigit(b[0])
    ensures DigitRun(a + b) == DigitRun(a)
    decreases |a|
  {
    if a == [] {
      assert a + b == b;
    } else if IsDigit(a[0]) {
      assert (a + b)[1..] == a[1..] + b;
      DigitRunAppend(a[1..], b);
    }
  }

  /**
   * Tokenizing two strings one after the other gives the tokens of each,
   * unless a digit run crosses the boundary.
   */
  lemma {:induction false} TokensAppend(a: string, b: string)
    requires a == [] || b == [] || !IsDigit(a[|a| - 1]) || !IsDigit(b[0])
    ensures Tokens(a + b) == Both(Tokens(a), Tokens(b))
    decreases |a|
  {
    var ab := a + b;
    if a == [] {
      assert ab == b;
      if Tokens(b).Ok? {
        assert [] + Tokens(b).value == Tokens(b).value;
      }
    } else if a[0] == ' ' || IsOperatorChar(a[0]) || IsDigit(a[0]) {
      var n := if IsDigit(a[0]) then DigitRun(a) else 1;
      FirstTokenAppend(a, b, n);
      TokensAppend(a[n..], b);
      if a[0] != ' ' {
        PrependBoth(a[..n], Tokens(a[n..]), Tokens(b));
      }
    }
  }

  /** The first token of `a + b` is the first token of `a`, and tokenizing goes on in `a[n..] + b`. */
  lemma FirstTokenAppend(a: string, b: string, n: nat)
    requires a != [] && (a[0] == ' ' || IsOperatorChar(a[0]) || IsDigit(a[0]))
    requires n == if IsDigit(a[0]) then DigitRun(a) else 1
    requires b == [] || !IsDigit(a[|a| - 1]) || !IsDigit(b[0])
    ensures 1 <= n <= |a| && (a + b)[0] == a[0] && (a + b)[n..] == a[n..] + b && (a + b)[..n] == a[..n]
    ensures IsDigit(a[0]) ==> DigitRun(a + b) == n
    ensures a[n..] == [] || b == [] || !IsDigit(a[n..][|a[n..]| - 1]) || !IsDigit(b[0])
    ensures !IsDigit(a[0]) ==> a[..n] == [a[0]]
  {
    var ab := a + b;
    assert ab[0] == a[0];
    if IsDigit(a[0]) {
      if n == |a| {
        assert a[..n][|a| - 1] == a[|a| - 1];
      }
      DigitRunAppend(a, b);
    }
    SliceAppend(a, b, n);
    if a[n..] != [] {
      assert a[n..][|a[n..]| - 1] == a[|a| - 1];
    }
    if !IsDigit(a[0]) {
      assert a[..1] == [a[0]] && ab[..1] == [ab[0]];
    }
  }

  lemma SliceAppend<T>(a: seq<T>, b: seq<T>, n: nat)
    requires n <= |a|
    ensures (a + b)[n..] == a[n..] + b && (a + b)[..n] == a[..n]
  {
  }

  lemma AppendBoth(done: seq<string>, t: string, x: Result<seq<string>>)
    ensures Both(Ok(done), Prepend(t, x)) == Both(Ok(done + [t]), x)
  {
    if x.Ok? {
      assert done + ([t] + x.value) == (done + [t]) + x.value;
    }
  }

  lemma PrependBoth(t: string, x: Result<seq<string>>, y: Result<seq<string>>)
    ensures Prepend(t, Both(x, y)) == Both(Prepend(t, x), y)
  {
    if x.Ok? && y.Ok? {
      assert [t] + (x.value + y.value) == ([t] + x.value) + y.value;
    }
  }

  /** An unbroken run of digits is a single token. */
  lemma {:induction false} TokensOfDigits(s: string)
    requires |s| >= 1 && AllDigits(s)
    ensures Tokens(s) == Ok([s])
  {
    var n := DigitRun(s);
    assert IsDigit(s[0]);
    assert n == |s|;
    assert s[..n] == s && s[n..] == [];
    assert Tokens(s[n..]) == Ok([]);
    assert Tokens(s) == Prepend(s[..n], Tokens(s[n..]));
    assert [s] + [] == [s];
  }

  lemma {:induction false} ConcatPrepend(t: string, tokens: seq<string>)
    ensures Concat([t] + tokens) == t + Concat(tokens)
  {
    assert ([t] + tokens)[1..] == tokens;
  }

  lemma {:induction false} RemoveSpacesAppend(a: string, b: string)
    ensures RemoveChar(a + b, ' ') == RemoveChar(a, ' ') + RemoveChar(b, ' ')
    decreases |a|
  {
    if a == [] {
      assert a + b == b;
    } else {
      assert (a + b)[1..] == a[1..] + b;
      RemoveSpacesAppend(a[1..], b);
    }
  }

  /** The tokens, written one after another, are the input with its spaces removed. */
  lemma {:induction false} TokensConcat(s: string)
    requires Tokens(s).Ok?
    ensures Concat(Tokens(s).value) == RemoveChar(s, ' ')
    decreases |s|
  {
    if s == [] {
    } else if s[0] == ' ' {
      TokensConcat(s[1..]);
    } else {
      var n := if IsDigit(s[0]) then DigitRun(s) else 1;
      TokensConcat(s[n..]);
      ConcatPrepend(s[..n], Tokens(s[n..]).value);
      assert s == s[..n] + s[n..];
      RemoveSpacesAppend(s[..n], s[n..]);
      assert ' ' !in s[..n] by {
        if IsDigit(s[0]) {
          forall k | 0 <= k < n ensures s[..n][k] != ' ' { assert IsDigit(s[..n][k]); }
        }
      }
      RemoveCharAbsent(s[..n], ' ');
    }
  }

  // ---------------------------------------------------------------- parser

  /** `operationMap`: the operation a token names, if any. */
  function OperationOf(token: string): (r: Option<Operation>)
    ensures r.Some? ==> OpSymbol(r.value) == token
  {
    if token == "+" then Some(PLUS)
    else if token == "-" then Some(MINUS)
    else if token == "*" then Some(TIMES)
    else if token == "/" then Some(DIV)
    else if token == "^" then Some(POW)
    else None
  }

  /** The symbol `exprToString` prints for an operation. */
  function OpSymbol(op: Operation): (s: string)
    ensures |s| == 1 && IsOperatorChar(s[0]) && s[0] != 'x' && s[0] != '(' && s[0] != ')'
  {
    match op
    case PLUS => "+"
    case MINUS => "-"
    case TIMES => "*"
    case DIV => "/"
    case POW => "^"
  }

  /** The symbol of an operation is the token that names it. */
  lemma OpSymbolNamesOperation(op: Operation)
    ensures OperationOf(OpSymbol(op)) == Some(op)
  {
  }

  /** A parsed expression and the position of the first token after it. */
  datatype Parsed = Parsed(expr: Expression, pos: nat)

  /** `parseExpression` started at `pos`: items joined by `+` and `-`, grouped to the left. */
  function ExpressionAt(g: seq<string>, pos: nat): (r: Result<Parsed>)
    requires pos <= |g|
    ensures r.Ok? ==> pos < r.value.pos <= |g|
    decreases |g| - pos, 3
  {
    match ItemAt(g, pos)
    case Fail(e) => Fail(e)
    case Ok(p) => ExpressionTail(g, p.expr, p.pos)
  }

  /** The loop of `parseExpression` with `left` parsed so far and the next token at `pos`. */
  function ExpressionTail(g: seq<string>, left: Expression, pos: nat): (r: Result<Parsed>)
    requires pos <= |g|
    ensures r.Ok? ==> pos <= r.value.pos <= |g|
    decreases |g| - pos, 2
  {
    if pos == |g| then Ok(Parsed(left, pos))
    else
      var op := OperationOf(g[pos]);
      if op == Some(PLUS) || op == Some(MINUS) then
        (match ItemAt(g, pos + 1)
         case Fail(e) => Fail(e)
         case Ok(p) => ExpressionTail(g, Binary(left, op.value, p.expr), p.pos))
      else Ok(Parsed(left, pos))
  }

  /** `parseItem` started at `pos`: factors joined by `*` and `/`, grouped to the left. */
  function ItemAt(g: seq<string>, pos: nat): (r: Result<Parsed>)
    requires pos <= |g|
    ensures r.Ok? ==> pos < r.value.pos <= |g|
    decreases |g| - pos, 1
  {
    match FactorAt(g, pos)
    case Fail(e) => Fail(e)
    case Ok(p) => ItemTail(g, p.expr, p.pos)
  }

  /** The loop of `parseItem` with `left` parsed so far and the next token at `pos`. */
  function ItemTail(g: seq<string>, left: Expression, pos: nat): (r: Result<Parsed>)
    requires pos <= |g|
    ensures r.Ok? ==> pos <= r.value.pos <= |g|
    decreases |g| - pos, 0
  {
    if pos == |g| then Ok(Parsed(left, pos))
    else
      var op := OperationOf(g[pos]);
      if op == Some(TIMES) || op == Some(DIV) then
        (match FactorAt(g, pos + 1)
         case Fail(e) => Fail(e)
         case Ok(p) => ItemTail(g, Binary(left, op.value, p.expr), p.pos))
      else Ok(Parsed(left, pos))
  }

  /**
   * `parseFactor` started at `pos`: the variable, a negated factor, an
   * expression in parentheses, or a number that may be raised to a power.
   */
  function FactorAt(g: seq<string>, pos: nat): (r: Result<Parsed>)
    requires pos <= |g|
    ensures r.Ok? ==> pos < r.value.pos <= |g|
    decreases |g| - pos, 0
  {
    if pos == |g| then Fail(IllegalState)
    else
      var group := g[pos];
      if group == "x" then Ok(Parsed(Variable, pos + 1))
      else if group == "-" then
        (match FactorAt(g, pos + 1)
         case Fail(e) => Fail(e)
         case Ok(p) => Ok(Parsed(Negate(p.expr), p.pos)))
      else if group == "(" then
        (match ExpressionAt(g, pos + 1)
         case Fail(e) => Fail(e)
         case Ok(p) =>
           if p.pos == |g| then Fail(IndexOutOfBounds)
           else if g[p.pos] == ")" then Ok(Parsed(p.expr, p.pos + 1))
           else Fail(IllegalState))
      else
        match ToIntOrNull(group)
        case None => Fail(IllegalArgument)
        case Some(n) =>
          if pos + 1 < |g| && g[pos + 1] == "^" then
            (match FactorAt(g, pos + 2)
             case Fail(e) => Fail(e)
             case Ok(p) => Ok(Parsed(Binary(Constant(n), POW, p.expr), p.pos)))
          else Ok(Parsed(Constant(n), pos + 1))
  }

  /** `parse` on a parser at `pos`: an expression that must use up every token. */
  function ParseFrom(g: seq<string>, pos: nat): Result<Expression>
    requires pos <= |g|
  {
    match ExpressionAt(g, pos)
    case Fail(e) => Fail(e)
    case Ok(p) => if p.pos >= |g| then Ok(p.expr) else Fail(IllegalState)
  }

  /** `parseExpression(expression)`: tokenize, then parse from the first token. */
  function ExpressionOf(s: string): Result<Expression> {
    match Tokens(s)
    case Fail(e) => Fail(e)
    case Ok(g) => ParseFrom(g, 0)
  }

  /** A parser method's outcome and final position are those of the specification `spec`. */
  predicate Agrees(r: Result<Expression>, pos: nat, spec: Result<Parsed>) {
    match spec
    case Ok(p) => r == Ok(p.expr) && pos == p.pos
    case Fail(e) => r == Fail(e)
  }

  /** `Parser`: the token list and the position of the next token to read. */
  class Parser {
    const groups: seq<string>
    var pos: nat

    constructor (groups: seq<string>)
      ensures this.groups == groups && pos == 0
    {
      this.groups := groups;
      pos := 0;
    }

    method Parse() returns (r: Result<Expression>)
      requires pos <= |groups|
      modifies this
      ensures r == ParseFrom(groups, old(pos))
    {
      r := ParseExpression();
      if r.Ok? && pos < |groups| {
        r := Fail(IllegalState);
      }
    }

    method ParseExpression() returns (r: Result<Expression>)
      requires pos <= |groups|
      modifies this
      ensures pos <= |groups| && Agrees(r, pos, ExpressionAt(groups, old(pos)))
      decreases |groups| - pos, 3
    {
      var first := ParseItem();
      if first.Fail? {
        return first;
      }
      var left := first.value;
      while pos < |groups|
        invariant old(pos) < pos <= |groups|
        invariant ExpressionAt(groups, old(pos)) == ExpressionTail(groups, left, pos)
        decreases |groups| - pos
      {
        var op := OperationOf(groups[pos]);
        if op == Some(PLUS) || op == Some(MINUS) {
          pos := pos + 1;
          var right := ParseItem();
          if right.Fail? {
            return right;
          }
          left := Binary(left, op.value, right.value);
        } else {
          return Ok(left);
        }
      }
      return Ok(left);
    }

    method ParseItem() returns (r: Result<Expression>)
      requires pos <= |groups|
      modifies this
      ensures pos <= |groups| && Agrees(r, pos, ItemAt(groups, old(pos)))
      decreases |groups| - pos, 1
    {
      var first := ParseFactor();
      if first.Fail? {
        return first;
      }
      var left := first.value;
      while pos < |groups|
        invariant old(pos) < pos <= |groups|
        invariant ItemAt(groups, old(pos)) == ItemTail(groups, left, pos)
        decreases |groups| - pos
      {
        var op := OperationOf(groups[pos]);
        if op == Some(TIMES) || op == Some(DIV) {
          pos := pos + 1;
          var right := ParseFactor();
          if right.Fail? {
            return right;
          }
          left := Binary(left, op.value, right.value);
        } else {
          return Ok(left);
        }
      }
      return Ok(left);
    }

    method ParseFactor() returns (r: Result<Expression>)
      requires pos <= |groups|
      modifies this
      ensures pos <= |groups| && Agrees(r, pos, FactorAt(groups, old(pos)))
      decreases |groups| - pos, 0
    {
      if pos >= |groups| {
        return Fail(IllegalState);
      }
      var group := groups[pos];
      pos := pos + 1;
      if group == "x" {
        return Ok(Variable);
      } else if group == "-" {
        var e := ParseFactor();
        if e.Fail? {
          return e;
        }
        return Ok(Negate(e.value));
      } else if group == "(" {
        var arg := ParseExpression();
        if arg.Fail? {
          return arg;
        }
        if pos >= |groups| {
          return Fail(IndexOutOfBounds);
        }
        var next := groups[pos];
        pos := pos + 1;
        if next == ")" {
          return arg;
        }
        return Fail(IllegalState);
      } else {
        var number := ToIntOrNull(group);
        if number.None? {
          return Fail(IllegalArgument);
        }
        if pos < |groups| && groups[pos] == "^" {
          pos := pos + 1;
          var exponent := ParseFactor();
          if exponent.Fail? {
            return exponent;
          }
          return Ok(Binary(Constant(number.value), POW, exponent.value));
        }
        return Ok(Constant(number.value));
      }
    }
  }

  /** The top-level `parseExpression(expression)`. */
  method ParseExpression(expression: string) returns (r: Result<Expression>)
    ensures r == ExpressionOf(expression)
  {
    var tokens := Tokenize(expression);
    if tokens.Fail? {
      return Fail(tokens.error);
    }
    var parser := new Parser(tokens.value);
    r := parser.Parse();
  }

  // ---------------------------------------------------------------- exprToString

  /** `exprToString`: every binary node in parentheses, negation as `-(e)`. */
  function ExprToString(e: Expression): (s: string)
    ensures |s| >= 1 && forall i :: 0 <= i < |s| ==> Allowed(s[i])
  {
    match e
    case Variable => "x"
    case Constant(v) => IntToStringAllowed(v); IntToString(v)
    case Negate(a) => "-(" + ExprToString(a) + ")"
    case Binary(l, op, r) => "(" + ExprToString(l) + " " + OpSymbol(op) + " " + ExprToString(r) + ")"
  }

  lemma IntToStringAllowed(v: int)
    ensures forall i :: 0 <= i < |IntToString(v)| ==> Allowed(IntToString(v)[i])
  {
    if v < 0 {
      var d := NatToString(-v);
      forall i | 0 <= i < |"-" + d| ensures Allowed(("-" + d)[i]) {
        if i > 0 { assert ("-" + d)[i] == d[i - 1]; }
      }
    }
  }

  /** The tokens of `exprToString(e)`. */
  function ExprTokens(e: Expression): seq<string> {
    match e
    case Variable => ["x"]
    case Constant(v) => if v < 0 then ["-", NatToString(-(v as int))] else [NatToString(v)]
    case Negate(a) => ["-", "("] + ExprTokens(a) + [")"]
    case Binary(l, op, r) => ["("] + ExprTokens(l) + [OpSymbol(op)] + ExprTokens(r) + [")"]
  }

  /** One character other than a space or a digit is one token. */
  lemma TokensOfOperator(c: char)
    requires IsOperatorChar(c)
    ensures Tokens([c]) == Ok([[c]])
  {
    assert [c][1..] == [];
    assert [[c]] + [] == [[c]];
  }

  /** `(l op ` tokenizes as the parenthesis, the tokens of `l` and the operator. */
  lemma OpenTokens(ls: string, tl: seq<string>, op: Operation)
    requires Tokens(ls) == Ok(tl)
    ensures Tokens("(" + ls + " " + OpSymbol(op) + " ") == Ok(["("] + tl + [OpSymbol(op)])
  {
    var o := OpSymbol(op);
    var a := "(" + ls;
    TokensOfOperator('(');
    TokensAppend("(", ls);
    var b := a + " ";
    TokensAppend(a, " ");
    var c := b + o;
    TokensAppend(b, o);
    TokensOfOperator(o[0]);
    assert [o[0]] == o;
    TokensAppend(c, " ");
    assert Tokens(" ") == Ok([]);
    assert Tokens(b) == Ok(["("] + tl + []);
    assert ["("] + tl + [] + [o] + [] == ["("] + tl + [o];
  }

  /** A binary node prints as tokens of its parts between the operator and the parentheses. */
  lemma BinaryTokens(l: Expression, op: Operation, r: Expression)
    requires Tokens(ExprToString(l)) == Ok(ExprTokens(l))
    requires Tokens(ExprToString(r)) == Ok(ExprTokens(r))
    ensures Tokens(ExprToString(Binary(l, op, r))) == Ok(ExprTokens(Binary(l, op, r)))
  {
    var ls, rs, o := ExprToString(l), ExprToString(r), OpSymbol(op);
    var d := "(" + ls + " " + o + " ";
    OpenTokens(ls, ExprTokens(l), op);
    var f := d + rs;
    TokensAppend(d, rs);
    TokensAppend(f, ")");
    TokensOfOperator(')');
    assert f + ")" == ExprToString(Binary(l, op, r));
  }

  /** Tokenizing what `exprToString` prints gives the tokens of the tree. */
  lemma {:induction false} ExprToStringTokens(e: Expression)
    ensures Tokens(ExprToString(e)) == Ok(ExprTokens(e))
  {
    match e
    case Variable =>
      TokensOfOperator('x');
    case Constant(v) =>
      if v < 0 {
        var d := NatToString(-(v as int));
        TokensOfOperator('-');
        TokensOfDigits(d);
        TokensAppend("-", d);
        assert ["-"] + [d] == ["-", d];
        assert IntToString(v) == "-" + d;
      } else {
        TokensOfDigits(NatToString(v));
      }
    case Negate(a) =>
      ExprToStringTokens(a);
      var inner := ExprToString(a);
      TokensOfOperator('-');
      TokensOfOperator('(');
      TokensOfOperator(')');
      TokensAppend("-", "(");
      TokensAppend("-(", inner);
      TokensAppend("-(" + inner, ")");
      assert Tokens("-(") == Ok(["-"] + ["("]);
      assert ["-"] + ["("] == ["-", "("];
      assert ExprToString(e) == "-(" + inner + ")";
    case Binary(l, op, r) =>
      ExprToStringTokens(l);
      ExprToStringTokens(r);
      BinaryTokens(l, op, r);
  }

  // ---------------------------------------------------------------- printing and parsing back

  /**
   * The trees whose printed form parses back to themselves: constants are
   * not negative (`-5` prints as `-5` and parses back as `Negate(5)`) and a
   * power has a constant base (the parser reads `^` only after a number).
   */
  predicate Printable(e: Expression) {
    match e
    case Variable => true
    case Constant(v) => v >= 0
    case Negate(a) => Printable(a)
    case Binary(l, op, r) => Printable(l) && Printable(r) && (op == POW ==> l.Constant?)
  }

  /** The tokens `t` stand in `g` from position `p` on. */
  predicate TokensAt(g: seq<string>, p: nat, t: seq<string>) {
    p + |t| <= |g| && g[p..p + |t|] == t
  }

  lemma TokensAtSplit(g: seq<string>, p: nat, a: seq<string>, b: seq<string>)
    requires TokensAt(g, p, a + b)
    ensures TokensAt(g, p, a) && TokensAt(g, p + |a|, b)
  {
    var n := p + |a + b|;
    assert g[p..p + |a|] == g[p..n][..|a|];
    assert g[p + |a|..n] == g[p..n][|a|..];
  }

  lemma TokensAtOne(g: seq<string>, p: nat, x: string)
    requires TokensAt(g, p, [x])
    ensures p < |g| && g[p] == x
  {
    assert g[p..p + 1][0] == g[p];
  }

  /** No operator that `parseItem` or `parseExpression` would read stands at `k`. */
  predicate Stops(g: seq<string>, k: nat) {
    k >= |g| || OperationOf(g[k]).None?
  }

  /** No `^` stands at `k`. */
  predicate NoPower(g: seq<string>, k: nat) {
    k >= |g| || g[k] != "^"
  }

  /** The printed form of a non-negative number is read back as that number. */
  lemma NumberToken(d: string, n: Int32)
    requires n >= 0 && d == NatToString(n)
    ensures d != "x" && d != "-" && d != "(" && ToIntOrNull(d) == Some(n)
  {
    assert IsDigit(d[0]);
    ParseNatString(n, IntMin, IntMax);
  }

  // One step of each parsing function, stated once so that the proofs below
  // need not unfold them. Positions are passed as named values so that the
  // steps chain on equal terms.

  lemma FactorAtVariable(g: seq<string>, p: nat)
    requires p < |g| && g[p] == "x"
    ensures FactorAt(g, p) == Ok(Parsed(Variable, p + 1))
  {
  }

  lemma FactorAtNumber(g: seq<string>, p: nat, n: Int32)
    requires n >= 0 && p < |g| && g[p] == NatToString(n) && NoPower(g, p + 1)
    ensures FactorAt(g, p) == Ok(Parsed(Constant(n), p + 1))
  {
    NumberToken(g[p], n);
  }

  lemma FactorAtMinus(g: seq<string>, p: nat, next: nat, e: Expression, k: nat)
    requires next == p + 1 && p < |g| && g[p] == "-" && next <= |g|
    requires FactorAt(g, next) == Ok(Parsed(e, k))
    ensures FactorAt(g, p) == Ok(Parsed(Negate(e), k))
  {
  }

  lemma FactorAtParen(g: seq<string>, p: nat, next: nat, e: Expression, k: nat)
    requires next == p + 1 && p < |g| && g[p] == "(" && next <= |g|
    requires ExpressionAt(g, next) == Ok(Parsed(e, k)) && k < |g| && g[k] == ")"
    ensures FactorAt(g, p) == Ok(Parsed(e, k + 1))
  {
  }

  lemma FactorAtPower(g: seq<string>, p: nat, next: nat, n: Int32, e: Expression, k: nat)
    requires next == p + 2 && next <= |g| && n >= 0 && g[p] == NatToString(n) && g[p + 1] == "^"
    requires FactorAt(g, next) == Ok(Parsed(e, k))
    ensures FactorAt(g, p) == Ok(Parsed(Binary(Constant(n), POW, e), k))
  {
    NumberToken(g[p], n);
  }

  /** No `*` or `/` stands at `k`. */
  predicate NoItemOp(g: seq<string>, k: nat) {
    k >= |g| || (OperationOf(g[k]) != Some(TIMES) && OperationOf(g[k]) != Some(DIV))
  }

  /** No `+` or `-` stands at `k`. */
  predicate NoExpressionOp(g: seq<string>, k: nat) {
    k >= |g| || (OperationOf(g[k]) != Some(PLUS) && OperationOf(g[k]) != Some(MINUS))
  }

  lemma ItemAtFactor(g: seq<string>, p: nat, e: Expression, k: nat)
    requires p <= |g| && FactorAt(g, p) == Ok(Parsed(e, k))
    ensures ItemAt(g, p) == ItemTail(g, e, k)
  {
  }

  lemma ItemTailStop(g: seq<string>, left: Expression, k: nat)
    requires k <= |g| && NoItemOp(g, k)
    ensures ItemTail(g, left, k) == Ok(Parsed(left, k))
  {
  }

  lemma ItemTailStep(g: seq<string>, left: Expression, k: nat, next: nat, op: Operation, e: Expression, k': nat)
    requires next == k + 1 && k < |g| && (op == TIMES || op == DIV) && g[k] == OpSymbol(op)
    requires FactorAt(g, next) == Ok(Parsed(e, k'))
    ensures ItemTail(g, left, k) == ItemTail(g, Binary(left, op, e), k')
  {
    OpSymbolNamesOperation(op);
  }

  lemma ExpressionAtItem(g: seq<string>, p: nat, e: Expression, k: nat)
    requires p <= |g| && ItemAt(g, p) == Ok(Parsed(e, k))
    ensures ExpressionAt(g, p) == ExpressionTail(g, e, k)
  {
  }

  lemma ExpressionTailStop(g: seq<string>, left: Expression, k: nat)
    requires k <= |g| && NoExpressionOp(g, k)
    ensures ExpressionTail(g, left, k) == Ok(Parsed(left, k))
  {
  }

  lemma ExpressionTailStep(g: seq<string>, left: Expression, k: nat, next: nat, op: Operation, e: Expression, k': nat)
    requires next == k + 1 && k < |g| && (op == PLUS || op == MINUS) && g[k] == OpSymbol(op)
    requires ItemAt(g, next) == Ok(Parsed(e, k'))
    ensures ExpressionTail(g, left, k) == ExpressionTail(g, Binary(left, op, e), k')
  {
    OpSymbolNamesOperation(op);
  }

  /** A factor at `p` followed by a token that neither loop reads is a whole item and a whole expression. */
  lemma ExpressionOfFactor(g: seq<string>, p: nat, e: Expression, k: nat)
    requires p <= |g| && FactorAt(g, p) == Ok(Parsed(e, k)) && NoItemOp(g, k) && NoExpressionOp(g, k)
    ensures ItemAt(g, p) == Ok(Parsed(e, k)) && ExpressionAt(g, p) == Ok(Parsed(e, k))
  {
    ItemAtFactor(g, p, e, k);
    ItemTailStop(g, e, k);
    ExpressionAtItem(g, p, e, k);
    ExpressionTailStop(g, e, k);
  }

  /** `n ^ r)`: the power is read inside the factor. */
  lemma PowerThenClose(g: seq<string>, q: nat, next: nat, n: Int32, r: Expression, k: nat)
    requires next == q + 2 && next <= |g| && n >= 0 && g[q] == NatToString(n) && g[q + 1] == "^"
    requires FactorAt(g, next) == Ok(Parsed(r, k)) && k < |g| && g[k] == ")"
    ensures ExpressionAt(g, q) == Ok(Parsed(Binary(Constant(n), POW, r), k))
  {
    FactorAtPower(g, q, next, n, r, k);
    ExpressionOfFactor(g, q, Binary(Constant(n), POW, r), k);
  }

  /** `l * r)` or `l / r)`: the operation is read by the loop of `parseItem`. */
  lemma ItemThenClose(g: seq<string>, q: nat, l: Expression, op: Operation, r: Expression, k1: nat, next: nat, k: nat)
    requires (op == TIMES || op == DIV) && q <= |g| && FactorAt(g, q) == Ok(Parsed(l, k1))
    requires next == k1 + 1 && k1 < |g| && g[k1] == OpSymbol(op) && FactorAt(g, next) == Ok(Parsed(r, k))
    requires k < |g| && g[k] == ")"
    ensures ExpressionAt(g, q) == Ok(Parsed(Binary(l, op, r), k))
  {
    var b := Binary(l, op, r);
    ItemAtFactor(g, q, l, k1);
    ItemTailStep(g, l, k1, next, op, r, k);
    ItemTailStop(g, b, k);
    ExpressionAtItem(g, q, b, k);
    ExpressionTailStop(g, b, k);
  }

  /** `l + r)` or `l - r)`: the operation is read by the loop of `parseExpression`. */
  lemma SumThenClose(g: seq<string>, q: nat, l: Expression, op: Operation, r: Expression, k1: nat, next: nat, k: nat)
    requires (op == PLUS || op == MINUS) && q <= |g| && FactorAt(g, q) == Ok(Parsed(l, k1))
    requires next == k1 + 1 && k1 < |g| && g[k1] == OpSymbol(op) && FactorAt(g, next) == Ok(Parsed(r, k))
    requires k < |g| && g[k] == ")"
    ensures ExpressionAt(g, q) == Ok(Parsed(Binary(l, op, r), k))
  {
    OpSymbolNamesOperation(op);
    ItemAtFactor(g, q, l, k1);
    ItemTailStop(g, l, k1);
    ExpressionAtItem(g, q, l, k1);
    ExpressionOfFactor(g, next, r, k);
    ExpressionTailStep(g, l, k1, next, op, r, k);
    ExpressionTailStop(g, Binary(l, op, r), k);
  }

  lemma NegateLayout(g: seq<string>, p: nat, ta: seq<string>, inner: nat, k: nat)
    requires inner == p + 2 && k == inner + |ta|
    requires TokensAt(g, p, ["-", "("] + ta + [")"])
    ensures k < |g| && g[p] == "-" && g[p + 1] == "(" && TokensAt(g, inner, ta) && g[k] == ")"
  {
    TokensAtSplit(g, p, ["-", "("] + ta, [")"]);
    TokensAtSplit(g, p, ["-", "("], ta);
    TokensAtSplit(g, p, ["-"], ["("]);
    TokensAtOne(g, p, "-");
    TokensAtOne(g, p + 1, "(");
    TokensAtOne(g, k, ")");
  }

  lemma ParenLayout(g: seq<string>, p: nat, body: seq<string>, next: nat)
    requires next == p + 1 && TokensAt(g, p, ["("] + body)
    ensures p < |g| && g[p] == "(" && TokensAt(g, next, body)
  {
    TokensAtSplit(g, p, ["("], body);
    TokensAtOne(g, p, "(");
  }

  lemma BinaryLayout(g: seq<string>, q: nat, tl: seq<string>, o: string, tr: seq<string>, q1: nat, q2: nat, q3: nat)
    requires q1 == q + |tl| && q2 == q1 + 1 && q3 == q2 + |tr|
    requires TokensAt(g, q, tl + [o] + tr + [")"])
    ensures q3 < |g| && TokensAt(g, q, tl) && g[q1] == o && TokensAt(g, q2, tr) && g[q3] == ")"
  {
    TokensAtSplit(g, q, tl + [o] + tr, [")"]);
    TokensAtSplit(g, q, tl + [o], tr);
    TokensAtSplit(g, q, tl, [o]);
    TokensAtOne(g, q1, o);
    TokensAtOne(g, q3, ")");
  }

  /** The printed tokens of a tree, read as a factor, give the tree back. */
  lemma {:induction false} FactorParses(g: seq<string>, p: nat, e: Expression, k: nat)
    requires k == p + |ExprTokens(e)|
    requires Printable(e) && TokensAt(g, p, ExprTokens(e))
    requires e.Constant? ==> NoPower(g, k)
    ensures FactorAt(g, p) == Ok(Parsed(e, k))
    decreases e, 3
  {
    match e
    case Variable =>
      TokensAtOne(g, p, "x");
      FactorAtVariable(g, p);
    case Constant(v) =>
      TokensAtOne(g, p, NatToString(v));
      FactorAtNumber(g, p, v);
    case Negate(a) =>
      NegateParses(g, p, a, k);
    case Binary(l, op, r) =>
      ParenthesisedParses(g, p, l, op, r, k);
  }

  lemma {:induction false} NegateParses(g: seq<string>, p: nat, a: Expression, k: nat)
    requires k == p + |ExprTokens(Negate(a))|
    requires Printable(a) && TokensAt(g, p, ExprTokens(Negate(a)))
    ensures FactorAt(g, p) == Ok(Parsed(Negate(a), k))
    decreases Negate(a), 2
  {
    var ta := ExprTokens(a);
    var p1 := p + 1;
    var inner := p + 2;
    var close := inner + |ta|;
    assert k == close + 1;
    NegateLayout(g, p, ta, inner, close);
    ParenParses(g, inner, a, close);
    FactorAtParen(g, p1, inner, a, close);
    FactorAtMinus(g, p, p1, a, k);
  }

  lemma {:induction false} ParenthesisedParses(g: seq<string>, p: nat, l: Expression, op: Operation, r: Expression, k: nat)
    requires k == p + |ExprTokens(Binary(l, op, r))|
    requires Printable(Binary(l, op, r)) && TokensAt(g, p, ExprTokens(Binary(l, op, r)))
    ensures FactorAt(g, p) == Ok(Parsed(Binary(l, op, r), k))
    decreases Binary(l, op, r), 2
  {
    var tl, tr := ExprTokens(l), ExprTokens(r);
    var b := Binary(l, op, r);
    var body := tl + [OpSymbol(op)] + tr + [")"];
    var next := p + 1;
    var q1 := next + |tl|;
    var q2 := q1 + 1;
    var close := q2 + |tr|;
    assert ExprTokens(b) == ["("] + body;
    assert k == close + 1;
    ParenLayout(g, p, body, next);
    BinaryLayout(g, next, tl, OpSymbol(op), tr, q1, q2, close);
    BinaryParses(g, next, l, op, r, q1, q2, close);
    FactorAtParen(g, p, next, b, close);
  }

  /** The printed tokens of a tree, read as an expression that stops before a non-operator, give the tree back. */
  lemma {:induction false} ParenParses(g: seq<string>, q: nat, e: Expression, k: nat)
    requires k == q + |ExprTokens(e)|
    requires Printable(e) && TokensAt(g, q, ExprTokens(e)) && Stops(g, k)
    ensures ExpressionAt(g, q) == Ok(Parsed(e, k))
    decreases e, 4
  {
    FactorParses(g, q, e, k);
    ExpressionOfFactor(g, q, e, k);
  }

  /** The tokens of `l op r)` read as an expression give the binary node. */
  lemma {:induction false} BinaryParses(g: seq<string>, q: nat, l: Expression, op: Operation, r: Expression,
                                        q1: nat, q2: nat, q3: nat)
    requires q1 == q + |ExprTokens(l)| && q2 == q1 + 1 && q3 == q2 + |ExprTokens(r)|
    requires Printable(Binary(l, op, r))
    requires TokensAt(g, q, ExprTokens(l)) && q1 < |g| && g[q1] == OpSymbol(op)
    requires TokensAt(g, q2, ExprTokens(r)) && q3 < |g| && g[q3] == ")"
    ensures ExpressionAt(g, q) == Ok(Parsed(Binary(l, op, r), q3))
    decreases Binary(l, op, r), 1
  {
    if op == POW {
      TokensAtOne(g, q, NatToString(l.value));
      PowerParses(g, q, q2, l.value, r, q3);
    } else {
      OperatorParses(g, q, l, op, r, q1, q2, q3);
    }
  }

  lemma {:induction false} PowerParses(g: seq<string>, q: nat, next: nat, n: Int32, r: Expression, k: nat)
    requires next == q + 2 && k == next + |ExprTokens(r)|
    requires n >= 0 && Printable(r) && q + 1 < |g| && g[q] == NatToString(n) && g[q + 1] == "^"
    requires TokensAt(g, next, ExprTokens(r)) && k < |g| && g[k] == ")"
    ensures ExpressionAt(g, q) == Ok(Parsed(Binary(Constant(n), POW, r), k))
    decreases Binary(Constant(n), POW, r), 0
  {
    FactorParses(g, next, r, k);
    PowerThenClose(g, q, next, n, r, k);
  }

  lemma {:induction false} OperatorParses(g: seq<string>, q: nat, l: Expression, op: Operation, r: Expression,
                                          q1: nat, q2: nat, k: nat)
    requires q1 == q + |ExprTokens(l)| && q2 == q1 + 1 && k == q2 + |ExprTokens(r)|
    requires op != POW && Printable(l) && Printable(r)
    requires TokensAt(g, q, ExprTokens(l)) && q1 < |g| && g[q1] == OpSymbol(op)
    requires TokensAt(g, q2, ExprTokens(r)) && k < |g| && g[k] == ")"
    ensures ExpressionAt(g, q) == Ok(Parsed(Binary(l, op, r), k))
    decreases Binary(l, op, r), 0
  {
    assert NoPower(g, q1) by {
      OpSymbolNamesOperation(op);
    }
    FactorParses(g, q2, r, k);
    FactorParses(g, q, l, q1);
    if op == TIMES || op == DIV {
      ItemThenClose(g, q, l, op, r, q1, q2, k);
    } else {
      SumThenClose(g, q, l, op, r, q1, q2, k);
    }
  }

  /** A printable tree's tokens parse back to the tree. */
  lemma ParseTokensRoundTrip(e: Expression)
    requires Printable(e)
    ensures ParseFrom(ExprTokens(e), 0) == Ok(e)
  {
    var g := ExprTokens(e);
    assert g[0..|g|] == g;
    ParenParses(g, 0, e, |g|);
  }

  /** `parseExpression(exprToString(e)) == e` for every printable tree. */
  lemma RoundTrip(e: Expression)
    requires Printable(e)
    ensures ExpressionOf(ExprToString(e)) == Ok(e)
  {
    ExprToStringTokens(e);
    ParseTokensRoundTrip(e);
  }

  // ---------------------------------------------------------------- precedence and grouping

  /** How tightly an operation binds: `*` and `/` before `+` and `-`, `^` before both. */
  function Level(op: Operation): nat {
    match op
    case PLUS => 1
    case MINUS => 1
    case TIMES => 2
    case DIV => 2
    case POW => 3
  }

  /** The tokens of `a op1 b op2 c` written without parentheses. */
  function ThreeOperandTokens(a: Expression, op1: Operation, b: Expression, op2: Operation, c: Expression): seq<string> {
    ExprTokens(a) + [OpSymbol(op1)] + ExprTokens(b) + [OpSymbol(op2)] + ExprTokens(c)
  }

  /** Three factors at `0`, `p2` and `p3` of `g`, separated by the symbols of `op1` at `k1` and `op2` at `k2`. */
  predicate ThreeFactors(g: seq<string>, a: Expression, op1: Operation, b: Expression, op2: Operation, c: Expression,
                         k1: nat, p2: nat, k2: nat, p3: nat)
  {
    p2 == k1 + 1 && p3 == k2 + 1 && k1 < k2 < |g| &&
    FactorAt(g, 0) == Ok(Parsed(a, k1)) && g[k1] == OpSymbol(op1) &&
    FactorAt(g, p2) == Ok(Parsed(b, k2)) && g[k2] == OpSymbol(op2) &&
    FactorAt(g, p3) == Ok(Parsed(c, |g|))
  }

  lemma ThreeLayout(a: Expression, op1: Operation, b: Expression, op2: Operation, c: Expression,
                    k1: nat, p2: nat, k2: nat, p3: nat)
    requires k1 == |ExprTokens(a)| && p2 == k1 + 1 && k2 == p2 + |ExprTokens(b)| && p3 == k2 + 1
    ensures var g := ThreeOperandTokens(a, op1, b, op2, c);
      p3 + |ExprTokens(c)| == |g| && TokensAt(g, 0, ExprTokens(a)) && g[k1] == OpSymbol(op1) &&
      TokensAt(g, p2, ExprTokens(b)) && g[k2] == OpSymbol(op2) && TokensAt(g, p3, ExprTokens(c))
  {
    var ta, tb, tc := ExprTokens(a), ExprTokens(b), ExprTokens(c);
    var o1, o2 := OpSymbol(op1), OpSymbol(op2);
    var g := ThreeOperandTokens(a, op1, b, op2, c);
    TokensAtPrefix(g, ta + [o1] + tb + [o2], tc);
    TokensAtSplit(g, 0, ta + [o1] + tb, [o2]);
    TokensAtSplit(g, 0, ta + [o1], tb);
    TokensAtSplit(g, 0, ta, [o1]);
    TokensAtOne(g, k1, o1);
    TokensAtOne(g, k2, o2);
  }

  /** `g` is `x + y`: `x` stands at `0` and `y` right after it. */
  lemma TokensAtPrefix(g: seq<string>, x: seq<string>, y: seq<string>)
    requires g == x + y
    ensures TokensAt(g, 0, x) && TokensAt(g, |x|, y)
  {
    assert g[0..|x|] == x;
    assert g[|x|..|x| + |y|] == y;
  }

  /** A factor followed by `+`, `-` or the end is a whole item. */
  lemma ItemOfFactor(g: seq<string>, p: nat, e: Expression, k: nat)
    requires p <= |g| && FactorAt(g, p) == Ok(Parsed(e, k)) && NoItemOp(g, k)
    ensures ItemAt(g, p) == Ok(Parsed(e, k))
  {
    ItemAtFactor(g, p, e, k);
    ItemTailStop(g, e, k);
  }

  /** `a + b + c`: both operations read by the loop of `parseExpression`, the first one grouped first. */
  lemma SumSum(g: seq<string>, a: Expression, op1: Operation, b: Expression, op2: Operation, c: Expression,
               k1: nat, p2: nat, k2: nat, p3: nat)
    requires ThreeFactors(g, a, op1, b, op2, c, k1, p2, k2, p3) && Level(op1) == 1 && Level(op2) == 1
    ensures ExpressionAt(g, 0) == Ok(Parsed(Binary(Binary(a, op1, b), op2, c), |g|))
  {
    OpSymbolNamesOperation(op1);
    OpSymbolNamesOperation(op2);
    var n := |g|;
    ItemOfFactor(g, 0, a, k1);
    ExpressionAtItem(g, 0, a, k1);
    ItemOfFactor(g, p2, b, k2);
    ExpressionTailStep(g, a, k1, p2, op1, b, k2);
    ItemOfFactor(g, p3, c, n);
    ExpressionTailStep(g, Binary(a, op1, b), k2, p3, op2, c, n);
    ExpressionTailStop(g, Binary(Binary(a, op1, b), op2, c), n);
  }

  /** `a * b + c`: the product is one item of the sum. */
  lemma ProductSum(g: seq<string>, a: Expression, op1: Operation, b: Expression, op2: Operation, c: Expression,
                   k1: nat, p2: nat, k2: nat, p3: nat)
    requires ThreeFactors(g, a, op1, b, op2, c, k1, p2, k2, p3) && Level(op1) == 2 && Level(op2) == 1
    ensures ExpressionAt(g, 0) == Ok(Parsed(Binary(Binary(a, op1, b), op2, c), |g|))
  {
    OpSymbolNamesOperation(op1);
    OpSymbolNamesOperation(op2);
    var n := |g|;
    ItemAtFactor(g, 0, a, k1);
    ItemTailStep(g, a, k1, p2, op1, b, k2);
    ItemTailStop(g, Binary(a, op1, b), k2);
    ExpressionAtItem(g, 0, Binary(a, op1, b), k2);
    ItemOfFactor(g, p3, c, n);
    ExpressionTailStep(g, Binary(a, op1, b), k2, p3, op2, c, n);
    ExpressionTailStop(g, Binary(Binary(a, op1, b), op2, c), n);
  }

  /** `a + b * c`: the product is the right item of the sum. */
  lemma SumProduct(g: seq<string>, a: Expression, op1: Operation, b: Expression, op2: Operation, c: Expression,
                   k1: nat, p2: nat, k2: nat, p3: nat)
    requires ThreeFactors(g, a, op1, b, op2, c, k1, p2, k2, p3) && Level(op1) == 1 && Level(op2) == 2
    ensures ExpressionAt(g, 0) == Ok(Parsed(Binary(a, op1, Binary(b, op2, c)), |g|))
  {
    OpSymbolNamesOperation(op1);
    OpSymbolNamesOperation(op2);
    var n := |g|;
    ItemOfFactor(g, 0, a, k1);
    ExpressionAtItem(g, 0, a, k1);
    ItemAtFactor(g, p2, b, k2);
    ItemTailStep(g, b, k2, p3, op2, c, n);
    ItemTailStop(g, Binary(b, op2, c), n);
    ExpressionTailStep(g, a, k1, p2, op1, Binary(b, op2, c), n);
    ExpressionTailStop(g, Binary(a, op1, Binary(b, op2, c)), n);
  }

  /** `a * b * c`: both operations read by the loop of `parseItem`, the first one grouped first. */
  lemma ProductProduct(g: seq<string>, a: Expression, op1: Operation, b: Expression, op2: Operation, c: Expression,
                       k1: nat, p2: nat, k2: nat, p3: nat)
    requires ThreeFactors(g, a, op1, b, op2, c, k1, p2, k2, p3) && Level(op1) == 2 && Level(op2) == 2
    ensures ExpressionAt(g, 0) == Ok(Parsed(Binary(Binary(a, op1, b), op2, c), |g|))
  {
    var n := |g|;
    ItemAtFactor(g, 0, a, k1);
    ItemTailStep(g, a, k1, p2, op1, b, k2);
    ItemTailStep(g, Binary(a, op1, b), k2, p3, op2, c, n);
    ItemTailStop(g, Binary(Binary(a, op1, b), op2, c), n);
    ExpressionOfItem(g, Binary(Binary(a, op1, b), op2, c), n);
  }

  lemma ExpressionOfItem(g: seq<string>, e: Expression, n: nat)
    requires n == |g| && 0 < |g| && ItemAt(g, 0) == Ok(Parsed(e, n))
    ensures ExpressionAt(g, 0) == Ok(Parsed(e, n))
  {
    ExpressionAtItem(g, 0, e, n);
    ExpressionTailStop(g, e, n);
  }

  /**
   * Precedence and grouping: in `a op1 b op2 c` without parentheses the
   * operation that binds tighter is grouped first, and of two operations
   * that bind alike the left one is grouped first.
   */
  lemma ThreeOperands(a: Expression, op1: Operation, b: Expression, op2: Operation, c: Expression)
    requires Printable(a) && Printable(b) && Printable(c) && op1 != POW && op2 != POW
    ensures ParseFrom(ThreeOperandTokens(a, op1, b, op2, c), 0) ==
      Ok(if Level(op1) >= Level(op2) then Binary(Binary(a, op1, b), op2, c) else Binary(a, op1, Binary(b, op2, c)))
  {
    var g := ThreeOperandTokens(a, op1, b, op2, c);
    var k1 := |ExprTokens(a)|;
    var p2 := k1 + 1;
    var k2 := p2 + |ExprTokens(b)|;
    var p3 := k2 + 1;
    var n := |g|;
    ThreeLayout(a, op1, b, op2, c, k1, p2, k2, p3);
    FactorsOfThree(g, a, op1, b, op2, c, k1, p2, k2, p3);
    if Level(op1) == 1 && Level(op2) == 1 {
      SumSum(g, a, op1, b, op2, c, k1, p2, k2, p3);
    } else if Level(op1) == 2 && Level(op2) == 1 {
      ProductSum(g, a, op1, b, op2, c, k1, p2, k2, p3);
    } else if Level(op1) == 1 {
      SumProduct(g, a, op1, b, op2, c, k1, p2, k2, p3);
    } else {
      ProductProduct(g, a, op1, b, op2, c, k1, p2, k2, p3);
    }
  }

  lemma FactorsOfThree(g: seq<string>, a: Expression, op1: Operation, b: Expression, op2: Operation, c: Expression,
                       k1: nat, p2: nat, k2: nat, p3: nat)
    requires Printable(a) && Printable(b) && Printable(c) && op1 != POW && op2 != POW
    requires k1 == |ExprTokens(a)| && p2 == k1 + 1 && k2 == p2 + |ExprTokens(b)| && p3 == k2 + 1
    requires p3 + |ExprTokens(c)| == |g| && TokensAt(g, 0, ExprTokens(a)) && g[k1] == OpSymbol(op1)
    requires TokensAt(g, p2, ExprTokens(b)) && g[k2] == OpSymbol(op2) && TokensAt(g, p3, ExprTokens(c))
    ensures ThreeFactors(g, a, op1, b, op2, c, k1, p2, k2, p3)
  {
    OpSymbolNamesOperation(op1);
    OpSymbolNamesOperation(op2);
    FactorParses(g, 0, a, k1);
    FactorParses(g, p2, b, k2);
    FactorParses(g, p3, c, |g|);
  }

  /** A factor that fails makes the item and the expression that start with it fail the same way. */
  lemma FactorFailure(g: seq<string>, p: nat, err: Exception)
    requires p <= |g| && FactorAt(g, p) == Fail(err)
    ensures ExpressionAt(g, p) == Fail(err) && ParseFrom(g, p) == Fail(err)
  {
  }

  /** `-a op b`: the minus sign negates the factor `a` only. */
  lemma NegationBindsTightly(a: Expression, op: Operation, b: Expression)
    requires Printable(a) && Printable(b) && op != POW
    ensures ParseFrom(["-"] + ExprTokens(a) + [OpSymbol(op)] + ExprTokens(b), 0) == Ok(Binary(Negate(a), op, b))
  {
    var ta, tb := ExprTokens(a), ExprTokens(b);
    var g := ["-"] + ta + [OpSymbol(op)] + tb;
    var k1 := 1 + |ta|;
    var p2 := k1 + 1;
    var n := |g|;
    TokensAtPrefix(g, ["-"] + ta + [OpSymbol(op)], tb);
    TokensAtSplit(g, 0, ["-"] + ta, [OpSymbol(op)]);
    TokensAtSplit(g, 0, ["-"], ta);
    TokensAtOne(g, 0, "-");
    TokensAtOne(g, k1, OpSymbol(op));
    OpSymbolNamesOperation(op);
    FactorParses(g, 1, a, k1);
    FactorAtMinus(g, 0, 1, a, k1);
    FactorParses(g, p2, b, n);
    NegatedOperand(g, a, op, b, k1, p2);
  }

  lemma NegatedOperand(g: seq<string>, a: Expression, op: Operation, b: Expression, k1: nat, p2: nat)
    requires p2 == k1 + 1 && k1 < |g| && op != POW
    requires FactorAt(g, 0) == Ok(Parsed(Negate(a), k1)) && g[k1] == OpSymbol(op)
    requires FactorAt(g, p2) == Ok(Parsed(b, |g|))
    ensures ParseFrom(g, 0) == Ok(Binary(Negate(a), op, b))
  {
    OpSymbolNamesOperation(op);
    var n := |g|;
    var e := Binary(Negate(a), op, b);
    if op == TIMES || op == DIV {
      ItemAtFactor(g, 0, Negate(a), k1);
      ItemTailStep(g, Negate(a), k1, p2, op, b, n);
      ItemTailStop(g, e, n);
      ExpressionOfItem(g, e, n);
    } else {
      ItemOfFactor(g, 0, Negate(a), k1);
      ExpressionAtItem(g, 0, Negate(a), k1);
      ItemOfFactor(g, p2, b, n);
      ExpressionTailStep(g, Negate(a), k1, p2, op, b, n);
      ExpressionTailStop(g, e, n);
    }
  }

  /** `n ^ m ^ c`: the power is read from the right. */
  lemma PowerRightAssociative(n: Int32, m: Int32, c: Expression)
    requires n >= 0 && m >= 0 && Printable(c)
    ensures ParseFrom([NatToString(n), "^", NatToString(m), "^"] + ExprTokens(c), 0) ==
      Ok(Binary(Constant(n), POW, Binary(Constant(m), POW, c)))
  {
    var head := [NatToString(n), "^", NatToString(m), "^"];
    var g := head + ExprTokens(c);
    var end := |g|;
    var inner := Binary(Constant(m), POW, c);
    var e := Binary(Constant(n), POW, inner);
    TokensAtPrefix(g, head, ExprTokens(c));
    assert g[0] == NatToString(n) && g[1] == "^" && g[2] == NatToString(m) && g[3] == "^";
    FactorParses(g, 4, c, end);
    FactorAtPower(g, 2, 4, m, c, end);
    FactorAtPower(g, 0, 2, n, inner, end);
    ExpressionOfFactor(g, 0, e, end);
  }

  /**
   * `parse` fails with `IllegalStateException` when tokens remain that
   * neither loop reads: a token that is no operation, or a `^` that does
   * not follow a number (after `x` or `)`).
   */
  lemma LeftoverTokensFail(e: Expression, rest: seq<string>)
    requires Printable(e) && rest != []
    requires OperationOf(rest[0]) == None || (OperationOf(rest[0]) == Some(POW) && !e.Constant?)
    ensures ParseFrom(ExprTokens(e) + rest, 0) == Fail(IllegalState)
  {
    var g := ExprTokens(e) + rest;
    var k := |ExprTokens(e)|;
    TokensAtPrefix(g, ExprTokens(e), rest);
    assert g[k] == rest[0];
    OpSymbolNamesOperation(POW);
    FactorParses(g, 0, e, k);
    ExpressionOfFactor(g, 0, e, k);
  }

  /** An opening parenthesis that the tokens never close: the read past the end throws `IndexOutOfBoundsException`. */
  lemma ParenthesisUnclosed(a: Expression)
    requires Printable(a)
    ensures ParseFrom(["("] + ExprTokens(a), 0) == Fail(IndexOutOfBounds)
  {
    var g := ["("] + ExprTokens(a);
    TokensAtPrefix(g, ["("], ExprTokens(a));
    ParenParses(g, 1, a, |g|);
    FactorFailure(g, 0, IndexOutOfBounds);
  }

  /** An opening parenthesis followed by another token than `)` where the expression stops throws `IllegalStateException`. */
  lemma ParenthesisWrongCloser(a: Expression, t: string, rest: seq<string>)
    requires Printable(a) && t != ")" && OperationOf(t) == None
    ensures ParseFrom(["("] + ExprTokens(a) + [t] + rest, 0) == Fail(IllegalState)
  {
    var g := ["("] + ExprTokens(a) + [t] + rest;
    var k := 1 + |ExprTokens(a)|;
    TokensAtPrefix(g, ["("] + ExprTokens(a) + [t], rest);
    TokensAtSplit(g, 0, ["("] + ExprTokens(a), [t]);
    TokensAtSplit(g, 0, ["("], ExprTokens(a));
    TokensAtOne(g, 0, "(");
    TokensAtOne(g, k, t);
    ParenParses(g, 1, a, k);
    FactorFailure(g, 0, IllegalState);
  }

  // ---------------------------------------------------------------- calculate

  const Modulus: int := 0x1_0000_0000

  /** `a` and `b` are equal as Kotlin `Int`s: they differ by a multiple of 2^32. */
  predicate Congruent(a: int, b: int) {
    (a - b) % Modulus == 0
  }

  /** A Kotlin `Int` operation: the exact result brought back into range, wrapping around modulo 2^32. */
  function Wrap(v: int): (r: Int32)
    ensures Congruent(r, v)
    ensures IntMin <= v <= IntMax ==> r == v
  {
    var m := v % Modulus;
    if m <= IntMax then m else m - Modulus
  }

  function Distance(a: int, b: int): nat {
    Abs(a - b)
  }

  /** Kotlin `Double.toInt()` on a whole number: the `Int` nearest to it. */
  function Saturate(v: int): (r: Int32)
    ensures forall w: int :: IntMin <= w <= IntMax ==> Distance(r, v) <= Distance(w, v)
  {
    if v < IntMin then IntMin else if v > IntMax then IntMax else v
  }

  /**
   * One binary operation of `calculate` on the values of its operands.
   * `DIV` truncates toward zero and `POW` goes through `Double.pow`, which
   * is exact on whole numbers that a double holds; the result is then
   * clamped by `toInt()`.
   */
  function Apply(op: Operation, a: Int32, b: Int32): (r: Result<Int32>)
    ensures r.Fail? <==> (op == DIV && b == 0) || (op == POW && b < 0)
    ensures r.Fail? ==> r.error == Arithmetic
    ensures op == PLUS && r.Ok? ==> Congruent(r.value, a + b)
    ensures op == MINUS && r.Ok? ==> Congruent(r.value, a - b)
    ensures op == TIMES && r.Ok? ==> Congruent(r.value, a * b)
    ensures op == DIV && b != 0 && !(a == IntMin && b == -1) ==> r == Ok(Quot(a, b))
    ensures op == DIV && a == IntMin && b == -1 ==> r == Ok(IntMin)
    ensures op == POW && b >= 0 && IntMin <= Pow(a, b) <= IntMax ==> r == Ok(Pow(a, b))
  {
    match op
    case PLUS => Ok(Wrap(a + b))
    case MINUS => Ok(Wrap(a - b))
    case TIMES => Ok(Wrap(a * b))
    case DIV =>
      if b == 0 then Fail(Arithmetic)
      else
        QuotBound(a, b);
        Ok(Wrap(Quot(a, b)))
    case POW => if b < 0 then Fail(Arithmetic) else Ok(Saturate(Pow(a, b)))
  }

  /** The Kotlin quotient of two `Int`s is an `Int`, except for `IntMin / -1`. */
  lemma QuotBound(a: Int32, b: Int32)
    requires b != 0
    ensures a == IntMin && b == -1 ==> Quot(a, b) == IntMax + 1
    ensures !(a == IntMin && b == -1) ==> IntMin <= Quot(a, b) <= IntMax
  {
    var x, y := Abs(a), Abs(b);
    assert x / y <= x by {
      DivAtMost(x, y);
    }
    if a == IntMin && b == -1 {
    } else if x == IntMax + 1 && y == 1 {
      assert b == 1;
    } else if y == 1 {
    } else {
      assert x / y <= x / 2 by {
        DivMonotone(x, y);
      }
    }
  }

  lemma DivAtMost(x: nat, y: int)
    requires y >= 1
    ensures x / y <= x
  {
    assert x == (x / y) * y + x % y;
    if x / y > x {
      MulMonotone(x + 1, x / y, y);
    }
  }

  lemma DivMonotone(x: nat, y: int)
    requires y >= 2
    ensures x / y <= x / 2
  {
    var q := x / y;
    assert x == q * y + x % y;
    MulMonotone(2, y, q);
    assert q * 2 <= x;
  }

  /**
   * `calculate(expr, x)`: the value of the tree with `x` for the variable,
   * or the `ArithmeticException` it throws. `DIV` evaluates its right
   * operand, and checks it, before its left one.
   */
  function Calculate(e: Expression, x: Int32): (r: Result<Int32>)
    ensures r.Fail? ==> r.error == Arithmetic
  {
    match e
    case Variable => Ok(x)
    case Constant(v) => Ok(v)
    case Negate(a) =>
      (match Calculate(a, x)
       case Fail(err) => Fail(err)
       case Ok(v) => Ok(Wrap(-(v as int))))
    case Binary(l, op, r) =>
      if op == DIV then
        (match Calculate(r, x)
         case Fail(err) => Fail(err)
         case Ok(d) =>
           if d == 0 then Fail(Arithmetic)
           else
             match Calculate(l, x)
             case Fail(err) => Fail(err)
             case Ok(n) => Apply(DIV, n, d))
      else
        (match Calculate(l, x)
         case Fail(err) => Fail(err)
         case Ok(a) =>
           match Calculate(r, x)
           case Fail(err) => Fail(err)
           case Ok(b) => Apply(op, a, b))
  }

  /** The trees `calculate` evaluates with ring operations only: no `DIV` and no `POW`. */
  predicate RingOnly(e: Expression) {
    match e
    case Variable => true
    case Constant(_) => true
    case Negate(a) => RingOnly(a)
    case Binary(l, op, r) => op != DIV && op != POW && RingOnly(l) && RingOnly(r)
  }

  /** The value of a ring-only tree on unbounded integers. */
  function Exact(e: Expression, x: int): int
    requires RingOnly(e)
  {
    match e
    case Variable => x
    case Constant(v) => v
    case Negate(a) => -Exact(a, x)
    case Binary(l, op, r) =>
      if op == PLUS then Exact(l, x) + Exact(r, x)
      else if op == MINUS then Exact(l, x) - Exact(r, x)
      else Exact(l, x) * Exact(r, x)
  }

  lemma CongruentWitness(a: int, b: int) returns (k: int)
    requires Congruent(a, b)
    ensures a == b + Modulus * k
  {
    k := (a - b) / Modulus;
  }

  lemma CongruentOf(a: int, b: int, k: int)
    requires a == b + Modulus * k
    ensures Congruent(a, b)
  {
  }

  lemma CongruentSum(a: int, a': int, b: int, b': int, sign: int)
    requires Congruent(a, a') && Congruent(b, b') && (sign == 1 || sign == -1)
    ensures Congruent(a + sign * b, a' + sign * b')
  {
    var i := CongruentWitness(a, a');
    var j := CongruentWitness(b, b');
    assert a + sign * b == a' + sign * b' + Modulus * (i + sign * j);
    CongruentOf(a + sign * b, a' + sign * b', i + sign * j);
  }

  lemma CongruentProduct(a: int, a': int, b: int, b': int)
    requires Congruent(a, a') && Congruent(b, b')
    ensures Congruent(a * b, a' * b')
  {
    var i := CongruentWitness(a, a');
    var j := CongruentWitness(b, b');
    var k := i * b' + a' * j + Modulus * i * j;
    calc {
      a * b;
      (a' + Modulus * i) * (b' + Modulus * j);
      a' * b' + Modulus * i * b' + a' * (Modulus * j) + Modulus * i * (Modulus * j);
      a' * b' + Modulus * k;
    }
    CongruentOf(a * b, a' * b', k);
  }

  /**
   * Without `DIV` and `POW` the evaluation never throws, and its value is
   * the exact value modulo 2^32: Kotlin `Int` arithmetic wraps around.
   */
  lemma {:induction false} CalculateRingOnly(e: Expression, x: Int32)
    requires RingOnly(e)
    ensures Calculate(e, x).Ok? && Congruent(Calculate(e, x).value, Exact(e, x))
  {
    match e
    case Variable =>
    case Constant(_) =>
    case Negate(a) =>
      CalculateRingOnly(a, x);
      NegateCongruent(Calculate(a, x).value, Exact(a, x));
    case Binary(l, op, r) =>
      CalculateRingOnly(l, x);
      CalculateRingOnly(r, x);
      ApplyCongruent(op, Calculate(l, x).value, Exact(l, x), Calculate(r, x).value, Exact(r, x));
  }

  lemma NegateCongruent(v: Int32, exact: int)
    requires Congruent(v, exact)
    ensures Congruent(Wrap(-(v as int)), -exact)
  {
    CongruentSum(0, 0, v, exact, -1);
    CongruentTransitive(Wrap(-(v as int)), -(v as int), -exact);
  }

  lemma ApplyCongruent(op: Operation, a: Int32, ea: int, b: Int32, eb: int)
    requires op != DIV && op != POW && Congruent(a, ea) && Congruent(b, eb)
    ensures Apply(op, a, b).Ok?
    ensures Congruent(Apply(op, a, b).value,
                      if op == PLUS then ea + eb else if op == MINUS then ea - eb else ea * eb)
  {
    var c := Apply(op, a, b).value;
    if op == TIMES {
      CongruentProduct(a, ea, b, eb);
      CongruentTransitive(c, a * b, ea * eb);
    } else {
      var sign := if op == PLUS then 1 else -1;
      CongruentSum(a, ea, b, eb, sign);
      assert Congruent(c, a + sign * b);
      CongruentTransitive(c, a + sign * b, ea + sign * eb);
    }
  }

  lemma CongruentTransitive(a: int, b: int, c: int)
    requires Congruent(a, b) && Congruent(b, c)
    ensures Congruent(a, c)
  {
    var i := CongruentWitness(a, b);
    var j := CongruentWitness(b, c);
    CongruentOf(a, c, i + j);
  }

  /** Negating twice gives the value back, `Int.MIN_VALUE` included. */
  lemma CalculateNegateTwice(e: Expression, x: Int32)
    ensures Calculate(Negate(Negate(e)), x) == Calculate(e, x)
  {
    if Calculate(e, x).Ok? {
      WrapNegateTwice(Calculate(e, x).value);
    }
  }

  /** Negating a Kotlin `Int` twice gives it back, `Int.MIN_VALUE` included. */
  lemma WrapNegateTwice(v: Int32)
    ensures Wrap(-(Wrap(-(v as int)) as int)) == v
  {
    if v == IntMin {
      assert Wrap(-(v as int)) == IntMin;
    } else {
      assert Wrap(-(v as int)) == -v;
    }
  }

  /** The tree mentions `x`. */
  predicate HasVariable(e: Expression) {
    match e
    case Variable => true
    case Constant(_) => false
    case Negate(a) => HasVariable(a)
    case Binary(l, _, r) => HasVariable(l) || HasVariable(r)
  }

  /** A tree without `x` has the same value, or throws the same way, whatever `x` is. */
  lemma {:induction false} CalculateIgnoresVariable(e: Expression, x: Int32, y: Int32)
    requires !HasVariable(e)
    ensures Calculate(e, x) == Calculate(e, y)
  {
    match e
    case Variable =>
    case Constant(_) =>
    case Negate(a) =>
      CalculateIgnoresVariable(a, x, y);
    case Binary(l, _, r) =>
      CalculateIgnoresVariable(l, x, y);
      CalculateIgnoresVariable(r, x, y);
  }
}
