/** The licence expression scanner (`scripts/ggctl_release.py`, `license_expression`). */
module LicenseExpression {

  type Token = string

  const OPERATORS: set<Token> := {"AND", "OR", "WITH"}

  predicate IsAlphanumeric(c: char) {
    'A' <= c <= 'Z' || 'a' <= c <= 'z' || '0' <= c <= '9'
  }

  /** `[A-Za-z0-9][A-Za-z0-9.+-]*`, and not an operator. */
  predicate IsLicenseId(token: Token) {
    && token != "" && IsAlphanumeric(token[0])
    && (forall c <- token :: IsAlphanumeric(c) || c == '.' || c == '+' || c == '-')
    && token !in OPERATORS
  }

  /** The bytes an identifier starts with, and what it may hold besides. */
  predicate IsIdStart(b: int) { 48 <= b <= 57 || 65 <= b <= 90 || 97 <= b <= 122 }

  lemma LicenseIdExact(token: Token)
    ensures IsLicenseId(token) <==>
            && |token| > 0 && IsIdStart(token[0] as int)
            && (forall i :: 0 <= i < |token| ==> IsIdStart(token[i] as int) || token[i] in "+-.")
            && token != "AND" && token != "OR" && token != "WITH"
  {
    assert forall c: char :: IsAlphanumeric(c) <==> IsIdStart(c as int);
    assert forall c: char :: c in "+-." <==> c == '+' || c == '-' || c == '.';
    assert (forall c <- token :: IsAlphanumeric(c) || c in "+-.")
      <==> forall i :: 0 <= i < |token| ==> IsAlphanumeric(token[i]) || token[i] in "+-.";
  }

  /** What the scanner does with one token: the new depth and whether it now
      expects an operand, or a refusal. */
  datatype State = Scanning(depth: nat, expectOperand: bool) | Refused

  function Step(state: State, token: Token): State {
    if state.Refused? then Refused
    else if token == "(" && state.expectOperand then Scanning(state.depth + 1, true)
    else if token == ")" && !state.expectOperand && state.depth > 0 then Scanning(state.depth - 1, false)
    else if token in OPERATORS && !state.expectOperand then Scanning(state.depth, true)
    else if state.expectOperand && IsLicenseId(token) then Scanning(state.depth, false)
    else Refused
  }

  /** The scan of `tokens` from `state` ends with every group closed and no operand missing. */
  predicate Accepts(state: State, tokens: seq<Token>)
    decreases |tokens|
  {
    if tokens == [] then state == Scanning(0, false) else Accepts(Step(state, tokens[0]), tokens[1..])
  }

  /** The token loop of `license_expression`: whether the value is an expression. */
  method Scan(tokens: seq<Token>) returns (ok: bool)
    ensures ok <==> exists e :: IsExpression(e) && Tokens(e) == tokens
  {
    var depth: nat, expectOperand := 0, true;
    assert tokens[0..] == tokens;
    ScannerIsGrammar(tokens);
    for i := 0 to |tokens|
      invariant Accepts(Scanning(0, true), tokens) == Accepts(Scanning(depth, expectOperand), tokens[i..])
    {
      hide IsLicenseId;
      var token := tokens[i];
      assert tokens[i..][1..] == tokens[i + 1..];
      if token == "(" && expectOperand {
        depth := depth + 1;
      } else if token == ")" && !expectOperand && depth > 0 {
        depth := depth - 1;
      } else if token in OPERATORS && !expectOperand {
        expectOperand := true;
      } else if expectOperand && IsLicenseId(token) {
        expectOperand := false;
      } else {
        RefusedStays(tokens[i + 1..]);
        return false;
      }
    }
    ok := tokens != [] && depth == 0 && !expectOperand;
  }

  lemma {:induction false} RefusedStays(tokens: seq<Token>)
    ensures !Accepts(Refused, tokens)
  {
    if tokens != [] {
      RefusedStays(tokens[1..]);
    }
  }

  // The grammar: E ::= O | O op E, O ::= id | ( E ).

  datatype Operand = License(id: Token) | Group(inner: Expression)
  datatype Expression = Single(operand: Operand) | Chain(operand: Operand, operator: Token, rest: Expression)

  predicate IsOperand(o: Operand) {
    match o
    case License(id) => IsLicenseId(id)
    case Group(inner) => IsExpression(inner)
  }

  predicate IsExpression(e: Expression) {
    match e
    case Single(o) => IsOperand(o)
    case Chain(o, operator, rest) => IsOperand(o) && operator in OPERATORS && IsExpression(rest)
  }

  function OperandTokens(o: Operand): (tokens: seq<Token>)
    ensures tokens != []
  {
    match o
    case License(id) => [id]
    case Group(inner) => ["("] + Tokens(inner) + [")"]
  }

  function Tokens(e: Expression): (tokens: seq<Token>)
    ensures tokens != []
  {
    match e
    case Single(o) => OperandTokens(o)
    case Chain(o, operator, rest) => OperandTokens(o) + [operator] + Tokens(rest)
  }

  /** Scanning a derivable operand leaves the depth as it was. */
  lemma {:induction false} OperandScans(o: Operand, depth: nat, later: seq<Token>)
    requires IsOperand(o)
    ensures Accepts(Scanning(depth, true), OperandTokens(o) + later) <==> Accepts(Scanning(depth, false), later)
    decreases o
  {
    hide IsLicenseId;
    var all := OperandTokens(o) + later;
    match o {
      case License(id) =>
        assert all[0] == id && all[1..] == later;
        IdIsNoParenthesis(id);
      case Group(inner) =>
        var close := [")"] + later;
        assert all[0] == "(" && all[1..] == Tokens(inner) + close;
        ExpressionScans(inner, depth + 1, close);
        assert close[0] == ")" && close[1..] == later;
    }
  }

  lemma IdIsNoParenthesis(id: Token)
    requires IsLicenseId(id)
    ensures id != "(" && id != ")" && id !in OPERATORS
  {
  }

  lemma {:induction false} ExpressionScans(e: Expression, depth: nat, later: seq<Token>)
    requires IsExpression(e)
    ensures Accepts(Scanning(depth, true), Tokens(e) + later) <==> Accepts(Scanning(depth, false), later)
    decreases e
  {
    hide IsOperand, OperandTokens;
    match e {
      case Single(o) => OperandScans(o, depth, later);
      case Chain(o, operator, rest) =>
        var after := [operator] + (Tokens(rest) + later);
        assert Tokens(e) + later == OperandTokens(o) + after;
        OperandScans(o, depth, after);
        assert after[0] == operator && after[1..] == Tokens(rest) + later;
        ExpressionScans(rest, depth, later);
    }
  }

  /** After an operand or expression at some depth: the end, or what may follow. */
  predicate Continues(depth: nat, later: seq<Token>) {
    Accepts(Scanning(depth, false), later)
  }

  /** Accepted tokens where an operand is expected start with one. */
  lemma {:induction false} ParseOperand(depth: nat, tokens: seq<Token>) returns (o: Operand, later: seq<Token>)
    requires Accepts(Scanning(depth, true), tokens)
    ensures IsOperand(o) && tokens == OperandTokens(o) + later && Continues(depth, later)
    decreases |tokens|, 0
  {
    hide IsLicenseId;
    var first, rest := tokens[0], tokens[1..];
    assert tokens == [first] + rest;
    if first == "(" {
      var inner, after := ParseExpression(depth + 1, rest);
      assert after[0] == ")";
      o, later := Group(inner), after[1..];
      assert after == [")"] + later;
      assert ["("] + (Tokens(inner) + ([")"] + later)) == ["("] + Tokens(inner) + [")"] + later;
    } else {
      if !IsLicenseId(first) {
        RefusedStays(rest);
      }
      o, later := License(first), rest;
    }
  }

  /** Accepted tokens where an operand is expected start with an expression
      that ends at the end or before a closing parenthesis. */
  lemma {:induction false} ParseExpression(depth: nat, tokens: seq<Token>) returns (e: Expression, later: seq<Token>)
    requires Accepts(Scanning(depth, true), tokens)
    ensures IsExpression(e) && tokens == Tokens(e) + later && Continues(depth, later)
    ensures if later == [] then depth == 0 else later[0] == ")" && depth > 0
    decreases |tokens|, 1
  {
    hide IsOperand;
    var o, after := ParseOperand(depth, tokens);
    if after != [] && after[0] in OPERATORS {
      var rest;
      assert after[0] != "(" && after[0] != ")";
      rest, later := ParseExpression(depth, after[1..]);
      e := Chain(o, after[0], rest);
      assert after == [after[0]] + after[1..];
      assert OperandTokens(o) + ([after[0]] + (Tokens(rest) + later)) ==
          OperandTokens(o) + [after[0]] + Tokens(rest) + later;
    } else {
      e, later := Single(o), after;
      if later != [] {
        RefusedStays(later[1..]);
      }
    }
  }

  /** The one-counter scanner accepts exactly the token strings of the grammar. */
  lemma ScannerIsGrammar(tokens: seq<Token>)
    ensures Accepts(Scanning(0, true), tokens) <==> exists e :: IsExpression(e) && Tokens(e) == tokens
  {
    if Accepts(Scanning(0, true), tokens) {
      var e, later := ParseExpression(0, tokens);
      assert tokens == Tokens(e);
    }
    forall e | IsExpression(e) && Tokens(e) == tokens ensures Accepts(Scanning(0, true), tokens) {
      ExpressionScans(e, 0, []);
      assert tokens + [] == tokens;
    }
  }

  predicate Ends(later: seq<Token>) { later == [] || later[0] == ")" }

  lemma {:induction false} OperandUnique(o: Operand, p: Operand, laterO: seq<Token>, laterP: seq<Token>)
    requires IsOperand(o) && IsOperand(p) && OperandTokens(o) + laterO == OperandTokens(p) + laterP
    ensures o == p && laterO == laterP
    decreases o
  {
    hide IsLicenseId;
    var all := OperandTokens(o) + laterO;
    assert all[0] == OperandTokens(o)[0] == OperandTokens(p)[0];
    if o.License? { IdIsNoParenthesis(o.id); }
    if p.License? { IdIsNoParenthesis(p.id); }
    if o.License? {
      assert all[1..] == laterO == laterP;
    } else {
      var closeO, closeP := [")"] + laterO, [")"] + laterP;
      assert all[1..] == Tokens(o.inner) + closeO == Tokens(p.inner) + closeP;
      ExpressionUnique(o.inner, p.inner, closeO, closeP);
      assert closeO[1..] == laterO && closeP[1..] == laterP;
    }
  }

  /** The grammar is unambiguous: a token string has one expression tree. */
  lemma {:induction false} ExpressionUnique(e: Expression, g: Expression, laterE: seq<Token>, laterG: seq<Token>)
    requires IsExpression(e) && IsExpression(g) && Ends(laterE) && Ends(laterG)
    requires Tokens(e) + laterE == Tokens(g) + laterG
    ensures e == g && laterE == laterG
    decreases e
  {
    hide IsOperand, OperandTokens;
    var afterE := if e.Single? then laterE else [e.operator] + (Tokens(e.rest) + laterE);
    var afterG := if g.Single? then laterG else [g.operator] + (Tokens(g.rest) + laterG);
    assert Tokens(e) + laterE == OperandTokens(e.operand) + afterE;
    assert Tokens(g) + laterG == OperandTokens(g.operand) + afterG;
    OperandUnique(e.operand, g.operand, afterE, afterG);
    assert e.Chain? ==> afterE[0] == e.operator && afterE[1..] == Tokens(e.rest) + laterE;
    assert g.Chain? ==> afterG[0] == g.operator && afterG[1..] == Tokens(g.rest) + laterG;
    if e.Chain? {
      ExpressionUnique(e.rest, g.rest, laterE, laterG);
    }
  }
}
