/** The token hierarchy of src/Core/Token.cs. A nested expression
    (src/Core/Expression.cs) is itself a token in the source; here it is the
    variant `NestedExpression`, whose token list is held by value. */
module Tokens {

  /** `StartToken` is the tokenizer's sentinel and always sits at position 0;
      `AndToken` and `OrToken` are the two `OperatorToken`s; the parenthesis
      tokens and `PolicyNameToken` are the other positional tokens;
      `ResultToken` holds an already reduced value and has no position. */
  datatype Token =
    | StartToken
    | AndToken(position: int)
    | OrToken(position: int)
    | OpenParenthesisToken(position: int)
    | CloseParenthesisToken(position: int)
    | PolicyNameToken(position: int, name: string)
    | ResultToken(result: bool)
    | NestedExpression(tokens: seq<Token>)
  {
    /** `PositionalToken`: every token the tokenizer can produce. */
    predicate IsPositional() {
      !ResultToken? && !NestedExpression?
    }

    /** `OperatorToken`. */
    predicate IsOperator() {
      AndToken? || OrToken?
    }

    /** `ParenthesisToken`. */
    predicate IsParenthesis() {
      OpenParenthesisToken? || CloseParenthesisToken?
    }

    /** The tokens the reducer can resolve to a value. */
    predicate IsOperand() {
      PolicyNameToken? || ResultToken? || NestedExpression?
    }

    function Position(): int
      requires IsPositional()
    {
      if StartToken? then 0 else position
    }
  }

  /** The `ToString` overrides. `StartToken` keeps the default record rendering;
      a result renders as the bool it holds; a nested expression renders its
      own list (the enclosing list adds the parentheses, see `Join`). */
  function ToString(t: Token): string
    decreases t
  {
    match t
    case StartToken => "StartToken { Position = 0 }"
    case AndToken(_) => "AND"
    case OrToken(_) => "OR"
    case OpenParenthesisToken(_) => "("
    case CloseParenthesisToken(_) => ")"
    case PolicyNameToken(_, name) => name
    case ResultToken(b) => if b then "True" else "False"
    case NestedExpression(ts) => Join(ts)
  }

  /** `Expression.ToString`: the tokens joined by single spaces, each nested
      expression wrapped in parentheses. */
  function Join(ts: seq<Token>): string
    decreases ts
  {
    if ts == [] then ""
    else
      var head := if ts[0].NestedExpression? then "(" + ToString(ts[0]) + ")" else ToString(ts[0]);
      if |ts| == 1 then head else head + " " + Join(ts[1..])
  }

  /** Writing out two non-empty lists one after the other is writing out each
      and putting a single space between them. */
  lemma {:induction false} JoinAppend(a: seq<Token>, b: seq<Token>)
    requires a != [] && b != []
    ensures Join(a + b) == Join(a) + " " + Join(b)
    decreases |a|
  {
    assert (a + b)[0] == a[0];
    if |a| > 1 {
      assert (a + b)[1..] == a[1..] + b;
      JoinAppend(a[1..], b);
    } else {
      assert (a + b)[1..] == b;
    }
  }

  /** The renderings of the token kinds, and the kinds that carry a position. */
  lemma TokenRendering(p: int, name: string)
    ensures ToString(AndToken(p)) == "AND" && ToString(OrToken(p)) == "OR"
    ensures ToString(OpenParenthesisToken(p)) == "(" && ToString(CloseParenthesisToken(p)) == ")"
    ensures ToString(PolicyNameToken(p, name)) == name
    ensures ToString(ResultToken(true)) == "True" && ToString(ResultToken(false)) == "False"
    ensures StartToken.IsPositional() && StartToken.Position() == 0
    ensures AndToken(p).IsOperator() && OrToken(p).IsOperator()
    ensures !ResultToken(true).IsPositional() && !ResultToken(false).IsPositional()
  {
  }

  /** The operator tokens are exactly `AndToken` and `OrToken`. */
  lemma OperatorsAreAndOr(t: Token)
    ensures t.IsOperator() <==> t.AndToken? || t.OrToken?
    ensures t.IsOperator() ==> t.IsPositional() && !t.IsOperand() && !t.IsParenthesis()
  {
  }
}
