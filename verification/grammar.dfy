/** The token language the tokenizer of src/Core/PolicyEvaluator.cs accepts,
    stated over tokens alone: which token may follow which, how deep
    parentheses may go, how a list may end, which names are policy names, and
    where each token sits in the text. */
module Grammar {
  import opened Base
  import opened Tokens

  // ---------------------------------------------------------------------------
  // Characters (char.IsLetter and char.IsLetterOrDigit, here on ASCII)

  predicate IsLetter(c: char) {
    'A' <= c <= 'Z' || 'a' <= c <= 'z'
  }

  predicate IsDigit(c: char) {
    '0' <= c <= '9'
  }

  /** The characters that end a word of the expression. */
  predicate IsDelimiter(c: char) {
    c == ' ' || c == '(' || c == ')'
  }

  /** A well-formed policy name: a letter, then letters, digits or underscores. */
  predicate IsPolicyName(s: string) {
    |s| > 0 && IsLetter(s[0]) &&
    forall i | 1 <= i < |s| :: IsLetter(s[i]) || IsDigit(s[i]) || s[i] == '_'
  }

  /** A name the tokenizer turns into a `PolicyNameToken`: well formed, not one
      of the two keywords (matched with their exact case) and, when the options
      hold a name checker, accepted by it. */
  predicate AcceptedName(name: string, checker: Option<string -> bool>) {
    IsPolicyName(name) && name != "AND" && name != "OR" && (checker.Some? ==> checker.value(name))
  }

  // ---------------------------------------------------------------------------
  // Placement and nesting

  /** The token kinds that may follow `prev`: `(` after the start or an
      operator, `)` after a policy name, an operator after a policy name or
      `)`, a policy name after the start, an operator or `(`. Nothing else is
      ever emitted. */
  predicate Placed(prev: Token, t: Token) {
    match t
    case OpenParenthesisToken(_) => prev.StartToken? || prev.IsOperator()
    case CloseParenthesisToken(_) => prev.PolicyNameToken?
    case AndToken(_) => prev.PolicyNameToken? || prev.CloseParenthesisToken?
    case OrToken(_) => prev.PolicyNameToken? || prev.CloseParenthesisToken?
    case PolicyNameToken(_, _) => prev.StartToken? || prev.IsOperator() || prev.OpenParenthesisToken?
    case _ => false
  }

  /** One level of parentheses: `(` only when none is open, `)` only when one is. */
  predicate NestingAllowed(t: Token, nested: bool) {
    (t.OpenParenthesisToken? ==> !nested) && (t.CloseParenthesisToken? ==> nested)
  }

  function NestingAfter(t: Token, nested: bool): bool {
    if t.OpenParenthesisToken? then true else if t.CloseParenthesisToken? then false else nested
  }

  /** `ts` may follow a token `prev` with a parenthesis open or not, and end
      the expression: the last token is a policy name or `)` and nothing is
      left open. */
  predicate Accepts(ts: seq<Token>, prev: Token, nested: bool)
    decreases |ts|
  {
    if ts == [] then (prev.PolicyNameToken? || prev.CloseParenthesisToken?) && !nested
    else Placed(prev, ts[0]) && NestingAllowed(ts[0], nested) && Accepts(ts[1..], ts[0], NestingAfter(ts[0], nested))
  }

  /** The language of a whole expression. */
  predicate IsExpression(ts: seq<Token>) {
    Accepts(ts, StartToken, false)
  }

  predicate NamesAccepted(ts: seq<Token>, checker: Option<string -> bool>) {
    forall i | 0 <= i < |ts| && ts[i].PolicyNameToken? :: AcceptedName(ts[i].name, checker)
  }

  // ---------------------------------------------------------------------------
  // Positions

  /** The rendering of the positional token `t` is the text of `s` at its offset. */
  predicate TextAt(s: string, t: Token) {
    t.IsPositional() && !t.StartToken? && 0 <= t.position &&
    t.position + |ToString(t)| <= |s| && s[t.position..t.position + |ToString(t)|] == ToString(t)
  }

  /** Every token of `ts` sits where its text is, at offset `from` or later,
      each strictly after the one before. */
  predicate Located(s: string, ts: seq<Token>, from: int)
    decreases |ts|
  {
    ts == [] ||
    (TextAt(s, ts[0]) && from <= ts[0].position && Located(s, ts[1..], ts[0].position + 1))
  }

  /** The offsets of `ts` when it is written out by `Join` (single spaces
      between tokens), the first token at offset `p`. */
  predicate Spaced(ts: seq<Token>, p: int)
    decreases |ts|
  {
    ts == [] ||
    (ts[0].IsPositional() && !ts[0].StartToken? && ts[0].position == p &&
     Spaced(ts[1..], p + |ToString(ts[0])| + 1))
  }
}
