/** The one-pass tokenizer of src/Core/PolicyEvaluator.cs (Tokenize and
    IsValidPolicyName): a scan over the characters of the expression that
    remembers the last token emitted and whether a parenthesis is open, and
    either yields the positional tokens or stops at the first syntax error,
    located at a character offset. */
module Tokenizer {
  import opened Base
  import opened Tokens
  import opened Grammar

  // ---------------------------------------------------------------------------
  // Words

  /** The end of the word starting at `p`: the first delimiter at or after `p`,
      or the end of the text. */
  function WordEnd(s: string, p: int): (e: int)
    requires 0 <= p <= |s|
    ensures p <= e <= |s|
    ensures forall k | p <= k < e :: !IsDelimiter(s[k])
    ensures e == |s| || IsDelimiter(s[e])
    decreases |s| - p
  {
    if p == |s| || IsDelimiter(s[p]) then p else WordEnd(s, p + 1)
  }

  /** `WordEnd` is the only offset with the two properties of its contract. */
  lemma {:induction false} WordEndIsFirst(s: string, p: int, e: int)
    requires 0 <= p <= e <= |s|
    requires forall k | p <= k < e :: !IsDelimiter(s[k])
    requires e == |s| || IsDelimiter(s[e])
    ensures WordEnd(s, p) == e
    decreases e - p
  {
    if p < e {
      WordEndIsFirst(s, p + 1, e);
    }
  }

  /** What `IsValidPolicyName` decides, checking the characters in turn. */
  method IsValidPolicyName(policyName: string) returns (valid: bool)
    ensures valid == IsPolicyName(policyName)
  {
    if |policyName| == 0 {
      return false;
    }
    if !IsLetter(policyName[0]) {
      return false;
    }
    for i := 1 to |policyName|
      invariant forall j | 1 <= j < i :: IsLetter(policyName[j]) || IsDigit(policyName[j]) || policyName[j] == '_'
    {
      if !(IsLetter(policyName[i]) || IsDigit(policyName[i])) && policyName[i] != '_' {
        return false;
      }
    }
    return true;
  }

  // ---------------------------------------------------------------------------
  // The scan as a function

  /** The token for the word `identifier` at offset `position`, after `token`:
      the keywords `AND` and `OR` (exact case) need a policy name or `)` before
      them; any other word must be a valid policy name, placed after the
      start, an operator or `(`, and accepted by the name checker if any. */
  function Word(identifier: string, position: int, token: Token, checker: Option<string -> bool>): Result<Token> {
    if identifier == "AND" then
      if !token.PolicyNameToken? && !token.CloseParenthesisToken? then
        Err(SyntaxError(position, "Invalid place for an AND operator."))
      else Ok(AndToken(position))
    else if identifier == "OR" then
      if !token.PolicyNameToken? && !token.CloseParenthesisToken? then
        Err(SyntaxError(position, "Invalid place for an OR operator."))
      else Ok(OrToken(position))
    else NameWord(identifier, position, token, checker)
  }

  /** A word that is not a keyword: it must be a valid policy name (checked
      first), placed after the start, an operator or `(`, and accepted by the
      name checker if there is one. */
  function NameWord(identifier: string, position: int, token: Token, checker: Option<string -> bool>): Result<Token> {
    if !IsPolicyName(identifier) then
      Err(SyntaxError(position, "Invalid policy name or unrecognized token in expression: " + identifier + "."))
    else if !token.StartToken? && !token.IsOperator() && !token.OpenParenthesisToken? then
      Err(SyntaxError(position, "Invalid place for a policy name - " + identifier + "."))
    else if checker.Some? && !checker.value(identifier) then
      Err(SyntaxError(position, "A policy named " + identifier + " does not exist."))
    else Ok(PolicyNameToken(position, identifier))
  }

  const BlankMessage: string := "Expression is blank."

  /** The message `EvaluateExpression` rejects the empty text with, before
      the tokenizer runs. */
  const EmptyMessage: string := "Expression is empty."

  /** The checks once the text is exhausted at offset `position`. */
  function Finish(position: int, token: Token, nested: bool): Result<seq<Token>> {
    if token.StartToken? then
      Err(SyntaxError(0, BlankMessage))
    else if !token.PolicyNameToken? && !token.CloseParenthesisToken? then
      Err(SyntaxError(position, "Expression should end with a policy name or a closing parenthesis."))
    else if nested then
      Err(SyntaxError(position, "Nested expression is not closed."))
    else Ok([])
  }

  /** `t` followed by the tokens of `r`, or the error of `r`. */
  function Emit(t: Token, r: Result<seq<Token>>): Result<seq<Token>> {
    if r.Ok? then Ok([t] + r.value) else r
  }

  /** The tokens of `s` from offset `position` on, the last token emitted being
      `token` and a parenthesis being open when `nested` holds. */
  function Scan(s: string, checker: Option<string -> bool>, position: int, token: Token, nested: bool): Result<seq<Token>>
    requires 0 <= position <= |s|
    decreases |s| - position
  {
    if position == |s| then Finish(position, token, nested)
    else if s[position] == ' ' then Scan(s, checker, position + 1, token, nested)
    else if s[position] == '(' then
      if !token.StartToken? && !token.IsOperator() then
        Err(SyntaxError(position, "Invalid place for an opening parenthesis."))
      else if nested then
        Err(SyntaxError(position, "Cannot nest more than one level."))
      else
        var t := OpenParenthesisToken(position);
        Emit(t, Scan(s, checker, position + 1, t, true))
    else if s[position] == ')' then
      if !token.PolicyNameToken? then
        Err(SyntaxError(position, "Invalid place for a closing parenthesis."))
      else if !nested then
        Err(SyntaxError(position, "Cannot close a parenthesis that was not opened."))
      else
        var t := CloseParenthesisToken(position);
        Emit(t, Scan(s, checker, position + 1, t, false))
    else
      var e := WordEnd(s, position);
      match Word(s[position..e], position, token, checker)
      case Err(err) => Err(err)
      case Ok(t) => Emit(t, Scan(s, checker, e, t, nested))
  }

  /** The tokens of the whole expression. */
  function TokenizeSpec(s: string, checker: Option<string -> bool>): Result<seq<Token>> {
    Scan(s, checker, 0, StartToken, false)
  }

  // ---------------------------------------------------------------------------
  // The scan as the source runs it

  /** `acc` followed by the tokens of `r`, or the error of `r`. */
  function After(acc: seq<Token>, r: Result<seq<Token>>): Result<seq<Token>> {
    if r.Ok? then Ok(acc + r.value) else r
  }

  lemma AfterNothing(r: Result<seq<Token>>)
    ensures After([], r) == r
  {
    if r.Ok? {
      assert [] + r.value == r.value;
    }
  }

  lemma AfterEmit(acc: seq<Token>, t: Token, r: Result<seq<Token>>)
    ensures After(acc, Emit(t, r)) == After(acc + [t], r)
  {
    if r.Ok? {
      assert acc + ([t] + r.value) == acc + [t] + r.value;
    }
  }

  /** `Tokenize`: the character loop, with the tokens collected eagerly (the
      source yields them lazily, but its only caller forces them all). */
  method Tokenize(expression: string, checker: Option<string -> bool>) returns (r: Result<seq<Token>>)
    ensures r == TokenizeSpec(expression, checker)
  {
    var token := StartToken;
    var nested := false;
    var tokens: seq<Token> := [];
    var position := 0;
    AfterNothing(Scan(expression, checker, position, token, nested));
    while position < |expression|
      invariant 0 <= position <= |expression|
      invariant TokenizeSpec(expression, checker) == After(tokens, Scan(expression, checker, position, token, nested))
      decreases |expression| - position
    {
      var c := expression[position];
      if c == ' ' {
        position := position + 1;
      } else if c == '(' {
        if !token.StartToken? && !token.IsOperator() {
          return Err(SyntaxError(position, "Invalid place for an opening parenthesis."));
        }
        if nested {
          return Err(SyntaxError(position, "Cannot nest more than one level."));
        }
        var opToken := OpenParenthesisToken(position);
        AfterEmit(tokens, opToken, Scan(expression, checker, position + 1, opToken, true));
        tokens := tokens + [opToken];
        token := opToken;
        nested := true;
        position := position + 1;
      } else if c == ')' {
        if !token.PolicyNameToken? {
          return Err(SyntaxError(position, "Invalid place for a closing parenthesis."));
        }
        if !nested {
          return Err(SyntaxError(position, "Cannot close a parenthesis that was not opened."));
        }
        var cpToken := CloseParenthesisToken(position);
        AfterEmit(tokens, cpToken, Scan(expression, checker, position + 1, cpToken, false));
        tokens := tokens + [cpToken];
        token := cpToken;
        nested := false;
        position := position + 1;
      } else {
        var next, endIndex := ReadWord(expression, position, token, checker);
        if next.Err? {
          return Err(next.error);
        }
        AfterEmit(tokens, next.value, Scan(expression, checker, endIndex, next.value, nested));
        tokens := tokens + [next.value];
        token := next.value;
        position := endIndex;
      }
    }
    if token.StartToken? {
      return Err(SyntaxError(0, BlankMessage));
    }
    if !token.PolicyNameToken? && !token.CloseParenthesisToken? {
      return Err(SyntaxError(position, "Expression should end with a policy name or a closing parenthesis."));
    }
    if nested {
      return Err(SyntaxError(position, "Nested expression is not closed."));
    }
    assert tokens + [] == tokens;
    r := Ok(tokens);
  }

  /** The `default:` branch of the loop: finds the end of the word at
      `position` and classifies it. */
  method ReadWord(expression: string, position: int, token: Token, checker: Option<string -> bool>)
    returns (next: Result<Token>, endIndex: int)
    requires 0 <= position < |expression| && !IsDelimiter(expression[position])
    ensures endIndex == WordEnd(expression, position) && position < endIndex
    ensures next == Word(expression[position..endIndex], position, token, checker)
  {
    endIndex := position;
    while endIndex < |expression|
      invariant position <= endIndex <= |expression|
      invariant forall k | position <= k < endIndex :: !IsDelimiter(expression[k])
      decreases |expression| - endIndex
    {
      if expression[endIndex] == ' ' || expression[endIndex] == '(' || expression[endIndex] == ')' {
        break;
      }
      endIndex := endIndex + 1;
    }
    WordEndIsFirst(expression, position, endIndex);
    next := ClassifyWord(expression[position..endIndex], position, token, checker);
  }

  /** The `switch (identifier)` of the loop: the two keywords. */
  method ClassifyWord(identifier: string, position: int, token: Token, checker: Option<string -> bool>)
    returns (next: Result<Token>)
    ensures next == Word(identifier, position, token, checker)
  {
    if identifier == "AND" {
      if !token.PolicyNameToken? && !token.CloseParenthesisToken? {
        next := Err(SyntaxError(position, "Invalid place for an AND operator."));
      } else {
        next := Ok(AndToken(position));
      }
    } else if identifier == "OR" {
      if !token.PolicyNameToken? && !token.CloseParenthesisToken? {
        next := Err(SyntaxError(position, "Invalid place for an OR operator."));
      } else {
        next := Ok(OrToken(position));
      }
    } else {
      next := ClassifyName(identifier, position, token, checker);
    }
  }

  /** The `default:` case of the `switch (identifier)`. */
  method ClassifyName(identifier: string, position: int, token: Token, checker: Option<string -> bool>)
    returns (next: Result<Token>)
    ensures next == NameWord(identifier, position, token, checker)
  {
    var valid := IsValidPolicyName(identifier);
    if !valid {
      next := Err(SyntaxError(position, "Invalid policy name or unrecognized token in expression: " + identifier + "."));
    } else if !token.StartToken? && !token.IsOperator() && !token.OpenParenthesisToken? {
      next := Err(SyntaxError(position, "Invalid place for a policy name - " + identifier + "."));
    } else if checker.Some? && !checker.value(identifier) {
      next := Err(SyntaxError(position, "A policy named " + identifier + " does not exist."));
    } else {
      next := Ok(PolicyNameToken(position, identifier));
    }
  }
}
