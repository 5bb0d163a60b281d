/** `PolicyEvaluator.EvaluateExpression` of src/Core/PolicyEvaluator.cs: the
    argument checks, then the tokenizer, the tree builder and the reducer in
    turn, and the mapping of a final policy outcome to the outcome of the
    expression. */
module Evaluator {
  import opened Base
  import opened PolicyOutcomes
  import opened Tokens
  import opened Grammar
  import opened Tokenizer
  import opened TokenizerProperties
  import opened ExpressionSemantics
  import opened Expressions
  import opened TreeBuilder

  /** What evaluating `expression` means: `None` (null) and the empty text are
      rejected, a tokenizer error is reported as is, and otherwise the result
      is the value, AND before OR, of the list the tree builder makes of the
      tokens. */
  function EvaluateSpec(expression: Option<string>, checker: Option<string -> bool>, resolve: string -> bool): Result<bool> {
    if expression.None? then Err(ArgumentNull("expression"))
    else if |expression.value| == 0 then Err(SyntaxError(0, EmptyMessage))
    else match TokenizeSpec(expression.value, checker)
      case Err(e) => Err(e)
      case Ok(ts) => Ok(Value(Build(ts), resolve))
  }

  /** `EvaluateExpression`, the policy resolver answering with a bool and the
      name checker of the options standing for the checker with its state.
      It fails exactly where the specification fails, with the same error;
      with a resolver that ignores case it returns the specified value; every
      resolver call is for a distinct policy name of the expression, and
      without parentheses no name is resolved twice. */
  method EvaluateExpression(expression: Option<string>, checker: Option<string -> bool>, resolve: string -> bool)
    returns (r: Result<bool>, ghost log: seq<Call>)
    ensures r.Err? == EvaluateSpec(expression, checker, resolve).Err?
    ensures r.Err? ==> r == EvaluateSpec(expression, checker, resolve)
    ensures CaseConsistent(resolve) ==> r == EvaluateSpec(expression, checker, resolve)
    ensures r.Ok? ==> (expression.Some? && TokenizeSpec(expression.value, checker).Ok? &&
                       multiset(log) <= Calls(Build(TokenizeSpec(expression.value, checker).value)))
    ensures r.Ok? && (forall i | 0 <= i < |expression.value| :: expression.value[i] != '(') ==> Distinct(log)
  {
    log := [];
    if expression.None? {
      return Err(ArgumentNull("expression")), log;
    }
    var text := expression.value;
    if |text| == 0 {
      return Err(SyntaxError(0, EmptyMessage)), log;
    }
    var tokens := Tokenize(text, checker);
    if tokens.Err? {
      return Err(tokens.error), log;
    }
    TokenizeSound(text, checker);
    BuildWellFormed(tokens.value);
    NoParenFlat(text, checker);
    var expr := CreateExpression(tokens.value);
    var result;
    result, log := expr.Evaluate(resolve);
    r := Ok(result);
  }

  /** A text without `(` builds a list without nested expressions. */
  lemma NoParenFlat(s: string, c: Option<string -> bool>)
    requires TokenizeSpec(s, c).Ok?
    ensures (forall i | 0 <= i < |s| :: s[i] != '(') ==> Flat(Build(TokenizeSpec(s, c).value))
  {
    var ts := TokenizeSpec(s, c).value;
    if forall i | 0 <= i < |s| :: s[i] != '(' {
      TokenizeSound(s, c);
      LocatedPositions(s, ts, 0);
      forall i | 0 <= i < |ts|
        ensures !ts[i].OpenParenthesisToken?
      {
        NoOpenText(s, ts[i]);
      }
      NoOpenFlat(ts, [], [], StartToken, false);
    }
  }

  /** A token whose text is in a text without `(` is not `(`. */
  lemma NoOpenText(s: string, t: Token)
    requires TextAt(s, t) && forall i | 0 <= i < |s| :: s[i] != '('
    ensures !t.OpenParenthesisToken?
  {
    if |ToString(t)| > 0 {
      assert s[t.position..t.position + |ToString(t)|][0] == s[t.position];
    }
  }

  /** Without `(` the pass never opens a group, so every token stays at the
      outer level. */
  lemma {:induction false} NoOpenFlat(ts: seq<Token>, outer: seq<Token>, group: seq<Token>, prev: Token, nested: bool)
    requires Accepts(ts, prev, nested) && !nested && Flat(outer)
    requires forall i | 0 <= i < |ts| :: !ts[i].OpenParenthesisToken?
    ensures Flat(BuildFrom(ts, outer, group, nested))
    decreases |ts|
  {
    if ts != [] {
      var (o, g, n) := Step(outer, group, nested, ts[0]);
      FlatSnoc(outer, ts[0]);
      assert forall i | 0 <= i < |ts| - 1 :: ts[1..][i] == ts[i + 1];
      NoOpenFlat(ts[1..], o, g, ts[0], n);
    }
  }

  /** Every failure is the null argument, or a syntax error located in the
      text; the empty text and a text of spaces have their own messages. */
  lemma EvaluateErrors(expression: Option<string>, checker: Option<string -> bool>, resolve: string -> bool)
    ensures var r := EvaluateSpec(expression, checker, resolve);
      (r == Err(ArgumentNull("expression")) <==> expression.None?) &&
      (r.Err? && expression.Some? ==> r.error.SyntaxError? && 0 <= r.error.position <= |expression.value|) &&
      (expression.Some? ==> (r == Err(SyntaxError(0, EmptyMessage)) <==> |expression.value| == 0)) &&
      (expression.Some? && |expression.value| > 0 ==>
        (r == Err(SyntaxError(0, BlankMessage)) <==> Blank(expression.value, 0)))
  {
    if expression.Some? && |expression.value| > 0 {
      var s := expression.value;
      TokenizeBlank(s, checker);
      if TokenizeSpec(s, checker).Err? {
        ScanErrorPosition(s, checker, 0, StartToken, false);
      }
    }
  }

  // ---------------------------------------------------------------------------
  // The final outcome

  /** The name `GetType()` prints for each outcome record. */
  function TypeName(o: PolicyOutcome): string {
    match o
    case PassOutcome => "Jeevan.PolicyEvaluation.PassOutcome"
    case FailOutcome(_) => "Jeevan.PolicyEvaluation.FailOutcome"
    case NotApplicableOutcome => "Jeevan.PolicyEvaluation.NotApplicableOutcome"
    case InvalidPolicyNameOutcome(_) => "Jeevan.PolicyEvaluation.InvalidPolicyNameOutcome"
  }

  /** The closing `switch` of `EvaluateExpression`: a pass and a policy that
      does not apply both make a passing expression, a failure is returned as
      it is, and any other outcome is an evaluator error. */
  function FinalOutcome(o: PolicyOutcome): (r: Result<PolicyOutcome>)
    ensures r.Ok? <==> o.IsExpressionOutcome() || o.NotApplicableOutcome?
    ensures r.Ok? ==> r.value.IsExpressionOutcome() && (r.value.IsSatisfied() <==> !o.FailOutcome?)
    ensures o.FailOutcome? ==> r == Ok(o) && r.value.IsNotSatisfied() == (true, Some(o.failureMessage))
    ensures r.Err? ==> r.error.EvaluatorError? && o.InvalidPolicyNameOutcome?
  {
    match o
    case PassOutcome => Ok(PassOutcome)
    case NotApplicableOutcome => Ok(PassOutcome)
    case FailOutcome(_) => Ok(o)
    case _ => Err(EvaluatorError("Invalid policy outcome type - " + TypeName(o) + "."))
  }
}
