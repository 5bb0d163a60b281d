# PolicyEvaluation in Dafny

A model of the expression evaluator of Jeevan.PolicyEvaluation. The evaluator
takes a logical expression of policy names, such as
`CanRead AND (IsOwner OR IsAdmin)`, and asks a caller-supplied resolver for the
outcome of each policy. It then combines those outcomes with AND, which binds
tighter, and OR, allowing one level of parentheses.

The pipeline has four stages, and each is modelled in the form the C# code has:

- **Tokenizer** (`Tokenizer`). It makes one pass over the characters and
  remembers the last token and whether a parenthesis is open. It yields
  positional tokens or throws a syntax error that carries a character offset.
  `Scan`/`TokenizeSpec` state the pass as a function. The method `Tokenize` is
  the source's `while` loop, proved equal to it. `IsValidPolicyName` is the
  source's character loop, proved equal to the predicate `IsPolicyName`.
- **Token language** (`Grammar`). It says, over tokens alone, what the
  tokenizer accepts: which token may follow which, one level of parentheses,
  how a list may end, and where each token's text sits.
  `TokenizerProperties` proves the following about it:
  - the tokenizer is sound for this language;
  - every expression of the language, written out with single spaces, is read
    back as itself (the round trip `TokenizeSpec(Join(ts)) == Ok(ts)`);
  - every failure is located in the text;
  - the "blank" error is reported exactly for texts made only of spaces.
- **Tree builder** (`TreeBuilder`). `CreateExpression` is the source's
  `foreach`. It is proved to compute `Build`. `Build` turns every expression of
  the language into an alternating list with one level of flat nested
  expressions. Writing each group of that list back between parentheses gives
  the input tokens, so every group is exactly what its parentheses enclosed.
- **Reducer** (`Expressions`, `ExpressionSemantics`, `ReductionSteps`).
  `Expression` is a class whose token list `Evaluate` rewrites in place: an AND
  pass, then an OR pass, until one result is left. Each resolved name is
  memoised into the other occurrences of the name.
  - The result is proved equal to `Value`, the AND-before-OR value of the
    list, whenever the resolver gives the same answer for names that differ
    only in case.
  - Every resolver call is for a distinct policy-name token of the list.
  - On a list without nested expressions, no name is resolved twice.
  - On a list without AND, with a case-consistent resolver, a true answer
    resolves no operand to the right of the OR pair that holds the first true
    operand. An OR pass pairs the operands at positions 4k and 4k + 2, and a
    last operand at 4k stands alone; so in `A OR B OR C` with only `B` true,
    `C` is never resolved. Without that condition the bound fails: in `a OR A OR B`, with
    `a` false and `A` true, resolving `a` memoises `A` as false, so `B` is
    resolved too.
- **Entry point** (`Evaluator`). `EvaluateExpression` does the following:
  - it checks for a null and an empty text;
  - it chains the stages and is proved against `EvaluateSpec`;
  - `FinalOutcome` models its closing `switch` from a policy outcome to the
    outcome of the expression.

Two behaviours of the code differ from what its documentation suggests. The
model follows the code in both:

- An OR pair resolves both operands before it short-circuits. In `A OR B`,
  `B` is resolved even when `A` is true.
- Memos do not flow out of a nested expression. A name resolved inside a
  group is resolved again when it also appears outside the group, later in the
  list (`(A) OR A`). This is why the "no name twice" property is stated for
  lists without nested expressions only.

## Model

| member | source | states |
|---|---|---|
| Tokens.TokenRendering | src/Core/Token.cs:13-57 | AND, OR and the parentheses render as their keyword; a policy name renders as its name; a result renders as `True` or `False`; the start token sits at position 0; results carry no position |
| Tokens.JoinAppend | src/Core/Expression.cs:145-146 | writing out two non-empty lists one after the other is writing out each with a single space between them |
| Tokens.OperatorsAreAndOr | src/Core/Token.cs:20-30 | the operator tokens are exactly AND and OR, and they are positional, neither operands nor parentheses |
| PolicyOutcomes.Fail | src/Core/PolicyOutcome.cs:17-18 | a failure without a message carries the default message, and otherwise the given one; it is never satisfied |
| PolicyOutcomes.InvalidPolicyName | src/Core/PolicyOutcome.cs:31 | the outcome records the invalid name and is not an expression outcome |
| PolicyOutcomes.ExpressionOutcomeContract | src/Core/PolicyOutcome.cs:51-76 | IsSatisfied is the negation of IsNotSatisfied; the message is non-null exactly when IsNotSatisfied is true, and it is the failure message |
| Expressions.Expression.constructor | src/Core/Expression.cs:11-14 | the expression holds the given token list |
| Expressions.Expression.Evaluate | src/Core/Expression.cs:18-85 | (through `Evaluated`) with a case-consistent resolver the result is the AND-before-OR value of the list; resolver calls are a sub-multiset of the list's policy names; on a flat list no name is resolved twice; with a case-consistent resolver, a true result on a list without AND resolved only names of the tokens up to the end of the OR pair holding the first true operand (the operands at 4k and 4k + 2 pair up, a last operand at 4k stands alone); the single-token fast paths leave the list untouched, and a false result leaves one false result token |
| Expressions.Expression.AndPass | src/Core/Expression.cs:36-52 | the pass leaves no AND, keeps the value of the list, and resolves only names still present, each once on a flat list |
| Expressions.Expression.FoldAnd | src/Core/Expression.cs:42-49 | the left operand is resolved first, on the old list, and the right one after it, on the list the first left; each is answered exactly as `EvaluateToken` promises (its call, its memo), and the calls are the left one's followed by the right one's; the new list is the resolved list with `l AND r` replaced by the conjunction; the pass invariant is kept |
| Expressions.Expression.OrPass | src/Core/Expression.cs:55-74 | the pass leaves no AND; with a case-consistent resolver, it stops with true only when the list is true, having resolved only names of the tokens up to the end of the OR pair (operands 4k and 4k + 2 of the pass's list) holding the first true operand, and otherwise no operand but the last is true and the list keeps its value; a pass that does not stop shrinks the list |
| Expressions.Expression.FoldOr | src/Core/Expression.cs:61-71 | the left operand is resolved first, on the old list, and the right one after it, on the list the first left; each is answered exactly as `EvaluateToken` promises (its call, its memo), and the calls are the left one's followed by the right one's; the pass stops exactly when the disjunction is true, leaving the resolved list; otherwise `l OR r` is replaced by false and the pass state moves two positions on |
| Expressions.Expression.EvaluateToken | src/Core/Expression.cs:102-120 | a nested expression is evaluated, a result is read, and a policy name is resolved once and memoised; the operand's value is kept |
| Expressions.Expression.AssignResultForPolicyName | src/Core/Expression.cs:126-143 | every policy name equal to the given one up to case, here and in nested expressions, becomes the result, except at the avoided index; no such name is left |
| ExpressionSemantics.SingleValue | src/Core/Expression.cs:22-28 | a single-operand list is worth that operand's value |
| ExpressionSemantics.AndFoldValue | src/Core/Expression.cs:42-48 | replacing `l AND r` by their conjunction keeps the value of the list |
| ExpressionSemantics.NoAndValue | src/Core/Expression.cs:55-77 | a list without AND is true exactly when some operand is true |
| ExpressionSemantics.OrFoldValue | src/Core/Expression.cs:61-71 | replacing `l OR r` in a list without AND by their disjunction keeps the value |
| ExpressionSemantics.SomeOperandTrueSplice | src/Core/Expression.cs:61-71 | an OR fold keeps whether some operand is true |
| ExpressionSemantics.FirstTrueBound | src/Core/Expression.cs:55-67 | when the OR pass stopped at the first true operand, every call is of a name at most one OR pair past any true operand |
| ExpressionSemantics.PastPairExcluded | src/Core/Expression.cs:55-66 | in `A OR B OR C` with only `B` true, a run that also resolved `C` does not meet the first-true bound, since the first pair `A OR B` already holds the first true operand |
| ReductionSteps.PairResolvedOf | src/Core/Expression.cs:61-62 | resolving the left and then the right operand of an operator only turns names into results, keeps every operand's value and yields the two operands' values |
| ReductionSteps.RoundShort | src/Core/Expression.cs:66-67 | a round whose OR pass stops answers true, and that answer is the value of the list |
| ReductionSteps.RoundContinue | src/Core/Expression.cs:31-82 | a round that runs both passes to the end keeps the state between rounds and shortens the list unless one token is left, so `goto restart` terminates |
| ReductionSteps.EvaluateDone | src/Core/Expression.cs:76-77 | a single result left after a round is the value of the list |
| ExpressionSemantics.AccCongruence | src/Core/Expression.cs:18-85 | two lists with the same operators and operand values have the same value |
| ExpressionSemantics.MemoValue | src/Core/Expression.cs:126-143 | memoising a resolver's own answer keeps every operand's value, and so the value of the list |
| ExpressionSemantics.MemoKeepsOtherNames | src/Core/Expression.cs:133-137 | a memo replaces a name exactly when it is equal up to case, and leaves other names alone |
| ExpressionSemantics.MemoDescends | src/Core/Expression.cs:126-143 | a memo only turns names into results, in place and in nested expressions |
| ExpressionSemantics.DescendsWellFormed | src/Core/Expression.cs:126-143 | such rewrites keep a list well formed, flat and free of AND |
| ExpressionSemantics.DescendsAllCalls | src/Core/Expression.cs:112-115 | such rewrites never add a policy name to resolve |
| ExpressionSemantics.NestedDepth | src/Core/Expression.cs:138-140 | a nested expression is shallower than the list that holds it |
| Tokenizer.WordEnd | src/Core/PolicyEvaluator.cs:149-155 | the end of a word is the first delimiter at or after its start, or the end of the text |
| Tokenizer.WordEndIsFirst | src/Core/PolicyEvaluator.cs:149-155 | the word end is the only offset with those properties |
| Tokenizer.IsValidPolicyName | src/Core/PolicyEvaluator.cs:206-225 | the answer is true exactly for a letter followed by letters, digits or underscores |
| Tokenizer.Tokenize | src/Core/PolicyEvaluator.cs:112-204 | the character loop computes exactly the scan function, every error included |
| Tokenizer.ReadWord | src/Core/PolicyEvaluator.cs:149-157 | the inner loop stops at the word end, past the start, and classifies the word found |
| Tokenizer.ClassifyWord | src/Core/PolicyEvaluator.cs:159-174 | the keyword switch yields the operator token or its placement error |
| Tokenizer.ClassifyName | src/Core/PolicyEvaluator.cs:175-185 | the default case checks the name, then its place, then the name checker, in that order |
| TokenizerProperties.WordPlaced | src/Core/PolicyEvaluator.cs:159-185 | an accepted word is an operator or an accepted policy name, placed where the language allows, at its offset, rendering as the word |
| TokenizerProperties.WordToken | src/Core/PolicyEvaluator.cs:159-185 | the rendering of a well-placed operator or accepted name is read back as that token |
| TokenizerProperties.OperatorWord | src/Core/PolicyEvaluator.cs:159-174 | the rendering `AND` or `OR` of an operator is always classified as that operator: it reads back as the operator exactly when it is well placed, and otherwise fails at its offset with that operator's placement message |
| TokenizerProperties.ScanAccepts | src/Core/PolicyEvaluator.cs:119-203 | every token list the scan yields is in the token language |
| TokenizerProperties.ScanNames | src/Core/PolicyEvaluator.cs:176-181 | every policy name the scan yields is well formed, not a keyword, and accepted by the checker |
| TokenizerProperties.ScanLocated | src/Core/PolicyEvaluator.cs:119-191 | every token yielded sits where its text is, in strictly increasing offsets |
| TokenizerProperties.LocatedPositions | src/Core/PolicyEvaluator.cs:119-191 | the located tokens' texts are in the expression, and the tokens' offsets strictly increase |
| TokenizerProperties.TokenizeSound | src/Core/PolicyEvaluator.cs:112-204 | a successful tokenization is an expression of the language, with accepted names and located tokens |
| TokenizerProperties.TokenizeJoin | src/Core/PolicyEvaluator.cs:112-204 | an expression of the language written out with single spaces is tokenized back to itself |
| TokenizerProperties.ScanJoin | src/Core/PolicyEvaluator.cs:119-191 | the round trip from any offset and scan state |
| TokenizerProperties.ErrParen | src/Core/PolicyEvaluator.cs:126-147 | a parenthesis is rejected at its own offset, or the error comes from the scan after it |
| TokenizerProperties.ErrWord | src/Core/PolicyEvaluator.cs:148-189 | a word is rejected at its own offset, or the error comes from the scan after it |
| TokenizerProperties.WordNotBlank | src/Core/PolicyEvaluator.cs:159-181 | a rejected word carries its own offset and neither of the blank or empty messages |
| TokenizerProperties.NameWordNotBlank | src/Core/PolicyEvaluator.cs:175-181 | a rejected name carries its own offset and neither of the blank or empty messages |
| TokenizerProperties.ScanErrorPosition | src/Core/PolicyEvaluator.cs:119-203 | every syntax error lies within the text, at or after the scan's offset and not on a space, except the blank error at 0 |
| TokenizerProperties.ScanBlank | src/Core/PolicyEvaluator.cs:193-195 | nothing but spaces after the start token gives the blank error |
| TokenizerProperties.ScanNotBlank | src/Core/PolicyEvaluator.cs:193-195 | any other failing scan gives a different error |
| TokenizerProperties.TokenizeBlank | src/Core/PolicyEvaluator.cs:193-195 | the blank error is reported exactly for texts of spaces |
| TreeBuilder.CreateExpression | src/Core/PolicyEvaluator.cs:83-109 | the loop builds a fresh expression holding exactly the list of the tree-builder function |
| TreeBuilder.StepState | src/Core/PolicyEvaluator.cs:88-106 | one well-placed token keeps the builder's state invariant |
| TreeBuilder.BuildFromWellFormed | src/Core/PolicyEvaluator.cs:88-106 | the rest of the pass from any valid state ends in a well-formed list |
| TreeBuilder.BuildWellFormed | src/Core/PolicyEvaluator.cs:83-109 | an expression of the language builds an alternating list with one level of flat, alternating nested expressions |
| TreeBuilder.BuildFromContents | src/Core/PolicyEvaluator.cs:88-106 | the rest of the pass from any state extends the text written so far by the remaining tokens, parenthesis offsets aside |
| TreeBuilder.BuildContents | src/Core/PolicyEvaluator.cs:83-109 | writing every group of the built list back between parentheses gives the input tokens in their order, each group exactly where its parentheses were (parenthesis offsets aside) |
| Evaluator.EvaluateExpression | src/Core/PolicyEvaluator.cs:55-81 | fails exactly when the specification fails, with its error; with a case-consistent resolver returns the specified value; resolver calls are policy names of the built list, none twice without parentheses |
| Evaluator.EvaluateErrors | src/Core/PolicyEvaluator.cs:57-64 | the null error occurs exactly for null; every other failure is a syntax error within the text; the empty message occurs exactly for the empty text; the blank message occurs exactly for texts of spaces |
| Evaluator.NoParenFlat | src/Core/PolicyEvaluator.cs:83-109 | a text without `(` builds a list without nested expressions |
| Evaluator.FinalOutcome | src/Core/PolicyEvaluator.cs:75-80 | pass and not-applicable give a pass; a failure is returned with its message; any other outcome is an evaluator error |

## Left out

- Console output (`Console.WriteLine` in the reducer) is not modelled. It does not affect results.
- Exceptions are modelled as the `Err` case of a `Result`. The three exception types become the three `Error` variants.
- `char.IsLetter`, `char.IsLetterOrDigit` and `OrdinalIgnoreCase` are modelled on ASCII letters. Unicode categories and case mappings are not.
- `Tokenize` is an iterator in the source. The model collects its tokens eagerly, as its only caller (`ToArray`) does. Tokens yielded before an error are therefore not observable.
- The `state` argument and the options' name checker become an optional name checker and a resolver. The state is captured inside them. The evaluator delegate's second argument is not modelled separately.
- `IsValidPolicyName`'s null check is left out: strings in the model are never null.
- The source files come from two versions of the code. `Expression.Evaluate` takes a `Func<string, bool>` and builds `ResultToken(bool)`. `Token.cs` declares `ResultToken(PolicyOutcome)`, and `EvaluateExpression` expects an `IPolicyOutcome` from `Evaluate`. The reducer is modelled on bools, as `Expression.cs` is written. `FinalOutcome` models the closing `switch` on its own and is not composed with the reducer. No rule for combining not-applicable outcomes with AND and OR is invented. A result token renders as `True` or `False`, as `bool.ToString()` does in the version `Expression.cs` is written for.
- Expressions.Expression.Evaluate: requires `WellFormed` of its list (operands and operators alternating, one level of flat groups). The source does not check this. On a malformed list it can loop forever through `goto restart` (`A B`: neither pass changes anything and the count stays above one) or index past the end (`A AND`). It throws "Could not evaluate the expression." only for an empty list or a single token that is neither a name, a group nor a result. `TreeBuilder.BuildWellFormed` proves that the tree builder always establishes `WellFormed`, so none of these happens from `EvaluateExpression`, and the `decreases` of the round loop relies on it. The "Invalid token type" error of `EvaluateToken` is unreachable for the same reason.
- Expressions.Expression.Evaluate: the bound on the names resolved before a true answer is stated for lists without AND. After an AND pass the OR pass works on folded results, whose positions no longer match the input's.
- Expressions.Expression.Evaluate: the no-repeat property is proved only for lists without nested expressions. With groups the code can resolve a name twice (see above).
- A nested `Expression` is held by value, as a `NestedExpression` token. Its evaluation goes through a temporary `Expression` object, and the reduced state of a nested list is dropped, as the source never reads it again.
- TreeBuilder.BuildFrom: a group still open at the end is dropped. The tokenizer never yields one, because it rejects "Nested expression is not closed.".
- The constructors of `PolicyEvaluator` and the options builder are not modelled. The main constructor throws `ArgumentNullException` for a null evaluator and runs the options-builder callback to build the options. The model instead takes the resolver and the optional name checker as plain arguments of `EvaluateExpression`, so it has no null evaluator and no builder.
