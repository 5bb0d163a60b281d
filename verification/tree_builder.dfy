/** The tree builder of src/Core/PolicyEvaluator.cs (CreateExpression): one
    pass over the tokenizer's tokens that drops the parentheses, gathers the
    tokens between `(` and `)` into a nested expression, and leaves every other
    token at the outer level. */
module TreeBuilder {
  import opened Tokens
  import opened Grammar
  import opened ExpressionSemantics
  import opened Expressions

  // ---------------------------------------------------------------------------
  // The pass as a function

  /** One token of the pass, from the outer list, the open group and whether a
      group is open: `(` opens a group, `)` closes it into a nested expression
      of the outer list, any other token goes to the open group or, when none
      is open, to the outer list. */
  function Step(outer: seq<Token>, group: seq<Token>, nested: bool, t: Token): (seq<Token>, seq<Token>, bool) {
    if t.OpenParenthesisToken? then (outer, group, true)
    else if t.CloseParenthesisToken? then (outer + [NestedExpression(group)], [], false)
    else if nested then (outer, group + [t], nested)
    else (outer + [t], group, nested)
  }

  /** The outer list once the tokens `ts` have been passed over. A group still
      open at the end is dropped (the tokenizer never yields one). */
  function BuildFrom(ts: seq<Token>, outer: seq<Token>, group: seq<Token>, nested: bool): seq<Token>
    decreases |ts|
  {
    if ts == [] then outer
    else
      var (o, g, n) := Step(outer, group, nested, ts[0]);
      BuildFrom(ts[1..], o, g, n)
  }

  function Build(ts: seq<Token>): seq<Token> {
    BuildFrom(ts, [], [], false)
  }

  // ---------------------------------------------------------------------------
  // The pass as the source runs it

  /** `CreateExpression`: the `foreach` over the tokens, with the outer list,
      the nested list and the flag as locals, and the outer expression built
      from the outer list at the end. */
  method CreateExpression(tokens: seq<Token>) returns (e: Expression)
    ensures fresh(e) && e.tokens == Build(tokens)
  {
    var outerTokens: seq<Token> := [];
    var nestedTokens: seq<Token> := [];
    var nested := false;
    for i := 0 to |tokens|
      invariant Build(tokens) == BuildFrom(tokens[i..], outerTokens, nestedTokens, nested)
    {
      assert tokens[i..][0] == tokens[i] && tokens[i..][1..] == tokens[i + 1..];
      var token := tokens[i];
      if token.OpenParenthesisToken? {
        nested := true;
      } else if token.CloseParenthesisToken? {
        nested := false;
        outerTokens := outerTokens + [NestedExpression(nestedTokens)];
        nestedTokens := [];
      } else if nested {
        nestedTokens := nestedTokens + [token];
      } else {
        outerTokens := outerTokens + [token];
      }
    }
    assert tokens[|tokens|..] == [];
    e := new Expression(outerTokens);
  }

  // ---------------------------------------------------------------------------
  // Shape: an expression of the token language builds a well-formed list

  /** Operands at the even positions and operators at the odd ones. */
  predicate Prefix(xs: seq<Token>) {
    forall i | 0 <= i < |xs| :: if i % 2 == 0 then xs[i].IsOperand() else xs[i].IsOperator()
  }

  /** A prefix of an alternating list that expects an operand next exactly
      when `operandNext` holds. */
  predicate Chain(xs: seq<Token>, operandNext: bool) {
    Prefix(xs) && (|xs| % 2 == 0) == operandNext
  }

  lemma ChainOperand(xs: seq<Token>, t: Token)
    requires Chain(xs, true) && t.IsOperand()
    ensures Chain(xs + [t], false)
  {
  }

  lemma ChainOperator(xs: seq<Token>, t: Token)
    requires Chain(xs, false) && t.IsOperator()
    ensures Chain(xs + [t], true)
  {
  }

  lemma ChainDone(xs: seq<Token>)
    requires Chain(xs, false)
    ensures Alternating(xs)
  {
  }

  /** Every nested expression of `xs` is a flat alternating list. */
  predicate GroupsWellFormed(xs: seq<Token>) {
    forall i | 0 <= i < |xs| && xs[i].NestedExpression? :: Alternating(xs[i].tokens) && Flat(xs[i].tokens)
  }

  lemma GroupsSnoc(xs: seq<Token>, t: Token)
    requires GroupsWellFormed(xs)
    requires t.NestedExpression? ==> Alternating(t.tokens) && Flat(t.tokens)
    ensures GroupsWellFormed(xs + [t])
  {
    assert forall i | 0 <= i < |xs| :: (xs + [t])[i] == xs[i];
  }

  lemma FlatSnoc(xs: seq<Token>, t: Token)
    requires Flat(xs) && !t.NestedExpression?
    ensures Flat(xs + [t])
  {
    assert forall i | 0 <= i < |xs| :: (xs + [t])[i] == xs[i];
  }

  /** The state of the pass after the token `prev`: outside a group the outer
      list is a chain expecting an operand unless `prev` ends an operand;
      inside a group the outer list expects the group as its next operand and
      the group is a chain of its own. */
  predicate BuildState(outer: seq<Token>, group: seq<Token>, prev: Token, nested: bool) {
    GroupsWellFormed(outer) && Flat(group) &&
    if nested then
      !prev.CloseParenthesisToken? && Chain(outer, true) && Chain(group, !prev.PolicyNameToken?)
    else
      !prev.OpenParenthesisToken? && group == [] &&
      Chain(outer, !(prev.PolicyNameToken? || prev.CloseParenthesisToken?))
  }

  /** A token placed where the token language allows keeps the state. */
  lemma StepState(outer: seq<Token>, group: seq<Token>, prev: Token, nested: bool, t: Token)
    requires BuildState(outer, group, prev, nested)
    requires Placed(prev, t) && NestingAllowed(t, nested)
    ensures var (o, g, n) := Step(outer, group, nested, t);
      n == NestingAfter(t, nested) && BuildState(o, g, t, n)
  {
    if t.CloseParenthesisToken? {
      ChainDone(group);
      ChainOperand(outer, NestedExpression(group));
      GroupsSnoc(outer, NestedExpression(group));
    } else if t.OpenParenthesisToken? {
    } else if nested {
      if t.IsOperator() {
        ChainOperator(group, t);
      } else {
        ChainOperand(group, t);
      }
      FlatSnoc(group, t);
    } else {
      if t.IsOperator() {
        ChainOperator(outer, t);
      } else {
        ChainOperand(outer, t);
      }
      GroupsSnoc(outer, t);
    }
  }

  lemma {:induction false} BuildFromWellFormed(ts: seq<Token>, outer: seq<Token>, group: seq<Token>, prev: Token, nested: bool)
    requires Accepts(ts, prev, nested) && BuildState(outer, group, prev, nested)
    ensures WellFormed(BuildFrom(ts, outer, group, nested))
    decreases |ts|
  {
    if ts == [] {
      ChainDone(outer);
    } else {
      var (o, g, n) := Step(outer, group, nested, ts[0]);
      StepState(outer, group, prev, nested, ts[0]);
      BuildFromWellFormed(ts[1..], o, g, ts[0], n);
    }
  }

  /** The tree builder turns every expression of the token language into a
      list the reducer accepts: alternating, with one level of flat
      alternating nested expressions. */
  lemma BuildWellFormed(ts: seq<Token>)
    requires IsExpression(ts)
    ensures WellFormed(Build(ts))
  {
    BuildFromWellFormed(ts, [], [], StartToken, false);
  }

  // ---------------------------------------------------------------------------
  // Contents: the groups are the parenthesised runs, nothing is lost or moved

  /** A parenthesis token with its offset dropped: the built list keeps no
      parenthesis, so only where the parentheses stand can be compared. */
  function ParenErased(t: Token): Token {
    if t.OpenParenthesisToken? then OpenParenthesisToken(0)
    else if t.CloseParenthesisToken? then CloseParenthesisToken(0)
    else t
  }

  function EraseParens(ts: seq<Token>): seq<Token>
    decreases |ts|
  {
    if ts == [] then [] else [ParenErased(ts[0])] + EraseParens(ts[1..])
  }

  /** The list with every nested expression written back between parentheses. */
  function Reparen(xs: seq<Token>): seq<Token>
    decreases |xs|
  {
    if xs == [] then []
    else
      var t := xs[|xs| - 1];
      Reparen(xs[..|xs| - 1]) +
      (if t.NestedExpression? then [OpenParenthesisToken(0)] + t.tokens + [CloseParenthesisToken(0)] else [t])
  }

  lemma ReparenSnoc(xs: seq<Token>, t: Token)
    ensures Reparen(xs + [t]) == Reparen(xs) +
      (if t.NestedExpression? then [OpenParenthesisToken(0)] + t.tokens + [CloseParenthesisToken(0)] else [t])
  {
    assert (xs + [t])[..|xs|] == xs;
  }

  /** The text of the pass so far: the outer list written back, then the open
      group behind its parenthesis. */
  function Written(outer: seq<Token>, group: seq<Token>, nested: bool): seq<Token> {
    Reparen(outer) + (if nested then [OpenParenthesisToken(0)] + group else [])
  }

  /** One token of the pass extends the text so far by that token. */
  lemma StepContents(outer: seq<Token>, group: seq<Token>, nested: bool, t: Token)
    requires !nested ==> group == []
    requires NestingAllowed(t, nested) && !t.NestedExpression?
    ensures var (o, g, n) := Step(outer, group, nested, t);
      (!n ==> g == []) && Written(o, g, n) == Written(outer, group, nested) + [ParenErased(t)]
  {
    var (o, g, n) := Step(outer, group, nested, t);
    var open := OpenParenthesisToken(0);
    if t.CloseParenthesisToken? {
      ReparenSnoc(outer, NestedExpression(group));
      assert Written(o, g, n) == Reparen(outer) + ([open] + group + [CloseParenthesisToken(0)]);
    } else if t.OpenParenthesisToken? {
    } else if nested {
      assert Written(o, g, n) == Reparen(outer) + ([open] + group + [t]);
    } else {
      ReparenSnoc(outer, t);
    }
  }

  lemma {:induction false} BuildFromContents(ts: seq<Token>, outer: seq<Token>, group: seq<Token>, prev: Token, nested: bool)
    requires Accepts(ts, prev, nested) && (!nested ==> group == [])
    ensures Reparen(BuildFrom(ts, outer, group, nested)) == Written(outer, group, nested) + EraseParens(ts)
    decreases |ts|
  {
    if ts != [] {
      var t := ts[0];
      var (o, g, n) := Step(outer, group, nested, t);
      StepContents(outer, group, nested, t);
      BuildFromContents(ts[1..], o, g, t, n);
      Assoc3(Written(outer, group, nested), [ParenErased(t)], EraseParens(ts[1..]));
    }
  }

  lemma Assoc3(a: seq<Token>, b: seq<Token>, c: seq<Token>)
    ensures a + b + c == a + (b + c)
  {
  }

  /** Writing the nested expressions of the built list back between
      parentheses gives the tokens in their order, each group exactly where
      its parentheses were (parenthesis offsets aside). */
  lemma BuildContents(ts: seq<Token>)
    requires IsExpression(ts)
    ensures Reparen(Build(ts)) == EraseParens(ts)
  {
    BuildFromContents(ts, [], [], StartToken, false);
  }
}
