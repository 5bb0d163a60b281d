/** The reducer of src/Core/Expression.cs: an expression owns a list of tokens
    and evaluates it destructively, first folding every `AND` pair into a
    result, then every `OR` pair, until one result is left. */
module Expressions {
  import opened Tokens
  import opened ExpressionSemantics
  import opened ReductionSteps

  class Expression {
    var tokens: seq<Token>

    constructor (tokens: seq<Token>)
      ensures this.tokens == tokens
    {
      this.tokens := tokens;
    }

    function ToString(): string
      reads this
    {
      Join(tokens)
    }

    /** Evaluates the expression with `resolve` answering for policy names,
        repeating an AND pass and an OR pass until one result is left or an OR
        pair comes out true. With a resolver that ignores case the result is
        the value of the list with AND binding tighter than OR; every call of
        the resolver is for a distinct policy-name token of the list, and on a
        list without nested expressions no name is resolved twice. With a
        case-consistent resolver, a true answer on a list without AND leaves
        every operand right of the OR pair holding the first true operand
        unresolved. `Evaluated` states all of
        this. */
    method Evaluate(resolve: string -> bool) returns (result: bool, ghost log: seq<Call>)
      requires WellFormed(tokens)
      modifies this
      decreases Level(tokens), 4
      ensures Evaluated(old(tokens), tokens, result, log, resolve)
    {
      if |tokens| == 1 && tokens[0].PolicyNameToken? {
        result := resolve(tokens[0].name);
        log := [Call(tokens[0].position, tokens[0].name)];
        NameEvaluated(tokens, result, log, resolve);
        return;
      }
      if |tokens| == 1 && tokens[0].NestedExpression? {
        var nested := new Expression(tokens[0].tokens);
        result, log := nested.Evaluate(resolve);
        NestedEvaluated(tokens, nested.tokens, result, log, resolve);
        return;
      }
      log := [];
      ghost var track := Flat(tokens);
      ghost var first := true;
      EvaluateStart(tokens, track, resolve);
      while true
        invariant EvaluateState(old(tokens), tokens, log, first, track, resolve)
        decreases |tokens|
      {
        ghost var t := tokens;
        var andLog := AndPass(resolve, log, track);
        ghost var ta := tokens;
        var shortCircuited, orLog := OrPass(resolve, log + andLog, track);
        if shortCircuited {
          RoundShort(old(tokens), t, ta, tokens, log, andLog, orLog, first, track, resolve);
          log := log + andLog + orLog;
          result := true;
          return;
        }
        RoundContinue(old(tokens), t, ta, tokens, log, andLog, orLog, first, track, resolve);
        log := log + andLog + orLog;
        first := false;
        if |tokens| == 1 {
          result := tokens[0].result;
          EvaluateDone(old(tokens), tokens, log, track, resolve);
          return;
        }
      }
    }

    /** Folds every `l AND r` into a result, left to right, moving the index
        back after each fold so that chains of ANDs fold completely. */
    method AndPass(resolve: string -> bool, ghost prior: seq<Call>, ghost track: bool) returns (ghost log: seq<Call>)
      requires WellFormed(tokens)
      requires track ==> Flat(tokens) && Distinct(prior) && Forgotten(tokens, prior)
      modifies this
      decreases Level(tokens), 3
      ensures AndPassEnd(old(tokens), tokens, prior, log, track, resolve)
    {
      log := [];
      var index := 0;
      while index + 1 < |tokens|
        invariant AndPassState(old(tokens), tokens, index, prior, log, track, resolve)
        decreases |tokens| - index
      {
        index := index + 1;
        if tokens[index].AndToken? {
          var left, right, mid, resolved, leftLog, rightLog, pairLog := FoldAnd(index, resolve, old(tokens), prior, log, track);
          log := log + pairLog;
          index := index - 1;
        } else {
          AndSkipStep(old(tokens), tokens, index - 1, prior, log, track, resolve);
        }
      }
      AndPassDone(old(tokens), tokens, index, prior, log, track, resolve);
    }

    /** The body of the AND pass for the `AND` at `index`: resolves both
        operands, the left one first (from the list `mid` it leaves, with the
        calls `leftLog`) and then the right one (leaving `resolved`, with the
        calls `rightLog`), and replaces the three tokens by their
        conjunction. */
    method FoldAnd(index: int, resolve: string -> bool, ghost input: seq<Token>, ghost prior: seq<Call>,
                   ghost log: seq<Call>, ghost track: bool)
      returns (left: bool, right: bool, ghost mid: seq<Token>, ghost resolved: seq<Token>,
               ghost leftLog: seq<Call>, ghost rightLog: seq<Call>, ghost pairLog: seq<Call>)
      requires 1 <= index < |tokens| && tokens[index].AndToken?
      requires AndPassState(input, tokens, index - 1, prior, log, track, resolve)
      modifies this
      decreases Level(tokens), 2
      ensures |mid| == |old(tokens)| && Resolved(old(tokens), index - 1, mid, leftLog, left, resolve)
      ensures Resolved(mid, index + 1, resolved, rightLog, right, resolve) && pairLog == leftLog + rightLog
      ensures |resolved| == |old(tokens)| && PairResolved(old(tokens), index, resolved, left, right, resolve)
      ensures tokens == Splice(resolved, index, ResultToken(left && right))
      ensures AndPassState(input, tokens, index - 1, prior, log + pairLog, track, resolve)
    {
      ghost var t0 := tokens;
      OperatorParity(t0, index);
      left, leftLog := EvaluateToken(index - 1, resolve);
      mid := tokens;
      ghost var t1 := tokens;
      ResolvedKinds(t0, index - 1, t1, leftLog, left, resolve, index + 1);
      right, rightLog := EvaluateToken(index + 1, resolve);
      resolved := tokens;
      PairResolvedOf(t0, t1, resolved, index, leftLog, rightLog, left, right, resolve);
      AndFoldStep(input, t0, t1, resolved, index, prior, log, leftLog, rightLog, left, right, track, resolve);
      tokens := Splice(tokens, index, ResultToken(left && right));
      pairLog := leftLog + rightLog;
      Append3(log, leftLog, rightLog);
    }

    /** Folds `l OR r` pairs into results, left to right; the index is not moved
        back after a fold, so a pass folds every other pair. Stops with true as
        soon as a pair is true; with a case-consistent resolver the list is
        then true and no operand right of the pair holding its first true
        operand has been resolved. */
    method OrPass(resolve: string -> bool, ghost prior: seq<Call>, ghost track: bool)
      returns (shortCircuited: bool, ghost log: seq<Call>)
      requires WellFormed(tokens) && NoAnd(tokens)
      requires track ==> Flat(tokens) && Distinct(prior) && Forgotten(tokens, prior)
      modifies this
      decreases Level(tokens), 3
      ensures OrPassEnd(old(tokens), tokens, shortCircuited, prior, log, track, resolve)
    {
      log := [];
      ghost var shift := 0;
      var index := 0;
      while index + 1 < |tokens|
        invariant OrPassState(old(tokens), tokens, index, shift, prior, log, track, resolve)
        decreases |tokens| - index
      {
        index := index + 1;
        if tokens[index].OrToken? {
          var left, right, stop, mid, resolved, leftLog, rightLog, pairLog := FoldOr(index, resolve, old(tokens), shift, prior, log, track);
          log := log + pairLog;
          if stop {
            shortCircuited := true;
            return;
          }
          shift := shift + 2;
        } else {
          OrSkipStep(old(tokens), tokens, index - 1, shift, prior, log, track, resolve);
        }
      }
      shortCircuited := false;
      OrPassDone(old(tokens), tokens, index, shift, prior, log, track, resolve);
    }

    /** The body of the OR pass for the `OR` at `index`: resolves both
        operands, the left one first (from the list `mid` it leaves, with the
        calls `leftLog`) and then the right one (leaving `resolved`, with the
        calls `rightLog`), and, unless their disjunction is true, which `stop`
        reports and which ends the pass, replaces the three tokens by it. */
    method FoldOr(index: int, resolve: string -> bool, ghost input: seq<Token>, ghost shift: int, ghost prior: seq<Call>,
                  ghost log: seq<Call>, ghost track: bool)
      returns (left: bool, right: bool, stop: bool, ghost mid: seq<Token>, ghost resolved: seq<Token>,
               ghost leftLog: seq<Call>, ghost rightLog: seq<Call>, ghost pairLog: seq<Call>)
      requires 1 <= index < |tokens| && tokens[index].OrToken?
      requires OrPassState(input, tokens, index - 1, shift, prior, log, track, resolve)
      modifies this
      decreases Level(tokens), 2
      ensures |mid| == |old(tokens)| && Resolved(old(tokens), index - 1, mid, leftLog, left, resolve)
      ensures Resolved(mid, index + 1, resolved, rightLog, right, resolve) && pairLog == leftLog + rightLog
      ensures |resolved| == |old(tokens)| && PairResolved(old(tokens), index, resolved, left, right, resolve)
      ensures stop == (left || right)
      ensures stop ==> tokens == resolved
      ensures !stop ==> tokens == Splice(resolved, index, ResultToken(false))
      ensures stop ==> OrPassEnd(input, tokens, true, prior, log + pairLog, track, resolve)
      ensures !stop ==> OrPassState(input, tokens, index, shift + 2, prior, log + pairLog, track, resolve)
    {
      ghost var t0 := tokens;
      OperatorParity(t0, index);
      left, leftLog := EvaluateToken(index - 1, resolve);
      mid := tokens;
      ghost var t1 := tokens;
      ResolvedKinds(t0, index - 1, t1, leftLog, left, resolve, index + 1);
      right, rightLog := EvaluateToken(index + 1, resolve);
      resolved := tokens;
      pairLog := leftLog + rightLog;
      OrPairOutcome(input, t0, t1, resolved, index, shift, prior, log, leftLog, rightLog, left, right, track, resolve);
      stop := left || right;
      if !stop {
        tokens := Splice(tokens, index, ResultToken(stop));
      }
    }

    /** Resolves the operand at `index`: a nested expression is evaluated on
        its own, a result is read, and a policy name is passed to the resolver
        and its answer recorded for every other occurrence of the name. */
    method EvaluateToken(index: int, resolve: string -> bool) returns (result: bool, ghost log: seq<Call>)
      requires WellFormed(tokens) && 0 <= index < |tokens| && tokens[index].IsOperand()
      modifies this
      decreases Level(tokens), 1
      ensures Resolved(old(tokens), index, tokens, log, result, resolve)
    {
      var token := tokens[index];
      if token.NestedExpression? {
        var nested := new Expression(token.tokens);
        result, log := nested.Evaluate(resolve);
      } else if token.ResultToken? {
        result := token.result;
        log := [];
      } else {
        result := resolve(token.name);
        log := [Call(token.position, token.name)];
        AssignResultForPolicyName(token.name, result, index);
        MemoDescends(old(tokens), token.name, result, index);
        DescendsWellFormed(tokens, old(tokens));
        if CaseConsistent(resolve) {
          MemoValue(old(tokens), token.name, result, index, resolve);
        }
      }
    }

    /** Records `result` for every policy name equal to `policyName` up to case,
        here and in nested expressions, except at position `avoidAtIndex`. */
    method AssignResultForPolicyName(policyName: string, result: bool, avoidAtIndex: int)
      modifies this
      decreases Depth(tokens)
      ensures tokens == Memo(old(tokens), policyName, result, avoidAtIndex)
      ensures forall j | 0 <= j < |tokens| && j != avoidAtIndex && old(tokens)[j].PolicyNameToken?
                && SameName(old(tokens)[j].name, policyName) :: tokens[j] == ResultToken(result)
      ensures forall j | 0 <= j < |tokens| && j != avoidAtIndex && tokens[j].PolicyNameToken? ::
                !SameName(tokens[j].name, policyName)
    {
      var index := 0;
      while index < |tokens|
        invariant 0 <= index <= |tokens| == |old(tokens)|
        invariant forall j | 0 <= j < index ::
          tokens[j] == if j == avoidAtIndex then old(tokens)[j] else MemoToken(old(tokens)[j], policyName, result)
        invariant forall j | index <= j < |tokens| :: tokens[j] == old(tokens)[j]
      {
        if index != avoidAtIndex {
          var token := tokens[index];
          if token.PolicyNameToken? && SameName(token.name, policyName) {
            tokens := tokens[index := ResultToken(result)];
          } else if token.NestedExpression? {
            NestedDepth(old(tokens), index);
            var nested := new Expression(token.tokens);
            nested.AssignResultForPolicyName(policyName, result, -1);
            tokens := tokens[index := NestedExpression(nested.tokens)];
          }
        }
        index := index + 1;
      }
      forall j | 0 <= j < |tokens| && j != avoidAtIndex
        ensures tokens[j] == MemoToken(old(tokens)[j], policyName, result)
      {
      }
    }
  }
}
