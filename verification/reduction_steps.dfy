/** One step of the reducer of src/Core/Expression.cs (resolve the two operands
    of an operator, then replace the three tokens by a result) and what it
    preserves: the shape of the list, the policy names it still mentions and,
    on lists without nested expressions, which names have been resolved. */
module ReductionSteps {
  import opened Tokens
  import opened ExpressionSemantics

  /** Folding an operator pair into a result keeps a list well formed. */
  lemma SpliceWellFormed(ts: seq<Token>, i: int, res: Token)
    requires WellFormed(ts) && i % 2 == 1 && 1 <= i < |ts| - 1 && res.ResultToken?
    ensures WellFormed(Splice(ts, i, res))
    ensures Flat(ts) ==> Flat(Splice(ts, i, res))
    ensures NoAnd(ts) ==> NoAnd(Splice(ts, i, res))
  {
    var s := Splice(ts, i, res);
    assert |s| == |ts| - 2;
    forall j | 0 <= j < |s|
      ensures if j % 2 == 0 then s[j].IsOperand() else s[j].IsOperator()
      ensures s[j].NestedExpression? ==> Alternating(s[j].tokens) && Flat(s[j].tokens)
      ensures Flat(ts) ==> !s[j].NestedExpression?
      ensures NoAnd(ts) ==> !s[j].AndToken?
    {
      if j < i - 1 {
        assert s[j] == ts[j];
      } else if j == i - 1 {
        assert s[j] == res && j % 2 == 0;
      } else {
        assert s[j] == ts[j + 2] && (j + 2) % 2 == j % 2;
      }
    }
  }

  lemma CallsOfSplice(ts: seq<Token>, i: int, res: Token)
    requires 1 <= i < |ts| - 1 && res.ResultToken?
    ensures Calls(Splice(ts, i, res)) == Calls(ts[..i - 1]) + Calls(ts[i + 2..])
  {
    var p, q := ts[..i - 1], ts[i + 2..];
    calc {
      Calls(Splice(ts, i, res));
      Calls(p + [res] + q);
      { CallsAppend(p + [res], q); CallsSnoc(p, res); }
      Calls(p) + Calls(q);
    }
  }

  lemma CallsPrefixExtend(ts: seq<Token>, a: int)
    requires 0 <= a && a + 3 <= |ts|
    ensures Calls(ts[..a + 3]) == Calls(ts[..a]) + TokenCalls(ts[a]) + TokenCalls(ts[a + 1]) + TokenCalls(ts[a + 2])
  {
    assert ts[..a + 1] == ts[..a] + [ts[a]];
    assert ts[..a + 2] == ts[..a + 1] + [ts[a + 1]];
    assert ts[..a + 3] == ts[..a + 2] + [ts[a + 2]];
    CallsSnoc(ts[..a], ts[a]);
    CallsSnoc(ts[..a + 1], ts[a + 1]);
    CallsSnoc(ts[..a + 2], ts[a + 2]);
  }

  /** The calls made for a folded pair, plus the names the folded list still
      mentions, are among the names of the list before the step. */
  lemma FoldCalls(t0: seq<Token>, t2: seq<Token>, i: int, res: Token, left: multiset<Call>, right: multiset<Call>)
    requires DescendsAll(t2, t0) && 1 <= i < |t0| - 1 && res.ResultToken? && t0[i].IsOperator()
    requires left <= TokenCalls(t0[i - 1]) && right <= TokenCalls(t0[i + 1])
    ensures left + right + Calls(Splice(t2, i, res)) <= Calls(t0)
  {
    CallsAround(t0, i);
    CallsOfSplice(t2, i, res);
    DescendsAllTake(t2, t0, i - 1);
    DescendsAllDrop(t2, t0, i + 2);
    DescendsAllCalls(t2[..i - 1], t0[..i - 1]);
    DescendsAllCalls(t2[i + 2..], t0[i + 2..]);
  }

  lemma DescendsAllTake(ts: seq<Token>, us: seq<Token>, k: int)
    requires DescendsAll(ts, us) && 0 <= k <= |us|
    ensures DescendsAll(ts[..k], us[..k])
  {
  }

  lemma DescendsAllDrop(ts: seq<Token>, us: seq<Token>, k: int)
    requires DescendsAll(ts, us) && 0 <= k <= |us|
    ensures DescendsAll(ts[k..], us[k..])
  {
    forall j | 0 <= j < |us| - k ensures Descends(ts[k..][j], us[k..][j]) {
      assert ts[k..][j] == ts[j + k];
    }
  }

  /** `after` is `before` with some policy names replaced by results, and the
      token at `k` itself unchanged. */
  ghost predicate Rewritten(before: seq<Token>, k: int, after: seq<Token>)
    requires 0 <= k < |before|
  {
    DescendsAll(after, before) && after[k] == before[k] && (Flat(before) ==> Flat(after))
  }

  /** How the operand at `k` was resolved: a policy name is passed to the
      resolver once and the answer recorded for every other occurrence of the
      name; a result is read without a call; a nested expression is evaluated
      on its own and leaves the list alone. */
  ghost predicate Answered(before: seq<Token>, k: int, after: seq<Token>, log: seq<Call>, b: bool, resolve: string -> bool)
    requires 0 <= k < |before|
  {
    && (before[k].PolicyNameToken? ==>
          b == resolve(before[k].name) && log == [Call(before[k].position, before[k].name)] &&
          after == Memo(before, before[k].name, b, k))
    && (before[k].ResultToken? ==> b == before[k].result && log == [] && after == before)
    && (before[k].NestedExpression? ==> after == before)
  }

  /** What resolving the operand at `k` of `before` does (Expression.EvaluateToken):
      `after` is the list afterwards, `log` the calls made and `b` the value
      obtained, which is the operand's value for a case-consistent resolver. */
  ghost predicate Resolved(before: seq<Token>, k: int, after: seq<Token>, log: seq<Call>, b: bool, resolve: string -> bool)
    requires 0 <= k < |before|
  {
    && WellFormed(after) && Rewritten(before, k, after)
    && multiset(log) <= TokenCalls(before[k])
    && Answered(before, k, after, log, b, resolve)
    && (CaseConsistent(resolve) ==> b == OperandValue(before[k], resolve) && SameValues(after, before, resolve))
  }

  /** On a list without nested expressions, folding `l op r` after resolving both
      operands leaves no policy name that has been resolved, and resolves no
      name twice. */
  lemma FlatFoldStep(t0: seq<Token>, t1: seq<Token>, t2: seq<Token>, i: int, res: Token,
                     prior: seq<Call>, left: seq<Call>, right: seq<Call>, lb: bool, rb: bool, resolve: string -> bool)
    requires Flat(t0) && 1 <= i < |t0| - 1 && res.ResultToken? && !t0[i].PolicyNameToken?
    requires t0[i - 1].IsOperand() && t0[i + 1].IsOperand()
    requires Distinct(prior) && Forgotten(t0, prior)
    requires Rewritten(t0, i - 1, t1) && Answered(t0, i - 1, t1, left, lb, resolve)
    requires |t1| == |t0| && Rewritten(t1, i + 1, t2) && Answered(t1, i + 1, t2, right, rb, resolve)
    ensures Distinct(prior + left + right)
    ensures Forgotten(Splice(t2, i, res), prior + left + right)
  {
    assert Flat(t1) && !t0[i - 1].NestedExpression?;
    DescendsKind(t1[i + 1], t0[i + 1]);
    assert t1[i + 1].IsOperand() && !t1[i + 1].NestedExpression?;
    // Every policy name still in t2 outside the pair is the same token in t0,
    // and differs from both resolved names.
    forall j | 0 <= j < |t2| && j != i - 1 && j != i + 1 && t2[j].PolicyNameToken?
      ensures t2[j] == t0[j]
      ensures t0[i - 1].PolicyNameToken? ==> !SameName(t2[j].name, t0[i - 1].name)
      ensures t1[i + 1].PolicyNameToken? ==> !SameName(t2[j].name, t1[i + 1].name)
    {
      DescendsKind(t2[j], t1[j]);
      DescendsKind(t1[j], t0[j]);
      if t1[i + 1].PolicyNameToken? {
        MemoKeepsOtherNames(t1[j], t1[i + 1].name, rb);
      }
      if t0[i - 1].PolicyNameToken? {
        MemoKeepsOtherNames(t0[j], t0[i - 1].name, lb);
      }
    }
    if t1[i + 1].PolicyNameToken? {
      DescendsKind(t1[i + 1], t0[i + 1]);
      if t0[i - 1].PolicyNameToken? {
        MemoKeepsOtherNames(t0[i + 1], t0[i - 1].name, lb);
      }
    }
    var all := prior + left + right;
    forall a, b | 0 <= a < b < |all|
      ensures !SameName(all[a].name, all[b].name)
    {
      if b >= |prior| {
        var nb := if b < |prior| + |left| then t0[i - 1].name else t1[i + 1].name;
        assert all[b].name == nb;
        if a < |prior| {
          assert !SameName(t0[if b < |prior| + |left| then i - 1 else i + 1].name, prior[a].name);
        }
      }
    }
    var s := Splice(t2, i, res);
    forall j, k | 0 <= j < |s| && 0 <= k < |all| && s[j].PolicyNameToken?
      ensures !SameName(s[j].name, all[k].name)
    {
      var j' := if j < i - 1 then j else j + 2;
      assert s[j] == t2[j'];
    }
  }

  lemma AppendAssoc(a: seq<Call>, b: seq<Call>, c: seq<Call>, d: seq<Call>)
    ensures a + b + c + d == a + (b + c + d)
  {
  }

  lemma Append3(a: seq<Call>, b: seq<Call>, c: seq<Call>)
    ensures a + b + c == a + (b + c)
  {
  }

  // ---------------------------------------------------------------------------
  // The AND pass

  /** What the AND pass keeps between iterations: positions up to `index` hold no
      AND, the list is well formed and (for a case-consistent resolver) has the
      value of the pass's input, the calls made plus the names left are among the
      input's names, and, when `track` is set (the input had no nested
      expression), no name is resolved twice and no resolved name is left. The
      body is one comparison, so that a loop or a call checks the state as one
      fact. */
  ghost predicate AndPassState(input: seq<Token>, t: seq<Token>, index: int, prior: seq<Call>, log: seq<Call>,
                               track: bool, resolve: string -> bool)
  {
    (
      && 0 <= index < |t| <= |input| && WellFormed(t) && (Flat(input) ==> Flat(t))
      && (forall j | 0 <= j <= index :: !t[j].AndToken?)
      && (NoAnd(input) ==> t == input && log == [])
      && (|input| == 1 ==> t == input)
      && (|t| == 1 && |input| > 1 ==> t[0].ResultToken?)
      && (CaseConsistent(resolve) ==> Value(t, resolve) == Value(input, resolve))
      && multiset(log) + Calls(t) <= Calls(input)
      && (track ==> Flat(t) && Distinct(prior + log) && Forgotten(t, prior + log))
    ) == true
  }

  /** `after` is `before` with the two operands around the operator at `i`
      resolved: policy names are at most replaced by results, the operator
      stays, and for a case-consistent resolver every operand keeps its value
      and the two operands' values are `left` and `right`. */
  ghost predicate PairResolved(before: seq<Token>, i: int, after: seq<Token>, left: bool, right: bool,
                               resolve: string -> bool)
    requires 1 <= i < |before| - 1
  {
    && DescendsAll(after, before) && after[i] == before[i]
    && (CaseConsistent(resolve) ==>
          && SameValues(after, before, resolve)
          && left == OperandValue(before[i - 1], resolve) && right == OperandValue(before[i + 1], resolve))
  }

  /** Resolving the left and then the right operand of the operator at `i`. */
  lemma PairResolvedOf(t0: seq<Token>, t1: seq<Token>, t2: seq<Token>, i: int,
                       ll: seq<Call>, rl: seq<Call>, left: bool, right: bool, resolve: string -> bool)
    requires 1 <= i < |t0| - 1 && t0[i].IsOperator()
    requires Resolved(t0, i - 1, t1, ll, left, resolve)
    requires Resolved(t1, i + 1, t2, rl, right, resolve)
    ensures PairResolved(t0, i, t2, left, right, resolve)
  {
    DescendsAllTrans(t2, t1, t0);
    DescendsKind(t1[i], t0[i]);
    DescendsKind(t2[i], t1[i]);
    if CaseConsistent(resolve) {
      FoldValues(t0, t1, t2, i, ll, rl, left, right, resolve);
    }
  }

  /** The shape and the calls across one fold, for either operator. */
  lemma FoldShape(input: seq<Token>, t0: seq<Token>, t1: seq<Token>, t2: seq<Token>, index: int, res: Token,
                  log: seq<Call>, ll: seq<Call>, rl: seq<Call>, left: bool, right: bool, resolve: string -> bool)
    requires index % 2 == 1 && 1 <= index < |t0| - 1 && t0[index].IsOperator() && res.ResultToken?
    requires WellFormed(t0) && multiset(log) + Calls(t0) <= Calls(input)
    requires Resolved(t0, index - 1, t1, ll, left, resolve)
    requires Resolved(t1, index + 1, t2, rl, right, resolve)
    ensures DescendsAll(t2, t0) && t2[index] == t0[index] && WellFormed(t2)
    ensures WellFormed(Splice(t2, index, res))
    ensures NoAnd(t0) ==> NoAnd(t2) && NoAnd(Splice(t2, index, res))
    ensures Flat(t0) ==> Flat(t2) && Flat(Splice(t2, index, res))
    ensures multiset(log + ll + rl) + Calls(Splice(t2, index, res)) <= Calls(input)
  {
    DescendsAllTrans(t2, t1, t0);
    DescendsKind(t1[index], t0[index]);
    DescendsKind(t2[index], t1[index]);
    DescendsWellFormed(t2, t0);
    DescendsCalls(t1[index + 1], t0[index + 1]);
    FoldCalls(t0, t2, index, res, multiset(ll), multiset(rl));
    assert multiset(log + ll + rl) == multiset(log) + multiset(ll) + multiset(rl);
    SpliceWellFormed(t2, index, res);
  }

  /** The resolved names across one fold of a list without nested expressions. */
  lemma FoldTracked(t0: seq<Token>, t1: seq<Token>, t2: seq<Token>, index: int, res: Token,
                    prior: seq<Call>, log: seq<Call>, ll: seq<Call>, rl: seq<Call>, left: bool, right: bool,
                    resolve: string -> bool)
    requires index % 2 == 1 && 1 <= index < |t0| - 1 && res.ResultToken? && Alternating(t0)
    requires Flat(t0) && Distinct(prior + log) && Forgotten(t0, prior + log)
    requires Resolved(t0, index - 1, t1, ll, left, resolve)
    requires Resolved(t1, index + 1, t2, rl, right, resolve)
    ensures Flat(Splice(t2, index, res))
    ensures Distinct(prior + (log + ll + rl)) && Forgotten(Splice(t2, index, res), prior + (log + ll + rl))
  {
    OperandsAround(t0, index);
    FlatFoldStep(t0, t1, t2, index, res, prior + log, ll, rl, left, right, resolve);
    AppendAssoc(prior, log, ll, rl);
    SpliceWellFormed(t2, index, res);
  }

  /** The values across one fold, for a case-consistent resolver. */
  lemma FoldValues(t0: seq<Token>, t1: seq<Token>, t2: seq<Token>, index: int,
                   ll: seq<Call>, rl: seq<Call>, left: bool, right: bool, resolve: string -> bool)
    requires 1 <= index < |t0| - 1 && CaseConsistent(resolve)
    requires Resolved(t0, index - 1, t1, ll, left, resolve)
    requires Resolved(t1, index + 1, t2, rl, right, resolve)
    ensures SameValues(t2, t0, resolve) && Value(t2, resolve) == Value(t0, resolve)
    ensures left == OperandValue(t2[index - 1], resolve) && right == OperandValue(t2[index + 1], resolve)
    ensures left == OperandValue(t0[index - 1], resolve) && right == OperandValue(t0[index + 1], resolve)
  {
    AccCongruence(t2, t1, resolve);
    AccCongruence(t1, t0, resolve);
  }

  /** Folding `l AND r` at `index` keeps the AND-pass state, with the index
      moved back to the new result. */
  lemma AndFoldStep(input: seq<Token>, t0: seq<Token>, t1: seq<Token>, t2: seq<Token>, index: int,
                    prior: seq<Call>, log: seq<Call>, ll: seq<Call>, rl: seq<Call>, left: bool, right: bool,
                    track: bool, resolve: string -> bool)
    requires index % 2 == 1 && 1 <= index < |t0| - 1 && t0[index].AndToken?
    requires AndPassState(input, t0, index - 1, prior, log, track, resolve)
    requires Resolved(t0, index - 1, t1, ll, left, resolve)
    requires Resolved(t1, index + 1, t2, rl, right, resolve)
    ensures AndPassState(input, Splice(t2, index, ResultToken(left && right)), index - 1, prior, log + ll + rl, track, resolve)
  {
    var res := ResultToken(left && right);
    var s := Splice(t2, index, res);
    FoldShape(input, t0, t1, t2, index, res, log, ll, rl, left, right, resolve);
    if track {
      FoldTracked(t0, t1, t2, index, res, prior, log, ll, rl, left, right, resolve);
    }
    if CaseConsistent(resolve) {
      FoldValues(t0, t1, t2, index, ll, rl, left, right, resolve);
      AndFoldValue(t2, index, left && right, resolve);
    }
    AndPrefixKept(t0, t2, index, res);
  }

  lemma AndPrefixKept(t0: seq<Token>, t2: seq<Token>, index: int, res: Token)
    requires 1 <= index < |t0| - 1 && DescendsAll(t2, t0) && res.ResultToken?
    requires forall j | 0 <= j <= index - 1 :: !t0[j].AndToken?
    ensures forall j | 0 <= j <= index - 1 :: !Splice(t2, index, res)[j].AndToken?
  {
    var s := Splice(t2, index, res);
    forall j | 0 <= j <= index - 1 ensures !s[j].AndToken? {
      if j < index - 1 {
        assert s[j] == t2[j];
        DescendsKind(t2[j], t0[j]);
      }
    }
  }

  /** Stepping over a token that is not AND keeps the AND-pass state. */
  lemma AndSkipStep(input: seq<Token>, t: seq<Token>, index: int, prior: seq<Call>, log: seq<Call>,
                    track: bool, resolve: string -> bool)
    requires AndPassState(input, t, index, prior, log, track, resolve)
    requires index + 1 < |t| && !t[index + 1].AndToken?
    ensures AndPassState(input, t, index + 1, prior, log, track, resolve)
  {
  }

  /** What the AND pass (Expression.Evaluate, first loop) leaves: a well-formed
      list without AND, no longer than the input and the input itself when that is
      a single operand, with the input's value, whose remaining names and the
      calls made are names of the input; on a list without nested expressions the
      calls so far are of distinct names none of which is still in the list. The
      body is one comparison, so that a loop or a call checks the state as one
      fact. */
  ghost predicate AndPassEnd(input: seq<Token>, t: seq<Token>, prior: seq<Call>, log: seq<Call>,
                             track: bool, resolve: string -> bool)
  {
    (
      && WellFormed(t) && NoAnd(t) && |t| <= |input| && (Flat(input) ==> Flat(t))
      && (NoAnd(input) ==> t == input && log == [])
      && (|input| == 1 ==> t == input)
      && (|t| == 1 && |input| > 1 ==> t[0].ResultToken?)
      && (CaseConsistent(resolve) ==> Value(t, resolve) == Value(input, resolve))
      && multiset(log) + Calls(t) <= Calls(input)
      && (track ==> Flat(t) && Distinct(prior + log) && Forgotten(t, prior + log))
    ) == true
  }

  /** At the end of the AND pass no AND is left. */
  lemma AndPassDone(input: seq<Token>, t: seq<Token>, index: int, prior: seq<Call>, log: seq<Call>,
                    track: bool, resolve: string -> bool)
    requires AndPassState(input, t, index, prior, log, track, resolve) && index + 1 >= |t|
    ensures AndPassEnd(input, t, prior, log, track, resolve)
  {
  }

  // ---------------------------------------------------------------------------
  // The OR pass

  /** The tokens of `t` from position `from` onwards are rewritten forms, with
      the same values, of the input tokens `shift` places further right. */
  ghost predicate Unfolded(input: seq<Token>, t: seq<Token>, from: int, shift: int, resolve: string -> bool)
  {
    && 0 <= from && 0 <= shift && |t| + shift == |input|
    && (forall j | from <= j < |t| :: Descends(t[j], input[j + shift]))
    && (CaseConsistent(resolve) ==> forall j | from <= j < |t| ::
          OperandValue(t[j], resolve) == OperandValue(input[j + shift], resolve))
  }

  /** What the OR pass keeps between iterations: `shift / 2` pairs have been
      folded so far (so the next pair starts at a multiple of four), the tokens from position `index` onwards are still unfolded
      input tokens, every call made so far was for a name of the input before
      position `index + shift`, the input has no true operand before that position
      (every pair folded so far was false), and the list keeps its shape, its
      value and its names as in the AND pass. The body is one comparison, so that
      a loop or a call checks the state as one fact. */
  ghost predicate OrPassState(input: seq<Token>, t: seq<Token>, index: int, shift: int, prior: seq<Call>, log: seq<Call>,
                              track: bool, resolve: string -> bool)
  {
    (
      OrPassList(input, t, prior, log, track, resolve) && OrPassProgress(input, t, index, shift, log, resolve)
    ) == true
  }

  /** The part of the OR-pass state that does not depend on the position. */
  ghost predicate OrPassList(input: seq<Token>, t: seq<Token>, prior: seq<Call>, log: seq<Call>,
                             track: bool, resolve: string -> bool)
  {
    && WellFormed(input) && NoAnd(input)
    && WellFormed(t) && NoAnd(t) && (Flat(input) ==> Flat(t))
    && (|input| == 1 ==> t == input)
    && (CaseConsistent(resolve) ==> Value(t, resolve) == Value(input, resolve))
    && multiset(log) + Calls(t) <= Calls(input)
    && (track ==> Flat(t) && Distinct(prior + log) && Forgotten(t, prior + log))
  }

  /** The part of the OR-pass state that ties the position to the input. */
  ghost predicate OrPassProgress(input: seq<Token>, t: seq<Token>, index: int, shift: int, log: seq<Call>,
                                 resolve: string -> bool)
  {
    && 0 <= index <= |t|
    && Unfolded(input, t, index, shift, resolve)
    && (|input| > 1 && index > 0 ==> shift > 0)
    && (shift > 0 ==> |t| > 0 && t[0].ResultToken?)
    && multiset(log) <= Calls(input[..index + shift])
    && (CaseConsistent(resolve) ==> !TrueBefore(input, index + shift, resolve))
    && PairAligned(index, shift)
  }

  /** The OR pass folds the pairs of input operands at 4k and 4k + 2: at an
      operand the next pair starts at a multiple of four, and at an operator
      (just after a fold) three places past one. */
  predicate PairAligned(index: int, shift: int) {
    (index + shift) % 4 == if index % 2 == 0 then 0 else 3
  }

  lemma SkipAligned(index: int, shift: int)
    requires PairAligned(index, shift) && (index + 1) % 2 == 0
    ensures PairAligned(index + 1, shift)
  {
  }

  lemma FoldAligned(index: int, shift: int)
    requires PairAligned(index - 1, shift) && (index - 1) % 2 == 0
    ensures PairAligned(index, shift + 2) && (index - 1 + shift) % 4 == 0
  {
  }

  /** Stepping over an operand keeps the OR-pass state. */
  lemma OrSkipStep(input: seq<Token>, t: seq<Token>, index: int, shift: int, prior: seq<Call>, log: seq<Call>,
                   track: bool, resolve: string -> bool)
    requires OrPassState(input, t, index, shift, prior, log, track, resolve)
    requires index + 1 < |t| && !t[index + 1].OrToken?
    ensures OrPassState(input, t, index + 1, shift, prior, log, track, resolve)
  {
    SkipProgress(input, t, index, shift, log, resolve);
  }

  lemma SkipProgress(input: seq<Token>, t: seq<Token>, index: int, shift: int, log: seq<Call>, resolve: string -> bool)
    requires OrPassProgress(input, t, index, shift, log, resolve) && Alternating(t) && NoAnd(t)
    requires index + 1 < |t| && !t[index + 1].OrToken?
    ensures OrPassProgress(input, t, index + 1, shift, log, resolve)
  {
    NotFirstOperator(t, index + 1);
    OperatorBefore(t, index);
    SkipAligned(index, shift);
    UnfoldedLater(input, t, index, shift, resolve);
    CallsPrefix(input, index + shift, index + 1 + shift, multiset(log));
    if CaseConsistent(resolve) {
      SkipFalse(input, t, index, shift, resolve);
    }
  }

  /** Stepping over an operand passes an OR, which is no true operand. */
  lemma SkipFalse(input: seq<Token>, t: seq<Token>, index: int, shift: int, resolve: string -> bool)
    requires CaseConsistent(resolve) && Alternating(t) && NoAnd(t) && Unfolded(input, t, index, shift, resolve)
    requires index + 1 < |t| && !t[index + 1].OrToken? && !TrueBefore(input, index + shift, resolve)
    ensures !TrueBefore(input, index + 1 + shift, resolve)
  {
    OperatorBefore(t, index);
    assert OperandValue(input[index + shift], resolve) == OperandValue(t[index], resolve);
  }

  /** In a list without AND, the token before one that is not OR is OR. */
  lemma OperatorBefore(ts: seq<Token>, k: int)
    requires Alternating(ts) && NoAnd(ts) && 0 <= k && k + 1 < |ts| && !ts[k + 1].OrToken?
    ensures ts[k].OrToken? && (k + 1) % 2 == 0
  {
    assert (k + 1) % 2 == 0;
  }

  lemma UnfoldedLater(input: seq<Token>, t: seq<Token>, from: int, shift: int, resolve: string -> bool)
    requires Unfolded(input, t, from, shift, resolve)
    ensures Unfolded(input, t, from + 1, shift, resolve)
  {
  }

  /** In a list without AND, a token that is not OR sits at an even position,
      so it is not the first operator. */
  lemma NotFirstOperator(ts: seq<Token>, k: int)
    requires Alternating(ts) && NoAnd(ts) && 0 <= k < |ts| && !ts[k].OrToken?
    ensures k != 1
  {
    if k == 1 {
      assert false;
    }
  }

  /** The calls made for the pair at `index` are for names of the three input
      tokens it came from. */
  lemma OrPairCalls(input: seq<Token>, t0: seq<Token>, t1: seq<Token>, t2: seq<Token>, index: int, shift: int,
                    log: seq<Call>, ll: seq<Call>, rl: seq<Call>, left: bool, right: bool, resolve: string -> bool)
    requires 1 <= index < |t0| - 1 && Unfolded(input, t0, index - 1, shift, resolve)
    requires TokenCalls(input[index + shift]) == multiset{}
    requires multiset(log) <= Calls(input[..index - 1 + shift])
    requires Resolved(t0, index - 1, t1, ll, left, resolve)
    requires Resolved(t1, index + 1, t2, rl, right, resolve)
    ensures multiset(log + ll + rl) <= Calls(input[..index + (shift + 2)])
  {
    assert index + (shift + 2) == index - 1 + shift + 3;
    var a := index - 1 + shift;
    CallsPrefixExtend(input, a);
    DescendsCalls(t0[index - 1], input[a]);
    DescendsCalls(t1[index + 1], t0[index + 1]);
    DescendsCalls(t0[index + 1], input[a + 2]);
  }

  /** If the pair at `index` is true, the input up to the pair's end has a true
      operand. */
  lemma OrPairTrue(input: seq<Token>, t0: seq<Token>, t1: seq<Token>, t2: seq<Token>, index: int, shift: int,
                   ll: seq<Call>, rl: seq<Call>, left: bool, right: bool, resolve: string -> bool)
    requires index % 2 == 1 && |t0| % 2 == 1 && |input| % 2 == 1 && CaseConsistent(resolve) && (left || right)
    requires 1 <= index < |t0| - 1 && Unfolded(input, t0, index - 1, shift, resolve)
    requires Resolved(t0, index - 1, t1, ll, left, resolve)
    requires Resolved(t1, index + 1, t2, rl, right, resolve)
    ensures TrueBefore(input, index + (shift + 2), resolve)
  {
    FoldValues(t0, t1, t2, index, ll, rl, left, right, resolve);
    var j := if left then index - 1 else index + 1;
    EvenSum(j, shift, |t0|, |input|);
    assert OperandValue(t0[j], resolve) == OperandValue(input[j + shift], resolve);
  }

  lemma EvenSum(j: int, shift: int, n: int, m: int)
    requires j % 2 == 0 && n % 2 == 1 && m % 2 == 1 && n + shift == m
    ensures (j + shift) % 2 == 0
  {
  }

  /** After folding the pair at `index`, the tokens right of the new result
      are still unfolded, two more places from their input tokens. */
  lemma OrFoldUnfolded(input: seq<Token>, t0: seq<Token>, t2: seq<Token>, index: int, shift: int, res: Token, resolve: string -> bool)
    requires 1 <= index < |t0| - 1 && Unfolded(input, t0, index - 1, shift, resolve)
    requires DescendsAll(t2, t0)
    requires CaseConsistent(resolve) ==> SameValues(t2, t0, resolve)
    ensures Unfolded(input, Splice(t2, index, res), index, shift + 2, resolve)
  {
    var s := Splice(t2, index, res);
    forall j | index <= j < |s|
      ensures Descends(s[j], input[j + shift + 2])
    {
      assert s[j] == t2[j + 2];
      DescendsTrans(t2[j + 2], t0[j + 2], input[j + 2 + shift]);
    }
    if CaseConsistent(resolve) {
      forall j | index <= j < |s|
        ensures OperandValue(s[j], resolve) == OperandValue(input[j + shift + 2], resolve)
      {
        assert s[j] == t2[j + 2];
      }
    }
  }

  /** Folding a false `l OR r` at `index` keeps the OR-pass state, with the index
      left on the new result. */
  lemma OrFoldStep(input: seq<Token>, t0: seq<Token>, t1: seq<Token>, t2: seq<Token>, index: int, shift: int,
                   prior: seq<Call>, log: seq<Call>, ll: seq<Call>, rl: seq<Call>, left: bool, right: bool,
                   track: bool, resolve: string -> bool)
    requires 1 <= index < |t0| - 1 && t0[index].OrToken? && !(left || right)
    requires OrPassState(input, t0, index - 1, shift, prior, log, track, resolve)
    requires Resolved(t0, index - 1, t1, ll, left, resolve)
    requires Resolved(t1, index + 1, t2, rl, right, resolve)
    ensures OrPassState(input, Splice(t2, index, ResultToken(left || right)), index, shift + 2, prior, log + ll + rl, track, resolve)
  {
    OrFoldList(input, t0, t1, t2, index, shift, prior, log, ll, rl, left, right, track, resolve);
    OrFoldProgress(input, t0, t1, t2, index, shift, log, ll, rl, left, right, resolve);
  }

  lemma OrFoldList(input: seq<Token>, t0: seq<Token>, t1: seq<Token>, t2: seq<Token>, index: int, shift: int,
                   prior: seq<Call>, log: seq<Call>, ll: seq<Call>, rl: seq<Call>, left: bool, right: bool,
                   track: bool, resolve: string -> bool)
    requires 1 <= index < |t0| - 1 && t0[index].OrToken? && !(left || right)
    requires OrPassState(input, t0, index - 1, shift, prior, log, track, resolve)
    requires Resolved(t0, index - 1, t1, ll, left, resolve)
    requires Resolved(t1, index + 1, t2, rl, right, resolve)
    ensures OrPassList(input, Splice(t2, index, ResultToken(left || right)), prior, log + ll + rl, track, resolve)
  {
    OperatorParity(t0, index);
    var res := ResultToken(left || right);
    FoldShape(input, t0, t1, t2, index, res, log, ll, rl, left, right, resolve);
    if track {
      FoldTracked(t0, t1, t2, index, res, prior, log, ll, rl, left, right, resolve);
    }
    if CaseConsistent(resolve) {
      FoldValues(t0, t1, t2, index, ll, rl, left, right, resolve);
      OrFoldValue(t2, index, left || right, resolve);
    }
  }

  lemma OrFoldProgress(input: seq<Token>, t0: seq<Token>, t1: seq<Token>, t2: seq<Token>, index: int, shift: int,
                       log: seq<Call>, ll: seq<Call>, rl: seq<Call>, left: bool, right: bool, resolve: string -> bool)
    requires 1 <= index < |t0| - 1 && t0[index].OrToken? && !(left || right)
    requires OrPassProgress(input, t0, index - 1, shift, log, resolve) && |input| > 1
    requires WellFormed(t0) && multiset(log) + Calls(t0) <= Calls(input)
    requires Resolved(t0, index - 1, t1, ll, left, resolve)
    requires Resolved(t1, index + 1, t2, rl, right, resolve)
    ensures OrPassProgress(input, Splice(t2, index, ResultToken(left || right)), index, shift + 2, log + ll + rl, resolve)
  {
    OperatorParity(t0, index);
    var res := ResultToken(left || right);
    FoldShape(input, t0, t1, t2, index, res, log, ll, rl, left, right, resolve);
    if CaseConsistent(resolve) {
      FoldValues(t0, t1, t2, index, ll, rl, left, right, resolve);
    }
    assert Descends(t0[index], input[index + shift]);
    DescendsKind(t0[index], input[index + shift]);
    OrPairCalls(input, t0, t1, t2, index, shift, log, ll, rl, left, right, resolve);
    OrFoldUnfolded(input, t0, t2, index, shift, res, resolve);
    FoldAligned(index, shift);
    if CaseConsistent(resolve) {
      OrPairFalse(input, t0, index, shift, left, right, resolve);
    }
    if index > 1 {
      DescendsKind(t2[0], t0[0]);
    }
  }

  /** A false pair keeps the input before the next pair free of true operands. */
  lemma OrPairFalse(input: seq<Token>, t0: seq<Token>, index: int, shift: int, left: bool, right: bool, resolve: string -> bool)
    requires CaseConsistent(resolve) && 1 <= index < |t0| - 1 && t0[index].OrToken?
    requires Unfolded(input, t0, index - 1, shift, resolve)
    requires left == OperandValue(t0[index - 1], resolve) && right == OperandValue(t0[index + 1], resolve)
    requires !left && !right && !TrueBefore(input, index - 1 + shift, resolve)
    ensures !TrueBefore(input, index + (shift + 2), resolve)
  {
    var a := index - 1 + shift;
    assert OperandValue(input[a + 1], resolve) == OperandValue(t0[index], resolve);
  }

  /** A true `l OR r` at `index` ends the pass, leaving a well-formed list
      whose calls are calls of the input. */
  lemma OrShortStep(input: seq<Token>, t0: seq<Token>, t1: seq<Token>, t2: seq<Token>, index: int, shift: int,
                    prior: seq<Call>, log: seq<Call>, ll: seq<Call>, rl: seq<Call>, left: bool, right: bool,
                    track: bool, resolve: string -> bool)
    requires 1 <= index < |t0| - 1 && t0[index].OrToken? && (left || right)
    requires OrPassState(input, t0, index - 1, shift, prior, log, track, resolve)
    requires Resolved(t0, index - 1, t1, ll, left, resolve)
    requires Resolved(t1, index + 1, t2, rl, right, resolve)
    ensures WellFormed(t2) && NoAnd(t2) && |t2| <= |input| && (Flat(input) ==> Flat(t2))
    ensures multiset(log + ll + rl) <= Calls(input)
    ensures track ==> Flat(t2) && Distinct(prior + (log + ll + rl))
  {
    OperatorParity(t0, index);
    var res := ResultToken(true);
    FoldShape(input, t0, t1, t2, index, res, log, ll, rl, left, right, resolve);
    if track {
      FoldTracked(t0, t1, t2, index, res, prior, log, ll, rl, left, right, resolve);
    }
  }

  /** When a true `l OR r` at `index` ends the pass, the input is true and
      everything resolved lies in the input up to the end of the pair, which
      holds the first true operand. */
  lemma OrShortPrefix(input: seq<Token>, t0: seq<Token>, t1: seq<Token>, t2: seq<Token>, index: int, shift: int,
                      prior: seq<Call>, log: seq<Call>, ll: seq<Call>, rl: seq<Call>, left: bool, right: bool,
                      track: bool, resolve: string -> bool)
    requires 1 <= index < |t0| - 1 && t0[index].OrToken? && (left || right)
    requires OrPassState(input, t0, index - 1, shift, prior, log, track, resolve)
    requires Resolved(t0, index - 1, t1, ll, left, resolve)
    requires Resolved(t1, index + 1, t2, rl, right, resolve)
    ensures CaseConsistent(resolve) ==> Value(input, resolve)
    ensures StoppedAtFirstTrue(input, log + ll + rl, resolve)
  {
    OperatorParity(t0, index);
    assert Descends(t0[index], input[index + shift]);
    DescendsKind(t0[index], input[index + shift]);
    OrPairCalls(input, t0, t1, t2, index, shift, log, ll, rl, left, right, resolve);
    if CaseConsistent(resolve) {
      FoldAligned(index, shift);
      FoldValues(t0, t1, t2, index, ll, rl, left, right, resolve);
      var j := OrPairFirst(input, t0, index, shift, left, right, resolve);
      assert SomeOperandTrue(input, resolve);
      NoAndValue(input, resolve);
      assert FirstTrue(input, j, resolve) && multiset(log + ll + rl) <= Calls(input[..PairEnd(|input|, j)]);
    }
  }

  /** The first true pair of the pass holds the first true operand of the
      input, and the pair ends where that operand's pair does. */
  lemma OrPairFirst(input: seq<Token>, t0: seq<Token>, index: int, shift: int, left: bool, right: bool,
                    resolve: string -> bool)
    returns (j: int)
    requires CaseConsistent(resolve) && (left || right) && (index - 1) % 2 == 0 && |t0| % 2 == 1 && |input| % 2 == 1
    requires 1 <= index < |t0| - 1 && Unfolded(input, t0, index - 1, shift, resolve)
    requires left == OperandValue(t0[index - 1], resolve) && right == OperandValue(t0[index + 1], resolve)
    requires !TrueBefore(input, index - 1 + shift, resolve) && (index - 1 + shift) % 4 == 0
    ensures FirstTrue(input, j, resolve) && PairEnd(|input|, j) == index + (shift + 2)
  {
    var a := index - 1 + shift;
    EvenSum(index - 1, shift, |t0|, |input|);
    assert OperandValue(t0[index - 1], resolve) == OperandValue(input[a], resolve);
    assert OperandValue(t0[index + 1], resolve) == OperandValue(input[a + 2], resolve);
    PairEnds(|input|, a);
    if left {
      j := a;
    } else {
      j := a + 2;
      FirstTrueRight(input, a, resolve);
    }
  }

  /** Both operands of the pair at `a` and `a + 2` end their pair at `a + 3`. */
  lemma PairEnds(n: int, a: int)
    requires 0 <= a && a + 2 < n && a % 4 == 0
    ensures PairEnd(n, a) == a + 3 && PairEnd(n, a + 2) == a + 3
  {
  }

  /** A true right operand of a pair whose left operand and everything before
      are false is the first true operand. */
  lemma FirstTrueRight(ts: seq<Token>, a: int, resolve: string -> bool)
    requires 0 <= a && a + 2 < |ts| && a % 2 == 0 && !TrueBefore(ts, a, resolve)
    requires !OperandValue(ts[a], resolve) && OperandValue(ts[a + 2], resolve)
    ensures FirstTrue(ts, a + 2, resolve)
  {
  }

  /** What the OR pass (Expression.Evaluate, second loop) leaves. In every case a
      well-formed list without AND whose calls are of names of the input, distinct
      on a list without nested expressions. When it stopped early on a true pair,
      then for a case-consistent resolver the input is true and no operand right
      of the pair holding its first true operand was resolved. Otherwise the
      list's remaining names and the calls made are names of the input, with no
      resolved name left on a list without nested expressions, and the list has
      shrunk unless the input was a single operand; for a case-consistent
      resolver every pair was false, so no operand but the last is true, and the
      list has the input's value. The body is one comparison, so that a loop or a
      call checks the state as one fact. */
  ghost predicate OrPassEnd(input: seq<Token>, t: seq<Token>, shortCircuited: bool, prior: seq<Call>, log: seq<Call>,
                            track: bool, resolve: string -> bool)
  {
    (
      && WellFormed(t) && NoAnd(t) && |t| <= |input| && (Flat(input) ==> Flat(t))
      && multiset(log) <= Calls(input)
      && (track ==> Flat(t) && Distinct(prior + log))
      && (shortCircuited ==>
            && (CaseConsistent(resolve) ==> Value(input, resolve))
            && StoppedAtFirstTrue(input, log, resolve))
      && (!shortCircuited ==>
            && (CaseConsistent(resolve) ==> Value(t, resolve) == Value(input, resolve))
            && (CaseConsistent(resolve) ==> !TrueBefore(input, |input| - 1, resolve))
            && multiset(log) + Calls(t) <= Calls(input)
            && (track ==> Forgotten(t, prior + log))
            && (|input| > 1 ==> |t| < |input|)
            && (|input| == 1 ==> t == input)
            && (|t| == 1 && |input| > 1 ==> t[0].ResultToken?))
    ) == true
  }

  /** An OR pass that ran to the end. */
  lemma OrPassDone(input: seq<Token>, t: seq<Token>, index: int, shift: int, prior: seq<Call>, log: seq<Call>,
                   track: bool, resolve: string -> bool)
    requires OrPassState(input, t, index, shift, prior, log, track, resolve) && index + 1 >= |t|
    ensures OrPassEnd(input, t, false, prior, log, track, resolve)
  {
    assert |t| + shift == |input| && |input| % 2 == 1;
  }

  /** An OR pass stopped by a true pair at `index`. */
  lemma OrPassShort(input: seq<Token>, t0: seq<Token>, t1: seq<Token>, t2: seq<Token>, index: int, shift: int,
                    prior: seq<Call>, log: seq<Call>, ll: seq<Call>, rl: seq<Call>, left: bool, right: bool,
                    track: bool, resolve: string -> bool)
    requires 1 <= index < |t0| - 1 && t0[index].OrToken? && (left || right)
    requires OrPassState(input, t0, index - 1, shift, prior, log, track, resolve)
    requires Resolved(t0, index - 1, t1, ll, left, resolve)
    requires Resolved(t1, index + 1, t2, rl, right, resolve)
    ensures OrPassEnd(input, t2, true, prior, log + ll + rl, track, resolve)
  {
    OrShortStep(input, t0, t1, t2, index, shift, prior, log, ll, rl, left, right, track, resolve);
    OrShortPrefix(input, t0, t1, t2, index, shift, prior, log, ll, rl, left, right, track, resolve);
  }

  /** One OR pair of the pass, both operands resolved: a true pair ends the
      pass, a false one is folded and the pass moves on. */
  lemma OrPairOutcome(input: seq<Token>, t0: seq<Token>, t1: seq<Token>, t2: seq<Token>, index: int, shift: int,
                      prior: seq<Call>, log: seq<Call>, ll: seq<Call>, rl: seq<Call>, left: bool, right: bool,
                      track: bool, resolve: string -> bool)
    requires 1 <= index < |t0| - 1 && t0[index].OrToken?
    requires OrPassState(input, t0, index - 1, shift, prior, log, track, resolve)
    requires Resolved(t0, index - 1, t1, ll, left, resolve)
    requires Resolved(t1, index + 1, t2, rl, right, resolve)
    ensures |t2| == |t0| && PairResolved(t0, index, t2, left, right, resolve)
    ensures left || right ==> OrPassEnd(input, t2, true, prior, log + (ll + rl), track, resolve)
    ensures !(left || right) ==>
              OrPassState(input, Splice(t2, index, ResultToken(false)), index, shift + 2, prior, log + (ll + rl), track, resolve)
  {
    PairResolvedOf(t0, t1, t2, index, ll, rl, left, right, resolve);
    Append3(log, ll, rl);
    if left || right {
      OrPassShort(input, t0, t1, t2, index, shift, prior, log, ll, rl, left, right, track, resolve);
    } else {
      OrFoldStep(input, t0, t1, t2, index, shift, prior, log, ll, rl, left, right, track, resolve);
    }
  }

  /** Resolving one operand leaves every token's kind where it was. */
  lemma ResolvedKinds(before: seq<Token>, k: int, after: seq<Token>, log: seq<Call>, b: bool, resolve: string -> bool, j: int)
    requires 0 <= k < |before| && Resolved(before, k, after, log, b, resolve) && 0 <= j < |before|
    ensures |after| == |before| && after[j].IsOperand() == before[j].IsOperand()
    ensures after[j].AndToken? == before[j].AndToken? && after[j].OrToken? == before[j].OrToken?
  {
    DescendsKind(after[j], before[j]);
  }

  lemma OperatorParity(ts: seq<Token>, i: int)
    requires Alternating(ts) && 0 <= i < |ts| && ts[i].IsOperator()
    ensures i % 2 == 1 && (i - 1) % 2 == 0 && (i + 1) % 2 == 0 && 1 <= i < |ts| - 1
  {
  }

  lemma OperandsAround(ts: seq<Token>, i: int)
    requires Alternating(ts) && i % 2 == 1 && 1 <= i < |ts| - 1
    ensures ts[i - 1].IsOperand() && ts[i + 1].IsOperand()
  {
    assert (i - 1) % 2 == 0 && (i + 1) % 2 == 0;
  }

  // ---------------------------------------------------------------------------
  // Rounds of Expression.Evaluate

  /** The lists Expression.Evaluate answers without reducing: a single policy
      name or a single nested expression. */
  predicate FastPath(ts: seq<Token>) {
    |ts| == 1 && (ts[0].PolicyNameToken? || ts[0].NestedExpression?)
  }

  /** What Expression.Evaluate promises of a run on `input` that answered
      `result`, made the resolver calls `log` and left the list `t`. With a
      resolver that ignores case the answer is the value of the list with AND
      binding tighter than OR. Every call is for a policy-name token of the input,
      and on a list without nested expressions no name is resolved twice. With a
      case-consistent resolver, a true answer on a list without AND resolved no
      operand right of the OR pair holding the first true operand. The list left
      is well formed and no longer; it is the input itself on the two fast paths,
      and the single result false when the answer is false after reducing. The
      body is one comparison, so that a call checks it as one fact. */
  ghost predicate Evaluated(input: seq<Token>, t: seq<Token>, result: bool, log: seq<Call>, resolve: string -> bool)
  {
    (
      && (CaseConsistent(resolve) ==> result == Value(input, resolve))
      && multiset(log) <= Calls(input)
      && (Flat(input) ==> Distinct(log))
      && (result && NoAnd(input) ==> StoppedAtFirstTrue(input, log, resolve))
      && WellFormed(t) && |t| <= |input|
      && (FastPath(input) ==> t == input)
      && (!FastPath(input) && !result ==> t == [ResultToken(false)])
    ) == true
  }

  /** The first fast path: a single policy name is answered by the resolver. */
  lemma NameEvaluated(input: seq<Token>, result: bool, log: seq<Call>, resolve: string -> bool)
    requires WellFormed(input) && |input| == 1 && input[0].PolicyNameToken?
    requires result == resolve(input[0].name) && log == [Call(input[0].position, input[0].name)]
    ensures Evaluated(input, input, result, log, resolve)
  {
    assert input[1..] == [];
    assert Calls(input) == multiset(log);
    SingleValue(input, resolve);
    if result {
      StoppedAtSingle(input, log, resolve);
    }
  }

  /** The second fast path: a single nested expression is answered by
      evaluating it on its own. */
  lemma NestedEvaluated(input: seq<Token>, inner: seq<Token>, result: bool, log: seq<Call>, resolve: string -> bool)
    requires WellFormed(input) && |input| == 1 && input[0].NestedExpression?
    requires Evaluated(input[0].tokens, inner, result, log, resolve)
    ensures Evaluated(input, input, result, log, resolve)
  {
    assert input[1..] == [];
    assert Calls(input) == Calls(input[0].tokens);
    SingleValue(input, resolve);
    if result {
      StoppedAtSingle(input, log, resolve);
    }
  }

  /** A true single operand is the first true operand of its list. */
  lemma StoppedAtSingle(input: seq<Token>, log: seq<Call>, resolve: string -> bool)
    requires |input| == 1 && multiset(log) <= Calls(input)
    requires CaseConsistent(resolve) ==> OperandValue(input[0], resolve)
    ensures StoppedAtFirstTrue(input, log, resolve)
  {
    assert input[..1] == input;
    if CaseConsistent(resolve) {
      assert FirstTrue(input, 0, resolve) && multiset(log) <= Calls(input[..PairEnd(1, 0)]);
    }
  }

  /** What holds between rounds of Expression.Evaluate on a list that is not a
      fast path: the list is well formed, has the input's value and ends in a
      result once it is a single token, and its names and the calls made are names
      of the input; when `track` is set (the input has no nested expression) the
      calls are of distinct names none of which is still in the list. Before the
      first round the list is the input and no call was made; after it, on an
      input without AND, every operand but the last is false. The body is one
      comparison, so that a loop or a call checks the state as one fact. */
  ghost predicate EvaluateState(input: seq<Token>, t: seq<Token>, log: seq<Call>, first: bool, track: bool,
                                resolve: string -> bool)
  {
    (
      && WellFormed(input) && !FastPath(input) && track == Flat(input)
      && WellFormed(t) && |t| <= |input| && (Flat(input) ==> Flat(t))
      && (|t| == 1 ==> t[0].ResultToken?)
      && (CaseConsistent(resolve) ==> Value(t, resolve) == Value(input, resolve))
      && multiset(log) + Calls(t) <= Calls(input)
      && (track ==> Flat(t) && Distinct(log) && Forgotten(t, log))
      && (first ==> t == input && log == [])
      && (!first && NoAnd(input) ==> (CaseConsistent(resolve) ==> !TrueBefore(input, |input| - 1, resolve)))
    ) == true
  }

  /** The state before the first round. */
  lemma EvaluateStart(input: seq<Token>, track: bool, resolve: string -> bool)
    requires WellFormed(input) && !FastPath(input) && track == Flat(input)
    ensures EvaluateState(input, input, [], true, track, resolve)
  {
  }

  /** A true answer from the last round on a list without AND whose operands
      but the last are false: every call is of a name of the list, which
      takes in the true last operand and nothing right of the last pair. */
  lemma StoppedAtEnd(input: seq<Token>, log: seq<Call>, resolve: string -> bool)
    requires |input| % 2 == 1 && NoAnd(input) && multiset(log) <= Calls(input)
    requires CaseConsistent(resolve) ==> Value(input, resolve) && !TrueBefore(input, |input| - 1, resolve)
    ensures StoppedAtFirstTrue(input, log, resolve)
  {
    var last := |input| - 1;
    assert input[..last + 1] == input;
    if CaseConsistent(resolve) {
      NoAndValue(input, resolve);
      var j :| 0 <= j < |input| && j % 2 == 0 && OperandValue(input[j], resolve);
      assert j == last;
      assert FirstTrue(input, last, resolve) && multiset(log) <= Calls(input[..PairEnd(|input|, last)]);
    }
  }

  /** A round whose OR pass stopped on a true pair answers true. */
  lemma RoundShort(input: seq<Token>, t: seq<Token>, ta: seq<Token>, tb: seq<Token>, log: seq<Call>,
                   andLog: seq<Call>, orLog: seq<Call>, first: bool, track: bool, resolve: string -> bool)
    requires EvaluateState(input, t, log, first, track, resolve)
    requires AndPassEnd(t, ta, log, andLog, track, resolve)
    requires OrPassEnd(ta, tb, true, log + andLog, orLog, track, resolve)
    ensures Evaluated(input, tb, true, log + andLog + orLog, resolve)
  {
    var all := log + andLog + orLog;
    assert multiset(all) == multiset(log) + multiset(andLog) + multiset(orLog);
    assert multiset(all) <= Calls(input);
    assert CaseConsistent(resolve) ==> Value(input, resolve);
    assert track ==> Distinct(all);
    if NoAnd(input) {
      if first {
        assert all == orLog && ta == input;
      } else {
        StoppedAtEnd(input, all, resolve);
      }
    }
  }

  /** A round that ran both passes to the end keeps the state and shortens the
      list unless a single token is left. */
  lemma RoundContinue(input: seq<Token>, t: seq<Token>, ta: seq<Token>, tb: seq<Token>, log: seq<Call>,
                      andLog: seq<Call>, orLog: seq<Call>, first: bool, track: bool, resolve: string -> bool)
    requires EvaluateState(input, t, log, first, track, resolve)
    requires AndPassEnd(t, ta, log, andLog, track, resolve)
    requires OrPassEnd(ta, tb, false, log + andLog, orLog, track, resolve)
    ensures EvaluateState(input, tb, log + andLog + orLog, false, track, resolve)
    ensures |tb| == 1 || |tb| < |t|
  {
    AppendAssoc(log, andLog, orLog, []);
    assert log + andLog + orLog + [] == log + andLog + orLog;
    assert multiset(log + andLog + orLog) == multiset(log) + multiset(andLog) + multiset(orLog);
    assert multiset(log + andLog) == multiset(log) + multiset(andLog);
  }

  /** A round that left a single result answers that result. */
  lemma EvaluateDone(input: seq<Token>, t: seq<Token>, log: seq<Call>, track: bool, resolve: string -> bool)
    requires EvaluateState(input, t, log, false, track, resolve) && |t| == 1
    ensures Evaluated(input, t, t[0].result, log, resolve)
  {
    assert t == [t[0]];
    SingleValue(t, resolve);
    assert multiset(log) <= Calls(input);
    if t[0].result && NoAnd(input) {
      StoppedAtEnd(input, log, resolve);
    }
  }
}
