/** The meaning of a token list: the value the reducer of src/Core/Expression.cs
    is meant to compute (AND binds tighter than OR, left to right), the shape of
    the lists it works on, the memoisation rewrite it applies, and the policy
    names a list still mentions. */
module ExpressionSemantics {
  import opened Tokens

  // ---------------------------------------------------------------------------
  // Policy names are compared case-insensitively (StringComparison.OrdinalIgnoreCase,
  // here on ASCII letters).

  function UpperCase(c: char): char {
    if 'a' <= c <= 'z' then (c as int - 32) as char else c
  }

  function FoldCase(s: string): (r: string)
    ensures |r| == |s|
  {
    seq(|s|, i requires 0 <= i < |s| => UpperCase(s[i]))
  }

  predicate SameName(a: string, b: string) {
    FoldCase(a) == FoldCase(b)
  }

  /** A resolver that answers alike for names differing only in case. The
      reducer reuses the first answer for every spelling of a name, so its
      result is the precedence value only for such resolvers. */
  ghost predicate CaseConsistent(resolve: string -> bool) {
    forall a, b :: SameName(a, b) ==> resolve(a) == resolve(b)
  }

  // ---------------------------------------------------------------------------
  // Shapes

  /** Operands at the even positions, operators at the odd ones, odd length. */
  predicate Alternating(ts: seq<Token>) {
    |ts| % 2 == 1 &&
    forall i | 0 <= i < |ts| :: if i % 2 == 0 then ts[i].IsOperand() else ts[i].IsOperator()
  }

  predicate Flat(ts: seq<Token>) {
    forall i | 0 <= i < |ts| :: !ts[i].NestedExpression?
  }

  /** What the tree builder produces from a valid expression: an alternating
      list whose nested expressions are alternating and hold no nested
      expression themselves (one level of parentheses). */
  predicate WellFormed(ts: seq<Token>) {
    Alternating(ts) &&
    forall i | 0 <= i < |ts| && ts[i].NestedExpression? ::
      Alternating(ts[i].tokens) && Flat(ts[i].tokens)
  }

  predicate NoAnd(ts: seq<Token>) {
    forall i | 0 <= i < |ts| :: !ts[i].AndToken?
  }

  /** 0 for a list without nested expressions, 1 otherwise. */
  function Level(ts: seq<Token>): nat {
    if Flat(ts) then 0 else 1
  }

  function TokenDepth(t: Token): nat
    decreases t
  {
    if t.NestedExpression? then 1 + Depth(t.tokens) else 0
  }

  /** Nesting depth of a list. */
  function Depth(ts: seq<Token>): nat
    decreases ts
  {
    if ts == [] then 0
    else
      var d, e := TokenDepth(ts[0]), Depth(ts[1..]);
      if d < e then e else d
  }

  lemma {:induction false} NestedDepth(ts: seq<Token>, i: int)
    requires 0 <= i < |ts| && ts[i].NestedExpression?
    ensures Depth(ts[i].tokens) < Depth(ts)
    decreases i
  {
    if i > 0 {
      NestedDepth(ts[1..], i - 1);
    }
  }

  // ---------------------------------------------------------------------------
  // Values

  /** The value of an operand: a policy name asks the resolver, a result is its
      own value, a nested expression has the value of its list. */
  function OperandValue(t: Token, resolve: string -> bool): bool
    decreases t
  {
    match t
    case PolicyNameToken(_, name) => resolve(name)
    case ResultToken(b) => b
    case NestedExpression(ts) => Value(ts, resolve)
    case _ => false
  }

  /** The value of an alternating list with AND binding tighter than OR. */
  function Value(ts: seq<Token>, resolve: string -> bool): bool
    decreases ts, 1
  {
    var (done, current) := Acc(ts, resolve);
    done || current
  }

  /** Scanning from the left: `done` is the disjunction of the AND-chains
      already closed by an OR, `current` the conjunction of the open chain.
      The list is read from its end so that the last operator and operand are
      the step. */
  function Acc(ts: seq<Token>, resolve: string -> bool): (bool, bool)
    decreases ts, 0
  {
    if |ts| <= 1 then
      (false, if ts == [] then false else OperandValue(ts[0], resolve))
    else
      var (done, current) := Acc(ts[..|ts| - 2], resolve);
      var v := OperandValue(ts[|ts| - 1], resolve);
      if ts[|ts| - 2].AndToken? then (done, current && v) else (done || current, v)
  }

  /** A single operand is worth its own value. */
  lemma SingleValue(ts: seq<Token>, resolve: string -> bool)
    requires |ts| == 1
    ensures Value(ts, resolve) == OperandValue(ts[0], resolve)
  {
  }

  /** Some operand of the list is true. */
  ghost predicate SomeOperandTrue(ts: seq<Token>, resolve: string -> bool) {
    exists j :: 0 <= j < |ts| && j % 2 == 0 && OperandValue(ts[j], resolve)
  }

  /** Some operand among the first `k` tokens of `ts` is true. */
  ghost predicate TrueBefore(ts: seq<Token>, k: int, resolve: string -> bool) {
    exists j ::
      0 <= j < k && j < |ts| && j % 2 == 0 && OperandValue(ts[j], resolve)
  }

  /** The end of the pair an OR pass over a list of `n` tokens without AND
      folds operand `j` into: the pass folds the operands at 4k and 4k + 2,
      and leaves a last operand at 4k unpaired. */
  function PairEnd(n: int, j: int): (e: int)
    requires 0 <= j < n
    ensures j < e <= n
  {
    if j % 4 == 0 && j + 3 <= n then j + 3 else j + 1
  }

  /** Operand `j` is the leftmost true operand of the list. */
  ghost predicate FirstTrue(ts: seq<Token>, j: int, resolve: string -> bool) {
    0 <= j < |ts| && j % 2 == 0 && OperandValue(ts[j], resolve) && !TrueBefore(ts, j, resolve)
  }

  /** With a case-consistent resolver, the list has a first true operand and
      every resolver call in `log` was for a name of the tokens up to the end of
      the OR pair that holds it: no operand right of that pair was resolved. */
  ghost predicate StoppedAtFirstTrue(ts: seq<Token>, log: seq<Call>, resolve: string -> bool) {
    CaseConsistent(resolve) ==>
      exists j :: FirstTrue(ts, j, resolve) && multiset(log) <= Calls(ts[..PairEnd(|ts|, j)])
  }

  /** The calls of such a stop are for names of the tokens up to the end of
      the pair that holds any true operand `j`, the first one included. */
  lemma FirstTrueBound(ts: seq<Token>, log: seq<Call>, j: int, resolve: string -> bool)
    requires StoppedAtFirstTrue(ts, log, resolve) && CaseConsistent(resolve)
    requires 0 <= j < |ts| && j % 2 == 0 && OperandValue(ts[j], resolve)
    ensures multiset(log) <= Calls(ts[..if j + 3 < |ts| then j + 3 else |ts|])
  {
    var f :| FirstTrue(ts, f, resolve) && multiset(log) <= Calls(ts[..PairEnd(|ts|, f)]);
    assert j < f ==> TrueBefore(ts, f, resolve);
    CallsPrefix(ts, PairEnd(|ts|, f), if j + 3 < |ts| then j + 3 else |ts|, multiset(log));
  }

  /** In `A OR B OR C` with only `B` true the OR pair `A OR B` holds the first
      true operand, so a run that also resolved `C` did not stop there. */
  lemma PastPairExcluded()
    ensures var ts := [PolicyNameToken(0, "A"), OrToken(2), PolicyNameToken(5, "B"), OrToken(7), PolicyNameToken(10, "C")];
            var resolve := (s: string) => SameName(s, "B");
            CaseConsistent(resolve) &&
            !StoppedAtFirstTrue(ts, [Call(0, "A"), Call(5, "B"), Call(10, "C")], resolve)
  {
    var ts := [PolicyNameToken(0, "A"), OrToken(2), PolicyNameToken(5, "B"), OrToken(7), PolicyNameToken(10, "C")];
    var resolve := (s: string) => SameName(s, "B");
    var log := [Call(0, "A"), Call(5, "B"), Call(10, "C")];
    ExampleFirstTrue(ts, resolve);
    ExamplePrefixCalls(ts);
    assert Call(10, "C") in multiset(log);
  }

  lemma ExampleFirstTrue(ts: seq<Token>, resolve: string -> bool)
    requires ts == [PolicyNameToken(0, "A"), OrToken(2), PolicyNameToken(5, "B"), OrToken(7), PolicyNameToken(10, "C")]
    requires forall s :: resolve(s) == SameName(s, "B")
    ensures forall j | FirstTrue(ts, j, resolve) :: j == 2 && PairEnd(|ts|, j) == 3
  {
    assert FoldCase("A") == "A" && FoldCase("B") == "B";
    assert !OperandValue(ts[0], resolve) && OperandValue(ts[2], resolve);
    forall j | FirstTrue(ts, j, resolve)
      ensures j == 2
    {
      assert j != 0;
      assert j >= 4 ==> TrueBefore(ts, j, resolve);
    }
  }

  lemma ExamplePrefixCalls(ts: seq<Token>)
    requires ts == [PolicyNameToken(0, "A"), OrToken(2), PolicyNameToken(5, "B"), OrToken(7), PolicyNameToken(10, "C")]
    ensures Call(10, "C") !in Calls(ts[..3])
  {
    var p := ts[..3];
    assert p[1..] == [ts[1], ts[2]] && p[1..][1..] == [ts[2]] && p[1..][1..][1..] == [];
    assert Calls(p[1..][1..]) == TokenCalls(ts[2]) + Calls([]);
    assert Calls(p[1..]) == TokenCalls(ts[1]) + Calls(p[1..][1..]);
    assert Calls(p) == TokenCalls(ts[0]) + Calls(p[1..]);
  }

  /** A true operand among the first `k` tokens is a true operand of the list. */
  lemma TrueBeforeSome(ts: seq<Token>, k: int, resolve: string -> bool)
    requires TrueBefore(ts, k, resolve)
    ensures SomeOperandTrue(ts, resolve)
  {
    var j :| 0 <= j < k && j < |ts| && j % 2 == 0 && OperandValue(ts[j], resolve);
  }

  /** Two lists that agree on where the ANDs are and on every operand's value. */
  ghost predicate SameValues(ts: seq<Token>, us: seq<Token>, resolve: string -> bool) {
    |ts| == |us| &&
    forall i | 0 <= i < |ts| ::
      ts[i].AndToken? == us[i].AndToken? && OperandValue(ts[i], resolve) == OperandValue(us[i], resolve)
  }

  /** The list with the three tokens around position `i` replaced by `r`. */
  function Splice(ts: seq<Token>, i: int, r: Token): (s: seq<Token>)
    requires 1 <= i < |ts| - 1
    ensures |s| == |ts| - 2
  {
    ts[..i - 1] + [r] + ts[i + 2..]
  }

  lemma {:induction false} AccAndFold(p: seq<Token>, l: Token, op: Token, r: Token, res: Token, s: seq<Token>, resolve: string -> bool)
    requires |s| % 2 == 0 && op.AndToken?
    requires OperandValue(res, resolve) == (OperandValue(l, resolve) && OperandValue(r, resolve))
    ensures Acc(p + [l, op, r] + s, resolve) == Acc(p + [res] + s, resolve)
    decreases |s|
  {
    if s == [] {
      assert p + [l, op, r] + s == p + [l, op, r] && p + [res] + s == p + [res];
      AccAndPair(p, l, op, r, res, resolve);
    } else {
      var s' := s[..|s| - 2];
      AccAndFold(p, l, op, r, res, s', resolve);
      assert p + [l, op, r] + s == (p + [l, op, r] + s') + [s[|s| - 2], s[|s| - 1]];
      assert p + [res] + s == (p + [res] + s') + [s[|s| - 2], s[|s| - 1]];
      AccExtend(p + [l, op, r] + s', p + [res] + s', s[|s| - 2], s[|s| - 1], resolve);
    }
  }

  /** `l AND r` at the end of a list accumulates as a token with its value. */
  lemma AccAndPair(p: seq<Token>, l: Token, op: Token, r: Token, res: Token, resolve: string -> bool)
    requires op.AndToken?
    requires OperandValue(res, resolve) == (OperandValue(l, resolve) && OperandValue(r, resolve))
    ensures Acc(p + [l, op, r], resolve) == Acc(p + [res], resolve)
  {
    var a, b := p + [l, op, r], p + [res];
    assert a[..|a| - 2] == p + [l] && a[|a| - 1] == r && a[|a| - 2] == op;
    if p != [] {
      var c := p + [l];
      assert c[..|c| - 2] == p[..|p| - 1] && c[|c| - 1] == l && c[|c| - 2] == p[|p| - 1];
      assert b[..|b| - 2] == p[..|p| - 1] && b[|b| - 1] == res && b[|b| - 2] == p[|p| - 1];
    }
  }

  /** Lists that accumulate alike still do after the same two tokens. */
  lemma AccExtend(a: seq<Token>, b: seq<Token>, x: Token, y: Token, resolve: string -> bool)
    requires a != [] && b != [] && Acc(a, resolve) == Acc(b, resolve)
    ensures Acc(a + [x, y], resolve) == Acc(b + [x, y], resolve)
  {
    assert (a + [x, y])[..|a|] == a && (b + [x, y])[..|b|] == b;
  }

  /** Replacing `l AND r` by a token with the value of the conjunction keeps the
      value of the list. */
  lemma AndFoldValue(ts: seq<Token>, i: int, b: bool, resolve: string -> bool)
    requires |ts| % 2 == 1 && i % 2 == 1 && 1 <= i < |ts| - 1 && ts[i].AndToken?
    requires b == (OperandValue(ts[i - 1], resolve) && OperandValue(ts[i + 1], resolve))
    ensures Value(Splice(ts, i, ResultToken(b)), resolve) == Value(ts, resolve)
  {
    var res := ResultToken(b);
    OddTail(|ts|, i);
    Around(ts, i);
    AccAndFold(ts[..i - 1], ts[i - 1], ts[i], ts[i + 1], res, ts[i + 2..], resolve);
  }

  lemma OddTail(n: int, i: int)
    requires n % 2 == 1 && i % 2 == 1 && i + 2 <= n
    ensures (n - (i + 2)) % 2 == 0
  {
  }

  /** A list is its prefix, the three tokens around `i` and its suffix. */
  lemma Around(ts: seq<Token>, i: int)
    requires 1 <= i < |ts| - 1
    ensures ts[..i - 1] + [ts[i - 1], ts[i], ts[i + 1]] + ts[i + 2..] == ts
  {
  }

  /** Without AND, a list is true exactly when one of its operands is. */
  lemma {:induction false} NoAndValue(ts: seq<Token>, resolve: string -> bool)
    requires |ts| % 2 == 1 && NoAnd(ts)
    ensures Value(ts, resolve) == SomeOperandTrue(ts, resolve)
    decreases |ts|
  {
    if |ts| > 1 {
      var p := ts[..|ts| - 2];
      NoAndValue(p, resolve);
      if SomeOperandTrue(ts, resolve) && !OperandValue(ts[|ts| - 1], resolve) {
        var j :| 0 <= j < |ts| && j % 2 == 0 && OperandValue(ts[j], resolve);
        assert p[j] == ts[j];
      }
      if SomeOperandTrue(p, resolve) {
        var j :| 0 <= j < |p| && j % 2 == 0 && OperandValue(p[j], resolve);
        assert ts[j] == p[j];
      }
    }
  }

  lemma SomeOperandTrueSplice(ts: seq<Token>, i: int, res: Token, resolve: string -> bool)
    requires i % 2 == 1 && 1 <= i < |ts| - 1
    requires OperandValue(res, resolve) == (OperandValue(ts[i - 1], resolve) || OperandValue(ts[i + 1], resolve))
    ensures SomeOperandTrue(Splice(ts, i, res), resolve) == SomeOperandTrue(ts, resolve)
  {
    var s := Splice(ts, i, res);
    if SomeOperandTrue(ts, resolve) {
      var j :| 0 <= j < |ts| && j % 2 == 0 && OperandValue(ts[j], resolve);
      if j < i - 1 {
        assert s[j] == ts[j];
      } else if j <= i + 1 {
        assert s[i - 1] == res;
      } else {
        assert s[j - 2] == ts[j];
      }
    }
    if SomeOperandTrue(s, resolve) {
      var j :| 0 <= j < |s| && j % 2 == 0 && OperandValue(s[j], resolve);
      if j < i - 1 {
        assert s[j] == ts[j];
      } else if j == i - 1 {
        assert s[j] == res;
      } else {
        assert s[j] == ts[j + 2];
      }
    }
  }

  /** In a list without AND, replacing `l OR r` by a token with the value of
      the disjunction keeps the value of the list. */
  lemma OrFoldValue(ts: seq<Token>, i: int, b: bool, resolve: string -> bool)
    requires |ts| % 2 == 1 && NoAnd(ts) && i % 2 == 1 && 1 <= i < |ts| - 1
    requires b == (OperandValue(ts[i - 1], resolve) || OperandValue(ts[i + 1], resolve))
    ensures Value(Splice(ts, i, ResultToken(b)), resolve) == Value(ts, resolve)
  {
    var res := ResultToken(b);
    var s := Splice(ts, i, res);
    SpliceNoAnd(ts, i, res);
    NoAndValue(ts, resolve);
    NoAndValue(s, resolve);
    SomeOperandTrueSplice(ts, i, res, resolve);
  }

  lemma SpliceNoAnd(ts: seq<Token>, i: int, res: Token)
    requires NoAnd(ts) && 1 <= i < |ts| - 1 && !res.AndToken?
    ensures NoAnd(Splice(ts, i, res))
  {
    var s := Splice(ts, i, res);
    forall j | 0 <= j < |s| ensures !s[j].AndToken? {
      if j < i - 1 { assert s[j] == ts[j]; } else if j > i - 1 { assert s[j] == ts[j + 2]; }
    }
  }

  /** The value of a list depends only on where its ANDs are and on the values
      of its operands. */
  lemma {:induction false} AccCongruence(ts: seq<Token>, us: seq<Token>, resolve: string -> bool)
    requires SameValues(ts, us, resolve)
    ensures Acc(ts, resolve) == Acc(us, resolve)
    ensures Value(ts, resolve) == Value(us, resolve)
    decreases |ts|
  {
    if |ts| > 1 {
      AccCongruence(ts[..|ts| - 2], us[..|us| - 2], resolve);
    }
  }

  // ---------------------------------------------------------------------------
  // Memoisation (AssignResultForPolicyName)

  /** One token after the result of `name` has been recorded: a policy name equal
      to `name` up to case becomes a result; nested expressions are rewritten
      throughout. */
  function MemoToken(t: Token, name: string, result: bool): Token
    decreases t
  {
    match t
    case PolicyNameToken(_, n) => if SameName(n, name) then ResultToken(result) else t
    case NestedExpression(g) => NestedExpression(Memo(g, name, result, -1))
    case _ => t
  }

  /** A list after the result of `name` has been recorded everywhere except at
      position `avoid`. */
  function Memo(ts: seq<Token>, name: string, result: bool, avoid: int): (r: seq<Token>)
    decreases ts
    ensures |r| == |ts|
  {
    seq(|ts|, i requires 0 <= i < |ts| => if i == avoid then ts[i] else MemoToken(ts[i], name, result))
  }

  /** With a case-consistent resolver, recording the resolver's own answer for
      a name changes no operand's value. */
  lemma {:induction false} MemoTokenValue(t: Token, name: string, result: bool, resolve: string -> bool)
    requires CaseConsistent(resolve) && result == resolve(name)
    ensures OperandValue(MemoToken(t, name, result), resolve) == OperandValue(t, resolve)
    ensures MemoToken(t, name, result).AndToken? == t.AndToken?
    decreases t
  {
    match t
    case NestedExpression(g) => MemoValue(g, name, result, -1, resolve);
    case _ =>
  }

  lemma {:induction false} MemoValue(ts: seq<Token>, name: string, result: bool, avoid: int, resolve: string -> bool)
    requires CaseConsistent(resolve) && result == resolve(name)
    ensures SameValues(Memo(ts, name, result, avoid), ts, resolve)
    ensures Value(Memo(ts, name, result, avoid), resolve) == Value(ts, resolve)
    decreases ts
  {
    var m := Memo(ts, name, result, avoid);
    forall i | 0 <= i < |ts|
      ensures m[i].AndToken? == ts[i].AndToken? && OperandValue(m[i], resolve) == OperandValue(ts[i], resolve)
    {
      if i != avoid {
        MemoTokenValue(ts[i], name, result, resolve);
      }
    }
    AccCongruence(m, ts, resolve);
  }

  /** A policy name survives the rewrite only when it differs from `name`. */
  lemma MemoKeepsOtherNames(t: Token, name: string, result: bool)
    ensures MemoToken(t, name, result).PolicyNameToken? ==>
      MemoToken(t, name, result) == t && !SameName(t.name, name)
    ensures t.PolicyNameToken? && SameName(t.name, name) ==> MemoToken(t, name, result) == ResultToken(result)
  {
  }

  // ---------------------------------------------------------------------------
  // Rewritten lists: some policy names replaced by results

  /** `t` is `u` with some of its policy names, at any depth, replaced by results. */
  predicate Descends(t: Token, u: Token)
    decreases u
  {
    t == u
    || (u.PolicyNameToken? && t.ResultToken?)
    || (u.NestedExpression? && t.NestedExpression? && DescendsAll(t.tokens, u.tokens))
  }

  predicate DescendsAll(ts: seq<Token>, us: seq<Token>)
    decreases us
  {
    |ts| == |us| && forall i | 0 <= i < |us| :: Descends(ts[i], us[i])
  }

  lemma {:induction false} MemoTokenDescends(t: Token, name: string, result: bool)
    ensures Descends(MemoToken(t, name, result), t)
    decreases t
  {
    match t
    case NestedExpression(g) => MemoDescends(g, name, result, -1);
    case _ =>
  }

  lemma {:induction false} MemoDescends(ts: seq<Token>, name: string, result: bool, avoid: int)
    ensures DescendsAll(Memo(ts, name, result, avoid), ts)
    decreases ts
  {
    var m := Memo(ts, name, result, avoid);
    forall i | 0 <= i < |ts| ensures Descends(m[i], ts[i]) {
      if i != avoid {
        MemoTokenDescends(ts[i], name, result);
      }
    }
  }

  lemma {:induction false} DescendsTrans(t: Token, u: Token, v: Token)
    requires Descends(t, u) && Descends(u, v)
    ensures Descends(t, v)
    decreases v
  {
    if t != u && u != v && v.NestedExpression? {
      DescendsAllTrans(t.tokens, u.tokens, v.tokens);
    }
  }

  lemma {:induction false} DescendsAllTrans(ts: seq<Token>, us: seq<Token>, vs: seq<Token>)
    requires DescendsAll(ts, us) && DescendsAll(us, vs)
    ensures DescendsAll(ts, vs)
    decreases vs
  {
    forall i | 0 <= i < |vs| ensures Descends(ts[i], vs[i]) {
      DescendsTrans(ts[i], us[i], vs[i]);
    }
  }

  /** A rewritten token keeps its kind, and only operands are rewritten. */
  lemma DescendsKind(t: Token, u: Token)
    requires Descends(t, u)
    ensures t.IsOperand() == u.IsOperand() && t.AndToken? == u.AndToken? && t.IsOperator() == u.IsOperator()
    ensures !u.IsOperand() ==> t == u
    ensures t.PolicyNameToken? ==> t == u
    ensures u.ResultToken? ==> t == u
    ensures t.NestedExpression? ==> u.NestedExpression?
    ensures !u.NestedExpression? ==> !t.NestedExpression?
  {
  }

  lemma DescendsAllShape(ts: seq<Token>, us: seq<Token>)
    requires DescendsAll(ts, us)
    ensures Alternating(us) ==> Alternating(ts)
    ensures Flat(us) ==> Flat(ts)
    ensures NoAnd(us) ==> NoAnd(ts)
  {
    forall i | 0 <= i < |ts| ensures ts[i].IsOperand() == us[i].IsOperand() && ts[i].IsOperator() == us[i].IsOperator()
      && ts[i].AndToken? == us[i].AndToken? && (!us[i].NestedExpression? ==> !ts[i].NestedExpression?)
    {
      DescendsKind(ts[i], us[i]);
    }
  }

  /** Rewriting keeps a list well formed. */
  lemma DescendsWellFormed(ts: seq<Token>, us: seq<Token>)
    requires DescendsAll(ts, us) && WellFormed(us)
    ensures WellFormed(ts)
    ensures Flat(us) ==> Flat(ts)
    ensures NoAnd(us) ==> NoAnd(ts)
  {
    DescendsAllShape(ts, us);
    forall i | 0 <= i < |ts| && ts[i].NestedExpression?
      ensures Alternating(ts[i].tokens) && Flat(ts[i].tokens)
    {
      DescendsKind(ts[i], us[i]);
      if ts[i] != us[i] {
        DescendsAllShape(ts[i].tokens, us[i].tokens);
      }
    }
  }

  // ---------------------------------------------------------------------------
  // Calls to the resolver, and the names a list still mentions

  /** One call of the resolver: the position and the name of the policy-name
      token it was made for. */
  datatype Call = Call(position: int, name: string)

  function TokenCalls(t: Token): multiset<Call>
    decreases t
  {
    match t
    case PolicyNameToken(p, n) => multiset{Call(p, n)}
    case NestedExpression(ts) => Calls(ts)
    case _ => multiset{}
  }

  /** The policy-name tokens of a list, at any depth. */
  function Calls(ts: seq<Token>): multiset<Call>
    decreases ts
  {
    if ts == [] then multiset{} else TokenCalls(ts[0]) + Calls(ts[1..])
  }

  lemma {:induction false} CallsAppend(a: seq<Token>, b: seq<Token>)
    ensures Calls(a + b) == Calls(a) + Calls(b)
    decreases |a|
  {
    if a == [] {
      assert a + b == b;
    } else {
      assert (a + b)[0] == a[0];
      assert (a + b)[1..] == a[1..] + b;
      CallsAppend(a[1..], b);
    }
  }

  lemma CallsSnoc(a: seq<Token>, t: Token)
    ensures Calls(a + [t]) == Calls(a) + TokenCalls(t)
  {
    CallsAppend(a, [t]);
    assert [t][1..] == [];
  }

  /** The calls of a list split at `k`. */
  lemma CallsSplit(ts: seq<Token>, k: int)
    requires 0 <= k <= |ts|
    ensures Calls(ts) == Calls(ts[..k]) + Calls(ts[k..])
  {
    assert ts[..k] + ts[k..] == ts;
    CallsAppend(ts[..k], ts[k..]);
  }

  /** The calls of a suffix that starts with the token at `k`. */
  lemma CallsCons(ts: seq<Token>, k: int)
    requires 0 <= k < |ts|
    ensures Calls(ts[k..]) == TokenCalls(ts[k]) + Calls(ts[k + 1..])
  {
    assert ts[k..][1..] == ts[k + 1..];
  }

  /** The calls of a list split around the three tokens at `i - 1 .. i + 1`. */
  lemma CallsAround(ts: seq<Token>, i: int)
    requires 1 <= i < |ts| - 1
    ensures Calls(ts) == Calls(ts[..i - 1]) + TokenCalls(ts[i - 1]) + TokenCalls(ts[i]) + TokenCalls(ts[i + 1]) + Calls(ts[i + 2..])
  {
    CallsSplit(ts, i - 1);
    CallsCons(ts, i - 1);
    CallsCons(ts, i);
    CallsCons(ts, i + 1);
  }

  /** Calls for names of a prefix are calls for names of a longer prefix. */
  lemma CallsPrefix(ts: seq<Token>, a: int, b: int, m: multiset<Call>)
    requires 0 <= a <= b <= |ts| && m <= Calls(ts[..a])
    ensures m <= Calls(ts[..b])
  {
    assert ts[..b] == ts[..a] + ts[a..b];
    CallsAppend(ts[..a], ts[a..b]);
  }

  lemma {:induction false} DescendsCalls(t: Token, u: Token)
    requires Descends(t, u)
    ensures TokenCalls(t) <= TokenCalls(u)
    decreases u
  {
    if t != u && u.NestedExpression? && t.NestedExpression? {
      DescendsAllCalls(t.tokens, u.tokens);
    }
  }

  /** Rewriting only ever removes policy names. */
  lemma {:induction false} DescendsAllCalls(ts: seq<Token>, us: seq<Token>)
    requires DescendsAll(ts, us)
    ensures Calls(ts) <= Calls(us)
    decreases us
  {
    if us != [] {
      DescendsCalls(ts[0], us[0]);
      DescendsAllCalls(ts[1..], us[1..]);
    }
  }

  // ---------------------------------------------------------------------------
  // Resolver logs

  /** No two calls of the log are for the same name up to case. */
  ghost predicate Distinct(log: seq<Call>) {
    forall i, j {:trigger SameName(log[i].name, log[j].name)} | 0 <= i < j < |log| ::
      !SameName(log[i].name, log[j].name)
  }

  /** No policy name left at the top of `ts` has been resolved in `log`. */
  ghost predicate Forgotten(ts: seq<Token>, log: seq<Call>) {
    forall j, k {:trigger SameName(ts[j].name, log[k].name)} | 0 <= j < |ts| && 0 <= k < |log| && ts[j].PolicyNameToken? ::
      !SameName(ts[j].name, log[k].name)
  }
}
