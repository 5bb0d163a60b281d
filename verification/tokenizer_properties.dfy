/** What the tokenizer of src/Core/PolicyEvaluator.cs guarantees: the tokens it
    yields form an expression of the token language, carry accepted names and
    sit at the offsets of their text; an expression written out with single
    spaces is read back exactly; and every syntax error points into the text. */
module TokenizerProperties {
  import opened Base
  import opened Tokens
  import opened Grammar
  import opened Tokenizer

  // ---------------------------------------------------------------------------
  // One step of the scan

  lemma ScanSpace(s: string, c: Option<string -> bool>, p: int, prev: Token, nested: bool)
    requires 0 <= p < |s| && s[p] == ' '
    ensures Scan(s, c, p, prev, nested) == Scan(s, c, p + 1, prev, nested)
  {
  }

  lemma ScanOpen(s: string, c: Option<string -> bool>, p: int, prev: Token, nested: bool)
    requires 0 <= p < |s| && s[p] == '(' && Scan(s, c, p, prev, nested).Ok?
    ensures Placed(prev, OpenParenthesisToken(p)) && !nested
    ensures Scan(s, c, p + 1, OpenParenthesisToken(p), true).Ok?
    ensures Scan(s, c, p, prev, nested) == Emit(OpenParenthesisToken(p), Scan(s, c, p + 1, OpenParenthesisToken(p), true))
  {
  }

  lemma ScanClose(s: string, c: Option<string -> bool>, p: int, prev: Token, nested: bool)
    requires 0 <= p < |s| && s[p] == ')' && Scan(s, c, p, prev, nested).Ok?
    ensures Placed(prev, CloseParenthesisToken(p)) && nested
    ensures Scan(s, c, p + 1, CloseParenthesisToken(p), false).Ok?
    ensures Scan(s, c, p, prev, nested) == Emit(CloseParenthesisToken(p), Scan(s, c, p + 1, CloseParenthesisToken(p), false))
  {
  }

  lemma ScanWord(s: string, c: Option<string -> bool>, p: int, prev: Token, nested: bool)
    requires 0 <= p < |s| && !IsDelimiter(s[p]) && Scan(s, c, p, prev, nested).Ok?
    ensures p < WordEnd(s, p) && Word(s[p..WordEnd(s, p)], p, prev, c).Ok?
    ensures var t := Word(s[p..WordEnd(s, p)], p, prev, c).value;
      Scan(s, c, WordEnd(s, p), t, nested).Ok? &&
      Scan(s, c, p, prev, nested) == Emit(t, Scan(s, c, WordEnd(s, p), t, nested))
  {
  }

  lemma ScanEnd(s: string, c: Option<string -> bool>, prev: Token, nested: bool)
    requires Scan(s, c, |s|, prev, nested).Ok?
    ensures Scan(s, c, |s|, prev, nested).value == []
    ensures (prev.PolicyNameToken? || prev.CloseParenthesisToken?) && !nested
  {
  }

  // ---------------------------------------------------------------------------
  // Soundness

  /** The tokens yielded from offset `p` on may follow `prev`, with the
      parenthesis state `nested`, and end the expression. */
  lemma {:induction false} ScanAccepts(s: string, c: Option<string -> bool>, p: int, prev: Token, nested: bool)
    requires 0 <= p <= |s| && Scan(s, c, p, prev, nested).Ok?
    ensures Accepts(Scan(s, c, p, prev, nested).value, prev, nested)
    decreases |s| - p
  {
    if p == |s| {
      ScanEnd(s, c, prev, nested);
    } else if s[p] == ' ' {
      ScanSpace(s, c, p, prev, nested);
      ScanAccepts(s, c, p + 1, prev, nested);
    } else if s[p] == '(' {
      var t := OpenParenthesisToken(p);
      ScanOpen(s, c, p, prev, nested);
      ScanAccepts(s, c, p + 1, t, true);
      EmitFirst(t, Scan(s, c, p + 1, t, true));
    } else if s[p] == ')' {
      var t := CloseParenthesisToken(p);
      ScanClose(s, c, p, prev, nested);
      ScanAccepts(s, c, p + 1, t, false);
      EmitFirst(t, Scan(s, c, p + 1, t, false));
    } else {
      var e := WordEnd(s, p);
      ScanWord(s, c, p, prev, nested);
      var w := Word(s[p..e], p, prev, c);
      WordPlaced(s[p..e], p, prev, c);
      ScanAccepts(s, c, e, w.value, nested);
      EmitFirst(w.value, Scan(s, c, e, w.value, nested));
    }
  }

  lemma EmitFirst(t: Token, r: Result<seq<Token>>)
    requires r.Ok?
    ensures Emit(t, r).Ok? && Emit(t, r).value != [] && Emit(t, r).value[0] == t && Emit(t, r).value[1..] == r.value
  {
  }

  /** A word read as a token is an operator or a policy name, placed after
      `prev` and at offset `p`. */
  lemma WordPlaced(identifier: string, p: int, prev: Token, c: Option<string -> bool>)
    requires Word(identifier, p, prev, c).Ok?
    ensures var t := Word(identifier, p, prev, c).value;
      Placed(prev, t) && NestingAllowed(t, false) && NestingAllowed(t, true) &&
      (t.AndToken? || t.OrToken? || t.PolicyNameToken?) && t.position == p
    ensures var t := Word(identifier, p, prev, c).value;
      ToString(t) == identifier && (t.PolicyNameToken? ==> t.name == identifier && AcceptedName(identifier, c))
  {
  }

  /** Every name yielded is an accepted policy name. */
  lemma {:induction false} ScanNames(s: string, c: Option<string -> bool>, p: int, prev: Token, nested: bool)
    requires 0 <= p <= |s| && Scan(s, c, p, prev, nested).Ok?
    ensures NamesAccepted(Scan(s, c, p, prev, nested).value, c)
    decreases |s| - p
  {
    if p == |s| {
      ScanEnd(s, c, prev, nested);
    } else if s[p] == ' ' {
      ScanSpace(s, c, p, prev, nested);
      ScanNames(s, c, p + 1, prev, nested);
    } else if s[p] == '(' {
      var t := OpenParenthesisToken(p);
      ScanOpen(s, c, p, prev, nested);
      ScanNames(s, c, p + 1, t, true);
      EmitFirst(t, Scan(s, c, p + 1, t, true));
      NamesCons(t, Scan(s, c, p + 1, t, true).value, c);
    } else if s[p] == ')' {
      var t := CloseParenthesisToken(p);
      ScanClose(s, c, p, prev, nested);
      ScanNames(s, c, p + 1, t, false);
      EmitFirst(t, Scan(s, c, p + 1, t, false));
      NamesCons(t, Scan(s, c, p + 1, t, false).value, c);
    } else {
      var e := WordEnd(s, p);
      ScanWord(s, c, p, prev, nested);
      var w := Word(s[p..e], p, prev, c);
      WordPlaced(s[p..e], p, prev, c);
      ScanNames(s, c, e, w.value, nested);
      EmitFirst(w.value, Scan(s, c, e, w.value, nested));
      NamesCons(w.value, Scan(s, c, e, w.value, nested).value, c);
    }
  }

  /** Every token yielded sits, from offset `p` on and in increasing order,
      where its text is. */
  lemma {:induction false} ScanLocated(s: string, c: Option<string -> bool>, p: int, prev: Token, nested: bool)
    requires 0 <= p <= |s| && Scan(s, c, p, prev, nested).Ok?
    ensures Located(s, Scan(s, c, p, prev, nested).value, p)
    decreases |s| - p
  {
    if p == |s| {
      ScanEnd(s, c, prev, nested);
    } else if s[p] == ' ' {
      ScanSpace(s, c, p, prev, nested);
      ScanLocated(s, c, p + 1, prev, nested);
      LocatedLater(s, Scan(s, c, p + 1, prev, nested).value, p, p + 1);
    } else if s[p] == '(' {
      ScanOpen(s, c, p, prev, nested);
      ScanLocated(s, c, p + 1, OpenParenthesisToken(p), true);
      OpenLocated(s, c, p, prev, nested);
    } else if s[p] == ')' {
      ScanClose(s, c, p, prev, nested);
      ScanLocated(s, c, p + 1, CloseParenthesisToken(p), false);
      CloseLocated(s, c, p, prev, nested);
    } else {
      ScanWord(s, c, p, prev, nested);
      var e := WordEnd(s, p);
      ScanLocated(s, c, e, Word(s[p..e], p, prev, c).value, nested);
      WordLocated(s, c, p, prev, nested);
    }
  }

  lemma OpenLocated(s: string, c: Option<string -> bool>, p: int, prev: Token, nested: bool)
    requires 0 <= p < |s| && s[p] == '(' && Scan(s, c, p, prev, nested).Ok?
    requires Scan(s, c, p + 1, OpenParenthesisToken(p), true).Ok?
    requires Located(s, Scan(s, c, p + 1, OpenParenthesisToken(p), true).value, p + 1)
    ensures Located(s, Scan(s, c, p, prev, nested).value, p)
  {
    var t := OpenParenthesisToken(p);
    ScanOpen(s, c, p, prev, nested);
    EmitFirst(t, Scan(s, c, p + 1, t, true));
    assert s[p..p + 1] == "(" == ToString(t);
    LocatedCons(s, t, Scan(s, c, p + 1, t, true).value, p + 1);
  }

  lemma CloseLocated(s: string, c: Option<string -> bool>, p: int, prev: Token, nested: bool)
    requires 0 <= p < |s| && s[p] == ')' && Scan(s, c, p, prev, nested).Ok?
    requires Scan(s, c, p + 1, CloseParenthesisToken(p), false).Ok?
    requires Located(s, Scan(s, c, p + 1, CloseParenthesisToken(p), false).value, p + 1)
    ensures Located(s, Scan(s, c, p, prev, nested).value, p)
  {
    var t := CloseParenthesisToken(p);
    ScanClose(s, c, p, prev, nested);
    EmitFirst(t, Scan(s, c, p + 1, t, false));
    assert s[p..p + 1] == ")" == ToString(t);
    LocatedCons(s, t, Scan(s, c, p + 1, t, false).value, p + 1);
  }

  lemma WordLocated(s: string, c: Option<string -> bool>, p: int, prev: Token, nested: bool)
    requires 0 <= p < |s| && !IsDelimiter(s[p]) && Scan(s, c, p, prev, nested).Ok?
    requires p < WordEnd(s, p) && Word(s[p..WordEnd(s, p)], p, prev, c).Ok?
    requires var t := Word(s[p..WordEnd(s, p)], p, prev, c).value;
      Scan(s, c, WordEnd(s, p), t, nested).Ok? &&
      Located(s, Scan(s, c, WordEnd(s, p), t, nested).value, WordEnd(s, p))
    ensures Located(s, Scan(s, c, p, prev, nested).value, p)
  {
    var e := WordEnd(s, p);
    var t := Word(s[p..e], p, prev, c).value;
    ScanWord(s, c, p, prev, nested);
    WordPlaced(s[p..e], p, prev, c);
    EmitFirst(t, Scan(s, c, e, t, nested));
    LocatedCons(s, t, Scan(s, c, e, t, nested).value, e);
  }

  lemma LocatedLater(s: string, ts: seq<Token>, p: int, q: int)
    requires p <= q && Located(s, ts, q)
    ensures Located(s, ts, p)
  {
  }

  /** A token at offset `t.position`, followed by tokens located from `q` on. */
  lemma LocatedCons(s: string, t: Token, rest: seq<Token>, q: int)
    requires TextAt(s, t) && t.position < q && Located(s, rest, q)
    ensures Located(s, [t] + rest, t.position)
  {
    assert ([t] + rest)[1..] == rest;
    LocatedLater(s, rest, t.position + 1, q);
  }

  lemma NamesCons(t: Token, rest: seq<Token>, c: Option<string -> bool>)
    requires t.PolicyNameToken? ==> AcceptedName(t.name, c)
    requires NamesAccepted(rest, c)
    ensures NamesAccepted([t] + rest, c)
  {
    var ts := [t] + rest;
    forall i | 0 < i < |ts| ensures ts[i] == rest[i - 1] {
    }
  }

  /** What `Located` promises, position by position: every token is where its
      text is, at or after `from`, and the offsets strictly increase. */
  lemma {:induction false} LocatedPositions(s: string, ts: seq<Token>, from: int)
    requires Located(s, ts, from)
    ensures forall i | 0 <= i < |ts| :: TextAt(s, ts[i]) && from <= ts[i].position
    ensures forall i, j | 0 <= i < j < |ts| :: TextAt(s, ts[i]) && TextAt(s, ts[j]) && ts[i].position < ts[j].position
    decreases |ts|
  {
    if ts != [] {
      LocatedPositions(s, ts[1..], ts[0].position + 1);
      forall i | 0 < i < |ts| ensures ts[i] == ts[1..][i - 1] {
      }
    }
  }

  /** What the tokenizer yields for a whole text: an expression of the token
      language, with accepted names, each token where its text is, in order. */
  lemma TokenizeSound(s: string, c: Option<string -> bool>)
    requires TokenizeSpec(s, c).Ok?
    ensures IsExpression(TokenizeSpec(s, c).value)
    ensures NamesAccepted(TokenizeSpec(s, c).value, c)
    ensures Located(s, TokenizeSpec(s, c).value, 0)
  {
    ScanAccepts(s, c, 0, StartToken, false);
    ScanNames(s, c, 0, StartToken, false);
    ScanLocated(s, c, 0, StartToken, false);
  }

  // ---------------------------------------------------------------------------
  // Round trip

  /** An expression of the token language, with accepted names, whose tokens
      sit where `Join` writes them, is read back from its text exactly. */
  lemma TokenizeJoin(ts: seq<Token>, c: Option<string -> bool>)
    requires IsExpression(ts) && NamesAccepted(ts, c) && Spaced(ts, 0)
    ensures TokenizeSpec(Join(ts), c) == Ok(ts)
  {
    ScanJoin(Join(ts), c, 0, StartToken, false, ts);
  }

  /** The same from offset `p` of a text that ends with `Join(ts)`. */
  lemma {:induction false} ScanJoin(s: string, c: Option<string -> bool>, p: int, prev: Token, nested: bool, ts: seq<Token>)
    requires 0 <= p <= |s| && s[p..] == Join(ts)
    requires Accepts(ts, prev, nested) && NamesAccepted(ts, c) && Spaced(ts, p)
    ensures Scan(s, c, p, prev, nested) == Ok(ts)
    decreases |ts|
  {
    if ts == [] {
      assert |s[p..]| == 0;
    } else if |ts| == 1 {
      JoinFirst(s, c, p, prev, nested, ts);
      JoinCase(s, c, p, prev, nested, ts);
    } else {
      JoinFirst(s, c, p, prev, nested, ts);
      ScanJoin(s, c, p + |ToString(ts[0])| + 1, ts[0], NestingAfter(ts[0], nested), ts[1..]);
      JoinCase(s, c, p, prev, nested, ts);
    }
  }

  /** What the round trip needs about the first token of `ts`, and what the
      rest of `ts` satisfies after it. */
  lemma JoinFirst(s: string, c: Option<string -> bool>, p: int, prev: Token, nested: bool, ts: seq<Token>)
    requires 0 <= p <= |s| && s[p..] == Join(ts) && ts != []
    requires Accepts(ts, prev, nested) && NamesAccepted(ts, c) && Spaced(ts, p)
    ensures Placed(prev, ts[0]) && NestingAllowed(ts[0], nested) && ts[0].position == p
    ensures ts[0].PolicyNameToken? ==> AcceptedName(ts[0].name, c)
    ensures p + |ToString(ts[0])| <= |s| && s[p..p + |ToString(ts[0])|] == ToString(ts[0])
    ensures Accepts(ts[1..], ts[0], NestingAfter(ts[0], nested))
    ensures |ts| == 1 ==> p + |ToString(ts[0])| == |s|
    ensures |ts| > 1 ==> (p + |ToString(ts[0])| < |s| && s[p + |ToString(ts[0])|] == ' ' &&
                          s[p + |ToString(ts[0])| + 1..] == Join(ts[1..]) &&
                          NamesAccepted(ts[1..], c) && Spaced(ts[1..], p + |ToString(ts[0])| + 1))
  {
    JoinHead(s, p, ts);
    NamesTail(ts, c);
    AcceptsHead(ts, prev, nested);
    SpacedHead(ts, p);
  }

  /** The round trip at `p`, given the round trip after the first token. */
  lemma JoinCase(s: string, c: Option<string -> bool>, p: int, prev: Token, nested: bool, ts: seq<Token>)
    requires ts != [] && 0 <= p && Placed(prev, ts[0]) && NestingAllowed(ts[0], nested) && ts[0].position == p
    requires ts[0].PolicyNameToken? ==> AcceptedName(ts[0].name, c)
    requires p + |ToString(ts[0])| <= |s| && s[p..p + |ToString(ts[0])|] == ToString(ts[0])
    requires Accepts(ts[1..], ts[0], NestingAfter(ts[0], nested))
    requires |ts| == 1 ==> p + |ToString(ts[0])| == |s|
    requires |ts| > 1 ==> (p + |ToString(ts[0])| < |s| && s[p + |ToString(ts[0])|] == ' ' &&
                           Scan(s, c, p + |ToString(ts[0])| + 1, ts[0], NestingAfter(ts[0], nested)) == Ok(ts[1..]))
    ensures Scan(s, c, p, prev, nested) == Ok(ts)
  {
    var t := ts[0];
    AfterToken(s, c, p + |ToString(t)|, ts, NestingAfter(t, nested));
    if t.OpenParenthesisToken? || t.CloseParenthesisToken? {
      ParenStep(s, c, p, prev, nested, t, ts[1..]);
    } else {
      WordStep(s, c, p, prev, nested, t, ts[1..]);
    }
    HeadTail(ts);
  }

  /** The text of the first token of `ts` at `p`, then either the end of the
      text or a space and the text of the rest. */
  lemma JoinHead(s: string, p: int, ts: seq<Token>)
    requires 0 <= p <= |s| && s[p..] == Join(ts) && ts != [] && Spaced(ts, p)
    ensures var q := p + |ToString(ts[0])|;
      q <= |s| && s[p..q] == ToString(ts[0]) &&
      (|ts| == 1 ==> q == |s|) &&
      (|ts| > 1 ==> q < |s| && s[q] == ' ' && s[q + 1..] == Join(ts[1..]) && Spaced(ts[1..], q + 1))
  {
    var h := ToString(ts[0]);
    assert !ts[0].NestedExpression?;
    if |ts| == 1 {
      assert Join(ts) == h;
      SuffixSplit(s, p, h, "");
    } else {
      assert Join(ts) == h + (" " + Join(ts[1..]));
      SuffixSplit(s, p, h, " " + Join(ts[1..]));
      SuffixSplit(s, p + |h|, " ", Join(ts[1..]));
    }
  }

  lemma SuffixSplit(s: string, p: int, h: string, rest: string)
    requires 0 <= p <= |s| && s[p..] == h + rest
    ensures p + |h| <= |s| && s[p..p + |h|] == h && s[p + |h|..] == rest
  {
    assert s[p..p + |h|] == (h + rest)[..|h|];
    assert s[p + |h|..] == (h + rest)[|h|..];
  }

  lemma NamesTail(ts: seq<Token>, c: Option<string -> bool>)
    requires ts != [] && NamesAccepted(ts, c)
    ensures NamesAccepted(ts[1..], c)
    ensures ts[0].PolicyNameToken? ==> AcceptedName(ts[0].name, c)
  {
    assert forall i | 0 <= i < |ts| - 1 :: ts[1..][i] == ts[i + 1];
  }

  lemma AcceptsHead(ts: seq<Token>, prev: Token, nested: bool)
    requires ts != [] && Accepts(ts, prev, nested)
    ensures Placed(prev, ts[0]) && NestingAllowed(ts[0], nested)
    ensures Accepts(ts[1..], ts[0], NestingAfter(ts[0], nested))
  {
  }

  lemma SpacedHead(ts: seq<Token>, p: int)
    requires ts != [] && Spaced(ts, p)
    ensures ts[0].IsPositional() && !ts[0].StartToken? && ts[0].position == p
  {
  }

  lemma HeadTail(ts: seq<Token>)
    requires ts != []
    ensures [ts[0]] + ts[1..] == ts
  {
  }

  lemma ParenStep(s: string, c: Option<string -> bool>, p: int, prev: Token, nested: bool, t: Token, rest: seq<Token>)
    requires (t.OpenParenthesisToken? || t.CloseParenthesisToken?) && t.position == p
    requires Placed(prev, t) && NestingAllowed(t, nested)
    requires 0 <= p < |s| && s[p..p + 1] == ToString(t)
    requires Scan(s, c, p + 1, t, NestingAfter(t, nested)) == Ok(rest)
    ensures Scan(s, c, p, prev, nested) == Ok([t] + rest)
  {
    assert s[p] == s[p..p + 1][0];
  }

  lemma WordStep(s: string, c: Option<string -> bool>, p: int, prev: Token, nested: bool, t: Token, rest: seq<Token>)
    requires (t.AndToken? || t.OrToken? || t.PolicyNameToken?) && t.position == p
    requires Placed(prev, t) && (t.PolicyNameToken? ==> AcceptedName(t.name, c))
    requires 0 <= p && p + |ToString(t)| <= |s| && s[p..p + |ToString(t)|] == ToString(t)
    requires p + |ToString(t)| == |s| || s[p + |ToString(t)|] == ' '
    requires Scan(s, c, p + |ToString(t)|, t, NestingAfter(t, nested)) == Ok(rest)
    ensures Scan(s, c, p, prev, nested) == Ok([t] + rest)
  {
    var q := p + |ToString(t)|;
    WordText(s, p, q, t);
    WordEndIsFirst(s, p, q);
    WordToken(t, p, prev, c);
  }

  /** After the token `t` ends at `q`: the end of the text, or a space and the
      scan of the rest. */
  lemma AfterToken(s: string, c: Option<string -> bool>, q: int, ts: seq<Token>, nested: bool)
    requires ts != [] && 0 <= q <= |s| && Accepts(ts[1..], ts[0], nested)
    requires |ts| == 1 ==> q == |s|
    requires |ts| > 1 ==> q < |s| && s[q] == ' ' && Scan(s, c, q + 1, ts[0], nested) == Ok(ts[1..])
    ensures Scan(s, c, q, ts[0], nested) == Ok(ts[1..])
  {
  }

  /** The text of an operator or a policy name holds no delimiter. */
  lemma WordText(s: string, p: int, q: int, t: Token)
    requires 0 <= p <= q <= |s| && s[p..q] == ToString(t)
    requires t.AndToken? || t.OrToken? || (t.PolicyNameToken? && IsPolicyName(t.name))
    ensures p < q && forall k | p <= k < q :: !IsDelimiter(s[k])
  {
    forall k | p <= k < q ensures !IsDelimiter(s[k]) {
      assert s[k] == ToString(t)[k - p];
    }
  }

  /** The word of an operator or an accepted name, placed after `prev`, reads
      as that token. */
  lemma WordToken(t: Token, p: int, prev: Token, c: Option<string -> bool>)
    requires t.AndToken? || t.OrToken? || t.PolicyNameToken?
    requires Placed(prev, t) && t.position == p
    requires t.PolicyNameToken? ==> AcceptedName(t.name, c)
    ensures Word(ToString(t), p, prev, c) == Ok(t)
  {
  }

  /** The word of an operator is always classified as that operator: placed
      after `prev` it reads as the operator, and otherwise it is rejected at
      its own offset with the operator's placement error, never taken for a
      policy name. */
  lemma OperatorWord(t: Token, p: int, prev: Token, c: Option<string -> bool>)
    requires t.IsOperator() && t.position == p
    ensures Word(ToString(t), p, prev, c).Ok? <==> Placed(prev, t)
    ensures Word(ToString(t), p, prev, c).Ok? ==> Word(ToString(t), p, prev, c).value == t
    ensures Word(ToString(t), p, prev, c).Err? ==>
              Word(ToString(t), p, prev, c).error ==
                SyntaxError(p, if t.AndToken? then "Invalid place for an AND operator." else "Invalid place for an OR operator.")
  {
  }

  // ---------------------------------------------------------------------------
  // Errors

  /** `e` is a syntax error located in `s`: at the start of a token (never a
      space) at or after `p`, at the end of the text, or at 0 for a blank
      text; it is never the empty-text error. */
  predicate ErrorIn(s: string, p: int, e: Error) {
    e.SyntaxError? && 0 <= e.position <= |s| && e.message != EmptyMessage &&
    (e == SyntaxError(0, BlankMessage) || (p <= e.position && (e.position < |s| ==> s[e.position] != ' ')))
  }

  /** Every failure of the scan from `p` on is located in the text. */
  lemma {:induction false} ScanErrorPosition(s: string, c: Option<string -> bool>, p: int, prev: Token, nested: bool)
    requires 0 <= p <= |s| && Scan(s, c, p, prev, nested).Err?
    ensures ErrorIn(s, p, Scan(s, c, p, prev, nested).error)
    decreases |s| - p, 1
  {
    if p == |s| {
      FinishIn(s, c, prev, nested);
    } else if s[p] == ' ' {
      ScanSpace(s, c, p, prev, nested);
      ScanErrorPosition(s, c, p + 1, prev, nested);
      ErrorInLater(s, p, p + 1, Scan(s, c, p, prev, nested).error);
    } else if s[p] == '(' || s[p] == ')' {
      ParenErrorPosition(s, c, p, prev, nested);
    } else {
      WordErrorPosition(s, c, p, prev, nested);
    }
  }

  lemma {:induction false} ParenErrorPosition(s: string, c: Option<string -> bool>, p: int, prev: Token, nested: bool)
    requires 0 <= p < |s| && (s[p] == '(' || s[p] == ')') && Scan(s, c, p, prev, nested).Err?
    ensures ErrorIn(s, p, Scan(s, c, p, prev, nested).error)
    decreases |s| - p, 0
  {
    var e := Scan(s, c, p, prev, nested).error;
    ErrParen(s, c, p, prev, nested);
    if RejectedAt(e, p) {
      RejectedIn(s, p, e);
    } else {
      var t := if s[p] == '(' then OpenParenthesisToken(p) else CloseParenthesisToken(p);
      ScanErrorPosition(s, c, p + 1, t, NestingAfter(t, nested));
      ErrorInLater(s, p, p + 1, e);
    }
  }

  lemma {:induction false} WordErrorPosition(s: string, c: Option<string -> bool>, p: int, prev: Token, nested: bool)
    requires 0 <= p < |s| && !IsDelimiter(s[p]) && Scan(s, c, p, prev, nested).Err?
    ensures ErrorIn(s, p, Scan(s, c, p, prev, nested).error)
    decreases |s| - p, 0
  {
    var e := Scan(s, c, p, prev, nested).error;
    ErrWord(s, c, p, prev, nested);
    var w := Word(s[p..WordEnd(s, p)], p, prev, c);
    if w.Ok? {
      ScanErrorPosition(s, c, WordEnd(s, p), w.value, nested);
      ErrorInLater(s, p, WordEnd(s, p), e);
    } else {
      RejectedIn(s, p, e);
    }
  }

  lemma FinishIn(s: string, c: Option<string -> bool>, prev: Token, nested: bool)
    requires Scan(s, c, |s|, prev, nested).Err?
    ensures ErrorIn(s, |s|, Scan(s, c, |s|, prev, nested).error)
  {
  }

  lemma ErrorInLater(s: string, p: int, q: int, e: Error)
    requires p <= q && ErrorIn(s, q, e)
    ensures ErrorIn(s, p, e)
  {
  }

  lemma RejectedIn(s: string, p: int, e: Error)
    requires 0 <= p < |s| && s[p] != ' ' && RejectedAt(e, p)
    ensures ErrorIn(s, p, e)
  {
  }

  /** `e` rejects the token at offset `p`, not the whole text as blank or
      as empty. */
  predicate RejectedAt(e: Error, p: int) {
    e.SyntaxError? && e.position == p && e.message != BlankMessage && e.message != EmptyMessage
  }

  /** A parenthesis is rejected at its own offset, or the error comes from
      the scan after it. */
  lemma ErrParen(s: string, c: Option<string -> bool>, p: int, prev: Token, nested: bool)
    requires 0 <= p < |s| && (s[p] == '(' || s[p] == ')') && Scan(s, c, p, prev, nested).Err?
    ensures var e := Scan(s, c, p, prev, nested).error;
      var t := if s[p] == '(' then OpenParenthesisToken(p) else CloseParenthesisToken(p);
      RejectedAt(e, p) ||
      (Scan(s, c, p + 1, t, NestingAfter(t, nested)).Err? &&
       e == Scan(s, c, p + 1, t, NestingAfter(t, nested)).error)
  {
  }

  /** A word is rejected at its own offset, or the error comes from the scan
      after it. */
  lemma ErrWord(s: string, c: Option<string -> bool>, p: int, prev: Token, nested: bool)
    requires 0 <= p < |s| && !IsDelimiter(s[p]) && Scan(s, c, p, prev, nested).Err?
    ensures var e := Scan(s, c, p, prev, nested).error;
      var w := Word(s[p..WordEnd(s, p)], p, prev, c);
      (w.Err? && e == w.error && RejectedAt(e, p)) ||
      (w.Ok? && !w.value.StartToken? && Scan(s, c, WordEnd(s, p), w.value, nested).Err? &&
       e == Scan(s, c, WordEnd(s, p), w.value, nested).error)
  {
    WordNotBlank(s[p..WordEnd(s, p)], p, prev, c);
  }

  /** A text of spaces only, scanned before any token, is blank. */
  lemma {:induction false} ScanBlank(s: string, c: Option<string -> bool>, p: int, nested: bool)
    requires 0 <= p <= |s| && Blank(s, p)
    ensures Scan(s, c, p, StartToken, nested) == Err(SyntaxError(0, BlankMessage))
    decreases |s| - p
  {
    if p < |s| {
      ScanBlank(s, c, p + 1, nested);
    }
  }

  predicate Blank(s: string, p: int)
    requires 0 <= p <= |s|
  {
    forall k | p <= k < |s| :: s[k] == ' '
  }

  /** Once a token has been yielded, or while a non-space character is
      ahead, the scan never reports a blank expression. */
  lemma {:induction false} ScanNotBlank(s: string, c: Option<string -> bool>, p: int, prev: Token, nested: bool)
    requires 0 <= p <= |s| && Scan(s, c, p, prev, nested).Err?
    requires !prev.StartToken? || !Blank(s, p)
    ensures Scan(s, c, p, prev, nested).error != SyntaxError(0, BlankMessage)
    decreases |s| - p
  {
    if p == |s| {
    } else if s[p] == ' ' {
      ScanSpace(s, c, p, prev, nested);
      BlankLater(s, p);
      ScanNotBlank(s, c, p + 1, prev, nested);
    } else if s[p] == '(' || s[p] == ')' {
      ErrParen(s, c, p, prev, nested);
      if !RejectedAt(Scan(s, c, p, prev, nested).error, p) {
        var t := if s[p] == '(' then OpenParenthesisToken(p) else CloseParenthesisToken(p);
        ScanNotBlank(s, c, p + 1, t, NestingAfter(t, nested));
      }
    } else {
      ErrWord(s, c, p, prev, nested);
      var w := Word(s[p..WordEnd(s, p)], p, prev, c);
      if w.Ok? {
        ScanNotBlank(s, c, WordEnd(s, p), w.value, nested);
      }
    }
  }

  lemma BlankLater(s: string, p: int)
    requires 0 <= p < |s| && s[p] == ' '
    ensures Blank(s, p) <==> Blank(s, p + 1)
  {
  }

  /** No word is rejected with the blank message. */
  lemma WordNotBlank(identifier: string, position: int, token: Token, c: Option<string -> bool>)
    ensures Word(identifier, position, token, c).Err? ==>
      RejectedAt(Word(identifier, position, token, c).error, position)
  {
    if identifier != "AND" && identifier != "OR" {
      NameWordNotBlank(identifier, position, token, c);
    }
  }

  /** Every message of a rejected name is longer than the two fixed ones. */
  lemma NameWordNotBlank(identifier: string, position: int, token: Token, c: Option<string -> bool>)
    ensures NameWord(identifier, position, token, c).Err? ==>
      RejectedAt(NameWord(identifier, position, token, c).error, position)
  {
    assert |BlankMessage| == 20 && |EmptyMessage| == 20;
    if !IsPolicyName(identifier) {
      assert |"Invalid policy name or unrecognized token in expression: " + identifier + "."| > 20;
    } else if !token.StartToken? && !token.IsOperator() && !token.OpenParenthesisToken? {
      assert |"Invalid place for a policy name - " + identifier + "."| > 20;
    } else if c.Some? && !c.value(identifier) {
      assert |"A policy named " + identifier + " does not exist."| > 20;
    }
  }

  /** The tokenizer reports a blank expression exactly for a text of spaces. */
  lemma TokenizeBlank(s: string, c: Option<string -> bool>)
    ensures TokenizeSpec(s, c) == Err(SyntaxError(0, BlankMessage)) <==> Blank(s, 0)
  {
    if Blank(s, 0) {
      ScanBlank(s, c, 0, false);
    } else if TokenizeSpec(s, c).Err? {
      ScanNotBlank(s, c, 0, StartToken, false);
    }
  }
}
