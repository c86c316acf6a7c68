/**
 * What the query parser promises: the stack-balance invariant, the absence of
 * panics once error positions are clamped, operator precedence and
 * associativity, grouping, argument lists, function calls and every error case
 * of internal/query/parser.go, stated over the functions of `QueryParser`.
 */
module QueryParserLaws {
  import opened Util
  import opened QueryTokens
  import opened QueryGrammar
  import opened QueryParser

  // ---------------------------------------------------------------------
  // Stack balance

  lemma RuleLenPush(rules: seq<Rule>, r: Rule)
    ensures RuleLen(rules + [r]) == RuleLen(rules) + Consumes(r)
  {
    assert (rules + [r])[..|rules|] == rules;
  }

  lemma RuleLenSmall(a: Rule, b: Rule, c: Rule)
    ensures RuleLen([a]) == Consumes(a)
    ensures RuleLen([a, b]) == Consumes(a) + Consumes(b)
    ensures RuleLen([a, b, c]) == Consumes(a) + Consumes(b) + Consumes(c)
  {
    assert [a][..0] == [];
    assert [a, b][..1] == [a];
    assert [a, b, c][..2] == [a, b];
  }

  lemma ReducePreservesBalance(stream: seq<Token>, st: PState, clamp: bool)
    requires Balanced(st) && Reduce(stream, st, clamp).Ok?
    ensures Balanced(Reduce(stream, st, clamp).value)
  {
    if |st.rules| > 0 {
      var n := |st.rules|;
      assert RuleLen(st.rules) == RuleLen(st.rules[..n - 1]) + (if st.rules[n - 1] == GroupRule then 0 else 1);
    }
  }

  lemma {:induction false} DrainPreservesBalance(stream: seq<Token>, st: PState, clamp: bool)
    requires Balanced(st) && Drain(stream, st, clamp).Ok?
    ensures Balanced(Drain(stream, st, clamp).value)
    decreases |st.rules|
  {
    if |st.rules| > 0 {
      ReducePreservesBalance(stream, st, clamp);
      DrainPreservesBalance(stream, Reduce(stream, st, clamp).value, clamp);
    }
  }

  /**
   * After each token the expression stack holds at most one expression more
   * than the pending consuming rules, so once every rule is reduced at most
   * one expression is left: a successful parse returns the whole stack.
   */
  lemma ParseLeavesOneExpression(stream: seq<Token>, clamp: bool)
    requires Drained(stream, clamp).Ok?
    ensures |Drained(stream, clamp).value.exprs| <= 1
    ensures ParseTokens(stream, clamp).Ok? ==> Drained(stream, clamp).value.exprs == [ParseTokens(stream, clamp).value]
  {
    var st := Loop(stream, Start, clamp).value;
    assert Balanced(Start);
    DrainPreservesBalance(stream, st, clamp);
  }

  // ---------------------------------------------------------------------
  // Panics

  lemma ReduceClampedNeverPanics(stream: seq<Token>, st: PState)
    requires |stream| > 0
    ensures !Reduce(stream, st, true).Panic?
  {
  }

  lemma {:induction false} LoopClampedNeverPanics(stream: seq<Token>, st: PState)
    requires |stream| > 0 && 0 <= st.idx <= |stream|
    ensures !Loop(stream, st, true).Panic?
    decreases Measure(stream, st)
  {
    if st.idx < |stream| {
      match Shift(stream, st)
      case Ok((red, st1)) =>
        if red {
          ReduceClampedNeverPanics(stream, st1);
        }
        if Step(stream, st, true).Ok? {
          LoopClampedNeverPanics(stream, Step(stream, st, true).value);
        }
      case Fail(_, _) =>
    }
  }

  lemma {:induction false} DrainClampedNeverPanics(stream: seq<Token>, st: PState)
    requires |stream| > 0
    ensures !Drain(stream, st, true).Panic?
    decreases |st.rules|
  {
    if |st.rules| > 0 {
      ReduceClampedNeverPanics(stream, st);
      if Reduce(stream, st, true).Ok? {
        DrainClampedNeverPanics(stream, Reduce(stream, st, true).value);
      }
    }
  }

  /** With error positions read from the nearest token, parsing never panics. */
  lemma ParseClampedNeverPanics(stream: seq<Token>)
    ensures !ParseTokens(stream, true).Panic?
  {
    if |stream| == 0 {
      assert Loop(stream, Start, true) == Ok(Start);
    } else {
      LoopClampedNeverPanics(stream, Start);
      if Loop(stream, Start, true).Ok? {
        DrainClampedNeverPanics(stream, Loop(stream, Start, true).value);
      }
    }
  }

  // ---------------------------------------------------------------------
  // One iteration at a time

  /** The main loop goes on from the state its iteration leaves. */
  lemma LoopUnfold(s: seq<Token>, st: PState, st1: PState, clamp: bool)
    requires 0 <= st.idx < |s| && Step(s, st, clamp) == Ok(st1)
    ensures Loop(s, st, clamp) == Loop(s, st1, clamp)
  {
  }

  /** An iteration whose shift does not ask for a reduce and leaves a balanced state only advances. */
  lemma StepShift(s: seq<Token>, st: PState, st1: PState, clamp: bool)
    requires 0 <= st.idx < |s| && Shift(s, st) == Ok((false, st1)) && Balanced(st1)
    ensures Step(s, st, clamp) == Ok(st1.(idx := st1.idx + 1))
  {
  }

  /** A token that shifts without reducing, leaving a balanced state, moves the loop on by one. */
  lemma LoopAdvance(s: seq<Token>, st: PState, st1: PState, clamp: bool)
    requires 0 <= st.idx < |s| && Shift(s, st) == Ok((false, st1)) && Balanced(st1)
    ensures Loop(s, st, clamp) == Loop(s, st1.(idx := st1.idx + 1), clamp)
  {
    StepShift(s, st, st1, clamp);
    LoopUnfold(s, st, st1.(idx := st1.idx + 1), clamp);
  }

  lemma ShiftValue(s: seq<Token>, st: PState)
    requires 0 <= st.idx < |s| && IsValue(s[st.idx])
    ensures Shift(s, st) == Ok((false, PState(st.idx, st.exprs + [ValueOf(s[st.idx])], st.rules)))
  {
  }

  lemma LoopValue(s: seq<Token>, st: PState, clamp: bool)
    requires 0 <= st.idx < |s| && IsValue(s[st.idx])
    requires Balanced(PState(st.idx, st.exprs + [ValueOf(s[st.idx])], st.rules))
    ensures Loop(s, st, clamp) == Loop(s, PState(st.idx + 1, st.exprs + [ValueOf(s[st.idx])], st.rules), clamp)
  {
    var st1 := PState(st.idx, st.exprs + [ValueOf(s[st.idx])], st.rules);
    var st2 := PState(st.idx + 1, st.exprs + [ValueOf(s[st.idx])], st.rules);
    assert Step(s, st, clamp) == Ok(st2) by {
      ShiftValue(s, st);
      StepShift(s, st, st1, clamp);
    }
    LoopUnfold(s, st, st2, clamp);
  }

  /** A token that only pushes a rule. */
  lemma LoopPush(s: seq<Token>, st: PState, r: Rule, clamp: bool)
    requires 0 <= st.idx < |s| && Shift(s, st) == Ok((false, Push(st, r)))
    requires Balanced(Push(st, r))
    ensures Loop(s, st, clamp) == Loop(s, PState(st.idx + 1, st.exprs, st.rules + [r]), clamp)
  {
    var st2 := PState(st.idx + 1, st.exprs, st.rules + [r]);
    assert Step(s, st, clamp) == Ok(st2) by {
      StepShift(s, st, Push(st, r), clamp);
    }
    LoopUnfold(s, st, st2, clamp);
  }

  /** An operator that is pushed because the pending rule binds more loosely. */
  lemma LoopOperatorPush(s: seq<Token>, st: PState, clamp: bool)
    requires 0 <= st.idx < |s| && IsOperator(s[st.idx]) && |st.exprs| > 0
    requires |st.rules| == 0 || Rank(st.rules[|st.rules| - 1]) > Rank(OperatorRule(s[st.idx]))
    requires Balanced(Push(st, OperatorRule(s[st.idx])))
    ensures Loop(s, st, clamp) == Loop(s, PState(st.idx + 1, st.exprs, st.rules + [OperatorRule(s[st.idx])]), clamp)
  {
    ShiftOperator(s, st);
    LoopPush(s, st, OperatorRule(s[st.idx]), clamp);
  }

  /** The state after reducing the top rule as a binary operator over the top two expressions. */
  function BinaryReduced(st: PState): PState
    requires |st.rules| > 0 && Rank(st.rules[|st.rules| - 1]) < Rank(ArgsListRule) && |st.exprs| >= 2
  {
    var n := |st.exprs|;
    var lhs, rhs := st.exprs[n - 2], st.exprs[n - 1];
    PState(st.idx, st.exprs[..n - 2] + [Binary(st.rules[|st.rules| - 1], lhs, rhs, Position(lhs.p.start, rhs.p.end))],
           st.rules[..|st.rules| - 1])
  }

  /** The state after reducing an argument list from the top two expressions. */
  function ArgsReduced(st: PState): PState
    requires |st.rules| > 0 && |st.exprs| >= 2
  {
    var n := |st.exprs|;
    var values := [st.exprs[n - 2]] + ArgValues(st.exprs[n - 1]);
    PState(st.idx, st.exprs[..n - 2] + [EArgsList(values, Position(values[0].p.start, values[|values| - 1].p.end))],
           st.rules[..|st.rules| - 1])
  }

  /** An operator that first reduces a pending binary rule binding at least as tightly. */
  lemma LoopOperatorReduce(s: seq<Token>, st: PState, clamp: bool)
    requires 0 < st.idx < |s| && IsOperator(s[st.idx]) && |st.exprs| >= 2 && |st.rules| > 0
    requires Rank(st.rules[|st.rules| - 1]) <= Rank(OperatorRule(s[st.idx]))
    requires !Invalid(st.exprs[|st.exprs| - 2]) && !Invalid(st.exprs[|st.exprs| - 1])
    requires Balanced(BinaryReduced(st).(idx := st.idx - 1))
    ensures Loop(s, st, clamp) == Loop(s, BinaryReduced(st), clamp)
  {
    ShiftOperator(s, st);
    ReduceBinary(s, st.(idx := st.idx - 1), clamp);
    LoopReduceAgain(s, st, BinaryReduced(st).(idx := st.idx - 1), clamp);
  }

  /** A `,` pushed after a completed operand. */
  lemma LoopCommaPush(s: seq<Token>, st: PState, clamp: bool)
    requires 0 <= st.idx < |s| && s[st.idx].TComma? && |st.exprs| > 0
    requires |st.rules| == 0 || Rank(st.rules[|st.rules| - 1]) >= Rank(ArgsListRule)
    requires Balanced(Push(st, ArgsListRule))
    ensures Loop(s, st, clamp) == Loop(s, PState(st.idx + 1, st.exprs, st.rules + [ArgsListRule]), clamp)
  {
    ShiftComma(s, st);
    LoopPush(s, st, ArgsListRule, clamp);
  }

  /** A `,` or `)` that first reduces a pending binary rule. */
  lemma LoopBinaryReduce(s: seq<Token>, st: PState, clamp: bool)
    requires 0 < st.idx < |s| && |st.exprs| >= 2 && |st.rules| > 0
    requires Rank(st.rules[|st.rules| - 1]) < Rank(ArgsListRule)
    requires s[st.idx].TComma? || (s[st.idx].TParenRight? && (GroupRule in st.rules || FuncRule in st.rules))
    requires !Invalid(st.exprs[|st.exprs| - 2]) && !Invalid(st.exprs[|st.exprs| - 1])
    requires Balanced(BinaryReduced(st).(idx := st.idx - 1))
    ensures Loop(s, st, clamp) == Loop(s, BinaryReduced(st), clamp)
  {
    assert Shift(s, st) == Ok((true, st.(idx := st.idx - 1)));
    ReduceBinary(s, st.(idx := st.idx - 1), clamp);
    LoopReduceAgain(s, st, BinaryReduced(st).(idx := st.idx - 1), clamp);
  }

  /** A `)` that first reduces a pending argument list. */
  lemma LoopArgsReduce(s: seq<Token>, st: PState, clamp: bool)
    requires 0 < st.idx < |s| && |st.exprs| >= 2 && |st.rules| > 0 && st.rules[|st.rules| - 1] == ArgsListRule
    requires s[st.idx].TParenRight? && (GroupRule in st.rules || FuncRule in st.rules)
    requires Balanced(ArgsReduced(st).(idx := st.idx - 1))
    ensures Loop(s, st, clamp) == Loop(s, ArgsReduced(st), clamp)
  {
    assert Shift(s, st) == Ok((true, st.(idx := st.idx - 1)));
    ReduceArgsList(s, st.(idx := st.idx - 1), clamp);
    LoopReduceAgain(s, st, ArgsReduced(st).(idx := st.idx - 1), clamp);
  }

  /** A `(` that opens a group (no operand is pending) or a call (the operand before it is the name). */
  lemma LoopParenLeft(s: seq<Token>, st: PState, clamp: bool)
    requires 0 <= st.idx < |s| && s[st.idx].TParenLeft?
    requires |st.exprs| == RuleLen(st.rules) || |st.exprs| == RuleLen(st.rules) + 1
    ensures var r := if |st.exprs| == RuleLen(st.rules) then GroupRule else FuncRule;
            Balanced(Push(st, r)) &&
            Loop(s, st, clamp) == Loop(s, PState(st.idx + 1, st.exprs, st.rules + [r]), clamp)
  {
    var r := if |st.exprs| == RuleLen(st.rules) then GroupRule else FuncRule;
    assert RuleLen(Push(st, r).rules) == RuleLen(st.rules) + (if r == GroupRule then 0 else 1) by {
      assert Push(st, r).rules[..|st.rules|] == st.rules;
    }
    LoopPush(s, st, r, clamp);
  }

  /** A `(` after the operand that names a call. */
  lemma LoopOpenCall(s: seq<Token>, st: PState, clamp: bool)
    requires 0 <= st.idx < |s| && s[st.idx].TParenLeft? && |st.exprs| == RuleLen(st.rules) + 1
    ensures Loop(s, st, clamp) == Loop(s, PState(st.idx + 1, st.exprs, st.rules + [FuncRule]), clamp)
  {
    LoopParenLeft(s, st, clamp);
  }

  /** A `(` where no operand is pending opens a group. */
  lemma LoopOpenGroup(s: seq<Token>, st: PState, clamp: bool)
    requires 0 <= st.idx < |s| && s[st.idx].TParenLeft? && |st.exprs| == RuleLen(st.rules)
    ensures Loop(s, st, clamp) == Loop(s, PState(st.idx + 1, st.exprs, st.rules + [GroupRule]), clamp)
  {
    LoopParenLeft(s, st, clamp);
  }

  /** A main loop that fails is the outcome of the parse. */
  lemma ParseLoopFails(s: seq<Token>, clamp: bool)
    requires Loop(s, Start, clamp).Fail?
    ensures ParseTokens(s, clamp) == Fail(Loop(s, Start, clamp).err, Loop(s, Start, clamp).pos)
  {
  }

  lemma ReduceGroup(s: seq<Token>, st: PState, clamp: bool)
    requires |st.rules| > 0 && st.rules[|st.rules| - 1] == GroupRule && |st.exprs| > 0
    ensures Reduce(s, st, clamp) == Ok(st.(rules := st.rules[..|st.rules| - 1]))
  {
  }

  lemma ReduceCall(s: seq<Token>, st: PState, clamp: bool)
    requires |st.rules| > 0 && st.rules[|st.rules| - 1] == FuncRule && |st.exprs| >= 2
    requires st.exprs[|st.exprs| - 2].EStr? && 0 < st.idx <= |s|
    ensures var n := |st.exprs|;
            var name, top := st.exprs[n - 2], st.exprs[n - 1];
            var argsPos := if top.EArgsList? then top.p else Position(0, 0);
            Reduce(s, st, clamp) ==
            Ok(PState(st.idx, st.exprs[..n - 2] + [EFunc(name.s, ArgValues(top), argsPos, Position(name.p.start, s[st.idx - 1].p.end))],
                      st.rules[..|st.rules| - 1]))
  {
  }

  lemma ShiftOperator(s: seq<Token>, st: PState)
    requires 0 <= st.idx < |s| && IsOperator(s[st.idx]) && |st.exprs| > 0
    ensures |st.rules| > 0 && Rank(st.rules[|st.rules| - 1]) <= Rank(OperatorRule(s[st.idx])) ==>
              Shift(s, st) == Ok((true, st.(idx := st.idx - 1)))
    ensures !(|st.rules| > 0 && Rank(st.rules[|st.rules| - 1]) <= Rank(OperatorRule(s[st.idx]))) ==>
              Shift(s, st) == Ok((false, Push(st, OperatorRule(s[st.idx]))))
  {
  }

  lemma ShiftComma(s: seq<Token>, st: PState)
    requires 0 <= st.idx < |s| && s[st.idx].TComma? && |st.exprs| > 0
    ensures |st.rules| > 0 && Rank(st.rules[|st.rules| - 1]) < Rank(ArgsListRule) ==>
              Shift(s, st) == Ok((true, st.(idx := st.idx - 1)))
    ensures !(|st.rules| > 0 && Rank(st.rules[|st.rules| - 1]) < Rank(ArgsListRule)) ==>
              Shift(s, st) == Ok((false, Push(st, ArgsListRule)))
  {
  }

  /** A token that forces a reduce and is then processed again. */
  lemma LoopReduceAgain(s: seq<Token>, st: PState, st2: PState, clamp: bool)
    requires 0 < st.idx < |s| && Shift(s, st) == Ok((true, st.(idx := st.idx - 1)))
    requires Reduce(s, st.(idx := st.idx - 1), clamp) == Ok(st2) && Balanced(st2)
    ensures Loop(s, st, clamp) == Loop(s, st2.(idx := st.idx), clamp)
  {
  }

  lemma ShiftClose(s: seq<Token>, st: PState)
    requires 0 <= st.idx < |s| && s[st.idx].TParenRight? && |st.rules| > 0
    requires st.rules[|st.rules| - 1] == GroupRule || st.rules[|st.rules| - 1] == FuncRule
    ensures Shift(s, st) == Ok((true, st))
  {
    assert st.rules[|st.rules| - 1] in st.rules;
  }

  /** A `)` whose group or call cannot be reduced stops the loop with the reduce's error. */
  lemma LoopCloseFails(s: seq<Token>, st: PState, clamp: bool)
    requires 0 <= st.idx < |s| && s[st.idx].TParenRight? && |st.rules| > 0
    requires st.rules[|st.rules| - 1] == GroupRule || st.rules[|st.rules| - 1] == FuncRule
    requires !Reduce(s, st, clamp).Ok?
    ensures Loop(s, st, clamp) == Reduce(s, st, clamp)
  {
    ShiftClose(s, st);
  }

  /** A `)` that closes the group or call on top of the rule stack. */
  lemma LoopClose(s: seq<Token>, st: PState, st2: PState, clamp: bool)
    requires 0 <= st.idx < |s| && s[st.idx].TParenRight? && |st.rules| > 0
    requires st.rules[|st.rules| - 1] == GroupRule || st.rules[|st.rules| - 1] == FuncRule
    requires Reduce(s, st, clamp) == Ok(st2) && Balanced(st2)
    ensures Loop(s, st, clamp) == Loop(s, st2.(idx := st.idx + 1), clamp)
  {
    ShiftClose(s, st);
    assert Step(s, st, clamp) == Ok(st2.(idx := st.idx + 1));
  }

  lemma ReduceBinary(s: seq<Token>, st: PState, clamp: bool)
    requires |st.rules| > 0 && Rank(st.rules[|st.rules| - 1]) < Rank(ArgsListRule) && |st.exprs| >= 2
    requires !Invalid(st.exprs[|st.exprs| - 2]) && !Invalid(st.exprs[|st.exprs| - 1])
    ensures var n := |st.exprs|;
            var lhs, rhs := st.exprs[n - 2], st.exprs[n - 1];
            Reduce(s, st, clamp) ==
            Ok(PState(st.idx, st.exprs[..n - 2] + [Binary(st.rules[|st.rules| - 1], lhs, rhs, Position(lhs.p.start, rhs.p.end))],
                      st.rules[..|st.rules| - 1]))
  {
  }

  lemma ReduceArgsList(s: seq<Token>, st: PState, clamp: bool)
    requires |st.rules| > 0 && st.rules[|st.rules| - 1] == ArgsListRule && |st.exprs| >= 2
    ensures var n := |st.exprs|;
            var values := [st.exprs[n - 2]] + ArgValues(st.exprs[n - 1]);
            Reduce(s, st, clamp) ==
            Ok(PState(st.idx, st.exprs[..n - 2] + [EArgsList(values, Position(values[0].p.start, values[|values| - 1].p.end))],
                      st.rules[..|st.rules| - 1]))
  {
  }

  lemma DrainStep(s: seq<Token>, st: PState, st2: PState, clamp: bool)
    requires |st.rules| > 0 && Reduce(s, st, clamp) == Ok(st2)
    ensures Drain(s, st, clamp) == Drain(s, st2, clamp)
  {
  }

  /** The outcome of a parse whose main loop ends in `st`. */
  lemma ParseFrom(s: seq<Token>, st: PState, clamp: bool)
    requires Loop(s, Start, clamp) == Ok(st)
    ensures ParseTokens(s, clamp) ==
            match Drain(s, st, clamp)
            case Ok(st2) => Finish(s, st2)
            case Fail(e, p) => Fail(e, p)
            case Panic => Panic
  {
  }

  /** Draining `[x, y]` under one binary rule. */
  lemma DrainOne(s: seq<Token>, st: PState, clamp: bool)
    requires |st.exprs| == 2 && |st.rules| == 1 && Rank(st.rules[0]) < Rank(ArgsListRule)
    requires !Invalid(st.exprs[0]) && !Invalid(st.exprs[1])
    ensures var x, y := st.exprs[0], st.exprs[1];
            Drain(s, st, clamp) == Ok(PState(st.idx, [Binary(st.rules[0], x, y, Position(x.p.start, y.p.end))], []))
  {
    var x, y := st.exprs[0], st.exprs[1];
    var st1 := PState(st.idx, [Binary(st.rules[0], x, y, Position(x.p.start, y.p.end))], []);
    ReduceBinary(s, st, clamp);
    assert PState(st.idx, st.exprs[..0] + st1.exprs, st.rules[..0]) == st1;
    DrainStep(s, st, st1, clamp);
  }

  /** Draining `[x, y, z]` under two binary rules: the top rule takes `y` and `z`. */
  lemma DrainTwo(s: seq<Token>, st: PState, clamp: bool)
    requires |st.exprs| == 3 && |st.rules| == 2 && Rank(st.rules[0]) < Rank(ArgsListRule) && Rank(st.rules[1]) < Rank(ArgsListRule)
    requires !Invalid(st.exprs[0]) && !Invalid(st.exprs[1]) && !Invalid(st.exprs[2])
    ensures var x, y, z := st.exprs[0], st.exprs[1], st.exprs[2];
            var yz := Binary(st.rules[1], y, z, Position(y.p.start, z.p.end));
            Drain(s, st, clamp) == Ok(PState(st.idx, [Binary(st.rules[0], x, yz, Position(x.p.start, yz.p.end))], []))
  {
    var x, y, z := st.exprs[0], st.exprs[1], st.exprs[2];
    var yz := Binary(st.rules[1], y, z, Position(y.p.start, z.p.end));
    var st1 := PState(st.idx, [x, yz], [st.rules[0]]);
    ReduceBinary(s, st, clamp);
    assert PState(st.idx, st.exprs[..1] + [yz], st.rules[..1]) == st1;
    DrainStep(s, st, st1, clamp);
    DrainOne(s, st1, clamp);
  }

  /** A parse whose stacks drain to the single expression `e`. */
  lemma ParseSingle(s: seq<Token>, st: PState, e: Expr, clamp: bool)
    requires Loop(s, Start, clamp) == Ok(st)
    requires Drain(s, st, clamp) == Ok(PState(st.idx, [e], [])) && !Invalid(e)
    ensures ParseTokens(s, clamp) == Ok(e)
  {
  }

  // ---------------------------------------------------------------------
  // Panics, continued

  /**
   * As written, a query that ends inside an open group reads `stream[len(stream)]`
   * for the error position: the query `(` panics. Reading the last token
   * instead reports the empty parenthesis.
   */
  lemma OpenParenPanics(p: Position)
    ensures ParseTokens([TParenLeft(p)], false) == Panic
    ensures ParseTokens([TParenLeft(p)], true) == Fail(ErrEmptyParenthesis, p)
  {
    var s := [TParenLeft(p)];
    var st1 := PState(1, [], [GroupRule]);
    OpenParenLoop(p, false);
    OpenParenLoop(p, true);
    ParseFrom(s, st1, false);
    ParseFrom(s, st1, true);
  }

  lemma OpenParenLoop(p: Position, clamp: bool)
    ensures Loop([TParenLeft(p)], Start, clamp) == Ok(PState(1, [], [GroupRule]))
  {
    var s := [TParenLeft(p)];
    assert Shift(s, Start) == Ok((false, Push(Start, GroupRule)));
    LoopPush(s, Start, GroupRule, clamp);
    assert Loop(s, PState(1, [], [GroupRule]), clamp) == Ok(PState(1, [], [GroupRule]));
  }

  /** The same for a function call on a non-string name left open at the end: `1(foo`. */
  lemma OpenCallOnIntegerPanics(p0: Position, v: int, p1: Position, p2: Position, a: string)
    ensures ParseTokens([TInt(p0, v), TParenLeft(p1), TStr(p2, a)], false) == Panic
    ensures ParseTokens([TInt(p0, v), TParenLeft(p1), TStr(p2, a)], true) == Fail(ErrInvalidFuncName, p2)
  {
    var s := [TInt(p0, v), TParenLeft(p1), TStr(p2, a)];
    var st := PState(3, [EInt(v, p0), EStr(a, p2)], [FuncRule]);
    OpenCallLoop(p0, v, p1, p2, a, false);
    OpenCallLoop(p0, v, p1, p2, a, true);
    BadNameAtEnd(s, st, false);
    BadNameAtEnd(s, st, true);
    ParsePanics(s, st, false);
    ParseFails(s, st, true);
  }

  /** A call with a non-string name, closed by the end of the stream, reports past the last token. */
  lemma BadNameAtEnd(s: seq<Token>, st: PState, clamp: bool)
    requires |s| > 0 && st.idx == |s| && st.rules == [FuncRule] && |st.exprs| == 2 && !st.exprs[0].EStr?
    ensures Drain(s, st, clamp) == if clamp then Fail(ErrInvalidFuncName, s[|s| - 1].p) else Panic
  {
    assert Reduce(s, st, clamp) == ErrAt(s, st.idx, ErrInvalidFuncName, clamp);
  }

  /** A drain that panics after the main loop makes the parse panic. */
  lemma ParsePanics(s: seq<Token>, st: PState, clamp: bool)
    requires Loop(s, Start, clamp) == Ok(st) && Drain(s, st, clamp).Panic?
    ensures ParseTokens(s, clamp) == Panic
  {
  }

  lemma OpenCallLoop(p0: Position, v: int, p1: Position, p2: Position, a: string, clamp: bool)
    ensures Loop([TInt(p0, v), TParenLeft(p1), TStr(p2, a)], Start, clamp) == Ok(PState(3, [EInt(v, p0), EStr(a, p2)], [FuncRule]))
  {
    var s := [TInt(p0, v), TParenLeft(p1), TStr(p2, a)];
    var e := [EInt(v, p0), EStr(a, p2)];
    var st2 := PState(2, [EInt(v, p0)], [FuncRule]);
    var st3 := PState(3, e, [FuncRule]);
    CallOpenLoop(s, clamp);
    ValueAfter(s, st2, st3);
    LoopValue(s, st2, clamp);
    assert Loop(s, st3, clamp) == Ok(st3);
  }

  // ---------------------------------------------------------------------
  // Precedence and associativity

  /** The loop over a leading `a op`. */
  lemma ValueOpLoop(s: seq<Token>, ea: Expr, clamp: bool)
    requires |s| >= 2 && IsValue(s[0]) && IsOperator(s[1]) && ea == ValueOf(s[0])
    ensures Loop(s, Start, clamp) == Loop(s, PState(2, [ea], [OperatorRule(s[1])]), clamp)
  {
    LoopValue(s, Start, clamp);
    var st1 := PState(1, [ea], []);
    assert PState(Start.idx + 1, Start.exprs + [ValueOf(s[0])], Start.rules) == st1;
    LoopOperatorPush(s, st1, clamp);
    assert PState(st1.idx + 1, st1.exprs, st1.rules + [OperatorRule(s[1])]) == PState(2, [ea], [OperatorRule(s[1])]);
  }

  /** The main loop over `a op b`, at any length of stream. */
  lemma OperandLoop(s: seq<Token>, ea: Expr, eb: Expr, clamp: bool)
    requires |s| >= 3 && IsValue(s[0]) && IsOperator(s[1]) && IsValue(s[2])
    requires ea == ValueOf(s[0]) && eb == ValueOf(s[2])
    ensures Loop(s, Start, clamp) == Loop(s, PState(3, [ea, eb], [OperatorRule(s[1])]), clamp)
  {
    var st2 := PState(2, [ea], [OperatorRule(s[1])]);
    ValueOpLoop(s, ea, clamp);
    LoopValue(s, st2, clamp);
    assert PState(st2.idx + 1, st2.exprs + [ValueOf(s[2])], st2.rules) == PState(3, [ea, eb], st2.rules);
  }

  /** The main loop over `a op1 b op2 c`. */
  lemma TwoOperatorsLoop(s: seq<Token>, ea: Expr, eb: Expr, ec: Expr, clamp: bool)
    requires |s| == 5 && s[0].TStr? && IsOperator(s[1]) && s[2].TStr? && IsOperator(s[3]) && s[4].TStr?
    requires ea == ValueOf(s[0]) && eb == ValueOf(s[2]) && ec == ValueOf(s[4])
    ensures var r1, r2 := OperatorRule(s[1]), OperatorRule(s[3]);
            Loop(s, Start, clamp) ==
            if Rank(r1) <= Rank(r2) then Ok(PState(5, [Binary(r1, ea, eb, Position(ea.p.start, eb.p.end)), ec], [r2]))
            else Ok(PState(5, [ea, eb, ec], [r1, r2]))
  {
    var r1, r2 := OperatorRule(s[1]), OperatorRule(s[3]);
    OperandLoop(s, ea, eb, clamp);
    var st3 := PState(3, [ea, eb], [r1]);
    if Rank(r1) <= Rank(r2) {
      LeftGroupLoop(s, ea, eb, ec, clamp);
    } else {
      LoopOperatorPush(s, st3, clamp);
      var st4 := PState(4, [ea, eb], [r1, r2]);
      assert PState(st3.idx + 1, st3.exprs, st3.rules + [r2]) == st4;
      LoopValue(s, st4, clamp);
      var st5 := PState(5, [ea, eb, ec], [r1, r2]);
      assert PState(st4.idx + 1, st4.exprs + [ValueOf(s[4])], st4.rules) == st5;
      assert Loop(s, st5, clamp) == Ok(st5);
    }
  }

  lemma LeftGroupLoop(s: seq<Token>, ea: Expr, eb: Expr, ec: Expr, clamp: bool)
    requires |s| == 5 && s[0].TStr? && IsOperator(s[1]) && s[2].TStr? && IsOperator(s[3]) && s[4].TStr?
    requires ea == ValueOf(s[0]) && eb == ValueOf(s[2]) && ec == ValueOf(s[4])
    requires Rank(OperatorRule(s[1])) <= Rank(OperatorRule(s[3]))
    ensures Loop(s, PState(3, [ea, eb], [OperatorRule(s[1])]), clamp) ==
            Ok(PState(5, [Binary(OperatorRule(s[1]), ea, eb, Position(ea.p.start, eb.p.end)), ec], [OperatorRule(s[3])]))
  {
    var r1, r2 := OperatorRule(s[1]), OperatorRule(s[3]);
    var st3 := PState(3, [ea, eb], [r1]);
    var eab := Binary(r1, ea, eb, Position(ea.p.start, eb.p.end));
    var st4 := PState(3, [eab], []);
    assert PState(3, [ea, eb][..0] + [eab], [r1][..0]) == st4;
    assert Loop(s, st3, clamp) == Loop(s, st4, clamp) by {
      LoopOperatorReduce(s, st3, clamp);
    }
    var st5 := PState(4, [eab], [r2]);
    assert Loop(s, st4, clamp) == Loop(s, st5, clamp) by {
      LoopOperatorPush(s, st4, clamp);
      assert PState(st4.idx + 1, st4.exprs, st4.rules + [r2]) == st5;
    }
    var st6 := PState(5, [eab, ec], [r2]);
    assert Loop(s, st5, clamp) == Loop(s, st6, clamp) by {
      LoopValue(s, st5, clamp);
      assert PState(st5.idx + 1, st5.exprs + [ValueOf(s[4])], st5.rules) == st6;
    }
    assert Loop(s, st6, clamp) == Ok(st6);
  }

  /**
   * `a op1 b op2 c` groups to the left exactly when `op1` binds at least as
   * tightly as `op2`: equal operators associate to the left, and a tighter
   * operator on either side is applied first.
   */
  lemma TwoOperators(s: seq<Token>, clamp: bool)
    requires |s| == 5 && s[0].TStr? && IsOperator(s[1]) && s[2].TStr? && IsOperator(s[3]) && s[4].TStr?
    ensures var ea, eb, ec := ValueOf(s[0]), ValueOf(s[2]), ValueOf(s[4]);
            var r1, r2 := OperatorRule(s[1]), OperatorRule(s[3]);
            var whole := Position(s[0].p.start, s[4].p.end);
            ParseTokens(s, clamp) ==
            if Rank(r1) <= Rank(r2) then Ok(Binary(r2, Binary(r1, ea, eb, Position(s[0].p.start, s[2].p.end)), ec, whole))
            else Ok(Binary(r1, ea, Binary(r2, eb, ec, Position(s[2].p.start, s[4].p.end)), whole))
  {
    var ea, eb, ec := ValueOf(s[0]), ValueOf(s[2]), ValueOf(s[4]);
    var r1, r2 := OperatorRule(s[1]), OperatorRule(s[3]);
    TwoOperatorsLoop(s, ea, eb, ec, clamp);
    if Rank(r1) <= Rank(r2) {
      var eab := Binary(r1, ea, eb, Position(ea.p.start, eb.p.end));
      var st := PState(5, [eab, ec], [r2]);
      DrainOne(s, st, clamp);
      ParseSingle(s, st, Binary(r2, eab, ec, Position(eab.p.start, ec.p.end)), clamp);
    } else {
      var st := PState(5, [ea, eb, ec], [r1, r2]);
      DrainTwo(s, st, clamp);
      var ebc := Binary(r2, eb, ec, Position(eb.p.start, ec.p.end));
      ParseSingle(s, st, Binary(r1, ea, ebc, Position(ea.p.start, ebc.p.end)), clamp);
    }
  }

  // ---------------------------------------------------------------------
  // Grouping

  lemma GroupedLoopHead(s: seq<Token>, ea: Expr, eb: Expr, clamp: bool)
    requires |s| == 7 && IsOperator(s[1]) && s[2].TParenLeft? && s[3].TStr? && eb == ValueOf(s[3])
    ensures var r1 := OperatorRule(s[1]);
            Loop(s, PState(2, [ea], [r1]), clamp) == Loop(s, PState(4, [ea, eb], [r1, GroupRule]), clamp)
  {
    var r1 := OperatorRule(s[1]);
    var st2 := PState(2, [ea], [r1]);
    var st3 := PState(3, [ea], [r1, GroupRule]);
    RuleLenSmall(r1, GroupRule, r1);
    assert Loop(s, st2, clamp) == Loop(s, st3, clamp) by {
      assert st2.rules + [GroupRule] == st3.rules;
      LoopParenLeft(s, st2, clamp);
      assert PState(st2.idx + 1, st2.exprs, st2.rules + [GroupRule]) == st3;
    }
    LoopValue(s, st3, clamp);
    assert PState(st3.idx + 1, st3.exprs + [ValueOf(s[3])], st3.rules) == PState(4, [ea, eb], [r1, GroupRule]);
  }

  lemma GroupedLoopInner(s: seq<Token>, ea: Expr, eb: Expr, ec: Expr, clamp: bool)
    requires |s| == 7 && IsOperator(s[1]) && IsOperator(s[4]) && s[5].TStr? && ec == ValueOf(s[5])
    ensures var r1, r2 := OperatorRule(s[1]), OperatorRule(s[4]);
            Loop(s, PState(4, [ea, eb], [r1, GroupRule]), clamp) ==
            Loop(s, PState(6, [ea, eb, ec], [r1, GroupRule, r2]), clamp)
  {
    var r1, r2 := OperatorRule(s[1]), OperatorRule(s[4]);
    var st4 := PState(4, [ea, eb], [r1, GroupRule]);
    var st5 := PState(5, [ea, eb], [r1, GroupRule, r2]);
    RuleLenSmall(r1, GroupRule, r2);
    assert Loop(s, st4, clamp) == Loop(s, st5, clamp) by {
      assert st4.rules + [r2] == st5.rules;
      LoopOperatorPush(s, st4, clamp);
      assert PState(st4.idx + 1, st4.exprs, st4.rules + [r2]) == st5;
    }
    LoopValue(s, st5, clamp);
    assert PState(st5.idx + 1, st5.exprs + [ValueOf(s[5])], st5.rules) == PState(6, [ea, eb, ec], [r1, GroupRule, r2]);
  }

  lemma GroupedLoopTail(s: seq<Token>, ea: Expr, eb: Expr, ec: Expr, clamp: bool)
    requires |s| == 7 && IsOperator(s[1]) && IsOperator(s[4]) && s[6].TParenRight?
    requires !Invalid(eb) && !Invalid(ec)
    ensures var r1, r2 := OperatorRule(s[1]), OperatorRule(s[4]);
            Loop(s, PState(6, [ea, eb, ec], [r1, GroupRule, r2]), clamp) ==
            Loop(s, PState(6, [ea, Binary(r2, eb, ec, Position(eb.p.start, ec.p.end))], [r1, GroupRule]), clamp)
  {
    var r1, r2 := OperatorRule(s[1]), OperatorRule(s[4]);
    var st6 := PState(6, [ea, eb, ec], [r1, GroupRule, r2]);
    var ebc := Binary(r2, eb, ec, Position(eb.p.start, ec.p.end));
    RuleLenSmall(r1, GroupRule, r2);
    assert st6.exprs[..1] + [ebc] == [ea, ebc];
    assert st6.rules[..2] == [r1, GroupRule];
    assert GroupRule in st6.rules;
    LoopBinaryReduce(s, st6, clamp);
  }

  lemma GroupedLoopClose(s: seq<Token>, ea: Expr, ebc: Expr, clamp: bool)
    requires |s| == 7 && IsOperator(s[1]) && s[6].TParenRight?
    ensures var r1 := OperatorRule(s[1]);
            Loop(s, PState(6, [ea, ebc], [r1, GroupRule]), clamp) == Ok(PState(7, [ea, ebc], [r1]))
  {
    var r1 := OperatorRule(s[1]);
    var st6 := PState(6, [ea, ebc], [r1, GroupRule]);
    ReduceGroup(s, st6, clamp);
    assert st6.rules[..1] == [r1];
    RuleLenSmall(r1, r1, r1);
    LoopClose(s, st6, st6.(rules := [r1]), clamp);
    assert st6.(rules := [r1]).(idx := 7) == PState(7, [ea, ebc], [r1]);
  }

  /**
   * Parentheses override precedence: in `a op1 (b op2 c)` the group is the
   * right operand of `op1` whatever the two operators, and it adds no node.
   */
  lemma GroupedRightOperand(s: seq<Token>, clamp: bool)
    requires |s| == 7 && s[0].TStr? && IsOperator(s[1]) && s[2].TParenLeft? && s[3].TStr?
    requires IsOperator(s[4]) && s[5].TStr? && s[6].TParenRight?
    ensures var ea, eb, ec := ValueOf(s[0]), ValueOf(s[3]), ValueOf(s[5]);
            var inner := Binary(OperatorRule(s[4]), eb, ec, Position(s[3].p.start, s[5].p.end));
            ParseTokens(s, clamp) == Ok(Binary(OperatorRule(s[1]), ea, inner, Position(s[0].p.start, s[5].p.end)))
  {
    var ea, eb, ec := ValueOf(s[0]), ValueOf(s[3]), ValueOf(s[5]);
    var r1, r2 := OperatorRule(s[1]), OperatorRule(s[4]);
    var ebc := Binary(r2, eb, ec, Position(eb.p.start, ec.p.end));
    ValueOpLoop(s, ea, clamp);
    GroupedLoopHead(s, ea, eb, clamp);
    GroupedLoopInner(s, ea, eb, ec, clamp);
    GroupedLoopTail(s, ea, eb, ec, clamp);
    var st7 := PState(7, [ea, ebc], [r1]);
    GroupedLoopClose(s, ea, ebc, clamp);
    DrainOne(s, st7, clamp);
    ParseSingle(s, st7, Binary(r1, ea, ebc, Position(ea.p.start, ebc.p.end)), clamp);
  }

  // ---------------------------------------------------------------------
  // Errors

  /**
   * An empty query is an empty expression, reported at the start, and a
   * query cannot open with an operator, a comma or a closing parenthesis.
   */
  lemma LeadingTokenErrors(s: seq<Token>, clamp: bool)
    requires |s| == 0 || IsOperator(s[0]) || s[0].TComma? || s[0].TParenRight?
    ensures ParseTokens(s, clamp) ==
            if |s| == 0 then Fail(ErrEmptyExpression, Position(0, 0))
            else Fail(if s[0].TComma? then ErrUnexpectedComma
                      else if s[0].TParenRight? then ErrUnexpectedParenthesis
                      else ErrUnexpectedOperator, s[0].p)
  {
    if |s| > 0 {
      assert Shift(s, Start).Fail?;
    }
  }

  /** A lone value is a query only when it is a string: a bare integer or boolean is an invalid argument. */
  lemma SingleValue(s: seq<Token>, clamp: bool)
    requires |s| == 1 && IsValue(s[0])
    ensures ParseTokens(s, clamp) ==
            if s[0].TStr? then Ok(ValueOf(s[0])) else Fail(ErrInvalidArgument, Position(0, s[0].p.end))
  {
    LoopValue(s, Start, clamp);
    assert Start.exprs + [ValueOf(s[0])] == [ValueOf(s[0])];
    assert Loop(s, Start, clamp) == Ok(PState(1, [ValueOf(s[0])], []));
  }

  /** Two values in a row lack an operator, reported at the second. */
  lemma MissingOperator(s: seq<Token>, clamp: bool)
    requires |s| >= 2 && IsValue(s[0]) && IsValue(s[1])
    ensures ParseTokens(s, clamp) == Fail(ErrMissingOperator, s[1].p)
  {
    var st1 := PState(1, [ValueOf(s[0])], []);
    LoopValue(s, Start, clamp);
    assert Start.exprs + [ValueOf(s[0])] == st1.exprs;
    assert st1.exprs + [ValueOf(s[1])] == [ValueOf(s[0]), ValueOf(s[1])];
    assert Shift(s, st1) == Ok((false, PState(1, [ValueOf(s[0]), ValueOf(s[1])], [])));
    assert Step(s, st1, clamp) == Fail(ErrMissingOperator, s[1].p);
  }

  /** An operator that ends the query misses its right argument. */
  lemma TrailingOperator(s: seq<Token>, clamp: bool)
    requires |s| == 2 && IsValue(s[0]) && IsOperator(s[1])
    ensures ParseTokens(s, clamp) == Fail(ErrMissingArgument, s[1].p)
  {
    var st2 := PState(2, [ValueOf(s[0])], [OperatorRule(s[1])]);
    ValueOpLoop(s, ValueOf(s[0]), clamp);
    assert Loop(s, st2, clamp) == Ok(st2);
    assert Drain(s, st2, clamp) == Fail(ErrMissingArgument, s[1].p) by {
      assert Reduce(s, st2, clamp) == Fail(ErrMissingArgument, s[1].p);
    }
  }

  /** So does a comma that ends the query. */
  lemma TrailingComma(s: seq<Token>, clamp: bool)
    requires |s| == 2 && IsValue(s[0]) && s[1].TComma?
    ensures ParseTokens(s, clamp) == Fail(ErrMissingArgument, s[1].p)
  {
    var ea := ValueOf(s[0]);
    var st1 := PState(1, [ea], []);
    var st2 := PState(2, [ea], [ArgsListRule]);
    ValueAfter(s, Start, st1);
    LoopValue(s, Start, clamp);
    PushAfter(st1, ArgsListRule, st2);
    LoopCommaPush(s, st1, clamp);
    assert Loop(s, st2, clamp) == Ok(st2);
    ReduceLoneArgs(s, st2, clamp);
    DrainFails(s, st2, clamp);
    ParseFails(s, st2, clamp);
  }

  /** An argument list with a single operand misses its second argument, reported at the `,`. */
  lemma ReduceLoneArgs(s: seq<Token>, st: PState, clamp: bool)
    requires 0 < st.idx <= |s| && st.rules == [ArgsListRule] && |st.exprs| == 1
    ensures Reduce(s, st, clamp) == Fail(ErrMissingArgument, s[st.idx - 1].p)
  {
  }

  /** A reduce that fails while draining is the outcome of the drain. */
  lemma DrainFails(s: seq<Token>, st: PState, clamp: bool)
    requires |st.rules| > 0 && Reduce(s, st, clamp).Fail?
    ensures Drain(s, st, clamp) == Reduce(s, st, clamp)
  {
  }

  /** A drain that fails after the main loop is the outcome of the parse. */
  lemma ParseFails(s: seq<Token>, st: PState, clamp: bool)
    requires Loop(s, Start, clamp) == Ok(st) && Drain(s, st, clamp).Fail?
    ensures ParseTokens(s, clamp) == Fail(Drain(s, st, clamp).err, Drain(s, st, clamp).pos)
  {
  }

  /** `a op b`: each side must be a string, the left one checked first. */
  lemma SingleOperator(s: seq<Token>, clamp: bool)
    requires |s| == 3 && IsValue(s[0]) && IsOperator(s[1]) && IsValue(s[2])
    ensures var ea, eb := ValueOf(s[0]), ValueOf(s[2]);
            ParseTokens(s, clamp) ==
            if !s[0].TStr? then Fail(ErrInvalidArgument, s[0].p)
            else if !s[2].TStr? then Fail(ErrInvalidArgument, s[2].p)
            else Ok(Binary(OperatorRule(s[1]), ea, eb, Position(s[0].p.start, s[2].p.end)))
  {
    var ea, eb := ValueOf(s[0]), ValueOf(s[2]);
    var st := PState(3, [ea, eb], [OperatorRule(s[1])]);
    assert Loop(s, Start, clamp) == Ok(st) by {
      OperandLoop(s, ea, eb, clamp);
      assert Loop(s, st, clamp) == Ok(st);
    }
    if s[0].TStr? && s[2].TStr? {
      DrainOne(s, st, clamp);
      ParseSingle(s, st, Binary(OperatorRule(s[1]), ea, eb, Position(ea.p.start, eb.p.end)), clamp);
    } else {
      assert Reduce(s, st, clamp) == if !s[0].TStr? then Fail(ErrInvalidArgument, s[0].p) else Fail(ErrInvalidArgument, s[2].p);
      DrainFails(s, st, clamp);
      ParseFails(s, st, clamp);
    }
  }

  // ---------------------------------------------------------------------
  // Calls and argument lists

  /** The loop over a leading `f(`: a name followed by `(` opens a call. */
  lemma CallOpenLoop(s: seq<Token>, clamp: bool)
    requires |s| >= 2 && IsValue(s[0]) && s[1].TParenLeft?
    ensures Loop(s, Start, clamp) == Loop(s, PState(2, [ValueOf(s[0])], [FuncRule]), clamp)
  {
    var st1 := PState(1, [ValueOf(s[0])], []);
    ValueAfter(s, Start, st1);
    LoopValue(s, Start, clamp);
    PushAfter(st1, FuncRule, PState(2, [ValueOf(s[0])], [FuncRule]));
    LoopOpenCall(s, st1, clamp);
  }

  lemma CallOneArgLoop(s: seq<Token>, clamp: bool)
    requires |s| == 4 && s[0].TStr? && s[1].TParenLeft? && IsValue(s[2]) && s[3].TParenRight?
    ensures var ef, ev := ValueOf(s[0]), ValueOf(s[2]);
            Loop(s, Start, clamp) ==
            Ok(PState(4, [EFunc(s[0].s, [ev], Position(0, 0), Position(s[0].p.start, s[2].p.end))], []))
  {
    var ef, ev := ValueOf(s[0]), ValueOf(s[2]);
    var st2 := PState(2, [ef], [FuncRule]);
    var st3 := PState(3, [ef, ev], [FuncRule]);
    CallOpenLoop(s, clamp);
    assert Loop(s, st2, clamp) == Loop(s, st3, clamp) by {
      LoopValue(s, st2, clamp);
      assert st2.exprs + [ev] == st3.exprs;
    }
    var f := EFunc(s[0].s, [ev], Position(0, 0), Position(s[0].p.start, s[2].p.end));
    ReduceCall(s, st3, clamp);
    assert st3.exprs[..0] + [f] == [f] && st3.rules[..0] == [];
    LoopClose(s, st3, PState(3, [f], []), clamp);
  }

  /** `f(v)` calls `f` with the single argument `v`; there is no argument list, so its position is zero. */
  lemma CallOneArg(s: seq<Token>, clamp: bool)
    requires |s| == 4 && s[0].TStr? && s[1].TParenLeft? && IsValue(s[2]) && s[3].TParenRight?
    ensures ParseTokens(s, clamp) ==
            Ok(EFunc(s[0].s, [ValueOf(s[2])], Position(0, 0), Position(s[0].p.start, s[2].p.end)))
  {
    CallOneArgLoop(s, clamp);
  }

  lemma CallTwoArgsHead(s: seq<Token>, clamp: bool)
    requires |s| == 6 && s[0].TStr? && s[1].TParenLeft? && IsValue(s[2]) && s[3].TComma?
    ensures var ef, ea := ValueOf(s[0]), ValueOf(s[2]);
            Loop(s, PState(2, [ef], [FuncRule]), clamp) == Loop(s, PState(4, [ef, ea], [FuncRule, ArgsListRule]), clamp)
  {
    var ef, ea := ValueOf(s[0]), ValueOf(s[2]);
    var st2 := PState(2, [ef], [FuncRule]);
    var st3 := PState(3, [ef, ea], [FuncRule]);
    RuleLenSmall(FuncRule, ArgsListRule, FuncRule);
    assert Loop(s, st2, clamp) == Loop(s, st3, clamp) by {
      LoopValue(s, st2, clamp);
      assert st2.exprs + [ea] == st3.exprs;
    }
    assert st3.rules + [ArgsListRule] == [FuncRule, ArgsListRule];
    LoopCommaPush(s, st3, clamp);
  }

  lemma CallTwoArgsTail(s: seq<Token>, clamp: bool)
    requires |s| == 6 && s[0].TStr? && IsValue(s[2]) && IsValue(s[4]) && s[5].TParenRight?
    ensures var ef, ea, eb := ValueOf(s[0]), ValueOf(s[2]), ValueOf(s[4]);
            Loop(s, PState(4, [ef, ea], [FuncRule, ArgsListRule]), clamp) ==
            Loop(s, PState(5, [ef, EArgsList([ea, eb], Position(s[2].p.start, s[4].p.end))], [FuncRule]), clamp)
  {
    var ef, ea, eb := ValueOf(s[0]), ValueOf(s[2]), ValueOf(s[4]);
    var st4 := PState(4, [ef, ea], [FuncRule, ArgsListRule]);
    var st5 := PState(5, [ef, ea, eb], [FuncRule, ArgsListRule]);
    RuleLenSmall(FuncRule, ArgsListRule, FuncRule);
    assert Loop(s, st4, clamp) == Loop(s, st5, clamp) by {
      LoopValue(s, st4, clamp);
      assert st4.exprs + [eb] == st5.exprs;
    }
    CallArgsClose(s, ef, ea, eb, clamp);
  }

  lemma CallArgsClose(s: seq<Token>, ef: Expr, ea: Expr, eb: Expr, clamp: bool)
    requires |s| == 6 && s[5].TParenRight? && !eb.EArgsList?
    ensures Loop(s, PState(5, [ef, ea, eb], [FuncRule, ArgsListRule]), clamp) ==
            Loop(s, PState(5, [ef, EArgsList([ea, eb], Position(ea.p.start, eb.p.end))], [FuncRule]), clamp)
  {
    var st5 := PState(5, [ef, ea, eb], [FuncRule, ArgsListRule]);
    var n := |st5.exprs|;
    var values := [st5.exprs[n - 2]] + ArgValues(st5.exprs[n - 1]);
    var next := PState(st5.idx, st5.exprs[..n - 2] + [EArgsList(values, Position(values[0].p.start, values[|values| - 1].p.end))],
                       st5.rules[..|st5.rules| - 1]);
    assert next == PState(5, [ef, EArgsList([ea, eb], Position(ea.p.start, eb.p.end))], [FuncRule]) by {
      assert values == [ea, eb];
      assert st5.exprs[..n - 2] == [ef] && st5.rules[..|st5.rules| - 1] == [FuncRule];
    }
    assert Balanced(next.(idx := st5.idx - 1)) by {
      RuleLenSmall(FuncRule, ArgsListRule, FuncRule);
    }
    LoopArgsReduce(s, st5, clamp);
  }

  /** `f(a, b)` calls `f` with both arguments, and the call keeps the argument list's position. */
  lemma CallTwoArgs(s: seq<Token>, clamp: bool)
    requires |s| == 6 && s[0].TStr? && s[1].TParenLeft? && IsValue(s[2]) && s[3].TComma?
    requires IsValue(s[4]) && s[5].TParenRight?
    ensures ParseTokens(s, clamp) ==
            Ok(EFunc(s[0].s, [ValueOf(s[2]), ValueOf(s[4])], Position(s[2].p.start, s[4].p.end), Position(s[0].p.start, s[4].p.end)))
  {
    var ef, ea, eb := ValueOf(s[0]), ValueOf(s[2]), ValueOf(s[4]);
    var args := EArgsList([ea, eb], Position(s[2].p.start, s[4].p.end));
    var f := EFunc(s[0].s, [ea, eb], args.p, Position(s[0].p.start, s[4].p.end));
    CallOpenLoop(s, clamp);
    CallTwoArgsHead(s, clamp);
    CallTwoArgsTail(s, clamp);
    var st5 := PState(5, [ef, args], [FuncRule]);
    assert Loop(s, st5, clamp) == Ok(PState(6, [f], [])) by {
      ReduceCall(s, st5, clamp);
      assert st5.exprs[..0] + [f] == [f] && st5.rules[..0] == [];
      LoopClose(s, st5, PState(5, [f], []), clamp);
    }
  }

  /** The loop over a leading `a,`: a comma outside any call opens an argument list. */
  lemma ValueCommaLoop(s: seq<Token>, clamp: bool)
    requires |s| >= 2 && IsValue(s[0]) && s[1].TComma?
    ensures Loop(s, Start, clamp) == Loop(s, PState(2, [ValueOf(s[0])], [ArgsListRule]), clamp)
  {
    var ea := ValueOf(s[0]);
    var st1 := PState(1, [ea], []);
    ValueAfter(s, Start, st1);
    LoopValue(s, Start, clamp);
    PushAfter(st1, ArgsListRule, PState(2, [ea], [ArgsListRule]));
    LoopCommaPush(s, st1, clamp);
  }

  lemma ArgsLoopHead(s: seq<Token>, clamp: bool)
    requires |s| == 5 && IsValue(s[0]) && IsValue(s[2]) && s[3].TComma?
    ensures var ea, eb := ValueOf(s[0]), ValueOf(s[2]);
            Loop(s, PState(2, [ea], [ArgsListRule]), clamp) == Loop(s, PState(4, [ea, eb], [ArgsListRule, ArgsListRule]), clamp)
  {
    var ea, eb := ValueOf(s[0]), ValueOf(s[2]);
    var st2 := PState(2, [ea], [ArgsListRule]);
    var st3 := PState(3, [ea, eb], [ArgsListRule]);
    RuleLenSmall(ArgsListRule, ArgsListRule, ArgsListRule);
    ValueAfter(s, st2, st3);
    LoopValue(s, st2, clamp);
    PushAfter(st3, ArgsListRule, PState(4, [ea, eb], [ArgsListRule, ArgsListRule]));
    LoopCommaPush(s, st3, clamp);
  }

  /** Draining two pending argument lists flattens them into one. */
  lemma DrainArgs(s: seq<Token>, ea: Expr, eb: Expr, ec: Expr, clamp: bool)
    requires !ec.EArgsList?
    ensures Drain(s, PState(5, [ea, eb, ec], [ArgsListRule, ArgsListRule]), clamp) ==
            Ok(PState(5, [EArgsList([ea, eb, ec], Position(ea.p.start, ec.p.end))], []))
  {
    var st := PState(5, [ea, eb, ec], [ArgsListRule, ArgsListRule]);
    var inner := EArgsList([eb, ec], Position(eb.p.start, ec.p.end));
    var st1 := PState(5, [ea, inner], [ArgsListRule]);
    ReduceArgsList(s, st, clamp);
    assert [eb] + ArgValues(ec) == [eb, ec];
    assert st.exprs[..1] + [inner] == st1.exprs && st.rules[..1] == st1.rules;
    DrainStep(s, st, st1, clamp);
    var st2 := PState(5, [EArgsList([ea, eb, ec], Position(ea.p.start, ec.p.end))], []);
    ReduceArgsList(s, st1, clamp);
    assert [ea] + ArgValues(inner) == [ea, eb, ec];
    assert st1.exprs[..0] + st2.exprs == st2.exprs && st1.rules[..0] == [];
    DrainStep(s, st1, st2, clamp);
  }

  /** `a, b, c` is one flat argument list of three values spanning the query. */
  lemma ArgsFlatten(s: seq<Token>, clamp: bool)
    requires |s| == 5 && IsValue(s[0]) && s[1].TComma? && IsValue(s[2]) && s[3].TComma? && IsValue(s[4])
    ensures var ea, eb, ec := ValueOf(s[0]), ValueOf(s[2]), ValueOf(s[4]);
            ParseTokens(s, clamp) == Ok(EArgsList([ea, eb, ec], Position(s[0].p.start, s[4].p.end)))
  {
    var ea, eb, ec := ValueOf(s[0]), ValueOf(s[2]), ValueOf(s[4]);
    var st4 := PState(4, [ea, eb], [ArgsListRule, ArgsListRule]);
    var st5 := PState(5, [ea, eb, ec], [ArgsListRule, ArgsListRule]);
    ValueCommaLoop(s, clamp);
    ArgsLoopHead(s, clamp);
    RuleLenSmall(ArgsListRule, ArgsListRule, ArgsListRule);
    ValueAfter(s, st4, st5);
    LoopValue(s, st4, clamp);
    assert Loop(s, st5, clamp) == Ok(st5);
    DrainArgs(s, ea, eb, ec, clamp);
    ParseSingle(s, st5, EArgsList([ea, eb, ec], Position(s[0].p.start, s[4].p.end)), clamp);
  }

  // ---------------------------------------------------------------------
  // Groups and empty calls

  lemma GroupOpenLoop(s: seq<Token>, clamp: bool)
    requires |s| >= 2 && s[0].TParenLeft? && IsValue(s[1])
    ensures Loop(s, Start, clamp) == Loop(s, PState(2, [ValueOf(s[1])], [GroupRule]), clamp)
  {
    var st1 := PState(1, [], [GroupRule]);
    OpenFromStart(GroupRule);
    LoopOpenGroup(s, Start, clamp);
    RuleLenSmall(GroupRule, GroupRule, GroupRule);
    ValueAfter(s, st1, PState(2, [ValueOf(s[1])], [GroupRule]));
    LoopValue(s, st1, clamp);
  }

  /** The state after a `(` at the start of the query. */
  lemma OpenFromStart(r: Rule)
    ensures PState(Start.idx + 1, Start.exprs, Start.rules + [r]) == PState(1, [], [r])
  {
    assert Start.rules + [r] == [r];
  }

  /** The state after the value token at `st.idx`, written out. */
  lemma ValueAfter(s: seq<Token>, st: PState, st2: PState)
    requires 0 <= st.idx < |s| && IsValue(s[st.idx])
    requires st2.idx == st.idx + 1 && st2.rules == st.rules && st2.exprs == st.exprs + [ValueOf(s[st.idx])]
    ensures PState(st.idx + 1, st.exprs + [ValueOf(s[st.idx])], st.rules) == st2
  {
  }

  /** The state after a token that pushes `r`, written out. */
  lemma PushAfter(st: PState, r: Rule, st2: PState)
    requires st2.idx == st.idx + 1 && st2.exprs == st.exprs && st2.rules == st.rules + [r]
    ensures PState(st.idx + 1, st.exprs, st.rules + [r]) == st2
  {
  }

  /** `(e)` parses to `e`: a group adds no node to the tree. */
  lemma GroupIsTransparent(s: seq<Token>, clamp: bool)
    requires |s| == 3 && s[0].TParenLeft? && s[1].TStr? && s[2].TParenRight?
    ensures ParseTokens(s, clamp) == Ok(ValueOf(s[1]))
  {
    var e := ValueOf(s[1]);
    var st2 := PState(2, [e], [GroupRule]);
    GroupOpenLoop(s, clamp);
    ReduceGroup(s, st2, clamp);
    assert st2.rules[..0] == [];
    LoopClose(s, st2, PState(2, [e], []), clamp);
    assert Loop(s, PState(3, [e], []), clamp) == Ok(PState(3, [e], []));
  }

  lemma EmptyParenthesisLoop(s: seq<Token>, clamp: bool)
    requires |s| == 2 && s[0].TParenLeft? && s[1].TParenRight?
    ensures Loop(s, Start, clamp) == Fail(ErrEmptyParenthesis, s[1].p)
  {
    var st1 := PState(1, [], [GroupRule]);
    OpenFromStart(GroupRule);
    LoopOpenGroup(s, Start, clamp);
    ReduceEmptyGroup(s, st1, clamp);
    LoopCloseFails(s, st1, clamp);
  }

  /** Closing a group with nothing in it fails at the `)`. */
  lemma ReduceEmptyGroup(s: seq<Token>, st: PState, clamp: bool)
    requires 0 <= st.idx < |s| && st.rules == [GroupRule] && st.exprs == []
    ensures Reduce(s, st, clamp) == Fail(ErrEmptyParenthesis, s[st.idx].p)
  {
  }

  /** `()` is an empty parenthesis, reported at the `)`. */
  lemma EmptyParenthesis(s: seq<Token>, clamp: bool)
    requires |s| == 2 && s[0].TParenLeft? && s[1].TParenRight?
    ensures ParseTokens(s, clamp) == Fail(ErrEmptyParenthesis, s[1].p)
  {
    EmptyParenthesisLoop(s, clamp);
  }

  /** `f()` is an empty function call, reported at the `(`. */
  lemma EmptyFuncCall(s: seq<Token>, clamp: bool)
    requires |s| == 3 && s[0].TStr? && s[1].TParenLeft? && s[2].TParenRight?
    ensures ParseTokens(s, clamp) == Fail(ErrEmptyFuncCall, s[1].p)
  {
    var st2 := PState(2, [ValueOf(s[0])], [FuncRule]);
    CallOpenLoop(s, clamp);
    ReduceEmptyCall(s, st2, clamp);
    LoopCloseFails(s, st2, clamp);
    ParseLoopFails(s, clamp);
  }

  /** Closing a call with no argument fails at its `(`. */
  lemma ReduceEmptyCall(s: seq<Token>, st: PState, clamp: bool)
    requires 0 < st.idx < |s| && st.rules == [FuncRule] && |st.exprs| == 1
    ensures Reduce(s, st, clamp) == Fail(ErrEmptyFuncCall, s[st.idx - 1].p)
  {
  }

  /** A call whose name is an integer or boolean has an invalid name, reported at the `)`. */
  lemma InvalidFuncName(s: seq<Token>, clamp: bool)
    requires |s| == 4 && IsValue(s[0]) && !s[0].TStr? && s[1].TParenLeft? && IsValue(s[2]) && s[3].TParenRight?
    ensures ParseTokens(s, clamp) == Fail(ErrInvalidFuncName, s[3].p)
  {
    var st2 := PState(2, [ValueOf(s[0])], [FuncRule]);
    var st3 := PState(3, [ValueOf(s[0]), ValueOf(s[2])], [FuncRule]);
    CallOpenLoop(s, clamp);
    assert Loop(s, st2, clamp) == Loop(s, st3, clamp) by {
      LoopValue(s, st2, clamp);
      assert st2.exprs + [ValueOf(s[2])] == st3.exprs;
    }
    ReduceBadName(s, st3, clamp);
    LoopCloseFails(s, st3, clamp);
  }

  /** Closing a call whose name is not a string fails at the `)`. */
  lemma ReduceBadName(s: seq<Token>, st: PState, clamp: bool)
    requires 0 <= st.idx < |s| && st.rules == [FuncRule] && |st.exprs| == 2 && !st.exprs[0].EStr?
    ensures Reduce(s, st, clamp) == Fail(ErrInvalidFuncName, s[st.idx].p)
  {
  }
}
