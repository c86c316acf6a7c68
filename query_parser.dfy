/**
 * The shift-reduce query parser (internal/query/parser.go).
 *
 * A parser state is the stream index, the expression stack and the rule
 * stack. The functions below give the effect of one `shift`, one `reduce`,
 * one iteration of the main loop, the final draining of the rule stack and
 * the final checks. The `Parser` class holds the same state in fields and its
 * methods are proved to follow these functions.
 *
 * Error positions come from `stream[i].Pos()` for some index `i`. In Go an
 * index outside the stream is a run-time panic, modelled as the outcome
 * `Panic`. Every function that reads such an index takes a flag `clamp`:
 * `clamp == false` is the code as written; `clamp == true` reads the nearest
 * token instead, which is what the parser uses (see `OpenParenPanics`).
 */
module QueryParser {
  import opened Util
  import opened QueryTokens
  import opened QueryGrammar
  import opened QueryTokenizer

  /** The rule kinds, in the order that gives their precedence. */
  datatype Rule = DeltaRule | IntersectRule | UnionRule | SubtractRule | ArgsListRule | FuncRule | GroupRule

  /** The `iota` value of a rule. */
  function Rank(r: Rule): nat
  {
    match r
    case DeltaRule => 0
    case IntersectRule => 1
    case UnionRule => 2
    case SubtractRule => 3
    case ArgsListRule => 4
    case FuncRule => 5
    case GroupRule => 6
  }

  datatype ParseError =
    | ErrEmptyExpression
    | ErrEmptyFuncCall
    | ErrEmptyParenthesis
    | ErrInvalidArgument
    | ErrInvalidFuncName
    | ErrMissingArgument
    | ErrMissingOperator
    | ErrUnexpectedComma
    | ErrUnexpectedOperator
    | ErrUnexpectedParenthesis

  /** What a step of the parser leads to: a value, a `parserError`, or an index-out-of-range panic. */
  datatype Outcome<T> = Ok(value: T) | Fail(err: ParseError, pos: Position) | Panic

  datatype PState = PState(idx: int, exprs: seq<Expr>, rules: seq<Rule>)

  const Start := PState(0, [], [])

  /** `ruleStackLength`: the number of rules that consume an expression (all but `groupRule`). */
  function RuleLen(rules: seq<Rule>): (n: nat)
    ensures n <= |rules|
    ensures n == |rules| <==> GroupRule !in rules
  {
    if |rules| == 0 then 0
    else RuleLen(rules[..|rules| - 1]) + Consumes(rules[|rules| - 1])
  }

  /** Whether reducing the rule takes an expression off the stack. */
  function Consumes(r: Rule): nat
  {
    if r == GroupRule then 0 else 1
  }

  /** The check after each token: there is at most one expression more than pending consuming rules. */
  predicate Balanced(st: PState)
  {
    RuleLen(st.rules) <= |st.exprs| <= RuleLen(st.rules) + 1
  }

  /** The token `stream[i]`, or with `clamp` the nearest token. */
  function TokenAt(stream: seq<Token>, i: int, clamp: bool): (r: Option<Token>)
    ensures 0 <= i < |stream| ==> r == Some(stream[i])
    ensures r.None? <==> |stream| == 0 || (!clamp && !(0 <= i < |stream|))
  {
    if 0 <= i < |stream| then Some(stream[i])
    else if !clamp || |stream| == 0 then None
    else if i < 0 then Some(stream[0])
    else Some(stream[|stream| - 1])
  }

  /** A `parserError` positioned at `stream[i]`. */
  function ErrAt<T>(stream: seq<Token>, i: int, err: ParseError, clamp: bool): (r: Outcome<T>)
    ensures r.Panic? <==> TokenAt(stream, i, clamp).None?
    ensures r.Fail? ==> r.err == err
  {
    match TokenAt(stream, i, clamp)
    case Some(t) => Fail(err, t.p)
    case None => Panic
  }

  function Push(st: PState, r: Rule): PState
  {
    st.(rules := st.rules + [r])
  }

  function OperatorRule(t: Token): Rule
    requires IsOperator(t)
  {
    match t
    case TDelta(_) => DeltaRule
    case TIntersect(_) => IntersectRule
    case TUnion(_) => UnionRule
    case TSubtract(_) => SubtractRule
  }

  /** Booleans and integers cannot be operands of a set operator. */
  predicate Invalid(e: Expr)
  {
    e.EBool? || e.EInt?
  }

  /** `shiftValue`: the expression a value token stands for. */
  function ValueOf(t: Token): (e: Expr)
    requires IsValue(t)
    ensures IsValueExpr(e) && e.p == t.p
    ensures Invalid(e) <==> !t.TStr?
  {
    match t
    case TBool(p, b) => EBool(b, p)
    case TInt(p, v) => EInt(v, p)
    case TStr(p, s) => EStr(s, p)
  }

  /**
   * `shift(stream[idx])`: the new state and whether a reduce is due. When the
   * token is to be processed again after that reduce, `idx` steps back by one.
   */
  function Shift(stream: seq<Token>, st: PState): (r: Outcome<(bool, PState)>)
    requires 0 <= st.idx < |stream|
    ensures !r.Panic?
    ensures r.Ok? && !r.value.0 ==>
              r.value.1.idx == st.idx && |st.rules| <= |r.value.1.rules| <= |st.rules| + 1
    ensures r.Ok? && r.value.0 ==>
              r.value.1.rules == st.rules && r.value.1.exprs == st.exprs && |st.rules| > 0 &&
              st.idx - 1 <= r.value.1.idx <= st.idx
  {
    var t := stream[st.idx];
    match t
    case TBool(_, _) => Ok((false, st.(exprs := st.exprs + [ValueOf(t)])))
    case TInt(_, _) => Ok((false, st.(exprs := st.exprs + [ValueOf(t)])))
    case TStr(_, _) => Ok((false, st.(exprs := st.exprs + [ValueOf(t)])))
    case TComma(p) =>
      if |st.exprs| == 0 then Fail(ErrUnexpectedComma, p)
      else if |st.rules| > 0 && Rank(st.rules[|st.rules| - 1]) < Rank(ArgsListRule) then
        Ok((true, st.(idx := st.idx - 1)))
      else Ok((false, Push(st, ArgsListRule)))
    case TParenLeft(p) =>
      if |st.exprs| == RuleLen(st.rules) then Ok((false, Push(st, GroupRule)))
      else if |st.exprs| == RuleLen(st.rules) + 1 then Ok((false, Push(st, FuncRule)))
      else Ok((false, st))
    case TParenRight(p) =>
      if GroupRule !in st.rules && FuncRule !in st.rules then Fail(ErrUnexpectedParenthesis, p)
      else if st.rules[|st.rules| - 1] != GroupRule && st.rules[|st.rules| - 1] != FuncRule then
        Ok((true, st.(idx := st.idx - 1)))
      else Ok((true, st))
    case _ =>
      if |st.exprs| == 0 then Fail(ErrUnexpectedOperator, t.p)
      else
        var r := OperatorRule(t);
        if |st.rules| > 0 && Rank(st.rules[|st.rules| - 1]) <= Rank(r) then Ok((true, st.(idx := st.idx - 1)))
        else Ok((false, Push(st, r)))
  }

  /** The binary expression a rule builds. */
  function Binary(r: Rule, lhs: Expr, rhs: Expr, p: Position): (e: Expr)
    requires Rank(r) < Rank(ArgsListRule)
    ensures IsBinary(e) && Operands(e) == (lhs, rhs) && e.p == p
  {
    match r
    case DeltaRule => EDelta(lhs, rhs, p)
    case IntersectRule => EIntersect(lhs, rhs, p)
    case UnionRule => EUnion(lhs, rhs, p)
    case SubtractRule => ESubtract(lhs, rhs, p)
  }

  /** The values of an argument list, or a single expression as a one-element list. */
  function ArgValues(e: Expr): seq<Expr>
  {
    if e.EArgsList? then e.values else [e]
  }

  /** `reduce`: the top rule consumes the top of the expression stack. */
  function Reduce(stream: seq<Token>, st: PState, clamp: bool): (r: Outcome<PState>)
    ensures r.Ok? ==> r.value.idx == st.idx
    ensures r.Ok? && |st.rules| == 0 ==> r.value == st
    ensures r.Ok? && |st.rules| > 0 ==>
              r.value.rules == st.rules[..|st.rules| - 1] &&
              |r.value.exprs| == |st.exprs| - (if st.rules[|st.rules| - 1] == GroupRule then 0 else 1) &&
              (st.rules[|st.rules| - 1] == GroupRule ==> r.value.exprs == st.exprs)
  {
    if |st.rules| == 0 then Ok(st)
    else
      var rule := st.rules[|st.rules| - 1];
      var popped := st.rules[..|st.rules| - 1];
      var n := |st.exprs|;
      match rule
      case FuncRule =>
        if n < 2 then ErrAt(stream, st.idx - 1, ErrEmptyFuncCall, clamp)
        else if !st.exprs[n - 2].EStr? then ErrAt(stream, st.idx, ErrInvalidFuncName, clamp)
        else
          var name, top := st.exprs[n - 2], st.exprs[n - 1];
          var argsPos := if top.EArgsList? then top.p else Position(0, 0);
          (match TokenAt(stream, st.idx - 1, clamp)
           case None => Panic
           case Some(last) =>
             var f := EFunc(name.s, ArgValues(top), argsPos, Position(name.p.start, last.p.end));
             Ok(PState(st.idx, st.exprs[..n - 2] + [f], popped)))
      case GroupRule =>
        if n == 0 then ErrAt(stream, st.idx, ErrEmptyParenthesis, clamp)
        else Ok(st.(rules := popped))
      case ArgsListRule =>
        if n < 2 then ErrAt(stream, st.idx - 1, ErrMissingArgument, clamp)
        else
          var values := [st.exprs[n - 2]] + ArgValues(st.exprs[n - 1]);
          var list := EArgsList(values, Position(values[0].p.start, values[|values| - 1].p.end));
          Ok(PState(st.idx, st.exprs[..n - 2] + [list], popped))
      case _ =>
        if n < 2 then ErrAt(stream, st.idx - 1, ErrMissingArgument, clamp)
        else
          var lhs, rhs := st.exprs[n - 2], st.exprs[n - 1];
          if Invalid(lhs) then Fail(ErrInvalidArgument, lhs.p)
          else if Invalid(rhs) then Fail(ErrInvalidArgument, rhs.p)
          else Ok(PState(st.idx, st.exprs[..n - 2] + [Binary(rule, lhs, rhs, Position(lhs.p.start, rhs.p.end))], popped))
  }

  /** What bounds the main loop: each iteration moves on a token or removes a rule. */
  function Measure(stream: seq<Token>, st: PState): int
  {
    2 * (|stream| - st.idx) + |st.rules|
  }

  /** One iteration of the main loop of `parse`: shift, reduce if due, check the balance, advance. */
  function Step(stream: seq<Token>, st: PState, clamp: bool): (r: Outcome<PState>)
    requires 0 <= st.idx < |stream|
    ensures r.Ok? ==> st.idx <= r.value.idx <= |stream| && Balanced(r.value)
    ensures r.Ok? ==> 0 <= Measure(stream, r.value) < Measure(stream, st)
  {
    match Shift(stream, st)
    case Fail(e, p) => Fail(e, p)
    case Ok((red, st1)) =>
      var o := if red then Reduce(stream, st1, clamp) else Ok(st1);
      match o
      case Fail(e, p) => Fail(e, p)
      case Panic => Panic
      case Ok(st2) =>
        if !Balanced(st2) then ErrAt(stream, st2.idx, ErrMissingOperator, clamp)
        else Ok(st2.(idx := st2.idx + 1))
  }

  /** The main loop of `parse`, from a given state to the end of the stream. */
  function Loop(stream: seq<Token>, st: PState, clamp: bool): (r: Outcome<PState>)
    requires 0 <= st.idx <= |stream|
    ensures r.Ok? ==> r.value.idx == |stream|
    ensures r.Ok? && Balanced(st) ==> Balanced(r.value)
    decreases Measure(stream, st)
  {
    if st.idx == |stream| then Ok(st)
    else
      match Step(stream, st, clamp)
      case Ok(st1) => Loop(stream, st1, clamp)
      case Fail(e, p) => Fail(e, p)
      case Panic => Panic
  }

  /** The second loop of `parse`: reduce until the rule stack is empty. */
  function Drain(stream: seq<Token>, st: PState, clamp: bool): (r: Outcome<PState>)
    ensures r.Ok? ==> r.value.rules == [] && r.value.idx == st.idx
    decreases |st.rules|
  {
    if |st.rules| == 0 then Ok(st)
    else
      match Reduce(stream, st, clamp)
      case Ok(st1) => Drain(stream, st1, clamp)
      case Fail(e, p) => Fail(e, p)
      case Panic => Panic
  }

  /** The checks after draining: one expression is left, and it is not a bare integer or boolean. */
  function Finish(stream: seq<Token>, st: PState): (r: Outcome<Expr>)
    ensures r.Ok? <==> |st.exprs| > 0 && !Invalid(st.exprs[0])
    ensures r.Ok? ==> r.value == st.exprs[0]
    ensures |st.exprs| == 0 ==> r == Fail(ErrEmptyExpression, Position(0, 0))
  {
    if |st.exprs| == 0 then Fail(ErrEmptyExpression, Position(0, 0))
    else if Invalid(st.exprs[0]) then
      (if |stream| == 0 then Panic else Fail(ErrInvalidArgument, Position(0, stream[|stream| - 1].p.end)))
    else Ok(st.exprs[0])
  }

  /** The stacks once the stream is consumed and the rule stack drained. */
  function Drained(stream: seq<Token>, clamp: bool): Outcome<PState>
  {
    match Loop(stream, Start, clamp)
    case Ok(st) => Drain(stream, st, clamp)
    case Fail(e, p) => Fail(e, p)
    case Panic => Panic
  }

  /** `parser.parse` on a token stream. */
  function ParseTokens(stream: seq<Token>, clamp: bool): Outcome<Expr>
  {
    match Drained(stream, clamp)
    case Ok(st) => Finish(stream, st)
    case Fail(e, p) => Fail(e, p)
    case Panic => Panic
  }

  /** The error part of a shift's outcome, with the new state dropped. */
  function ShiftVerdict(o: Outcome<(bool, PState)>): Outcome<bool>
  {
    match o
    case Ok((red, _)) => Ok(red)
    case Fail(e, p) => Fail(e, p)
    case Panic => Panic
  }

  /** The error part of a reduce's outcome, with the new state dropped. */
  function ReduceVerdict(o: Outcome<PState>): Outcome<()>
  {
    match o
    case Ok(_) => Ok(())
    case Fail(e, p) => Fail(e, p)
    case Panic => Panic
  }

  /** `parser`: the token stream and the two stacks, which its methods update in place. */
  class Parser {
    const stream: seq<Token>
    /** Whether an error position outside the stream reads the nearest token (see `TokenAt`). */
    const clamp: bool
    var streamIdx: int
    var exprStack: seq<Expr>
    var ruleStack: seq<Rule>

    function State(): PState
      reads this
    {
      PState(streamIdx, exprStack, ruleStack)
    }

    /** The parser `Parse` builds over a token stream. */
    constructor (stream: seq<Token>, clamp: bool)
      ensures this.stream == stream && this.clamp == clamp && State() == Start
    {
      this.stream := stream;
      this.clamp := clamp;
      streamIdx := 0;
      exprStack := [];
      ruleStack := [];
    }

    /** `ruleStackLength`: counts the rules other than `groupRule`. */
    method RuleStackLength() returns (acc: int)
      ensures acc == RuleLen(ruleStack)
    {
      acc := 0;
      var i := 0;
      while i < |ruleStack|
        invariant 0 <= i <= |ruleStack|
        invariant acc == RuleLen(ruleStack[..i])
      {
        assert ruleStack[..i + 1][..i] == ruleStack[..i];
        match ruleStack[i] {
          case GroupRule =>
          case _ => acc := acc + 1;
        }
        i := i + 1;
      }
      assert ruleStack[..i] == ruleStack;
    }

    /** `shift`: dispatches on the category of the token at the stream index. */
    method Shift(next: Token) returns (o: Outcome<bool>)
      requires 0 <= streamIdx < |stream| && next == stream[streamIdx]
      modifies this
      ensures o == ShiftVerdict(_default.Shift(stream, old(State())))
      ensures o.Ok? ==> State() == _default.Shift(stream, old(State())).value.1
      ensures !o.Ok? ==> State() == old(State())
    {
      if IsValue(next) {
        o := ShiftValue(next);
      } else if IsPunctuation(next) {
        o := ShiftPunctuation(next);
      } else {
        o := ShiftOperator(next);
      }
    }

    /** `shiftValue`: pushes the value's expression. */
    method ShiftValue(next: Token) returns (o: Outcome<bool>)
      requires 0 <= streamIdx < |stream| && next == stream[streamIdx] && IsValue(next)
      modifies this
      ensures o == Ok(false)
      ensures State() == old(State()).(exprs := old(exprStack) + [ValueOf(next)])
      ensures o == ShiftVerdict(_default.Shift(stream, old(State())))
      ensures State() == _default.Shift(stream, old(State())).value.1
    {
      match next {
        case TBool(p, v) => exprStack := exprStack + [EBool(v, p)];
        case TInt(p, v) => exprStack := exprStack + [EInt(v, p)];
        case TStr(p, v) => exprStack := exprStack + [EStr(v, p)];
      }
      return Ok(false);
    }

    /** `shiftPunctuation`: a comma, an opening or a closing parenthesis. */
    method ShiftPunctuation(next: Token) returns (o: Outcome<bool>)
      requires 0 <= streamIdx < |stream| && next == stream[streamIdx] && IsPunctuation(next)
      modifies this
      ensures o == ShiftVerdict(_default.Shift(stream, old(State())))
      ensures o.Ok? ==> State() == _default.Shift(stream, old(State())).value.1
      ensures !o.Ok? ==> State() == old(State())
    {
      match next
      case TComma(p) =>
        if |exprStack| == 0 {
          return Fail(ErrUnexpectedComma, p);
        }
        if |ruleStack| > 0 && Rank(ruleStack[|ruleStack| - 1]) < Rank(ArgsListRule) {
          streamIdx := streamIdx - 1;
          return Ok(true);
        }
        ruleStack := ruleStack + [ArgsListRule];
        return Ok(false);
      case TParenLeft(p) =>
        var e := |exprStack|;
        var n := RuleStackLength();
        if e == n {
          ruleStack := ruleStack + [GroupRule];
        } else if e == n + 1 {
          ruleStack := ruleStack + [FuncRule];
        }
        return Ok(false);
      case TParenRight(p) =>
        var valid := false;
        var i := 0;
        while i < |ruleStack| && !valid
          invariant 0 <= i <= |ruleStack|
          invariant valid ==> GroupRule in ruleStack || FuncRule in ruleStack
          invariant !valid ==> forall j :: 0 <= j < i ==> ruleStack[j] != GroupRule && ruleStack[j] != FuncRule
        {
          if ruleStack[i] == GroupRule || ruleStack[i] == FuncRule {
            valid := true;
          }
          i := i + 1;
        }
        if !valid {
          return Fail(ErrUnexpectedParenthesis, p);
        }
        if ruleStack[|ruleStack| - 1] != GroupRule && ruleStack[|ruleStack| - 1] != FuncRule {
          streamIdx := streamIdx - 1;
        }
        return Ok(true);
    }

    /** `shiftOperator`: pushes the operator's rule, or asks for a reduce when the pending rule binds at least as tightly. */
    method ShiftOperator(next: Token) returns (o: Outcome<bool>)
      requires 0 <= streamIdx < |stream| && next == stream[streamIdx] && IsOperator(next)
      modifies this
      ensures o == ShiftVerdict(_default.Shift(stream, old(State())))
      ensures o.Ok? ==> State() == _default.Shift(stream, old(State())).value.1
      ensures !o.Ok? ==> State() == old(State())
    {
      if |exprStack| == 0 {
        return Fail(ErrUnexpectedOperator, next.p);
      }
      var r := OperatorRule(next);
      if |ruleStack| > 0 && Rank(ruleStack[|ruleStack| - 1]) <= Rank(r) {
        streamIdx := streamIdx - 1;
        return Ok(true);
      }
      ruleStack := ruleStack + [r];
      return Ok(false);
    }

    /** `reduce`: applies the rule on top of the rule stack, if any. */
    method Reduce() returns (o: Outcome<()>)
      modifies this
      ensures o == ReduceVerdict(_default.Reduce(stream, old(State()), clamp))
      ensures o.Ok? ==> State() == _default.Reduce(stream, old(State()), clamp).value
      ensures !o.Ok? ==> State() == old(State())
    {
      if |ruleStack| == 0 {
        return Ok(());
      }
      match ruleStack[|ruleStack| - 1]
      case FuncRule => o := ReduceFuncRule();
      case GroupRule => o := ReduceGroupRule();
      case ArgsListRule => o := ReduceArgsListRule();
      case _ => o := ReduceOperatorRule(ruleStack[|ruleStack| - 1]);
    }

    /** `reduceFuncRule`: a name and its arguments become a call. */
    method ReduceFuncRule() returns (o: Outcome<()>)
      requires |ruleStack| > 0 && ruleStack[|ruleStack| - 1] == FuncRule
      modifies this
      ensures o == ReduceVerdict(_default.Reduce(stream, old(State()), clamp))
      ensures o.Ok? ==> State() == _default.Reduce(stream, old(State()), clamp).value
      ensures !o.Ok? ==> State() == old(State())
    {
      var n := |exprStack|;
      if n < 2 {
        return ErrAt(stream, streamIdx - 1, ErrEmptyFuncCall, clamp);
      }
      var name := exprStack[n - 2];
      if !name.EStr? {
        return ErrAt(stream, streamIdx, ErrInvalidFuncName, clamp);
      }
      var top := exprStack[n - 1];
      var argsPos := if top.EArgsList? then top.p else Position(0, 0);
      match TokenAt(stream, streamIdx - 1, clamp)
      case None => return Panic;
      case Some(last) =>
        var f := EFunc(name.s, ArgValues(top), argsPos, Position(name.p.start, last.p.end));
        exprStack := exprStack[n - 2 := f];
        exprStack := exprStack[..n - 1];
        ruleStack := ruleStack[..|ruleStack| - 1];
        assert exprStack == old(exprStack)[..n - 2] + [f];
        return Ok(());
    }

    /** `reduceGroupRule`: a group adds no node; it only pops its rule. */
    method ReduceGroupRule() returns (o: Outcome<()>)
      requires |ruleStack| > 0 && ruleStack[|ruleStack| - 1] == GroupRule
      modifies this
      ensures o == ReduceVerdict(_default.Reduce(stream, old(State()), clamp))
      ensures o.Ok? ==> State() == _default.Reduce(stream, old(State()), clamp).value
      ensures !o.Ok? ==> State() == old(State())
    {
      if |exprStack| == 0 {
        return ErrAt(stream, streamIdx, ErrEmptyParenthesis, clamp);
      }
      ruleStack := ruleStack[..|ruleStack| - 1];
      return Ok(());
    }

    /** `reduceOperatorRule`: two string operands become a binary expression. */
    method ReduceOperatorRule(r: Rule) returns (o: Outcome<()>)
      requires |ruleStack| > 0 && ruleStack[|ruleStack| - 1] == r && Rank(r) < Rank(ArgsListRule)
      modifies this
      ensures o == ReduceVerdict(_default.Reduce(stream, old(State()), clamp))
      ensures o.Ok? ==> State() == _default.Reduce(stream, old(State()), clamp).value
      ensures !o.Ok? ==> State() == old(State())
    {
      var n := |exprStack|;
      if n < 2 {
        return ErrAt(stream, streamIdx - 1, ErrMissingArgument, clamp);
      }
      var lhs, rhs := exprStack[n - 2], exprStack[n - 1];
      var operands := [lhs, rhs];
      var i := 0;
      while i < |operands|
        invariant 0 <= i <= |operands|
        invariant forall j :: 0 <= j < i ==> !Invalid(operands[j])
      {
        if Invalid(operands[i]) {
          assert operands[i] == if i == 0 then lhs else rhs;
          assert i == 1 ==> !Invalid(operands[0]);
          return Fail(ErrInvalidArgument, operands[i].p);
        }
        i := i + 1;
      }
      assert !Invalid(operands[0]) && !Invalid(operands[1]);
      var e := Binary(r, lhs, rhs, Position(lhs.p.start, rhs.p.end));
      exprStack := exprStack[n - 2 := e];
      exprStack := exprStack[..n - 1];
      ruleStack := ruleStack[..|ruleStack| - 1];
      assert exprStack == old(exprStack)[..n - 2] + [e];
      return Ok(());
    }

    /** `reduceArgsListRule`: prepends the second expression to the top one's arguments. */
    method ReduceArgsListRule() returns (o: Outcome<()>)
      requires |ruleStack| > 0 && ruleStack[|ruleStack| - 1] == ArgsListRule
      modifies this
      ensures o == ReduceVerdict(_default.Reduce(stream, old(State()), clamp))
      ensures o.Ok? ==> State() == _default.Reduce(stream, old(State()), clamp).value
      ensures !o.Ok? ==> State() == old(State())
    {
      var n := |exprStack|;
      if n < 2 {
        return ErrAt(stream, streamIdx - 1, ErrMissingArgument, clamp);
      }
      var values := [exprStack[n - 2]];
      var top := exprStack[n - 1];
      if top.EArgsList? {
        values := values + top.values;
      } else {
        values := values + [top];
      }
      var list := EArgsList(values, Position(values[0].p.start, values[|values| - 1].p.end));
      exprStack := exprStack[n - 2 := list];
      exprStack := exprStack[..n - 1];
      ruleStack := ruleStack[..|ruleStack| - 1];
      assert exprStack == old(exprStack)[..n - 2] + [list];
      return Ok(());
    }

    /** One iteration of the main loop of `parse`. */
    method Advance() returns (o: Outcome<()>)
      requires 0 <= streamIdx < |stream|
      modifies this
      ensures o == ReduceVerdict(Step(stream, old(State()), clamp))
      ensures o.Ok? ==> State() == Step(stream, old(State()), clamp).value
    {
      var red := Shift(stream[streamIdx]);
      if red.Fail? {
        return Fail(red.err, red.pos);
      }
      if red.value {
        var reduced := Reduce();
        if reduced.Fail? {
          return Fail(reduced.err, reduced.pos);
        } else if reduced.Panic? {
          return Panic;
        }
      }
      var rules := RuleStackLength();
      if |exprStack| < rules || |exprStack| > rules + 1 {
        return ErrAt(stream, streamIdx, ErrMissingOperator, clamp);
      }
      streamIdx := streamIdx + 1;
      return Ok(());
    }

    /** `parse`: the main loop over the stream, the draining of the rule stack and the final checks. */
    method Parse() returns (o: Outcome<Expr>)
      requires State() == Start
      modifies this
      ensures o == ParseTokens(stream, clamp)
    {
      while streamIdx < |stream|
        invariant 0 <= streamIdx <= |stream|
        invariant Loop(stream, State(), clamp) == Loop(stream, Start, clamp)
        decreases Measure(stream, State())
      {
        var step := Advance();
        if step.Fail? {
          return Fail(step.err, step.pos);
        } else if step.Panic? {
          return Panic;
        }
      }
      assert Loop(stream, Start, clamp) == Ok(State());
      while |ruleStack| > 0
        invariant Drain(stream, State(), clamp) == Drained(stream, clamp)
        decreases |ruleStack|
      {
        var reduced := Reduce();
        if reduced.Fail? {
          return Fail(reduced.err, reduced.pos);
        } else if reduced.Panic? {
          return Panic;
        }
      }
      if |exprStack| == 0 {
        return Fail(ErrEmptyExpression, Position(0, 0));
      }
      if Invalid(exprStack[0]) {
        if |stream| == 0 {
          return Panic;
        }
        return Fail(ErrInvalidArgument, Position(0, stream[|stream| - 1].p.end));
      }
      return Ok(exprStack[0]);
    }
  }
}
