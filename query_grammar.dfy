/**
 * The query AST (internal/query/grammar.go) and its canonical `String()`
 * rendering, which is how parse trees are compared.
 */
module QueryGrammar {
  import opened Util
  import opened QueryTokens

  datatype Expr =
    | EBool(b: bool, p: Position)
    | EInt(v: int, p: Position)
    | EStr(s: string, p: Position)
    | EDelta(lhs: Expr, rhs: Expr, p: Position)
    | EIntersect(lhs: Expr, rhs: Expr, p: Position)
    | ESubtract(lhs: Expr, rhs: Expr, p: Position)
    | EUnion(lhs: Expr, rhs: Expr, p: Position)
      /** `ExprFunc`; its `args` field is always an `ExprArgsList`, whose values and position are kept here. */
    | EFunc(name: string, args: seq<Expr>, argsPos: Position, p: Position)
    | EArgsList(values: seq<Expr>, p: Position)

  /** The `ValueExpr` interface. */
  predicate IsValueExpr(e: Expr)
  {
    e.EBool? || e.EInt? || e.EStr?
  }

  /** The `BinaryExpr` interface. */
  predicate IsBinary(e: Expr)
  {
    e.EDelta? || e.EIntersect? || e.ESubtract? || e.EUnion?
  }

  /** The word between the operands of a rendered binary expression. */
  function OperatorWord(e: Expr): string
    requires IsBinary(e)
  {
    match e
    case EDelta(_, _, _) => "delta"
    case EIntersect(_, _, _) => "inter"
    case ESubtract(_, _, _) => "-"
    case EUnion(_, _, _) => "+"
  }

  /** `Operands()`: the embedded left and right operands. */
  function Operands(e: Expr): (r: (Expr, Expr))
    requires IsBinary(e)
    ensures r.0 < e && r.1 < e
  {
    (e.lhs, e.rhs)
  }

  /** `String()` of every kind of expression. */
  function Render(e: Expr): string
    decreases e, 1
  {
    match e
    case EBool(b, _) => BoolString(b)
    case EInt(v, _) => IntToString(v)
    case EStr(s, _) => s
    case EDelta(l, r, _) => "(" + Render(l) + " delta " + Render(r) + ")"
    case EIntersect(l, r, _) => "(" + Render(l) + " inter " + Render(r) + ")"
    case ESubtract(l, r, _) => "(" + Render(l) + " - " + Render(r) + ")"
    case EUnion(l, r, _) => "(" + Render(l) + " + " + Render(r) + ")"
    case EFunc(name, args, _, _) => name + "(" + RenderList(e, args) + ")"
    case EArgsList(values, _) => RenderList(e, values)
  }

  /** `ExprArgsList.String()`: the rendered values joined by ", " inside brackets. */
  function RenderList(parent: Expr, values: seq<Expr>): string
    requires forall v :: v in values ==> v < parent
    decreases parent, 0, |values| + 1
  {
    "[" + Join(RenderAll(parent, values), ", ") + "]"
  }

  function RenderAll(parent: Expr, values: seq<Expr>): (r: seq<string>)
    requires forall v :: v in values ==> v < parent
    ensures |r| == |values|
    decreases parent, 0, |values|
  {
    if |values| == 0 then []
    else
      var init, last := values[..|values| - 1], values[|values| - 1];
      assert last in values;
      assert forall v :: v in init ==> v in values;
      RenderAll(parent, init) + [Render(last)]
  }

  /** Rendering ignores positions: two trees that differ only in positions render alike. */
  predicate SameShape(a: Expr, b: Expr)
  {
    match (a, b)
    case (EBool(x, _), EBool(y, _)) => x == y
    case (EInt(x, _), EInt(y, _)) => x == y
    case (EStr(x, _), EStr(y, _)) => x == y
    case (EDelta(l1, r1, _), EDelta(l2, r2, _)) => SameShape(l1, l2) && SameShape(r1, r2)
    case (EIntersect(l1, r1, _), EIntersect(l2, r2, _)) => SameShape(l1, l2) && SameShape(r1, r2)
    case (ESubtract(l1, r1, _), ESubtract(l2, r2, _)) => SameShape(l1, l2) && SameShape(r1, r2)
    case (EUnion(l1, r1, _), EUnion(l2, r2, _)) => SameShape(l1, l2) && SameShape(r1, r2)
    case (EFunc(n1, a1, _, _), EFunc(n2, a2, _, _)) =>
      n1 == n2 && |a1| == |a2| && forall i :: 0 <= i < |a1| ==> SameShape(a1[i], a2[i])
    case (EArgsList(a1, _), EArgsList(a2, _)) =>
      |a1| == |a2| && forall i :: 0 <= i < |a1| ==> SameShape(a1[i], a2[i])
    case _ => false
  }

  lemma {:induction false} RenderIgnoresPositions(a: Expr, b: Expr)
    requires SameShape(a, b)
    ensures Render(a) == Render(b)
    decreases a, 1
  {
    match (a, b)
    case (EDelta(l1, r1, _), EDelta(l2, r2, _)) =>
      RenderIgnoresPositions(l1, l2);
      RenderIgnoresPositions(r1, r2);
    case (EIntersect(l1, r1, _), EIntersect(l2, r2, _)) =>
      RenderIgnoresPositions(l1, l2);
      RenderIgnoresPositions(r1, r2);
    case (ESubtract(l1, r1, _), ESubtract(l2, r2, _)) =>
      RenderIgnoresPositions(l1, l2);
      RenderIgnoresPositions(r1, r2);
    case (EUnion(l1, r1, _), EUnion(l2, r2, _)) =>
      RenderIgnoresPositions(l1, l2);
      RenderIgnoresPositions(r1, r2);
    case (EFunc(_, a1, _, _), EFunc(_, a2, _, _)) =>
      RenderAllIgnoresPositions(a, b, a1, a2);
    case (EArgsList(a1, _), EArgsList(a2, _)) =>
      RenderAllIgnoresPositions(a, b, a1, a2);
    case _ =>
  }

  lemma {:induction false} RenderAllIgnoresPositions(pa: Expr, pb: Expr, a: seq<Expr>, b: seq<Expr>)
    requires forall v :: v in a ==> v < pa
    requires forall v :: v in b ==> v < pb
    requires |a| == |b| && forall i :: 0 <= i < |a| ==> SameShape(a[i], b[i])
    ensures RenderAll(pa, a) == RenderAll(pb, b)
    decreases pa, 0, |a|
  {
    if |a| > 0 {
      PrefixBelow(pa, a, a[..|a| - 1]);
      PrefixBelow(pb, b, b[..|b| - 1]);
      RenderAllIgnoresPositions(pa, pb, a[..|a| - 1], b[..|b| - 1]);
      RenderIgnoresPositions(a[|a| - 1], b[|b| - 1]);
    }
  }

  lemma PrefixBelow(parent: Expr, values: seq<Expr>, init: seq<Expr>)
    requires |values| > 0 && forall v :: v in values ==> v < parent
    requires init == values[..|values| - 1]
    ensures values[|values| - 1] < parent
    ensures forall v :: v in init ==> v < parent
  {
    assert values[|values| - 1] in values;
    forall v | v in init ensures v < parent {
      var i :| 0 <= i < |init| && init[i] == v;
      assert values[i] in values;
    }
  }

  /** A binary expression renders fully parenthesised, with its operator word between its operands. */
  lemma RenderBinary(e: Expr)
    requires IsBinary(e)
    ensures Render(e) == "(" + Render(Operands(e).0) + " " + OperatorWord(e) + " " + Render(Operands(e).1) + ")"
  {
  }
}
