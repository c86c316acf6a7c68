/**
 * Tokens of the query language (internal/query/tokens.go): ten token kinds in
 * three categories, each carrying the byte range of the query text it came from.
 */
module QueryTokens {
  import opened Util

  /** Byte offsets of a token or expression in the query; `end` is exclusive. */
  datatype Position = Position(start: int, end: int)

  /** `Position.String`: 1-based, a single number when the range is empty. */
  function PositionString(p: Position): (r: string)
  {
    if p.start != p.end then IntToString(p.start + 1) + "-" + IntToString(p.end + 1)
    else IntToString(p.start + 1)
  }

  /** Reads a rendered position back; the inverse of `PositionString` on offsets. */
  function ParsePositionString(s: string): (r: Option<Position>)
  {
    var parts := Split(s, '-');
    if |parts| == 1 then
      match Atoi(parts[0])
      case Some(a) => Some(Position(a - 1, a - 1))
      case None => None
    else if |parts| == 2 then
      match (Atoi(parts[0]), Atoi(parts[1]))
      case (Some(a), Some(b)) => Some(Position(a - 1, b - 1))
      case _ => None
    else None
  }

  lemma {:induction false} SplitWithoutSeparator(s: string, sep: char)
    requires sep !in s
    ensures Split(s, sep) == [s]
  {
    if |s| > 0 {
      SplitWithoutSeparator(s[1..], sep);
      assert s == [s[0]] + s[1..];
    }
  }

  lemma {:induction false} SplitAtSeparator(a: string, b: string, sep: char)
    requires sep !in a
    ensures Split(a + [sep] + b, sep) == [a] + Split(b, sep)
  {
    if |a| == 0 {
      assert a + [sep] + b == [sep] + b;
      assert ([sep] + b)[1..] == b;
    } else {
      assert (a + [sep] + b)[1..] == a[1..] + [sep] + b;
      SplitAtSeparator(a[1..], b, sep);
      assert a == [a[0]] + a[1..];
    }
  }

  lemma NatStringHasNoDash(n: nat)
    ensures '-' !in NatToString(n)
  {
    var s := NatToString(n);
    forall i | 0 <= i < |s| ensures s[i] != '-' {
      assert IsDigit(s[i]);
    }
  }

  /** Rendering a position of the query (offsets below 2^63 - 1) and reading it back is the identity. */
  lemma PositionStringRoundTrip(p: Position)
    requires 0 <= p.start < MaxInt64 && 0 <= p.end < MaxInt64
    ensures ParsePositionString(PositionString(p)) == Some(p)
  {
    if p.start != p.end {
      RangeRoundTrip(p);
    } else {
      PointRoundTrip(p);
    }
  }

  lemma RangeRoundTrip(p: Position)
    requires 0 <= p.start < MaxInt64 && 0 <= p.end < MaxInt64 && p.start != p.end
    ensures ParsePositionString(PositionString(p)) == Some(p)
  {
    var a, b := NatToString(p.start + 1), NatToString(p.end + 1);
    assert IntToString(p.start + 1) == a && IntToString(p.end + 1) == b;
    AtoiIntToString(p.start + 1);
    AtoiIntToString(p.end + 1);
    NatStringHasNoDash(p.start + 1);
    NatStringHasNoDash(p.end + 1);
    assert Atoi(a) == Some(p.start + 1) && Atoi(b) == Some(p.end + 1);
    SplitPair(a, b);
    assert PositionString(p) == a + "-" + b;
    assert Split(PositionString(p), '-') == [a, b];
  }

  lemma SplitPair(a: string, b: string)
    requires '-' !in a && '-' !in b
    ensures Split(a + "-" + b, '-') == [a, b]
  {
    SplitAtSeparator(a, b, '-');
    SplitWithoutSeparator(b, '-');
  }

  lemma PointRoundTrip(p: Position)
    requires 0 <= p.start < MaxInt64 && p.start == p.end
    ensures ParsePositionString(PositionString(p)) == Some(p)
  {
    var a := NatToString(p.start + 1);
    assert IntToString(p.start + 1) == a;
    AtoiIntToString(p.start + 1);
    NatStringHasNoDash(p.start + 1);
    assert PositionString(p) == a;
    SplitWithoutSeparator(a, '-');
  }

  datatype Token =
    | TBool(p: Position, b: bool)
    | TInt(p: Position, v: int)
    | TStr(p: Position, s: string)
    | TComma(p: Position)
    | TParenLeft(p: Position)
    | TParenRight(p: Position)
    | TDelta(p: Position)
    | TIntersect(p: Position)
    | TSubtract(p: Position)
    | TUnion(p: Position)

  /** The `valueToken` interface. */
  predicate IsValue(t: Token)
  {
    t.TBool? || t.TInt? || t.TStr?
  }

  /** The `punctuationToken` interface. */
  predicate IsPunctuation(t: Token)
  {
    t.TComma? || t.TParenLeft? || t.TParenRight?
  }

  /** The `operatorToken` interface. */
  predicate IsOperator(t: Token)
  {
    t.TDelta? || t.TIntersect? || t.TSubtract? || t.TUnion?
  }

  /** The text of an operator between its spaces: a keyword for delta and intersection, a sign for subtraction and union. */
  function OperatorWord(t: Token): string
    requires IsOperator(t)
  {
    match t
    case TDelta(_) => "delta"
    case TIntersect(_) => "inter"
    case TSubtract(_) => "-"
    case TUnion(_) => "+"
  }

  function BoolString(b: bool): string
  {
    if b then "true" else "false"
  }

  /**
   * `token.String`: a value renders as its value, in decimal for an integer;
   * punctuation as itself, a comma followed by a space; an operator as its
   * keyword or sign with a space on each side.
   */
  function TokenString(t: Token): (r: string)
    ensures t.TBool? ==> r == (if t.b then "true" else "false")
    ensures t.TInt? ==> r == IntToString(t.v) && (MinInt64 <= t.v <= MaxInt64 ==> Atoi(r) == Some(t.v))
    ensures t.TStr? ==> r == t.s
    ensures t.TComma? ==> r == ", "
    ensures t.TParenLeft? ==> r == "("
    ensures t.TParenRight? ==> r == ")"
    ensures IsOperator(t) ==> |r| >= 3 && r[0] == ' ' && r[|r| - 1] == ' '
    ensures IsOperator(t) ==> r[1..|r| - 1] == OperatorWord(t)
  {
    match t
    case TBool(_, b) => BoolString(b)
    case TInt(_, v) => (if MinInt64 <= v <= MaxInt64 then AtoiIntToString(v); IntToString(v) else IntToString(v))
    case TStr(_, s) => s
    case TComma(_) => ", "
    case TParenLeft(_) => "("
    case TParenRight(_) => ")"
    case TDelta(_) => " delta "
    case TIntersect(_) => " inter "
    case TSubtract(_) => " - "
    case TUnion(_) => " + "
  }
}
