/**
 * The integer arithmetic of the dependency analysis (lib/analysis/analysis.go,
 * and analysis/analysis.go, whose modelled functions have the same text):
 * the human-readable duration, the distributions built by
 * `insertIntoAgeDistribution`, the grouping of a distribution into at most
 * 50 columns and the rotation of the chart's lines into rows. The
 * floating-point percentages and the chart's annotations are not part of
 * this model.
 */
module Analysis {
  import opened Util

  // ---------------------------------------------------------------------------
  // humanDuration

  /** Nanoseconds in 24 hours. */
  const DayNanos: int := 24 * 60 * 60 * 1000000000

  /** Go's integer division, which truncates toward zero. */
  function Quot(a: int, b: int): (q: int)
    requires b > 0
    ensures a >= 0 ==> q >= 0 && q * b <= a < (q + 1) * b
    ensures a < 0 ==> q <= 0 && (q - 1) * b < a <= q * b
  {
    if a >= 0 then DivBounds(a, b); a / b else DivBounds(-a, b); -((-a) / b)
  }

  /** Euclidean division of a natural number, with the products written out. */
  lemma DivBounds(n: nat, b: int)
    requires b > 0
    ensures n / b >= 0 && (n / b) * b <= n < (n / b) * b + b && (n / b + 1) * b == (n / b) * b + b
  {
    var q, r := n / b, n % b;
    assert n == b * q + r && 0 <= r < b;
    assert b * q == q * b;
  }

  /** Go's remainder, which takes the sign of the dividend. */
  function Rem(a: int, b: int): int
    requires b > 0
  {
    a - b * Quot(a, b)
  }

  /** The months and days `humanDuration` prints for a duration of `d` nanoseconds. */
  function HumanDurationParts(d: int): (int, int)
  {
    var totalDays := Quot(d, DayNanos);
    (Quot(totalDays, 30), Rem(totalDays, 30))
  }

  /** `humanDuration`: `<months> month(s) <days> day(s)`. */
  function HumanDuration(d: int): string
  {
    var (months, days) := HumanDurationParts(d);
    IntToString(months) + " month(s) " + IntToString(days) + " day(s)"
  }

  /**
   * The duration is cut to whole days, which are split into months of 30
   * days and fewer than 30 remaining days.
   */
  lemma HumanDurationSplits(d: int)
    requires d >= 0
    ensures var (months, days) := HumanDurationParts(d);
      var whole := months * 30 + days;
      && months >= 0 && 0 <= days < 30
      && whole * DayNanos <= d < (whole + 1) * DayNanos
  {
  }

  /** A negative duration is cut toward zero, so both parts are at most zero. */
  lemma HumanDurationNegative(d: int)
    requires d < 0
    ensures var (months, days) := HumanDurationParts(d);
      && months <= 0 && -30 < days <= 0
      && (months * 30 + days - 1) * DayNanos < d <= (months * 30 + days) * DayNanos
  {
  }

  // ---------------------------------------------------------------------------
  // insertIntoAgeDistribution

  /**
   * The distribution after `insertIntoAgeDistribution(idx, v)`: grown with
   * zeros to hold entry `idx`, which is then incremented.
   */
  function Inserted(v: seq<int>, idx: nat): seq<int>
  {
    var grown := if idx + 1 > |v| then v + seq(idx + 1 - |v|, _ => 0) else v;
    grown[idx := grown[idx] + 1]
  }

  /**
   * A distribution as a Go slice: the first `length` entries of a backing
   * array whose length is the slice's capacity. Entries past the slice's
   * length are zero, so growing within the capacity exposes zeros.
   */
  class AgeDistribution {
    var data: array<int>
    var length: nat

    ghost predicate Valid()
      reads this, data
    {
      length <= data.Length && forall k | length <= k < data.Length :: data[k] == 0
    }

    function Contents(): seq<int>
      reads this, data
      requires length <= data.Length
    {
      data[..length]
    }

    /** The nil slice. */
    constructor ()
      ensures Valid() && Contents() == []
    {
      data := new int[0];
      length := 0;
    }

    /**
     * `insertIntoAgeDistribution(idx, v)` with the result assigned back to
     * `v`: reslice within the capacity when `idx + 1` is below it, else
     * copy into a new array of twice the needed length; then increment.
     */
    method Insert(idx: nat)
      requires Valid()
      modifies this, data
      ensures Valid()
      ensures Contents() == Inserted(old(Contents()), idx)
    {
      if idx + 1 > length {
        if idx + 1 < data.Length {
          length := idx + 1;
        } else {
          var newV := new int[2 * (idx + 1)](_ => 0);
          forall k | 0 <= k < length {
            newV[k] := data[k];
          }
          data := newV;
          length := idx + 1;
        }
      }
      data[idx] := data[idx] + 1;
    }
  }

  /**
   * The slice grows to `max(len(v), idx + 1)` entries; entry `idx` goes
   * up by one, the other old entries keep their values and the new ones
   * are zero.
   */
  lemma InsertedEntries(v: seq<int>, idx: nat)
    ensures var r := Inserted(v, idx);
      && |r| == (if idx < |v| then |v| else idx + 1)
      && r[idx] == (if idx < |v| then v[idx] else 0) + 1
      && forall k | 0 <= k < |r| && k != idx :: r[k] == if k < |v| then v[k] else 0
  {
  }

  /** The distribution `Analyse` builds by inserting `idxs` one after the other into the nil slice. */
  function Histogram(idxs: seq<nat>): seq<int>
  {
    if idxs == [] then [] else Inserted(Histogram(idxs[..|idxs| - 1]), idxs[|idxs| - 1])
  }

  /** The built distribution ends at the largest inserted value. */
  lemma {:induction false} HistogramLength(idxs: seq<nat>)
    ensures var h := Histogram(idxs);
      && (forall i | 0 <= i < |idxs| :: idxs[i] < |h|)
      && (idxs != [] ==> |h| - 1 in idxs)
      && (idxs == [] ==> h == [])
  {
    if idxs != [] {
      var init, x := idxs[..|idxs| - 1], idxs[|idxs| - 1];
      HistogramLength(init);
      assert idxs == init + [x];
      InsertedEntries(Histogram(init), x);
      var h := Histogram(idxs);
      forall i | 0 <= i < |idxs|
        ensures idxs[i] < |h|
      {
        if i < |init| {
          assert idxs[i] == init[i];
        }
      }
      assert |h| - 1 in idxs by {
        if |h| - 1 != x {
          assert |h| - 1 in init;
        }
      }
    }
  }

  /** The built distribution counts each value: entry `k` is the number of inserted values equal to `k`. */
  lemma {:induction false} HistogramCounts(idxs: seq<nat>)
    ensures var h := Histogram(idxs);
      forall k | 0 <= k < |h| :: h[k] == multiset(idxs)[k]
  {
    if idxs != [] {
      var init, x := idxs[..|idxs| - 1], idxs[|idxs| - 1];
      HistogramCounts(init);
      HistogramLength(init);
      assert idxs == init + [x];
      InsertedEntries(Histogram(init), x);
      var h := Histogram(idxs);
      assert multiset(idxs) == multiset(init) + multiset{x};
      forall k | 0 <= k < |h|
        ensures h[k] == multiset(idxs)[k]
      {
        if k >= |Histogram(init)| {
          assert k !in init;
        }
      }
    }
  }

  /** Each `Insert` of the slice follows the histogram. */
  lemma HistogramStep(idxs: seq<nat>, x: nat)
    ensures Histogram(idxs + [x]) == Inserted(Histogram(idxs), x)
  {
    assert (idxs + [x])[..|idxs|] == idxs;
  }

  // ---------------------------------------------------------------------------
  // Grouping a distribution into columns

  /** The most columns a printed distribution should have. */
  const MaxColumns: nat := 50

  /** The number of columns of `n` entries grouped by `g`: `n / g`, rounded up. */
  function ColumnCount(n: nat, g: nat): (c: nat)
    requires g > 0
    ensures n > 0 ==> c >= 1 && (c - 1) * g < n <= c * g
    ensures n == 0 ==> c == 0
  {
    var c := n / g + (if n % g > 0 then 1 else 0);
    assert n == (n / g) * g + n % g;
    assert c * g == (n / g) * g + (if n % g > 0 then g else 0);
    c
  }

  /**
   * `printedDistribution`'s grouping factor as written: the number of
   * entries divided by 50, rounded up. It is 0 for an empty distribution.
   */
  function GroupingFactor(n: nat): (g: nat)
    ensures n > 0 ==> g >= 1 && (g - 1) * MaxColumns < n <= g * MaxColumns
    ensures n == 0 ==> g == 0
  {
    ColumnCount(n, MaxColumns)
  }

  /**
   * The column count `distributionCountToPercentage` computes as written,
   * `None` where its integer division by the grouping factor panics.
   */
  function ColumnsAsWritten(n: nat, g: nat): Option<nat>
  {
    if g == 0 then None else Some(ColumnCount(n, g))
  }

  /** Printing a distribution panics exactly when it is empty: an analysis without any dated dependency cannot be printed. */
  lemma PrintPanicsWhenEmpty(n: nat)
    ensures ColumnsAsWritten(n, GroupingFactor(n)).None? <==> n == 0
  {
  }

  /** The grouping factor with the empty distribution given a factor of one: it prints no column. */
  function SafeGroupingFactor(n: nat): (g: nat)
    ensures g >= 1
  {
    if n == 0 then 1 else GroupingFactor(n)
  }

  /** Grouped by the safe factor, every distribution fits in at most 50 columns that cover all its entries. */
  lemma {:induction false} ColumnsFit(n: nat)
    ensures var g := SafeGroupingFactor(n);
      var c := ColumnCount(n, g);
      && c <= MaxColumns && n <= c * g
      && (n > 0 ==> c >= 1 && (c - 1) * g < n)
  {
    var g := SafeGroupingFactor(n);
    var c := ColumnCount(n, g);
    if n > 0 {
      MulCancel(c - 1, MaxColumns, g);
    }
  }

  lemma MulCancel(a: int, b: int, g: int)
    requires g > 0 && a * g < b * g
    ensures a < b
  {
    if a >= b {
      MulMono(b, a, g);
    }
  }

  lemma MulMono(a: int, b: int, g: int)
    requires a <= b && g >= 0
    ensures a * g <= b * g
  {
  }

  function Min(a: int, b: int): int
  {
    if a < b then a else b
  }

  function Sum(s: seq<int>): int
  {
    if s == [] then 0 else Sum(s[..|s| - 1]) + s[|s| - 1]
  }

  /** The column totals of `d` grouped by `g`: the first `g` entries summed, then the rest grouped in turn. */
  function Grouped(d: seq<int>, g: nat): seq<int>
    requires g > 0
    decreases |d|
  {
    if d == [] then []
    else
      var k := Min(g, |d|);
      [Sum(d[..k])] + Grouped(d[k..], g)
  }

  lemma {:induction false} SumAppend(a: seq<int>, b: seq<int>)
    ensures Sum(a + b) == Sum(a) + Sum(b)
    decreases |b|
  {
    if b == [] {
      assert a + b == a;
    } else {
      assert (a + b)[..|a + b| - 1] == a + b[..|b| - 1];
      SumAppend(a, b[..|b| - 1]);
    }
  }

  lemma SumExtend(d: seq<int>, lo: int, hi: int)
    requires 0 <= lo <= hi < |d|
    ensures Sum(d[lo..hi + 1]) == Sum(d[lo..hi]) + d[hi]
  {
    assert d[lo..hi + 1][..hi - lo] == d[lo..hi];
  }

  /** Grouping keeps the total count, so the normalised columns add up to the whole. */
  lemma {:induction false} GroupedTotal(d: seq<int>, g: nat)
    requires g > 0
    ensures Sum(Grouped(d, g)) == Sum(d)
    decreases |d|
  {
    if d != [] {
      var k := Min(g, |d|);
      var rest := Grouped(d[k..], g);
      GroupedTotal(d[k..], g);
      SumAppend([Sum(d[..k])], rest);
      assert Sum([Sum(d[..k])]) == Sum(d[..k]) by {
        assert [Sum(d[..k])][..0] == [];
      }
      assert d == d[..k] + d[k..];
      SumAppend(d[..k], d[k..]);
    }
  }

  /** Two column counts that both fit `n` entries exactly are equal. */
  lemma ColumnCountUnique(n: nat, g: nat, a: int, b: int)
    requires g > 0
    requires (a - 1) * g < n <= a * g && (b - 1) * g < n <= b * g
    ensures a == b
  {
    MulCancel(a - 1, b, g);
    MulCancel(b - 1, a, g);
  }

  /** The bounds of `GroupedLength` for `n` entries, from those for the `n - g` entries after the first column. */
  lemma ColumnsAfterFirst(n: int, g: int, c: int, c1: int)
    requires g > 0 && n > 0 && c >= 0 && c1 == c + 1
    requires n <= g ==> c == 0
    requires n > g ==> (c - 1) * g < n - g <= c * g
    ensures (c1 - 1) * g < n <= c1 * g
  {
    assert c1 - 1 == c;
    assert c1 * g == c * g + g;
  }

  /** The column totals fit the entries exactly: `n` entries make `n / g` columns, rounded up. */
  lemma {:induction false} GroupedLength(d: seq<int>, g: nat)
    requires g > 0
    ensures var c := |Grouped(d, g)|;
      && (|d| > 0 ==> (c - 1) * g < |d| <= c * g)
      && (|d| == 0 ==> c == 0)
    decreases |d|
  {
    if d != [] {
      var k := Min(g, |d|);
      GroupedLength(d[k..], g);
      var c := |Grouped(d[k..], g)|;
      assert |Grouped(d, g)| == c + 1;
      ColumnsAfterFirst(|d|, g, c, c + 1);
    }
  }

  /** There are as many column totals as `distributionCountToPercentage` allocates columns. */
  lemma GroupedColumns(d: seq<int>, g: nat)
    requires g > 0
    ensures |Grouped(d, g)| == ColumnCount(|d|, g)
  {
    GroupedLength(d, g);
    if d != [] {
      ColumnCountUnique(|d|, g, |Grouped(d, g)|, ColumnCount(|d|, g));
    }
  }

  /** Past the first column, the columns are those of the entries after it. */
  lemma GroupedShift(d: seq<int>, g: nat, i: nat)
    requires g > 0 && 0 < i < |Grouped(d, g)|
    ensures g < |d| && |Grouped(d[g..], g)| == |Grouped(d, g)| - 1
    ensures Grouped(d, g)[i] == Grouped(d[g..], g)[i - 1]
  {
  }

  /** Column `i` is column `i - 1` of the entries after the first column, `g` entries further on. */
  lemma GroupedColumnStep(d: seq<int>, g: nat, i: nat, a: nat)
    requires g > 0 && 0 < i < |Grouped(d, g)| && g <= |d| && i - 1 < |Grouped(d[g..], g)|
    requires a == ColumnStartAt(i - 1, g) && a < |d[g..]|
    requires Grouped(d[g..], g)[i - 1] == Sum(d[g..][a..Min(a + g, |d[g..]|)])
    ensures var b := ColumnStartAt(i, g);
      b < |d| && Grouped(d, g)[i] == Sum(d[b..Min(b + g, |d|)])
  {
    var b := ColumnStartAt(i, g);
    GroupedShift(d, g, i);
    WindowShift(d, g, a, b);
  }

  lemma GroupedFirst(d: seq<int>, g: nat, a: nat)
    requires g > 0 && d != [] && a == 0
    ensures a < |d| && Grouped(d, g)[0] == Sum(d[a..Min(a + g, |d|)])
  {
    assert d[..Min(g, |d|)] == d[a..Min(a + g, |d|)];
  }

  lemma WindowShift(d: seq<int>, g: nat, a: nat, b: nat)
    requires g <= |d| && a < |d| - g && b == a + g
    ensures d[g..][a..Min(a + g, |d[g..]|)] == d[b..Min(b + g, |d|)]
  {
  }

  /** The first entry of column `i`: `g` entries further for each column before it. */
  function ColumnStartAt(i: nat, g: nat): nat
  {
    if i == 0 then 0 else ColumnStartAt(i - 1, g) + g
  }

  lemma {:induction false} ColumnStartProduct(i: nat, g: nat)
    ensures ColumnStartAt(i, g) == i * g
  {
    if i > 0 {
      ColumnStartProduct(i - 1, g);
      assert i * g == (i - 1) * g + g;
    }
  }

  lemma {:induction false} GroupedColumnAt(d: seq<int>, g: nat, i: nat)
    requires g > 0 && i < |Grouped(d, g)|
    ensures var a := ColumnStartAt(i, g);
      a < |d| && Grouped(d, g)[i] == Sum(d[a..Min(a + g, |d|)])
    decreases i
  {
    if i == 0 {
      GroupedFirst(d, g, ColumnStartAt(0, g));
    } else {
      GroupedShift(d, g, i);
      GroupedColumnAt(d[g..], g, i - 1);
      GroupedColumnStep(d, g, i, ColumnStartAt(i - 1, g));
    }
  }

  /** Column `i` adds up the entries `i * g` to `i * g + g - 1`, cut at the end of the distribution. */
  lemma GroupedColumn(d: seq<int>, g: nat, i: nat)
    requires g > 0 && i < |Grouped(d, g)|
    ensures i * g < |d| && Grouped(d, g)[i] == Sum(d[i * g..Min(i * g + g, |d|)])
  {
    GroupedColumnAt(d, g, i);
    ColumnStartProduct(i, g);
  }

  /** The column starting at `start`, and the columns after it. */
  lemma GroupedFrom(d: seq<int>, g: nat, start: nat)
    requires g > 0 && start < |d|
    ensures Grouped(d[start..], g) == [Sum(d[start..Min(start + g, |d|)])] + Grouped(d[Min(start + g, |d|)..], g)
  {
    var rest := d[start..];
    var k := Min(g, |rest|);
    assert rest[..k] == d[start..Min(start + g, |d|)];
    assert rest[k..] == d[Min(start + g, |d|)..];
  }

  /**
   * The inner grouping loop of `distributionCountToPercentage` for the
   * column starting at `start`: it adds at most `g` entries to the column
   * (which starts at zero) and to the running total.
   */
  method AddColumn(d: seq<int>, g: nat, start: nat, totalBefore: int) returns (column: int, totalCount: int)
    requires start < |d| && totalBefore == Sum(d[..start])
    ensures column == Sum(d[start..Min(start + g, |d|)])
    ensures totalCount == Sum(d[..Min(start + g, |d|)])
  {
    column, totalCount := 0, totalBefore;
    var j := 0;
    while j < g && start + j < |d|
      invariant 0 <= j <= g && start + j <= |d|
      invariant column == Sum(d[start..start + j])
      invariant totalCount == Sum(d[..start + j])
      decreases g - j
    {
      SumExtend(d, start, start + j);
      SumExtend(d, 0, start + j);
      totalCount := totalCount + d[start + j];
      column := column + d[start + j];
      j := j + 1;
    }
  }

  /** One more column total moves the start of what is left to the next column. */
  lemma GroupedNext(d: seq<int>, g: nat, start: nat, done: seq<int>, x: int)
    requires g > 0 && start < |d| && Grouped(d, g) == done + Grouped(d[start..], g)
    requires x == Sum(d[start..Min(start + g, |d|)])
    ensures Grouped(d, g) == (done + [x]) + Grouped(d[Min(start + g, |d|)..], g)
  {
    GroupedFrom(d, g, start);
  }

  /** The column count as `distributionCountToPercentage` computes it. */
  lemma GroupedCount(d: seq<int>, g: nat)
    requires g > 0
    ensures |Grouped(d, g)| == |d| / g + (if |d| % g > 0 then 1 else 0)
  {
    GroupedColumns(d, g);
  }

  /**
   * The grouping loops of `distributionCountToPercentage` on counts: the
   * column totals, and the total of all counts accumulated on the way (the
   * division into percentages is not part of this model). `start` is the
   * first entry of column `i`, `i * groupingFactor` in the source, as
   * `GroupedColumn` shows.
   */
  method GroupCounts(d: seq<int>, groupingFactor: nat) returns (p: seq<int>, totalCount: int)
    requires groupingFactor > 0
    ensures p == Grouped(d, groupingFactor)
    ensures totalCount == Sum(d)
  {
    var g := groupingFactor;
    var columns := |d| / g;
    if |d| % g > 0 {
      columns := columns + 1;
    }
    GroupedCount(d, g);
    var sums := new int[columns](_ => 0);
    totalCount := 0;
    var start := 0;
    for i := 0 to columns
      invariant 0 <= start <= |d|
      invariant Grouped(d, g) == sums[..i] + Grouped(d[start..], g)
      invariant totalCount == Sum(d[..start])
    {
      assert start < |d| by {
        assert |Grouped(d[start..], g)| == columns - i;
      }
      ghost var before := sums[..i];
      sums[i], totalCount := AddColumn(d, g, start, totalCount);
      assert sums[..i + 1] == before + [sums[i]];
      GroupedNext(d, g, start, before, sums[i]);
      start := Min(start + g, |d|);
    }
    assert |Grouped(d[start..], g)| == 0;
    assert sums[..columns] == sums[..];
    assert d[..start] == d;
    p := sums[..];
  }

  /**
   * The grouping of `printedDistribution` with the empty distribution
   * handled: the factor, and the column totals and overall total.
   */
  method GroupDistribution(distribution: seq<int>) returns (groupingFactor: nat, p: seq<int>, totalCount: int)
    ensures groupingFactor == SafeGroupingFactor(|distribution|)
    ensures p == Grouped(distribution, groupingFactor) && |p| <= MaxColumns
    ensures totalCount == Sum(distribution) == Sum(p)
  {
    groupingFactor := |distribution| / MaxColumns;
    if |distribution| % MaxColumns > 0 {
      groupingFactor := groupingFactor + 1;
    }
    if groupingFactor == 0 {
      groupingFactor := 1;
    }
    ColumnsFit(|distribution|);
    GroupedColumns(distribution, groupingFactor);
    GroupedTotal(distribution, groupingFactor);
    p, totalCount := GroupCounts(distribution, groupingFactor);
  }

  // ---------------------------------------------------------------------------
  // rotateDistributionLines

  /** Character `k` of a chart line, or a space past its end. */
  function Cell(line: string, k: nat): char
  {
    if |line| >= k + 1 then line[k] else ' '
  }

  /** Character `k` of every line. */
  function Row(lines: seq<string>, k: nat): (r: string)
    ensures |r| == |lines|
  {
    seq(|lines|, l requires 0 <= l < |lines| => Cell(lines[l], k))
  }

  /** The rows of the rotated chart: the top row holds character `displayHeight` of each line, the bottom row character 0. */
  function Rotated(lines: seq<string>, displayHeight: nat): seq<string>
  {
    seq(displayHeight + 1, idx requires 0 <= idx < displayHeight + 1 => Row(lines, displayHeight - idx))
  }

  lemma RowStep(lines: seq<string>, l: nat, k: nat)
    requires l < |lines|
    ensures Row(lines[..l + 1], k) == Row(lines[..l], k) + [Cell(lines[l], k)]
  {
  }

  /** `rotateDistributionLines`: the nested loops appending one character per line to each row. */
  method RotateDistributionLines(lines: seq<string>, displayHeight: nat) returns (rows: seq<string>)
    ensures rows == Rotated(lines, displayHeight)
  {
    var h := displayHeight;
    var r := new string[h + 1](_ => "");
    for idx := 0 to h + 1
      invariant forall i | 0 <= i < idx :: r[i] == Row(lines, h - i)
      invariant forall i | idx <= i < h + 1 :: r[i] == ""
    {
      for l := 0 to |lines|
        invariant r[idx] == Row(lines[..l], h - idx)
        invariant forall i | 0 <= i < idx :: r[i] == Row(lines, h - i)
        invariant forall i | idx < i < h + 1 :: r[i] == ""
      {
        RowStep(lines, l, h - idx);
        if |lines[l]| >= h + 1 - idx {
          r[idx] := r[idx] + [lines[l][h - idx]];
        } else {
          r[idx] := r[idx] + " ";
        }
      }
      assert lines[..|lines|] == lines;
    }
    rows := r[..];
  }

  /** The rotated chart has `displayHeight + 1` rows of one character per line. */
  lemma RotatedShape(lines: seq<string>, displayHeight: nat)
    ensures var rows := Rotated(lines, displayHeight);
      |rows| == displayHeight + 1 && forall i | 0 <= i < |rows| :: |rows[i]| == |lines|
  {
    var rows := Rotated(lines, displayHeight);
    forall i | 0 <= i < |rows|
      ensures |rows[i]| == |lines|
    {
      assert rows[i] == Row(lines, displayHeight - i);
    }
  }

  /** Column `l` of the rows, read from the bottom row up. */
  function Column(rows: seq<string>, l: nat, displayHeight: nat): string
    requires |rows| == displayHeight + 1 && forall i | 0 <= i < |rows| :: l < |rows[i]|
  {
    seq(displayHeight + 1, k requires 0 <= k < displayHeight + 1 => rows[displayHeight - k][l])
  }

  /**
   * The rotation loses nothing of a line that fits: read from the bottom
   * up, its column is the line followed by spaces.
   */
  lemma RotationKeepsLines(lines: seq<string>, displayHeight: nat, l: nat)
    requires l < |lines| && |lines[l]| <= displayHeight + 1
    ensures var rows := Rotated(lines, displayHeight);
      && |rows| == displayHeight + 1 && (forall i | 0 <= i < |rows| :: l < |rows[i]|)
      && Column(rows, l, displayHeight) == lines[l] + seq(displayHeight + 1 - |lines[l]|, _ => ' ')
  {
    RotatedShape(lines, displayHeight);
    var rows := Rotated(lines, displayHeight);
    var col := Column(rows, l, displayHeight);
    var want := lines[l] + seq(displayHeight + 1 - |lines[l]|, _ => ' ');
    forall k | 0 <= k < displayHeight + 1
      ensures col[k] == want[k]
    {
      assert rows[displayHeight - k] == Row(lines, k);
    }
  }

  /** A line longer than the chart loses the characters above the top row. */
  lemma RotationCutsLongLines(lines: seq<string>, displayHeight: nat, l: nat)
    requires l < |lines| && |lines[l]| > displayHeight + 1
    ensures var rows := Rotated(lines, displayHeight);
      && |rows| == displayHeight + 1 && (forall i | 0 <= i < |rows| :: l < |rows[i]|)
      && Column(rows, l, displayHeight) == lines[l][..displayHeight + 1]
  {
    RotatedShape(lines, displayHeight);
    var rows := Rotated(lines, displayHeight);
    var col := Column(rows, l, displayHeight);
    forall k | 0 <= k < displayHeight + 1
      ensures col[k] == lines[l][k]
    {
      assert rows[displayHeight - k] == Row(lines, k);
    }
  }
}
