/**
 * The arithmetic of the evaluation grid: a record's total (its metric scores
 * minus its deduction), the column totals of the footer, the points possible
 * per teacher (the sum of the max-grade table) and the percentages shown next
 * to them. Scores are integers; percentages are exact reals, so the
 * floating-point rounding of the display is not part of the model.
 */
module Scoring {
  import opened Records
  import opened Seqs

  /** `m => t[m.key] || 0` */
  function ScoreIn(t: Teacher): Metric -> int
  {
    m => Score(t, m)
  }

  /** `t => t[m.key] || 0` */
  function MetricScore(m: Metric): Teacher -> int
  {
    t => Score(t, m)
  }

  function ViolationsOf(t: Teacher): int
  {
    t.violationsScore
  }

  /** The sum of a record's scores over the listed metrics. */
  function MetricSum(t: Teacher, ms: seq<Metric>): int
  {
    Sum(ms, ScoreIn(t))
  }

  /** A record's total: the sum of its fourteen metric scores minus its deduction. */
  function Total(t: Teacher): int
  {
    MetricSum(t, Metrics) - t.violationsScore
  }

  /** A record whose metrics and deduction are all 0 has total 0. */
  lemma {:induction false} ZeroRecordTotal(t: Teacher)
    requires t.scores == ZeroScores() && t.violationsScore == 0
    ensures Total(t) == 0
  {
    ZeroMetricSum(t, Metrics);
  }

  lemma {:induction false} ZeroMetricSum(t: Teacher, ms: seq<Metric>)
    requires t.scores == ZeroScores()
    ensures MetricSum(t, ms) == 0
  {
    if ms != [] {
      ZeroMetricSum(t, ms[1..]);
    }
  }

  /** A record's metric sum stays within [0, sum of bounds] when each score is within [0, its bound]. */
  lemma {:induction false} TotalWithinBounds(t: Teacher, bound: Metric -> int, ms: seq<Metric>)
    requires forall m :: 0 <= Score(t, m) <= bound(m)
    ensures 0 <= MetricSum(t, ms) <= Sum(ms, bound)
  {
    if ms != [] {
      TotalWithinBounds(t, bound, ms[1..]);
    }
  }

  /** The footer's metric column: the sum of that metric over the displayed rows. */
  function ColumnSum(view: seq<Teacher>, m: Metric): int
  {
    Sum(view, MetricScore(m))
  }

  /** The footer's deduction column. */
  function ViolationsSum(view: seq<Teacher>): int
  {
    Sum(view, ViolationsOf)
  }

  /** The footer's grand total: the sum of the displayed rows' totals. */
  function GrandTotal(view: seq<Teacher>): int
  {
    Sum(view, Total)
  }

  function ColumnSumIn(view: seq<Teacher>): Metric -> int
  {
    m => ColumnSum(view, m)
  }

  /** The first row's scores are part of every metric column. */
  lemma {:induction false} ColumnsOfCons(view: seq<Teacher>, ms: seq<Metric>)
    requires view != []
    ensures Sum(ms, ColumnSumIn(view)) == MetricSum(view[0], ms) + Sum(ms, ColumnSumIn(view[1..]))
  {
    if ms != [] {
      assert ColumnSum(view, ms[0]) == Score(view[0], ms[0]) + ColumnSum(view[1..], ms[0]);
      ColumnsOfCons(view, ms[1..]);
    }
  }

  /** The grand total equals the sum of the metric columns minus the deduction column. */
  lemma {:induction false} GrandTotalSplit(view: seq<Teacher>)
    ensures GrandTotal(view) == Sum(Metrics, ColumnSumIn(view)) - ViolationsSum(view)
  {
    if view == [] {
      ZeroColumns(view, Metrics);
    } else {
      GrandTotalSplit(view[1..]);
      ColumnsOfCons(view, Metrics);
    }
  }

  lemma {:induction false} ZeroColumns(view: seq<Teacher>, ms: seq<Metric>)
    requires view == []
    ensures Sum(ms, ColumnSumIn(view)) == 0
  {
    if ms != [] {
      ZeroColumns(view, ms[1..]);
    }
  }

  /** Every footer total is the same for any reordering of the displayed rows. */
  lemma ColumnTotalsOrderFree(v1: seq<Teacher>, v2: seq<Teacher>)
    requires multiset(v1) == multiset(v2)
    ensures forall m :: ColumnSum(v1, m) == ColumnSum(v2, m)
    ensures ViolationsSum(v1) == ViolationsSum(v2)
    ensures GrandTotal(v1) == GrandTotal(v2)
  {
    forall m ensures ColumnSum(v1, m) == ColumnSum(v2, m) {
      SumPermutation(v1, v2, MetricScore(m));
    }
    SumPermutation(v1, v2, ViolationsOf);
    SumPermutation(v1, v2, Total);
  }

  /** The keys of the footer's totals dictionary. */
  datatype Column = MetricColumn(metric: Metric) | ViolationsColumn | GrandTotalColumn

  function TotalOf(totals: map<Column, int>): Metric -> int
  {
    m => if MetricColumn(m) in totals then totals[MetricColumn(m)] else 0
  }

  /** The metric part of `columnTotals`: the loop over the metric columns. */
  method MetricColumnTotals(view: seq<Teacher>) returns (totals: map<Column, int>)
    ensures forall m :: MetricColumn(m) in totals && totals[MetricColumn(m)] == ColumnSum(view, m)
    ensures forall c :: c in totals ==> c.MetricColumn?
  {
    var metrics := Metrics;
    totals := map[];
    for i := 0 to |metrics|
      invariant forall k :: 0 <= k < i ==> MetricColumn(metrics[k]) in totals
      invariant forall c :: c in totals ==> c.MetricColumn? && totals[c] == ColumnSum(view, c.metric)
    {
      var m := metrics[i];
      totals := totals[MetricColumn(m) := ColumnSum(view, m)];
    }
    forall m ensures MetricColumn(m) in totals {
      EveryMetricListed();
      assert metrics[Position(m)] == m;
    }
  }

  /**
   * `columnTotals`: one entry per metric column, then the deduction column,
   * then the grand total, each summed over the displayed rows.
   */
  method ColumnTotals(view: seq<Teacher>) returns (totals: map<Column, int>)
    ensures forall c :: c in totals
    ensures forall m :: totals[MetricColumn(m)] == ColumnSum(view, m)
    ensures totals[ViolationsColumn] == ViolationsSum(view)
    ensures totals[GrandTotalColumn] == Sum(Metrics, TotalOf(totals)) - totals[ViolationsColumn]
  {
    var metricTotals := MetricColumnTotals(view);
    var violations := ViolationsSum(view);
    var grand := GrandTotal(view);
    totals := metricTotals[ViolationsColumn := violations][GrandTotalColumn := grand];
    ExtraColumnsKeepMetrics(metricTotals, view, violations, grand);
    FooterAddsUp(totals, view);
  }

  /** A footer whose entries are the column sums has a grand total equal to its metric entries minus its deduction entry. */
  lemma FooterAddsUp(totals: map<Column, int>, view: seq<Teacher>)
    requires forall c :: c in totals
    requires forall m :: totals[MetricColumn(m)] == ColumnSum(view, m)
    requires totals[ViolationsColumn] == ViolationsSum(view)
    requires totals[GrandTotalColumn] == GrandTotal(view)
    ensures totals[GrandTotalColumn] == Sum(Metrics, TotalOf(totals)) - totals[ViolationsColumn]
  {
    GrandTotalSplit(view);
    SameColumnSums(totals, view, Metrics);
  }

  /** Adding the deduction and grand-total entries leaves every metric entry as it was. */
  lemma ExtraColumnsKeepMetrics(metricTotals: map<Column, int>, view: seq<Teacher>, violations: int, grand: int)
    requires forall m :: MetricColumn(m) in metricTotals && metricTotals[MetricColumn(m)] == ColumnSum(view, m)
    ensures var totals := metricTotals[ViolationsColumn := violations][GrandTotalColumn := grand];
      && (forall c :: c in totals)
      && (forall m :: totals[MetricColumn(m)] == ColumnSum(view, m))
  {
    var totals := metricTotals[ViolationsColumn := violations][GrandTotalColumn := grand];
    forall c ensures c in totals {
      match c
      case MetricColumn(m) =>
      case ViolationsColumn =>
      case GrandTotalColumn =>
    }
  }

  lemma {:induction false} SameColumnSums(totals: map<Column, int>, view: seq<Teacher>, ms: seq<Metric>)
    requires forall m :: MetricColumn(m) in totals && totals[MetricColumn(m)] == ColumnSum(view, m)
    ensures Sum(ms, TotalOf(totals)) == Sum(ms, ColumnSumIn(view))
  {
    if ms != [] {
      SameColumnSums(totals, view, ms[1..]);
    }
  }

  /** An empty view gives zero in every footer total. */
  lemma EmptyViewTotals()
    ensures forall m :: ColumnSum([], m) == 0
    ensures ViolationsSum([]) == 0 && GrandTotal([]) == 0
  {
  }

  /** The sum of all values of the max-grade table (a map's values in any order). */
  ghost function MapSum(grades: map<string, int>): int
    decreases |grades|
  {
    if grades == map[] then 0
    else
      var k :| k in grades;
      grades[k] + MapSum(grades - {k})
  }

  /** The sum does not depend on which key is taken out first. */
  lemma {:induction false} MapSumRemove(grades: map<string, int>, k: string)
    requires k in grades
    ensures MapSum(grades) == grades[k] + MapSum(grades - {k})
    decreases |grades|
  {
    var k0 :| k0 in grades && MapSum(grades) == grades[k0] + MapSum(grades - {k0});
    if k0 != k {
      var without := grades - {k0} - {k};
      assert grades - {k} - {k0} == without;
      MapSumRemove(grades - {k0}, k);
      MapSumRemove(grades - {k}, k0);
    }
  }

  /** Changing one max grade changes the points possible by the difference. */
  lemma MapSumUpdate(grades: map<string, int>, k: string, v: int)
    ensures MapSum(grades[k := v]) == MapSum(grades) - (if k in grades then grades[k] else 0) + v
  {
    var updated := grades[k := v];
    MapSumRemove(updated, k);
    assert updated - {k} == grades - {k};
    if k in grades {
      MapSumRemove(grades, k);
    } else {
      assert grades - {k} == grades;
    }
  }

  /** A table of non-negative max grades gives a non-negative sum. */
  lemma {:induction false} MapSumNonNegative(grades: map<string, int>)
    requires forall k :: k in grades ==> grades[k] >= 0
    ensures MapSum(grades) >= 0
    decreases |grades|
  {
    if grades != map[] {
      var k :| k in grades;
      MapSumRemove(grades, k);
      MapSumNonNegative(grades - {k});
    }
  }

  /** `totalPossiblePerTeacher`: the sum of every value in the max-grade table. */
  method TotalPossible(grades: map<string, int>) returns (total: int)
    ensures total == MapSum(grades)
  {
    total := 0;
    var rest := grades;
    while rest != map[]
      invariant total + MapSum(rest) == MapSum(grades)
      decreases |rest|
    {
      var k :| k in rest;
      MapSumRemove(rest, k);
      total := total + rest[k];
      rest := rest - {k};
    }
  }

  /** A percentage `part / whole * 100`, defined as 0 unless the denominator is positive. */
  function Percent(part: int, whole: int): (r: real)
    ensures whole <= 0 ==> r == 0.0
    ensures whole > 0 ==> r * (whole as real) == 100.0 * (part as real)
  {
    if whole > 0 then (part as real / whole as real) * 100.0 else 0.0
  }

  /** A part within [0, whole] gives a percentage within [0, 100]. */
  lemma PercentWithinRange(part: int, whole: int)
    requires 0 <= part <= whole
    ensures 0.0 <= Percent(part, whole) <= 100.0
  {
    if whole > 0 {
      var r := Percent(part, whole);
      assert r * (whole as real) == 100.0 * (part as real);
      assert 100.0 * (part as real) <= 100.0 * (whole as real);
    }
  }

  lemma ProductSign(a: real, b: real)
    requires b > 0.0
    ensures a * b > 0.0 <==> a > 0.0
    ensures a * b < 0.0 <==> a < 0.0
  {
  }

  /** With a positive denominator a percentage is below 50 exactly when the part is under half the whole. */
  lemma PercentBelowHalf(part: int, whole: int)
    requires whole > 0
    ensures Percent(part, whole) < 50.0 <==> 2 * part < whole
  {
    var p, w := part as real, whole as real;
    var q := p / w;
    assert q * w == p;
    var d := 1.0 - 2.0 * q;
    assert d * w == w - 2.0 * p;
    ProductSign(d, w);
  }

  /**
   * The percentage of one row: its total against the points possible per
   * teacher, 0 when nothing is possible; the row shows red below 50, which
   * is exactly when the total is under half the points possible.
   */
  function RowPercent(t: Teacher, totalPossible: int): (r: real)
    ensures totalPossible <= 0 ==> r == 0.0
    ensures totalPossible > 0 ==> (r < 50.0 <==> 2 * Total(t) < totalPossible)
  {
    var total := Total(t);
    if totalPossible > 0 then
      PercentBelowHalf(total, totalPossible);
      Percent(total, totalPossible)
    else Percent(total, totalPossible)
  }

  /** The footer percentage of one metric: its column sum against its max times the row count. */
  function ColumnPercent(view: seq<Teacher>, grades: map<string, int>, m: Metric): (r: real)
    ensures |view| == 0 ==> r == 0.0
  {
    Percent(ColumnSum(view, m), MaxOrZero(grades, m.Key()) * |view|)
  }

  /** The footer's overall percentage: the grand total against the points possible for all rows. */
  function OverallPercent(view: seq<Teacher>, totalPossible: int): (r: real)
    ensures |view| == 0 ==> r == 0.0
  {
    Percent(GrandTotal(view), totalPossible * |view|)
  }

  /** Max grades of 10 for attendance and 5 for appearance give 15 points possible per teacher. */
  lemma TwoGradesExample()
    ensures MapSum(map["attendance" := 10, "appearance" := 5]) == 15
  {
    var grades := map["attendance" := 10, "appearance" := 5];
    MapSumRemove(grades, "attendance");
    var rest := grades - {"attendance"};
    assert rest == map["appearance" := 5];
    MapSumRemove(rest, "appearance");
    assert rest - {"appearance"} == map[];
  }
}
