/**
 * The counting part of `print_comparison_table` (count.py): how many
 * annotations fall into each mass category, how that compares with the
 * quota table, which categories are missing or unexpected, and the
 * distribution by density. Loading the JSON file and printing are left
 * to the caller.
 */
module CountAudit {
  import opened Base
  import opened Counters
  import opened Quota
  import opened Records

  /** Only categories with a mass type (a '+') are counted. */
  predicate HasMassPart(c: string)
  {
    '+' in c
  }

  /**
   * The first loop: `actual_counts[category] += 1` for every record whose
   * category contains '+'. Records without a classification or a category,
   * and categories without '+', are never counted.
   */
  method CountCategories(anns: seq<Record>) returns (actual: map<string, nat>)
    ensures forall c :: Get(actual, c) == (if HasMassPart(c) then CategoryCount(anns, c) else 0)
    ensures forall c :: c in actual ==> HasMassPart(c) && actual[c] > 0
  {
    actual := map[];
    var i := 0;
    while i < |anns|
      invariant 0 <= i <= |anns|
      invariant forall c :: Get(actual, c) == (if HasMassPart(c) then CategoryCount(anns[..i], c) else 0)
      invariant forall c :: c in actual ==> HasMassPart(c) && actual[c] > 0
    {
      var ann := anns[i];
      assert anns[..i + 1][..i] == anns[..i];
      if ann.classification.Some? && ann.classification.value.category.Some? {
        var category := ann.classification.value.category.value;
        if '+' in category {
          actual := Increment(actual, category);
        }
      }
      i := i + 1;
    }
    assert anns[..i] == anns;
  }

  /** The sum over the table of the number of records in each category. */
  function SumCategoryCounts(t: Table, anns: seq<Record>): nat
  {
    if t == [] then 0 else SumCategoryCounts(t[..|t| - 1], anns) + CategoryCount(anns, t[|t| - 1].0)
  }

  /** The number of records whose category is one of the table's. */
  function InTableCount(anns: seq<Record>, t: Table): nat
  {
    if anns == [] then 0
    else
      var c := CategoryOf(anns[|anns| - 1]);
      InTableCount(anns[..|anns| - 1], t) + (if c.Some? && c.value in Keys(t) then 1 else 0)
  }

  lemma {:induction false} SumCategoryCountsSnoc(t: Table, anns: seq<Record>, x: Record)
    requires DistinctKeys(t)
    ensures SumCategoryCounts(t, anns + [x]) ==
      SumCategoryCounts(t, anns) + (if CategoryOf(x).Some? && CategoryOf(x).value in Keys(t) then 1 else 0)
  {
    assert (anns + [x])[..|anns + [x]| - 1] == anns;
    if t != [] {
      DistinctKeysInit(t);
      KeysSnoc(t);
      SumCategoryCountsSnoc(t[..|t| - 1], anns, x);
    }
  }

  /** With distinct categories, adding up the per-category counts counts each in-table record once. */
  lemma {:induction false} SumCategoryCountsIsInTable(t: Table, anns: seq<Record>)
    requires DistinctKeys(t)
    ensures SumCategoryCounts(t, anns) == InTableCount(anns, t)
  {
    if anns == [] {
      SumCategoryCountsOfNone(t);
    } else {
      var init := anns[..|anns| - 1];
      SumCategoryCountsIsInTable(t, init);
      SumCategoryCountsSnoc(t, init, anns[|anns| - 1]);
      assert init + [anns[|anns| - 1]] == anns;
    }
  }

  lemma {:induction false} SumCategoryCountsOfNone(t: Table)
    ensures SumCategoryCounts(t, []) == 0
  {
    if t != [] {
      SumCategoryCountsOfNone(t[..|t| - 1]);
    }
  }

  /** Summing stored counts over the table is summing the per-category record counts, when they agree on the table. */
  lemma {:induction false} SumOverCategoryCounts(t: Table, actual: map<string, nat>, anns: seq<Record>)
    requires forall c :: c in Keys(t) ==> Get(actual, c) == CategoryCount(anns, c)
    ensures SumOver(t, actual) == SumCategoryCounts(t, anns)
  {
    if t != [] {
      KeysSnoc(t);
      SumOverCategoryCounts(t[..|t| - 1], actual, anns);
    }
  }

  /** The number of records whose classification has a `density` key with value `d`. */
  function DensityCount(anns: seq<Record>, d: Option<int>): nat
  {
    if anns == [] then 0
    else DensityCount(anns[..|anns| - 1], d) + (if DensityOf(anns[|anns| - 1]) == Some(d) then 1 else 0)
  }

  /** The number of records whose classification has a `density` key. */
  function WithDensity(anns: seq<Record>): nat
  {
    if anns == [] then 0
    else WithDensity(anns[..|anns| - 1]) + (if DensityOf(anns[|anns| - 1]).Some? then 1 else 0)
  }

  /**
   * The last loop: `density_counts[f"Density {density}"] += 1` for every
   * record with a density key, keyed here by the density value itself
   * (`None` for JSON null). Each value is counted, and together the
   * counts add up to the number of records with a density key.
   */
  method CountDensities(anns: seq<Record>) returns (densityCounts: map<Option<int>, nat>)
    ensures forall d :: Get(densityCounts, d) == DensityCount(anns, d)
    ensures SumValues(densityCounts) == WithDensity(anns)
  {
    densityCounts := map[];
    var i := 0;
    while i < |anns|
      invariant 0 <= i <= |anns|
      invariant forall d :: Get(densityCounts, d) == DensityCount(anns[..i], d)
      invariant SumValues(densityCounts) == WithDensity(anns[..i])
    {
      var ann := anns[i];
      assert anns[..i + 1][..i] == anns[..i];
      if ann.classification.Some? && ann.classification.value.density.Some? {
        var density := ann.classification.value.density.value;
        SumValuesIncrement(densityCounts, density);
        densityCounts := Increment(densityCounts, density);
      }
      i := i + 1;
    }
    assert anns[..i] == anns;
  }

  /** Everything `print_comparison_table` computes before printing it. */
  datatype Report = Report(
    actual: map<string, nat>,
    rows: seq<ReportRow>,
    totalExpected: nat,
    totalActual: nat,
    missing: set<string>,
    extra: set<string>,
    totalAnnotations: nat,
    densityCounts: map<Option<int>, nat>)

  /**
   * `print_comparison_table` without the file read and the printing.
   * The expected total is 106; the actual total is the number of
   * annotations in a quota category; a quota category is missing exactly
   * when no annotation has it; an extra category is a counted mass
   * category outside the table; each row's difference is its actual minus
   * its expected, and the totals are the column sums; the density counts
   * count each density and cover every annotation with a density key.
   */
  method PrintComparisonTable(anns: seq<Record>) returns (report: Report)
    ensures forall c :: Get(report.actual, c) == (if HasMassPart(c) then CategoryCount(anns, c) else 0)
    ensures |report.rows| == |ExpectedCounts|
    ensures forall k :: 0 <= k < |report.rows| ==>
      && report.rows[k].category == ExpectedCounts[k].0
      && report.rows[k].expected == ExpectedCounts[k].1
      && report.rows[k].actual == CategoryCount(anns, ExpectedCounts[k].0)
      && report.rows[k].difference == report.rows[k].actual as int - report.rows[k].expected as int
    ensures report.totalExpected == 106 && report.totalExpected == SumExpected(report.rows)
    ensures report.totalActual == InTableCount(anns, ExpectedCounts) && report.totalActual == SumActual(report.rows)
    ensures report.totalActual - report.totalExpected == SumDifferences(report.rows)
    ensures forall c :: c in report.missing <==> c in Keys(ExpectedCounts) && CategoryCount(anns, c) == 0
    ensures forall c :: c in report.extra <==> c !in Keys(ExpectedCounts) && HasMassPart(c) && CategoryCount(anns, c) > 0
    ensures report.missing !! report.extra
    ensures report.totalAnnotations == |anns|
    ensures forall d :: Get(report.densityCounts, d) == DensityCount(anns, d)
    ensures SumValues(report.densityCounts) == WithDensity(anns)
  {
    var actual := CountCategories(anns);
    var rows, totalExpected, totalActual := CompareToTable(ExpectedCounts, actual);
    ExpectedCountsFacts();
    SumOverCategoryCounts(ExpectedCounts, actual, anns);
    SumCategoryCountsIsInTable(ExpectedCounts, anns);
    var missing := Keys(ExpectedCounts) - actual.Keys;
    var extra := actual.Keys - Keys(ExpectedCounts);
    var densityCounts := CountDensities(anns);
    report := Report(actual, rows, totalExpected, totalActual, missing, extra, |anns|, densityCounts);
  }
}
