/**
 * The per-category quota table (`EXPECTED_COUNTS` in dicom_converter.py,
 * `expected_counts` in count.py: the same eight entries in the same order)
 * and the expected-versus-actual table both scripts print from it.
 */
module Quota {
  import opened Counters

  /** A Python dict from category to count, in insertion order. */
  type Table = seq<(string, nat)>

  const ExpectedCounts: Table := [
    ("Density1+Benign", 12),
    ("Density1+Malignant", 30),
    ("Density2+Benign", 4),
    ("Density2+Malignant", 32),
    ("Density3+Benign", 13),
    ("Density3+Malignant", 8),
    ("Density4+Benign", 6),
    ("Density4+Malignant", 1)
  ]

  /** `set(table.keys())` */
  function Keys(t: Table): set<string>
  {
    set i | 0 <= i < |t| :: t[i].0
  }

  /** Dict keys are unique. */
  predicate DistinctKeys(t: Table)
  {
    forall i, j :: 0 <= i < j < |t| ==> t[i].0 != t[j].0
  }

  /** `sum(table.values())` */
  function TotalQuota(t: Table): nat
  {
    if t == [] then 0 else TotalQuota(t[..|t| - 1]) + t[|t| - 1].1
  }

  /** The sum of `counts[c]` over the table's categories `c`, in table order (missing counts read as 0). */
  function SumOver(t: Table, counts: map<string, nat>): nat
  {
    if t == [] then 0 else SumOver(t[..|t| - 1], counts) + Get(counts, t[|t| - 1].0)
  }

  /** The fixed table has eight distinct categories, each naming a density and a mass type, and asks for 106 cases. */
  lemma ExpectedCountsFacts()
    ensures |ExpectedCounts| == 8
    ensures DistinctKeys(ExpectedCounts)
    ensures TotalQuota(ExpectedCounts) == 106
    ensures forall c :: c in Keys(ExpectedCounts) ==> '+' in c
  {
    var t := ExpectedCounts;
    assert t[..2][..1] == t[..1];
    assert t[..3][..2] == t[..2];
    assert t[..4][..3] == t[..3];
    assert t[..5][..4] == t[..4];
    assert t[..6][..5] == t[..5];
    assert t[..7][..6] == t[..6];
    assert t[..8][..7] == t[..7];
    assert TotalQuota(t[..1]) == 12;
    assert TotalQuota(t[..2]) == 42;
    assert TotalQuota(t[..3]) == 46;
    assert TotalQuota(t[..4]) == 78;
    assert TotalQuota(t[..5]) == 91;
    assert TotalQuota(t[..6]) == 99;
    assert TotalQuota(t[..7]) == 105;
    assert forall i :: 0 <= i < |t| ==> t[i].0[8] == '+';
  }

  /** Every quota category is "Density", a density digit, then '+' and a mass type: a '+', but not right after "Density". */
  lemma QuotaKeysShape()
    ensures forall c :: c in Keys(ExpectedCounts) ==> '+' in c && |c| > 7 && c[7] != '+'
  {
    var t := ExpectedCounts;
    assert forall i :: 0 <= i < |t| ==> |t[i].0| > 8 && t[i].0[7] != '+' && t[i].0[8] == '+';
  }

  /** A string without '+', or with '+' right after "Density", is no quota category. */
  lemma NotQuotaKey(c: string)
    requires '+' !in c || (|c| > 7 && c[7] == '+')
    ensures c !in Keys(ExpectedCounts)
  {
    QuotaKeysShape();
  }

  lemma KeysSnoc(t: Table)
    requires t != []
    ensures Keys(t) == Keys(t[..|t| - 1]) + {t[|t| - 1].0}
  {
    var init := t[..|t| - 1];
    forall c | c in Keys(t) ensures c in Keys(init) + {t[|t| - 1].0} {
      var i :| 0 <= i < |t| && t[i].0 == c;
      if i < |t| - 1 { assert init[i].0 == c; }
    }
    forall c | c in Keys(init) ensures c in Keys(t) {
      var i :| 0 <= i < |init| && init[i].0 == c;
      assert t[i].0 == c;
    }
  }

  lemma DistinctKeysInit(t: Table)
    requires DistinctKeys(t) && t != []
    ensures DistinctKeys(t[..|t| - 1])
    ensures forall i :: 0 <= i < |t| - 1 ==> t[i].0 != t[|t| - 1].0
  {
  }

  /** The last entry's key is not among the earlier keys. */
  lemma LastKeyIsNew(t: Table)
    requires DistinctKeys(t) && t != []
    ensures t[|t| - 1].0 !in Keys(t[..|t| - 1])
  {
    var init := t[..|t| - 1];
    forall i | 0 <= i < |init| ensures init[i].0 != t[|t| - 1].0 {
      assert init[i] == t[i];
    }
  }

  /** Counts stored under keys outside the table do not enter `SumOver`. */
  lemma {:induction false} SumOverIgnores(t: Table, counts: map<string, nat>, c: string)
    requires c !in Keys(t)
    ensures SumOver(t, counts - {c}) == SumOver(t, counts)
  {
    if t != [] {
      KeysSnoc(t);
      SumOverIgnores(t[..|t| - 1], counts, c);
    }
  }

  /**
   * When every counted key is a table category, summing over the table
   * is summing every count: nothing is lost and nothing counted twice.
   */
  lemma {:induction false} SumOverIsSumValues(t: Table, counts: map<string, nat>)
    requires DistinctKeys(t)
    requires counts.Keys <= Keys(t)
    ensures SumOver(t, counts) == SumValues(counts)
  {
    if t == [] {
      assert counts == map[];
    } else {
      var init, c := t[..|t| - 1], t[|t| - 1].0;
      KeysSnoc(t);
      assert forall i :: 0 <= i < |init| ==> init[i].0 != c by {
        forall i | 0 <= i < |init| ensures init[i].0 != c {
          assert init[i] == t[i];
        }
      }
      if c in counts {
        SumValuesRemove(counts, c);
        SumOverIsSumValues(init, counts - {c});
        SumOverIgnores(init, counts, c);
      } else {
        SumOverIsSumValues(init, counts);
      }
    }
  }

  /** One line of the printed comparison table. */
  datatype ReportRow = ReportRow(category: string, expected: nat, actual: nat, difference: int)

  function SumDifferences(rows: seq<ReportRow>): int
  {
    if rows == [] then 0 else SumDifferences(rows[..|rows| - 1]) + rows[|rows| - 1].difference
  }

  /** The sum of a table's expected column. */
  function SumExpected(rows: seq<ReportRow>): nat
  {
    if rows == [] then 0 else SumExpected(rows[..|rows| - 1]) + rows[|rows| - 1].expected
  }

  /** The sum of a table's actual column. */
  function SumActual(rows: seq<ReportRow>): nat
  {
    if rows == [] then 0 else SumActual(rows[..|rows| - 1]) + rows[|rows| - 1].actual
  }

  /** The row printed for one table entry: `actual` is `counts[category]`, 0 when absent. */
  function RowOf(entry: (string, nat), counts: map<string, nat>): (row: ReportRow)
    ensures row.difference == row.actual - row.expected
  {
    ReportRow(entry.0, entry.1, Get(counts, entry.0), Get(counts, entry.0) as int - entry.1 as int)
  }

  /** One more table entry adds its quota, its count and its row's difference to the totals. */
  lemma CompareStep(t: Table, counts: map<string, nat>, rows: seq<ReportRow>, i: nat)
    requires i < |t|
    ensures TotalQuota(t[..i + 1]) == TotalQuota(t[..i]) + t[i].1
    ensures SumOver(t[..i + 1], counts) == SumOver(t[..i], counts) + Get(counts, t[i].0)
    ensures SumDifferences(rows + [RowOf(t[i], counts)]) == SumDifferences(rows) + RowOf(t[i], counts).difference
    ensures SumExpected(rows + [RowOf(t[i], counts)]) == SumExpected(rows) + t[i].1
    ensures SumActual(rows + [RowOf(t[i], counts)]) == SumActual(rows) + Get(counts, t[i].0)
  {
    assert t[..i + 1][..i] == t[..i];
    assert (rows + [RowOf(t[i], counts)])[..|rows|] == rows;
  }

  /**
   * The loop over the table that prints one row per category and
   * accumulates the totals: one row per entry, in table order; the totals
   * are the sums of the quotas and of the counts, which are the sums of the
   * printed expected and actual columns; each row's difference is its actual
   * minus its expected; and the total difference is the sum of the per-row
   * differences.
   */
  method CompareToTable(t: Table, counts: map<string, nat>)
    returns (rows: seq<ReportRow>, totalExpected: nat, totalActual: nat)
    ensures |rows| == |t|
    ensures forall i :: 0 <= i < |t| ==> rows[i] == RowOf(t[i], counts)
    ensures totalExpected == TotalQuota(t)
    ensures totalActual == SumOver(t, counts)
    ensures totalExpected == SumExpected(rows) && totalActual == SumActual(rows)
    ensures forall i :: 0 <= i < |rows| ==> rows[i].difference == rows[i].actual as int - rows[i].expected as int
    ensures totalActual - totalExpected == SumDifferences(rows)
  {
    rows, totalExpected, totalActual := [], 0, 0;
    var i := 0;
    while i < |t|
      invariant 0 <= i <= |t|
      invariant |rows| == i
      invariant forall k :: 0 <= k < i ==> rows[k] == RowOf(t[k], counts)
      invariant totalExpected == TotalQuota(t[..i])
      invariant totalActual == SumOver(t[..i], counts)
      invariant totalExpected == SumExpected(rows) && totalActual == SumActual(rows)
      invariant totalActual - totalExpected == SumDifferences(rows)
    {
      var row := RowOf(t[i], counts);
      CompareStep(t, counts, rows, i);
      totalExpected := totalExpected + row.expected;
      totalActual := totalActual + row.actual;
      rows := rows + [row];
      i := i + 1;
    }
    assert t[..i] == t;
  }
}
