/**
 * Dataset assembly in dicom_converter.py: grouping the annotation records
 * by quota category, drawing each category's quota, and tallying the
 * conversion outcome of every selected case against the quota table.
 * Reading files, writing PNGs and printing are left to the caller; each
 * case's conversion outcome is an input.
 */
module DicomConverter {
  import opened Base
  import opened Counters
  import opened Quota
  import opened Records

  /** The records of `anns` whose category is `c`, in input order. */
  function InCategory(anns: seq<Record>, c: string): (r: seq<Record>)
    ensures |r| == CategoryCount(anns, c)
  {
    if anns == [] then []
    else
      var last := anns[|anns| - 1];
      InCategory(anns[..|anns| - 1], c) + (if CategoryOf(last) == Some(c) then [last] else [])
  }

  /** A record is kept exactly when it is in the input and carries the category. */
  lemma {:induction false} InCategoryMembers(anns: seq<Record>, c: string)
    ensures forall x :: x in InCategory(anns, c) <==> x in anns && CategoryOf(x) == Some(c)
  {
    if anns != [] {
      var init := anns[..|anns| - 1];
      InCategoryMembers(init, c);
      assert anns == init + [anns[|anns| - 1]];
    }
  }

  /** Filtering commutes with concatenation, so the input order survives within a category. */
  lemma {:induction false} InCategoryAppend(a: seq<Record>, b: seq<Record>, c: string)
    ensures InCategory(a + b, c) == InCategory(a, c) + InCategory(b, c)
    decreases |b|
  {
    if b != [] {
      var b' := b[..|b| - 1];
      assert (a + b)[..|a + b| - 1] == a + b';
      InCategoryAppend(a, b', c);
    } else {
      assert a + b == a;
    }
  }

  lemma {:induction false} InCategoryOfOwn(s: seq<Record>, c: string)
    requires forall i :: 0 <= i < |s| ==> CategoryOf(s[i]) == Some(c)
    ensures InCategory(s, c) == s
  {
    if s != [] {
      var init, last := s[..|s| - 1], s[|s| - 1];
      assert forall i :: 0 <= i < |init| ==> init[i] == s[i];
      InCategoryOfOwn(init, c);
      assert InCategory(s, c) == InCategory(init, c) + [last];
      assert init + [last] == s;
    }
  }

  lemma {:induction false} InCategoryAbsent(s: seq<Record>, c: string)
    requires forall x :: x in s ==> CategoryOf(x) != Some(c)
    ensures InCategory(s, c) == []
  {
    if s != [] {
      InCategoryAbsent(s[..|s| - 1], c);
    }
  }

  /** One more record extends each category's records by itself or by nothing. */
  lemma InCategoryStep(anns: seq<Record>, i: nat)
    requires i < |anns|
    ensures forall c ::
      InCategory(anns[..i + 1], c) == InCategory(anns[..i], c) + (if CategoryOf(anns[i]) == Some(c) then [anns[i]] else [])
  {
    assert anns[..i + 1][..i] == anns[..i];
  }

  /** `category in EXPECTED_COUNTS` */
  predicate IsExpected(c: string)
  {
    c in Keys(ExpectedCounts)
  }

  /**
   * `load_annotations` after the JSON is parsed: a `defaultdict(list)` that
   * has a key exactly for each quota category some record carries, holding
   * that category's records in input order. Records without a
   * classification or a category, or with a category outside the table,
   * are dropped.
   */
  method LoadAnnotations(anns: seq<Record>) returns (groups: map<string, seq<Record>>)
    ensures forall c :: c in groups <==> IsExpected(c) && InCategory(anns, c) != []
    ensures forall c :: c in groups ==> groups[c] == InCategory(anns, c)
  {
    groups := map[];
    var i := 0;
    while i < |anns|
      invariant 0 <= i <= |anns|
      invariant forall c :: c in groups <==> IsExpected(c) && InCategory(anns[..i], c) != []
      invariant forall c :: c in groups ==> groups[c] == InCategory(anns[..i], c)
    {
      var ann := anns[i];
      InCategoryStep(anns, i);
      if ann.classification.Some? && ann.classification.value.category.Some? {
        var category := CategoryOf(ann).value;
        if category in Keys(ExpectedCounts) {
          var current := if category in groups then groups[category] else [];
          groups := groups[category := current + [ann]];
        }
      }
      i := i + 1;
    }
    assert anns[..i] == anns;
  }

  /** Every record in a group carries that group's category. */
  ghost predicate WellGrouped(groups: map<string, seq<Record>>)
  {
    forall c, x :: c in groups && x in groups[c] ==> CategoryOf(x) == Some(c)
  }

  /** `category_annotations[category]` on the defaultdict: a missing category is an empty list. */
  function Available(groups: map<string, seq<Record>>, c: string): seq<Record>
  {
    if c in groups then groups[c] else []
  }

  /** `np.random.choice(n, k, replace=False)` as indices: `k` distinct positions below `n`. */
  predicate IsDraw(d: seq<nat>, n: nat, k: nat)
  {
    && |d| == k
    && (forall j :: 0 <= j < |d| ==> d[j] < n)
    && (forall j, l :: 0 <= j < l < |d| ==> d[j] != d[l])
  }

  /**
   * The seeded generator: `np.random.seed(42)` runs before every draw, and a
   * draw without replacement is a prefix of a permutation of `range(n)`, so
   * which positions are taken depends on `n` and `k` alone.
   */
  ghost predicate IsSampler(pick: (nat, nat) -> seq<nat>)
  {
    forall n: nat, k: nat :: k < n ==> IsDraw(pick(n, k), n, k)
  }

  /** The elements of `a` at the drawn positions, in draw order (`.tolist()`). */
  function Gather<T>(a: seq<T>, d: seq<nat>): (r: seq<T>)
    requires forall j :: 0 <= j < |d| ==> d[j] < |a|
    ensures |r| == |d|
  {
    seq(|d|, j requires 0 <= j < |d| => a[d[j]])
  }

  /** Positions above `m` move down by one once position `m` is removed. */
  function Shift(d: seq<nat>, m: nat): seq<nat>
    requires forall j :: 0 <= j < |d| ==> d[j] != m
  {
    seq(|d|, j requires 0 <= j < |d| => if d[j] < m then d[j] else d[j] - 1)
  }

  /** Drawing without replacement takes no element more often than it occurs. */
  lemma {:induction false} DrawIsSubMultiset<T>(a: seq<T>, d: seq<nat>)
    requires IsDraw(d, |a|, |d|)
    ensures multiset(Gather(a, d)) <= multiset(a)
    decreases |d|
  {
    if d != [] {
      var m := d[0];
      var rest := a[..m] + a[m + 1..];
      var tail := d[1..];
      assert forall j :: 0 <= j < |tail| ==> tail[j] != m by {
        forall j | 0 <= j < |tail| ensures tail[j] != m {
          assert tail[j] == d[j + 1];
        }
      }
      var q := Shift(tail, m);
      assert IsDraw(q, |rest|, |q|);
      DrawIsSubMultiset(rest, q);
      assert Gather(rest, q) == Gather(a, tail);
      assert Gather(a, d) == [a[m]] + Gather(a, tail);
      assert a == a[..m] + [a[m]] + a[m + 1..];
      assert multiset(a) == multiset(rest) + multiset{a[m]};
    }
  }

  /**
   * One category's share of `select_cases`: all available cases when there
   * are at most `expected`, otherwise exactly `expected` of them drawn
   * without replacement. Either way `min(expected, available)` cases, none
   * taken more often than it is available.
   */
  function SelectFor(available: seq<Record>, expected: nat, pick: (nat, nat) -> seq<nat>): (r: seq<Record>)
    requires IsSampler(pick)
    ensures |r| == Min(expected, |available|)
    ensures |available| <= expected ==> r == available
    ensures multiset(r) <= multiset(available)
  {
    if |available| < expected then available
    else if |available| > expected then
      DrawIsSubMultiset(available, pick(|available|, expected));
      Gather(available, pick(|available|, expected))
    else available
  }

  /** The categories' shares concatenated in table order. */
  function Selection(groups: map<string, seq<Record>>, t: Table, pick: (nat, nat) -> seq<nat>): seq<Record>
    requires IsSampler(pick)
  {
    if t == [] then []
    else
      Selection(groups, t[..|t| - 1], pick) + SelectFor(Available(groups, t[|t| - 1].0), t[|t| - 1].1, pick)
  }

  /** One more table entry extends the selection by that entry's share. */
  lemma SelectionStep(groups: map<string, seq<Record>>, t: Table, i: nat, pick: (nat, nat) -> seq<nat>)
    requires IsSampler(pick) && i < |t|
    ensures Selection(groups, t[..i + 1], pick) == Selection(groups, t[..i], pick) + SelectFor(Available(groups, t[i].0), t[i].1, pick)
  {
    assert t[..i + 1][..i] == t[..i];
  }

  /**
   * The body of the `select_cases` loop for one category: all available
   * cases when they do not exceed the quota, a seeded draw otherwise.
   */
  method SelectShare(available: seq<Record>, expected: nat, pick: (nat, nat) -> seq<nat>) returns (chosen: seq<Record>)
    requires IsSampler(pick)
    ensures chosen == SelectFor(available, expected, pick)
  {
    if |available| < expected {
      chosen := available;
    } else if |available| > expected {
      var indices := pick(|available|, expected);
      assert IsDraw(indices, |available|, expected);
      chosen := Gather(available, indices);
    } else {
      chosen := available;
    }
  }

  /**
   * `select_cases`: the loop over the quota table (`EXPECTED_COUNTS`, passed
   * as `table`) that extends the selection category by category.
   */
  method SelectCases(groups: map<string, seq<Record>>, table: Table, pick: (nat, nat) -> seq<nat>) returns (selected: seq<Record>)
    requires IsSampler(pick)
    ensures selected == Selection(groups, table, pick)
  {
    selected := [];
    var i := 0;
    while i < |table|
      invariant 0 <= i <= |table|
      invariant selected == Selection(groups, table[..i], pick)
    {
      var category, expected := table[i].0, table[i].1;
      var available := if category in groups then groups[category] else [];
      var chosen := SelectShare(available, expected, pick);
      SelectionStep(groups, table, i, pick);
      selected := selected + chosen;
      i := i + 1;
    }
    assert table[..i] == table;
  }

  /** The sum over the table of `min(expected, available)`. */
  function SelectedTotal(groups: map<string, seq<Record>>, t: Table): nat
  {
    if t == [] then 0
    else SelectedTotal(groups, t[..|t| - 1]) + Min(t[|t| - 1].1, |Available(groups, t[|t| - 1].0)|)
  }

  /** The selection has one share per category and never exceeds the total quota. */
  lemma {:induction false} SelectionSize(groups: map<string, seq<Record>>, t: Table, pick: (nat, nat) -> seq<nat>)
    requires IsSampler(pick)
    ensures |Selection(groups, t, pick)| == SelectedTotal(groups, t) <= TotalQuota(t)
  {
    if t != [] {
      SelectionSize(groups, t[..|t| - 1], pick);
    }
  }

  /** A category's share holds only records of that category. */
  lemma ShareIsOwnCategory(groups: map<string, seq<Record>>, c: string, expected: nat, pick: (nat, nat) -> seq<nat>)
    requires IsSampler(pick) && WellGrouped(groups)
    ensures forall x :: x in SelectFor(Available(groups, c), expected, pick) ==> CategoryOf(x) == Some(c)
  {
    var share := SelectFor(Available(groups, c), expected, pick);
    forall x | x in share ensures CategoryOf(x) == Some(c) {
      assert x in multiset(share);
      assert x in Available(groups, c);
    }
  }

  /** Taken from well-grouped pools, every selected case carries a category of the table. */
  lemma {:induction false} SelectionCategories(groups: map<string, seq<Record>>, t: Table, pick: (nat, nat) -> seq<nat>)
    requires IsSampler(pick) && WellGrouped(groups)
    ensures forall x :: x in Selection(groups, t, pick) ==> CategoryOf(x).Some? && CategoryOf(x).value in Keys(t)
  {
    if t != [] {
      SelectionCategories(groups, t[..|t| - 1], pick);
      KeysSnoc(t);
      ShareIsOwnCategory(groups, t[|t| - 1].0, t[|t| - 1].1, pick);
    }
  }

  /** A category outside the table has nothing selected. */
  lemma SelectionMissesOthers(groups: map<string, seq<Record>>, t: Table, pick: (nat, nat) -> seq<nat>, c: string)
    requires IsSampler(pick) && WellGrouped(groups)
    requires c !in Keys(t)
    ensures InCategory(Selection(groups, t, pick), c) == []
  {
    SelectionCategories(groups, t, pick);
    InCategoryAbsent(Selection(groups, t, pick), c);
  }

  /** The last table entry's category is read back as its own share. */
  lemma SelectionOfLast(groups: map<string, seq<Record>>, t: Table, pick: (nat, nat) -> seq<nat>)
    requires IsSampler(pick) && WellGrouped(groups) && DistinctKeys(t)
    requires t != []
    ensures InCategory(Selection(groups, t, pick), t[|t| - 1].0) == SelectFor(Available(groups, t[|t| - 1].0), t[|t| - 1].1, pick)
  {
    var init, last := t[..|t| - 1], t[|t| - 1];
    var share := SelectFor(Available(groups, last.0), last.1, pick);
    var before := Selection(groups, init, pick);
    assert Selection(groups, t, pick) == before + share;
    ShareIsOwnCategory(groups, last.0, last.1, pick);
    InCategoryAppend(before, share, last.0);
    assert forall i :: 0 <= i < |share| ==> CategoryOf(share[i]) == Some(last.0);
    InCategoryOfOwn(share, last.0);
    LastKeyIsNew(t);
    SelectionMissesOthers(groups, init, pick, last.0);
  }

  /**
   * Read back per category, the selection is exactly that category's
   * share: `min(quota, available)` of its own cases, all of them when the
   * pool does not exceed the quota.
   */
  lemma {:induction false} SelectionPerCategory(groups: map<string, seq<Record>>, t: Table, pick: (nat, nat) -> seq<nat>, k: nat)
    requires IsSampler(pick) && WellGrouped(groups) && DistinctKeys(t)
    requires k < |t|
    ensures InCategory(Selection(groups, t, pick), t[k].0) == SelectFor(Available(groups, t[k].0), t[k].1, pick)
  {
    if k == |t| - 1 {
      SelectionOfLast(groups, t, pick);
    } else {
      var init, last := t[..|t| - 1], t[|t| - 1];
      var share := SelectFor(Available(groups, last.0), last.1, pick);
      var before := Selection(groups, init, pick);
      assert Selection(groups, t, pick) == before + share;
      ShareIsOwnCategory(groups, last.0, last.1, pick);
      InCategoryAppend(before, share, t[k].0);
      DistinctKeysInit(t);
      assert init[k] == t[k];
      SelectionPerCategory(groups, init, pick, k);
      assert t[k].0 != last.0;
      InCategoryAbsent(share, t[k].0);
    }
  }

  /** What happened to one selected case in the conversion loop. */
  datatype Outcome =
    | Converted                  // `convert_dicom_to_png` returned True
    | NotFound                   // the glob found no DICOM file
    | ConversionFailed           // `convert_dicom_to_png` returned False
    | Raised(message: string)    // an exception, caught with its message

  /** One entry of the `failed` list. */
  datatype Failure = Failure(filename: string, reason: string)

  /**
   * The reason a case lands in `failed`, or `None` when it counts as a
   * success. Only a record with a category whose conversion returned
   * True is a success.
   */
  function FailureReason(r: Record, o: Outcome): (reason: Option<string>)
    ensures reason.None? <==> CategoryOf(r).Some? && o.Converted?
  {
    if r.classification.None? then Some("'classification'")
    else if r.classification.value.category.None? then Some("'category'")
    else
      match o
      case Converted => None
      case NotFound => Some("File not found")
      case ConversionFailed => Some("Conversion failed")
      case Raised(message) => Some(message)
  }

  /**
   * A record without the category keys raises `KeyError` before any file
   * is looked up, so it fails with the quoted key whatever the file would
   * have given; a caught exception is reported with its own message.
   */
  lemma FailureReasonMessages(r: Record, o: Outcome, o': Outcome)
    ensures CategoryOf(r).None? ==>
      && (FailureReason(r, o) == Some("'classification'") || FailureReason(r, o) == Some("'category'"))
      && FailureReason(r, o) == FailureReason(r, o')
    ensures CategoryOf(r).Some? && o.Raised? ==> FailureReason(r, o) == Some(o.message)
  {
  }

  /** The `failed` list for the cases and outcomes, in processing order. */
  function Failures(cases: seq<Record>, outcomes: seq<Outcome>): seq<Failure>
    requires |outcomes| == |cases|
  {
    if cases == [] then []
    else
      var n := |cases| - 1;
      var reason := FailureReason(cases[n], outcomes[n]);
      Failures(cases[..n], outcomes[..n]) + (if reason.Some? then [Failure(cases[n].filename, reason.value)] else [])
  }

  /** The number of cases of category `c` that converted. */
  function SuccessCount(cases: seq<Record>, outcomes: seq<Outcome>, c: string): nat
    requires |outcomes| == |cases|
  {
    if cases == [] then 0
    else
      var n := |cases| - 1;
      SuccessCount(cases[..n], outcomes[..n], c)
        + (if FailureReason(cases[n], outcomes[n]).None? && CategoryOf(cases[n]) == Some(c) then 1 else 0)
  }

  /** A category with a success has a case of that category. */
  lemma {:induction false} SuccessHasCase(cases: seq<Record>, outcomes: seq<Outcome>, c: string)
    requires |outcomes| == |cases|
    requires SuccessCount(cases, outcomes, c) > 0
    ensures exists x :: x in cases && CategoryOf(x) == Some(c)
  {
    var n := |cases| - 1;
    if SuccessCount(cases[..n], outcomes[..n], c) > 0 {
      SuccessHasCase(cases[..n], outcomes[..n], c);
      var x :| x in cases[..n] && CategoryOf(x) == Some(c);
      assert x in cases;
    } else {
      assert cases[n] in cases;
    }
  }

  /** One more processed case extends the failures and the success counts by its own result. */
  lemma TallyStep(cases: seq<Record>, outcomes: seq<Outcome>, i: nat)
    requires |outcomes| == |cases| && i < |cases|
    ensures var reason := FailureReason(cases[i], outcomes[i]);
      Failures(cases[..i + 1], outcomes[..i + 1]) == Failures(cases[..i], outcomes[..i])
        + (if reason.Some? then [Failure(cases[i].filename, reason.value)] else [])
    ensures forall c ::
      SuccessCount(cases[..i + 1], outcomes[..i + 1], c) == SuccessCount(cases[..i], outcomes[..i], c)
        + (if FailureReason(cases[i], outcomes[i]).None? && CategoryOf(cases[i]) == Some(c) then 1 else 0)
  {
    assert cases[..i + 1][..i] == cases[..i];
    assert outcomes[..i + 1][..i] == outcomes[..i];
  }

  /**
   * The conversion loop of `main`: each case either adds one to
   * `successful[category]` or appends exactly one entry to `failed`, so
   * the successes and the failures together account for every case.
   */
  method TallyOutcomes(cases: seq<Record>, outcomes: seq<Outcome>)
    returns (successful: map<string, nat>, failed: seq<Failure>)
    requires |outcomes| == |cases|
    ensures forall c :: Get(successful, c) == SuccessCount(cases, outcomes, c)
    ensures forall c :: c in successful ==> SuccessCount(cases, outcomes, c) > 0
    ensures failed == Failures(cases, outcomes)
    ensures SumValues(successful) + |failed| == |cases|
  {
    successful, failed := map[], [];
    var i := 0;
    while i < |cases|
      invariant 0 <= i <= |cases|
      invariant forall c :: Get(successful, c) == SuccessCount(cases[..i], outcomes[..i], c)
      invariant forall c :: c in successful ==> successful[c] > 0
      invariant failed == Failures(cases[..i], outcomes[..i])
      invariant SumValues(successful) + |failed| == i
    {
      var ann, outcome := cases[i], outcomes[i];
      TallyStep(cases, outcomes, i);
      var reason := FailureReason(ann, outcome);
      if reason.Some? {
        failed := failed + [Failure(ann.filename, reason.value)];
      } else {
        var category := CategoryOf(ann).value;
        SumValuesIncrement(successful, category);
        successful := Increment(successful, category);
      }
      i := i + 1;
    }
    assert cases[..i] == cases;
    assert outcomes[..i] == outcomes;
  }

  /** The groups `load_annotations` builds from `anns`. */
  ghost predicate GroupsOf(groups: map<string, seq<Record>>, anns: seq<Record>)
  {
    && (forall c :: c in groups <==> IsExpected(c) && InCategory(anns, c) != [])
    && (forall c :: c in groups ==> groups[c] == InCategory(anns, c))
  }

  /** Grouped records carry their group's category, and a quota category's pool is all its records. */
  lemma GroupsOfFacts(groups: map<string, seq<Record>>, anns: seq<Record>)
    requires GroupsOf(groups, anns)
    ensures WellGrouped(groups)
    ensures forall c :: IsExpected(c) ==> Available(groups, c) == InCategory(anns, c)
  {
    forall c | c in groups {
      InCategoryMembers(anns, c);
    }
  }

  /**
   * From the annotations to `main`'s selection: per quota category, the
   * selection is that category's share of all its annotations.
   */
  lemma SelectionFromAnnotations(groups: map<string, seq<Record>>, anns: seq<Record>, pick: (nat, nat) -> seq<nat>, k: nat)
    requires IsSampler(pick) && GroupsOf(groups, anns) && k < |ExpectedCounts|
    ensures InCategory(Selection(groups, ExpectedCounts, pick), ExpectedCounts[k].0)
      == SelectFor(InCategory(anns, ExpectedCounts[k].0), ExpectedCounts[k].1, pick)
  {
    GroupsOfFacts(groups, anns);
    ExpectedCountsFacts();
    SelectionPerCategory(groups, ExpectedCounts, pick, k);
    assert IsExpected(ExpectedCounts[k].0);
  }

  /**
   * The selection read off the annotations alone: for each table entry in
   * order, that category's share of all annotations of the category.
   */
  function Shares(anns: seq<Record>, t: Table, pick: (nat, nat) -> seq<nat>): seq<Record>
    requires IsSampler(pick)
  {
    if t == [] then []
    else Shares(anns, t[..|t| - 1], pick) + SelectFor(InCategory(anns, t[|t| - 1].0), t[|t| - 1].1, pick)
  }

  /** Over quota categories, selecting from the groups is selecting from the annotations, in table order. */
  lemma {:induction false} SelectionIsShares(groups: map<string, seq<Record>>, anns: seq<Record>, t: Table, pick: (nat, nat) -> seq<nat>)
    requires IsSampler(pick) && GroupsOf(groups, anns)
    requires forall k :: 0 <= k < |t| ==> IsExpected(t[k].0)
    ensures Selection(groups, t, pick) == Shares(anns, t, pick)
  {
    if t != [] {
      var n := |t| - 1;
      assert forall k :: 0 <= k < n ==> t[..n][k] == t[k];
      SelectionIsShares(groups, anns, t[..n], pick);
      GroupsOfFacts(groups, anns);
      assert IsExpected(t[n].0);
    }
  }

  /** The outcome of each case, in order. */
  function OutcomesOf(cases: seq<Record>, outcomeOf: Record -> Outcome): (r: seq<Outcome>)
    ensures |r| == |cases|
    ensures forall i :: 0 <= i < |cases| ==> r[i] == outcomeOf(cases[i])
  {
    seq(|cases|, i requires 0 <= i < |cases| => outcomeOf(cases[i]))
  }

  /**
   * The first half of `main`: `load_annotations` followed by
   * `select_cases`. The selection is the categories' shares of the
   * annotations in table order; per quota category it is that category's
   * share; every selected case has a quota category, and there are at
   * most 106 of them.
   */
  method LoadAndSelect(annotations: seq<Record>, pick: (nat, nat) -> seq<nat>) returns (selected: seq<Record>)
    requires IsSampler(pick)
    ensures selected == Shares(annotations, ExpectedCounts, pick)
    ensures forall k :: 0 <= k < |ExpectedCounts| ==>
      InCategory(selected, ExpectedCounts[k].0)
        == SelectFor(InCategory(annotations, ExpectedCounts[k].0), ExpectedCounts[k].1, pick)
    ensures forall x :: x in selected ==> CategoryOf(x).Some? && CategoryOf(x).value in Keys(ExpectedCounts)
    ensures |selected| <= 106
  {
    var groups := LoadAnnotations(annotations);
    GroupsOfFacts(groups, annotations);
    selected := SelectCases(groups, ExpectedCounts, pick);
    forall k | 0 <= k < |ExpectedCounts|
      ensures InCategory(selected, ExpectedCounts[k].0)
        == SelectFor(InCategory(annotations, ExpectedCounts[k].0), ExpectedCounts[k].1, pick)
    {
      SelectionFromAnnotations(groups, annotations, pick, k);
    }
    ExpectedCountsFacts();
    SelectionSize(groups, ExpectedCounts, pick);
    SelectionCategories(groups, ExpectedCounts, pick);
    assert forall k :: 0 <= k < |ExpectedCounts| ==> IsExpected(ExpectedCounts[k].0);
    SelectionIsShares(groups, annotations, ExpectedCounts, pick);
  }

  /**
   * `main` with its I/O abstracted: select as above, tally the outcome
   * that `outcomeOf` reports for each selected case, and compare with the
   * quota table. Each row reports the category's quota, its successes and
   * their difference; the totals are the column sums and differ by the sum
   * of the differences; the converted total with the failures accounts for
   * every selected case.
   */
  method ConvertSelected(annotations: seq<Record>, pick: (nat, nat) -> seq<nat>, outcomeOf: Record -> Outcome)
    returns (selected: seq<Record>, failed: seq<Failure>, rows: seq<ReportRow>, totalExpected: nat, totalConverted: nat)
    requires IsSampler(pick)
    ensures selected == Shares(annotations, ExpectedCounts, pick)
    ensures forall k :: 0 <= k < |ExpectedCounts| ==>
      InCategory(selected, ExpectedCounts[k].0)
        == SelectFor(InCategory(annotations, ExpectedCounts[k].0), ExpectedCounts[k].1, pick)
    ensures |selected| <= 106
    ensures totalExpected == 106 && totalExpected == SumExpected(rows)
    ensures totalConverted == SumActual(rows)
    ensures totalConverted - totalExpected == SumDifferences(rows)
    ensures totalConverted + |failed| == |selected|
    ensures |rows| == |ExpectedCounts|
    ensures forall k :: 0 <= k < |rows| ==>
      && rows[k].category == ExpectedCounts[k].0
      && rows[k].expected == ExpectedCounts[k].1
      && rows[k].actual == SuccessCount(selected, OutcomesOf(selected, outcomeOf), ExpectedCounts[k].0)
      && rows[k].difference == rows[k].actual as int - rows[k].expected as int
    ensures failed == Failures(selected, OutcomesOf(selected, outcomeOf))
  {
    selected := LoadAndSelect(annotations, pick);
    var outcomes := OutcomesOf(selected, outcomeOf);
    var successful;
    successful, failed := TallyOutcomes(selected, outcomes);
    assert successful.Keys <= Keys(ExpectedCounts) by {
      forall c | c in successful ensures c in Keys(ExpectedCounts) {
        SuccessHasCase(selected, outcomes, c);
      }
    }
    ExpectedCountsFacts();
    SumOverIsSumValues(ExpectedCounts, successful);
    rows, totalExpected, totalConverted := CompareToTable(ExpectedCounts, successful);
  }
}
