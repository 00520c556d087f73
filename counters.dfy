/**
 * Tallies keyed by category, as Python's `collections.Counter` and
 * `defaultdict(int)` keep them: a missing key reads as 0, and `+= 1`
 * on a key creates it with count 1.
 */
module Counters {

  /** `counter[k]`: the stored count, or 0 for a key never incremented. */
  function Get<K>(m: map<K, nat>, k: K): nat
  {
    if k in m then m[k] else 0
  }

  /** `counter[k] += 1`. */
  function Increment<K(!new)>(m: map<K, nat>, k: K): (r: map<K, nat>)
    ensures r.Keys == m.Keys + {k}
    ensures Get(r, k) == Get(m, k) + 1
    ensures forall j :: j != k ==> Get(r, j) == Get(m, j)
  {
    m[k := Get(m, k) + 1]
  }

  /** The sum of all counts held in `m` (Python's `sum(counter.values())`). */
  ghost function SumValues<K>(m: map<K, nat>): nat
    decreases |m|
  {
    if m == map[] then 0
    else
      var k :| k in m;
      assert |(m - {k}).Keys| == |m.Keys - {k}| == |m.Keys| - 1;
      m[k] + SumValues(m - {k})
  }

  /** Any key can be taken out of the sum first, not only the one `SumValues` picks. */
  lemma {:induction false} SumValuesRemove<K>(m: map<K, nat>, k: K)
    requires k in m
    ensures SumValues(m) == m[k] + SumValues(m - {k})
    decreases |m|
  {
    var j :| j in m && SumValues(m) == m[j] + SumValues(m - {j});
    if j != k {
      assert |(m - {j}).Keys| == |m.Keys - {j}| == |m.Keys| - 1;
      assert |(m - {k}).Keys| == |m.Keys - {k}| == |m.Keys| - 1;
      SumValuesRemove(m - {j}, k);
      SumValuesRemove(m - {k}, j);
      assert (m - {j}) - {k} == (m - {k}) - {j};
    }
  }

  /** Incrementing one key raises the sum of all counts by exactly one. */
  lemma SumValuesIncrement<K(!new)>(m: map<K, nat>, k: K)
    ensures SumValues(Increment(m, k)) == SumValues(m) + 1
  {
    var r := Increment(m, k);
    SumValuesRemove(r, k);
    assert r - {k} == m - {k};
    if k in m {
      SumValuesRemove(m, k);
    } else {
      assert m - {k} == m;
    }
  }
}
