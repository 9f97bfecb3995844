/**
 * Progress reporting: after each item added to the new book the callback
 * receives `processed * 100 / total`, truncated to an integer.
 */
module Progress {

  /** The percentage reported once `processed` of `total` items have been added. */
  function Percent(processed: nat, total: nat): (percent: int)
    requires total > 0
    ensures percent >= 0
  {
    processed * 100 / total
  }

  /** `processed * 100 / total` truncated: the largest whole percentage not above the exact ratio. */
  lemma PercentIsTruncated(processed: nat, total: nat)
    requires total > 0
    ensures Percent(processed, total) * total <= processed * 100 < (Percent(processed, total) + 1) * total
  {
    var p, r := Percent(processed, total), processed * 100 % total;
    assert processed * 100 == p * total + r && 0 <= r < total;
    assert (p + 1) * total == p * total + total;
  }

  /** The percentages reported after the first `m` added items: 1 * 100 / total, ..., m * 100 / total. */
  function Reports(m: nat, total: nat): (r: seq<int>)
    requires m <= total
    ensures |r| == m
  {
    if m == 0 then [] else Reports(m - 1, total) + [Percent(m, total)]
  }

  lemma MulLess(x: int, y: int, d: int)
    requires d > 0 && x * d < y * d
    ensures x < y
  {
  }

  lemma {:induction false} DivMonotone(a: nat, b: nat, d: nat)
    requires a <= b && d > 0
    ensures a / d <= b / d
  {
    var qa, qb := a / d, b / d;
    assert qa * d <= a && b < (qb + 1) * d;
    MulLess(qa, qb + 1, d);
  }

  /** A percentage lies in 0..100, and it is 100 exactly when every item has been added. */
  lemma {:induction false} PercentBounds(processed: nat, total: nat)
    requires 0 < total && processed <= total
    ensures 0 <= Percent(processed, total) <= 100
    ensures Percent(processed, total) == 100 <==> processed == total
  {
    DivMonotone(processed * 100, total * 100, total);
    assert total * 100 / total == 100;
    if processed < total {
      assert processed * 100 <= total * 100 - 100;
      assert processed * 100 < 100 * total;
    }
  }

  /** More items added never lowers the percentage. */
  lemma {:induction false} PercentMonotone(p: nat, q: nat, total: nat)
    requires 0 < total && p <= q
    ensures Percent(p, total) <= Percent(q, total)
  {
    DivMonotone(p * 100, q * 100, total);
  }

  /**
   * The sequence of reported percentages: the i-th is `(i + 1) * 100 / total`,
   * it never decreases, every value lies in 0..100, and the last one is 100
   * exactly when all `total` items were added.
   */
  lemma {:induction false} ReportsProperties(m: nat, total: nat)
    requires m <= total
    ensures forall i :: 0 <= i < m ==> Reports(m, total)[i] == Percent(i + 1, total)
    ensures forall i :: 0 <= i < m ==> 0 <= Reports(m, total)[i] <= 100
    ensures forall i, j :: 0 <= i <= j < m ==> Reports(m, total)[i] <= Reports(m, total)[j]
    ensures m > 0 ==> (Reports(m, total)[m - 1] == 100 <==> m == total)
  {
    if m > 0 {
      ReportsProperties(m - 1, total);
      var r := Reports(m, total);
      assert r == Reports(m - 1, total) + [Percent(m, total)];
      forall i | 0 <= i < m
        ensures r[i] == Percent(i + 1, total) && 0 <= r[i] <= 100
      {
        PercentBounds(i + 1, total);
      }
      forall i, j | 0 <= i <= j < m
        ensures r[i] <= r[j]
      {
        PercentMonotone(i + 1, j + 1, total);
      }
      PercentBounds(m, total);
    }
  }

}
