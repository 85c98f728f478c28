/**
 * The shape shared by all four aggregations: merge observations keyed by
 * (group, category), then give every row the total of its group, as in
 * `df.groupby([group, label]).sum()` followed by
 * `df["Total"] = df.groupby(group)["Count"].transform("sum")`.
 */
module Aggregate {
  import opened Tally

  /** One output row: the group (year, country or branch), the label, its count and its group's total. */
  datatype Row<G, L> = Row(group: G, category: L, count: nat, total: nat)

  /** Count / Total; the floating-point rounding of the source is not modelled. */
  function Proportion<G, L>(r: Row<G, L>): real
    requires r.total > 0
  {
    r.count as real / r.total as real
  }

  /** Selects the (group, category) keys of group g. */
  function InGroup<G(==), L>(g: G): ((G, L)) -> bool {
    (k: (G, L)) => k.0 == g
  }

  function RowKey<G, L>(r: Row<G, L>): (G, L) {
    (r.group, r.category)
  }

  function RowKeys<G, L>(rows: seq<Row<G, L>>): (ks: seq<(G, L)>)
    ensures |ks| == |rows|
  {
    seq(|rows|, i requires 0 <= i < |rows| => RowKey(rows[i]))
  }

  /** Each grouped entry of part as a row whose total is taken over all grouped entries. */
  function AttachTotals<G(==), L>(part: seq<((G, L), nat)>, all: seq<((G, L), nat)>): (rows: seq<Row<G, L>>)
    ensures |rows| == |part|
    ensures forall i :: 0 <= i < |part| ==>
              rows[i] == Row(part[i].0.0, part[i].0.1, part[i].1, WeightWhere(all, InGroup(part[i].0.0)))
  {
    if |part| == 0 then []
    else
      var e := part[|part| - 1];
      AttachTotals(part[..|part| - 1], all) + [Row(e.0.0, e.0.1, e.1, WeightWhere(all, InGroup(e.0.0)))]
  }

  /** The sum of the counts of the rows of group g. */
  function SumCounts<G(==), L>(rows: seq<Row<G, L>>, g: G): nat {
    if |rows| == 0 then 0
    else SumCounts(rows[..|rows| - 1], g) + (if rows[|rows| - 1].group == g then rows[|rows| - 1].count else 0)
  }

  lemma {:induction false} SumCountsAttached<G, L>(part: seq<((G, L), nat)>, all: seq<((G, L), nat)>, g: G)
    ensures SumCounts(AttachTotals(part, all), g) == WeightWhere(part, InGroup(g))
    decreases |part|
  {
    if |part| > 0 {
      var rows := AttachTotals(part, all);
      assert rows[..|rows| - 1] == AttachTotals(part[..|part| - 1], all);
      SumCountsAttached(part[..|part| - 1], all, g);
    }
  }

  /**
   * Grouped rows with totals. There is one row per distinct (group, category)
   * key of the observations; its count is the key's weight, its total the
   * weight of its whole group, so the count never exceeds the total.
   */
  function WithTotals<G(==, !new), L(==, !new)>(es: seq<((G, L), nat)>): (rows: seq<Row<G, L>>)
    ensures Distinct(RowKeys(rows))
    ensures forall k :: k in RowKeys(rows) <==> k in KeysOf(es)
    ensures forall i :: 0 <= i < |rows| ==> rows[i].count == Weight(es, RowKey(rows[i]))
    ensures forall i :: 0 <= i < |rows| ==> rows[i].total == WeightWhere(es, InGroup(rows[i].group))
    ensures forall i :: 0 <= i < |rows| ==> rows[i].count <= rows[i].total
  {
    var sums := GroupSum(es);
    var rows := AttachTotals(sums, sums);
    assert RowKeys(rows) == KeysOf(sums);
    forall i | 0 <= i < |rows|
      ensures rows[i].total == WeightWhere(es, InGroup(rows[i].group))
      ensures rows[i].count <= rows[i].total
    {
      GroupSumKeepsWeight(es, InGroup<G, L>(rows[i].group));
      WeightAtMostWhere(es, RowKey(rows[i]), InGroup<G, L>(rows[i].group));
    }
    rows
  }

  /** Every row's Total is the sum of the Counts of the rows of its group. */
  lemma TotalIsSumOfCounts<G(!new), L(!new)>(es: seq<((G, L), nat)>, g: G)
    ensures SumCounts(WithTotals(es), g) == WeightWhere(es, InGroup(g))
    ensures forall r :: r in WithTotals(es) && r.group == g ==> r.total == SumCounts(WithTotals(es), g)
  {
    var sums := GroupSum(es);
    SumCountsAttached(sums, sums, g);
    GroupSumKeepsWeight(es, InGroup<G, L>(g));
  }

  /** When all observations stand for at least one response, every row counts at least one. */
  lemma RowsArePositive<G(!new), L(!new)>(es: seq<((G, L), nat)>)
    requires forall i :: 0 <= i < |es| ==> es[i].1 >= 1
    ensures forall r :: r in WithTotals(es) ==> 1 <= r.count <= r.total
  {
    var rows := WithTotals(es);
    forall i | 0 <= i < |rows|
      ensures rows[i].count >= 1
    {
      assert RowKey(rows[i]) == RowKeys(rows)[i];
      PositiveWeight(es, RowKey(rows[i]));
    }
  }

  /** The sum of Count / Total over the rows of group g. */
  function SumProportions<G(==), L>(rows: seq<Row<G, L>>, g: G): real {
    if |rows| == 0 then 0.0
    else
      var r := rows[|rows| - 1];
      SumProportions(rows[..|rows| - 1], g) + (if r.group == g && r.total > 0 then Proportion(r) else 0.0)
  }

  lemma {:induction false} SumProportionsShared<G, L>(rows: seq<Row<G, L>>, g: G, t: nat)
    requires t > 0
    requires forall i :: 0 <= i < |rows| && rows[i].group == g ==> rows[i].total == t
    ensures SumProportions(rows, g) == SumCounts(rows, g) as real / t as real
    decreases |rows|
  {
    if |rows| > 0 {
      SumProportionsShared(rows[..|rows| - 1], g, t);
      var a := SumCounts(rows[..|rows| - 1], g) as real;
      var r := rows[|rows| - 1];
      if r.group == g {
        AddQuotients(a, r.count as real, t as real);
      }
    }
  }

  /** Within a group that has responses, the proportions add up to exactly one. */
  lemma ProportionsSumToOne<G(!new), L(!new)>(es: seq<((G, L), nat)>, g: G)
    requires WeightWhere(es, InGroup(g)) > 0
    ensures SumProportions(WithTotals(es), g) == 1.0
  {
    var rows := WithTotals(es);
    var t := WeightWhere(es, InGroup(g));
    TotalIsSumOfCounts(es, g);
    SumProportionsShared(rows, g, t);
    SelfQuotient(t);
  }

  lemma AddQuotients(a: real, b: real, t: real)
    requires t > 0.0
    ensures a / t + b / t == (a + b) / t
  {
  }

  lemma SelfQuotient(t: nat)
    requires t > 0
    ensures t as real / t as real == 1.0
  {
  }

  /** The rows whose label is in keep, in order; counts and totals are left as they are. */
  function KeepLabels<G(!new), L(==, !new)>(rows: seq<Row<G, L>>, keep: seq<L>): (r: seq<Row<G, L>>)
    ensures forall x :: x in r <==> x in rows && x.category in keep
    ensures |r| <= |rows|
  {
    if |rows| == 0 then []
    else
      var rest := KeepLabels(rows[..|rows| - 1], keep);
      var last := rows[|rows| - 1];
      assert rows == rows[..|rows| - 1] + [last];
      if last.category in keep then rest + [last] else rest
  }

  /** Filtering rows by label keeps their keys distinct. */
  lemma {:induction false} KeepLabelsDistinct<G(!new), L(!new)>(rows: seq<Row<G, L>>, keep: seq<L>)
    requires Distinct(RowKeys(rows))
    ensures Distinct(RowKeys(KeepLabels(rows, keep)))
    decreases |rows|
  {
    if |rows| > 0 {
      var n := |rows| - 1;
      var init := rows[..n];
      assert Distinct(RowKeys(init)) by {
        forall i, j | 0 <= i < j < n
          ensures RowKeys(init)[i] != RowKeys(init)[j]
        {
          assert RowKeys(init)[i] == RowKeys(rows)[i] && RowKeys(init)[j] == RowKeys(rows)[j];
        }
      }
      KeepLabelsDistinct(init, keep);
      var last := rows[n];
      if last.category in keep {
        KeptKeyIsNew(rows, keep);
        AppendNewKey(KeepLabels(init, keep), last);
      }
    }
  }

  /** The last row's key is not among the kept earlier rows' keys. */
  lemma KeptKeyIsNew<G(!new), L(!new)>(rows: seq<Row<G, L>>, keep: seq<L>)
    requires |rows| > 0 && Distinct(RowKeys(rows))
    ensures RowKey(rows[|rows| - 1]) !in RowKeys(KeepLabels(rows[..|rows| - 1], keep))
  {
    var n := |rows| - 1;
    var rest := KeepLabels(rows[..n], keep);
    forall i | 0 <= i < |rest|
      ensures RowKeys(rest)[i] != RowKey(rows[n])
    {
      assert rest[i] in rows[..n];
      var k :| 0 <= k < n && rows[..n][k] == rest[i];
      assert RowKeys(rows)[k] != RowKeys(rows)[n];
    }
  }

  /** Appending a row with a new key keeps the keys distinct. */
  lemma AppendNewKey<G, L>(rows: seq<Row<G, L>>, row: Row<G, L>)
    requires Distinct(RowKeys(rows)) && RowKey(row) !in RowKeys(rows)
    ensures Distinct(RowKeys(rows + [row]))
  {
    var r := rows + [row];
    forall i, j | 0 <= i < j < |r|
      ensures RowKeys(r)[i] != RowKeys(r)[j]
    {
      assert RowKeys(r)[i] == RowKeys(rows)[i];
      if j < |rows| {
        assert RowKeys(r)[j] == RowKeys(rows)[j];
      }
    }
  }

  /** isin keeps every row with a listed label as often as it occurs, and no other row. */
  lemma {:induction false} KeepLabelsMultiplicity<G(!new), L(!new)>(rows: seq<Row<G, L>>, keep: seq<L>)
    ensures forall x :: multiset(KeepLabels(rows, keep))[x] == if x.category in keep then multiset(rows)[x] else 0
    decreases |rows|
  {
    if |rows| > 0 {
      var n := |rows| - 1;
      KeepLabelsMultiplicity(rows[..n], keep);
      assert rows == rows[..n] + [rows[n]];
    }
  }
}
