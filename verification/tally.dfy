/**
 * Counting: weighted observations (a key and the number of responses it
 * stands for), pandas' value_counts and the group-by-sum that merges
 * observations with the same key.
 */
module Tally {
  import opened Wrappers

  predicate Distinct<T(==)>(xs: seq<T>) {
    forall i, j :: 0 <= i < j < |xs| ==> xs[i] != xs[j]
  }

  /** The distinct elements of xs in order of first appearance. */
  function Dedup<T(==, !new)>(xs: seq<T>): (r: seq<T>)
    ensures Distinct(r)
    ensures forall x :: x in r <==> x in xs
  {
    if |xs| == 0 then []
    else
      var d := Dedup(xs[..|xs| - 1]);
      var x := xs[|xs| - 1];
      assert xs == xs[..|xs| - 1] + [x];
      if x in d then d else d + [x]
  }

  function KeysOf<K>(es: seq<(K, nat)>): (ks: seq<K>)
    ensures |ks| == |es|
  {
    seq(|es|, i requires 0 <= i < |es| => es[i].0)
  }

  /** The total weight of the observations with key k. */
  function Weight<K(==)>(es: seq<(K, nat)>, k: K): nat {
    if |es| == 0 then 0
    else Weight(es[..|es| - 1], k) + (if es[|es| - 1].0 == k then es[|es| - 1].1 else 0)
  }

  /** The total weight of the observations whose key satisfies p. */
  function WeightWhere<K>(es: seq<(K, nat)>, p: K -> bool): nat {
    if |es| == 0 then 0
    else WeightWhere(es[..|es| - 1], p) + (if p(es[|es| - 1].0) then es[|es| - 1].1 else 0)
  }

  lemma {:induction false} WeightWhereAppend<K>(a: seq<(K, nat)>, b: seq<(K, nat)>, p: K -> bool)
    ensures WeightWhere(a + b, p) == WeightWhere(a, p) + WeightWhere(b, p)
    decreases |b|
  {
    if |b| > 0 {
      assert (a + b)[..|a + b| - 1] == a + b[..|b| - 1];
      WeightWhereAppend(a, b[..|b| - 1], p);
    } else {
      assert a + b == a;
    }
  }

  /** One more observation adds its weight to its own key only. */
  lemma WeightSnoc<K>(es: seq<(K, nat)>, e: (K, nat), k: K)
    ensures Weight(es + [e], k) == Weight(es, k) + (if e.0 == k then e.1 else 0)
  {
    assert (es + [e])[..|es|] == es;
  }

  lemma WeightWhereSnoc<K>(es: seq<(K, nat)>, e: (K, nat), p: K -> bool)
    ensures WeightWhere(es + [e], p) == WeightWhere(es, p) + (if p(e.0) then e.1 else 0)
  {
    assert (es + [e])[..|es|] == es;
  }

  lemma {:induction false} WeightAppend<K>(a: seq<(K, nat)>, b: seq<(K, nat)>, k: K)
    ensures Weight(a + b, k) == Weight(a, k) + Weight(b, k)
    decreases |b|
  {
    if |b| > 0 {
      assert (a + b)[..|a + b| - 1] == a + b[..|b| - 1];
      WeightAppend(a, b[..|b| - 1], k);
    } else {
      assert a + b == a;
    }
  }

  /** One key's weight is part of the weight of any selection containing that key. */
  lemma {:induction false} WeightAtMostWhere<K>(es: seq<(K, nat)>, k: K, p: K -> bool)
    requires p(k)
    ensures Weight(es, k) <= WeightWhere(es, p)
    decreases |es|
  {
    if |es| > 0 {
      WeightAtMostWhere(es[..|es| - 1], k, p);
    }
  }

  /** Each key of ks paired with its weight in es. */
  function WeighKeys<K(==)>(es: seq<(K, nat)>, ks: seq<K>): (r: seq<(K, nat)>)
    ensures KeysOf(r) == ks
    ensures forall i :: 0 <= i < |r| ==> r[i].1 == Weight(es, ks[i])
  {
    if |ks| == 0 then []
    else WeighKeys(es, ks[..|ks| - 1]) + [(ks[|ks| - 1], Weight(es, ks[|ks| - 1]))]
  }

  /** Adding one observation to es adds its weight to the selected sum, once, if its key is listed. */
  lemma {:induction false} WeighKeysStep<K>(es: seq<(K, nat)>, e: (K, nat), ks: seq<K>, p: K -> bool)
    requires Distinct(ks)
    ensures WeightWhere(WeighKeys(es + [e], ks), p)
            == WeightWhere(WeighKeys(es, ks), p) + (if e.0 in ks && p(e.0) then e.1 else 0)
    decreases |ks|
  {
    if |ks| > 0 {
      var init := ks[..|ks| - 1];
      var k := ks[|ks| - 1];
      assert ks == init + [k];
      assert e.0 == k ==> e.0 !in init;
      WeighKeysStep(es, e, init, p);
      WeightSnoc(es, e, k);
      WeightWhereSnoc(WeighKeys(es + [e], init), (k, Weight(es + [e], k)), p);
      WeightWhereSnoc(WeighKeys(es, init), (k, Weight(es, k)), p);
    }
  }

  /** Summing the per-key weights over a list of distinct keys that covers every observation loses nothing. */
  lemma {:induction false} WeighKeysCover<K>(es: seq<(K, nat)>, ks: seq<K>, p: K -> bool)
    requires Distinct(ks)
    requires forall i :: 0 <= i < |es| ==> es[i].0 in ks
    ensures WeightWhere(WeighKeys(es, ks), p) == WeightWhere(es, p)
    decreases |es|
  {
    if |es| == 0 {
      WeightWhereNoWeight(ks, p);
    } else {
      var init := es[..|es| - 1];
      var e := es[|es| - 1];
      assert es == init + [e];
      WeighKeysCover(init, ks, p);
      WeighKeysStep(init, e, ks, p);
    }
  }

  lemma {:induction false} WeightWhereNoWeight<K>(ks: seq<K>, p: K -> bool)
    ensures WeightWhere(WeighKeys([], ks), p) == 0
    decreases |ks|
  {
    if |ks| > 0 {
      var r := WeighKeys([], ks);
      assert r[..|r| - 1] == WeighKeys([], ks[..|ks| - 1]);
      WeightWhereNoWeight(ks[..|ks| - 1], p);
    }
  }

  /**
   * groupby(key).sum(): one entry per distinct key, in order of first
   * appearance, carrying the key's total weight.
   */
  function GroupSum<K(==, !new)>(es: seq<(K, nat)>): (r: seq<(K, nat)>)
    ensures Distinct(KeysOf(r))
    ensures forall k :: k in KeysOf(r) <==> k in KeysOf(es)
    ensures forall i :: 0 <= i < |r| ==> r[i].1 == Weight(es, r[i].0)
  {
    WeighKeys(es, Dedup(KeysOf(es)))
  }

  /** Grouping neither creates nor loses weight: every selection of keys weighs the same before and after. */
  lemma GroupSumKeepsWeight<K(!new)>(es: seq<(K, nat)>, p: K -> bool)
    ensures WeightWhere(GroupSum(es), p) == WeightWhere(es, p)
  {
    var ks := Dedup(KeysOf(es));
    forall i | 0 <= i < |es|
      ensures es[i].0 in ks
    {
      assert KeysOf(es)[i] == es[i].0;
    }
    WeighKeysCover(es, ks, p);
  }

  /** Positive weights stay positive after grouping. */
  lemma {:induction false} PositiveWeight<K>(es: seq<(K, nat)>, k: K)
    requires forall i :: 0 <= i < |es| ==> es[i].1 >= 1
    requires k in KeysOf(es)
    ensures Weight(es, k) >= 1
    decreases |es|
  {
    var init := es[..|es| - 1];
    if es[|es| - 1].0 != k {
      assert KeysOf(es) == KeysOf(init) + [es[|es| - 1].0];
      PositiveWeight(init, k);
    }
  }

  /** The present cells, each standing for one response. */
  function Present<T>(cells: seq<Option<T>>): (es: seq<(T, nat)>)
    ensures |es| <= |cells|
    ensures forall i :: 0 <= i < |es| ==> es[i].1 == 1
  {
    if |cells| == 0 then []
    else
      var rest := Present(cells[..|cells| - 1]);
      match cells[|cells| - 1]
      case None => rest
      case Some(v) => rest + [(v, 1)]
  }

  /** The number of present cells whose value satisfies p. */
  function CountWhere<T>(cells: seq<Option<T>>, p: T -> bool): nat {
    if |cells| == 0 then 0
    else
      var last := cells[|cells| - 1];
      CountWhere(cells[..|cells| - 1], p) + (if last.Some? && p(last.value) then 1 else 0)
  }

  lemma {:induction false} PresentWeight<T>(cells: seq<Option<T>>, p: T -> bool)
    ensures WeightWhere(Present(cells), p) == CountWhere(cells, p)
    decreases |cells|
  {
    if |cells| > 0 {
      PresentWeight(cells[..|cells| - 1], p);
      var rest := Present(cells[..|cells| - 1]);
      if cells[|cells| - 1].Some? {
        assert (rest + [(cells[|cells| - 1].value, 1)])[..|rest|] == rest;
      }
    }
  }

  lemma PresentOccurrences<T>(cells: seq<Option<T>>, v: T)
    ensures Weight(Present(cells), v) == multiset(cells)[Some(v)]
    ensures v in KeysOf(Present(cells)) <==> Some(v) in cells
  {
    PresentWeightOf(cells, v);
    PresentKeys(cells, v);
  }

  lemma {:induction false} PresentWeightOf<T>(cells: seq<Option<T>>, v: T)
    ensures Weight(Present(cells), v) == multiset(cells)[Some(v)]
    decreases |cells|
  {
    if |cells| > 0 {
      var init := cells[..|cells| - 1];
      var last := cells[|cells| - 1];
      assert cells == init + [last];
      assert multiset(cells) == multiset(init) + multiset{last};
      PresentWeightOf(init, v);
      if last.Some? {
        WeightSnoc(Present(init), (last.value, 1), v);
      }
    }
  }

  lemma {:induction false} PresentKeys<T>(cells: seq<Option<T>>, v: T)
    ensures v in KeysOf(Present(cells)) <==> Some(v) in cells
    decreases |cells|
  {
    if |cells| > 0 {
      var init := cells[..|cells| - 1];
      var last := cells[|cells| - 1];
      assert cells == init + [last];
      PresentKeys(init, v);
      var rest := Present(init);
      if last.Some? {
        assert KeysOf(rest + [(last.value, 1)]) == KeysOf(rest) + [last.value];
      }
    }
  }

  /**
   * value_counts(): every distinct present value once, with the number of
   * responses holding it; missing cells are not counted.
   */
  function ValueCounts<T(==, !new)>(cells: seq<Option<T>>): (r: seq<(T, nat)>)
    ensures Distinct(KeysOf(r))
    ensures forall v :: v in KeysOf(r) <==> Some(v) in cells
    ensures forall i :: 0 <= i < |r| ==> r[i].1 == multiset(cells)[Some(r[i].0)] && r[i].1 >= 1
  {
    var es := Present(cells);
    forall v {
      PresentOccurrences(cells, v);
    }
    GroupSum(es)
  }

  /** Summing the counts of the values that satisfy p counts the responses whose answer satisfies p. */
  lemma ValueCountsWeight<T(!new)>(cells: seq<Option<T>>, p: T -> bool)
    ensures WeightWhere(ValueCounts(cells), p) == CountWhere(cells, p)
  {
    GroupSumKeepsWeight(Present(cells), p);
    PresentWeight(cells, p);
  }

  /** A positive count of present cells satisfying p has a witness. */
  lemma {:induction false} CountWhereWitness<T>(cells: seq<Option<T>>, p: T -> bool) returns (i: nat)
    requires CountWhere(cells, p) > 0
    ensures i < |cells| && cells[i].Some? && p(cells[i].value)
    decreases |cells|
  {
    var last := cells[|cells| - 1];
    if last.Some? && p(last.value) {
      i := |cells| - 1;
    } else {
      i := CountWhereWitness(cells[..|cells| - 1], p);
    }
  }

  /** Every observation's weight is part of the weight of a selection containing its key. */
  lemma {:induction false} EntryWithinWeightWhere<K>(es: seq<(K, nat)>, i: nat, p: K -> bool)
    requires i < |es| && p(es[i].0)
    ensures es[i].1 <= WeightWhere(es, p)
    decreases |es|
  {
    if i < |es| - 1 {
      EntryWithinWeightWhere(es[..|es| - 1], i, p);
    }
  }

  /** With positive weights, a key occurs exactly when its weight is positive. */
  lemma {:induction false} KeyIffPositiveWeight<K>(es: seq<(K, nat)>, k: K)
    requires forall i :: 0 <= i < |es| ==> es[i].1 >= 1
    ensures k in KeysOf(es) <==> Weight(es, k) > 0
    decreases |es|
  {
    if |es| > 0 {
      var init := es[..|es| - 1];
      KeyIffPositiveWeight(init, k);
      assert KeysOf(es) == KeysOf(init) + [es[|es| - 1].0];
    }
  }
}
