/** The group-by-sum and reindex-with-zero-fill steps of the dashboard,
    over a sequence of (key, value) pairs whose missing values sum as 0. */
module Grouping {
  import opened Frames

  /** Reference definition: the sum of the values filed under key `k`. */
  function KeySum<K(==)>(es: seq<(K, Option<int>)>, k: K): int
  {
    if es == [] then 0
    else KeySum(es[..|es| - 1], k) + (if es[|es| - 1].0 == k then OrZero(es[|es| - 1].1) else 0)
  }

  function Keys<K>(es: seq<(K, Option<int>)>): set<K>
  {
    set i | 0 <= i < |es| :: es[i].0
  }

  /** `groupby(key).sum()`: one entry per key that occurs, holding the sum of its values. */
  function GroupSum<K(==)>(es: seq<(K, Option<int>)>): (g: map<K, int>)
    ensures g.Keys == Keys(es)
    ensures forall k :: k in g ==> g[k] == KeySum(es, k)
  {
    if es == [] then map[]
    else
      var init := es[..|es| - 1];
      var g := GroupSum(init);
      var (k, v) := es[|es| - 1];
      assert Keys(es) == Keys(init) + {k} by {
        forall x | x in Keys(es) ensures x in Keys(init) + {k} {
          var i :| 0 <= i < |es| && es[i].0 == x;
          if i < |es| - 1 { assert init[i] == es[i]; }
        }
        forall x | x in Keys(init) ensures x in Keys(es) {
          var i :| 0 <= i < |init| && init[i].0 == x;
          assert es[i] == init[i];
        }
      }
      assert k !in g ==> KeySum(init, k) == 0 by {
        if k !in g { KeySumAbsent(init, k); }
      }
      g[k := (if k in g then g[k] else 0) + OrZero(v)]
  }

  /** `reindex(..., fill_value=0)` at one label. */
  function Lookup0<K>(g: map<K, int>, k: K): int
  {
    if k in g then g[k] else 0
  }

  /** A key that never occurs sums to 0, so the zero fill agrees with the reference. */
  lemma {:induction false} KeySumAbsent<K>(es: seq<(K, Option<int>)>, k: K)
    requires k !in Keys(es)
    ensures KeySum(es, k) == 0
  {
    if es != [] {
      var init := es[..|es| - 1];
      assert Keys(init) <= Keys(es) by {
        forall x | x in Keys(init) ensures x in Keys(es) {
          var i :| 0 <= i < |init| && init[i].0 == x;
          assert es[i] == init[i];
        }
      }
      KeySumAbsent(init, k);
      assert es[|es| - 1].0 in Keys(es);
    }
  }

  /** Grouping, summing and reindexing with zero fill is the reference sum at every label. */
  lemma GroupLookup<K>(es: seq<(K, Option<int>)>, k: K)
    ensures Lookup0(GroupSum(es), k) == KeySum(es, k)
  {
    if k !in Keys(es) {
      KeySumAbsent(es, k);
    }
  }

  /** `reindex(labels, fill_value=0)` of a grouped sum. */
  function GroupReindex<K(==)>(es: seq<(K, Option<int>)>, labels: seq<K>): (r: seq<int>)
    ensures |r| == |labels|
    ensures forall i :: 0 <= i < |labels| ==> r[i] == KeySum(es, labels[i])
  {
    var g := GroupSum(es);
    forall i | 0 <= i < |labels| ensures Lookup0(g, labels[i]) == KeySum(es, labels[i]) {
      GroupLookup(es, labels[i]);
    }
    seq(|labels|, i requires 0 <= i < |labels| => Lookup0(g, labels[i]))
  }

  lemma {:induction false} KeySumAppend<K>(a: seq<(K, Option<int>)>, b: seq<(K, Option<int>)>, k: K)
    ensures KeySum(a + b, k) == KeySum(a, k) + KeySum(b, k)
  {
    if b != [] {
      var bi := b[..|b| - 1];
      assert (a + b)[..|a + b| - 1] == a + bi;
      KeySumAppend(a, bi, k);
    } else {
      assert a + b == a;
    }
  }
}
