/** Tallying into an insertion-ordered Python `dict`: `d[k] = d.get(k, 0) + n` for each entry in
    turn, which is what `collections.Counter(xs)` does with `n = 1` and what the status counter's
    per-colour aggregation does with the pair counts. A dict is modelled as the order in which its
    keys were first inserted together with the value it holds for each key. */
module Counting {

  datatype Tally<K(==)> = Tally(keys: seq<K>, total: map<K, nat>)

  /** The key list and the dict hold the same keys. */
  ghost predicate Keyed<K(!new)>(t: Tally<K>) {
    forall x :: x in t.keys <==> x in t.total
  }

  predicate Distinct<K(==)>(xs: seq<K>) {
    forall i, j :: 0 <= i < j < |xs| ==> xs[i] != xs[j]
  }

  /** The dict after `d[key(e)] = d.get(key(e), 0) + amount(e)` for each entry `e` of `es`,
      starting from `{}`: a key already present keeps its place, a new key goes last. */
  function Accumulate<E, K(==, !new)>(es: seq<E>, key: E -> K, amount: E -> nat): (t: Tally<K>)
    ensures Keyed(t)
  {
    if es == [] then Tally([], map[])
    else Add(Accumulate(es[..|es| - 1], key, amount), key(es[|es| - 1]), amount(es[|es| - 1]))
  }

  /** `d[k] = d.get(k, 0) + n`. */
  function Add<K(==, !new)>(t: Tally<K>, k: K, n: nat): (r: Tally<K>)
    requires Keyed(t)
    ensures Keyed(r)
  {
    Tally(if k in t.total then t.keys else t.keys + [k], t.total[k := Get(t.total, k) + n])
  }

  /** What `d[k] = d.get(k, 0) + n` does to the key order and the values. */
  lemma AddUpdates<K(!new)>(keys: seq<K>, total: map<K, nat>, k: K, n: nat)
    requires Keyed(Tally(keys, total))
    ensures Add(Tally(keys, total), k, n) == Tally(if k in total then keys else keys + [k], total[k := Get(total, k) + n])
  {
  }

  /** `d.get(k, 0)`. */
  function Get<K>(d: map<K, nat>, k: K): nat {
    if k in d then d[k] else 0
  }

  /** One entry more is one more `Add`. */
  lemma AccumulateSnoc<E, K(!new)>(es: seq<E>, i: nat, key: E -> K, amount: E -> nat)
    requires i < |es|
    ensures Accumulate(es[..i + 1], key, amount) == Add(Accumulate(es[..i], key, amount), key(es[i]), amount(es[i]))
  {
    assert es[..i + 1][..i] == es[..i];
  }

  /** A loop that adds each entry's amount under its key to a dict: the dict it builds, as its
      key order and its values. */
  method TallyBy<E, K(==, !new)>(es: seq<E>, key: E -> K, amount: E -> nat) returns (keys: seq<K>, total: map<K, nat>)
    ensures Tally(keys, total) == Accumulate(es, key, amount)
  {
    keys := [];
    total := map[];
    var i := 0;
    while i < |es|
      invariant i <= |es|
      invariant Tally(keys, total) == Accumulate(es[..i], key, amount)
    {
      var k, n := key(es[i]), amount(es[i]);
      AccumulateSnoc(es, i, key, amount);
      AddUpdates(keys, total, k, n);
      if k !in total {
        keys := keys + [k];
      }
      total := total[k := Get(total, k) + n];
      i := i + 1;
    }
    assert es[..i] == es;
  }

  /** `list(d.items())`. */
  function Items<K(==, !new)>(t: Tally<K>): (r: seq<(K, nat)>)
    requires forall k :: k in t.keys ==> k in t.total
    ensures |r| == |t.keys|
    ensures forall i :: 0 <= i < |r| ==> r[i] == (t.keys[i], t.total[t.keys[i]])
  {
    seq(|t.keys|, i requires 0 <= i < |t.keys| => (t.keys[i], t.total[t.keys[i]]))
  }

  /** The count of an item. */
  function Amount<K>(e: (K, nat)): nat {
    e.1
  }

  // ---------------------------------------------------------------- reference sums

  /** The sum of the amounts of the entries whose key is `k`. */
  function SumFor<E, K(==, !new)>(es: seq<E>, key: E -> K, amount: E -> nat, k: K): nat {
    if es == [] then 0
    else SumFor(es[..|es| - 1], key, amount, k) + (if key(es[|es| - 1]) == k then amount(es[|es| - 1]) else 0)
  }

  /** The sum of all the amounts. */
  function SumAll<E>(es: seq<E>, amount: E -> nat): nat {
    if es == [] then 0 else SumAll(es[..|es| - 1], amount) + amount(es[|es| - 1])
  }

  /** The sum of the values held for the listed keys. */
  function SumOver<K(==, !new)>(keys: seq<K>, total: map<K, nat>): nat
    requires forall k :: k in keys ==> k in total
  {
    if keys == [] then 0 else SumOver(keys[..|keys| - 1], total) + total[keys[|keys| - 1]]
  }

  // ---------------------------------------------------------------- what the dict holds

  /** No key is listed twice. */
  lemma {:induction false} AccumulateDistinct<E, K(!new)>(es: seq<E>, key: E -> K, amount: E -> nat)
    ensures Distinct(Accumulate(es, key, amount).keys)
  {
    if es != [] {
      AccumulateDistinct(es[..|es| - 1], key, amount);
    }
  }

  /** The keys are distinct, and they are exactly the keys of the entries. */
  lemma {:induction false} AccumulateKeys<E, K(!new)>(es: seq<E>, key: E -> K, amount: E -> nat)
    ensures Distinct(Accumulate(es, key, amount).keys)
    ensures forall k :: k in Accumulate(es, key, amount).keys <==> exists i :: 0 <= i < |es| && key(es[i]) == k
  {
    AccumulateDistinct(es, key, amount);
    if es != [] {
      var init := es[..|es| - 1];
      var e := es[|es| - 1];
      AccumulateKeys(init, key, amount);
      var t := Accumulate(init, key, amount);
      forall k
        ensures k in Accumulate(es, key, amount).keys <==> exists i :: 0 <= i < |es| && key(es[i]) == k
      {
        if exists i :: 0 <= i < |es| && key(es[i]) == k {
          var i :| 0 <= i < |es| && key(es[i]) == k;
          if i < |init| {
            assert key(init[i]) == k;
          }
        }
        if k in t.keys {
          var i :| 0 <= i < |init| && key(init[i]) == k;
          assert key(es[i]) == k;
        }
      }
    }
  }

  /** Each key holds the sum of the amounts of its entries. */
  lemma {:induction false} AccumulateTotals<E, K(!new)>(es: seq<E>, key: E -> K, amount: E -> nat)
    ensures var t := Accumulate(es, key, amount);
      forall k :: k in t.total ==> t.total[k] == SumFor(es, key, amount, k)
  {
    if es != [] {
      var init := es[..|es| - 1];
      AccumulateTotals(init, key, amount);
      AccumulateKeys(init, key, amount);
      var t := Accumulate(init, key, amount);
      forall k | k !in t.total
        ensures SumFor(init, key, amount, k) == 0
      {
        SumForAbsent(init, key, amount, k);
      }
    }
  }

  /** A key no entry carries sums to nothing. */
  lemma {:induction false} SumForAbsent<E, K(!new)>(es: seq<E>, key: E -> K, amount: E -> nat, k: K)
    requires forall i :: 0 <= i < |es| ==> key(es[i]) != k
    ensures SumFor(es, key, amount, k) == 0
  {
    if es != [] {
      var init := es[..|es| - 1];
      assert forall i :: 0 <= i < |init| ==> init[i] == es[i];
      SumForAbsent(init, key, amount, k);
    }
  }

  /** The values held, summed over the keys, add up to the sum of all the amounts. */
  lemma {:induction false} AccumulateSum<E, K(!new)>(es: seq<E>, key: E -> K, amount: E -> nat)
    ensures var t := Accumulate(es, key, amount); SumOver(t.keys, t.total) == SumAll(es, amount)
  {
    if es != [] {
      var init := es[..|es| - 1];
      AccumulateSum(init, key, amount);
      AccumulateDistinct(init, key, amount);
      AddSum(Accumulate(init, key, amount), key(es[|es| - 1]), amount(es[|es| - 1]));
    }
  }

  /** Adding `n` under one key adds `n` to the sum over the keys. */
  lemma AddSum<K(!new)>(t: Tally<K>, k: K, n: nat)
    requires Distinct(t.keys) && Keyed(t)
    ensures var r := Add(t, k, n); SumOver(r.keys, r.total) == SumOver(t.keys, t.total) + n
  {
    if k in t.total {
      SumOverBump(t.keys, t.total, k, t.total[k] + n);
    } else {
      var total' := t.total[k := n];
      SumOverBump(t.keys, t.total, k, n);
      SumOverSnoc(t.keys, k, total');
    }
  }

  lemma SumOverSnoc<K(!new)>(keys: seq<K>, k: K, total: map<K, nat>)
    requires forall x :: x in keys ==> x in total
    requires k in total
    ensures SumOver(keys + [k], total) == SumOver(keys, total) + total[k]
  {
    assert (keys + [k])[..|keys|] == keys;
  }

  /** Setting the value of one key changes the sum over distinct keys by the difference, and
      not at all when the key is not listed. */
  lemma {:induction false} SumOverBump<K(!new)>(keys: seq<K>, total: map<K, nat>, k: K, v: nat)
    requires Distinct(keys) && forall x :: x in keys ==> x in total
    ensures k in keys ==> SumOver(keys, total[k := v]) + total[k] == SumOver(keys, total) + v
    ensures k !in keys ==> SumOver(keys, total[k := v]) == SumOver(keys, total)
  {
    if keys != [] {
      var init := keys[..|keys| - 1];
      var last := keys[|keys| - 1];
      assert forall i, j :: 0 <= i < j < |init| ==> init[i] == keys[i] && init[j] == keys[j];
      assert k in init ==> k != last;
      SumOverBump(init, total, k, v);
    }
  }

  /** Keys are listed in the order in which they first appear among the entries: an entry
      carrying an earlier key comes before every entry carrying a later one. */
  lemma {:induction false} AccumulateOrder<E, K(!new)>(es: seq<E>, key: E -> K, amount: E -> nat)
    ensures forall i, j :: 0 <= i < j < |Accumulate(es, key, amount).keys| ==>
      FirstBefore(es, key, Accumulate(es, key, amount).keys[i], Accumulate(es, key, amount).keys[j])
  {
    if es != [] {
      var init := es[..|es| - 1];
      var e := es[|es| - 1];
      AccumulateOrder(init, key, amount);
      AccumulateKeys(init, key, amount);
      var t := Accumulate(init, key, amount);
      var ks := Accumulate(es, key, amount).keys;
      forall i, j | 0 <= i < j < |ks|
        ensures FirstBefore(es, key, ks[i], ks[j])
      {
        if j < |t.keys| {
          assert ks[i] == t.keys[i] && ks[j] == t.keys[j];
          assert init <= es;
          assert FirstBefore(init, key, t.keys[i], t.keys[j]);
          FirstBeforeExtends(init, es, key, ks[i], ks[j]);
        } else {
          assert ks[i] == t.keys[i] && ks[j] == key(e) && key(e) !in t.keys;
          assert ks[i] in t.keys;
          var a :| 0 <= a < |init| && key(init[a]) == ks[i];
          assert key(es[a]) == ks[i];
          assert forall b :: 0 <= b <= a ==> key(es[b]) == key(init[b]);
        }
      }
    }
  }

  /** Some entry carries `x` while no entry up to it carries `y`. */
  predicate FirstBefore<E, K(==, !new)>(es: seq<E>, key: E -> K, x: K, y: K) {
    exists a :: 0 <= a < |es| && key(es[a]) == x && forall b :: 0 <= b <= a ==> key(es[b]) != y
  }

  lemma FirstBeforeExtends<E, K(!new)>(init: seq<E>, es: seq<E>, key: E -> K, x: K, y: K)
    requires init <= es && FirstBefore(init, key, x, y)
    ensures FirstBefore(es, key, x, y)
  {
    var a :| 0 <= a < |init| && key(init[a]) == x && forall b :: 0 <= b <= a ==> key(init[b]) != y;
    assert key(es[a]) == x;
    assert forall b :: 0 <= b <= a ==> es[b] == init[b];
  }

  /** The counts of the items add up to the values held, summed over the keys. */
  lemma {:induction false} ItemsSum<K(!new)>(t: Tally<K>)
    requires forall k :: k in t.keys ==> k in t.total
    ensures SumAll(Items(t), Amount) == SumOver(t.keys, t.total)
    decreases |t.keys|
  {
    if t.keys != [] {
      var init := Tally(t.keys[..|t.keys| - 1], t.total);
      ItemsSum(init);
      assert Items(t)[..|Items(t)| - 1] == Items(init);
    }
  }
}
