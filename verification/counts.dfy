/** A Python `dict` / `defaultdict(int)` with integer values, as the list of
    its entries in insertion order. The order matters to the learner: `max`
    over `items()` breaks ties in favour of the entry inserted first. */
module Counts {

  type Dict<K> = seq<(K, int)>

  /** `list(d.keys())`, in insertion order. */
  function Keys<K>(d: Dict<K>): seq<K> {
    seq(|d|, j requires 0 <= j < |d| => d[j].0)
  }

  predicate Distinct<T(==)>(s: seq<T>) {
    forall i, j :: 0 <= i < j < |s| ==> s[i] != s[j]
  }

  /** `d.get(k, 0)`: the value under `k`, or 0 when `k` is absent. */
  function Get<K(==)>(d: Dict<K>, k: K): int {
    if d == [] then 0 else if d[0].0 == k then d[0].1 else Get(d[1..], k)
  }

  /** `sum(d.values())`. */
  function Total<K>(d: Dict<K>): int {
    if d == [] then 0 else d[0].1 + Total(d[1..])
  }

  /** `d[k] += c` on a `defaultdict(int)`. */
  function Add<K(==)>(d: Dict<K>, k: K, c: int): Dict<K> {
    if d == [] then [(k, c)]
    else if d[0].0 == k then [(k, d[0].1 + c)] + d[1..]
    else [d[0]] + Add(d[1..], k, c)
  }

  /** `d[k] += c`: an existing key keeps its place, a new key is inserted
      last with value `c`. */
  lemma {:induction false} AddKeys<K>(d: Dict<K>, k: K, c: int)
    ensures Keys(Add(d, k, c)) == if k in Keys(d) then Keys(d) else Keys(d) + [k]
  {
    if d == [] {
      assert Keys(Add(d, k, c)) == [k];
    } else if d[0].0 == k {
      assert Keys(d)[0] == k;
      assert Keys(Add(d, k, c)) == Keys(d);
    } else {
      var r := Add(d, k, c);
      AddKeys(d[1..], k, c);
      assert r[1..] == Add(d[1..], k, c);
      assert Keys(d) == [d[0].0] + Keys(d[1..]);
      assert Keys(r) == [d[0].0] + Keys(r[1..]);
      assert k in Keys(d) <==> k in Keys(d[1..]);
    }
  }

  /** `d[k] += c` with a new key `k` inserts the entry `(k, c)` last. */
  lemma {:induction false} AddNew<K>(d: Dict<K>, k: K, c: int)
    requires k !in Keys(d)
    ensures Add(d, k, c) == d + [(k, c)]
  {
    if d != [] {
      assert Keys(d) == [d[0].0] + Keys(d[1..]);
      AddNew(d[1..], k, c);
    }
  }

  /** After `d[k] += c`, the key `k` reads `c` more and every other key reads the same. */
  lemma {:induction false} GetAdd<K>(d: Dict<K>, k: K, c: int, k': K)
    ensures Get(Add(d, k, c), k') == Get(d, k') + (if k' == k then c else 0)
  {
    if d != [] && d[0].0 != k {
      GetAdd(d[1..], k, c, k');
    }
  }

  /** `d[k] += c` adds `c` to the total, and with `c >= 0` no value decreases. */
  lemma {:induction false} AddTotal<K>(d: Dict<K>, k: K, c: int)
    ensures Total(Add(d, k, c)) == Total(d) + c
    ensures |Add(d, k, c)| >= |d|
    ensures c >= 0 ==> forall j :: 0 <= j < |d| ==> Add(d, k, c)[j].1 >= d[j].1
  {
    if d != [] && d[0].0 != k {
      AddTotal(d[1..], k, c);
      assert Add(d, k, c)[1..] == Add(d[1..], k, c);
    }
  }

  /** `d[k] += c` keeps the keys distinct. */
  lemma AddDistinct<K>(d: Dict<K>, k: K, c: int)
    requires Distinct(Keys(d))
    ensures Distinct(Keys(Add(d, k, c)))
  {
    AddKeys(d, k, c);
    if k !in Keys(d) {
      var ks := Keys(d) + [k];
      forall i, j | 0 <= i < j < |ks| ensures ks[i] != ks[j] {
        if j == |ks| - 1 {
          assert ks[i] == Keys(d)[i];
        } else {
          assert ks[i] == Keys(d)[i] && ks[j] == Keys(d)[j];
        }
      }
    }
  }

  /** `d[k] = v`. */
  function Put<K(==)>(d: Dict<K>, k: K, v: int): Dict<K> {
    if d == [] then [(k, v)]
    else if d[0].0 == k then [(k, v)] + d[1..]
    else [d[0]] + Put(d[1..], k, v)
  }

  /** `d[k] = v` with a new key `k` inserts it last. */
  lemma {:induction false} PutNew<K>(d: Dict<K>, k: K, v: int)
    requires k !in Keys(d)
    ensures Put(d, k, v) == d + [(k, v)]
  {
    if d != [] {
      assert Keys(d) == [d[0].0] + Keys(d[1..]);
      PutNew(d[1..], k, v);
    }
  }

  /** A dict filled by `d[k] = v` for every entry `(k, v)` of `es` in turn. */
  function Assign<K(==)>(es: Dict<K>): Dict<K> {
    if es == [] then []
    else Put(Assign(es[..|es| - 1]), es[|es| - 1].0, es[|es| - 1].1)
  }

  /** Assigning entries whose keys are already distinct changes nothing. */
  lemma {:induction false} AssignDistinct<K>(es: Dict<K>)
    requires Distinct(Keys(es))
    ensures Assign(es) == es
  {
    if es != [] {
      var n := |es|;
      var init := es[..n - 1];
      assert Keys(init) == Keys(es)[..n - 1];
      AssignDistinct(init);
      assert es[n - 1].0 !in Keys(init) by {
        forall j | 0 <= j < n - 1 ensures Keys(init)[j] != es[n - 1].0 {
          assert Keys(es)[j] != Keys(es)[n - 1];
        }
      }
      PutNew(init, es[n - 1].0, es[n - 1].1);
      assert init + [es[n - 1]] == es;
    }
  }

  /** In a dict with distinct keys, looking up an entry's key gives its value. */
  lemma {:induction false} GetEntry<K>(d: Dict<K>, j: nat)
    requires Distinct(Keys(d)) && j < |d|
    ensures Get(d, d[j].0) == d[j].1
  {
    if j > 0 {
      assert Keys(d[1..]) == Keys(d)[1..];
      GetEntry(d[1..], j - 1);
      assert Keys(d)[0] != Keys(d)[j];
    }
  }

  /** A key that reads a non-zero value is present. */
  lemma {:induction false} GetPresent<K>(d: Dict<K>, k: K)
    requires Get(d, k) != 0
    ensures exists j :: 0 <= j < |d| && d[j].0 == k
  {
    if d[0].0 != k {
      GetPresent(d[1..], k);
      var j :| 0 <= j < |d[1..]| && d[1..][j].0 == k;
      assert d[j + 1].0 == k;
    }
  }

  lemma {:induction false} TotalAppend<K>(d: Dict<K>, e: (K, int))
    ensures Total(d + [e]) == Total(d) + e.1
  {
    if d != [] {
      assert (d + [e])[1..] == d[1..] + [e];
      TotalAppend(d[1..], e);
    }
  }

  /** A `defaultdict(int)` filled by `d[k] += c` for every entry `(k, c)` of
      `es` in turn. */
  function Regroup<K(==)>(es: Dict<K>): Dict<K> {
    if es == [] then []
    else Add(Regroup(es[..|es| - 1]), es[|es| - 1].0, es[|es| - 1].1)
  }

  /** Regrouping entries whose keys are already distinct changes nothing. */
  lemma {:induction false} RegroupDistinct<K>(es: Dict<K>)
    requires Distinct(Keys(es))
    ensures Regroup(es) == es
  {
    if es != [] {
      var n := |es|;
      var init := es[..n - 1];
      assert Keys(init) == Keys(es)[..n - 1];
      RegroupDistinct(init);
      assert es[n - 1].0 !in Keys(init) by {
        forall j | 0 <= j < n - 1 ensures Keys(init)[j] != es[n - 1].0 {
          assert Keys(es)[j] != Keys(es)[n - 1];
        }
      }
      AddNew(init, es[n - 1].0, es[n - 1].1);
      assert init + [es[n - 1]] == es;
    }
  }

  /** Regrouping keeps the total. */
  lemma {:induction false} RegroupTotal<K>(es: Dict<K>)
    ensures Total(Regroup(es)) == Total(es)
  {
    if es != [] {
      var n := |es|;
      RegroupTotal(es[..n - 1]);
      AddTotal(Regroup(es[..n - 1]), es[n - 1].0, es[n - 1].1);
      assert es == es[..n - 1] + [es[n - 1]];
      TotalAppend(es[..n - 1], es[n - 1]);
    }
  }
}

