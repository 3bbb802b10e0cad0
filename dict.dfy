/**
  Python's `dict` as the service uses it: keys in insertion order, each key
  at most once; assigning to a present key keeps its place, assigning to a
  new key appends it, deleting removes it.
 */
module Dicts {
  import opened Base

  type Dict<K, V> = seq<(K, V)>

  function Keys<K, V>(d: Dict<K, V>): (ks: seq<K>)
    ensures |ks| == |d| && forall i :: 0 <= i < |d| ==> ks[i] == d[i].0
    decreases |d|
  {
    if d == [] then [] else [d[0].0] + Keys(d[1..])
  }

  predicate Distinct<K(==), V>(d: Dict<K, V>) {
    forall i, j :: 0 <= i < j < |d| ==> d[i].0 != d[j].0
  }

  /** The position of the first entry for `k`. */
  function IndexOf<K(==), V>(d: Dict<K, V>, k: K): (i: nat)
    requires k in Keys(d)
    ensures i < |d| && d[i].0 == k
    ensures forall j :: 0 <= j < i ==> d[j].0 != k
    decreases |d|
  {
    if d[0].0 == k then 0 else 1 + IndexOf(d[1..], k)
  }

  /** `d.get(k)`: the value stored under `k`, if any. */
  function Get<K(==), V>(d: Dict<K, V>, k: K): (r: Option<V>)
    decreases |d|
  {
    if d == [] then None
    else if d[0].0 == k then Some(d[0].1)
    else Get(d[1..], k)
  }

  /** `d[k] = v`. */
  function Put<K(==), V>(d: Dict<K, V>, k: K, v: V): Dict<K, V>
    decreases |d|
  {
    if d == [] then [(k, v)]
    else if d[0].0 == k then [(k, v)] + d[1..]
    else [d[0]] + Put(d[1..], k, v)
  }

  /** `del d[k]`, and the removal `d.pop(k)` does. */
  function Delete<K(==), V>(d: Dict<K, V>, k: K): Dict<K, V>
    decreases |d|
  {
    if d == [] then []
    else if d[0].0 == k then d[1..]
    else [d[0]] + Delete(d[1..], k)
  }

  lemma {:induction false} KeysCons<K, V>(d: Dict<K, V>, k: K)
    requires d != [] && d[0].0 != k
    ensures k in Keys(d) <==> k in Keys(d[1..])
    ensures k in Keys(d) ==> IndexOf(d, k) == 1 + IndexOf(d[1..], k)
  {
    assert Keys(d) == [d[0].0] + Keys(d[1..]);
  }

  lemma {:induction false} KeysSnoc<K, V>(d: Dict<K, V>, e: (K, V))
    ensures Keys(d + [e]) == Keys(d) + [e.0]
  {
    assert forall i :: 0 <= i < |d| ==> (d + [e])[i] == d[i];
  }

  /** A key is present when its first entry is found; its value is that entry's. */
  lemma {:induction false} GetFound<K, V>(d: Dict<K, V>, k: K)
    ensures Get(d, k) == if k in Keys(d) then Some(d[IndexOf(d, k)].1) else None
    decreases |d|
  {
    if d != [] && d[0].0 != k {
      GetFound(d[1..], k);
      KeysCons(d, k);
    } else if d != [] {
      assert Keys(d)[0] == k;
    }
  }

  /** Assigning to a new key appends its entry. */
  lemma {:induction false} PutAppends<K, V>(d: Dict<K, V>, k: K, v: V)
    requires k !in Keys(d)
    ensures Put(d, k, v) == d + [(k, v)]
    decreases |d|
  {
    if d != [] {
      assert Keys(d)[0] == d[0].0;
      KeysCons(d, k);
      PutAppends(d[1..], k, v);
      assert [d[0]] + (d[1..] + [(k, v)]) == d + [(k, v)];
    }
  }

  /** Assigning to a present key keeps the keys and their order. */
  lemma {:induction false} PutKeepsKeys<K, V>(d: Dict<K, V>, k: K, v: V)
    requires k in Keys(d)
    ensures Keys(Put(d, k, v)) == Keys(d)
    decreases |d|
  {
    var r := Put(d, k, v);
    if d[0].0 == k {
      assert r == [(k, v)] + d[1..] && r[1..] == d[1..];
    } else {
      KeysCons(d, k);
      PutKeepsKeys(d[1..], k, v);
      assert r == [d[0]] + Put(d[1..], k, v) && r[1..] == Put(d[1..], k, v);
    }
  }

  /** In a dict without repeated keys, every entry is what `Get` finds. */
  lemma {:induction false} GetEntry<K, V>(d: Dict<K, V>, i: nat)
    requires Distinct(d) && i < |d|
    ensures Get(d, d[i].0) == Some(d[i].1)
    decreases i
  {
    if i > 0 {
      assert d[0].0 != d[i].0 && d[1..][i - 1] == d[i];
      assert Distinct(d[1..]) by {
        assert forall j :: 0 <= j < |d| - 1 ==> d[1..][j] == d[j + 1];
      }
      GetEntry(d[1..], i - 1);
    }
  }

  lemma {:induction false} PutGet<K, V>(d: Dict<K, V>, k: K, v: V, k': K)
    ensures Get(Put(d, k, v), k') == if k' == k then Some(v) else Get(d, k')
    decreases |d|
  {
    var r := Put(d, k, v);
    if d == [] {
      assert r[1..] == [];
    } else if d[0].0 == k {
      assert r[1..] == d[1..];
    } else {
      assert r[1..] == Put(d[1..], k, v);
      PutGet(d[1..], k, v, k');
    }
  }

  lemma {:induction false} PutDistinct<K, V>(d: Dict<K, V>, k: K, v: V)
    requires Distinct(d)
    ensures Distinct(Put(d, k, v))
    ensures k in Keys(d) ==> Keys(Put(d, k, v)) == Keys(d)
    ensures k !in Keys(d) ==> Put(d, k, v) == d + [(k, v)]
  {
    var r := Put(d, k, v);
    if k in Keys(d) {
      PutKeepsKeys(d, k, v);
      forall i, j | 0 <= i < j < |r| ensures r[i].0 != r[j].0 {
        assert r[i].0 == Keys(r)[i] == d[i].0 && r[j].0 == Keys(r)[j] == d[j].0;
      }
    } else {
      PutAppends(d, k, v);
      forall i, j | 0 <= i < j < |r| ensures r[i].0 != r[j].0 {
        assert r[i] == d[i] && Keys(d)[i] == d[i].0;
      }
    }
  }

  /** Every entry after `del d[k]` is an entry of `d`. */
  lemma {:induction false} DeleteEntries<K, V>(d: Dict<K, V>, k: K)
    ensures forall i :: 0 <= i < |Delete(d, k)| ==> Delete(d, k)[i] in d
    decreases |d|
  {
    var r := Delete(d, k);
    if d != [] && d[0].0 != k {
      DeleteEntries(d[1..], k);
      forall i | 0 < i < |r| ensures r[i] in d {
        assert r[i] == Delete(d[1..], k)[i - 1];
        assert r[i] in d[1..];
      }
    } else if d != [] {
      forall i | 0 <= i < |r| ensures r[i] in d {
        assert r[i] == d[i + 1];
      }
    }
  }

  lemma {:induction false} DeleteDistinct<K, V>(d: Dict<K, V>, k: K)
    requires Distinct(d)
    ensures Distinct(Delete(d, k))
    decreases |d|
  {
    if d != [] {
      var r := Delete(d, k);
      assert Distinct(d[1..]) by {
        assert forall i :: 0 <= i < |d| - 1 ==> d[1..][i] == d[i + 1];
      }
      if d[0].0 != k {
        var rest := Delete(d[1..], k);
        DeleteDistinct(d[1..], k);
        DeleteEntries(d[1..], k);
        assert r == [d[0]] + rest;
        forall b | 0 < b < |r| ensures r[0].0 != r[b].0 {
          assert r[b] == rest[b - 1] && rest[b - 1] in d[1..];
          var m :| 0 <= m < |d| - 1 && d[1..][m] == r[b];
          assert d[m + 1] == r[b];
        }
        forall a, b | 0 < a < b < |r| ensures r[a].0 != r[b].0 {
          assert r[a] == rest[a - 1] && r[b] == rest[b - 1];
        }
      }
    }
  }

  /** A key no entry holds is not found. */
  lemma {:induction false} GetAbsent<K, V>(d: Dict<K, V>, k: K)
    requires forall i :: 0 <= i < |d| ==> d[i].0 != k
    ensures Get(d, k) == None
    decreases |d|
  {
    if d != [] {
      assert forall i :: 0 <= i < |d| - 1 ==> d[1..][i] == d[i + 1];
      GetAbsent(d[1..], k);
    }
  }

  lemma {:induction false} DeleteGet<K, V>(d: Dict<K, V>, k: K, k': K)
    requires Distinct(d)
    ensures Distinct(Delete(d, k))
    ensures Get(Delete(d, k), k') == if k' == k then None else Get(d, k')
    decreases |d|
  {
    DeleteDistinct(d, k);
    var r := Delete(d, k);
    if d != [] {
      assert Distinct(d[1..]) by {
        assert forall i :: 0 <= i < |d| - 1 ==> d[1..][i] == d[i + 1];
      }
      if d[0].0 == k {
        assert r == d[1..];
        if k' == k {
          assert forall i :: 0 <= i < |r| ==> r[i] == d[i + 1];
          GetAbsent(r, k);
        }
      } else {
        assert r[1..] == Delete(d[1..], k);
        DeleteGet(d[1..], k, k');
      }
    }
  }
}
