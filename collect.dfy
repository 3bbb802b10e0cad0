/**
  The three loop shapes the service uses over the lines of a log or the
  entries of an index, stated once over the per-item outcomes: keep the
  last item per key, keep the items that pass a test, and gather the
  present items unless one of them raised.
 */
module Collect {
  import opened Base
  import opened Dicts

  /** One more item of a sequence walked from the left. */
  lemma {:induction false} PrefixStep<T>(s: seq<T>, i: nat)
    requires i < |s|
    ensures s[..i + 1] == s[..i] + [s[i]]
  {
  }

  /** `for x in xs: d[key(x)] = x`, skipping the items that did not decode. */
  function KeyedBy<T, K(==)>(xs: seq<Option<T>>, key: T -> K): Dict<K, T>
    decreases |xs|
  {
    if xs == [] then []
    else
      var d := KeyedBy(xs[..|xs| - 1], key);
      match xs[|xs| - 1]
      case Some(x) => Put(d, key(x), x)
      case None => d
  }

  predicate ItemFor<T, K(==)>(x: Option<T>, key: T -> K, k: K) {
    x.Some? && key(x.value) == k
  }

  /** Position `i` holds the last item with key `k`. */
  predicate LastItemFor<T, K(==)>(xs: seq<Option<T>>, key: T -> K, k: K, i: int) {
    0 <= i < |xs| && ItemFor(xs[i], key, k) && forall i' :: i < i' < |xs| ==> !ItemFor(xs[i'], key, k)
  }

  lemma {:induction false} KeyedByDistinct<T, K>(xs: seq<Option<T>>, key: T -> K)
    ensures Distinct(KeyedBy(xs, key))
    decreases |xs|
  {
    if xs != [] {
      var front := xs[..|xs| - 1];
      KeyedByDistinct(front, key);
      match xs[|xs| - 1] {
        case Some(x) => PutDistinct(KeyedBy(front, key), key(x), x);
        case None =>
      }
    }
  }

  lemma {:induction false} KeyedByAbsent<T, K>(xs: seq<Option<T>>, key: T -> K, k: K)
    ensures Get(KeyedBy(xs, key), k).None? <==> forall i :: 0 <= i < |xs| ==> !ItemFor(xs[i], key, k)
    decreases |xs|
  {
    if xs != [] {
      var n := |xs| - 1;
      var front := xs[..n];
      var d := KeyedBy(front, key);
      if ItemFor(xs[n], key, k) {
        var x := xs[n].value;
        assert KeyedBy(xs, key) == Put(d, k, x);
        PutGet(d, k, x, k);
      } else {
        KeyedByAbsent(front, key, k);
        assert forall i :: 0 <= i < n ==> front[i] == xs[i];
        assert Get(KeyedBy(xs, key), k) == Get(d, k) by {
          match xs[n] {
            case Some(x) =>
              assert KeyedBy(xs, key) == Put(d, key(x), x);
              PutGet(d, key(x), x, k);
            case None =>
          }
        }
      }
    }
  }

  lemma {:induction false} KeyedByLast<T, K>(xs: seq<Option<T>>, key: T -> K, k: K, i: nat)
    requires LastItemFor(xs, key, k, i)
    ensures Get(KeyedBy(xs, key), k) == xs[i]
    decreases |xs|
  {
    var n := |xs| - 1;
    var front := xs[..n];
    var d := KeyedBy(front, key);
    if i < n {
      assert LastItemFor(front, key, k, i) by {
        assert forall i' :: 0 <= i' < n ==> front[i'] == xs[i'];
      }
      KeyedByLast(front, key, k, i);
    }
    match xs[n] {
      case Some(x) =>
        assert KeyedBy(xs, key) == Put(d, key(x), x);
        PutGet(d, key(x), x, k);
      case None =>
        assert KeyedBy(xs, key) == d;
    }
  }

  /**
    The dict holds each key once; it knows `k` exactly when some item has
    that key, and then holds the last such item.
   */
  lemma {:induction false} KeyedByLookup<T, K>(xs: seq<Option<T>>, key: T -> K, k: K)
    ensures Distinct(KeyedBy(xs, key))
    ensures Get(KeyedBy(xs, key), k).None? <==> forall i :: 0 <= i < |xs| ==> !ItemFor(xs[i], key, k)
    ensures forall i :: LastItemFor(xs, key, k, i) ==> Get(KeyedBy(xs, key), k) == xs[i]
  {
    KeyedByDistinct(xs, key);
    KeyedByAbsent(xs, key, k);
    forall i | LastItemFor(xs, key, k, i) ensures Get(KeyedBy(xs, key), k) == xs[i] {
      KeyedByLast(xs, key, k, i);
    }
  }

  /** `[x for x in xs if keep(x)]` over the items that decoded. */
  function Kept<T>(xs: seq<Option<T>>, keep: T -> bool): seq<T>
    decreases |xs|
  {
    if xs == [] then []
    else
      var ys := Kept(xs[..|xs| - 1], keep);
      match xs[|xs| - 1]
      case Some(x) => if keep(x) then ys + [x] else ys
      case None => ys
  }

  lemma {:induction false} KeptSnoc<T>(xs: seq<Option<T>>, x: Option<T>, keep: T -> bool)
    ensures Kept(xs + [x], keep) == if KeptItem(x, keep) then Kept(xs, keep) + [x.value] else Kept(xs, keep)
  {
    assert (xs + [x])[..|xs|] == xs;
  }

  predicate KeptItem<T>(x: Option<T>, keep: T -> bool) {
    x.Some? && keep(x.value)
  }

  /**
    The kept items are those of the positions `idx` lists, in order, and
    `idx` lists exactly the positions whose item decoded and passes the test.
   */
  lemma {:induction false} KeptExact<T>(xs: seq<Option<T>>, keep: T -> bool) returns (idx: seq<nat>)
    ensures |idx| == |Kept(xs, keep)|
    ensures forall j :: 0 <= j < |idx| ==> idx[j] < |xs| && xs[idx[j]] == Some(Kept(xs, keep)[j])
    ensures forall j, j' :: 0 <= j < j' < |idx| ==> idx[j] < idx[j']
    ensures forall i :: 0 <= i < |xs| ==> (i in idx <==> KeptItem(xs[i], keep))
    decreases |xs|
  {
    if xs == [] {
      idx := [];
    } else {
      var n := |xs| - 1;
      var front := xs[..n];
      var idx0 := KeptExact(front, keep);
      assert xs == front + [xs[n]];
      KeptSnoc(front, xs[n], keep);
      if KeptItem(xs[n], keep) {
        idx := idx0 + [n];
        KeptAtKeep(front, xs[n], keep, Kept(front, keep), idx0);
      } else {
        idx := idx0;
        KeptAtSkip(front, xs[n], keep, Kept(front, keep), idx0);
      }
    }
  }

  /** `idx` lists the positions of `xs` whose items make up `ks`, as `KeptExact` states. */
  ghost predicate KeptAt<T>(xs: seq<Option<T>>, keep: T -> bool, ks: seq<T>, idx: seq<nat>) {
    |idx| == |ks| &&
    (forall j :: 0 <= j < |idx| ==> idx[j] < |xs| && xs[idx[j]] == Some(ks[j])) &&
    (forall j, j' :: 0 <= j < j' < |idx| ==> idx[j] < idx[j']) &&
    (forall i :: 0 <= i < |xs| ==> (i in idx <==> KeptItem(xs[i], keep)))
  }

  lemma {:induction false} KeptAtKeep<T>(xs: seq<Option<T>>, x: Option<T>, keep: T -> bool, ks: seq<T>, idx: seq<nat>)
    requires KeptAt(xs, keep, ks, idx) && KeptItem(x, keep)
    ensures KeptAt(xs + [x], keep, ks + [x.value], idx + [|xs|])
  {
    var ys, idx', ks' := xs + [x], idx + [|xs|], ks + [x.value];
    forall j | 0 <= j < |idx'| ensures idx'[j] < |ys| && ys[idx'[j]] == Some(ks'[j]) {
      if j < |idx| { assert idx'[j] == idx[j] && ys[idx[j]] == xs[idx[j]]; }
    }
    forall i | 0 <= i < |ys| ensures i in idx' <==> KeptItem(ys[i], keep) {
      if i < |xs| { assert ys[i] == xs[i]; assert i in idx' <==> i in idx; }
    }
  }

  lemma {:induction false} KeptAtSkip<T>(xs: seq<Option<T>>, x: Option<T>, keep: T -> bool, ks: seq<T>, idx: seq<nat>)
    requires KeptAt(xs, keep, ks, idx) && !KeptItem(x, keep)
    ensures KeptAt(xs + [x], keep, ks, idx)
  {
    var ys := xs + [x];
    forall j | 0 <= j < |idx| ensures idx[j] < |ys| && ys[idx[j]] == Some(ks[j]) {
      assert ys[idx[j]] == xs[idx[j]];
    }
    forall i | 0 <= i < |ys| ensures i in idx <==> KeptItem(ys[i], keep) {
      if i < |xs| { assert ys[i] == xs[i]; }
    }
  }

  /**
    A loop that may raise: the first failure is the outcome, otherwise the
    present items in order.
   */
  function Gathered<T>(rs: seq<Result<Option<T>>>): Result<seq<T>>
    decreases |rs|
  {
    if rs == [] then Ok([])
    else
      match Gathered(rs[..|rs| - 1])
      case Fail(e) => Fail(e)
      case Ok(ys) =>
        match rs[|rs| - 1]
        case Fail(e) => Fail(e)
        case Ok(None) => Ok(ys)
        case Ok(Some(y)) => Ok(ys + [y])
  }

  /**
    Gathering succeeds exactly when no item raised; the items are then
    those of the positions `idx` lists, in order, and `idx` lists exactly
    the positions with an item.
   */
  lemma {:induction false} GatheredExact<T>(rs: seq<Result<Option<T>>>) returns (idx: seq<nat>)
    ensures Gathered(rs).Ok? <==> forall i :: 0 <= i < |rs| ==> rs[i].Ok?
    ensures Gathered(rs).Ok? ==>
      |idx| == |Gathered(rs).value| &&
      (forall j :: 0 <= j < |idx| ==> idx[j] < |rs| && rs[idx[j]] == Ok(Some(Gathered(rs).value[j]))) &&
      (forall j, j' :: 0 <= j < j' < |idx| ==> idx[j] < idx[j']) &&
      (forall i :: 0 <= i < |rs| ==> (i in idx <==> rs[i].value.Some?))
    decreases |rs|
  {
    if rs == [] {
      idx := [];
    } else {
      var n := |rs| - 1;
      var front := rs[..n];
      var idx0 := GatheredExact(front);
      assert forall i :: 0 <= i < n ==> front[i] == rs[i];
      if rs[n].Ok? && rs[n].value.Some? {
        idx := idx0 + [n];
      } else {
        idx := idx0;
      }
    }
  }

  /** Once a prefix has raised, the whole loop raises with that error. */
  lemma {:induction false} GatheredFailExtends<T>(rs: seq<Result<Option<T>>>, n: nat)
    requires n <= |rs| && Gathered(rs[..n]).Fail?
    ensures Gathered(rs) == Gathered(rs[..n])
    decreases |rs| - n
  {
    if n < |rs| {
      assert rs[..n + 1][..n] == rs[..n];
      GatheredFailExtends(rs, n + 1);
    } else {
      assert rs[..n] == rs;
    }
  }
}
