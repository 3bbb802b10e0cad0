/**
  The aggregation behind `top_models_by_sales`: a `defaultdict(int)` that
  counts sales per (model name, brand), the list of `ModelSaleStats` built
  from it in the dict's order, and the stable descending sort by count.
 */
module Ranking {
  import opened Base
  import opened Dicts

  /** `(model.name, model.brand)`, the key sales are counted under. */
  type ModelKey = (string, string)

  datatype ModelSaleStats = ModelSaleStats(carModelName: string, brand: string, salesNumber: nat)

  /** How many times `k` occurs in `ks`. */
  function Count(ks: seq<ModelKey>, k: ModelKey): nat
    decreases |ks|
  {
    if ks == [] then 0
    else Count(ks[..|ks| - 1], k) + (if ks[|ks| - 1] == k then 1 else 0)
  }

  /** The distinct keys of `ks`, in the order they are first met. */
  function FirstSeen(ks: seq<ModelKey>): seq<ModelKey>
    decreases |ks|
  {
    if ks == [] then []
    else
      var seen := FirstSeen(ks[..|ks| - 1]);
      if ks[|ks| - 1] in seen then seen else seen + [ks[|ks| - 1]]
  }

  /** The count stored under `k`, or the `defaultdict`'s 0. */
  function CountOf(t: Dict<ModelKey, nat>, k: ModelKey): nat {
    match Get(t, k)
    case Some(c) => c
    case None => 0
  }

  /** `model_count[k] += 1` for every key in turn. */
  function Tally(ks: seq<ModelKey>): Dict<ModelKey, nat>
    decreases |ks|
  {
    if ks == [] then []
    else
      var t := Tally(ks[..|ks| - 1]);
      var k := ks[|ks| - 1];
      Put<ModelKey, nat>(t, k, CountOf(t, k) + 1)
  }

  /** One more sale counted. */
  lemma {:induction false} TallySnoc(ks: seq<ModelKey>, k: ModelKey)
    ensures Tally(ks + [k]) == Put<ModelKey, nat>(Tally(ks), k, CountOf(Tally(ks), k) + 1)
  {
    var ks' := ks + [k];
    assert ks'[..|ks'| - 1] == ks && ks'[|ks'| - 1] == k;
  }

  /** The counting dict holds each counted key once, in first-encounter order. */
  lemma {:induction false} TallyKeys(ks: seq<ModelKey>)
    ensures Distinct(Tally(ks))
    ensures Keys(Tally(ks)) == FirstSeen(ks)
    decreases |ks|
  {
    if ks != [] {
      var front := ks[..|ks| - 1];
      var k := ks[|ks| - 1];
      var t := Tally(front);
      var c: nat := CountOf(t, k) + 1;
      assert Tally(ks) == Put(t, k, c);
      TallyKeys(front);
      FirstSeenMembers(front);
      PutDistinct(t, k, c);
      if k !in Keys(t) {
        KeysSnoc(t, (k, c));
      }
    }
  }

  /** The count the dict holds for `k` is the number of times `k` was counted. */
  lemma {:induction false} TallyGet(ks: seq<ModelKey>, k': ModelKey)
    ensures Get(Tally(ks), k') == if k' in ks then Some(Count(ks, k')) else None
    decreases |ks|
  {
    if ks != [] {
      var front := ks[..|ks| - 1];
      var k := ks[|ks| - 1];
      var t := Tally(front);
      var c: nat := CountOf(t, k);
      assert ks == front + [k];
      TallySnoc(front, k);
      assert Tally(ks) == Tally(front + [k]);
      assert Tally(ks) == Put<ModelKey, nat>(t, k, c + 1);
      CountSnoc(front, k, k');
      assert Count(ks, k') == Count(front, k') + (if k == k' then 1 else 0);
      PutGet<ModelKey, nat>(t, k, c + 1, k');
      if k' == k {
        TallyGet(front, k);
        CountPositive(front, k);
        assert c == Count(front, k);
      } else {
        TallyGet(front, k');
        assert k' in ks <==> k' in front;
      }
    }
  }

  lemma {:induction false} CountSnoc(ks: seq<ModelKey>, k: ModelKey, k': ModelKey)
    ensures Count(ks + [k], k') == Count(ks, k') + (if k == k' then 1 else 0)
  {
    var ks' := ks + [k];
    assert ks'[..|ks'| - 1] == ks && ks'[|ks'| - 1] == k;
  }

  /**
    The counting dict holds every counted key once, in first-encounter
    order, with the number of times it was counted.
   */
  lemma {:induction false} TallyCounts(ks: seq<ModelKey>)
    ensures Distinct(Tally(ks))
    ensures Keys(Tally(ks)) == FirstSeen(ks)
    ensures forall k :: Get(Tally(ks), k) == if k in ks then Some(Count(ks, k)) else None
  {
    TallyKeys(ks);
    forall k ensures Get(Tally(ks), k) == if k in ks then Some(Count(ks, k)) else None {
      TallyGet(ks, k);
    }
  }

  lemma {:induction false} CountPositive(ks: seq<ModelKey>, k: ModelKey)
    ensures Count(ks, k) > 0 <==> k in ks
    decreases |ks|
  {
    if ks != [] {
      CountPositive(ks[..|ks| - 1], k);
      assert ks == ks[..|ks| - 1] + [ks[|ks| - 1]];
    }
  }

  lemma {:induction false} FirstSeenMembers(ks: seq<ModelKey>)
    ensures forall k :: k in FirstSeen(ks) <==> k in ks
    decreases |ks|
  {
    if ks != [] {
      FirstSeenMembers(ks[..|ks| - 1]);
      assert ks == ks[..|ks| - 1] + [ks[|ks| - 1]];
    }
  }

  /** The result list built from `model_count.items()`. */
  function Stats(t: Dict<ModelKey, nat>): (r: seq<ModelSaleStats>)
    ensures |r| == |t|
    ensures forall i :: 0 <= i < |t| ==> r[i] == ModelSaleStats(t[i].0.0, t[i].0.1, t[i].1)
    decreases |t|
  {
    if t == [] then []
    else Stats(t[..|t| - 1]) + [ModelSaleStats(t[|t| - 1].0.0, t[|t| - 1].0.1, t[|t| - 1].1)]
  }

  lemma {:induction false} StatsSnoc(t: Dict<ModelKey, nat>, e: (ModelKey, nat))
    ensures Stats(t + [e]) == Stats(t) + [ModelSaleStats(e.0.0, e.0.1, e.1)]
  {
    assert (t + [e])[..|t|] == t;
  }

  // ---- the stable sort ------------------------------------------------------

  predicate Descending(s: seq<ModelSaleStats>) {
    forall i, j :: 0 <= i < j < |s| ==> s[i].salesNumber >= s[j].salesNumber
  }

  /** The entries of `s` whose count is `c`, in their order in `s`. */
  function WithCount(s: seq<ModelSaleStats>, c: nat): seq<ModelSaleStats>
    decreases |s|
  {
    if s == [] then []
    else (if s[0].salesNumber == c then [s[0]] else []) + WithCount(s[1..], c)
  }

  /** `x` goes in front of the first entry that does not count more. */
  function Insert(x: ModelSaleStats, t: seq<ModelSaleStats>): seq<ModelSaleStats>
    decreases |t|
  {
    if t == [] || t[0].salesNumber <= x.salesNumber then [x] + t
    else [t[0]] + Insert(x, t[1..])
  }

  /** `sorted(s, key=lambda x: x.sales_number, reverse=True)`. */
  function SortDesc(s: seq<ModelSaleStats>): seq<ModelSaleStats>
    decreases |s|
  {
    if s == [] then [] else Insert(s[0], SortDesc(s[1..]))
  }

  lemma {:induction false} InsertMultiset(x: ModelSaleStats, t: seq<ModelSaleStats>)
    ensures multiset(Insert(x, t)) == multiset([x] + t)
    decreases |t|
  {
    if !(t == [] || t[0].salesNumber <= x.salesNumber) {
      InsertMultiset(x, t[1..]);
      assert t == [t[0]] + t[1..];
    }
  }

  /** Inserting an entry that counts no more than `b` into entries that count no more than `b`. */
  lemma {:induction false} InsertBounded(x: ModelSaleStats, t: seq<ModelSaleStats>, b: nat)
    requires x.salesNumber <= b
    requires forall k :: 0 <= k < |t| ==> t[k].salesNumber <= b
    ensures forall k :: 0 <= k < |Insert(x, t)| ==> Insert(x, t)[k].salesNumber <= b
    decreases |t|
  {
    if !(t == [] || t[0].salesNumber <= x.salesNumber) {
      InsertBounded(x, t[1..], b);
    }
  }

  lemma {:induction false} InsertDescending(x: ModelSaleStats, t: seq<ModelSaleStats>)
    requires Descending(t)
    ensures Descending(Insert(x, t))
    decreases |t|
  {
    var r := Insert(x, t);
    if t == [] || t[0].salesNumber <= x.salesNumber {
      assert r == [x] + t;
      forall i, j | 0 <= i < j < |r| ensures r[i].salesNumber >= r[j].salesNumber {
        assert r[j] == t[j - 1];
        if i > 0 { assert r[i] == t[i - 1]; }
      }
    } else {
      var rest := Insert(x, t[1..]);
      InsertDescending(x, t[1..]);
      InsertBounded(x, t[1..], t[0].salesNumber);
      assert r == [t[0]] + rest;
      forall i, j | 0 <= i < j < |r| ensures r[i].salesNumber >= r[j].salesNumber {
        if i > 0 {
          assert r[i] == rest[i - 1] && r[j] == rest[j - 1];
        } else {
          assert r[i] == t[0] && r[j] == rest[j - 1];
        }
      }
    }
  }

  lemma {:induction false} InsertWithCount(x: ModelSaleStats, t: seq<ModelSaleStats>, c: nat)
    requires Descending(t)
    ensures WithCount(Insert(x, t), c) ==
      (if x.salesNumber == c then [x] + WithCount(t, c) else WithCount(t, c))
    decreases |t|
  {
    if t == [] || t[0].salesNumber <= x.salesNumber {
      assert ([x] + t)[1..] == t;
    } else {
      var rest := Insert(x, t[1..]);
      InsertWithCount(x, t[1..], c);
      assert ([t[0]] + rest)[1..] == rest;
    }
  }

  /**
    The sort orders by count, most sold first, keeps exactly the entries it
    was given, and keeps entries with equal counts in their original order
    (Python's sort is stable, also with `reverse=True`).
   */
  lemma {:induction false} SortDescCorrect(s: seq<ModelSaleStats>)
    ensures Descending(SortDesc(s))
    ensures multiset(SortDesc(s)) == multiset(s)
    ensures forall c :: WithCount(SortDesc(s), c) == WithCount(s, c)
    decreases |s|
  {
    if s != [] {
      SortDescCorrect(s[1..]);
      InsertDescending(s[0], SortDesc(s[1..]));
      InsertMultiset(s[0], SortDesc(s[1..]));
      forall c ensures WithCount(SortDesc(s), c) == WithCount(s, c) {
        InsertWithCount(s[0], SortDesc(s[1..]), c);
      }
      assert s == [s[0]] + s[1..];
    }
  }

  /** `result[:3]`. */
  function FirstThree(s: seq<ModelSaleStats>): (r: seq<ModelSaleStats>)
    ensures |r| <= 3 && |r| <= |s| && r == s[..|r|]
    ensures |r| == |s| || |r| == 3
  {
    if |s| <= 3 then s else s[..3]
  }

  /** The list `top_models_by_sales` returns for the counted keys. */
  function Ranked(ks: seq<ModelKey>): seq<ModelSaleStats> {
    FirstThree(SortDesc(Stats(Tally(ks))))
  }

  /** Every entry of the stats list is a counted key with its count. */
  lemma {:induction false} StatsOfTally(ks: seq<ModelKey>)
    ensures forall e :: e in Stats(Tally(ks)) ==>
      (e.carModelName, e.brand) in ks && e.salesNumber == Count(ks, (e.carModelName, e.brand))
    ensures forall k :: k in ks ==> ModelSaleStats(k.0, k.1, Count(ks, k)) in Stats(Tally(ks))
    ensures |Stats(Tally(ks))| == |FirstSeen(ks)|
  {
    var t := Tally(ks);
    var st := Stats(t);
    TallyCounts(ks);
    forall e | e in st
      ensures (e.carModelName, e.brand) in ks && e.salesNumber == Count(ks, (e.carModelName, e.brand))
    {
      var i :| 0 <= i < |st| && st[i] == e;
      GetEntry(t, i);
    }
    forall k | k in ks ensures ModelSaleStats(k.0, k.1, Count(ks, k)) in st {
      GetFound(t, k);
      var i := IndexOf(t, k);
      GetEntry(t, i);
      assert st[i] == ModelSaleStats(k.0, k.1, Count(ks, k));
    }
  }

  lemma {:induction false} SortKeepsEntries(s: seq<ModelSaleStats>)
    ensures |SortDesc(s)| == |s|
    ensures forall e :: e in SortDesc(s) <==> e in s
  {
    SortDescCorrect(s);
    assert |multiset(SortDesc(s))| == |multiset(s)|;
    forall e ensures e in SortDesc(s) <==> e in s {
      assert e in SortDesc(s) <==> e in multiset(SortDesc(s));
      assert e in s <==> e in multiset(s);
    }
  }

  /** The first three of a descending list are the largest. */
  lemma {:induction false} TopOfDescending(sorted: seq<ModelSaleStats>)
    requires Descending(sorted)
    ensures Descending(FirstThree(sorted))
    ensures forall e :: e in FirstThree(sorted) ==> e in sorted
    ensures forall e :: e in sorted && e !in FirstThree(sorted) ==>
      |FirstThree(sorted)| == 3 && forall e' :: e' in FirstThree(sorted) ==> e'.salesNumber >= e.salesNumber
  {
    var r := FirstThree(sorted);
    forall e | e in r ensures e in sorted {
      var j :| 0 <= j < |r| && r[j] == e;
    }
    forall e | e in sorted && e !in r
      ensures |r| == 3 && forall e' :: e' in r ==> e'.salesNumber >= e.salesNumber
    {
      var j :| 0 <= j < |sorted| && sorted[j] == e;
      assert j >= |r|;
      forall e' | e' in r ensures e'.salesNumber >= e.salesNumber {
        var j' :| 0 <= j' < |r| && r[j'] == e';
      }
    }
  }

  /**
    The ranking: at most three entries, most sold first, each a counted
    model with its number of sales; fewer than three only when fewer models
    sold; and a model left out sold no more than any entry shown.
   */
  lemma {:induction false} RankedCorrect(ks: seq<ModelKey>)
    ensures |Ranked(ks)| <= 3
    ensures Descending(Ranked(ks))
    ensures forall e :: e in Ranked(ks) ==>
      (e.carModelName, e.brand) in ks && e.salesNumber == Count(ks, (e.carModelName, e.brand))
    ensures |Ranked(ks)| == 3 || |Ranked(ks)| == |FirstSeen(ks)|
    ensures forall k :: k in ks && ModelSaleStats(k.0, k.1, Count(ks, k)) !in Ranked(ks) ==>
      |Ranked(ks)| == 3 && forall e :: e in Ranked(ks) ==> e.salesNumber >= Count(ks, k)
  {
    var st := Stats(Tally(ks));
    StatsOfTally(ks);
    SortDescCorrect(st);
    SortKeepsEntries(st);
    TopOfDescending(SortDesc(st));
  }

  // ---- ties -------------------------------------------------------------------

  /** The (name, brand) an entry of the result reports. */
  function KeyOf(e: ModelSaleStats): ModelKey {
    (e.carModelName, e.brand)
  }

  /** `a` was counted for the first time before `b` was. */
  ghost predicate SeenBefore(ks: seq<ModelKey>, a: ModelKey, b: ModelKey) {
    exists p, q :: 0 <= p < q < |FirstSeen(ks)| && FirstSeen(ks)[p] == a && FirstSeen(ks)[q] == b
  }

  ghost predicate NoRepeats(s: seq<ModelSaleStats>) {
    forall a, b :: 0 <= a < b < |s| ==> s[a] != s[b]
  }

  lemma {:induction false} WithCountAppend(a: seq<ModelSaleStats>, b: seq<ModelSaleStats>, c: nat)
    ensures WithCount(a + b, c) == WithCount(a, c) + WithCount(b, c)
    decreases |a|
  {
    if a != [] {
      assert (a + b)[1..] == a[1..] + b;
      WithCountAppend(a[1..], b, c);
    } else {
      assert a + b == b;
    }
  }

  /** An entry with count `c` sits in `WithCount(s, c)` after the count-`c` entries before it. */
  lemma {:induction false} WithCountAt(s: seq<ModelSaleStats>, i: nat, c: nat)
    requires i < |s| && s[i].salesNumber == c
    ensures |WithCount(s[..i], c)| < |WithCount(s, c)| && WithCount(s, c)[|WithCount(s[..i], c)|] == s[i]
  {
    assert s == s[..i] + ([s[i]] + s[i + 1..]);
    WithCountAppend(s[..i], [s[i]] + s[i + 1..], c);
    WithCountAppend([s[i]], s[i + 1..], c);
    assert WithCount([s[i]], c) == [s[i]] by {
      assert [s[i]][1..] == [];
    }
  }

  lemma {:induction false} WithCountGrows(s: seq<ModelSaleStats>, i: nat, j: nat, c: nat)
    requires i < j <= |s| && s[i].salesNumber == c
    ensures |WithCount(s[..i], c)| < |WithCount(s[..j], c)|
  {
    assert s[..j] == s[..i] + ([s[i]] + s[i + 1..j]);
    WithCountAppend(s[..i], [s[i]] + s[i + 1..j], c);
    WithCountAppend([s[i]], s[i + 1..j], c);
    assert [s[i]][1..] == [];
  }

  lemma {:induction false} WithCountNoRepeats(s: seq<ModelSaleStats>, c: nat)
    requires NoRepeats(s)
    ensures NoRepeats(WithCount(s, c)) && forall x :: x in WithCount(s, c) ==> x in s
    decreases |s|
  {
    if s != [] {
      assert NoRepeats(s[1..]) by {
        forall a, b | 0 <= a < b < |s[1..]| ensures s[1..][a] != s[1..][b] {
          assert s[1..][a] == s[a + 1] && s[1..][b] == s[b + 1];
        }
      }
      WithCountNoRepeats(s[1..], c);
      assert s[0] !in s[1..] by {
        forall a | 0 <= a < |s[1..]| ensures s[1..][a] != s[0] {
          assert s[1..][a] == s[a + 1];
        }
      }
      var w := WithCount(s, c);
      var rest := WithCount(s[1..], c);
      if s[0].salesNumber == c {
        assert w == [s[0]] + rest;
        forall a, b | 0 <= a < b < |w| ensures w[a] != w[b] {
          assert w[b] == rest[b - 1];
          if a > 0 { assert w[a] == rest[a - 1]; }
        }
      } else {
        assert w == rest;
      }
    }
  }

  /** Entries of the stats list are told apart by their keys, which come in first-seen order. */
  lemma {:induction false} StatsKeys(ks: seq<ModelKey>)
    ensures NoRepeats(Stats(Tally(ks)))
    ensures |Stats(Tally(ks))| == |FirstSeen(ks)|
    ensures forall a :: 0 <= a < |FirstSeen(ks)| ==> KeyOf(Stats(Tally(ks))[a]) == FirstSeen(ks)[a]
  {
    var t := Tally(ks);
    TallyKeys(ks);
    forall a | 0 <= a < |FirstSeen(ks)| ensures KeyOf(Stats(t)[a]) == FirstSeen(ks)[a] {
      assert Keys(t)[a] == t[a].0;
    }
  }

  /**
    Two entries the sort leaves with equal counts keep the order they had
    in the stats list.
   */
  lemma {:induction false} SortTieOrder(st: seq<ModelSaleStats>, i: nat, j: nat) returns (a: nat, b: nat)
    requires NoRepeats(st) && i < j < |SortDesc(st)|
    requires SortDesc(st)[i].salesNumber == SortDesc(st)[j].salesNumber
    ensures a < b < |st| && st[a] == SortDesc(st)[i] && st[b] == SortDesc(st)[j]
  {
    var sd := SortDesc(st);
    var c := sd[i].salesNumber;
    SortDescCorrect(st);
    SortKeepsEntries(st);
    assert sd[i] in st && sd[j] in st;
    a :| 0 <= a < |st| && st[a] == sd[i];
    b :| 0 <= b < |st| && st[b] == sd[j];
    var w := WithCount(st, c);
    WithCountNoRepeats(st, c);
    WithCountAt(sd, i, c);
    WithCountAt(sd, j, c);
    WithCountAt(st, a, c);
    WithCountAt(st, b, c);
    WithCountGrows(sd, i, j, c);
    assert |WithCount(st[..a], c)| == |WithCount(sd[..i], c)|;
    assert |WithCount(st[..b], c)| == |WithCount(sd[..j], c)|;
    if b < a {
      WithCountGrows(st, b, a, c);
    }
  }

  /**
    Ties in the result: entries with equal counts appear in the order their
    models were first counted (the sort is stable and the dict keeps
    first-encounter order), and a model left out with the same count as an
    entry shown was first counted after it.
   */
  lemma {:induction false} RankedTieOrder(ks: seq<ModelKey>)
    ensures forall i, j :: 0 <= i < j < |Ranked(ks)| && Ranked(ks)[i].salesNumber == Ranked(ks)[j].salesNumber ==>
      SeenBefore(ks, KeyOf(Ranked(ks)[i]), KeyOf(Ranked(ks)[j]))
    ensures forall k, e ::
      (k in ks && ModelSaleStats(k.0, k.1, Count(ks, k)) !in Ranked(ks) && e in Ranked(ks) && e.salesNumber == Count(ks, k))
      ==> SeenBefore(ks, KeyOf(e), k)
  {
    RankedTiesShown(ks);
    RankedTiesLeftOut(ks);
  }

  lemma {:induction false} RankedTiesShown(ks: seq<ModelKey>)
    ensures forall i, j :: 0 <= i < j < |Ranked(ks)| && Ranked(ks)[i].salesNumber == Ranked(ks)[j].salesNumber ==>
      SeenBefore(ks, KeyOf(Ranked(ks)[i]), KeyOf(Ranked(ks)[j]))
  {
    var st := Stats(Tally(ks));
    var sd := SortDesc(st);
    var r := Ranked(ks);
    StatsKeys(ks);
    forall i, j | 0 <= i < j < |r| && r[i].salesNumber == r[j].salesNumber
      ensures SeenBefore(ks, KeyOf(r[i]), KeyOf(r[j]))
    {
      assert r[i] == sd[i] && r[j] == sd[j];
      var a, b := SortTieOrder(st, i, j);
    }
  }

  lemma {:induction false} RankedTiesLeftOut(ks: seq<ModelKey>)
    ensures forall k, e ::
      (k in ks && ModelSaleStats(k.0, k.1, Count(ks, k)) !in Ranked(ks) && e in Ranked(ks) && e.salesNumber == Count(ks, k))
      ==> SeenBefore(ks, KeyOf(e), k)
  {
    forall k, e | k in ks && ModelSaleStats(k.0, k.1, Count(ks, k)) !in Ranked(ks) && e in Ranked(ks) && e.salesNumber == Count(ks, k)
      ensures SeenBefore(ks, KeyOf(e), k)
    {
      LeftOutTie(ks, k, e);
    }
  }

  lemma {:induction false} LeftOutTie(ks: seq<ModelKey>, k: ModelKey, e: ModelSaleStats)
    requires k in ks && ModelSaleStats(k.0, k.1, Count(ks, k)) !in Ranked(ks)
    requires e in Ranked(ks) && e.salesNumber == Count(ks, k)
    ensures SeenBefore(ks, KeyOf(e), k)
  {
    var st := Stats(Tally(ks));
    var sd := SortDesc(st);
    var r := Ranked(ks);
    StatsKeys(ks);
    StatsOfTally(ks);
    SortKeepsEntries(st);
    var x := ModelSaleStats(k.0, k.1, Count(ks, k));
    assert x in sd;
    var j :| 0 <= j < |sd| && sd[j] == x;
    var i :| 0 <= i < |r| && r[i] == e;
    assert sd[i] == e;
    assert x !in sd[..|r|];
    assert j >= |r|;
    var a, b := SortTieOrder(st, i, j);
    assert KeyOf(x) == k;
  }
}
