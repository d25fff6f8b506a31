/** The group-by of the feature stage, as pandas runs it by default: rows
    whose key is missing are dropped, the groups come out in ascending key
    order, one per distinct key, and each group's value is a fold of its
    rows. Also the descending sort by value and the first-n prefix used for
    the leaderboards. A group-by result is a list of (key, value) pairs. */
module Grouping {
  import opened Options

  /** `less` is a strict total order on keys. */
  ghost predicate StrictTotalOrder<K(!new)>(less: (K, K) -> bool) {
    && (forall a :: !less(a, a))
    && (forall a, b, c :: less(a, b) && less(b, c) ==> less(a, c))
    && (forall a, b :: a != b ==> less(a, b) || less(b, a))
  }

  /** Keys strictly ascending, hence pairwise distinct. */
  ghost predicate Ascending<K, V>(g: seq<(K, V)>, less: (K, K) -> bool) {
    forall i, j :: 0 <= i < j < |g| ==> less(g[i].0, g[j].0)
  }

  /** Every key lies strictly above `b`. */
  ghost predicate AllAbove<K, V>(g: seq<(K, V)>, b: K, less: (K, K) -> bool) {
    forall i :: 0 <= i < |g| ==> less(b, g[i].0)
  }

  ghost predicate DistinctKeys<K, V>(g: seq<(K, V)>) {
    forall i, j :: 0 <= i < j < |g| ==> g[i].0 != g[j].0
  }

  ghost function KeysOf<K, V>(g: seq<(K, V)>): set<K> {
    set i | 0 <= i < |g| :: g[i].0
  }

  /** The keys of the rows that have one. */
  ghost function PresentKeys<T, K>(rows: seq<T>, key: T -> Option<K>): set<K> {
    set i | 0 <= i < |rows| && key(rows[i]).Some? :: key(rows[i]).value
  }

  /** Folds row `x` into the group of key `k`, opening the group at its
      place in key order when there is none yet. */
  function Upsert<T, K(==), V>(g: seq<(K, V)>, k: K, x: T, less: (K, K) -> bool, step: (V, T) -> V, zero: V): seq<(K, V)>
    decreases |g|
  {
    if g == [] then [(k, step(zero, x))]
    else if g[0].0 == k then [(k, step(g[0].1, x))] + g[1..]
    else if less(k, g[0].0) then [(k, step(zero, x))] + g
    else [g[0]] + Upsert(g[1..], k, x, less, step, zero)
  }

  /** `groupby(key).agg(...)`: one group per present key. */
  function GroupBy<T, K(==), V>(rows: seq<T>, key: T -> Option<K>, less: (K, K) -> bool, step: (V, T) -> V, zero: V): seq<(K, V)>
    decreases |rows|
  {
    if rows == [] then []
    else
      var g := GroupBy(rows[1..], key, less, step, zero);
      match key(rows[0])
      case None => g
      case Some(k) => Upsert(g, k, rows[0], less, step, zero)
  }

  /** The fold of the rows whose key is `k`: what its group should hold. */
  function Reduce<T, K(==), V>(rows: seq<T>, key: T -> Option<K>, k: K, step: (V, T) -> V, zero: V): V
    decreases |rows|
  {
    if rows == [] then zero
    else
      var v := Reduce(rows[1..], key, k, step, zero);
      if key(rows[0]) == Some(k) then step(v, rows[0]) else v
  }

  /** The value of the first group with key `k`, or `zero`. */
  function Find<K(==), V>(g: seq<(K, V)>, k: K, zero: V): V
    decreases |g|
  {
    if g == [] then zero
    else if g[0].0 == k then g[0].1
    else Find(g[1..], k, zero)
  }

  /** The total of `measure` over the groups whose key `sel` picks. */
  function SumOf<K, V>(g: seq<(K, V)>, measure: V -> int, sel: K -> bool): int
    decreases |g|
  {
    if g == [] then 0
    else (if sel(g[0].0) then measure(g[0].1) else 0) + SumOf(g[1..], measure, sel)
  }

  /** The total of `amount` over the rows whose key is present and picked
      by `sel`. */
  function SumRows<T, K>(rows: seq<T>, key: T -> Option<K>, amount: T -> int, sel: K -> bool): int
    decreases |rows|
  {
    if rows == [] then 0
    else
      var here := match key(rows[0]) case Some(k) => if sel(k) then amount(rows[0]) else 0 case None => 0;
      here + SumRows(rows[1..], key, amount, sel)
  }

  /** Picks the one key `k`. */
  function Is<K(==)>(k: K): K -> bool {
    x => x == k
  }

  /** Picks every key. */
  function Every<K>(): K -> bool {
    x => true
  }

  /** `step` adds `amount(x)` to what `measure` reads. */
  ghost predicate Additive<T(!new), V(!new)>(step: (V, T) -> V, measure: V -> int, amount: T -> int) {
    forall v, x :: measure(step(v, x)) == measure(v) + amount(x)
  }

  // ---------------------------------------------------------------------
  // Upsert

  lemma {:induction false} UpsertKeys<T, K, V>(g: seq<(K, V)>, k: K, x: T, less: (K, K) -> bool, step: (V, T) -> V, zero: V)
    ensures KeysOf(Upsert(g, k, x, less, step, zero)) == KeysOf(g) + {k}
    decreases |g|
  {
    var u := Upsert(g, k, x, less, step, zero);
    if g == [] {
    } else if g[0].0 == k {
      assert u[0].0 == g[0].0 && u[1..] == g[1..];
      KeysCons(u);
      KeysCons(g);
    } else if less(k, g[0].0) {
      assert u[1..] == g;
      KeysCons(u);
    } else {
      var rest := Upsert(g[1..], k, x, less, step, zero);
      UpsertKeys(g[1..], k, x, less, step, zero);
      assert u[1..] == rest;
      KeysCons(u);
      KeysCons(g);
    }
  }

  lemma KeysCons<K, V>(g: seq<(K, V)>)
    requires g != []
    ensures KeysOf(g) == {g[0].0} + KeysOf(g[1..])
  {
    forall k | k in KeysOf(g) ensures k in {g[0].0} + KeysOf(g[1..]) {
      var i :| 0 <= i < |g| && g[i].0 == k;
      if i > 0 {
        assert g[1..][i - 1].0 == k;
      }
    }
    forall k | k in KeysOf(g[1..]) ensures k in KeysOf(g) {
      var i :| 0 <= i < |g[1..]| && g[1..][i].0 == k;
      assert g[i + 1].0 == k;
    }
  }

  lemma {:induction false} UpsertAbove<T, K(!new), V>(g: seq<(K, V)>, b: K, k: K, x: T, less: (K, K) -> bool, step: (V, T) -> V, zero: V)
    requires AllAbove(g, b, less) && less(b, k)
    ensures AllAbove(Upsert(g, k, x, less, step, zero), b, less)
    decreases |g|
  {
    if g != [] && g[0].0 != k && !less(k, g[0].0) {
      UpsertAbove(g[1..], b, k, x, less, step, zero);
    }
  }

  lemma {:induction false} UpsertAscending<T, K(!new), V>(g: seq<(K, V)>, k: K, x: T, less: (K, K) -> bool, step: (V, T) -> V, zero: V)
    requires StrictTotalOrder(less) && Ascending(g, less)
    ensures Ascending(Upsert(g, k, x, less, step, zero), less)
    decreases |g|
  {
    var u := Upsert(g, k, x, less, step, zero);
    if g == [] {
    } else if g[0].0 == k {
      assert forall i :: 0 <= i < |u| ==> u[i].0 == g[i].0;
    } else if less(k, g[0].0) {
      assert forall i :: 1 <= i < |u| ==> u[i] == g[i - 1];
    } else {
      var rest := Upsert(g[1..], k, x, less, step, zero);
      UpsertAscending(g[1..], k, x, less, step, zero);
      assert AllAbove(g[1..], g[0].0, less);
      UpsertAbove(g[1..], g[0].0, k, x, less, step, zero);
      assert u == [g[0]] + rest;
      ConsAscending(g[0], rest, less);
    }
  }

  lemma ConsAscending<K, V>(p: (K, V), rest: seq<(K, V)>, less: (K, K) -> bool)
    requires Ascending(rest, less) && AllAbove(rest, p.0, less)
    ensures Ascending([p] + rest, less)
  {
    var u := [p] + rest;
    forall i, j | 0 <= i < j < |u| ensures less(u[i].0, u[j].0) {
      if i == 0 {
        assert u[j] == rest[j - 1];
      } else {
        assert u[i] == rest[i - 1] && u[j] == rest[j - 1];
      }
    }
  }

  lemma {:induction false} FindMissing<K, V>(g: seq<(K, V)>, k: K, zero: V)
    requires forall i :: 0 <= i < |g| ==> g[i].0 != k
    ensures Find(g, k, zero) == zero
    decreases |g|
  {
    if g != [] {
      FindMissing(g[1..], k, zero);
    }
  }

  lemma {:induction false} UpsertFind<T, K(!new), V>(g: seq<(K, V)>, k: K, x: T, less: (K, K) -> bool, step: (V, T) -> V, zero: V, k': K)
    requires StrictTotalOrder(less) && Ascending(g, less)
    ensures Find(Upsert(g, k, x, less, step, zero), k', zero) ==
      if k' == k then step(Find(g, k, zero), x) else Find(g, k', zero)
    decreases |g|
  {
    if g == [] {
    } else if g[0].0 == k {
    } else if less(k, g[0].0) {
      if k' == k {
        assert forall i :: 0 <= i < |g| ==> less(k, g[i].0);
        FindMissing(g, k, zero);
      }
    } else {
      UpsertFind(g[1..], k, x, less, step, zero, k');
    }
  }

  lemma {:induction false} UpsertSum<T(!new), K, V(!new)>(g: seq<(K, V)>, k: K, x: T, less: (K, K) -> bool, step: (V, T) -> V, zero: V,
                                                    measure: V -> int, amount: T -> int, sel: K -> bool)
    requires Additive(step, measure, amount) && measure(zero) == 0
    ensures SumOf(Upsert(g, k, x, less, step, zero), measure, sel) == SumOf(g, measure, sel) + (if sel(k) then amount(x) else 0)
    decreases |g|
  {
    var u := Upsert(g, k, x, less, step, zero);
    if g == [] {
      assert u[1..] == [];
    } else if g[0].0 == k {
      assert u[1..] == g[1..];
    } else if less(k, g[0].0) {
      assert u[1..] == g;
    } else {
      UpsertSum(g[1..], k, x, less, step, zero, measure, amount, sel);
      assert u[1..] == Upsert(g[1..], k, x, less, step, zero);
    }
  }

  // ---------------------------------------------------------------------
  // GroupBy

  /** Groups come out in strictly ascending key order. */
  lemma {:induction false} GroupByAscending<T, K(!new), V>(rows: seq<T>, key: T -> Option<K>, less: (K, K) -> bool, step: (V, T) -> V, zero: V)
    requires StrictTotalOrder(less)
    ensures Ascending(GroupBy(rows, key, less, step, zero), less)
    decreases |rows|
  {
    if rows != [] {
      GroupByAscending(rows[1..], key, less, step, zero);
      if key(rows[0]).Some? {
        UpsertAscending(GroupBy(rows[1..], key, less, step, zero), key(rows[0]).value, rows[0], less, step, zero);
      }
    }
  }

  lemma PresentKeysCons<T, K>(rows: seq<T>, key: T -> Option<K>)
    requires rows != []
    ensures PresentKeys(rows, key) ==
      PresentKeys(rows[1..], key) + (if key(rows[0]).Some? then {key(rows[0]).value} else {})
  {
    var tail := rows[1..];
    forall k | k in PresentKeys(rows, key)
      ensures k in PresentKeys(tail, key) + (if key(rows[0]).Some? then {key(rows[0]).value} else {})
    {
      var i :| 0 <= i < |rows| && key(rows[i]).Some? && key(rows[i]).value == k;
      if i > 0 {
        assert tail[i - 1] == rows[i];
      }
    }
    forall k | k in PresentKeys(tail, key) ensures k in PresentKeys(rows, key) {
      var i :| 0 <= i < |tail| && key(tail[i]).Some? && key(tail[i]).value == k;
      assert rows[i + 1] == tail[i];
    }
  }

  /** One group per distinct present key, and no other. */
  lemma {:induction false} GroupByKeys<T, K, V>(rows: seq<T>, key: T -> Option<K>, less: (K, K) -> bool, step: (V, T) -> V, zero: V)
    ensures KeysOf(GroupBy(rows, key, less, step, zero)) == PresentKeys(rows, key)
    decreases |rows|
  {
    if rows != [] {
      GroupByKeys(rows[1..], key, less, step, zero);
      PresentKeysCons(rows, key);
      if key(rows[0]).Some? {
        UpsertKeys(GroupBy(rows[1..], key, less, step, zero), key(rows[0]).value, rows[0], less, step, zero);
      }
    }
  }

  /** Looking a key up in the groups gives the fold of that key's rows. */
  lemma {:induction false} GroupByFind<T, K(!new), V>(rows: seq<T>, key: T -> Option<K>, less: (K, K) -> bool, step: (V, T) -> V, zero: V, k: K)
    requires StrictTotalOrder(less)
    ensures Find(GroupBy(rows, key, less, step, zero), k, zero) == Reduce(rows, key, k, step, zero)
    decreases |rows|
  {
    if rows != [] {
      var g := GroupBy(rows[1..], key, less, step, zero);
      GroupByFind(rows[1..], key, less, step, zero, k);
      if key(rows[0]).Some? {
        GroupByAscending(rows[1..], key, less, step, zero);
        UpsertFind(g, key(rows[0]).value, rows[0], less, step, zero, k);
      }
    }
  }

  lemma {:induction false} FindAt<K(!new), V>(g: seq<(K, V)>, less: (K, K) -> bool, zero: V, i: nat)
    requires StrictTotalOrder(less) && Ascending(g, less) && i < |g|
    ensures Find(g, g[i].0, zero) == g[i].1
    decreases i
  {
    if i > 0 {
      assert less(g[0].0, g[i].0);
      assert Ascending(g[1..], less);
      FindAt(g[1..], less, zero, i - 1);
    }
  }

  /** Every group holds the fold of exactly the rows with its key. */
  lemma GroupByValues<T, K(!new), V>(rows: seq<T>, key: T -> Option<K>, less: (K, K) -> bool, step: (V, T) -> V, zero: V)
    requires StrictTotalOrder(less)
    ensures var g := GroupBy(rows, key, less, step, zero);
      forall i :: 0 <= i < |g| ==> g[i].1 == Reduce(rows, key, g[i].0, step, zero)
  {
    var g := GroupBy(rows, key, less, step, zero);
    GroupByAscending(rows, key, less, step, zero);
    forall i | 0 <= i < |g| ensures g[i].1 == Reduce(rows, key, g[i].0, step, zero) {
      FindAt(g, less, zero, i);
      GroupByFind(rows, key, less, step, zero, g[i].0);
    }
  }

  /** Conservation: for an additive fold, the groups picked by `sel` hold
      together what the rows with those keys carry. */
  lemma {:induction false} GroupBySum<T(!new), K, V(!new)>(rows: seq<T>, key: T -> Option<K>, less: (K, K) -> bool, step: (V, T) -> V, zero: V,
                                                     measure: V -> int, amount: T -> int, sel: K -> bool)
    requires Additive(step, measure, amount) && measure(zero) == 0
    ensures SumOf(GroupBy(rows, key, less, step, zero), measure, sel) == SumRows(rows, key, amount, sel)
    decreases |rows|
  {
    if rows != [] {
      GroupBySum(rows[1..], key, less, step, zero, measure, amount, sel);
      if key(rows[0]).Some? {
        UpsertSum(GroupBy(rows[1..], key, less, step, zero), key(rows[0]).value, rows[0], less, step, zero, measure, amount, sel);
      }
    }
  }

  // ---------------------------------------------------------------------
  // Descending sort and prefix

  /** `sort_values(ascending=False)` on the value's score. */
  ghost predicate NonIncreasing<K, V>(s: seq<(K, V)>, score: V -> int) {
    forall i, j :: 0 <= i < j < |s| ==> score(s[i].1) >= score(s[j].1)
  }

  function InsertDesc<K, V>(x: (K, V), s: seq<(K, V)>, score: V -> int): seq<(K, V)>
    decreases |s|
  {
    if s == [] || score(x.1) >= score(s[0].1) then [x] + s
    else [s[0]] + InsertDesc(x, s[1..], score)
  }

  /** Sorts by descending score. Ties keep no particular order that the
      contracts promise. */
  function SortDesc<K, V>(g: seq<(K, V)>, score: V -> int): seq<(K, V)>
    decreases |g|
  {
    if g == [] then [] else InsertDesc(g[0], SortDesc(g[1..], score), score)
  }

  lemma {:induction false} InsertDescPermutes<K, V>(x: (K, V), s: seq<(K, V)>, score: V -> int)
    ensures multiset(InsertDesc(x, s, score)) == multiset(s) + multiset{x}
    decreases |s|
  {
    var r := InsertDesc(x, s, score);
    if s == [] || score(x.1) >= score(s[0].1) {
    } else {
      InsertDescPermutes(x, s[1..], score);
      assert s == [s[0]] + s[1..];
    }
  }

  lemma {:induction false} InsertDescOrdered<K, V>(x: (K, V), s: seq<(K, V)>, score: V -> int)
    requires NonIncreasing(s, score)
    ensures NonIncreasing(InsertDesc(x, s, score), score)
    decreases |s|
  {
    var r := InsertDesc(x, s, score);
    if s == [] || score(x.1) >= score(s[0].1) {
      assert forall j :: 1 <= j < |r| ==> r[j] == s[j - 1];
    } else {
      var rest := InsertDesc(x, s[1..], score);
      InsertDescOrdered(x, s[1..], score);
      InsertDescPermutes(x, s[1..], score);
      assert r == [s[0]] + rest;
      forall j | 0 <= j < |rest| ensures score(s[0].1) >= score(rest[j].1) {
        assert rest[j] in multiset(rest);
        if rest[j] != x {
          assert rest[j] in multiset(s[1..]);
          var m :| 0 <= m < |s[1..]| && s[1..][m] == rest[j];
          assert s[m + 1] == rest[j];
        }
      }
      forall i, j | 0 <= i < j < |r| ensures score(r[i].1) >= score(r[j].1) {
        assert r[j] == rest[j - 1];
        if i > 0 {
          assert r[i] == rest[i - 1];
        }
      }
    }
  }

  lemma {:induction false} InsertDescSum<K, V>(x: (K, V), s: seq<(K, V)>, score: V -> int, measure: V -> int, sel: K -> bool)
    ensures SumOf(InsertDesc(x, s, score), measure, sel) == SumOf([x], measure, sel) + SumOf(s, measure, sel)
    decreases |s|
  {
    var r := InsertDesc(x, s, score);
    if s == [] || score(x.1) >= score(s[0].1) {
      assert r[1..] == s;
    } else {
      InsertDescSum(x, s[1..], score, measure, sel);
      assert r[1..] == InsertDesc(x, s[1..], score);
    }
  }

  /** The sorted list is a permutation of its input. */
  lemma {:induction false} SortDescPermutes<K, V>(g: seq<(K, V)>, score: V -> int)
    ensures multiset(SortDesc(g, score)) == multiset(g)
    decreases |g|
  {
    if g != [] {
      SortDescPermutes(g[1..], score);
      InsertDescPermutes(g[0], SortDesc(g[1..], score), score);
      assert g == [g[0]] + g[1..];
    }
  }

  /** The sorted list is in non-increasing score order. */
  lemma {:induction false} SortDescOrdered<K, V>(g: seq<(K, V)>, score: V -> int)
    ensures NonIncreasing(SortDesc(g, score), score)
    decreases |g|
  {
    if g != [] {
      SortDescOrdered(g[1..], score);
      InsertDescOrdered(g[0], SortDesc(g[1..], score), score);
    }
  }

  /** Sorting keeps every total. */
  lemma {:induction false} SortDescSum<K, V>(g: seq<(K, V)>, score: V -> int, measure: V -> int, sel: K -> bool)
    ensures SumOf(SortDesc(g, score), measure, sel) == SumOf(g, measure, sel)
    decreases |g|
  {
    if g != [] {
      SortDescSum(g[1..], score, measure, sel);
      InsertDescSum(g[0], SortDesc(g[1..], score), score, measure, sel);
    }
  }

  lemma DistinctHead<K, V>(g: seq<(K, V)>)
    requires g != [] && DistinctKeys(g)
    ensures DistinctKeys(g[1..]) && g[0].0 !in KeysOf(g[1..])
  {
    forall m | 0 <= m < |g[1..]| ensures g[1..][m].0 != g[0].0 {
      assert g[1..][m] == g[m + 1];
    }
  }

  lemma ConsDistinct<K, V>(p: (K, V), rest: seq<(K, V)>)
    requires DistinctKeys(rest) && p.0 !in KeysOf(rest)
    ensures DistinctKeys([p] + rest)
  {
    var u := [p] + rest;
    forall i, j | 0 <= i < j < |u| ensures u[i].0 != u[j].0 {
      assert u[j] == rest[j - 1];
      if i > 0 {
        assert u[i] == rest[i - 1];
      }
    }
  }

  lemma {:induction false} InsertDescKeys<K, V>(x: (K, V), s: seq<(K, V)>, score: V -> int)
    ensures KeysOf(InsertDesc(x, s, score)) == {x.0} + KeysOf(s)
    ensures DistinctKeys(s) && x.0 !in KeysOf(s) ==> DistinctKeys(InsertDesc(x, s, score))
    decreases |s|
  {
    var r := InsertDesc(x, s, score);
    if s == [] || score(x.1) >= score(s[0].1) {
      assert r[1..] == s;
      KeysCons(r);
      if DistinctKeys(s) && x.0 !in KeysOf(s) {
        ConsDistinct(x, s);
      }
    } else {
      var rest := InsertDesc(x, s[1..], score);
      InsertDescKeys(x, s[1..], score);
      assert r[1..] == rest;
      KeysCons(r);
      KeysCons(s);
      if DistinctKeys(s) && x.0 !in KeysOf(s) {
        DistinctHead(s);
        ConsDistinct(s[0], rest);
      }
    }
  }

  /** Sorting keeps the key set, and keeps distinct keys distinct. */
  lemma {:induction false} SortDescKeys<K, V>(g: seq<(K, V)>, score: V -> int)
    ensures KeysOf(SortDesc(g, score)) == KeysOf(g)
    ensures DistinctKeys(g) ==> DistinctKeys(SortDesc(g, score))
    decreases |g|
  {
    if g != [] {
      SortDescKeys(g[1..], score);
      InsertDescKeys(g[0], SortDesc(g[1..], score), score);
      KeysCons(g);
      if DistinctKeys(g) {
        DistinctHead(g);
      }
    }
  }

  /** With distinct keys there are as many keys as entries. */
  lemma {:induction false} DistinctKeysCount<K, V>(g: seq<(K, V)>)
    requires DistinctKeys(g)
    ensures |KeysOf(g)| == |g|
    decreases |g|
  {
    if g != [] {
      DistinctHead(g);
      DistinctKeysCount(g[1..]);
      KeysCons(g);
    }
  }

  /** Strictly ascending keys are distinct. */
  lemma AscendingDistinct<K(!new), V>(g: seq<(K, V)>, less: (K, K) -> bool)
    requires StrictTotalOrder(less) && Ascending(g, less)
    ensures DistinctKeys(g)
  {
    forall i, j | 0 <= i < j < |g| ensures g[i].0 != g[j].0 {
      assert less(g[i].0, g[j].0);
    }
  }

  /** `head(n)`: the first min(n, |s|) entries. */
  function Head<E>(s: seq<E>, n: nat): (r: seq<E>)
    ensures |r| == if |s| < n then |s| else n
    ensures r == s[..|r|]
  {
    if |s| < n then s else s[..n]
  }
}
