/** Product insights: revenue per product ranked from the highest down,
    the five leading products, and the monthly revenue of each of them. */
module Products {
  import opened Options
  import opened Grouping
  import opened Orders

  /** `groupby("PRODUCT_NAME")["USD_PRICE"].sum()`, sorted by
      `total_sales_usd`, highest first. */
  function ProductSales(rows: seq<Order>): seq<(string, int)> {
    Ranked(rows, ProductKey)
  }

  /** The total price of the rows of product `p`. */
  function ProductTotal(rows: seq<Order>, p: string): int {
    SumRows(rows, ProductKey, Amount, Is(p))
  }

  /** The key column of a table, in order. */
  function Names(s: seq<(string, int)>): (names: seq<string>)
    ensures |names| == |s|
    ensures forall i :: 0 <= i < |s| ==> names[i] == s[i].0
  {
    seq(|s|, i requires 0 <= i < |s| => s[i].0)
  }

  /** `product_sales.head(5)["PRODUCT_NAME"].tolist()`. */
  function TopProducts(rows: seq<Order>): seq<string> {
    Names(Head(ProductSales(rows), 5))
  }

  /** Five distinct products (all of them when there are fewer), each a
      product of some row. */
  lemma TopProductsFacts(rows: seq<Order>)
    ensures var top := TopProducts(rows);
      var all := PresentKeys(rows, ProductKey);
      && |top| == (if |all| < 5 then |all| else 5)
      && (forall i, j :: 0 <= i < j < |top| ==> top[i] != top[j])
      && (forall p :: p in top ==> p in all)
  {
    var ps := ProductSales(rows);
    var top := TopProducts(rows);
    var all := PresentKeys(rows, ProductKey);
    RankedFacts(rows, ProductKey);
    DistinctKeysCount(ps);
    forall p | p in top ensures p in all {
      var i :| 0 <= i < |top| && top[i] == p;
      assert ps[i].0 == p;
    }
  }

  /** No product outside the top five earned more than any inside it. */
  lemma TopProductsLead(rows: seq<Order>, p: string, q: string)
    requires p in TopProducts(rows)
    requires q in PresentKeys(rows, ProductKey) && q !in TopProducts(rows)
    ensures ProductTotal(rows, p) >= ProductTotal(rows, q)
  {
    var ps := ProductSales(rows);
    var top := TopProducts(rows);
    RankedFacts(rows, ProductKey);
    var i :| 0 <= i < |top| && top[i] == p;
    assert q in KeysOf(ps);
    var j :| 0 <= j < |ps| && ps[j].0 == q;
    assert forall m :: 0 <= m < |top| ==> ps[m].0 == top[m] && top[m] in top;
    assert j >= |top|;
    assert ps[i].1 >= ps[j].1;
  }

  /** `df[df["PRODUCT_NAME"].isin(top)]`: the rows whose product is listed,
      in their order. A missing product is never listed. */
  function KeepProducts(rows: seq<Order>, top: seq<string>): (kept: seq<Order>)
    ensures |kept| <= |rows|
    decreases |rows|
  {
    if rows == [] then []
    else
      var rest := KeepProducts(rows[1..], top);
      if rows[0].product.Some? && rows[0].product.value in top then [rows[0]] + rest else rest
  }

  /** `isin` keeps exactly the rows with a listed product. */
  lemma {:induction false} KeepProductsMembers(rows: seq<Order>, top: seq<string>)
    ensures forall o :: o in KeepProducts(rows, top) <==> o in rows && o.product.Some? && o.product.value in top
    decreases |rows|
  {
    if rows != [] {
      KeepProductsMembers(rows[1..], top);
      assert rows == [rows[0]] + rows[1..];
    }
  }

  /** The (month, product) key of a row; missing when either part is. */
  function TrendKey(o: Order): Option<(int, string)> {
    if o.purchase.Some? && o.product.Some? then Some((MonthOf(o.purchase.value), o.product.value)) else None
  }

  /** Picks the keys of product `p`. */
  function OfProduct(p: string): ((int, string)) -> bool {
    (k: (int, string)) => k.1 == p
  }

  /** `groupby(["month", "PRODUCT_NAME"])["USD_PRICE"].sum()` over the rows
      of the top products. */
  function Trends(rows: seq<Order>): seq<((int, string), int)> {
    GroupBy(KeepProducts(rows, TopProducts(rows)), TrendKey, PairLess, AddPrice, 0)
  }

  /** Filtering to the listed products changes no total that only counts
      listed products. */
  lemma {:induction false} KeepProductsSum(rows: seq<Order>, top: seq<string>, sel: ((int, string)) -> bool)
    requires forall k :: sel(k) ==> k.1 in top
    ensures SumRows(KeepProducts(rows, top), TrendKey, Amount, sel) == SumRows(rows, TrendKey, Amount, sel)
    decreases |rows|
  {
    if rows != [] {
      KeepProductsSum(rows[1..], top, sel);
    }
  }

  lemma KeepProductsKeys(rows: seq<Order>, top: seq<string>)
    ensures PresentKeys(KeepProducts(rows, top), TrendKey) == set k | k in PresentKeys(rows, TrendKey) && k.1 in top
  {
    var kept := KeepProducts(rows, top);
    KeepProductsMembers(rows, top);
    forall k | k in PresentKeys(kept, TrendKey) ensures k in PresentKeys(rows, TrendKey) && k.1 in top {
      var i :| 0 <= i < |kept| && TrendKey(kept[i]).Some? && TrendKey(kept[i]).value == k;
      assert kept[i] in kept;
      var m :| 0 <= m < |rows| && rows[m] == kept[i];
    }
    forall k | k in PresentKeys(rows, TrendKey) && k.1 in top ensures k in PresentKeys(kept, TrendKey) {
      var m :| 0 <= m < |rows| && TrendKey(rows[m]).Some? && TrendKey(rows[m]).value == k;
      assert rows[m] in rows;
      var i :| 0 <= i < |kept| && kept[i] == rows[m];
    }
  }

  /** The trend table: (month, product) keys ascending by month, then
      product; exactly the pairs of the rows of a top product with a
      purchase instant; each holding the revenue of its month and product;
      and for each top product, its months together hold all of its
      revenue from rows with a purchase instant. */
  lemma TrendsFacts(rows: seq<Order>)
    ensures var t := Trends(rows);
      var top := TopProducts(rows);
      && (forall i, j :: 0 <= i < j < |t| ==> PairLess(t[i].0, t[j].0))
      && KeysOf(t) == set k | k in PresentKeys(rows, TrendKey) && k.1 in top
      && (forall i :: 0 <= i < |t| ==> t[i].0.1 in top)
      && (forall i :: 0 <= i < |t| ==> t[i].1 == SumRows(rows, TrendKey, Amount, Is(t[i].0)))
      && (forall p :: p in top ==> SumOf(t, Identity, OfProduct(p)) == SumRows(rows, TrendKey, Amount, OfProduct(p)))
  {
    var top := TopProducts(rows);
    var kept := KeepProducts(rows, top);
    var t := Trends(rows);
    PairLessIsOrder();
    GroupByAscending(kept, TrendKey, PairLess, AddPrice, 0);
    GroupByKeys(kept, TrendKey, PairLess, AddPrice, 0);
    KeepProductsKeys(rows, top);
    forall i | 0 <= i < |t| ensures t[i].0.1 in top && t[i].1 == SumRows(rows, TrendKey, Amount, Is(t[i].0)) {
      assert t[i].0 in KeysOf(t);
      FindAt(t, PairLess, 0, i);
      GroupByFind(kept, TrendKey, PairLess, AddPrice, 0, t[i].0);
      ReduceIsSum(kept, TrendKey, t[i].0);
      KeepProductsSum(rows, top, Is(t[i].0));
    }
    assert Additive(AddPrice, Identity, Amount);
    forall p | p in top ensures SumOf(t, Identity, OfProduct(p)) == SumRows(rows, TrendKey, Amount, OfProduct(p)) {
      GroupBySum(kept, TrendKey, PairLess, AddPrice, 0, Identity, Amount, OfProduct(p));
      KeepProductsSum(rows, top, OfProduct(p));
    }
  }
}
