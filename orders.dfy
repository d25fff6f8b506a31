/** The cleaned order table as the feature stage reads it: one record per
    row, with the columns the three analyses use, after their own coercions
    (`to_datetime(errors="coerce")`, `to_numeric(errors="coerce")`), so a
    value that did not convert is missing. Also the key orders pandas sorts
    groups by, and the calendar month of an instant. */
module Orders {
  import opened Options
  import opened Grouping
  import Cleaning

  /** One order row. `purchase` is seconds since the Unix epoch (UTC);
      `price` is `USD_PRICE` in cents. */
  datatype Order = Order(
    orderId: Option<string>,
    userId: Option<string>,
    product: Option<string>,
    purchase: Option<int>,
    price: Option<int>)

  /** What a row adds to a `sum`: a missing price adds nothing. */
  function Amount(o: Order): int {
    o.price.GetOr(0)
  }

  /** The fold step of `["USD_PRICE"].sum()`. */
  function AddPrice(total: int, o: Order): int
  {
    total + Amount(o)
  }

  // ---------------------------------------------------------------------
  // Key orders

  /** Python's `<` on strings: code point by code point, a proper prefix
      first. */
  predicate StrLess(a: string, b: string)
    decreases |a|
  {
    if a == [] then b != []
    else if b == [] then false
    else if a[0] != b[0] then a[0] < b[0]
    else StrLess(a[1..], b[1..])
  }

  lemma {:induction false} StrLessIrreflexive(a: string)
    ensures !StrLess(a, a)
    decreases |a|
  {
    if a != [] {
      StrLessIrreflexive(a[1..]);
    }
  }

  lemma {:induction false} StrLessTransitive(a: string, b: string, c: string)
    requires StrLess(a, b) && StrLess(b, c)
    ensures StrLess(a, c)
    decreases |a|
  {
    if a != [] && a[0] == b[0] && b[0] == c[0] {
      StrLessTransitive(a[1..], b[1..], c[1..]);
    }
  }

  lemma {:induction false} StrLessTotal(a: string, b: string)
    requires a != b
    ensures StrLess(a, b) || StrLess(b, a)
    decreases |a|
  {
    if a != [] && b != [] && a[0] == b[0] {
      assert a == [a[0]] + a[1..] && b == [b[0]] + b[1..];
      StrLessTotal(a[1..], b[1..]);
    }
  }

  /** String order is a strict total order, so string-keyed groups are
      ordered and distinct. */
  lemma StrLessIsOrder()
    ensures StrictTotalOrder(StrLess)
  {
    forall a ensures !StrLess(a, a) {
      StrLessIrreflexive(a);
    }
    forall a, b, c | StrLess(a, b) && StrLess(b, c) ensures StrLess(a, c) {
      StrLessTransitive(a, b, c);
    }
    forall a, b | a != b ensures StrLess(a, b) || StrLess(b, a) {
      StrLessTotal(a, b);
    }
  }

  predicate IntLess(a: int, b: int) {
    a < b
  }

  lemma IntLessIsOrder()
    ensures StrictTotalOrder(IntLess)
  {
  }

  /** The order of a two-level key `(month, product)`: month first. */
  predicate PairLess(a: (int, string), b: (int, string)) {
    a.0 < b.0 || (a.0 == b.0 && StrLess(a.1, b.1))
  }

  lemma PairLessIsOrder()
    ensures StrictTotalOrder(PairLess)
  {
    StrLessIsOrder();
  }

  // ---------------------------------------------------------------------
  // Group keys

  function UserKey(o: Order): Option<string> {
    o.userId
  }

  function ProductKey(o: Order): Option<string> {
    o.product
  }

  /** `PURCHASE_TS.dt.date`: missing when the instant is. */
  function DayKey(o: Order): Option<int> {
    match o.purchase
    case None => None
    case Some(t) => Some(Cleaning.DayOf(t))
  }

  /** The group of key `k` under `["USD_PRICE"].sum()` holds the total
      price of the rows with key `k`, missing prices counting nothing. */
  lemma {:induction false} ReduceIsSum<K>(rows: seq<Order>, key: Order -> Option<K>, k: K)
    ensures Reduce(rows, key, k, AddPrice, 0) == SumRows(rows, key, Amount, Is(k))
    decreases |rows|
  {
    if rows != [] {
      ReduceIsSum(rows[1..], key, k);
    }
  }

  // ---------------------------------------------------------------------
  // Revenue per key

  function Identity(v: int): int {
    v
  }

  /** `groupby(key)["USD_PRICE"].sum()` on a string column. */
  function Totals(rows: seq<Order>, key: Order -> Option<string>): seq<(string, int)> {
    GroupBy(rows, key, StrLess, AddPrice, 0)
  }

  /** The same table after `sort_values(..., ascending=False)`. */
  function Ranked(rows: seq<Order>, key: Order -> Option<string>): seq<(string, int)> {
    SortDesc(Totals(rows, key), Identity)
  }

  /** One entry per present key, holding the total price of that key's
      rows; together they hold the revenue of every row with a key. */
  lemma TotalsFacts(rows: seq<Order>, key: Order -> Option<string>)
    ensures var g := Totals(rows, key);
      && DistinctKeys(g)
      && KeysOf(g) == PresentKeys(rows, key)
      && (forall i :: 0 <= i < |g| ==> g[i].1 == SumRows(rows, key, Amount, Is(g[i].0)))
      && SumOf(g, Identity, Every()) == SumRows(rows, key, Amount, Every())
  {
    var g := Totals(rows, key);
    StrLessIsOrder();
    GroupByAscending(rows, key, StrLess, AddPrice, 0);
    AscendingDistinct(g, StrLess);
    GroupByKeys(rows, key, StrLess, AddPrice, 0);
    forall i | 0 <= i < |g| ensures g[i].1 == SumRows(rows, key, Amount, Is(g[i].0)) {
      FindAt(g, StrLess, 0, i);
      GroupByFind(rows, key, StrLess, AddPrice, 0, g[i].0);
      ReduceIsSum(rows, key, g[i].0);
    }
    assert Additive(AddPrice, Identity, Amount);
    GroupBySum(rows, key, StrLess, AddPrice, 0, Identity, Amount, Every());
  }

  /** The ranking lists every present key exactly once, from the highest
      total down, each with the total price of its rows, and loses no
      revenue. */
  lemma RankedFacts(rows: seq<Order>, key: Order -> Option<string>)
    ensures var l := Ranked(rows, key);
      && multiset(l) == multiset(Totals(rows, key))
      && NonIncreasing(l, Identity)
      && DistinctKeys(l)
      && KeysOf(l) == PresentKeys(rows, key)
      && (forall i :: 0 <= i < |l| ==> l[i].1 == SumRows(rows, key, Amount, Is(l[i].0)))
      && SumOf(l, Identity, Every()) == SumRows(rows, key, Amount, Every())
  {
    var g := Totals(rows, key);
    var l := Ranked(rows, key);
    TotalsFacts(rows, key);
    SortDescPermutes(g, Identity);
    SortDescOrdered(g, Identity);
    SortDescKeys(g, Identity);
    SortDescSum(g, Identity, Identity, Every());
    forall i | 0 <= i < |l| ensures l[i].1 == SumRows(rows, key, Amount, Is(l[i].0)) {
      assert l[i] in multiset(g);
    }
  }

  // ---------------------------------------------------------------------
  // Calendar

  /** The proleptic Gregorian (year, month) of a day count since
      1970-01-01, by the era arithmetic of the civil calendar. */
  function CivilMonth(day: int): (int, int) {
    var z := day + 719468;
    var era := z / 146097;
    var doe := z - era * 146097;
    var yoe := (doe - doe / 1460 + doe / 36524 - doe / 146096) / 365;
    var doy := doe - (365 * yoe + yoe / 4 - yoe / 100);
    var mp := (5 * doy + 2) / 153;
    var m := if mp < 10 then mp + 3 else mp - 9;
    (yoe + era * 400 + (if m <= 2 then 1 else 0), m)
  }

  /** `.dt.to_period("M")` of an instant, as a month count `12 * year +
      month - 1` of the UTC calendar date. */
  function MonthOf(t: int): int {
    var ym := CivilMonth(Cleaning.DayOf(t));
    12 * ym.0 + ym.1 - 1
  }

  /** The epoch falls in January 1970. */
  lemma MonthOfEpoch()
    ensures MonthOf(0) == 12 * 1970
  {
    assert 719468 / 146097 == 4;
    assert 135080 / 1460 == 92 && 135080 / 36524 == 3 && 135080 / 146096 == 0;
    assert 134991 / 365 == 369 && 369 / 4 == 92 && 369 / 100 == 3;
    assert 1532 / 153 == 10;
    assert CivilMonth(0) == (1970, 1);
  }

  /** The second before the epoch falls in December 1969. */
  lemma MonthBeforeEpoch()
    ensures MonthOf(-1) == 12 * 1969 + 11
  {
    assert -1 / 86400 == -1;
    assert 719467 / 146097 == 4;
    assert 135079 / 1460 == 92 && 135079 / 36524 == 3 && 135079 / 146096 == 0;
    assert 134990 / 365 == 369 && 369 / 4 == 92 && 369 / 100 == 3;
    assert 1527 / 153 == 9;
    assert CivilMonth(-1) == (1969, 12);
  }

  /** 2020-02-29T23:59:59Z is in February of a leap year. */
  lemma MonthOfLeapDay()
    ensures MonthOf(1583020799) == 12 * 2020 + 1
  {
    assert 1583020799 / 86400 == 18321;
    assert 737789 / 146097 == 5;
    assert 7304 / 1460 == 5 && 7304 / 36524 == 0 && 7304 / 146096 == 0;
    assert 7299 / 365 == 19 && 19 / 4 == 4 && 19 / 100 == 0;
    assert 1827 / 153 == 11;
    assert CivilMonth(18321) == (2020, 2);
  }

  /** One second later, 2020-03-01T00:00:00Z, is in March. */
  lemma MonthAfterLeapDay()
    ensures MonthOf(1583020800) == 12 * 2020 + 2
  {
    assert 1583020800 / 86400 == 18322;
    assert 737790 / 146097 == 5;
    assert 7305 / 1460 == 5 && 7305 / 36524 == 0 && 7305 / 146096 == 0;
    assert 7300 / 365 == 20 && 20 / 4 == 5 && 20 / 100 == 0;
    assert 2 / 153 == 0;
    assert CivilMonth(18322) == (2020, 3);
  }
}
