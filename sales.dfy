/** Sales over time and lifetime value: the daily revenue series in date
    order, and the per-user revenue ranked from the highest down, with its
    first ten entries. */
module Sales {
  import opened Grouping
  import opened Orders

  /** `groupby("purchase_date")["USD_PRICE"].sum()`, then
      `sort_values("purchase_date")`: one (day, total) pair per day that
      has a purchase. The group-by already yields ascending days, so the
      sort keeps the order. */
  function Daily(rows: seq<Order>): seq<(int, int)> {
    GroupBy(rows, DayKey, IntLess, AddPrice, 0)
  }

  /** Days strictly ascending, one per day with a purchase instant, each
      holding the total price of that day's rows; together they hold the
      revenue of every row with a purchase instant. */
  lemma DailyFacts(rows: seq<Order>)
    ensures var d := Daily(rows);
      && (forall i, j :: 0 <= i < j < |d| ==> d[i].0 < d[j].0)
      && KeysOf(d) == PresentKeys(rows, DayKey)
      && (forall i :: 0 <= i < |d| ==> d[i].1 == SumRows(rows, DayKey, Amount, Is(d[i].0)))
      && SumOf(d, Identity, Every()) == SumRows(rows, DayKey, Amount, Every())
  {
    var d := Daily(rows);
    IntLessIsOrder();
    GroupByAscending(rows, DayKey, IntLess, AddPrice, 0);
    GroupByKeys(rows, DayKey, IntLess, AddPrice, 0);
    forall i | 0 <= i < |d| ensures d[i].1 == SumRows(rows, DayKey, Amount, Is(d[i].0)) {
      FindAt(d, IntLess, 0, i);
      GroupByFind(rows, DayKey, IntLess, AddPrice, 0, d[i].0);
      ReduceIsSum(rows, DayKey, d[i].0);
    }
    assert Additive(AddPrice, Identity, Amount);
    GroupBySum(rows, DayKey, IntLess, AddPrice, 0, Identity, Amount, Every());
  }

  /** `groupby("USER_ID")["USD_PRICE"].sum()`, sorted by `LTV_USD`,
      highest first. */
  function Ltv(rows: seq<Order>): seq<(string, int)> {
    Ranked(rows, UserKey)
  }

  /** `ltv.head(10)`. */
  function TopCustomers(rows: seq<Order>): seq<(string, int)> {
    Head(Ltv(rows), 10)
  }

  /** The first ten are the ten highest-ranked users (all of them when
      there are fewer), and none of the rest spent more than any of them. */
  lemma TopCustomersFacts(rows: seq<Order>)
    ensures var l := Ltv(rows);
      var top := TopCustomers(rows);
      && |top| == (if |PresentKeys(rows, UserKey)| < 10 then |PresentKeys(rows, UserKey)| else 10)
      && top == l[..|top|]
      && (forall i, j :: 0 <= i < |top| <= j < |l| ==> top[i].1 >= l[j].1)
  {
    var l := Ltv(rows);
    RankedFacts(rows, UserKey);
    DistinctKeysCount(l);
  }
}
