/** The churn indicators: a snapshot instant, then one RFM row per user
    (last purchase, number of distinct orders, total spend), the whole days
    from the last purchase to the snapshot, and a churn flag for users idle
    more than the threshold. */
module Churn {
  import opened Options
  import opened Grouping
  import opened Orders
  import Cleaning

  /** Days of inactivity beyond which a user counts as churned. */
  const CHURN_THRESHOLD_DAYS: int := 90

  /** What the per-user aggregation accumulates: the `max` of the
      purchase instants, the set whose size is `nunique` of the order ids,
      and the `sum` of the prices. */
  datatype Activity = Activity(last: Option<int>, orders: set<string>, spent: int)

  const NoActivity: Activity := Activity(None, {}, 0)

  /** Folds one of the user's rows into the aggregation. Missing instants
      and missing order ids are skipped, as `max` and `nunique` skip them. */
  function Absorb(a: Activity, o: Order): Activity {
    Activity(
      MaxOption(a.last, o.purchase),
      if o.orderId.Some? then a.orders + {o.orderId.value} else a.orders,
      a.spent + Amount(o))
  }

  function Spent(a: Activity): int {
    a.spent
  }

  /** `r` is the largest element of `s`, and is missing exactly when `s`
      is empty. */
  ghost predicate IsMaxOf(r: Option<int>, s: set<int>) {
    && (r.None? <==> s == {})
    && (r.Some? ==> r.value in s && forall t :: t in s ==> t <= r.value)
  }

  function Purchase(o: Order): Option<int> {
    o.purchase
  }

  /** The purchase instant of a row of user `u`. */
  function PurchaseBy(u: string): Order -> Option<int> {
    (o: Order) => if o.userId == Some(u) then o.purchase else None
  }

  /** The order id of a row of user `u`. */
  function OrderBy(u: string): Order -> Option<string> {
    (o: Order) => if o.userId == Some(u) then o.orderId else None
  }

  lemma MaxOptionExtends(p: Option<int>, r: Option<int>, s: set<int>)
    requires IsMaxOf(r, s)
    ensures IsMaxOf(MaxOption(r, p), s + (if p.Some? then {p.value} else {}))
  {
  }

  /** `df["PURCHASE_TS"].max()`: the latest purchase instant of any row,
      missing when no row has one. */
  function Snapshot(rows: seq<Order>): (snapshot: Option<int>)
    ensures IsMaxOf(snapshot, PresentKeys(rows, Purchase))
    decreases |rows|
  {
    if rows == [] then None
    else
      var rest := Snapshot(rows[1..]);
      PresentKeysCons(rows, Purchase);
      MaxOptionExtends(rows[0].purchase, rest, PresentKeys(rows[1..], Purchase));
      MaxOption(rest, rows[0].purchase)
  }

  /** The aggregation of one user is the latest of their instants, the set
      of their order ids and the total of their prices. */
  lemma {:induction false} ReduceActivity(rows: seq<Order>, u: string)
    ensures var a := Reduce(rows, UserKey, u, Absorb, NoActivity);
      && IsMaxOf(a.last, PresentKeys(rows, PurchaseBy(u)))
      && a.orders == PresentKeys(rows, OrderBy(u))
      && a.spent == SumRows(rows, UserKey, Amount, Is(u))
    decreases |rows|
  {
    if rows != [] {
      var a := Reduce(rows[1..], UserKey, u, Absorb, NoActivity);
      ReduceActivity(rows[1..], u);
      PresentKeysCons(rows, PurchaseBy(u));
      PresentKeysCons(rows, OrderBy(u));
      if rows[0].userId == Some(u) {
        MaxOptionExtends(rows[0].purchase, a.last, PresentKeys(rows[1..], PurchaseBy(u)));
      }
    }
  }

  /** A user's instants are among all instants. */
  lemma UserInstantsWithin(rows: seq<Order>, u: string)
    ensures PresentKeys(rows, PurchaseBy(u)) <= PresentKeys(rows, Purchase)
  {
    forall t | t in PresentKeys(rows, PurchaseBy(u)) ensures t in PresentKeys(rows, Purchase) {
      var i :| 0 <= i < |rows| && PurchaseBy(u)(rows[i]).Some? && PurchaseBy(u)(rows[i]).value == t;
      assert Purchase(rows[i]) == Some(t);
    }
  }

  /** The number of rows of user `u`. */
  function UserRowCount(rows: seq<Order>, u: string): nat
    decreases |rows|
  {
    if rows == [] then 0
    else (if rows[0].userId == Some(u) then 1 else 0) + UserRowCount(rows[1..], u)
  }

  /** A user has no more distinct order ids than rows. */
  lemma {:induction false} FrequencyBound(rows: seq<Order>, u: string)
    ensures |PresentKeys(rows, OrderBy(u))| <= UserRowCount(rows, u)
    decreases |rows|
  {
    if rows != [] {
      FrequencyBound(rows[1..], u);
      PresentKeysCons(rows, OrderBy(u));
    }
  }

  // ---------------------------------------------------------------------
  // RFM table

  datatype RfmRow = RfmRow(
    userId: string,
    lastPurchase: Option<int>,
    frequency: nat,
    monetaryValue: int,
    recencyDays: Option<int>,
    churned: int)

  /** `(snapshot - last_purchase).dt.days`: whole days, rounded down;
      missing when either side is. */
  function RecencyDays(snapshot: Option<int>, last: Option<int>): Option<int> {
    if snapshot.Some? && last.Some? then Some(Cleaning.DayOf(snapshot.value - last.value))
    else None
  }

  /** `(recency_days > 90).astype(int)`: a missing recency compares false. */
  function Churned(recency: Option<int>): int {
    if recency.Some? && recency.value > CHURN_THRESHOLD_DAYS then 1 else 0
  }

  /** The churn boundary in seconds: exactly 90 days (or 90 days and any
      part of a day) of inactivity is not churn, 91 whole days is. */
  lemma ChurnBoundary(snapshot: int, last: int)
    ensures Churned(RecencyDays(Some(snapshot), Some(last))) ==
      if snapshot - last >= (CHURN_THRESHOLD_DAYS + 1) * Cleaning.SECONDS_PER_DAY then 1 else 0
  {
  }

  function ToRow(snapshot: Option<int>, g: (string, Activity)): RfmRow {
    var recency := RecencyDays(snapshot, g.1.last);
    RfmRow(g.0, g.1.last, |g.1.orders|, g.1.spent, recency, Churned(recency))
  }

  /** The per-user aggregation, ordered by user id. */
  function Activities(rows: seq<Order>): seq<(string, Activity)> {
    GroupBy(rows, UserKey, StrLess, Absorb, NoActivity)
  }

  /** The RFM table with its recency and churn columns. */
  function Rfm(rows: seq<Order>): seq<RfmRow> {
    var snapshot := Snapshot(rows);
    var g := Activities(rows);
    seq(|g|, i requires 0 <= i < |g| => ToRow(snapshot, g[i]))
  }

  /** One row per user that has an id, in ascending id order. */
  lemma RfmUsers(rows: seq<Order>)
    ensures var t := Rfm(rows);
      && (forall i, j :: 0 <= i < j < |t| ==> StrLess(t[i].userId, t[j].userId))
      && (set i | 0 <= i < |t| :: t[i].userId) == PresentKeys(rows, UserKey)
  {
    var g := Activities(rows);
    var t := Rfm(rows);
    StrLessIsOrder();
    GroupByAscending(rows, UserKey, StrLess, Absorb, NoActivity);
    GroupByKeys(rows, UserKey, StrLess, Absorb, NoActivity);
    assert (set i | 0 <= i < |t| :: t[i].userId) == KeysOf(g) by {
      assert forall i :: 0 <= i < |t| ==> t[i].userId == g[i].0;
    }
  }

  /** What each RFM row holds: the user's latest instant, the number of
      distinct order ids, the total spend, the whole days to the snapshot
      (never negative), and a churn flag set exactly when at least 91 full
      days separate the last purchase from the snapshot. */
  lemma RfmRowFacts(rows: seq<Order>, i: nat)
    requires i < |Rfm(rows)|
    ensures var r := Rfm(rows)[i];
      var snapshot := Snapshot(rows);
      && IsMaxOf(r.lastPurchase, PresentKeys(rows, PurchaseBy(r.userId)))
      && r.frequency == |PresentKeys(rows, OrderBy(r.userId))|
      && r.frequency <= UserRowCount(rows, r.userId)
      && r.monetaryValue == SumRows(rows, UserKey, Amount, Is(r.userId))
      && (r.lastPurchase.Some? ==> snapshot.Some? && r.lastPurchase.value <= snapshot.value)
      && (r.recencyDays.Some? <==> r.lastPurchase.Some?)
      && (r.recencyDays.Some? ==>
            && r.recencyDays.value >= 0
            && r.recencyDays.value * Cleaning.SECONDS_PER_DAY <= snapshot.value - r.lastPurchase.value
            && snapshot.value - r.lastPurchase.value < (r.recencyDays.value + 1) * Cleaning.SECONDS_PER_DAY)
      && (r.churned == 0 || r.churned == 1)
      && (r.churned == 1 <==>
            r.lastPurchase.Some? &&
            snapshot.value - r.lastPurchase.value >= (CHURN_THRESHOLD_DAYS + 1) * Cleaning.SECONDS_PER_DAY)
  {
    var g := Activities(rows);
    var snapshot := Snapshot(rows);
    StrLessIsOrder();
    GroupByAscending(rows, UserKey, StrLess, Absorb, NoActivity);
    FindAt(g, StrLess, NoActivity, i);
    GroupByFind(rows, UserKey, StrLess, Absorb, NoActivity, g[i].0);
    assert Rfm(rows)[i] == ToRow(snapshot, g[i]);
    ReduceActivity(rows, g[i].0);
    UserInstantsWithin(rows, g[i].0);
    FrequencyBound(rows, g[i].0);
  }

  function TotalMonetary(t: seq<RfmRow>): int
    decreases |t|
  {
    if t == [] then 0 else t[0].monetaryValue + TotalMonetary(t[1..])
  }

  lemma {:induction false} TotalOfRows(snapshot: Option<int>, g: seq<(string, Activity)>)
    ensures TotalMonetary(seq(|g|, i requires 0 <= i < |g| => ToRow(snapshot, g[i]))) == SumOf(g, Spent, Every())
    decreases |g|
  {
    if g != [] {
      var t := seq(|g|, i requires 0 <= i < |g| => ToRow(snapshot, g[i]));
      TotalOfRows(snapshot, g[1..]);
      assert t[1..] == seq(|g[1..]|, i requires 0 <= i < |g[1..]| => ToRow(snapshot, g[1..][i]));
    }
  }

  /** Every price of a row with a user id lands in exactly one RFM row. */
  lemma RfmConservesSpend(rows: seq<Order>)
    ensures TotalMonetary(Rfm(rows)) == SumRows(rows, UserKey, Amount, Every())
  {
    TotalOfRows(Snapshot(rows), Activities(rows));
    assert Additive(Absorb, Spent, Amount);
    GroupBySum(rows, UserKey, StrLess, Absorb, NoActivity, Spent, Amount, Every());
  }
}
