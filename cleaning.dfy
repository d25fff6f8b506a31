/** The cleaning pass over the raw order table: normalize the listed text
    columns in place, counting the values each one changed; coerce the two
    timestamp columns to UTC instants; derive the ship date and the
    ship-before-purchase flag, counting the flagged rows. */
module Cleaning {
  import opened Options
  import opened Text

  /** A column of the table. Raw columns hold text; coercion adds instant
      (UTC seconds), date (days since the epoch) and flag columns. */
  datatype Column =
    | TextColumn(cells: seq<Option<string>>)
    | InstantColumn(instants: seq<Option<int>>)
    | DateColumn(days: seq<Option<int>>)
    | FlagColumn(flags: seq<bool>)

  function Height(c: Column): nat {
    match c
    case TextColumn(cells) => |cells|
    case InstantColumn(ts) => |ts|
    case DateColumn(ds) => |ds|
    case FlagColumn(fs) => |fs|
  }

  /** The free-text columns the cleaning pass normalizes, in its order. */
  const TEXT_COLUMNS: seq<string> := [
    "PURCHASE_PLATFORM",
    "MARKETING_CHANNEL",
    "ACCOUNT_CREATION_METHOD",
    "COUNTRY_CODE",
    "PRODUCT_NAME"
  ]

  const PURCHASE_TS: string := "PURCHASE_TS"
  const SHIP_TS: string := "SHIP_TS"
  const SHIP_TS_DT: string := "SHIP_TS_dt"
  const SHIP_TS_DATE: string := "SHIP_TS_DATE"
  const FLAG_SHIP_BEFORE_PURCHASE: string := "FLAG_SHIP_BEFORE_PURCHASE"

  const SECONDS_PER_DAY: int := 86400

  // ---------------------------------------------------------------------
  // Text columns

  function NormalizeCells(cells: seq<Option<string>>): seq<Option<string>> {
    seq(|cells|, i requires 0 <= i < |cells| => Normalize(cells[i]))
  }

  function NormalizeColumn(c: Column): Column
    requires c.TextColumn?
  {
    TextColumn(NormalizeCells(c.cells))
  }

  /** A cell as the change count compares it: missing reads as "<NA>". */
  function FillNa(v: Option<string>): string {
    v.GetOr("<NA>")
  }

  /** How many rows read differently before and after, once missing values
      are filled with "<NA>"; never more than the number of rows. */
  function CountChanges(before: seq<Option<string>>, after: seq<Option<string>>): (n: nat)
    requires |before| == |after|
    ensures n <= |before|
  {
    if before == [] then 0
    else
      var k := |before| - 1;
      CountChanges(before[..k], after[..k]) + (if FillNa(before[k]) != FillNa(after[k]) then 1 else 0)
  }

  /** The rows whose value the normalizer really changed. */
  ghost function ChangedRows(before: seq<Option<string>>, after: seq<Option<string>>): set<int>
    requires |before| == |after|
  {
    set i | 0 <= i < |before| && before[i] != after[i]
  }

  /** The listed columns that the table has, in the listed order. */
  function PresentColumns(cols: seq<string>, m: map<string, Column>): (r: seq<string>)
    ensures forall c :: c in r <==> c in cols && c in m
  {
    if cols == [] then []
    else
      var k := |cols| - 1;
      PresentColumns(cols[..k], m) + (if cols[k] in m then [cols[k]] else [])
  }

  predicate ListedAreText(cols: seq<string>, m: map<string, Column>) {
    forall c :: c in cols && c in m ==> m[c].TextColumn?
  }

  /** The table after the normalization loop. */
  function NormalizedTable(cols: seq<string>, m: map<string, Column>): map<string, Column>
    requires ListedAreText(cols, m)
  {
    map c | c in m :: if c in cols then NormalizeColumn(m[c]) else m[c]
  }

  /** The per-column change counts the loop reports, one per listed column
      the table has. */
  function ChangeReport(cols: seq<string>, m: map<string, Column>): seq<(string, nat)>
    requires ListedAreText(cols, m)
  {
    if cols == [] then []
    else
      var k := |cols| - 1;
      var c := cols[k];
      ChangeReport(cols[..k], m)
      + (if c in m then [(c, CountChanges(m[c].cells, NormalizeCells(m[c].cells)))] else [])
  }

  // ---------------------------------------------------------------------
  // Timestamps and the ship-before-purchase flag

  /** `to_datetime(errors="coerce", utc=True)` on a column: text is parsed
      by `parse` (already UTC; None when unparseable), instants stay as
      they are, a date becomes its midnight, and a flag column, which
      `errors="coerce"` cannot convert, becomes all missing. */
  function ToInstants(c: Column, parse: string -> Option<int>): (r: seq<Option<int>>)
    ensures |r| == Height(c)
    ensures c.TextColumn? ==>
      forall i :: 0 <= i < |c.cells| ==> r[i] == (if c.cells[i].None? then None else parse(c.cells[i].value))
    ensures c.InstantColumn? ==> r == c.instants
    ensures c.DateColumn? ==>
      forall i :: 0 <= i < |c.days| ==> r[i] == (if c.days[i].None? then None else Some(c.days[i].value * SECONDS_PER_DAY))
    ensures c.FlagColumn? ==> forall i :: 0 <= i < |r| ==> r[i].None?
  {
    match c
    case TextColumn(cells) =>
      seq(|cells|, i requires 0 <= i < |cells| =>
        match cells[i]
        case None => None
        case Some(s) => parse(s))
    case InstantColumn(ts) => ts
    case DateColumn(ds) =>
      seq(|ds|, i requires 0 <= i < |ds| =>
        match ds[i]
        case None => None
        case Some(d) => Some(d * SECONDS_PER_DAY))
    case FlagColumn(fs) => seq(|fs|, i requires 0 <= i < |fs| => None)
  }

  /** The calendar day (days since the epoch, UTC) of an instant. */
  function DayOf(t: int): (d: int)
    ensures d * SECONDS_PER_DAY <= t < (d + 1) * SECONDS_PER_DAY
  {
    t / SECONDS_PER_DAY
  }

  /** `.dt.date`: the day of every present instant. */
  function Dates(ts: seq<Option<int>>): seq<Option<int>> {
    seq(|ts|, i requires 0 <= i < |ts| =>
      match ts[i]
      case None => None
      case Some(t) => Some(DayOf(t)))
  }

  /** The `<` of two timestamp columns: a comparison with a missing
      instant is false. */
  function ShipBefore(ship: seq<Option<int>>, purchase: seq<Option<int>>): seq<bool>
    requires |ship| == |purchase|
  {
    seq(|ship|, i requires 0 <= i < |ship| =>
      match (ship[i], purchase[i])
      case (Some(s), Some(p)) => s < p
      case _ => false)
  }

  /** `mask.sum()`: how many flags are set. */
  function CountTrue(flags: seq<bool>): (n: nat)
    ensures n <= |flags|
  {
    if flags == [] then 0
    else CountTrue(flags[1..]) + (if flags[0] then 1 else 0)
  }

  /** The table after timestamp coercion and flagging, or None when the
      script stops: a timestamp column is absent (the `KeyError`), or
      exactly one of the two is boolean. A boolean column coerces to
      time-zone-naive missing instants, and comparing those with the other,
      UTC-aware column raises `TypeError`. The height test never fails in a
      table whose columns share one height. */
  function Coerced(m: map<string, Column>, parse: string -> Option<int>): Option<map<string, Column>> {
    if PURCHASE_TS !in m || SHIP_TS !in m then None
    else if m[PURCHASE_TS].FlagColumn? != m[SHIP_TS].FlagColumn? then None
    else
      var p := ToInstants(m[PURCHASE_TS], parse);
      var s := ToInstants(m[SHIP_TS], parse);
      if |s| != |p| then None
      else
        Some(m[PURCHASE_TS := InstantColumn(p)]
              [SHIP_TS_DT := InstantColumn(s)]
              [SHIP_TS_DATE := DateColumn(Dates(s))]
              [FLAG_SHIP_BEFORE_PURCHASE := FlagColumn(ShipBefore(s, p))])
  }

  predicate SameHeight(m: map<string, Column>, rows: nat) {
    forall c :: c in m ==> Height(m[c]) == rows
  }

  // ---------------------------------------------------------------------
  // The table

  class Frame {
    var columns: map<string, Column>
    var rows: nat

    ghost predicate Valid()
      reads this
    {
      SameHeight(columns, rows)
    }

    constructor (columns: map<string, Column>, rows: nat)
      requires SameHeight(columns, rows)
      ensures Valid() && this.columns == columns && this.rows == rows
    {
      this.columns := columns;
      this.rows := rows;
    }

    /** The normalization loop: every listed column the table has is
        replaced by its normalized form, every other column is kept, and
        the number of values each changed is reported. */
    method NormalizeTextColumns() returns (report: seq<(string, nat)>)
      requires Valid() && ListedAreText(TEXT_COLUMNS, columns)
      modifies this
      ensures Valid() && rows == old(rows)
      ensures columns == NormalizedTable(TEXT_COLUMNS, old(columns))
      ensures report == ChangeReport(TEXT_COLUMNS, old(columns))
    {
      TextColumnsDistinct();
      ghost var start := columns;
      report := [];
      var i := 0;
      while i < |TEXT_COLUMNS|
        invariant 0 <= i <= |TEXT_COLUMNS| && rows == old(rows)
        invariant ListedAreText(TEXT_COLUMNS[..i], start)
        invariant columns == NormalizedTable(TEXT_COLUMNS[..i], start)
        invariant report == ChangeReport(TEXT_COLUMNS[..i], start)
      {
        var col := TEXT_COLUMNS[i];
        NormalizedTableStep(TEXT_COLUMNS, i, start);
        if col in columns {
          var before := columns[col].cells;
          var after := NormalizeCells(before);
          var changes := CountChanges(before, after);
          columns := columns[col := TextColumn(after)];
          report := report + [(col, changes)];
        }
        i := i + 1;
      }
      assert TEXT_COLUMNS[..i] == TEXT_COLUMNS;
      NormalizedTableIsClean(TEXT_COLUMNS, start, rows);
    }

    /** Timestamp coercion and flagging. When the script would stop (a
        timestamp column absent, or only one of them boolean) the table is
        left as it was and None is returned; otherwise the number of
        flagged rows. */
    method CoerceAndFlag(parse: string -> Option<int>) returns (flagged: Option<nat>)
      requires Valid()
      modifies this
      ensures Valid() && rows == old(rows)
      ensures flagged.None? <==> Coerced(old(columns), parse).None?
      ensures flagged.None? ==> columns == old(columns)
      ensures flagged.Some? ==> columns == Coerced(old(columns), parse).value
      ensures flagged.Some? ==> FLAG_SHIP_BEFORE_PURCHASE in columns && columns[FLAG_SHIP_BEFORE_PURCHASE].FlagColumn?
      ensures flagged.Some? ==> flagged.value == CountTrue(columns[FLAG_SHIP_BEFORE_PURCHASE].flags)
    {
      if PURCHASE_TS !in columns || SHIP_TS !in columns {
        return None;
      }
      if columns[PURCHASE_TS].FlagColumn? != columns[SHIP_TS].FlagColumn? {
        return None;
      }
      var p := ToInstants(columns[PURCHASE_TS], parse);
      var s := ToInstants(columns[SHIP_TS], parse);
      columns := columns[PURCHASE_TS := InstantColumn(p)];
      columns := columns[SHIP_TS_DT := InstantColumn(s)];
      columns := columns[SHIP_TS_DATE := DateColumn(Dates(s))];
      var mask := ShipBefore(s, p);
      columns := columns[FLAG_SHIP_BEFORE_PURCHASE := FlagColumn(mask)];
      flagged := Some(CountTrue(mask));
    }
  }

  /** One more turn of the loop: the next listed column, if present and
      not seen before, is normalized and reported. */
  lemma NormalizedTableStep(cols: seq<string>, i: nat, m: map<string, Column>)
    requires i < |cols| && ListedAreText(cols, m)
    requires cols[i] !in cols[..i]
    ensures ListedAreText(cols[..i], m) && ListedAreText(cols[..i + 1], m)
    ensures var c := cols[i];
      && NormalizedTable(cols[..i + 1], m) ==
           (if c in m then NormalizedTable(cols[..i], m)[c := NormalizeColumn(m[c])] else NormalizedTable(cols[..i], m))
      && (c in m ==> NormalizedTable(cols[..i], m)[c] == m[c])
      && ChangeReport(cols[..i + 1], m) ==
           ChangeReport(cols[..i], m) + (if c in m then [(c, CountChanges(m[c].cells, NormalizeCells(m[c].cells)))] else [])
  {
    assert cols[..i + 1][..i] == cols[..i];
    assert cols[..i + 1] == cols[..i] + [cols[i]];
  }

  /** No column is listed twice. */
  lemma TextColumnsDistinct()
    ensures forall i :: 0 <= i < |TEXT_COLUMNS| ==> TEXT_COLUMNS[i] !in TEXT_COLUMNS[..i]
  {
  }

  // ---------------------------------------------------------------------
  // Properties of the normalization loop

  /** After the loop every cell of a listed column is missing or a
      canonical string that is not a null token; the table keeps its
      columns and its height. */
  lemma NormalizedTableIsClean(cols: seq<string>, m: map<string, Column>, rows: nat)
    requires ListedAreText(cols, m) && SameHeight(m, rows)
    ensures NormalizedTable(cols, m).Keys == m.Keys
    ensures SameHeight(NormalizedTable(cols, m), rows)
    ensures ListedAreText(cols, NormalizedTable(cols, m))
    ensures forall c, i :: c in cols && c in m && 0 <= i < rows ==>
      var v := NormalizedTable(cols, m)[c].cells[i];
      v.None? || (IsCanonical(v.value) && v.value !in NULL_TOKENS)
  {
  }

  lemma NormalizeCellsIdempotent(cells: seq<Option<string>>)
    ensures NormalizeCells(NormalizeCells(cells)) == NormalizeCells(cells)
  {
    forall i | 0 <= i < |cells|
      ensures NormalizeCells(NormalizeCells(cells))[i] == NormalizeCells(cells)[i]
    {
      NormalizeIdempotent(cells[i]);
    }
  }

  /** Cleaning an already cleaned table changes nothing. */
  lemma NormalizedTableIdempotent(cols: seq<string>, m: map<string, Column>)
    requires ListedAreText(cols, m)
    ensures ListedAreText(cols, NormalizedTable(cols, m))
    ensures NormalizedTable(cols, NormalizedTable(cols, m)) == NormalizedTable(cols, m)
  {
    var n := NormalizedTable(cols, m);
    forall c | c in n
      ensures NormalizedTable(cols, n)[c] == n[c]
    {
      if c in cols {
        NormalizeCellsIdempotent(m[c].cells);
      }
    }
  }

  /** The "<NA>" fill never hides or invents a change: a cell counts as
      changed exactly when the normalizer changed its value. */
  lemma FillNaIsFaithful(v: Option<string>)
    ensures FillNa(v) != FillNa(Normalize(v)) <==> v != Normalize(v)
  {
    if v.Some? && Normalize(v).None? && v.value == "<NA>" {
      NaSentinelSurvives(v.value);
    }
  }

  /** The fill string itself is an ordinary value: it normalizes to
      "<na>", which is not a null token. */
  lemma NaSentinelSurvives(s: string)
    requires s == "<NA>"
    ensures Normalize(Some(s)) == Some("<na>")
  {
    NaSentinelCanonical(s);
    assert "<na>" !in NULL_TOKENS;
  }

  lemma NaSentinelCanonical(s: string)
    requires s == "<NA>"
    ensures Canonical(s) == "<na>"
  {
    NaSentinelStrip(s);
    NaSentinelCollapse(s);
    assert Lower(s) == "<na>";
  }

  lemma NaSentinelStrip(s: string)
    requires s == "<NA>"
    ensures Strip(s) == s
  {
    assert !IsSpace(s[0]) && !IsSpace(s[|s| - 1]);
    assert TrimStart(s) == s;
    assert TrimEnd(s) == s;
  }

  lemma NaSentinelCollapse(s: string)
    requires s == "<NA>"
    ensures Collapse(s) == s
  {
    assert forall i :: 0 <= i < |s| ==> !IsSpace(s[i]);
    CollapseWord(s, []);
    assert s + [] == s;
  }

  /** The reported count of a column is the number of rows whose value the
      normalizer changed. */
  lemma {:induction false} ChangeCountIsChangedRows(cells: seq<Option<string>>)
    ensures CountChanges(cells, NormalizeCells(cells)) == |ChangedRows(cells, NormalizeCells(cells))|
    decreases |cells|
  {
    var after := NormalizeCells(cells);
    if cells == [] {
      assert ChangedRows(cells, after) == {};
    } else {
      var k := |cells| - 1;
      assert NormalizeCells(cells[..k]) == after[..k];
      ChangeCountIsChangedRows(cells[..k]);
      FillNaIsFaithful(cells[k]);
      ChangedRowsLast(cells, after);
    }
  }

  lemma ChangedRowsLast(before: seq<Option<string>>, after: seq<Option<string>>)
    requires |before| == |after| > 0
    ensures var k := |before| - 1;
      |ChangedRows(before, after)| ==
        |ChangedRows(before[..k], after[..k])| + (if before[k] != after[k] then 1 else 0)
  {
    var k := |before| - 1;
    var earlier := ChangedRows(before[..k], after[..k]);
    assert k !in earlier;
    if before[k] != after[k] {
      assert ChangedRows(before, after) == earlier + {k};
    } else {
      assert ChangedRows(before, after) == earlier;
    }
  }

  /** On a column that is already normalized the count is zero. */
  lemma NoChangesOnCleanColumn(cells: seq<Option<string>>)
    requires NormalizeCells(cells) == cells
    ensures CountChanges(cells, NormalizeCells(cells)) == 0
  {
    ChangeCountIsChangedRows(cells);
    assert ChangedRows(cells, NormalizeCells(cells)) == {};
  }

  /** One report entry per listed column the table has, in the listed
      order, each at most the column's height. */
  lemma {:induction false} ChangeReportShape(cols: seq<string>, m: map<string, Column>, rows: nat)
    requires ListedAreText(cols, m) && SameHeight(m, rows)
    ensures |ChangeReport(cols, m)| == |PresentColumns(cols, m)|
    ensures forall i :: 0 <= i < |ChangeReport(cols, m)| ==>
      ChangeReport(cols, m)[i].0 == PresentColumns(cols, m)[i] && ChangeReport(cols, m)[i].1 <= rows
    decreases |cols|
  {
    if cols != [] {
      var k := |cols| - 1;
      assert ListedAreText(cols[..k], m);
      ChangeReportShape(cols[..k], m, rows);
    }
  }

  /** Running the loop on its own output reports zero changes everywhere. */
  lemma {:induction false} ChangeReportOnCleanTable(cols: seq<string>, m: map<string, Column>)
    requires ListedAreText(cols, m)
    ensures ListedAreText(cols, NormalizedTable(cols, m))
    ensures forall i :: 0 <= i < |ChangeReport(cols, NormalizedTable(cols, m))| ==>
      ChangeReport(cols, NormalizedTable(cols, m))[i].1 == 0
    decreases |cols|
  {
    var n := NormalizedTable(cols, m);
    if cols != [] {
      var k := |cols| - 1;
      var c := cols[k];
      assert ListedAreText(cols[..k], n);
      ChangeReportZero(cols[..k], cols, m);
      if c in n {
        NormalizeCellsIdempotent(m[c].cells);
        NoChangesOnCleanColumn(n[c].cells);
      }
    }
  }

  lemma {:induction false} ChangeReportZero(prefix: seq<string>, cols: seq<string>, m: map<string, Column>)
    requires ListedAreText(cols, m)
    requires forall c :: c in prefix ==> c in cols
    ensures ListedAreText(prefix, NormalizedTable(cols, m))
    ensures forall i :: 0 <= i < |ChangeReport(prefix, NormalizedTable(cols, m))| ==>
      ChangeReport(prefix, NormalizedTable(cols, m))[i].1 == 0
    decreases |prefix|
  {
    var n := NormalizedTable(cols, m);
    if prefix != [] {
      var k := |prefix| - 1;
      var c := prefix[k];
      ChangeReportZero(prefix[..k], cols, m);
      if c in n {
        NormalizeCellsIdempotent(m[c].cells);
        NoChangesOnCleanColumn(n[c].cells);
      }
    }
  }

  // ---------------------------------------------------------------------
  // Properties of coercion and flagging

  /** Coercion fails exactly when a timestamp column is absent or only one
      of the two is boolean. */
  lemma CoercedFails(m: map<string, Column>, parse: string -> Option<int>, rows: nat)
    requires SameHeight(m, rows)
    ensures Coerced(m, parse).None? <==>
      || PURCHASE_TS !in m || SHIP_TS !in m
      || m[PURCHASE_TS].FlagColumn? != m[SHIP_TS].FlagColumn?
  {
  }

  /** What coercion adds: the purchase and ship instants, the ship date
      (present exactly when the ship instant is, and its day), and the
      flag (set exactly when both instants are present and the shipment
      comes first). The raw ship column and every other column are kept,
      and all columns keep the table's height. */
  lemma CoercedShape(m: map<string, Column>, parse: string -> Option<int>, rows: nat)
    requires SameHeight(m, rows) && Coerced(m, parse).Some?
    ensures var r := Coerced(m, parse).value;
      && r.Keys == m.Keys + {SHIP_TS_DT, SHIP_TS_DATE, FLAG_SHIP_BEFORE_PURCHASE}
      && SameHeight(r, rows)
      && (forall c :: c in m && c !in {PURCHASE_TS, SHIP_TS_DT, SHIP_TS_DATE, FLAG_SHIP_BEFORE_PURCHASE} ==> r[c] == m[c])
      && r[PURCHASE_TS] == InstantColumn(ToInstants(m[PURCHASE_TS], parse))
      && r[SHIP_TS_DT] == InstantColumn(ToInstants(m[SHIP_TS], parse))
      && r[SHIP_TS_DATE].DateColumn? && r[FLAG_SHIP_BEFORE_PURCHASE].FlagColumn?
      && (forall i :: 0 <= i < rows ==>
            var ship := r[SHIP_TS_DT].instants[i];
            var purchase := r[PURCHASE_TS].instants[i];
            && (r[SHIP_TS_DATE].days[i].Some? <==> ship.Some?)
            && (ship.Some? ==> r[SHIP_TS_DATE].days[i].value == DayOf(ship.value))
            && (r[FLAG_SHIP_BEFORE_PURCHASE].flags[i] <==>
                  ship.Some? && purchase.Some? && ship.value < purchase.value))
  {
  }

  /** When both timestamp columns are boolean, both coerce to all missing
      and compare without error, so no row is flagged and the printed count
      is 0. */
  lemma FlagTimestampsFlagNothing(m: map<string, Column>, parse: string -> Option<int>, rows: nat)
    requires SameHeight(m, rows) && PURCHASE_TS in m && SHIP_TS in m
    requires m[PURCHASE_TS].FlagColumn? && m[SHIP_TS].FlagColumn?
    ensures Coerced(m, parse).Some?
    ensures var r := Coerced(m, parse).value;
      && r[FLAG_SHIP_BEFORE_PURCHASE].FlagColumn?
      && CountTrue(r[FLAG_SHIP_BEFORE_PURCHASE].flags) == 0
  {
    var r := Coerced(m, parse).value;
    CoercedShape(m, parse, rows);
    var flags := r[FLAG_SHIP_BEFORE_PURCHASE].flags;
    assert forall i :: 0 <= i < |flags| ==> !flags[i];
    CountTrueNone(flags);
  }

  lemma {:induction false} CountTrueNone(flags: seq<bool>)
    requires forall i :: 0 <= i < |flags| ==> !flags[i]
    ensures CountTrue(flags) == 0
    decreases |flags|
  {
    if flags != [] {
      CountTrueNone(flags[1..]);
    }
  }

  /** The flagged count is the number of set flags. */
  lemma {:induction false} CountTrueIsMultiplicity(flags: seq<bool>)
    ensures CountTrue(flags) == multiset(flags)[true]
    decreases |flags|
  {
    if flags != [] {
      CountTrueIsMultiplicity(flags[1..]);
      assert flags == [flags[0]] + flags[1..];
      assert multiset(flags) == multiset([flags[0]]) + multiset(flags[1..]);
    }
  }
}
