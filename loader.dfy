/** The part of `load_data` (bikeshare.py:104-147) that does not read files or
    parse dates: naming the columns by their count and keeping the rows of the
    selected month and weekday. Rows arrive with their derived month name,
    weekday name and hour already filled in. */
module Loader {
  import opened Text
  import opened Wrappers

  /** One row of the table: the data columns, then the derived `month`, `dow`
      and `hour`. Washington's file has no `gender` and `birth_year` columns. */
  datatype Trip = Trip(
    startTime: string, endTime: string, tripDuration: int,
    startStation: string, endStation: string, userType: string,
    gender: Option<string>, birthYear: Option<string>,
    month: string, dow: string, hour: int)

  /** `column_names` (bikeshare.py:123-124). */
  const ColumnNames: seq<string> :=
    ["start_time", "end_time", "trip_duration", "start_station",
     "end_station", "user_type", "gender", "birth_year"]

  /** The columns `load_data` adds (bikeshare.py:136-138). */
  const DerivedColumns: seq<string> := ["month", "dow", "hour"]

  /** Assigning `df.columns` a list of the wrong length fails. */
  datatype LoadError = LengthMismatch(columns: nat, names: nat)

  /** The filtered table `load_data` returns. */
  datatype Table = Table(columns: seq<string>, rows: seq<Trip>)

  /** The names given to a table with `count` data columns (bikeshare.py:127-130):
      the first six names for six columns, all eight otherwise, which only
      succeeds when there are eight. The names are positional: column `k`
      gets `column_names[k]`. */
  function Relabel(count: nat): (r: Result<seq<string>, LoadError>)
    ensures r.Ok? <==> count == 6 || count == 8
    ensures r.Ok? ==> r.value == ColumnNames[..count]
    ensures r.Err? ==> r.error == LengthMismatch(count, 8)
  {
    var names := if count == 6 then ColumnNames[..6] else ColumnNames;
    if |names| == count then Ok(names) else Err(LengthMismatch(count, |names|))
  }

  /** The demographic columns are there exactly for an eight-column file. */
  lemma DemographicsOnlyWithEightColumns(count: nat)
    requires Relabel(count).Ok?
    ensures "gender" in Relabel(count).value <==> count == 8
    ensures "birth_year" in Relabel(count).value <==> count == 8
  {
    if count == 6 {
      assert Relabel(count).value == ["start_time", "end_time", "trip_duration",
                                      "start_station", "end_station", "user_type"];
    }
  }

  /** `df.month.str.lower() == month`. */
  function MonthMask(rows: seq<Trip>, month: string): (mask: seq<bool>)
    ensures |mask| == |rows|
  {
    seq(|rows|, k requires 0 <= k < |rows| => Lower(rows[k].month) == month)
  }

  /** `df.dow.str.lower() == day`. */
  function DayMask(rows: seq<Trip>, day: string): (mask: seq<bool>)
    ensures |mask| == |rows|
  {
    seq(|rows|, k requires 0 <= k < |rows| => Lower(rows[k].dow) == day)
  }

  /** `df[mask]`: the rows whose mask entry is true, in their order. */
  function Select(rows: seq<Trip>, mask: seq<bool>): seq<Trip>
    requires |mask| == |rows|
  {
    if rows == [] then []
    else (if mask[0] then [rows[0]] else []) + Select(rows[1..], mask[1..])
  }

  /** The filtering steps of bikeshare.py:141-145, as written. */
  function FilterTrips(rows: seq<Trip>, month: string, day: string): seq<Trip> {
    var byMonth := if month != "all" then Select(rows, MonthMask(rows, month)) else rows;
    if day != "all" then Select(byMonth, DayMask(byMonth, day)) else byMonth
  }

  /** A row of the selected month and weekday; "all" selects every one. */
  predicate Matches(t: Trip, month: string, day: string) {
    && (month == "all" || Lower(t.month) == month)
    && (day == "all" || Lower(t.dow) == day)
  }

  /** `a` is `b` with some elements left out, the rest in the same order. */
  predicate IsSubsequence(a: seq<Trip>, b: seq<Trip>)
    decreases |b|
  {
    a == [] || (b != [] && ((a[0] == b[0] && IsSubsequence(a[1..], b[1..])) || IsSubsequence(a, b[1..])))
  }

  /** The reference filter: the rows that match, in their order, each as many
      times as it occurs. */
  function Keep(rows: seq<Trip>, month: string, day: string): (r: seq<Trip>)
    ensures IsSubsequence(r, rows)
    ensures forall t :: t in r ==> Matches(t, month, day)
    ensures forall t :: multiset(r)[t] == if Matches(t, month, day) then multiset(rows)[t] else 0
  {
    if rows == [] then []
    else
      var rest := Keep(rows[1..], month, day);
      assert rows == [rows[0]] + rows[1..];
      if Matches(rows[0], month, day) then [rows[0]] + rest else rest
  }

  /** Selecting by the month mask keeps exactly the rows of that month. */
  lemma {:induction false} SelectByMonth(rows: seq<Trip>, month: string)
    requires month != "all"
    ensures Select(rows, MonthMask(rows, month)) == Keep(rows, month, "all")
  {
    if rows != [] {
      assert MonthMask(rows, month)[1..] == MonthMask(rows[1..], month);
      SelectByMonth(rows[1..], month);
    }
  }

  /** Selecting by the weekday mask keeps exactly the rows of that weekday. */
  lemma {:induction false} SelectByDay(rows: seq<Trip>, day: string)
    requires day != "all"
    ensures Select(rows, DayMask(rows, day)) == Keep(rows, "all", day)
  {
    if rows != [] {
      assert DayMask(rows, day)[1..] == DayMask(rows[1..], day);
      SelectByDay(rows[1..], day);
    }
  }

  /** Filtering by month and then by weekday is filtering by both at once. */
  lemma {:induction false} KeepThenKeep(rows: seq<Trip>, month: string, day: string)
    ensures Keep(Keep(rows, month, "all"), "all", day) == Keep(rows, month, day)
  {
    if rows != [] {
      KeepThenKeep(rows[1..], month, day);
      var rest := Keep(rows[1..], month, "all");
      if Matches(rows[0], month, "all") {
        assert ([rows[0]] + rest)[1..] == rest;
      }
    }
  }

  /** With both filters at "all" the rows come back unchanged. */
  lemma {:induction false} KeepAllIsEverything(rows: seq<Trip>)
    ensures Keep(rows, "all", "all") == rows
  {
    if rows != [] {
      KeepAllIsEverything(rows[1..]);
    }
  }

  /** The source's two successive filters keep exactly the matching rows. */
  lemma FilterTripsIsKeep(rows: seq<Trip>, month: string, day: string)
    ensures FilterTrips(rows, month, day) == Keep(rows, month, day)
  {
    var byMonth := if month != "all" then Select(rows, MonthMask(rows, month)) else rows;
    if month != "all" {
      SelectByMonth(rows, month);
    } else {
      KeepAllIsEverything(rows);
      assert Keep(rows, "all", "all") == rows;
    }
    assert byMonth == Keep(rows, month, "all");
    if day != "all" {
      SelectByDay(byMonth, day);
    } else {
      KeepAllIsEverything(byMonth);
    }
    KeepThenKeep(rows, month, day);
  }

  /** `load_data(city, month, day)` after reading and date parsing: a table
      with `columnCount` data columns named positionally, plus the derived
      ones, holding exactly the rows of the selected month and weekday. */
  function LoadData(columnCount: nat, rows: seq<Trip>, month: string, day: string)
    : (r: Result<Table, LoadError>)
    ensures r.Ok? <==> columnCount == 6 || columnCount == 8
    ensures r.Ok? ==> r.value.columns == ColumnNames[..columnCount] + DerivedColumns
    ensures r.Ok? ==> r.value.rows == Keep(rows, month, day)
  {
    match Relabel(columnCount)
    case Err(e) => Err(e)
    case Ok(names) =>
      FilterTripsIsKeep(rows, month, day);
      Ok(Table(names + DerivedColumns, FilterTrips(rows, month, day)))
  }
}
