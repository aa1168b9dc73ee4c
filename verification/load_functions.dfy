/**
  The imperative side of load_functions.py: `cpi_table` as an object whose
  rows the SQL statements change in place, and the refresh procedures that
  drive it. Each procedure is proved to leave the table in the state that
  the Refresh module specifies.
 */
module LoadFunctions {
  import opened Wrappers
  import opened Text
  import opened Vintage
  import opened Refresh

  /** `cpi_table` in the DuckDB connection, with the statements the refresh procedures issue. */
  class CpiTable {
    var rows: seq<Row>

    constructor (initial: seq<Row>)
      ensures rows == initial
    {
      rows := initial;
    }

    /** `SELECT DATE FROM cpi_table` as a list. */
    method SelectDates() returns (dates: seq<Date>)
      ensures |dates| == |rows|
      ensures forall i :: 0 <= i < |rows| ==> dates[i] == rows[i].date
    {
      dates := [];
      var i := 0;
      while i < |rows|
        invariant 0 <= i <= |rows|
        invariant |dates| == i
        invariant forall k :: 0 <= k < i ==> dates[k] == rows[k].date
      {
        dates := dates + [rows[i].date];
        i := i + 1;
      }
    }

    /** `SELECT * FROM cpi_table`. */
    method SelectAll() returns (all: seq<Row>)
      ensures all == rows
    {
      all := rows;
    }

    /** `DELETE FROM cpi_table`. */
    method DeleteAll()
      modifies this
      ensures rows == []
    {
      rows := [];
    }

    /** `DELETE FROM cpi_table WHERE DATE IN (?, ...)`; an empty placeholder list is not valid SQL. */
    method DeleteDates(dates: seq<Date>)
      requires dates != []
      modifies this
      ensures rows == Filter(old(rows), (e: Row) => e.date !in dates)
    {
      rows := Filter(rows, (e: Row) => e.date !in dates);
    }

    /** `to_sql('cpi_table', if_exists='append')`: the new rows go after the existing ones. */
    method Insert(added: seq<Row>)
      modifies this
      ensures rows == old(rows) + added
    {
      rows := rows + added;
    }
  }

  /** Masking by a list of the rows' dates is masking by the set of those dates. */
  lemma FilterByDateList(s: seq<Row>, listed: seq<Row>, dateList: seq<Date>, gone: set<Date>)
    requires |dateList| == |listed|
    requires forall i :: 0 <= i < |listed| ==> dateList[i] == listed[i].date
    requires gone == DatesOf(listed)
    ensures Filter(s, (e: Row) => e.date !in dateList) == Filter(s, (e: Row) => e.date !in gone)
  {
    forall x: Row | x in s
      ensures (x.date !in dateList) == (x.date !in gone)
    {
      if x.date in gone {
        var y :| y in listed && y.date == x.date;
        var i :| 0 <= i < |listed| && listed[i] == y;
        assert dateList[i] == x.date;
      }
    }
    FilterCongruent(s, (e: Row) => e.date !in dateList, (e: Row) => e.date !in gone);
  }

  /** `update_append`: inserts the latest rows whose date is not yet in the table. */
  method UpdateAppend(pullDate: string, workbook: RawFrame, table: CpiTable) returns (outcome: Outcome<LoadError>)
    requires Rectangular(workbook)
    modifies table
    ensures match GetLatestData(workbook, pullDate)
      case Failure(e) => outcome == Fail(e) && table.rows == old(table.rows)
      case Success(latest) => outcome == Pass && table.rows == AfterAppend(old(table.rows), latest)
  {
    var fetched := GetLatestData(workbook, pullDate);
    if fetched.Failure? {
      return Fail(fetched.error);
    }
    var latest := KeepPresent(fetched.value);
    var existingDates := table.SelectDates();
    var known := DatesOf(table.rows);
    FilterByDateList(latest, table.rows, existingDates, known);
    latest := Filter(latest, (x: Row) => x.date !in existingDates);
    if latest != [] {
      table.Insert(latest);
    }
    outcome := Pass;
  }

  /** `update_truncate`: empties the table, then inserts the latest rows. */
  method UpdateTruncate(pullDate: string, workbook: RawFrame, table: CpiTable) returns (outcome: Outcome<LoadError>)
    requires Rectangular(workbook)
    modifies table
    ensures match GetLatestData(workbook, pullDate)
      case Failure(e) => outcome == Fail(e) && table.rows == old(table.rows)
      case Success(latest) => outcome == Pass && table.rows == AfterTruncate(latest)
  {
    var fetched := GetLatestData(workbook, pullDate);
    if fetched.Failure? {
      return Fail(fetched.error);
    }
    var latest := KeepPresent(fetched.value);
    table.DeleteAll();
    if latest != [] {
      table.Insert(latest);
    }
    outcome := Pass;
  }

  /** `update_incremental`: replaces the rows of every date whose reading is new or changed. */
  method UpdateIncremental(pullDate: string, workbook: RawFrame, table: CpiTable) returns (outcome: Outcome<LoadError>)
    requires Rectangular(workbook)
    modifies table
    ensures match GetLatestData(workbook, pullDate)
      case Failure(e) => outcome == Fail(e) && table.rows == old(table.rows)
      case Success(latest) => outcome == Pass && table.rows == AfterIncremental(old(table.rows), latest)
  {
    var fetched := GetLatestData(workbook, pullDate);
    if fetched.Failure? {
      return Fail(fetched.error);
    }
    var latest := KeepPresent(fetched.value);
    var existing := table.SelectAll();
    if existing != [] {
      var updated := Changed(latest, existing);
      if updated != [] {
        var dateList := seq(|updated|, i requires 0 <= i < |updated| => updated[i].date);
        var gone := DatesOf(updated);
        FilterByDateList(existing, updated, dateList, gone);
        table.DeleteDates(dateList);
        table.Insert(updated);
      }
    } else {
      table.Insert(latest);
    }
    outcome := Pass;
  }

  /** Runs one refresh with the given policy, as `update_method(...)` inside `measure_time`. */
  method RunPolicy(policy: Policy, pullDate: string, workbook: RawFrame, table: CpiTable) returns (outcome: Outcome<LoadError>)
    requires Rectangular(workbook)
    modifies table
    ensures match GetLatestData(workbook, pullDate)
      case Failure(e) => outcome == Fail(e) && table.rows == old(table.rows)
      case Success(latest) => outcome == Pass && table.rows == After(policy, old(table.rows), latest)
  {
    match policy
    case Append => outcome := UpdateAppend(pullDate, workbook, table);
    case Truncate => outcome := UpdateTruncate(pullDate, workbook, table);
    case Incremental => outcome := UpdateIncremental(pullDate, workbook, table);
  }

  /**
    `measure_time` without the clock: refreshes the table once per pull date,
    in order, formatting each date as `%Y-%m-%d`; an exception ends the loop.
   */
  method MeasureTime(policy: Policy, pulls: seq<Pull>, table: CpiTable) returns (outcome: Outcome<LoadError>)
    requires AllRectangular(pulls)
    modifies table
    ensures (table.rows, outcome) == Replay(policy, old(table.rows), Fetched(pulls))
  {
    ghost var fetched := Fetched(pulls);
    var i := 0;
    while i < |pulls|
      invariant 0 <= i <= |pulls|
      invariant Replay(policy, table.rows, fetched[i..]) == Replay(policy, old(table.rows), fetched)
    {
      var pull := pulls[i];
      ReplayFrom(policy, table.rows, fetched, i);
      outcome := RunPolicy(policy, IsoDate(pull.day), pull.workbook, table);
      if outcome.Fail? {
        return;
      }
      i := i + 1;
    }
    outcome := Pass;
  }
}
