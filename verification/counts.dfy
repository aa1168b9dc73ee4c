/**
  The counting idiom of test.py: the expected count for a value is
  `dataframe[dataframe[column] == value].shape[0]`, and the category tests
  add these counts up over a list of categories in a loop.
 */
module Counts {
  import opened Wrappers
  import opened Text
  import opened CleanData

  /** A missing value: pandas' `==` never holds for it. */
  predicate IsMissing(c: Cell)
  {
    c == Null || c == NaN
  }

  /** pandas' element-wise `==` between a cell and the queried value. */
  predicate CellEquals(c: Cell, v: Cell)
  {
    !IsMissing(c) && c == v
  }

  /** Number of cells equal to `v`. */
  function CountEqual(cells: seq<Cell>, v: Cell): (n: nat)
    ensures n <= |cells|
    ensures n == 0 <==> forall i :: 0 <= i < |cells| ==> !CellEquals(cells[i], v)
    decreases |cells|
  {
    if cells == [] then 0
    else (if CellEquals(cells[0], v) then 1 else 0) + CountEqual(cells[1..], v)
  }

  /** Position of the first column with the given header. */
  function ColumnIndex(columns: seq<string>, name: string): (r: Option<nat>)
    ensures r.None? <==> name !in columns
    ensures r.Some? ==> r.value < |columns| && columns[r.value] == name
    decreases |columns|
  {
    if columns == [] then None
    else if columns[0] == name then Some(0)
    else match ColumnIndex(columns[1..], name)
      case None => None
      case Some(k) => Some(k + 1)
  }

  /** `dataframe[name]`: the cells of the named column, top to bottom. */
  function Column(f: Frame, name: string): (cells: seq<Cell>)
    requires WellShaped(f) && name in f.columns
    ensures |cells| == |f.rows|
    ensures forall i :: 0 <= i < |f.rows| ==> cells[i] == f.rows[i][ColumnIndex(f.columns, name).value]
  {
    var j := ColumnIndex(f.columns, name).value;
    seq(|f.rows|, i requires 0 <= i < |f.rows| => f.rows[i][j])
  }

  /** The exception of indexing a frame by a header it does not have. */
  datatype KeyError = KeyError(column: string)

  /** `dataframe[dataframe[column] == value].shape[0]`. */
  function ExpectedCount(f: Frame, column: string, v: Cell): (r: Result<nat, KeyError>)
    requires WellShaped(f)
    ensures column !in f.columns <==> r == Failure(KeyError(column))
    ensures r.Success? ==> r.value <= |f.rows|
    ensures r.Success? ==> (r.value == 0 <==> forall i :: 0 <= i < |f.rows| ==> !CellEquals(Column(f, column)[i], v))
  {
    if column in f.columns then Success(CountEqual(Column(f, column), v)) else Failure(KeyError(column))
  }

  /** Counts taken cell by cell under two views that agree on every cell are equal. */
  lemma {:induction false} CountEqualCongruent(a: seq<Cell>, b: seq<Cell>, v: Cell)
    requires |a| == |b|
    requires forall i :: 0 <= i < |a| ==> CellEquals(a[i], v) == CellEquals(b[i], v)
    ensures CountEqual(a, v) == CountEqual(b, v)
    decreases |a|
  {
    if a != [] {
      CountEqualCongruent(a[1..], b[1..], v);
    }
  }

  /** After cleaning, no cell counts as equal to "nan", "none" or any other null token. */
  lemma CleanedNeverMatchesNullToken(f: Frame, column: string, v: Cell)
    requires WellShaped(f) && IsNullToken(v)
    ensures WellShaped(Clean(f))
    ensures ExpectedCount(Clean(f), column, v) == if column in f.columns then Success(0) else Failure(KeyError(column))
  {
    var g := Clean(f);
    if column in f.columns {
      var cells := Column(g, column);
      forall i | 0 <= i < |cells|
        ensures !CellEquals(cells[i], v)
      {
        CleanLeavesOnlyMarker(f);
        assert cells[i] in g.rows[i];
      }
    }
  }

  /** Cleaning changes no count of a value that is not a null token. */
  lemma CleanKeepsGenuineCounts(f: Frame, column: string, v: Cell)
    requires WellShaped(f) && !IsNullToken(v)
    ensures WellShaped(Clean(f))
    ensures ExpectedCount(Clean(f), column, v) == ExpectedCount(f, column, v)
  {
    var g := Clean(f);
    if column in f.columns {
      var before, after := Column(f, column), Column(g, column);
      forall i | 0 <= i < |before|
        ensures CellEquals(after[i], v) == CellEquals(before[i], v)
      {
        var j := ColumnIndex(f.columns, column).value;
        assert after[i] == g.rows[i][j] && before[i] == f.rows[i][j];
      }
      CountEqualCongruent(after, before, v);
    }
  }

  // ---------------------------------------------------------------- category totals

  /** The sum of the per-category counts, added up in list order. */
  function SumCounts(cells: seq<Cell>, categories: seq<Cell>): nat
    decreases |categories|
  {
    if categories == [] then 0
    else SumCounts(cells, categories[..|categories| - 1]) + CountEqual(cells, categories[|categories| - 1])
  }

  /** Number of cells equal to one of the categories. */
  function CountAmong(cells: seq<Cell>, categories: seq<Cell>): (n: nat)
    ensures n <= |cells|
    decreases |cells|
  {
    if cells == [] then 0
    else (if !IsMissing(cells[0]) && cells[0] in categories then 1 else 0) + CountAmong(cells[1..], categories)
  }

  predicate Distinct(categories: seq<Cell>)
  {
    forall i, j :: 0 <= i < j < |categories| ==> categories[i] != categories[j]
  }

  /** Adding a category not yet in the list adds exactly that category's count. */
  lemma {:induction false} CountAmongExtend(cells: seq<Cell>, categories: seq<Cell>, v: Cell)
    requires v !in categories
    ensures CountAmong(cells, categories + [v]) == CountAmong(cells, categories) + CountEqual(cells, v)
    decreases |cells|
  {
    if cells != [] {
      CountAmongExtend(cells[1..], categories, v);
    }
  }

  /** Over distinct categories, the summed counts are the rows whose value is in the list. */
  lemma {:induction false} SumOfDistinctCategories(cells: seq<Cell>, categories: seq<Cell>)
    requires Distinct(categories)
    ensures SumCounts(cells, categories) == CountAmong(cells, categories)
    decreases |categories|
  {
    if categories == [] {
      CountAmongNone(cells);
    } else {
      var init, last := categories[..|categories| - 1], categories[|categories| - 1];
      SumOfDistinctCategories(cells, init);
      CountAmongExtend(cells, init, last);
      assert init + [last] == categories;
    }
  }

  /** No row is among an empty list of categories. */
  lemma {:induction false} CountAmongNone(cells: seq<Cell>)
    ensures CountAmong(cells, []) == 0
    decreases |cells|
  {
    if cells != [] {
      CountAmongNone(cells[1..]);
    }
  }

  /**
    The loop of `test_boro_category` and `test_reason_category`: adds up the
    count of each category; a missing column raises on the first category.
   */
  method CategoryTotal(f: Frame, column: string, categories: seq<Cell>) returns (total: Result<nat, KeyError>)
    requires WellShaped(f)
    ensures categories == [] ==> total == Success(0)
    ensures categories != [] && column !in f.columns ==> total == Failure(KeyError(column))
    ensures column in f.columns ==> total == Success(SumCounts(Column(f, column), categories))
    ensures column in f.columns && Distinct(categories) ==>
              total == Success(CountAmong(Column(f, column), categories))
  {
    var count := 0;
    var k := 0;
    while k < |categories|
      invariant 0 <= k <= |categories|
      invariant column !in f.columns ==> k == 0 && count == 0
      invariant column in f.columns ==> count == SumCounts(Column(f, column), categories[..k])
    {
      var num := ExpectedCount(f, column, categories[k]);
      if num.Failure? {
        return Failure(num.error);
      }
      assert categories[..k + 1][..k] == categories[..k];
      count := count + num.value;
      k := k + 1;
    }
    assert categories[..k] == categories;
    if column in f.columns && Distinct(categories) {
      SumOfDistinctCategories(Column(f, column), categories);
    }
    total := Success(count);
  }

  // ---------------------------------------------------------------- the 4-row fixture

  /** `load_test_data()`: the four incidents of the unit tests, dates already parsed. */
  function Fixture(): Frame
  {
    Frame(["Busbreakdown_ID", "Occurred_On", "Reason", "Boro"], [0, 1, 2, 3],
          [[Int(1), Day(CalendarDate(2025, 2, 27)), Str("Mechanical"), Str("Manhattan")],
           [Int(2), Day(CalendarDate(2025, 2, 27)), Str("Accident"), Str("Bronx")],
           [Int(3), Day(CalendarDate(2025, 2, 28)), Str("Mechanical"), Str("Brooklyn")],
           [Int(4), Day(CalendarDate(2025, 3, 1)), Str("Weather"), Str("Queens")]])
  }

  /** The count over four cells, taken cell by cell. */
  lemma CountEqualOfFour(a: Cell, b: Cell, c: Cell, d: Cell, v: Cell)
    ensures CountEqual([a, b, c, d], v)
            == (if CellEquals(a, v) then 1 else 0) + (if CellEquals(b, v) then 1 else 0)
               + (if CellEquals(c, v) then 1 else 0) + (if CellEquals(d, v) then 1 else 0)
  {
    assert CountEqual([d], v) == (if CellEquals(d, v) then 1 else 0) + CountEqual([], v) by {
      assert [d][1..] == [];
    }
    assert CountEqual([c, d], v) == (if CellEquals(c, v) then 1 else 0) + CountEqual([d], v) by {
      assert [c, d][1..] == [d];
    }
    assert CountEqual([b, c, d], v) == (if CellEquals(b, v) then 1 else 0) + CountEqual([c, d], v) by {
      assert [b, c, d][1..] == [c, d];
    }
    assert [a, b, c, d][1..] == [b, c, d];
  }

  /** The fixture's `Reason` column, tallied for any value. */
  lemma ReasonTally(v: Cell)
    ensures CountEqual([Str("Mechanical"), Str("Accident"), Str("Mechanical"), Str("Weather")], v)
            == if v == Str("Mechanical") then 2 else if v == Str("Accident") || v == Str("Weather") then 1 else 0
  {
    CountEqualOfFour(Str("Mechanical"), Str("Accident"), Str("Mechanical"), Str("Weather"), v);
  }

  /** Counting any value in the fixture's `Reason` column. */
  lemma FixtureReasonCount(v: Cell)
    ensures WellShaped(Fixture())
    ensures ExpectedCount(Fixture(), "Reason", v)
            == Success(if v == Str("Mechanical") then 2 else if v == Str("Accident") || v == Str("Weather") then 1 else 0)
  {
    var reasons := Column(Fixture(), "Reason");
    assert reasons == [Str("Mechanical"), Str("Accident"), Str("Mechanical"), Str("Weather")];
    ReasonTally(v);
  }

  /** The fixture's `Boro` column, tallied for any value. */
  lemma BoroTally(v: Cell)
    ensures CountEqual([Str("Manhattan"), Str("Bronx"), Str("Brooklyn"), Str("Queens")], v)
            == if v == Str("Manhattan") || v == Str("Bronx") || v == Str("Brooklyn") || v == Str("Queens") then 1 else 0
  {
    CountEqualOfFour(Str("Manhattan"), Str("Bronx"), Str("Brooklyn"), Str("Queens"), v);
  }

  /** Counting any value in the fixture's `Boro` column: each borough occurs once. */
  lemma FixtureBoroCount(v: Cell)
    ensures WellShaped(Fixture())
    ensures ExpectedCount(Fixture(), "Boro", v)
            == Success(if v == Str("Manhattan") || v == Str("Bronx") || v == Str("Brooklyn") || v == Str("Queens") then 1 else 0)
  {
    var boros := Column(Fixture(), "Boro");
    assert boros == [Str("Manhattan"), Str("Bronx"), Str("Brooklyn"), Str("Queens")];
    BoroTally(v);
  }

  /** The fixture's `Occurred_On` column, tallied for any value. */
  lemma DateTally(v: Cell)
    ensures CountEqual([Day(CalendarDate(2025, 2, 27)), Day(CalendarDate(2025, 2, 27)),
                        Day(CalendarDate(2025, 2, 28)), Day(CalendarDate(2025, 3, 1))], v)
            == if v == Day(CalendarDate(2025, 2, 27)) then 2
               else if v == Day(CalendarDate(2025, 2, 28)) || v == Day(CalendarDate(2025, 3, 1)) then 1
               else 0
  {
    CountEqualOfFour(Day(CalendarDate(2025, 2, 27)), Day(CalendarDate(2025, 2, 27)),
                     Day(CalendarDate(2025, 2, 28)), Day(CalendarDate(2025, 3, 1)), v);
  }

  /** Counting any value in the fixture's `Occurred_On` column. */
  lemma FixtureDateCount(v: Cell)
    ensures WellShaped(Fixture())
    ensures ExpectedCount(Fixture(), "Occurred_On", v)
            == Success(if v == Day(CalendarDate(2025, 2, 27)) then 2
                       else if v == Day(CalendarDate(2025, 2, 28)) || v == Day(CalendarDate(2025, 3, 1)) then 1
                       else 0)
  {
    var days := Column(Fixture(), "Occurred_On");
    assert days == [Day(CalendarDate(2025, 2, 27)), Day(CalendarDate(2025, 2, 27)),
                    Day(CalendarDate(2025, 2, 28)), Day(CalendarDate(2025, 3, 1))];
    DateTally(v);
  }

  /** The `Reason` counts that `test_process_reason_request` expects of the fixture. */
  lemma FixtureReasonCounts()
    ensures WellShaped(Fixture())
    ensures ExpectedCount(Fixture(), "Reason", Str("Mechanical")) == Success(2)
    ensures ExpectedCount(Fixture(), "Reason", Str("Accident")) == Success(1)
    ensures ExpectedCount(Fixture(), "Reason", Str("Unknown")) == Success(0)
  {
    FixtureReasonCount(Str("Mechanical"));
    FixtureReasonCount(Str("Accident"));
    FixtureReasonCount(Str("Unknown"));
  }

  /** The `Boro` counts that `test_process_boro_request` expects of the fixture. */
  lemma FixtureBoroCounts()
    ensures WellShaped(Fixture())
    ensures ExpectedCount(Fixture(), "Boro", Str("Manhattan")) == Success(1)
    ensures ExpectedCount(Fixture(), "Boro", Str("Bronx")) == Success(1)
    ensures ExpectedCount(Fixture(), "Boro", Str("Unknown")) == Success(0)
  {
    FixtureBoroCount(Str("Manhattan"));
    FixtureBoroCount(Str("Bronx"));
    FixtureBoroCount(Str("Unknown"));
  }

  /** The `Occurred_On` counts that `test_process_date_request` expects of the fixture. */
  lemma FixtureDateCounts()
    ensures WellShaped(Fixture())
    ensures ExpectedCount(Fixture(), "Occurred_On", Day(CalendarDate(2025, 2, 27))) == Success(2)
    ensures ExpectedCount(Fixture(), "Occurred_On", Day(CalendarDate(2025, 3, 1))) == Success(1)
    ensures ExpectedCount(Fixture(), "Occurred_On", Day(CalendarDate(2025, 3, 2))) == Success(0)
  {
    FixtureDateCount(Day(CalendarDate(2025, 2, 27)));
    FixtureDateCount(Day(CalendarDate(2025, 3, 1)));
    FixtureDateCount(Day(CalendarDate(2025, 3, 2)));
  }
}
