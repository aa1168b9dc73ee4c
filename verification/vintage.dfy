/**
  `get_latest_data` (load_functions.py): derives the real-time CPI vintage
  column name from a `YYYY-MM-DD` pull date and projects the downloaded
  frame onto `DATE` and that column, renamed `CPI`.
 */
module Vintage {
  import opened Wrappers
  import opened Text

  /** A `DATE` cell of the CPI workbook; dates are only ever compared for equality. */
  type Date = string

  /** A CPI reading; readings are only ever compared for equality. */
  type Cpi = real

  /** One row of a `(DATE, CPI)` frame or of `cpi_table`; a missing reading (NaN / NULL) is `None`. */
  datatype Row = Row(date: Date, cpi: Option<Cpi>)

  /**
    The downloaded workbook: the `DATE` column and one column of readings per
    vintage, keyed by its header (`PCPI25M3`, ...).
   */
  datatype RawFrame = RawFrame(dates: seq<Date>, vintages: map<string, seq<Option<Cpi>>>)

  /** Every column of a frame is as long as the `DATE` column. */
  predicate Rectangular(raw: RawFrame)
  {
    forall name :: name in raw.vintages ==> |raw.vintages[name]| == |raw.dates|
  }

  /** The exceptions `get_latest_data` can raise. */
  datatype LoadError =
    | MalformedPullDate(parts: nat)   // unpacking the split into year, month, day fails
    | NonNumericMonth(month: string)  // `int(month)` fails
    | MissingColumn(name: string)     // the vintage column is not in the frame

  /** The `year[2:]` slice: empty when the year has fewer than two characters. */
  function DropCentury(year: string): string
  {
    if |year| >= 2 then year[2..] else []
  }

  /** `f'PCPI{year[2:]}M{int(month)}'` for a pull date `year-month-day`. */
  function VintageColumn(pullDate: string): (r: Result<string, LoadError>)
    ensures Occurrences(pullDate, '-') != 2 <==> r.Failure? && r.error.MalformedPullDate?
    ensures r.Success? ==> |r.value| > 4 && r.value[..4] == "PCPI" && 'M' in r.value[4..]
  {
    var parts := Split(pullDate, '-');
    if |parts| != 3 then Failure(MalformedPullDate(|parts|))
    else
      var year, month := parts[0], parts[1];
      match ParseInt(month)
      case None => Failure(NonNumericMonth(month))
      case Some(m) =>
        var name := "PCPI" + DropCentury(year) + "M" + ShowInt(m);
        assert name[4..][|DropCentury(year)|] == 'M';
        Success(name)
  }

  /**
    For a pull date made of three separator-free parts whose month is a string
    of digits, the column is `PCPI`, the year without its first two
    characters, `M`, and the month without leading zeros.
   */
  lemma VintageColumnOfParts(year: string, month: string, day: string)
    requires '-' !in year && '-' !in month && '-' !in day
    requires month != [] && AllDigits(month)
    ensures VintageColumn(year + "-" + month + "-" + day)
         == Success("PCPI" + DropCentury(year) + "M" + DropLeadingZeros(month))
  {
    SplitThree(year, month, day, '-');
    ShowNatDropsLeadingZeros(month);
    assert month[0] != '+' && month[0] != '-' by { assert IsDigit(month[0]); }
  }

  /** A month that is not a number is an error, whatever the year and day. */
  lemma NonNumericMonthFails(year: string, month: string, day: string)
    requires '-' !in year && '-' !in month && '-' !in day
    requires ParseInt(month).None?
    ensures VintageColumn(year + "-" + month + "-" + day) == Failure(NonNumericMonth(month))
  {
    SplitThree(year, month, day, '-');
  }

  /** The column for a date formatted with `strftime('%Y-%m-%d')`, as `measure_time` passes it. */
  lemma VintageColumnOfIsoDate(d: CalendarDate)
    ensures VintageColumn(IsoDate(d))
         == Success("PCPI" + DropCentury(ZeroPad(ShowNat(d.year), 4)) + "M" + ShowNat(d.month))
  {
    var y, m, dd := ZeroPad(ShowNat(d.year), 4), ZeroPad(ShowNat(d.month), 2), ZeroPad(ShowNat(d.day), 2);
    IsoDateParts(d);
    assert IsoDate(d) == y + "-" + m + "-" + dd;
    assert m != [];
    ZeroPadValue(ShowNat(d.month), 2);
    assert DigitsValue(m) == d.month by { DigitsValueShowNat(d.month); }
    assert DropLeadingZeros(m) == ShowNat(d.month) by { ShowNatDropsLeadingZeros(m); }
    VintageColumnOfParts(y, m, dd);
  }

  /** The pull of 1 March 2025 reads vintage column `PCPI25M3`. */
  lemma March2025Column(pullDate: string)
    requires pullDate == "2025-03-01"
    ensures VintageColumn(pullDate) == Success("PCPI25M3")
  {
    SplitThree("2025", "03", "01", '-');
    assert "2025" + "-" + "03" + "-" + "01" == pullDate;
    var month := "03";
    assert AllDigits(month);
    assert month[..1] == "0";
    assert DigitsValue(month) == 3;
    assert DropCentury("2025") == "25";
    assert ShowInt(3) == "3";
    assert "PCPI" + "25" + "M" + "3" == "PCPI25M3";
  }

  /**
    `get_latest_data`: the `DATE` column beside the vintage column for the
    pull date, renamed `CPI`, with the rows of the input in their order.
   */
  function GetLatestData(raw: RawFrame, pullDate: string): (r: Result<seq<Row>, LoadError>)
    requires Rectangular(raw)
    ensures VintageColumn(pullDate).Failure? ==> r == Failure(VintageColumn(pullDate).error)
    ensures VintageColumn(pullDate).Success? && VintageColumn(pullDate).value !in raw.vintages
            ==> r == Failure(MissingColumn(VintageColumn(pullDate).value))
    ensures r.Success? ==>
              && VintageColumn(pullDate).Success?
              && VintageColumn(pullDate).value in raw.vintages
              && |r.value| == |raw.dates|
              && forall i :: 0 <= i < |r.value| ==>
                   r.value[i] == Row(raw.dates[i], raw.vintages[VintageColumn(pullDate).value][i])
  {
    match VintageColumn(pullDate)
    case Failure(e) => Failure(e)
    case Success(name) =>
      if name !in raw.vintages then Failure(MissingColumn(name))
      else
        var readings := raw.vintages[name];
        Success(seq(|raw.dates|, i requires 0 <= i < |raw.dates| => Row(raw.dates[i], readings[i])))
  }
}
