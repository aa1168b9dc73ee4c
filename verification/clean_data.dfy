/**
  `clean_data` of test.py: every cell whose lower-cased string form is
  "nan" or "none" becomes `None`, and the row index is reset to 0..n-1.
 */
module CleanData {
  import opened Text

  /** A cell of the incident frame as pandas holds it once loaded. */
  datatype Cell =
    | Null                     // None
    | NaN                      // float('nan'), pandas' missing number
    | Int(i: int)              // Busbreakdown_ID and other integer columns
    | Str(s: string)           // Reason, Boro and other text columns
    | Day(date: CalendarDate)  // Occurred_On after `.dt.date`

  /** Python's `str(x)` of a cell. */
  function Stringify(c: Cell): string
  {
    match c
    case Null => "None"
    case NaN => "nan"
    case Int(i) => ShowInt(i)
    case Str(s) => s
    case Day(d) => IsoDate(d)
  }

  /** `str(x).lower() in ['nan', 'none']`. */
  predicate IsNullToken(c: Cell)
  {
    Lower(Stringify(c)) == "nan" || Lower(Stringify(c)) == "none"
  }

  /** A string that starts with a digit or a minus sign is not a null token in any case. */
  lemma NumericTextIsNoToken(s: string)
    requires |s| > 0 && (IsDigit(s[0]) || s[0] == '-')
    ensures Lower(s) != "nan" && Lower(s) != "none"
  {
    assert Lower(s)[0] == s[0];
    assert "nan"[0] == 'n' && "none"[0] == 'n';
  }

  /** An ISO date is too long to be a null token. */
  lemma DateTextIsNoToken(d: CalendarDate)
    ensures Lower(IsoDate(d)) != "nan" && Lower(IsoDate(d)) != "none"
  {
    var y, m, dd := ZeroPad(ShowNat(d.year), 4), ZeroPad(ShowNat(d.month), 2), ZeroPad(ShowNat(d.day), 2);
    assert |y| >= 4 && |m| >= 2 && |dd| >= 2;
    var s := IsoDate(d);
    assert |s| == |y| + 1 + |m| + 1 + |dd|;
    assert |Lower(s)| >= 10;
  }

  /** The cells `clean_data` rewrites are exactly `None`, NaN and the strings "nan" and "none" in any case. */
  lemma NullTokenCells(c: Cell)
    ensures IsNullToken(c) <==>
      (c == Null || c == NaN || (c.Str? && (Lower(c.s) == "nan" || Lower(c.s) == "none")))
  {
    match c
    case Null => assert Lower("None") == "none";
    case NaN => assert Lower("nan") == "nan";
    case Str(_) =>
    case Int(i) => NumericTextIsNoToken(ShowInt(i));
    case Day(d) => DateTextIsNoToken(d);
  }

  /** A text cell is a null token exactly when it spells "nan" or "none" in any mix of cases. */
  lemma NullTokenSpellings(s: string)
    ensures IsNullToken(Str(s)) <==> CaseVariant(s, "nan") || CaseVariant(s, "none")
  {
    LowerIsCaseVariant(s, "nan");
    LowerIsCaseVariant(s, "none");
  }

  /** The cell-wise rewrite of `clean_data`. */
  function Normalize(c: Cell): (r: Cell)
    ensures r == Null || r == c
    ensures r == Null <==> IsNullToken(c)
  {
    NullTokenCells(c);
    if IsNullToken(c) then Null else c
  }

  /** "NaN", "nan", "None" and "NONE" all become the same marker, as do NaN and None. */
  lemma NullSpellingsCollapse()
    ensures Normalize(Str("NaN")) == Normalize(Str("nan")) == Null
    ensures Normalize(Str("None")) == Normalize(Str("NONE")) == Null
    ensures Normalize(NaN) == Normalize(Null) == Null
  {
    assert Lower("NaN") == "nan";
    assert Lower("nan") == "nan";
    assert Lower("None") == "none";
    assert Lower("NONE") == "none";
  }

  /** Rewriting an already rewritten cell changes nothing. */
  lemma NormalizeIdempotent(c: Cell)
    ensures Normalize(Normalize(c)) == Normalize(c)
  {
    NullTokenCells(Null);
  }

  /** A frame: column headers, the row index and the rows of cells. */
  datatype Frame = Frame(columns: seq<string>, index: seq<int>, rows: seq<seq<Cell>>)

  /** Every row has one cell per column and one index label. */
  predicate WellShaped(f: Frame)
  {
    && |f.index| == |f.rows|
    && forall i :: 0 <= i < |f.rows| ==> |f.rows[i]| == |f.columns|
  }

  /** `data.map(...)` followed by `reset_index(drop=True)`. */
  function Clean(f: Frame): (r: Frame)
    ensures r.columns == f.columns
    ensures |r.rows| == |f.rows|
    ensures forall i :: 0 <= i < |f.rows| ==> |r.rows[i]| == |f.rows[i]|
    ensures forall i, j :: 0 <= i < |f.rows| && 0 <= j < |f.rows[i]| ==>
              && (r.rows[i][j] == Null <==> IsNullToken(f.rows[i][j]))
              && (r.rows[i][j] == Null || r.rows[i][j] == f.rows[i][j])
    ensures |r.index| == |f.rows| && forall i :: 0 <= i < |r.index| ==> r.index[i] == i
    ensures WellShaped(f) ==> WellShaped(r)
  {
    Frame(f.columns,
          seq(|f.rows|, i => i),
          seq(|f.rows|, i requires 0 <= i < |f.rows| =>
            seq(|f.rows[i]|, j requires 0 <= j < |f.rows[i]| => Normalize(f.rows[i][j]))))
  }

  /** No cell of a cleaned frame is a null token other than the marker itself. */
  lemma CleanLeavesOnlyMarker(f: Frame)
    ensures forall i, j :: 0 <= i < |Clean(f).rows| && 0 <= j < |Clean(f).rows[i]| ==>
              (IsNullToken(Clean(f).rows[i][j]) <==> Clean(f).rows[i][j] == Null)
  {
    NullTokenCells(Null);
  }

  /** Cleaning twice is cleaning once. */
  lemma CleanIdempotent(f: Frame)
    ensures Clean(Clean(f)) == Clean(f)
  {
    var once := Clean(f);
    var twice := Clean(once);
    forall i | 0 <= i < |f.rows|
      ensures twice.rows[i] == once.rows[i]
    {
      forall j | 0 <= j < |f.rows[i]|
        ensures twice.rows[i][j] == once.rows[i][j]
      {
        NormalizeIdempotent(f.rows[i][j]);
      }
    }
  }
}
