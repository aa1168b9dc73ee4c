/**
  What the three refresh policies of load_functions.py do to the rows of
  `cpi_table`, stated on values: `update_append`, `update_truncate` and
  `update_incremental`, given the `(DATE, CPI)` rows of the latest pull.
  The methods in LoadFunctions perform the same updates in place.
 */
module Refresh {
  import opened Wrappers
  import opened Text
  import opened Vintage
  import opened Bags

  // ---------------------------------------------------------------- row filters

  /** The rows of `s` that satisfy `p`, in their order (a boolean-mask selection). */
  function Filter(s: seq<Row>, p: Row -> bool): (r: seq<Row>)
    ensures |r| <= |s|
    ensures forall x :: x in r <==> x in s && p(x)
    ensures forall x :: multiset(r)[x] == if p(x) then multiset(s)[x] else 0
    decreases |s|
  {
    if s == [] then []
    else
      assert s == [s[0]] + s[1..];
      (if p(s[0]) then [s[0]] else []) + Filter(s[1..], p)
  }

  /** Two masks that agree on every row select the same rows. */
  lemma {:induction false} FilterCongruent(s: seq<Row>, p: Row -> bool, q: Row -> bool)
    requires forall x :: x in s ==> p(x) == q(x)
    ensures Filter(s, p) == Filter(s, q)
    decreases |s|
  {
    if s != [] {
      FilterCongruent(s[1..], p, q);
    }
  }

  /** A mask that holds for every row selects them all. */
  lemma {:induction false} FilterKeepsAll(s: seq<Row>, p: Row -> bool)
    requires forall x :: x in s ==> p(x)
    ensures Filter(s, p) == s
    decreases |s|
  {
    if s != [] {
      FilterKeepsAll(s[1..], p);
    }
  }

  /** A selection with no member is empty. */
  lemma {:induction false} EmptyWhenNothingSelected(s: seq<Row>, p: Row -> bool)
    requires forall x :: x in s ==> !p(x)
    ensures Filter(s, p) == []
    decreases |s|
  {
    if s != [] {
      assert s[0] in s;
      EmptyWhenNothingSelected(s[1..], p);
    }
  }

  /** The values of the `DATE` column of some rows. */
  function DatesOf(rows: seq<Row>): (dates: set<Date>)
    ensures forall x :: x in rows ==> x.date in dates
    ensures forall d :: d in dates ==> exists x :: x in rows && x.date == d
  {
    set x | x in rows :: x.date
  }

  /** No `CPI` in the rows is missing. */
  predicate NoMissing(rows: seq<Row>)
  {
    forall x :: x in rows ==> x.cpi.Some?
  }

  /** No date occurs in two of the rows. */
  predicate UniqueDates(rows: seq<Row>)
  {
    forall i, j :: 0 <= i < j < |rows| ==> rows[i].date != rows[j].date
  }

  /** `dropna(subset=['CPI'])`. */
  function KeepPresent(rows: seq<Row>): (r: seq<Row>)
    ensures NoMissing(r)
    ensures forall x :: x in r <==> x in rows && x.cpi.Some?
    ensures forall x :: multiset(r)[x] == if x.cpi.Some? then multiset(rows)[x] else 0
  {
    Filter(rows, (x: Row) => x.cpi.Some?)
  }

  // ---------------------------------------------------------------- update_append

  /** The latest rows `update_append` inserts: reading present, date not yet in the table. */
  function FreshRows(existing: seq<Row>, latest: seq<Row>): (r: seq<Row>)
    ensures NoMissing(r)
    ensures forall x :: x in r <==> x in latest && x.cpi.Some? && x.date !in DatesOf(existing)
    ensures forall x :: multiset(r)[x] == if x.cpi.Some? && x.date !in DatesOf(existing) then multiset(latest)[x] else 0
  {
    var known := DatesOf(existing);
    Filter(KeepPresent(latest), (x: Row) => x.date !in known)
  }

  /** The table after `update_append`: every old row in place, then the fresh rows. */
  function AfterAppend(existing: seq<Row>, latest: seq<Row>): (r: seq<Row>)
    ensures |r| >= |existing| && r[..|existing|] == existing
    ensures forall x :: x in r[|existing|..] <==> x in latest && x.cpi.Some? && x.date !in DatesOf(existing)
    ensures forall x :: multiset(r[|existing|..])[x] ==
              if x.cpi.Some? && x.date !in DatesOf(existing) then multiset(latest)[x] else 0
  {
    var r := existing + FreshRows(existing, latest);
    assert r[|existing|..] == FreshRows(existing, latest);
    r
  }

  /** After `update_append`, every date with a reading in the latest data is in the table. */
  lemma AppendCoversLatest(existing: seq<Row>, latest: seq<Row>)
    ensures forall x :: x in latest && x.cpi.Some? ==> x.date in DatesOf(AfterAppend(existing, latest))
  {
    var r := AfterAppend(existing, latest);
    assert r == existing + FreshRows(existing, latest);
    forall x | x in latest && x.cpi.Some?
      ensures x.date in DatesOf(r)
    {
      if x.date !in DatesOf(existing) {
        assert x in FreshRows(existing, latest);
        assert x in r;
      } else {
        var y :| y in existing && y.date == x.date;
        assert y in r;
      }
    }
  }

  /** When every latest date is already in the table, `update_append` leaves it unchanged. */
  lemma AppendUnchangedWhenNothingNew(existing: seq<Row>, latest: seq<Row>)
    requires forall x :: x in latest && x.cpi.Some? ==> x.date in DatesOf(existing)
    ensures AfterAppend(existing, latest) == existing
  {
    var known := DatesOf(existing);
    EmptyWhenNothingSelected(KeepPresent(latest), (x: Row) => x.date !in known);
  }

  /** A second `update_append` with the same latest data adds nothing. */
  lemma AppendIdempotent(existing: seq<Row>, latest: seq<Row>)
    ensures AfterAppend(AfterAppend(existing, latest), latest) == AfterAppend(existing, latest)
  {
    AppendCoversLatest(existing, latest);
    AppendUnchangedWhenNothingNew(AfterAppend(existing, latest), latest);
  }

  // ---------------------------------------------------------------- update_truncate

  /** The table after `update_truncate`: the latest rows with a reading, whatever it held before. */
  function AfterTruncate(latest: seq<Row>): (r: seq<Row>)
    ensures NoMissing(r)
    ensures forall x :: x in r <==> x in latest && x.cpi.Some?
    ensures forall x :: multiset(r)[x] == if x.cpi.Some? then multiset(latest)[x] else 0
    ensures latest == [] ==> r == []
  {
    KeepPresent(latest)
  }

  // ---------------------------------------------------------------- update_incremental

  /** The number of table rows that have `l`'s date but another reading (a NULL reading included). */
  function Disagreeing(l: Row, existing: seq<Row>): (n: nat)
    ensures n <= |existing|
    ensures n == 0 <==> forall e :: e in existing && e.date == l.date ==> e.cpi == l.cpi
    decreases |existing|
  {
    if existing == [] then 0
    else (if existing[0].date == l.date && existing[0].cpi != l.cpi then 1 else 0) + Disagreeing(l, existing[1..])
  }

  /**
    The merged rows `(DATE, CPI_new, CPI_old)` of one latest row `l` against
    the table that pass the test `CPI_new != CPI_old`, projected to `(DATE, CPI_new)`:
    one copy of `l` per table row with the same date and a different reading.
   */
  function Mismatches(l: Row, existing: seq<Row>): (r: seq<Row>)
    ensures forall x :: x in r <==> (x == l && exists e :: e in existing && e.date == l.date && e.cpi != l.cpi)
    ensures r == [] <==> forall e :: e in existing && e.date == l.date ==> e.cpi == l.cpi
    decreases |existing|
  {
    if existing == [] then []
    else
      (if existing[0].date == l.date && existing[0].cpi != l.cpi then [l] else [])
      + Mismatches(l, existing[1..])
  }

  /** The merge yields one copy of `l` per table row of its date with another reading, and nothing else. */
  lemma {:induction false} MismatchesCopies(l: Row, existing: seq<Row>)
    ensures forall x :: multiset(Mismatches(l, existing))[x] == if x == l then Disagreeing(l, existing) else 0
    decreases |existing|
  {
    if existing != [] {
      MismatchesCopies(l, existing[1..]);
    }
  }

  /**
    How many rows the left merge and its filter emit for one latest row `l`:
    one (with `CPI_old` NaN) when no table row has its date, otherwise one per
    table row of its date with another reading.
   */
  function Copies(l: Row, existing: seq<Row>): nat
  {
    if l.date !in DatesOf(existing) then 1 else Disagreeing(l, existing)
  }

  /** The rows of `updated_data` that come from one latest row `l`. */
  function Emitted(l: Row, existing: seq<Row>): seq<Row>
  {
    if l.date !in DatesOf(existing) then [l] else Mismatches(l, existing)
  }

  /** A latest row `l` contributes `Copies(l, existing)` copies of itself to `updated_data`, and nothing else. */
  lemma {:induction false} EmittedCopies(l: Row, existing: seq<Row>)
    ensures forall x :: multiset(Emitted(l, existing))[x] == if x == l then Copies(l, existing) else 0
  {
    MismatchesCopies(l, existing);
  }

  /**
    `updated_data` of `update_incremental`: the left merge of the present latest
    rows with the table on `DATE`, keeping a row when no table row has its date
    (`CPI_old` is NaN) or when the readings differ.
   */
  function Changed(present: seq<Row>, existing: seq<Row>): (u: seq<Row>)
    ensures forall x :: x in u <==>
      (x in present && (x.date !in DatesOf(existing) || exists e :: e in existing && e.date == x.date && e.cpi != x.cpi))
    decreases |present|
  {
    if present == [] then []
    else
      var l := present[0];
      assert l.date in DatesOf(existing) ==> Emitted(l, existing) == Mismatches(l, existing);
      Emitted(l, existing) + Changed(present[1..], existing)
  }

  /**
    `updated_data` holds each latest row as often as it occurs in the latest
    data times the number of rows the merge emits for it.
   */
  lemma {:induction false} ChangedCopies(present: seq<Row>, existing: seq<Row>, x: Row)
    ensures multiset(Changed(present, existing))[x] == multiset(present)[x] * Copies(x, existing)
    decreases |present|
  {
    if present != [] {
      var l, rest := present[0], present[1..];
      var k := Copies(x, existing);
      var m := multiset(rest)[x];
      ChangedCopies(rest, existing, x);
      assert multiset(Changed(rest, existing))[x] == m * k;
      assert Changed(present, existing) == Emitted(l, existing) + Changed(rest, existing);
      assert multiset(Changed(present, existing))[x] == multiset(Emitted(l, existing))[x] + m * k;
      EmittedCopies(l, existing);
      assert multiset(Emitted(l, existing))[x] == if x == l then k else 0;
      MultisetCons(present);
      assert multiset(present)[x] == (if x == l then 1 else 0) + m;
      if x == l {
        MulSucc(m, k);
      }
    }
  }

  /**
    The table after `update_incremental`: an empty table receives every latest
    row with a reading; otherwise the rows whose date has a changed or new
    reading are deleted and the changed rows appended.
   */
  function AfterIncremental(existing: seq<Row>, latest: seq<Row>): (r: seq<Row>)
    ensures existing == [] ==> forall x :: x in r <==> x in latest && x.cpi.Some?
    ensures existing == [] ==> forall x :: multiset(r)[x] == if x.cpi.Some? then multiset(latest)[x] else 0
    ensures forall x :: x in r ==> x in existing || (x in latest && x.cpi.Some?)
  {
    var present := KeepPresent(latest);
    if existing == [] then present
    else
      var updates := Changed(present, existing);
      if updates == [] then existing
      else
        var gone := DatesOf(updates);
        Filter(existing, (e: Row) => e.date !in gone) + updates
  }

  /**
    On a non-empty table, whatever the latest data holds: every row of a date
    in `updated_data` is deleted, other rows keep their copies, and each latest
    row with a reading is appended once per row the merge emits for it.
   */
  lemma {:induction false} IncrementalReplacesChangedDates(existing: seq<Row>, latest: seq<Row>)
    requires existing != []
    ensures var u, r := Changed(KeepPresent(latest), existing), AfterIncremental(existing, latest);
      && (forall x :: multiset(r)[x] ==
            (if x.date in DatesOf(u) then 0 else multiset(existing)[x])
            + (if x.cpi.Some? then multiset(latest)[x] * Copies(x, existing) else 0))
      && (forall x :: x in u ==> x in r)
      && (forall e :: e in existing && e.date in DatesOf(u) && e !in u ==> e !in r)
  {
    var present := KeepPresent(latest);
    var u, r := Changed(present, existing), AfterIncremental(existing, latest);
    var gone := DatesOf(u);
    forall x: Row {
      ChangedCopies(present, existing, x);
    }
    if u != [] {
      assert r == Filter(existing, (e: Row) => e.date !in gone) + u;
    }
    forall x: Row
      ensures multiset(r)[x] == (if x.date in gone then 0 else multiset(existing)[x]) + multiset(u)[x]
    {
    }
  }

  /**
    A table row keeps all its copies through `update_incremental` when every
    latest reading for its date equals every table reading for that date; in
    particular when its date is not in the latest data at all.
   */
  lemma IncrementalKeepsAgreeingRows(existing: seq<Row>, latest: seq<Row>, e: Row)
    requires e in existing
    requires forall l :: l in latest && l.cpi.Some? && l.date == e.date ==>
               forall e2 :: e2 in existing && e2.date == e.date ==> e2.cpi == l.cpi
    ensures multiset(AfterIncremental(existing, latest))[e] == multiset(existing)[e]
    ensures e in AfterIncremental(existing, latest)
  {
    var present := KeepPresent(latest);
    var u := Changed(present, existing);
    assert e.date in DatesOf(existing);
    forall x | x in u
      ensures x.date != e.date
    {
      assert x in present;
    }
    assert e.date !in DatesOf(u);
    IncrementalReplacesChangedDates(existing, latest);
    if e.cpi.Some? && e in latest {
      assert Disagreeing(e, existing) == 0;
    }
  }

  /**
    A table row whose reading agrees with every latest reading of its date is
    still in the table after `update_incremental`, though it may lose copies
    when other table rows of that date disagree.
   */
  lemma IncrementalKeepsAgreedReading(existing: seq<Row>, latest: seq<Row>, e: Row)
    requires e in existing
    requires forall l :: l in latest && l.cpi.Some? && l.date == e.date ==> l.cpi == e.cpi
    ensures e in AfterIncremental(existing, latest)
  {
    var u := Changed(KeepPresent(latest), existing);
    IncrementalReplacesChangedDates(existing, latest);
    if e.date in DatesOf(u) {
      var x :| x in u && x.date == e.date;
      assert x in KeepPresent(latest);
      assert x == e;
    }
  }

  /** Rows whose date has no reading in the latest data keep all their copies through `update_incremental`. */
  lemma IncrementalKeepsUnlistedDates(existing: seq<Row>, latest: seq<Row>, e: Row)
    requires e in existing
    requires e.date !in DatesOf(KeepPresent(latest))
    ensures multiset(AfterIncremental(existing, latest))[e] == multiset(existing)[e]
  {
    forall l | l in latest && l.cpi.Some? && l.date == e.date
      ensures false
    {
      assert l in KeepPresent(latest);
    }
    IncrementalKeepsAgreeingRows(existing, latest, e);
  }

  /** Two rows of a table with unique dates that share a date are the same row. */
  lemma SameDateSameRow(rows: seq<Row>, x: Row, y: Row)
    requires UniqueDates(rows) && x in rows && y in rows && x.date == y.date
    ensures x == y
  {
    var i :| 0 <= i < |rows| && rows[i] == x;
    var j :| 0 <= j < |rows| && rows[j] == y;
    assert i == j;
  }

  /**
    When the latest data has one reading per date, `update_incremental` leaves
    that row in the table and no other row for its date.
   */
  lemma IncrementalInstallsLatest(existing: seq<Row>, latest: seq<Row>, l: Row)
    requires UniqueDates(KeepPresent(latest))
    requires l in latest && l.cpi.Some?
    ensures l in AfterIncremental(existing, latest)
    ensures forall x :: x in AfterIncremental(existing, latest) && x.date == l.date ==> x == l
  {
    var present := KeepPresent(latest);
    var r := AfterIncremental(existing, latest);
    assert l in present;
    if existing == [] {
      forall x | x in r && x.date == l.date
        ensures x == l
      {
        SameDateSameRow(present, x, l);
      }
    } else {
      var updates := Changed(present, existing);
      var gone := DatesOf(updates);
      if l.date in gone {
        var u :| u in updates && u.date == l.date;
        SameDateSameRow(present, u, l);
        assert r == Filter(existing, (e: Row) => e.date !in gone) + updates;
        forall x | x in r && x.date == l.date
          ensures x == l
        {
          if x in updates {
            SameDateSameRow(present, x, l);
          }
        }
      } else {
        assert l !in updates;
        assert forall e :: e in existing && e.date == l.date ==> e.cpi == l.cpi;
        var e :| e in existing && e.date == l.date;
        assert e == l;
        forall x | x in r && x.date == l.date
          ensures x == l
        {
          if x !in updates {
            assert x in existing;
          }
        }
        if updates != [] {
          assert l in Filter(existing, (e1: Row) => e1.date !in gone);
        }
      }
    }
  }

  /** Latest rows whose date is in the table with that same reading everywhere change nothing. */
  lemma {:induction false} NothingChangedWhenAgreeing(present: seq<Row>, existing: seq<Row>)
    requires forall l :: l in present ==>
               && l.date in DatesOf(existing)
               && forall e :: e in existing && e.date == l.date ==> e.cpi == l.cpi
    ensures Changed(present, existing) == []
    decreases |present|
  {
    if present != [] {
      assert present[0] in present;
      NothingChangedWhenAgreeing(present[1..], existing);
    }
  }

  /**
    When the latest data has one reading per date, a second `update_incremental`
    with the same data changes nothing.
   */
  lemma IncrementalIdempotent(existing: seq<Row>, latest: seq<Row>)
    requires UniqueDates(KeepPresent(latest))
    ensures AfterIncremental(AfterIncremental(existing, latest), latest) == AfterIncremental(existing, latest)
  {
    var present := KeepPresent(latest);
    var r := AfterIncremental(existing, latest);
    forall l | l in present
      ensures l.date in DatesOf(r)
      ensures forall e :: e in r && e.date == l.date ==> e.cpi == l.cpi
    {
      IncrementalInstallsLatest(existing, latest, l);
    }
    NothingChangedWhenAgreeing(present, r);
  }

  /** A latest row against a one-row table of its date: emitted only when the readings differ. */
  lemma EmittedAgainstOne(l: Row, e: Row)
    requires l.date == e.date
    ensures Emitted(l, [e]) == if l.cpi == e.cpi then [] else [l]
  {
    assert e in [e];
    assert [e][1..] == [];
  }

  /** `updated_data` of two latest rows is what each of them emits, in order. */
  lemma {:induction false} ChangedOfTwo(l1: Row, l2: Row, existing: seq<Row>)
    ensures Changed([l1, l2], existing) == Emitted(l1, existing) + Emitted(l2, existing)
  {
    assert [l1, l2][1..] == [l2];
    assert [l2][1..] == [];
    assert Changed([l2], existing) == Emitted(l2, existing) + [];
  }

  /** When `updated_data` covers every date of a non-empty table, the table becomes `updated_data`. */
  lemma {:induction false} IncrementalReplacesAll(existing: seq<Row>, latest: seq<Row>)
    requires existing != [] && Changed(KeepPresent(latest), existing) != []
    requires forall e :: e in existing ==> e.date in DatesOf(Changed(KeepPresent(latest), existing))
    ensures AfterIncremental(existing, latest) == Changed(KeepPresent(latest), existing)
  {
    var gone := DatesOf(Changed(KeepPresent(latest), existing));
    EmptyWhenNothingSelected(existing, (e: Row) => e.date !in gone);
  }

  /** Two readings of one date against a table holding one of them: the other one replaces it. */
  lemma IncrementalSwapsReading(a: Row, b: Row, t: Row)
    requires a.date == b.date == t.date && a.cpi.Some? && b.cpi.Some? && a != b
    requires t == a || t == b
    ensures AfterIncremental([t], [a, b]) == if t == a then [b] else [a]
  {
    FilterKeepsAll([a, b], (x: Row) => x.cpi.Some?);
    ChangedOfTwo(a, b, [t]);
    EmittedAgainstOne(a, t);
    EmittedAgainstOne(b, t);
    var u := if t == a then [b] else [a];
    assert Changed([a, b], [t]) == u;
    assert t.date in DatesOf(u) by {
      assert u[0] in u;
    }
    IncrementalReplacesAll([t], [a, b]);
  }

  /**
    Without one reading per date, a second `update_incremental` need not be a
    no-op: with two readings `v` and `w` for one date, a table holding `v`
    gets `w` and a table holding `w` gets `v`, so the table flips on every run
    and after a run the latest row of the table's old reading is absent.
   */
  lemma IncrementalAlternates(d: Date, v: Cpi, w: Cpi)
    requires v != w
    ensures var table, latest := [Row(d, Some(v))], [Row(d, Some(v)), Row(d, Some(w))];
      && AfterIncremental(table, latest) == [Row(d, Some(w))]
      && AfterIncremental(AfterIncremental(table, latest), latest) == table
  {
    var a, b := Row(d, Some(v)), Row(d, Some(w));
    IncrementalSwapsReading(a, b, a);
    IncrementalSwapsReading(a, b, b);
  }

  /** A latest row whose date is in the table emits its mismatches. */
  lemma EmittedWhenDatePresent(l: Row, existing: seq<Row>, e: Row)
    requires e in existing && e.date == l.date
    ensures Emitted(l, existing) == Mismatches(l, existing)
  {
  }

  /** The merge of `l` against a table whose first row is `e`. */
  lemma {:induction false} MismatchesCons(l: Row, e: Row, rest: seq<Row>)
    ensures Mismatches(l, [e] + rest) == (if e.date == l.date && e.cpi != l.cpi then [l] else []) + Mismatches(l, rest)
  {
    assert ([e] + rest)[1..] == rest;
  }

  /** One of three readings of a date, against a table holding the three: it is emitted twice. */
  lemma EmittedTwiceAmongThree(l: Row, x: Row, y: Row, z: Row)
    requires l.date == x.date == y.date == z.date
    requires x.cpi != y.cpi && y.cpi != z.cpi && x.cpi != z.cpi
    requires l == x || l == y || l == z
    ensures Emitted(l, [x, y, z]) == [l, l]
  {
    assert [z] + [] == [z] && [y] + [z] == [y, z] && [x] + [y, z] == [x, y, z];
    EmittedWhenDatePresent(l, [x, y, z], x);
    MismatchesCons(l, z, []);
    MismatchesCons(l, y, [z]);
    MismatchesCons(l, x, [y, z]);
    assert Mismatches(l, []) == [];
    if l == x {
      assert Mismatches(l, [z]) == [l] + [] == [l];
      assert Mismatches(l, [y, z]) == [l] + [l] == [l, l];
      assert Mismatches(l, [x, y, z]) == [] + [l, l];
    } else if l == y {
      assert Mismatches(l, [z]) == [l] + [] == [l];
      assert Mismatches(l, [y, z]) == [] + [l] == [l];
      assert Mismatches(l, [x, y, z]) == [l] + [l];
    } else {
      assert Mismatches(l, [z]) == [] + [] == [];
      assert Mismatches(l, [y, z]) == [l] + [] == [l];
      assert Mismatches(l, [x, y, z]) == [l] + [l];
    }
  }

  /** `updated_data` of three latest rows is what each of them emits, in order. */
  lemma {:induction false} ChangedOfThree(l1: Row, l2: Row, l3: Row, existing: seq<Row>)
    ensures Changed([l1, l2, l3], existing) == Emitted(l1, existing) + Emitted(l2, existing) + Emitted(l3, existing)
  {
    assert [l1, l2, l3][1..] == [l2, l3];
    ChangedOfTwo(l2, l3, existing);
  }

  /** Every row of a table without missing readings survives `dropna`. */
  lemma KeepPresentAll(rows: seq<Row>)
    requires NoMissing(rows)
    ensures KeepPresent(rows) == rows
  {
    FilterKeepsAll(rows, (x: Row) => x.cpi.Some?);
  }

  /** Three readings of one date against a table holding exactly them: each is emitted twice. */
  lemma ChangedDoublesThree(a: Row, b: Row, c: Row)
    requires a.date == b.date == c.date
    requires a.cpi != b.cpi && b.cpi != c.cpi && a.cpi != c.cpi
    ensures Changed([a, b, c], [a, b, c]) == [a, a, b, b, c, c]
  {
    assert [a, a] + [b, b] + [c, c] == [a, a, b, b, c, c];
    ChangedOfThree(a, b, c, [a, b, c]);
    EmittedTwiceAmongThree(a, a, b, c);
    EmittedTwiceAmongThree(b, a, b, c);
    EmittedTwiceAmongThree(c, a, b, c);
  }

  /** Three readings of one date, run against a table holding exactly them: each is installed twice. */
  lemma IncrementalDoublesThree(a: Row, b: Row, c: Row)
    requires a.date == b.date == c.date && a.cpi.Some? && b.cpi.Some? && c.cpi.Some?
    requires a.cpi != b.cpi && b.cpi != c.cpi && a.cpi != c.cpi
    ensures AfterIncremental([a, b, c], [a, b, c]) == [a, a, b, b, c, c]
  {
    var latest, updated := [a, b, c], [a, a, b, b, c, c];
    KeepPresentAll(latest);
    ChangedDoublesThree(a, b, c);
    assert Changed(KeepPresent(latest), latest) == updated;
    assert a.date in DatesOf(updated) by {
      assert updated[0] in updated;
    }
    IncrementalReplacesAll(latest, latest);
  }

  /**
    Without one reading per date the table can also grow: three readings for one
    date are installed once each on an empty table, then twice each on the next
    run, as each latest row meets two table rows with another reading in the merge.
   */
  lemma IncrementalGrows(d: Date, u: Cpi, v: Cpi, w: Cpi)
    requires u != v && v != w && u != w
    ensures var a, b, c := Row(d, Some(u)), Row(d, Some(v)), Row(d, Some(w));
      && AfterIncremental([], [a, b, c]) == [a, b, c]
      && AfterIncremental(AfterIncremental([], [a, b, c]), [a, b, c]) == [a, a, b, b, c, c]
  {
    var a, b, c := Row(d, Some(u)), Row(d, Some(v)), Row(d, Some(w));
    KeepPresentAll([a, b, c]);
    assert AfterIncremental([], [a, b, c]) == [a, b, c];
    IncrementalDoublesThree(a, b, c);
  }

  /**
    A row that agrees with the only latest reading of its date can still lose
    copies: against the table `[e, e, f]`, with `f` another reading of that
    date, the merge emits `e` once and the DELETE removes all three rows.
   */
  lemma IncrementalDropsCopies(d: Date, v: Cpi, w: Cpi)
    requires v != w
    ensures var e, f := Row(d, Some(v)), Row(d, Some(w));
      AfterIncremental([e, e, f], [e]) == [e]
  {
    var e, f := Row(d, Some(v)), Row(d, Some(w));
    var table := [e, e, f];
    assert [f] + [] == [f] && [e] + [f] == [e, f] && [e] + [e, f] == table;
    KeepPresentAll([e]);
    assert [e][1..] == [];
    assert Changed([e], table) == Emitted(e, table) + [];
    EmittedWhenDatePresent(e, table, e);
    MismatchesCons(e, f, []);
    MismatchesCons(e, e, [f]);
    MismatchesCons(e, e, [e, f]);
    assert Mismatches(e, []) == [];
    assert Mismatches(e, [f]) == [e] + [] == [e];
    assert Mismatches(e, [e, f]) == [] + [e];
    assert Mismatches(e, table) == [] + [e];
    assert Changed(KeepPresent([e]), table) == [e];
    assert e.date in DatesOf([e]) by {
      assert [e][0] in [e];
    }
    IncrementalReplacesAll(table, [e]);
  }

  /** On an empty table the three policies insert the same rows. */
  lemma PoliciesAgreeOnEmptyTable(latest: seq<Row>)
    ensures AfterIncremental([], latest) == AfterTruncate(latest)
    ensures AfterAppend([], latest) == AfterTruncate(latest)
  {
    var known := DatesOf([]);
    FilterKeepsAll(KeepPresent(latest), (x: Row) => x.date !in known);
  }

  // ---------------------------------------------------------------- the policies together

  /** The refresh policy that `measure_time` is handed. */
  datatype Policy = Append | Truncate | Incremental

  /** The table after one refresh with the latest rows. */
  function After(policy: Policy, existing: seq<Row>, latest: seq<Row>): seq<Row>
  {
    match policy
    case Append => AfterAppend(existing, latest)
    case Truncate => AfterTruncate(latest)
    case Incremental => AfterIncremental(existing, latest)
  }

  /** No policy ever inserts a row whose reading is missing. */
  lemma NeverInsertsMissing(policy: Policy, existing: seq<Row>, latest: seq<Row>)
    ensures forall x :: x in After(policy, existing, latest) && x !in existing ==> x.cpi.Some?
    ensures NoMissing(existing) ==> NoMissing(After(policy, existing, latest))
  {
    if policy == Append {
      var r := AfterAppend(existing, latest);
      forall x | x in r && x !in existing
        ensures x.cpi.Some?
      {
        assert r == existing + FreshRows(existing, latest);
      }
    }
  }

  /** Running a policy twice with the same latest data gives the table of running it once. */
  lemma RefreshIdempotent(policy: Policy, existing: seq<Row>, latest: seq<Row>)
    requires policy == Incremental ==> UniqueDates(KeepPresent(latest))
    ensures After(policy, After(policy, existing, latest), latest) == After(policy, existing, latest)
  {
    match policy
    case Append => AppendIdempotent(existing, latest);
    case Truncate =>
    case Incremental => IncrementalIdempotent(existing, latest);
  }

  // ---------------------------------------------------------------- measure_time

  /** One iteration of `measure_time`: the day it pulls for and the workbook `load_data` returns then. */
  datatype Pull = Pull(day: CalendarDate, workbook: RawFrame)

  /** Every workbook of the run has one cell per header in each row, as a parsed sheet does. */
  predicate AllRectangular(pulls: seq<Pull>)
  {
    forall i :: 0 <= i < |pulls| ==> Rectangular(pulls[i].workbook)
  }

  /** What `get_latest_data` yields on each pull, in order, for the pull date written as `%Y-%m-%d`. */
  function Fetched(pulls: seq<Pull>): seq<Result<seq<Row>, LoadError>>
    requires AllRectangular(pulls)
  {
    seq(|pulls|, i requires 0 <= i < |pulls| => GetLatestData(pulls[i].workbook, IsoDate(pulls[i].day)))
  }

  /**
    The table and outcome after refreshing once per fetch result, in order:
    the first result that is an error is raised, and the loop stops there.
   */
  function Replay(policy: Policy, rows: seq<Row>, fetched: seq<Result<seq<Row>, LoadError>>): (r: (seq<Row>, Outcome<LoadError>))
    decreases |fetched|
  {
    if fetched == [] then (rows, Pass)
    else if fetched[0].Failure? then (rows, Fail(fetched[0].error))
    else Replay(policy, After(policy, rows, fetched[0].value), fetched[1..])
  }

  /** Replaying from the `i`-th fetch result on: that result either raises or refreshes the table. */
  lemma ReplayFrom(policy: Policy, rows: seq<Row>, fetched: seq<Result<seq<Row>, LoadError>>, i: nat)
    requires i < |fetched|
    ensures Replay(policy, rows, fetched[i..])
            == if fetched[i].Failure? then (rows, Fail(fetched[i].error))
               else Replay(policy, After(policy, rows, fetched[i].value), fetched[i + 1..])
  {
    assert fetched[i..][1..] == fetched[i + 1..];
  }

  /** The error of the first fetch result that is one, if any. */
  function FirstError(fetched: seq<Result<seq<Row>, LoadError>>): Outcome<LoadError>
    decreases |fetched|
  {
    if fetched == [] then Pass
    else if fetched[0].Failure? then Fail(fetched[0].error)
    else FirstError(fetched[1..])
  }

  /** `FirstError` passes exactly when every pull succeeds, and otherwise names the first failure. */
  lemma {:induction false} FirstErrorIsFirst(fetched: seq<Result<seq<Row>, LoadError>>)
    ensures FirstError(fetched) == Pass <==> forall f :: f in fetched ==> f.Success?
    ensures FirstError(fetched).Fail? ==>
              exists k :: 0 <= k < |fetched| && fetched[k] == Failure(FirstError(fetched).error)
                          && forall f :: f in fetched[..k] ==> f.Success?
    decreases |fetched|
  {
    if fetched != [] && fetched[0].Success? {
      var rest := fetched[1..];
      FirstErrorIsFirst(rest);
      assert fetched == [fetched[0]] + rest;
      if FirstError(fetched).Fail? {
        var k :| 0 <= k < |rest| && rest[k] == Failure(FirstError(fetched).error)
                 && forall f :: f in rest[..k] ==> f.Success?;
        assert fetched[k + 1] == rest[k];
        assert fetched[..k + 1] == [fetched[0]] + rest[..k];
      }
    }
  }

  /** The replay raises exactly the error of the first pull that fails, whatever the policy. */
  lemma {:induction false} ReplayRaisesFirstError(policy: Policy, rows: seq<Row>, fetched: seq<Result<seq<Row>, LoadError>>)
    ensures Replay(policy, rows, fetched).1 == FirstError(fetched)
    decreases |fetched|
  {
    if fetched != [] && fetched[0].Success? {
      ReplayRaisesFirstError(policy, After(policy, rows, fetched[0].value), fetched[1..]);
    }
  }

  /** A table without missing readings never gets one, however many pulls are replayed. */
  lemma {:induction false} ReplayNoMissing(policy: Policy, rows: seq<Row>, fetched: seq<Result<seq<Row>, LoadError>>)
    requires NoMissing(rows)
    ensures NoMissing(Replay(policy, rows, fetched).0)
    decreases |fetched|
  {
    if fetched != [] && fetched[0].Success? {
      NeverInsertsMissing(policy, rows, fetched[0].value);
      ReplayNoMissing(policy, After(policy, rows, fetched[0].value), fetched[1..]);
    }
  }

  /** Under `update_truncate`, a run in which every pull succeeds ends with the last pull's rows. */
  lemma {:induction false} ReplayTruncateKeepsLast(rows: seq<Row>, fetched: seq<Result<seq<Row>, LoadError>>)
    requires fetched != []
    requires forall f :: f in fetched ==> f.Success?
    ensures Replay(Truncate, rows, fetched) == (AfterTruncate(fetched[|fetched| - 1].value), Pass)
    decreases |fetched|
  {
    if |fetched| > 1 {
      var rest := fetched[1..];
      assert rest[|rest| - 1] == fetched[|fetched| - 1];
      ReplayTruncateKeepsLast(AfterTruncate(fetched[0].value), rest);
    }
  }
}
