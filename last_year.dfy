/**
 * `ensure_last_year_series`: the fetched table laid onto the 365 consecutive
 * days that end on `today`, with 0 for every day the table has no row for.
 *
 * `today` is a parameter (the clock read is not modelled); the result is a
 * sequence of rows, the series' date index paired with its values.
 */
module LastYear {
  import opened Wrappers
  import opened Fetcher

  /** Length of the window in days. */
  const WindowDays: nat := 365

  /** First day of the window ending on `today`. */
  function WindowStart(today: int): int {
    today - (WindowDays - 1)
  }

  /** The day lies in the window ending on `today`. */
  predicate InWindow(today: int, day: int) {
    WindowStart(today) <= day <= today
  }

  /** Why the source's `reindex` raises: the table has a date twice. */
  datatype SeriesError = DuplicateDates

  /** No date occurs in two rows. */
  predicate UniqueDates(rows: seq<Row>) {
    forall i, j :: 0 <= i < j < |rows| ==> rows[i].date != rows[j].date
  }

  /** `pd.date_range(start, end, freq="D")` for the window ending on `today`. */
  function DateIndex(today: int): (days: seq<int>)
    ensures |days| == WindowDays
    ensures days[0] == WindowStart(today) && days[WindowDays - 1] == today
    ensures forall k :: 0 <= k < WindowDays - 1 ==> days[k + 1] == days[k] + 1
    ensures forall day :: day in days <==> InWindow(today, day)
  {
    var days := seq(WindowDays, k requires 0 <= k < WindowDays => WindowStart(today) + k);
    assert forall day :: InWindow(today, day) ==> days[day - WindowStart(today)] == day;
    days
  }

  /** The count the table holds for `day`, or the fill value 0. */
  function CountOn(rows: seq<Row>, day: int): (count: int)
    ensures (forall i :: 0 <= i < |rows| ==> rows[i].date != day) ==> count == 0
    ensures UniqueDates(rows) ==>
      forall i :: 0 <= i < |rows| && rows[i].date == day ==> count == rows[i].downloads
  {
    if rows == [] then 0
    else if rows[0].date == day then rows[0].downloads
    else
      assert forall i :: 1 <= i < |rows| ==> rows[1..][i - 1] == rows[i];
      CountOn(rows[1..], day)
  }

  /**
   * The continuous series for the window ending on `today`. An empty table
   * gives zeros; a table with a repeated date makes `reindex` raise.
   */
  function LastYearSeries(rows: seq<Row>, today: int): (r: Result<seq<Row>, SeriesError>)
    ensures r.Err? <==> rows != [] && !UniqueDates(rows)
    ensures r.Ok? ==> |r.value| == WindowDays
    ensures r.Ok? ==> r.value[0].date == WindowStart(today) && r.value[WindowDays - 1].date == today
    ensures r.Ok? ==> forall k :: 0 <= k < WindowDays - 1 ==> r.value[k + 1].date == r.value[k].date + 1
    ensures r.Ok? ==> forall k, i :: 0 <= k < WindowDays && 0 <= i < |rows| && rows[i].date == r.value[k].date ==>
      r.value[k].downloads == rows[i].downloads
    ensures r.Ok? ==> forall k :: 0 <= k < WindowDays && (forall i :: 0 <= i < |rows| ==> rows[i].date != r.value[k].date) ==>
      r.value[k].downloads == 0
    ensures rows == [] ==> r.Ok? && forall k :: 0 <= k < WindowDays ==> r.value[k].downloads == 0
  {
    var index := DateIndex(today);
    if rows == [] then
      Ok(seq(WindowDays, k requires 0 <= k < WindowDays => Row(index[k], 0)))
    else if !UniqueDates(rows) then
      Err(DuplicateDates)
    else
      Ok(seq(WindowDays, k requires 0 <= k < WindowDays => Row(index[k], CountOn(rows, index[k]))))
  }

  /** The rows of the table that fall in the window ending on `today`. */
  function KeepWindow(rows: seq<Row>, today: int): (kept: seq<Row>)
    ensures forall row :: row in kept <==> row in rows && InWindow(today, row.date)
    ensures UniqueDates(rows) ==> UniqueDates(kept)
  {
    if rows == [] then []
    else
      var tail := KeepWindow(rows[1..], today);
      assert forall row :: row in rows[1..] ==> row in rows;
      if InWindow(today, rows[0].date) then [rows[0]] + tail else tail
  }

  /** Rows dated outside the window do not affect the series. */
  lemma {:induction false} OutsideWindowIgnored(rows: seq<Row>, today: int)
    requires UniqueDates(rows)
    ensures LastYearSeries(rows, today) == LastYearSeries(KeepWindow(rows, today), today)
  {
    var kept := KeepWindow(rows, today);
    if rows != [] {
      var full, windowed := LastYearSeries(rows, today).value, LastYearSeries(kept, today).value;
      forall k | 0 <= k < WindowDays
        ensures full[k] == windowed[k]
      {
        var day := full[k].date;
        assert day in DateIndex(today);
        if i :| 0 <= i < |rows| && rows[i].date == day {
          assert rows[i] in kept;
          var j :| 0 <= j < |kept| && kept[j] == rows[i];
        } else {
          forall j | 0 <= j < |kept| ensures kept[j].date != day {
            assert kept[j] in rows;
          }
        }
      }
      assert full == windowed;
    }
  }

  /**
   * Without unique dates `OutsideWindowIgnored` fails: a date repeated
   * outside the window still makes `reindex` raise, although no row of the
   * window remains.
   */
  lemma DuplicateOutsideWindowStillFails(today: int)
    ensures KeepWindow([Row(today - 1000, 1), Row(today - 1000, 2)], today) == []
    ensures LastYearSeries([Row(today - 1000, 1), Row(today - 1000, 2)], today) == Err(DuplicateDates)
    ensures LastYearSeries(KeepWindow([Row(today - 1000, 1), Row(today - 1000, 2)], today), today).Ok?
  {
    var rows := [Row(today - 1000, 1), Row(today - 1000, 2)];
    assert !UniqueDates(rows) by { assert rows[0].date == rows[1].date; }
    assert !InWindow(today, rows[0].date) && !InWindow(today, rows[1].date);
    assert rows[1..] == [rows[1]] && rows[1..][1..] == [];
    assert KeepWindow(rows[1..], today) == KeepWindow(rows[1..][1..], today);
  }

  /** A row that occurs twice in a table occurs at two distinct positions. */
  lemma {:induction false} TwiceAtTwoPositions(rows: seq<Row>, x: Row)
    requires multiset(rows)[x] >= 2
    ensures exists i, j :: 0 <= i < j < |rows| && rows[i] == x && rows[j] == x
  {
    assert rows == [rows[0]] + rows[1..];
    if rows[0] == x {
      assert x in multiset(rows[1..]);
      var j :| 0 <= j < |rows[1..]| && rows[1..][j] == x;
      assert rows[j + 1] == x;
    } else {
      TwiceAtTwoPositions(rows[1..], x);
      var i, j :| 0 <= i < j < |rows[1..]| && rows[1..][i] == x && rows[1..][j] == x;
      assert rows[i + 1] == x && rows[j + 1] == x;
    }
  }

  /** Reordering a table keeps its dates unique. */
  lemma UniqueDatesUnderReordering(a: seq<Row>, b: seq<Row>)
    requires multiset(a) == multiset(b)
    requires UniqueDates(a)
    ensures UniqueDates(b)
  {
    forall i, j | 0 <= i < j < |b|
      ensures b[i].date != b[j].date
    {
      if b[i] == b[j] {
        assert b == b[..j] + b[j..];
        assert b[i] in multiset(b[..j]) && b[j] in multiset(b[j..]);
        assert multiset(a)[b[i]] >= 2;
        TwiceAtTwoPositions(a, b[i]);
      } else {
        assert b[i] in multiset(a) && b[j] in multiset(a);
      }
    }
  }

  /**
   * The series depends on the table's rows, not on their order; in
   * particular it does not depend on how `sort_values` orders rows that
   * share a date.
   */
  lemma SeriesIgnoresRowOrder(a: seq<Row>, b: seq<Row>, today: int)
    requires multiset(a) == multiset(b)
    ensures LastYearSeries(a, today) == LastYearSeries(b, today)
  {
    if UniqueDates(a) {
      UniqueDatesUnderReordering(a, b);
    } else if UniqueDates(b) {
      UniqueDatesUnderReordering(b, a);
    }
    if a != [] && UniqueDates(a) {
      assert b != [] by { assert a[0] in multiset(b); }
      var sa, sb := LastYearSeries(a, today).value, LastYearSeries(b, today).value;
      forall k | 0 <= k < WindowDays
        ensures sa[k] == sb[k]
      {
        var day := sa[k].date;
        if i :| 0 <= i < |a| && a[i].date == day {
          assert a[i] in multiset(b);
        } else {
          forall j | 0 <= j < |b| ensures b[j].date != day {
            assert b[j] in multiset(a);
          }
        }
      }
      assert sa == sb;
    } else if a == [] {
      assert b == [] by { assert |multiset(b)| == 0; }
    }
  }

  /**
   * The series built from the fetched table is the series of the selected,
   * normalised records in their original order.
   */
  lemma SeriesOfFetchedTable(data: seq<Record>, today: int)
    ensures LastYearSeries(Fetch(data), today) == LastYearSeries(Rows(SelectCategory(data)), today)
  {
    SeriesIgnoresRowOrder(Fetch(data), Rows(SelectCategory(data)), today);
  }
}
