/**
 * The data-shaping tail of `fetch_pypistats_daily`: from the payload's `data`
 * list to a table of `(date, downloads)` rows sorted by date.
 *
 * Dates are day numbers (already parsed), a count is `Some(n)` when it is
 * numeric and `None` otherwise, and a category is `None` when the record has
 * no `category` key (pandas then holds NaN in that cell).
 */
module Fetcher {
  import opened Wrappers

  /** The category preferred whenever the payload has it. */
  const WithoutMirrors: string := "without_mirrors"

  /** One element of the payload's `data` list. */
  datatype Record = Record(category: Option<string>, date: int, downloads: Option<int>)

  /** One row of the fetched table. */
  datatype Row = Row(date: int, downloads: int)

  /** The frame has a `category` column: at least one record carries the key. */
  predicate HasCategoryColumn(data: seq<Record>) {
    exists i :: 0 <= i < |data| && data[i].category.Some?
  }

  /** Some record belongs to the preferred category. */
  predicate AnyWithoutMirrors(data: seq<Record>) {
    exists i :: 0 <= i < |data| && data[i].category == Some(WithoutMirrors)
  }

  /**
   * Element-wise `==` on the category column: a missing category (NaN)
   * equals nothing, not even another missing category.
   */
  predicate Matches(category: Option<string>, wanted: Option<string>) {
    category.Some? && category == wanted
  }

  /**
   * Which records the selection keeps, decided record by record:
   * everything when there is no category column, the preferred category
   * when it occurs, otherwise the category of the first record.
   * It restates `SelectCategory`'s case split per record; the lemmas
   * `FetchPrefersWithoutMirrors`, `FetchFallsBackToFirstCategory`,
   * `FetchFirstUncategorisedKeepsNothing` and
   * `FetchWithoutCategoryColumnKeepsAll` state each case on its own.
   */
  predicate Chosen(data: seq<Record>, rec: Record) {
    if !HasCategoryColumn(data) then true
    else if AnyWithoutMirrors(data) then rec.category == Some(WithoutMirrors)
    else Matches(rec.category, data[0].category)
  }

  /** The boolean-mask filter `df[df["category"] == wanted]`. */
  function KeepCategory(data: seq<Record>, wanted: Option<string>): (kept: seq<Record>)
    ensures forall rec :: rec in kept <==> rec in data && Matches(rec.category, wanted)
    ensures forall rec :: multiset(kept)[rec] == if Matches(rec.category, wanted) then multiset(data)[rec] else 0
  {
    if data == [] then []
    else
      assert data == [data[0]] + data[1..];
      (if Matches(data[0].category, wanted) then [data[0]] else []) + KeepCategory(data[1..], wanted)
  }

  /** The category selection of the fetcher. */
  function SelectCategory(data: seq<Record>): (selected: seq<Record>)
    ensures forall rec :: rec in selected <==> rec in data && Chosen(data, rec)
    ensures forall rec :: multiset(selected)[rec] == if Chosen(data, rec) then multiset(data)[rec] else 0
  {
    if !HasCategoryColumn(data) then data
    else if AnyWithoutMirrors(data) then KeepCategory(data, Some(WithoutMirrors))
    else KeepCategory(data, data[0].category)
  }

  /** A record as a table row: the date is kept, a non-numeric count becomes 0. */
  function Normalise(rec: Record): Row {
    Row(rec.date, rec.downloads.GetOr(0))
  }

  /** Normalise every selected record. */
  function Rows(recs: seq<Record>): (rows: seq<Row>)
    ensures |rows| == |recs|
    ensures forall i :: 0 <= i < |recs| ==> rows[i] == Normalise(recs[i])
  {
    if recs == [] then [] else [Normalise(recs[0])] + Rows(recs[1..])
  }

  /** Ascending by date. */
  predicate SortedByDate(rows: seq<Row>) {
    forall i, j :: 0 <= i < j < |rows| ==> rows[i].date <= rows[j].date
  }

  /** Put `x` into a sorted table before the first row with a later date. */
  function Insert(x: Row, rows: seq<Row>): (r: seq<Row>)
    requires SortedByDate(rows)
    ensures SortedByDate(r)
    ensures multiset(r) == multiset(rows) + multiset{x}
    ensures r[0] == x || r[0] == rows[0]
  {
    if rows == [] || x.date <= rows[0].date then [x] + rows
    else
      var tail := Insert(x, rows[1..]);
      assert rows == [rows[0]] + rows[1..];
      [rows[0]] + tail
  }

  /**
   * `sort_values("date")`. Pandas' default sort is not stable, so only the
   * order of dates and the multiset of rows are specified.
   */
  function SortByDate(rows: seq<Row>): (sorted: seq<Row>)
    ensures SortedByDate(sorted)
    ensures multiset(sorted) == multiset(rows)
  {
    if rows == [] then []
    else
      assert rows == [rows[0]] + rows[1..];
      Insert(rows[0], SortByDate(rows[1..]))
  }

  /** `fetch_pypistats_daily` after the HTTP call: select, normalise, sort. */
  function Fetch(data: seq<Record>): (table: seq<Row>)
    ensures data == [] ==> table == []
    ensures SortedByDate(table)
    ensures multiset(table) == multiset(Rows(SelectCategory(data)))
  {
    if data == [] then []
    else SortByDate(Rows(SelectCategory(data)))
  }

  /** `row` is `rec` as a table row: same date, count if numeric, else 0. */
  ghost predicate NormalisedFrom(row: Row, rec: Record) {
    && row.date == rec.date
    && (rec.downloads.Some? ==> row.downloads == rec.downloads.value)
    && (rec.downloads.None? ==> row.downloads == 0)
  }

  /**
   * The fetched table holds exactly the chosen records, normalised: every row
   * comes from a chosen record, and every chosen record yields a row.
   */
  lemma FetchKeepsExactlyChosen(data: seq<Record>)
    ensures forall row :: row in Fetch(data) ==>
      exists i :: 0 <= i < |data| && Chosen(data, data[i]) && NormalisedFrom(row, data[i])
    ensures forall i :: 0 <= i < |data| && Chosen(data, data[i]) ==> Normalise(data[i]) in Fetch(data)
  {
    var selected := SelectCategory(data);
    var rows := Rows(selected);
    forall row | row in Fetch(data)
      ensures exists i :: 0 <= i < |data| && Chosen(data, data[i]) && NormalisedFrom(row, data[i])
    {
      assert row in multiset(rows);
      var j :| 0 <= j < |rows| && rows[j] == row;
      assert selected[j] in data;
      var i :| 0 <= i < |data| && data[i] == selected[j];
      assert NormalisedFrom(row, data[i]);
    }
    forall i | 0 <= i < |data| && Chosen(data, data[i])
      ensures Normalise(data[i]) in Fetch(data)
    {
      assert data[i] in selected;
      var j :| 0 <= j < |selected| && selected[j] == data[i];
      assert rows[j] == Normalise(data[i]);
      assert Normalise(data[i]) in multiset(Fetch(data));
    }
  }

  /**
   * When any record is `without_mirrors`, the table is made of exactly the
   * `without_mirrors` records.
   */
  lemma FetchPrefersWithoutMirrors(data: seq<Record>)
    requires AnyWithoutMirrors(data)
    ensures forall row :: row in Fetch(data) ==>
      exists i :: 0 <= i < |data| && data[i].category == Some(WithoutMirrors) && NormalisedFrom(row, data[i])
    ensures forall i :: 0 <= i < |data| && data[i].category == Some(WithoutMirrors) ==>
      Normalise(data[i]) in Fetch(data)
  {
    FetchKeepsExactlyChosen(data);
  }

  /**
   * Without any `without_mirrors` record, the table is made of exactly the
   * records that share the first record's category.
   */
  lemma FetchFallsBackToFirstCategory(data: seq<Record>)
    requires data != [] && data[0].category.Some?
    requires !AnyWithoutMirrors(data)
    ensures forall row :: row in Fetch(data) ==>
      exists i :: 0 <= i < |data| && data[i].category == data[0].category && NormalisedFrom(row, data[i])
    ensures forall i :: 0 <= i < |data| && data[i].category == data[0].category ==>
      Normalise(data[i]) in Fetch(data)
  {
    assert HasCategoryColumn(data) by { assert data[0].category.Some?; }
    FetchKeepsExactlyChosen(data);
  }

  /**
   * When the first record lacks a category but another has one, the mask
   * compares against NaN and keeps nothing.
   */
  lemma FetchFirstUncategorisedKeepsNothing(data: seq<Record>)
    requires HasCategoryColumn(data) && !AnyWithoutMirrors(data)
    requires data[0].category.None?
    ensures Fetch(data) == []
  {
  }

  /** Without a category column nothing is filtered: one row per record. */
  lemma FetchWithoutCategoryColumnKeepsAll(data: seq<Record>)
    requires !HasCategoryColumn(data)
    ensures multiset(Fetch(data)) == multiset(Rows(data))
    ensures forall i :: 0 <= i < |data| ==> Normalise(data[i]) in Fetch(data)
  {
  }
}
