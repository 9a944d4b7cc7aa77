/** Dataset 2 (dataset2.py): the gender wage gap by country. The table is loaded and cleaned, and
    the menu options sort it with the hand-written quicksort, show the ten largest and smallest gaps,
    and look up the OECD average. */
module WageGap {
  import opened Wrappers
  import opened Strings
  import opened Cells
  import opened Sorting

  // Column positions once the two columns are renamed.
  const WIDTH: nat := 2
  const COUNTRY: nat := 0
  const GAP: nat := 1

  /** How many rows the largest and smallest views show. */
  const TOP: nat := 10

  /** The label of the OECD-average row, compared after trimming and upper-casing. */
  const OECD: string := "OECD"

  /** One loaded row: the country label as read and its numeric wage gap. */
  datatype Entry = Entry(country: Cell, gap: real)

  function GapOf(e: Entry): real {
    e.gap
  }

  // ---------------------------------------------------------------------------------------------
  // Loading

  predicate Shaped(df: seq<Row>) {
    forall i :: 0 <= i < |df| ==> |df[i]| == WIDTH
  }

  /** A row with no missing cell. */
  predicate Complete(row: Row) {
    forall j :: 0 <= j < |row| ==> row[j] != NaN
  }

  /** pandas `dropna`: the rows with a missing cell go, the others keep their order. */
  function DropNa(df: seq<Row>): (r: seq<Row>)
    ensures forall row :: row in r ==> row in df && Complete(row)
    ensures Shaped(df) ==> Shaped(r)
  {
    var r := Filter(df, Complete);
    assert Shaped(df) ==> Shaped(r) by {
      forall i | 0 <= i < |r| ensures r[i] in df {
        assert r[i] in r;
      }
    }
    r
  }

  /** The gap column through the never-failing numeric conversion. */
  function CoerceGap(df: seq<Row>): (r: seq<Row>)
    requires Shaped(df)
    ensures Shaped(r) && |r| == |df|
  {
    if df == [] then [] else [[df[0][COUNTRY], ToNumeric(df[0][GAP])]] + CoerceGap(df[1..])
  }

  /** The rows of a cleaned frame as entries. */
  function Entries(df: seq<Row>): (r: seq<Entry>)
    requires forall row: Row :: row in df ==> |row| == WIDTH && row[GAP].Num?
    ensures |r| == |df|
  {
    if df == [] then [] else [Entry(df[0][COUNTRY], df[0][GAP].x)] + Entries(df[1..])
  }

  /** A raw row survives loading when its country is present and its gap converts to a number. */
  predicate Accepted(row: Row)
    requires |row| == WIDTH
  {
    row[COUNTRY] != NaN && ToNumeric(row[GAP]).Num?
  }

  /** The entry an accepted row becomes. */
  function ToEntry(row: Row): Entry
    requires |row| == WIDTH && Accepted(row)
  {
    Entry(row[COUNTRY], ToNumeric(row[GAP]).x)
  }

  /** What loading keeps, in one pass: the accepted rows, as entries, in their original order. */
  function Loaded(rows: seq<Row>): (r: seq<Entry>)
    requires Shaped(rows)
    ensures |r| <= |rows|
    ensures forall e :: e in r ==> e.country != NaN
  {
    if rows == [] then []
    else (if Accepted(rows[0]) then [ToEntry(rows[0])] else []) + Loaded(rows[1..])
  }

  /** Loading works row by row: the loaded rows of a concatenation are the loaded rows of the first
      part followed by those of the second, so surviving rows keep their relative order. */
  lemma {:induction false} LoadedAppend(a: seq<Row>, b: seq<Row>)
    requires Shaped(a) && Shaped(b)
    ensures Shaped(a + b)
    ensures Loaded(a + b) == Loaded(a) + Loaded(b)
  {
    ShapedAppend(a, b);
    if a == [] {
      assert a + b == b;
    } else {
      var t := a[1..];
      assert (a + b)[0] == a[0];
      assert (a + b)[1..] == t + b;
      LoadedAppend(t, b);
      var h := if Accepted(a[0]) then [ToEntry(a[0])] else [];
      assert Loaded(a + b) == h + Loaded(t + b);
      assert Loaded(a) == h + Loaded(t);
      assert h + (Loaded(t) + Loaded(b)) == (h + Loaded(t)) + Loaded(b);
    }
  }

  lemma ShapedAppend(a: seq<Row>, b: seq<Row>)
    requires Shaped(a) && Shaped(b)
    ensures Shaped(a + b)
  {
    forall i | 0 <= i < |a + b| ensures |(a + b)[i]| == WIDTH {
      if i >= |a| {
        assert (a + b)[i] == b[i - |a|];
      }
    }
  }

  /** An entry is loaded exactly when some row was accepted and became it. */
  lemma {:induction false} LoadedMembers(rows: seq<Row>, e: Entry)
    requires Shaped(rows)
    ensures e in Loaded(rows) <==> exists row :: row in rows && |row| == WIDTH && Accepted(row) && e == ToEntry(row)
  {
    if rows != [] {
      LoadedMembers(rows[1..], e);
      assert forall row :: row in rows <==> row == rows[0] || row in rows[1..];
    }
  }

  /** The three cleaning steps of the loader, in their order: drop incomplete rows, convert the gap
      column, drop the rows whose gap did not convert. */
  function Pipeline(rows: seq<Row>): (r: seq<Row>)
    requires Shaped(rows)
    ensures Shaped(r)
    ensures forall row: Row :: row in r ==> |row| == WIDTH && row[GAP].Num?
  {
    var d := DropNa(rows);
    var c := CoerceGap(d);
    var r := DropNa(c);
    assert forall row: Row :: row in r ==> |row| == WIDTH && row[GAP].Num? by {
      forall row: Row | row in r ensures |row| == WIDTH && row[GAP].Num? {
        CoerceGapNeverText(d, row);
      }
    }
    r
  }

  lemma {:induction false} CoerceGapNeverText(df: seq<Row>, row: Row)
    requires Shaped(df) && row in CoerceGap(df)
    ensures |row| == WIDTH && !row[GAP].Text?
  {
    if row != CoerceGap(df)[0] {
      CoerceGapNeverText(df[1..], row);
    }
  }

  /** One row through the three steps. */
  lemma PipelineStep(row: Row, rest: seq<Row>)
    requires |row| == WIDTH && Shaped(rest)
    ensures Shaped([row] + rest)
    ensures Entries(Pipeline([row] + rest)) == (if Accepted(row) then [ToEntry(row)] else []) + Entries(Pipeline(rest))
  {
    var rows := [row] + rest;
    assert rows[1..] == rest;
    var d := DropNa(rest);
    if Complete(row) {
      assert DropNa(rows) == [row] + d;
      var coerced := [row[COUNTRY], ToNumeric(row[GAP])];
      assert ([row] + d)[1..] == d;
      assert CoerceGap([row] + d) == [coerced] + CoerceGap(d);
      assert ([coerced] + CoerceGap(d))[1..] == CoerceGap(d);
      if Complete(coerced) {
        assert Pipeline(rows) == [coerced] + Pipeline(rest);
        assert ([coerced] + Pipeline(rest))[1..] == Pipeline(rest);
      } else {
        assert coerced[GAP] == NaN;
        assert Pipeline(rows) == Pipeline(rest);
      }
    } else {
      assert DropNa(rows) == d;
      assert !Accepted(row) by {
        var j :| 0 <= j < |row| && row[j] == NaN;
        assert j == COUNTRY || j == GAP;
      }
    }
  }

  /** The loader's three steps compute exactly the one-pass reference `Loaded`. */
  lemma {:induction false} PipelineIsLoaded(rows: seq<Row>)
    requires Shaped(rows)
    ensures Entries(Pipeline(rows)) == Loaded(rows)
  {
    if rows != [] {
      PipelineIsLoaded(rows[1..]);
      assert rows == [rows[0]] + rows[1..];
      PipelineStep(rows[0], rows[1..]);
    }
  }

  /** The loader: rename the two columns, then clean the frame in place step by step. Renaming fails
      when the table does not have exactly two columns; otherwise the result is the accepted rows,
      in order, each with a present country and a numeric gap. */
  method LoadData(t: Table) returns (r: Result<seq<Entry>, LoadError>)
    requires WellFormed(t)
    ensures t.columns != WIDTH ==> r == Err(ColumnCountMismatch(WIDTH, t.columns))
    ensures t.columns == WIDTH ==> r == Ok(Loaded(t.rows))
  {
    if t.columns != WIDTH {
      return Err(ColumnCountMismatch(WIDTH, t.columns));
    }
    var df := t.rows;
    assert Shaped(df);
    df := DropNa(df);
    df := CoerceGap(df);
    df := DropNa(df);
    assert df == Pipeline(t.rows);
    PipelineIsLoaded(t.rows);
    r := Ok(Entries(df));
  }

  // ---------------------------------------------------------------------------------------------
  // Menu options

  /** Option 1: the countries sorted by the hand-written quicksort, and the direction for the next
      call. The result is a permutation, ordered by gap in the requested direction. */
  function OptionSort(entries: seq<Entry>, ascending: bool): (r: (seq<Entry>, bool))
    ensures r.1 == !ascending
    ensures multiset(r.0) == multiset(entries)
    ensures ascending ==> forall i, j :: 0 <= i < j < |r.0| ==> r.0[i].gap <= r.0[j].gap
    ensures !ascending ==> forall i, j :: 0 <= i < j < |r.0| ==> r.0[j].gap <= r.0[i].gap
  {
    (QuickSort(entries, GapOf, ascending), !ascending)
  }

  /** Countries with the same gap keep their relative order, in either direction. */
  lemma OptionSortStable(entries: seq<Entry>, ascending: bool, g: real)
    ensures WithKey(OptionSort(entries, ascending).0, GapOf, g) == WithKey(entries, GapOf, g)
  {
    QuickSortStable(entries, GapOf, ascending, g);
  }

  /** Sorting an already sorted list changes nothing. */
  lemma OptionSortSorted(entries: seq<Entry>, ascending: bool)
    requires Ordered(entries, GapOf, ascending)
    ensures OptionSort(entries, ascending).0 == entries
  {
    QuickSortKeepsOrderedInput(entries, GapOf, ascending);
  }

  /** Options 2 and 3: the ten largest (descending) or smallest (ascending) gaps. */
  function TopGaps(entries: seq<Entry>, ascending: bool): (view: seq<Entry>)
    ensures |view| == Min(TOP, |entries|)
    ensures multiset(view) <= multiset(entries)
    ensures forall i, j :: 0 <= i < j < |view| ==> !Precedes(ascending, view[j].gap, view[i].gap)
    ensures forall x, y :: x in view && LeftOut(y, view, entries) ==> !Precedes(ascending, y.gap, x.gap)
  {
    var view := TopN(entries, GapOf, ascending, TOP);
    assert forall y :: LeftOut(y, view, entries) ==> y in multiset(entries) - multiset(view);
    view
  }

  function TopLargest(entries: seq<Entry>): (view: seq<Entry>)
    ensures |view| == Min(TOP, |entries|)
    ensures multiset(view) <= multiset(entries)
    ensures forall i, j :: 0 <= i < j < |view| ==> view[j].gap <= view[i].gap
    ensures forall x, y :: x in view && LeftOut(y, view, entries) ==> y.gap <= x.gap
  {
    TopGaps(entries, false)
  }

  function TopSmallest(entries: seq<Entry>): (view: seq<Entry>)
    ensures |view| == Min(TOP, |entries|)
    ensures multiset(view) <= multiset(entries)
    ensures forall i, j :: 0 <= i < j < |view| ==> view[i].gap <= view[j].gap
    ensures forall x, y :: x in view && LeftOut(y, view, entries) ==> x.gap <= y.gap
  {
    TopGaps(entries, true)
  }

  // ---------------------------------------------------------------------------------------------
  // Option 4: the OECD average

  /** A country label names the OECD average when, trimmed and upper-cased, it reads "OECD".
      A label that is not text never matches. */
  predicate IsOecd(c: Cell): (b: bool)
    ensures b ==> c.Text? && |Trim(c.s)| == |OECD|
    ensures c.Text? && Trim(c.s) == OECD ==> b
  {
    UpperOecd();
    c.Text? && Upper(Trim(c.s)) == OECD
  }

  /** The label is already upper case. */
  lemma UpperOecd()
    ensures Upper(OECD) == OECD
  {
    assert Upper(OECD)[0] == 'O' && Upper(OECD)[1] == 'E' && Upper(OECD)[2] == 'C' && Upper(OECD)[3] == 'D';
  }

  predicate OecdEntry(e: Entry) {
    IsOecd(e.country)
  }

  /** The rows the OECD mask selects are empty exactly when no row matches, and otherwise start
      with the first row that matches. */
  lemma OecdMatches(entries: seq<Entry>)
    ensures Filter(entries, OecdEntry) == [] <==> forall i :: 0 <= i < |entries| ==> !IsOecd(entries[i].country)
    ensures Filter(entries, OecdEntry) != [] ==>
              exists i :: 0 <= i < |entries| && IsOecd(entries[i].country) && Filter(entries, OecdEntry)[0] == entries[i]
                          && forall j :: 0 <= j < i ==> !IsOecd(entries[j].country)
  {
    FilterEmpty(entries, OecdEntry);
    assert forall i :: 0 <= i < |entries| ==> entries[i] in entries;
    if Filter(entries, OecdEntry) != [] {
      FilterFirst(entries, OecdEntry);
    }
  }

  /** The gap of the first OECD row, or `None` when no row matches. */
  function CompareOecd(entries: seq<Entry>): (r: Option<real>)
    ensures r.None? <==> forall i :: 0 <= i < |entries| ==> !IsOecd(entries[i].country)
    ensures r.Some? ==> exists i :: 0 <= i < |entries| && IsOecd(entries[i].country) && r.value == entries[i].gap
                                   && forall j :: 0 <= j < i ==> !IsOecd(entries[j].country)
  {
    var matches := Filter(entries, OecdEntry);
    OecdMatches(entries);
    if matches == [] then None else Some(matches[0].gap)
  }

  /** Whitespace padding and letter case do not matter: any spelling of "oecd" surrounded by
      whitespace is recognised. */
  lemma OecdIgnoresPaddingAndCase(p: string, s: string, q: string)
    requires AllSpace(p) && AllSpace(q) && Upper(s) == OECD
    ensures IsOecd(Text(p + s + q))
  {
    TrimIgnoresPadding(p, s, q);
    assert |s| == 4;
    assert !IsSpace(s[0]) by {
      assert UpperChar(s[0]) == 'O';
    }
    assert !IsSpace(s[3]) by {
      assert UpperChar(s[3]) == 'D';
    }
    assert TrimStart(s) == s;
    assert TrimEnd(s) == s;
  }
}
