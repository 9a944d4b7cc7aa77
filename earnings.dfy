/** Dataset 1 (dataset1.py): weekly earnings and worker counts by occupation and gender. The raw table
    is cleaned column by column, the pay gap is derived, and the menu options rank the result. */
module Earnings {
  import opened Wrappers
  import opened Strings
  import opened Cells
  import opened Sorting

  // Column positions once the seven columns are renamed.
  const WIDTH: nat := 7
  const OCCUPATION: nat := 0
  const TOTAL_WORKERS: nat := 1
  const TOTAL_EARNINGS: nat := 2
  const MEN_WORKERS: nat := 3
  const MEN_EARNINGS: nat := 4
  const WOMEN_WORKERS: nat := 5
  const WOMEN_EARNINGS: nat := 6

  const EARNINGS_COLUMNS: seq<nat> := [TOTAL_EARNINGS, MEN_EARNINGS, WOMEN_EARNINGS]
  const WORKER_COLUMNS: seq<nat> := [TOTAL_WORKERS, MEN_WORKERS, WOMEN_WORKERS]

  /** The label of the repeated header row that the source table interleaves with the data. */
  const ARTIFACT: string := "Median weekly earnings"

  /** How many rows a ranking shows. */
  const TOP: nat := 10

  /** One cleaned occupation: the label as read, every numeric field a number or missing, and the
      derived pay gap. */
  datatype Occupation = Occupation(
    occupation: Cell,
    totalWorkers: Option<real>,
    totalEarnings: Option<real>,
    menWorkers: Option<real>,
    menEarnings: Option<real>,
    womenWorkers: Option<real>,
    womenEarnings: Option<real>,
    payGap: Option<real>)

  // ---------------------------------------------------------------------------------------------
  // Row filter and column normalisation

  /** The cell's text, as a string, contains the header label. */
  predicate MentionsArtifact(c: Cell) {
    c.Text? && Contains(c.s, ARTIFACT)
  }

  /** One of the columns `cols` of `row` contains the header label. */
  predicate ArtifactIn(row: Row, cols: seq<nat>) {
    exists k :: 0 <= k < |cols| && cols[k] < |row| && MentionsArtifact(row[cols[k]])
  }

  /** The rows of `df` whose columns `cols` do not contain the header label, in their order. */
  function KeepRows(df: seq<Row>, cols: seq<nat>): (r: seq<Row>)
    ensures |r| <= |df|
    ensures forall row :: row in r <==> row in df && !ArtifactIn(row, cols)
  {
    if df == [] then []
    else (if ArtifactIn(df[0], cols) then [] else [df[0]]) + KeepRows(df[1..], cols)
  }

  /** `row` with the normaliser applied to each of the columns `cols`. */
  function CleanRow(row: Row, cols: seq<nat>): (r: Row)
    ensures |r| == |row|
  {
    seq(|row|, j requires 0 <= j < |row| => if j in cols then NormalizeNumeric(row[j]) else row[j])
  }

  /** Every row of `df` with the columns `cols` normalised. */
  function CleanRows(df: seq<Row>, cols: seq<nat>): (r: seq<Row>)
    ensures |r| == |df|
  {
    seq(|df|, i requires 0 <= i < |df| => CleanRow(df[i], cols))
  }

  /** The test `KeepRows` applies to each row, as a value. */
  function LabelFree(cols: seq<nat>): Row -> bool {
    row => !ArtifactIn(row, cols)
  }

  /** `KeepRows` is the general filter with the test `LabelFree(cols)`. */
  lemma {:induction false} KeepRowsIsFilter(df: seq<Row>, cols: seq<nat>)
    ensures KeepRows(df, cols) == Filter(df, LabelFree(cols))
  {
    if df != [] {
      KeepRowsIsFilter(df[1..], cols);
    }
  }

  /** The filter treats rows independently and keeps their order: it distributes over
      concatenation. */
  lemma KeepRowsAppend(a: seq<Row>, b: seq<Row>, cols: seq<nat>)
    ensures KeepRows(a + b, cols) == KeepRows(a, cols) + KeepRows(b, cols)
  {
    KeepRowsIsFilter(a + b, cols);
    KeepRowsIsFilter(a, cols);
    KeepRowsIsFilter(b, cols);
    FilterAppend(a, b, LabelFree(cols));
  }

  /** The filter keeps each label-free row exactly as often as the input holds it. */
  lemma KeepRowsCount(df: seq<Row>, cols: seq<nat>, row: Row)
    ensures multiset(KeepRows(df, cols))[row] == if ArtifactIn(row, cols) then 0 else multiset(df)[row]
  {
    KeepRowsIsFilter(df, cols);
    FilterCount(df, LabelFree(cols), row);
  }

  lemma {:induction false} KeepRowsNoColumns(df: seq<Row>)
    ensures KeepRows(df, []) == df
  {
    if df != [] {
      KeepRowsNoColumns(df[1..]);
      assert df == [df[0]] + df[1..];
    }
  }

  lemma CleanRowsNoColumns(df: seq<Row>)
    ensures CleanRows(df, []) == df
  {
    assert forall i :: 0 <= i < |df| ==> CleanRows(df, [])[i] == df[i];
  }

  /** Filtering on `cols` and then on `c` is filtering on `cols + [c]` at once. */
  lemma {:induction false} KeepRowsTwice(df: seq<Row>, cols: seq<nat>, c: nat)
    ensures KeepRows(KeepRows(df, cols), [c]) == KeepRows(df, cols + [c])
  {
    if df != [] {
      var row := df[0];
      assert ArtifactIn(row, cols + [c]) <==> ArtifactIn(row, cols) || ArtifactIn(row, [c]) by {
        var all := cols + [c];
        if ArtifactIn(row, all) {
          var k :| 0 <= k < |all| && all[k] < |row| && MentionsArtifact(row[all[k]]);
          if k == |cols| {
            assert [c][0] == all[k];
          } else {
            assert cols[k] == all[k];
          }
        }
        if ArtifactIn(row, cols) {
          var k :| 0 <= k < |cols| && cols[k] < |row| && MentionsArtifact(row[cols[k]]);
          assert all[k] == cols[k];
        }
        if ArtifactIn(row, [c]) {
          assert all[|cols|] == c;
        }
      }
      KeepRowsTwice(df[1..], cols, c);
      var rest := KeepRows(df[1..], cols);
      if !ArtifactIn(row, cols) {
        assert KeepRows(df, cols) == [row] + rest;
        assert ([row] + rest)[1..] == rest;
      } else {
        assert KeepRows(df, cols) == rest;
      }
    }
  }

  /** Normalising the columns `cols` and then `c` is normalising `cols + [c]` at once (a column
      normalised twice is normalised once). */
  lemma CleanRowsTwice(df: seq<Row>, cols: seq<nat>, c: nat)
    ensures CleanRows(CleanRows(df, cols), [c]) == CleanRows(df, cols + [c])
  {
    forall i | 0 <= i < |df|
      ensures CleanRows(CleanRows(df, cols), [c])[i] == CleanRows(df, cols + [c])[i]
    {
      var row := df[i];
      forall j | 0 <= j < |row|
        ensures CleanRow(CleanRow(row, cols), [c])[j] == CleanRow(row, cols + [c])[j]
      {
        NormalizeIdempotent(row[j]);
      }
    }
  }

  /** Filtering a row followed by others: that row if it passes, then the others that pass. */
  lemma KeepRowsCons(row: Row, rest: seq<Row>, cols: seq<nat>)
    ensures ArtifactIn(row, cols) ==> KeepRows([row] + rest, cols) == KeepRows(rest, cols)
    ensures !ArtifactIn(row, cols) ==> KeepRows([row] + rest, cols) == [row] + KeepRows(rest, cols)
  {
    assert ([row] + rest)[1..] == rest;
  }

  /** Normalising a row followed by others: the normalised row, then the others normalised. */
  lemma CleanRowsCons(row: Row, rest: seq<Row>, cols: seq<nat>)
    ensures CleanRows([row] + rest, cols) == [CleanRow(row, cols)] + CleanRows(rest, cols)
  {
    assert forall i :: 0 <= i < |rest| ==> CleanRows([row] + rest, cols)[i + 1] == CleanRows(rest, cols)[i];
  }

  /** Normalising columns other than `c` does not change which rows mention the label in `c`. */
  lemma {:induction false} KeepRowsAfterClean(df: seq<Row>, cols: seq<nat>, c: nat)
    requires c !in cols
    ensures KeepRows(CleanRows(df, cols), [c]) == CleanRows(KeepRows(df, [c]), cols)
  {
    if df != [] {
      var row, t := df[0], df[1..];
      assert df == [row] + t;
      CleanRowsCons(row, t, cols);
      KeepRowsCons(CleanRow(row, cols), CleanRows(t, cols), [c]);
      KeepRowsCons(row, t, [c]);
      ArtifactIgnoresOtherColumns(row, cols, c);
      KeepRowsAfterClean(t, cols, c);
      CleanRowsCons(row, KeepRows(t, [c]), cols);
    }
  }

  /** Normalising other columns does not change whether column `c` holds the header label. */
  lemma ArtifactIgnoresOtherColumns(row: Row, cols: seq<nat>, c: nat)
    requires c !in cols
    ensures ArtifactIn(CleanRow(row, cols), [c]) == ArtifactIn(row, [c])
  {
    if c < |row| {
      assert CleanRow(row, cols)[c] == row[c];
    }
  }

  /** Filtering and normalising one more column extends the one-pass result by that column. */
  lemma CleanOneMoreColumn(raw: seq<Row>, done: seq<nat>, col: nat)
    requires col !in done
    ensures CleanRows(KeepRows(CleanRows(KeepRows(raw, done), done), [col]), [col])
         == CleanRows(KeepRows(raw, done + [col]), done + [col])
  {
    KeepRowsAfterClean(KeepRows(raw, done), done, col);
    KeepRowsTwice(raw, done, col);
    CleanRowsTwice(KeepRows(raw, done + [col]), done, col);
  }

  /** Step `i` of the earnings loop: the next earnings column is new, so one more filter and
      normalisation extend the result to the first `i + 1` columns. */
  lemma EarningsColumnStep(raw: seq<Row>, i: nat)
    requires i < |EARNINGS_COLUMNS|
    ensures CleanRows(KeepRows(CleanRows(KeepRows(raw, EARNINGS_COLUMNS[..i]), EARNINGS_COLUMNS[..i]),
                               [EARNINGS_COLUMNS[i]]), [EARNINGS_COLUMNS[i]])
         == CleanRows(KeepRows(raw, EARNINGS_COLUMNS[..i + 1]), EARNINGS_COLUMNS[..i + 1])
  {
    var done := EARNINGS_COLUMNS[..i];
    assert EARNINGS_COLUMNS[i] !in done;
    assert done + [EARNINGS_COLUMNS[i]] == EARNINGS_COLUMNS[..i + 1];
    CleanOneMoreColumn(raw, done, EARNINGS_COLUMNS[i]);
  }

  /** `clean_earnings_columns`: for each earnings column in turn, drop the rows whose text in that
      column contains the header label, then normalise that column. The result is the one-pass
      description: the rows with no label in any earnings column, earnings columns normalised. */
  method CleanEarningsColumns(raw: seq<Row>) returns (df: seq<Row>)
    ensures df == CleanRows(KeepRows(raw, EARNINGS_COLUMNS), EARNINGS_COLUMNS)
  {
    df := raw;
    KeepRowsNoColumns(raw);
    CleanRowsNoColumns(raw);
    for i := 0 to |EARNINGS_COLUMNS|
      invariant df == CleanRows(KeepRows(raw, EARNINGS_COLUMNS[..i]), EARNINGS_COLUMNS[..i])
    {
      var col := EARNINGS_COLUMNS[i];
      EarningsColumnStep(raw, i);
      df := KeepRows(df, [col]);
      df := CleanRows(df, [col]);
    }
    assert EARNINGS_COLUMNS[..|EARNINGS_COLUMNS|] == EARNINGS_COLUMNS;
  }

  /** The worker-column loop of `load_and_clean_data`: each worker column is normalised in turn;
      no row is dropped and the rows keep their order. */
  method CleanWorkerColumns(raw: seq<Row>) returns (df: seq<Row>)
    ensures |df| == |raw|
    ensures df == CleanRows(raw, WORKER_COLUMNS)
  {
    df := raw;
    CleanRowsNoColumns(raw);
    for i := 0 to |WORKER_COLUMNS|
      invariant df == CleanRows(raw, WORKER_COLUMNS[..i])
    {
      var col := WORKER_COLUMNS[i];
      assert WORKER_COLUMNS[..i] + [col] == WORKER_COLUMNS[..i + 1];
      CleanRowsTwice(raw, WORKER_COLUMNS[..i], col);
      df := CleanRows(df, [col]);
    }
    assert WORKER_COLUMNS[..|WORKER_COLUMNS|] == WORKER_COLUMNS;
  }

  // ---------------------------------------------------------------------------------------------
  // Records and the derived pay gap

  /** Men's minus women's earnings; missing when either is missing. */
  function MenMinusWomen(men: Option<real>, women: Option<real>): Option<real> {
    if men.Some? && women.Some? then Some(men.value - women.value) else None
  }

  /** A normalised row as a record, with the pay gap column appended. */
  function ToOccupation(row: Row): Occupation
    requires |row| == WIDTH
  {
    Occupation(row[OCCUPATION],
      Value(row[TOTAL_WORKERS]), Value(row[TOTAL_EARNINGS]),
      Value(row[MEN_WORKERS]), Value(row[MEN_EARNINGS]),
      Value(row[WOMEN_WORKERS]), Value(row[WOMEN_EARNINGS]),
      MenMinusWomen(Value(row[MEN_EARNINGS]), Value(row[WOMEN_EARNINGS])))
  }

  /** A numeric field of the cleaned dataset: the raw cell through the normaliser. */
  function Field(c: Cell): Option<real> {
    Value(NormalizeNumeric(c))
  }

  /** The record a raw row becomes: each numeric field is its raw cell through the normaliser, and
      the pay gap is men's minus women's earnings, present exactly when both are. */
  function Record(row: Row): (o: Occupation)
    requires |row| == WIDTH
    ensures o.payGap.Some? <==> o.menEarnings.Some? && o.womenEarnings.Some?
    ensures o.payGap.Some? ==> o.payGap.value == o.menEarnings.value - o.womenEarnings.value
  {
    Occupation(row[OCCUPATION],
      Field(row[TOTAL_WORKERS]), Field(row[TOTAL_EARNINGS]),
      Field(row[MEN_WORKERS]), Field(row[MEN_EARNINGS]),
      Field(row[WOMEN_WORKERS]), Field(row[WOMEN_EARNINGS]),
      MenMinusWomen(Field(row[MEN_EARNINGS]), Field(row[WOMEN_EARNINGS])))
  }

  /** A row normalised on the earnings and then the worker columns, with the gap appended, is the
      row's record. */
  lemma CleanedRowIsRecord(row: Row)
    requires |row| == WIDTH
    ensures |CleanRow(CleanRow(row, EARNINGS_COLUMNS), WORKER_COLUMNS)| == WIDTH
    ensures ToOccupation(CleanRow(CleanRow(row, EARNINGS_COLUMNS), WORKER_COLUMNS)) == Record(row)
  {
    var c := CleanRow(CleanRow(row, EARNINGS_COLUMNS), WORKER_COLUMNS);
    assert c[OCCUPATION] == row[OCCUPATION];
    assert c[TOTAL_WORKERS] == NormalizeNumeric(row[TOTAL_WORKERS]);
    assert c[TOTAL_EARNINGS] == NormalizeNumeric(NormalizeNumeric(row[TOTAL_EARNINGS]));
    assert c[MEN_WORKERS] == NormalizeNumeric(row[MEN_WORKERS]);
    assert c[MEN_EARNINGS] == NormalizeNumeric(NormalizeNumeric(row[MEN_EARNINGS]));
    assert c[WOMEN_WORKERS] == NormalizeNumeric(row[WOMEN_WORKERS]);
    assert c[WOMEN_EARNINGS] == NormalizeNumeric(NormalizeNumeric(row[WOMEN_EARNINGS]));
  }

  predicate Shaped(df: seq<Row>) {
    forall i :: 0 <= i < |df| ==> |df[i]| == WIDTH
  }

  /** The derived `Gender_Pay_Gap` column: men's minus women's median earnings, added to every row of
      the cleaned table. */
  function AddPayGap(df: seq<Row>): (r: seq<Occupation>)
    requires Shaped(df)
    ensures |r| == |df|
  {
    seq(|df|, i requires 0 <= i < |df| => ToOccupation(df[i]))
  }

  /** The cleaned dataset, row by row: rows with the header label in an earnings column are
      dropped, every other row becomes its record, in the original order. */
  function CleanOccupations(rows: seq<Row>): (r: seq<Occupation>)
    requires Shaped(rows)
    ensures |r| <= |rows|
  {
    if rows == [] then []
    else (if ArtifactIn(rows[0], EARNINGS_COLUMNS) then [] else [Record(rows[0])]) + CleanOccupations(rows[1..])
  }

  lemma ShapedAppend(a: seq<Row>, b: seq<Row>)
    requires Shaped(a) && Shaped(b)
    ensures Shaped(a + b)
  {
    forall i | 0 <= i < |a + b| ensures |(a + b)[i]| == WIDTH {
      if i >= |a| {
        assert (a + b)[i] == b[i - |a|];
      }
    }
  }

  /** The cleaned dataset of a row followed by others: that row's own part, then the others'. */
  lemma CleanOccupationsCons(row: Row, rest: seq<Row>)
    requires |row| == WIDTH && Shaped(rest)
    ensures Shaped([row]) && Shaped([row] + rest)
    ensures CleanOccupations([row] + rest) == CleanOccupations([row]) + CleanOccupations(rest)
    ensures CleanOccupations([row]) == if ArtifactIn(row, EARNINGS_COLUMNS) then [] else [Record(row)]
  {
    assert ([row] + rest)[1..] == rest;
    assert [row][1..] == [];
  }

  /** Cleaning treats rows independently and keeps their order: it distributes over concatenation. */
  lemma {:induction false} CleanOccupationsAppend(a: seq<Row>, b: seq<Row>)
    requires Shaped(a) && Shaped(b)
    ensures CleanOccupations(a + b) == CleanOccupations(a) + CleanOccupations(b)
  {
    ShapedAppend(a, b);
    if a == [] {
      assert a + b == b;
    } else {
      var t := a[1..];
      assert a == [a[0]] + t && a + b == [a[0]] + (t + b);
      ShapedAppend(t, b);
      CleanOccupationsAppend(t, b);
      CleanOccupationsCons(a[0], t);
      CleanOccupationsCons(a[0], t + b);
    }
  }

  /** A record is in the cleaned dataset exactly when some raw row without the header label in its
      earnings columns produced it. */
  lemma {:induction false} CleanOccupationsMembers(rows: seq<Row>, o: Occupation)
    requires Shaped(rows)
    ensures o in CleanOccupations(rows)
            <==> exists row :: row in rows && !ArtifactIn(row, EARNINGS_COLUMNS) && o == Record(row)
  {
    if rows != [] {
      var t := rows[1..];
      CleanOccupationsMembers(t, o);
      assert rows == [rows[0]] + t;
      CleanOccupationsCons(rows[0], t);
      assert forall row :: row in rows <==> row == rows[0] || row in t;
    }
  }

  /** Every record of the cleaned dataset carries the pay gap its own earnings give: recomputing the
      derived column changes nothing. */
  lemma {:induction false} PayGapConsistent(rows: seq<Row>)
    requires Shaped(rows)
    ensures forall o :: o in CleanOccupations(rows) ==> o.payGap == MenMinusWomen(o.menEarnings, o.womenEarnings)
  {
    if rows != [] {
      PayGapConsistent(rows[1..]);
    }
  }

  lemma KeepRowsShaped(rows: seq<Row>, cols: seq<nat>)
    requires Shaped(rows)
    ensures Shaped(KeepRows(rows, cols))
  {
    var kept := KeepRows(rows, cols);
    forall i | 0 <= i < |kept| ensures |kept[i]| == WIDTH {
      assert kept[i] in rows;
    }
  }

  /** The records of the rows of `df`, one for one. */
  function RecordsOf(df: seq<Row>): (r: seq<Occupation>)
    requires Shaped(df)
  {
    seq(|df|, i requires 0 <= i < |df| => Record(df[i]))
  }

  lemma ColumnsThenGapAreRecords(df: seq<Row>)
    requires Shaped(df)
    ensures Shaped(CleanRows(CleanRows(df, EARNINGS_COLUMNS), WORKER_COLUMNS))
    ensures AddPayGap(CleanRows(CleanRows(df, EARNINGS_COLUMNS), WORKER_COLUMNS)) == RecordsOf(df)
  {
    forall i | 0 <= i < |df|
      ensures CleanRows(CleanRows(df, EARNINGS_COLUMNS), WORKER_COLUMNS)[i]
              == CleanRow(CleanRow(df[i], EARNINGS_COLUMNS), WORKER_COLUMNS)
    {
    }
    forall i | 0 <= i < |df| ensures |CleanRow(CleanRow(df[i], EARNINGS_COLUMNS), WORKER_COLUMNS)| == WIDTH {
    }
    forall i | 0 <= i < |df|
      ensures ToOccupation(CleanRow(CleanRow(df[i], EARNINGS_COLUMNS), WORKER_COLUMNS)) == Record(df[i])
    {
      CleanedRowIsRecord(df[i]);
    }
  }

  lemma {:induction false} RecordsOfKeptRows(rows: seq<Row>)
    requires Shaped(rows)
    ensures Shaped(KeepRows(rows, EARNINGS_COLUMNS))
    ensures RecordsOf(KeepRows(rows, EARNINGS_COLUMNS)) == CleanOccupations(rows)
  {
    KeepRowsShaped(rows, EARNINGS_COLUMNS);
    if rows != [] {
      RecordsOfKeptRows(rows[1..]);
      var rest := KeepRows(rows[1..], EARNINGS_COLUMNS);
      if !ArtifactIn(rows[0], EARNINGS_COLUMNS) {
        assert KeepRows(rows, EARNINGS_COLUMNS) == [rows[0]] + rest;
        RecordsOfCons(rows[0], rest);
      } else {
        assert KeepRows(rows, EARNINGS_COLUMNS) == rest;
      }
    }
  }

  lemma RecordsOfCons(row: Row, rest: seq<Row>)
    requires |row| == WIDTH && Shaped(rest)
    ensures Shaped([row] + rest)
    ensures RecordsOf([row] + rest) == [Record(row)] + RecordsOf(rest)
  {
  }

  /** The column-by-column pipeline produces the row-by-row description. */
  lemma PipelineMatchesRecords(rows: seq<Row>)
    requires Shaped(rows)
    ensures Shaped(CleanRows(CleanRows(KeepRows(rows, EARNINGS_COLUMNS), EARNINGS_COLUMNS), WORKER_COLUMNS))
    ensures AddPayGap(CleanRows(CleanRows(KeepRows(rows, EARNINGS_COLUMNS), EARNINGS_COLUMNS), WORKER_COLUMNS))
            == CleanOccupations(rows)
  {
    RecordsOfKeptRows(rows);
    ColumnsThenGapAreRecords(KeepRows(rows, EARNINGS_COLUMNS));
  }

  /** `load_and_clean_data`: naming the seven columns fails unless the table has seven; otherwise
      the earnings columns are cleaned (dropping header-label rows), then the worker columns, and
      the pay gap is appended. The result is the row-by-row cleaned dataset. */
  method LoadAndCleanData(t: Table) returns (r: Result<seq<Occupation>, LoadError>)
    requires WellFormed(t)
    ensures t.columns != WIDTH ==> r == Err(ColumnCountMismatch(WIDTH, t.columns))
    ensures t.columns == WIDTH ==> r == Ok(CleanOccupations(t.rows))
  {
    if t.columns != WIDTH {
      return Err(ColumnCountMismatch(WIDTH, t.columns));
    }
    assert Shaped(t.rows);
    var df := CleanEarningsColumns(t.rows);
    df := CleanWorkerColumns(df);
    PipelineMatchesRecords(t.rows);
    r := Ok(AddPayGap(df));
  }

  // ---------------------------------------------------------------------------------------------
  // Scenarios

  /** A plain count reads as its number. */
  lemma PlainCount(n: nat)
    ensures Field(Text(Numbers.Digits(n))) == Some(n as real)
  {
    StripCurrencyKeepsPlainText(Numbers.Digits(n));
    NormalizeCurrencyAmount(Numbers.Digits(n), n);
  }

  /** Removing the symbols from a dollar amount with a thousands separator leaves its digits. */
  lemma StripDollarThousands(thousands: string, hundreds: string)
    requires Numbers.AllDigits(thousands) && Numbers.AllDigits(hundreds)
    ensures StripCurrency("$" + thousands + "," + hundreds) == thousands + hundreds
  {
    var tail := "," + hundreds;
    var mid := thousands + tail;
    assert "$" + thousands + "," + hundreds == "$" + mid;
    assert StripCurrency(tail) == hundreds by {
      StripCurrencyAppend(",", hundreds);
      StripCurrencyKeepsPlainText(hundreds);
      assert StripCurrency(",") == [];
    }
    assert StripCurrency(mid) == thousands + hundreds by {
      StripCurrencyAppend(thousands, tail);
      StripCurrencyKeepsPlainText(thousands);
    }
    StripCurrencyAppend("$", mid);
    assert StripCurrency("$") == [];
  }

  /** A dollar amount written `$T,HHH` reads as its number. */
  lemma DollarThousands(thousands: string, hundreds: string, n: nat)
    requires Numbers.AllDigits(thousands) && Numbers.AllDigits(hundreds)
    requires thousands + hundreds == Numbers.Digits(n)
    ensures Field(Text("$" + thousands + "," + hundreds)) == Some(n as real)
  {
    StripDollarThousands(thousands, hundreds);
    NormalizeCurrencyAmount("$" + thousands + "," + hundreds, n);
  }


  lemma LawyersAmounts()
    ensures Field(Text("100")) == Some(100.0) && Field(Text("60")) == Some(60.0) && Field(Text("40")) == Some(40.0)
  {
    assert Numbers.Digits(100) == "100" && Numbers.Digits(60) == "60" && Numbers.Digits(40) == "40";
    PlainCount(100);
    PlainCount(60);
    PlainCount(40);
  }

  lemma LawyersTotalEarnings()
    ensures Field(Text("$2,000")) == Some(2000.0)
  {
    assert "$2,000" == "$" + "2" + "," + "000";
    assert Field(Text("$" + "2" + "," + "000")) == Some(2000.0) by {
      assert Numbers.Digits(2000) == "2" + "000";
      DollarThousands("2", "000", 2000);
    }
  }

  lemma LawyersMenEarnings()
    ensures Field(Text("$2,200")) == Some(2200.0)
  {
    assert "$2,200" == "$" + "2" + "," + "200";
    assert Field(Text("$" + "2" + "," + "200")) == Some(2200.0) by {
      assert Numbers.Digits(2200) == "2" + "200";
      DollarThousands("2", "200", 2200);
    }
  }

  lemma LawyersWomenEarnings()
    ensures Field(Text("$1,700")) == Some(1700.0)
  {
    assert "$1,700" == "$" + "1" + "," + "700";
    assert Field(Text("$" + "1" + "," + "700")) == Some(1700.0) by {
      assert Numbers.Digits(1700) == "1" + "700";
      DollarThousands("1", "700", 1700);
    }
  }

  /** A row whose cells are all shorter than the header label cannot contain it, so it is kept. */
  lemma ShortRowKept(row: Row)
    requires |row| == WIDTH
    requires forall j :: 0 <= j < |row| ==> !row[j].Text? || |row[j].s| < |ARTIFACT|
    ensures CleanOccupations([row]) == [Record(row)]
  {
    assert !ArtifactIn(row, EARNINGS_COLUMNS);
    assert CleanOccupations([row]) == [Record(row)] + CleanOccupations([]);
  }

  /** The record of a lawyers row with dollar amounts and thousands separators. */
  lemma LawyersRecord(row: Row)
    requires row == [Text("Lawyers"), Text("100"), Text("$2,000"), Text("60"), Text("$2,200"),
                     Text("40"), Text("$1,700")]
    ensures Record(row) == Occupation(Text("Lawyers"), Some(100.0), Some(2000.0), Some(60.0),
                                      Some(2200.0), Some(40.0), Some(1700.0), Some(500.0))
  {
    LawyersAmounts();
    LawyersTotalEarnings();
    LawyersMenEarnings();
    LawyersWomenEarnings();
  }

  /** The lawyers row is kept and cleans to its numbers; the pay gap is 2200 - 1700 = 500. */
  lemma LawyersRow(row: Row)
    requires row == [Text("Lawyers"), Text("100"), Text("$2,000"), Text("60"), Text("$2,200"),
                     Text("40"), Text("$1,700")]
    ensures CleanOccupations([row])
            == [Occupation(Text("Lawyers"), Some(100.0), Some(2000.0), Some(60.0), Some(2200.0),
                           Some(40.0), Some(1700.0), Some(500.0))]
  {
    ShortRowKept(row);
    LawyersRecord(row);
  }

  /** A row with the header label anywhere in the text of one of its earnings cells is dropped,
      whatever the rest of it. */
  lemma HeaderRowDropped(row: Row, k: nat)
    requires |row| == WIDTH && k < |EARNINGS_COLUMNS|
    requires MentionsArtifact(row[EARNINGS_COLUMNS[k]])
    ensures CleanOccupations([row]) == []
  {
    assert ArtifactIn(row, EARNINGS_COLUMNS);
  }

  /** A cell whose text holds the header label somewhere, with anything before and after it. */
  lemma LabelCellMentionsArtifact(prefix: string, suffix: string)
    ensures MentionsArtifact(Text(prefix + ARTIFACT + suffix))
  {
    assert OccursAt(prefix + ARTIFACT + suffix, ARTIFACT, |prefix|) by {
      assert (prefix + ARTIFACT + suffix)[|prefix|..|prefix| + |ARTIFACT|] == ARTIFACT;
    }
  }
}
