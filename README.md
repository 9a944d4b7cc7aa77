# Gender pay gap tables: a verified model of the cleaning and ranking core

The repository analyses two small labour-statistics tables:

- **Dataset 1** (`dataset1.py`) gives median weekly earnings and worker counts by occupation and gender.
- **Dataset 2** (`dataset2.py`) gives the gender wage gap by country.

This project models the part of each script that does real work: loading and cleaning the table, deriving the pay gap, and answering the ranking and lookup queries of the menus. The properties of that logic are proved.

Modules:

- `Wrappers` (`wrappers.dfy`) holds `Option` and `Result`.
- `Strings` (`strings.dfy`) holds the string operations the scripts rely on:
  - literal `str.contains`;
  - removal of `$` and `,`;
  - `str.strip` over Python's whitespace set;
  - ASCII upper-casing.
- `Numbers` (`numbers.dfy`) holds the decimal parser that stands in for `pd.to_numeric`, and digit rendering for round trips.
- `Cells` (`cells.dfy`) holds what a CSV reader hands over, and the field normaliser.
  - A table is rows of cells. A cell is text, a number the reader recognised, or the missing-value marker `NaN`.
  - The normaliser has three steps: an exact `'–'` or `''` becomes missing, every `$` and `,` is dropped, and the rest is converted with errors coerced to missing.
- `Sorting` (`sorting.dfy`) holds `quicksort` of `dataset2.py`, generic over the element type and the key. It also holds the filter, head and top-N helpers that both scripts' views are built from.
- `Earnings` (`earnings.dfy`) holds the dataset 1 pipeline:
  - `clean_earnings_columns` and the worker-column loop, as methods with loops;
  - the derived `Gender_Pay_Gap` column;
  - the one-pass description the loops are proved against.
- `Rankings` (`rankings.dfy`) holds the four dataset 1 menu queries.
  - pandas `sort_values` puts missing values last in either direction. It is modelled as sorting the rows that have the key, then appending those that do not.
- `WageGap` (`wagegap.dfy`) holds the dataset 2 pipeline: `load_data` as a method, the sort toggle, the largest/smallest views and the OECD lookup.

## Behaviour worth noting

- **Missing gaps in the gap ranking.** The gap ranking (`dataset1.py:78-80`) keeps rows whose gap is missing; pandas places them after every row that has a gap.
  - When fewer than ten occupations have a gap, the first table ends with gapless occupations in their original order.
  - `Rankings.GenderGapWidest` states this.
- **Tie order.** Ties keep their input order only in the hand-written `quicksort` of `dataset2.py`. The pandas `sort_values` rankings of dataset 1 (default `kind`) do not pin down tie order. Their contracts therefore state ordering and top-ten membership, not stability.
- **Normaliser step order.** The normaliser first replaces the placeholders and then strips `$` and `,` (`dataset1.py:12-13`).
- **Labels kept as read.** The occupation and country labels are not trimmed when loaded. Only the OECD comparison trims.
- **Header rows.** Rows holding the header label are recognised only in the three earnings columns (`dataset1.py:7-9`).

## Model

| member | source | states |
|---|---|---|
| Sorting.QuickSort | dataset2.py:4-15 | the result is a permutation of the input (same multiset), ordered by the key in the chosen direction; lists of length at most one come back unchanged; each recursive call gets a strictly shorter part of the tail |
| Sorting.Before | dataset2.py:9-14 | the left partition holds only elements of the tail that come strictly before the pivot key (`<` ascending, `>` descending) |
| Sorting.NotBefore | dataset2.py:9-14 | the right partition holds only elements of the tail that do not come strictly before the pivot key (`>=` ascending, `<=` descending) |
| Sorting.PartitionSplits | dataset2.py:10-14 | the two comprehensions together hold every element of the tail, each exactly as often as the tail does |
| Sorting.JoinOrdered | dataset2.py:15 | sorted left part, then the pivot, then the sorted right part is ordered |
| Sorting.PartitionsRejoin | dataset2.py:7-15 | one recursion step: rejoined sorted partitions are an ordered permutation of the input |
| Sorting.QuickSortUnfold | dataset2.py:7-15 | one step of the sort as an equation: sort(left) + [pivot] + sort(right) |
| Sorting.WithKeyAppend | dataset2.py:15 | the equal-key elements of a concatenation are those of each part, in order |
| Sorting.WithKeyOfPartitions | dataset2.py:10-14 | all elements with a given key land in one partition, in their original order |
| Sorting.WithKeySplit | dataset2.py:10-15 | elements with the pivot's key go right of the pivot, others with a given key all go to one side |
| Sorting.RejoinKeepsKeyOrder | dataset2.py:15 | rejoining stable partitions keeps every key's elements in input order |
| Sorting.QuickSortStable | dataset2.py:4-15 | stability: for every key, the elements carrying it appear in the output in their input order, in both directions |
| Sorting.QuickSortKeepsOrderedInput | dataset2.py:4-15 | an input already ordered in the chosen direction is returned unchanged |
| Sorting.NothingBefore | dataset2.py:10-14 | when nothing precedes the pivot, the left partition is empty and the right one is the whole tail |
| Sorting.OrderedHead | dataset2.py:7-8 | in an ordered list nothing after the head precedes it, and the tail is ordered |
| Sorting.PrefixIsTop | dataset2.py:43-48 | the first m rows of an ordered list are ordered, drawn from it, and none of the rows left out precedes a kept one |
| Sorting.PrefixBeforeSuffix | dataset2.py:43-48 | in an ordered list no later row precedes an earlier one across a cut |
| Sorting.TopN | dataset2.py:42-50 | `sort_values(...).head(10)`: min(n, size) rows drawn from the input, ordered, and no row left out precedes a kept one |
| Sorting.Filter | dataset1.py:82 | a boolean mask keeps only rows of the input that satisfy it |
| Sorting.FilterAppend | dataset1.py:82 | masking distributes over concatenation |
| Sorting.FilterCount | dataset1.py:82 | a mask keeps each satisfying row exactly as often as the input has it, and drops the others |
| Sorting.FilterOrdered | dataset1.py:82 | masking a sorted frame keeps it sorted |
| Sorting.FilterAll | dataset1.py:58 | a mask every row satisfies changes nothing |
| Sorting.FilterNone | dataset1.py:58 | a mask no row satisfies leaves nothing |
| Sorting.FilterEmpty | dataset1.py:83 | the masked frame is empty exactly when no row satisfies the mask |
| Sorting.FilterFirst | dataset2.py:55 | a non-empty masked frame starts with the first satisfying row of the input |
| Sorting.Head | dataset1.py:59 | `head(n)` has min(n, size) rows, the first ones of the input |
| Sorting.HeadOfAppend | dataset1.py:80 | the head of a concatenation is the head of the first part, then as much of the second as fits |
| Sorting.HeadIsPart | dataset1.py:80 | `head(n)` is drawn from the frame: its rows are rows of the frame, no more often than there |
| Sorting.HeadOfPermutationIsTop | dataset1.py:85 | the head of an ordered rearrangement of a pool is ordered, drawn from the pool, and beats every pool row left out |
| Sorting.OrderedThenRest | dataset1.py:57 | sorted keyed rows followed by keyless rows: every keyed row is preceded only by keyed rows in order |
| Strings.Contains | dataset1.py:9 | the text holds the label exactly when it occurs at some position |
| Strings.ShiftOccurrence | dataset1.py:9 | when the label does not start the text, it occurs in the text exactly when it occurs in the text after its first character |
| Strings.StripCurrency | dataset1.py:13 | no `$` or `,` is left, and the text does not grow |
| Strings.StripCurrencyAppend | dataset1.py:13 | removing the symbols works piece by piece: the removal of a concatenation is the concatenation of removals |
| Strings.StripCurrencyKeepsPlainText | dataset1.py:13 | text without `$` or `,` is unchanged |
| Strings.TrimStart | dataset2.py:53 | the result is a suffix, only whitespace was removed, and it does not start with whitespace |
| Strings.TrimEnd | dataset2.py:53 | the result is a prefix, only whitespace was removed, and it does not end with whitespace |
| Strings.Trim | dataset2.py:53 | `strip()` is no longer than its input and neither starts nor ends with whitespace |
| Strings.TrimIsSlice | dataset2.py:53 | `strip()` removes only whitespace, and only from the two ends: the input is leading whitespace, the result, then trailing whitespace |
| Strings.TrimStartSkipsPadding | dataset2.py:53 | leading whitespace does not affect the left trim |
| Strings.TrimStartKeepsTail | dataset2.py:53 | trailing whitespace passes through the left trim unless everything is whitespace |
| Strings.TrimEndSkipsPadding | dataset2.py:53 | trailing whitespace does not affect the right trim |
| Strings.TrimIgnoresPadding | dataset2.py:53 | `strip()` of padded text equals `strip()` of the text itself |
| Strings.Upper | dataset2.py:53 | `upper()` keeps the length and upper-cases each character |
| Numbers.Pow10 | dataset1.py:14 | powers of ten used by the decimal reading are positive |
| Numbers.Digits | dataset1.py:14 | the decimal rendering of n is non-empty, all digits, and reads back as n |
| Numbers.DotIndex | dataset1.py:14 | the position of the first decimal point, or the length when there is none |
| Numbers.ParseUnsigned | dataset1.py:14 | an unsigned reading succeeds only on unsigned numerals (digits, or digits, a point and digits, at least one digit in all) and is never negative; its value is given by `UnsignedReading` |
| Numbers.ParseDecimal | dataset1.py:14 | a numeric reading succeeds only on numerals with an optional sign; a plain digit string reads as its value |
| Numbers.DigitsRoundTrip | dataset1.py:14 | reading the rendering of n gives back n |
| Numbers.NegativeRoundTrip | dataset1.py:14 | reading `-` followed by the rendering of n gives -n |
| Numbers.DotAfterDigits | dataset1.py:14 | after a run of digits, the first point found is the one that ends the run |
| Numbers.UnsignedReading | dataset1.py:14 | an unsigned numeral `w.f` reads as w plus f scaled down by ten to the number of fraction digits |
| Numbers.DecimalReading | dataset1.py:14 | the same for the full reading: `"12.5"` is 12 + 5/10, `".5"` and `"3."` read too |
| Numbers.SignReading | dataset1.py:14 | a `+` in front of an unsigned numeral keeps its value and a `-` negates it |
| Numbers.SignedDecimalReading | dataset1.py:14 | a signed numeral `±w.f` reads as the signed value of its digits |
| Numbers.UnsignedNumeralRead | dataset1.py:14 | every unsigned numeral is read |
| Numbers.SignedIsNotUnsigned | dataset1.py:14 | a text that starts with a sign is not an unsigned numeral |
| Numbers.ReadsExactlyNumerals | dataset1.py:14 | the reader succeeds exactly on numerals: `"+"`, `"."`, `"1.2.3"` and `"+-5"` read as missing |
| Cells.Value | dataset1.py:14 | a cleaned cell has a value exactly when it is a number |
| Cells.ToNumeric | dataset1.py:14 | conversion never leaves text and never fails: numbers and missing values are kept, text becomes its reading or missing |
| Cells.NormalizeNumeric | dataset1.py:10-15 | a normalised cell is never text; `'–'` and `''` become missing; other text is read after removing `$` and `,`, unreadable text becoming missing |
| Cells.NormalizeIdempotent | dataset1.py:10-15 | normalising a normalised cell changes nothing |
| Cells.NormalizeCurrencyAmount | dataset1.py:13-14 | text that reads as digits once `$` and `,` are gone becomes that number |
| Cells.NormalizeRejectsWords | dataset1.py:14 | text that still holds a letter after the symbols are removed becomes missing instead of raising |
| Earnings.KeepRows | dataset1.py:9 | the kept rows are exactly the input rows with no header label in the given columns, never more of them |
| Earnings.CleanRow | dataset1.py:10-15 | normalising columns keeps the row's length |
| Earnings.CleanRows | dataset1.py:10-15 | normalising columns keeps the number of rows |
| Earnings.KeepRowsNoColumns | dataset1.py:8-9 | filtering on no column keeps every row |
| Earnings.CleanRowsNoColumns | dataset1.py:8-15 | normalising no column changes nothing |
| Earnings.KeepRowsTwice | dataset1.py:8-9 | filtering on the columns so far and then on one more is filtering on all of them at once |
| Earnings.CleanRowsTwice | dataset1.py:8-15 | normalising the columns so far and then one more is normalising all of them at once |
| Earnings.KeepRowsCons | dataset1.py:9 | the filter keeps the first row exactly when it holds no label, then filters the rest |
| Earnings.KeepRowsIsFilter | dataset1.py:9 | the header filter is the general order-keeping filter with the test "no label in the given columns" |
| Earnings.KeepRowsAppend | dataset1.py:9 | the header filter keeps order: it distributes over concatenation of tables |
| Earnings.KeepRowsCount | dataset1.py:9 | each label-free row is kept exactly as often as the input holds it, and each labelled row not at all |
| Earnings.CleanRowsCons | dataset1.py:10-15 | normalising works row by row |
| Earnings.ArtifactIgnoresOtherColumns | dataset1.py:9-15 | normalising other columns does not change whether a column holds the label |
| Earnings.KeepRowsAfterClean | dataset1.py:9-15 | filtering on a column commutes with normalising other columns |
| Earnings.CleanOneMoreColumn | dataset1.py:8-15 | one more filter-and-normalise round extends the one-pass result by that column |
| Earnings.EarningsColumnStep | dataset1.py:7-15 | each earnings column is new to the loop, so each round extends the one-pass result |
| Earnings.CleanEarningsColumns | dataset1.py:6-16 | the loop's result is the rows with no label in any earnings column, in order, with the earnings columns normalised |
| Earnings.CleanWorkerColumns | dataset1.py:31-39 | the worker-column loop drops no rows, keeps their order and normalises the worker columns |
| Earnings.Record | dataset1.py:42 | the pay gap is present exactly when both earnings are, and then equals men's minus women's |
| Earnings.CleanedRowIsRecord | dataset1.py:29-42 | a row cleaned column by column, with the gap appended, is the record of the raw row |
| Earnings.AddPayGap | dataset1.py:42 | adding the gap column keeps every row |
| Earnings.CleanOccupations | dataset1.py:18-44 | the cleaned dataset has no more rows than the raw table |
| Earnings.CleanOccupationsCons | dataset1.py:9 | a raw row contributes its record unless it holds the label |
| Earnings.CleanOccupationsAppend | dataset1.py:9-44 | cleaning treats rows independently and keeps their order |
| Earnings.CleanOccupationsMembers | dataset1.py:9-42 | a record is in the cleaned dataset exactly when some raw row without the label in its earnings columns produced it |
| Earnings.PayGapConsistent | dataset1.py:42 | every cleaned record's gap is men's minus women's earnings, missing when either is missing, so recomputing it changes nothing |
| Earnings.KeepRowsShaped | dataset1.py:9 | filtering keeps the seven-column shape |
| Earnings.ColumnsThenGapAreRecords | dataset1.py:29-42 | normalising both column groups and adding the gap gives every row's record |
| Earnings.RecordsOfKeptRows | dataset1.py:9-42 | the records of the kept rows are the cleaned dataset |
| Earnings.RecordsOfCons | dataset1.py:42 | records are computed row by row |
| Earnings.PipelineMatchesRecords | dataset1.py:18-44 | filter, normalise both column groups, add the gap: the result is the cleaned dataset |
| Earnings.LoadAndCleanData | dataset1.py:18-44 | a table without seven columns fails the rename; otherwise the result is the cleaned dataset |
| Earnings.PlainCount | dataset1.py:36-38 | a worker count written in plain digits becomes that number |
| Earnings.StripDollarThousands | dataset1.py:13 | `$d,ddd` loses its dollar sign and separator |
| Earnings.DollarThousands | dataset1.py:13-14 | `$d,ddd` becomes the number its digits spell |
| Earnings.LawyersAmounts | dataset1.py:36-38 | the counts `100`, `60` and `40` become 100, 60 and 40 |
| Earnings.LawyersTotalEarnings | dataset1.py:12-14 | `"$2,000"` becomes 2000 |
| Earnings.LawyersMenEarnings | dataset1.py:12-14 | `"$2,200"` becomes 2200 |
| Earnings.LawyersWomenEarnings | dataset1.py:12-14 | `"$1,700"` becomes 1700 |
| Earnings.ShortRowKept | dataset1.py:9 | a row whose cells are all shorter than the label is kept as its record |
| Earnings.LawyersRecord | dataset1.py:10-42 | the Lawyers row has earnings 2000/2200/1700, counts 100/60/40 and gap 500 |
| Earnings.LawyersRow | dataset1.py:6-44 | the cleaned dataset of the Lawyers row is exactly that one record |
| Earnings.HeaderRowDropped | dataset1.py:9 | a row with the header label anywhere in the text of one of its earnings cells is absent from the cleaned dataset |
| Earnings.LabelCellMentionsArtifact | dataset1.py:9 | a text cell with the header label anywhere inside it counts as a label cell |
| Rankings.PresentMeans | dataset1.py:57-58 | the sort key and the missing-value test read the field of the chosen column |
| Rankings.Having | dataset1.py:58 | `dropna(subset=...)` keeps only rows of the frame that have the key |
| Rankings.Lacking | dataset1.py:57 | the rows sorted last are rows of the frame that lack the key |
| Rankings.HavingLackingSplit | dataset1.py:57 | rows with and without the key together are the frame |
| Rankings.SortBy | dataset1.py:57 | `sort_values` returns a rearrangement of the frame in which rows with the key come first, in key order, and rows without it last |
| Rankings.HavingOfSorted | dataset1.py:57-58 | dropping the keyless rows after sorting leaves the keyed rows sorted |
| Rankings.TopOfPresent | dataset1.py:57-59 | the top view is drawn from the keyed rows, ordered, and beats every keyed row left out |
| Rankings.Ranked | dataset1.py:56-60 | sort, drop missing, head(10): min(10, keyed rows) rows, each from the frame with the key present, ordered, and no keyed row left out precedes a shown one |
| Rankings.SortEarnings | dataset1.py:55-65 | the earnings view returns the toggled flag, at most ten rows with earnings, ordered in the chosen direction, the top ones |
| Rankings.TopWomen | dataset1.py:67-70 | at most ten rows with a women count, non-increasing by it, and no row left out has a larger count |
| Rankings.TopMen | dataset1.py:72-75 | at most ten rows with a men count, non-increasing by it, and no row left out has a larger count |
| Rankings.SortByMembers | dataset1.py:78 | sorting keeps the number of rows, and every sorted row is a row of the frame |
| Rankings.GenderGap | dataset1.py:77-87 | the first table has min(10, rows) rows taken from the frame; the second, when shown, holds one to ten rows of the frame, each with a negative gap (order and top-ness: `GenderGapWidest`, `GenderGapReversed`; when it is shown: `GenderGapReversedShown`) |
| Rankings.GenderGapWidest | dataset1.py:78-80 | the first gap table has min(10, rows) rows: the widest gaps in order, then, when fewer than ten have a gap, gapless rows in their original order |
| Rankings.ReversedOfSortedSplit | dataset1.py:82 | masking the gap-sorted frame only sees the rows with a gap |
| Rankings.ReversedCount | dataset1.py:82 | the mask over the sorted rows keeps each negative-gap row as often as the frame has it |
| Rankings.ReversedOfSorted | dataset1.py:82 | the reversed-gap frame holds exactly the rows with a present negative gap, in descending gap order |
| Rankings.GenderGapReversedShown | dataset1.py:83-87 | the "no occupations" report is chosen exactly when no row has a negative gap |
| Rankings.GenderGapReversed | dataset1.py:82-85 | when shown, the second table has min(10, negative-gap rows) rows, each with a negative gap, largest gap first, and no such row left out has a larger gap |
| Rankings.ReversedViewByGap | dataset1.py:82-85 | an ordered view of negative-gap rows, restated on the gap values themselves |
| WageGap.DropNa | dataset2.py:20-22 | `dropna` keeps only complete rows of the frame, in order, in the same shape |
| WageGap.CoerceGap | dataset2.py:21 | converting the gap column keeps every row and the two-column shape |
| WageGap.Entries | dataset2.py:35 | pairing countries with gaps keeps every row |
| WageGap.Loaded | dataset2.py:17-23 | the loaded frame has no more rows than the table and every country is present |
| WageGap.LoadedAppend | dataset2.py:20-22 | loading treats rows independently and keeps their order |
| WageGap.LoadedMembers | dataset2.py:20-22 | an entry is loaded exactly when some row has a country and a gap that converts to a number, and gives that entry |
| WageGap.Pipeline | dataset2.py:20-22 | after drop, convert, drop, every row has two cells and a numeric gap |
| WageGap.CoerceGapNeverText | dataset2.py:21 | no gap is left as text after conversion |
| WageGap.PipelineStep | dataset2.py:20-22 | the three steps keep a row exactly when it has a country and a convertible gap |
| WageGap.PipelineIsLoaded | dataset2.py:20-22 | drop, convert, drop gives the one-pass description of the loaded rows |
| WageGap.LoadData | dataset2.py:17-23 | a table without two columns fails the rename; otherwise the result is the loaded rows |
| WageGap.OptionSort | dataset2.py:34-40 | returns the toggled flag and the entries rearranged (same multiset), non-decreasing by gap when ascending and non-increasing otherwise |
| WageGap.OptionSortStable | dataset2.py:34-40 | entries with equal gaps keep their relative order, in both directions |
| WageGap.OptionSortSorted | dataset2.py:36 | entries already in order come back unchanged |
| WageGap.TopGaps | dataset2.py:42-50 | min(10, entries) entries drawn from the input, ordered in the chosen direction, and no entry left out precedes a shown one |
| WageGap.TopLargest | dataset2.py:42-45 | at most ten entries taken from the table, non-increasing by gap, and no entry left out has a larger gap |
| WageGap.TopSmallest | dataset2.py:47-50 | at most ten entries taken from the table, non-decreasing by gap, and no entry left out has a smaller gap |
| WageGap.IsOecd | dataset2.py:53 | only a text cell whose stripped text has four characters can match, and the stripped text `OECD` matches (any case and padding: `OecdIgnoresPaddingAndCase`) |
| WageGap.UpperOecd | dataset2.py:53 | the label compared against is already upper case |
| WageGap.OecdMatches | dataset2.py:53 | the OECD mask is empty exactly when no country matches, and otherwise starts with the first match |
| WageGap.CompareOecd | dataset2.py:52-58 | "not found" exactly when no country, trimmed and upper-cased, is `OECD`; otherwise the gap of the first matching row |
| WageGap.OecdIgnoresPaddingAndCase | dataset2.py:53 | a country written `oecd` in any letter case with surrounding whitespace matches |

## Left out

- `main.py` is not part of this model. It launches the scripts and runs a blocking menu. So are the `display_menu` functions, the per-script `main` loops and their exception reporting, and all printing and formatting.
- Plotting (`option_plot_gender_toggle`, `option_plot`) is left out: it is matplotlib output behind an interactive loop.
- CSV reading is left out. The input is a table of already-split cells:
  - `read_csv` with its skipped rows, header handling and NA spellings is not modelled;
  - its padding or rejection of ragged rows is not modelled either, so the table is taken as well-formed.
  - The rename `df.columns = [...]` failing on a wrong column count is modelled as an error result.
- Floating point is left out. Numbers are exact reals, and `NaN` is a separate cell value.
  - The decimal reader accepts an optional sign, digits, and at most one point with at least one digit. The model reads no exponent notation, infinity spelling or surrounding whitespace: such text becomes a missing value in the model.
- `upper()` is modelled for ASCII letters only. Comparing with `OECD` depends only on which characters upper-case to `O`, `E`, `C`, `D`.
- A Country column that holds no text at all makes `.str` raise in pandas. The model treats a non-text country as not matching.
- Rankings.SortBy: pandas' own sorting algorithm and tie order are not modelled.
  - The model sorts the keyed rows with the quicksort and puts keyless rows last.
  - The dataset 1 views (Rankings.SortEarnings, Rankings.TopWomen, Rankings.TopMen, Rankings.GenderGapWidest, Rankings.GenderGapReversed) promise only order, membership and top-ten selection, not which of several tied rows is shown.
- WageGap.TopGaps: the same holds for the pandas views of dataset 2. Which of several entries tied at the tenth place is shown is not stated.
- Earnings.LoadAndCleanData: the pandas column types (object versus float columns) are not modelled. A cell the reader already recognised as a number passes through the normaliser unchanged.
