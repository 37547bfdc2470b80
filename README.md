# BCA-Matrix core, modelled in Dafny

BCA-Matrix is a Streamlit app. Several customers each upload a business-case
analysis (BCA) workbook. The app puts the summaries side by side in a
comparison matrix: one row per customer, one column per product line, for one
selected metric. It then reports the customers whose value in a product-line
column is far from every other customer's value.

This project models the four pieces of sequential logic in `main.py`. It proves
what each piece computes.

- **File names** (`filenames.dfy`, module `FileDetails`):
  - `getFileDetails` splits every `<customer>-<date>.xlsx` name into a
    customer and a date.
  - A name that does not split in exactly two raises, and that aborts the
    whole batch.
- **Registry** (`registry.dfy`, module `Registry`):
  - `getBCAs` stores each workbook's summary in the session under a customer
    name. `Session` is a class whose `store` map its load methods update in
    place.
  - `Dedup` is pandas' `unique()`.
  - The load as written pairs the distinct names with the files, which
    misattributes files when a name repeats (see Findings). The corrected load
    stores each file under its own name.
- **Comparison matrix** (`comparison.dfy`, module `Comparison`):
  - Each cell is the registry entry for the customer, the selected metric and
    `"<pline> Per Unit"` or `"<pline> Cumulative"`, or the `'-'` sentinel
    when any key is missing.
  - `Build` is the nested loop, proved cell by cell.
- **Discrepancy detector** (`discrepancy.dfy`, module `Discrepancy`):
  - `getDescripancy` parses every cell of a column, skips what does not parse,
    and flags a customer when every other value read lies outside
    `[min(.95v, 1.05v), max(.95v, 1.05v)]`.
  - The loops are methods proved equal to the functions `ParsedValues`,
    `Outliers` and `Report`. Lemmas state what those functions mean.
- **Formatter and parse chain** (`formatter.dfy`, `cells.dfy`, `numerals.dfy`,
  `strings.dfy`):
  - `table_format` shows a value as a percentage, a grouped whole number, or
    money, chosen by the metric name.
  - The strip-and-replace chain plus `float()` reads a display back. The
    round-trip lemmas prove that it recovers the number that was shown: the
    amount rounded to cents with its sign, `abs(x * 100)` rounded to hundredths,
    or `int(x)`.
  - `strings.dfy` models Python's `str.replace`, `split` on one character, and
    `strip` with the whitespace `float()` ignores: space, tab to carriage
    return, and the non-ASCII characters `str.isspace` accepts. `numerals.dfy` models digit
    grouping, `,.2f` rounding and the subset of `float()` that the app needs.

Three behaviours of the code that a reader may not expect are kept as written:

- A column with exactly one readable value flags that customer. Its list of
  other values is empty, and `all` of nothing is true (main.py:103-104):
  `Discrepancy.SingleValueFlagged`.
- A name that does not split into exactly two pieces raises from the unpack at
  main.py:113. That aborts the whole batch, not just that file:
  `FileDetails.GetFileDetails`.
- Loading a batch adds to the session's registry (main.py:72) and does not
  clear it, so customers of an earlier batch stay stored:
  `Registry.Session.LoadAsWritten`, whose new store is the old one updated.

Numbers are exact reals. `Number` is `Finite(r)` or `NaN`, because the
formatter and the detector both handle NaN.

## Model

| member | source | states |
|---|---|---|
| Formatter.KindOf | main.py:16-24 | the display rule chosen by exact metric name: the three percentage names, the three quantity names, money for every other name; the display lemmas below state each rule |
| Formatter.FormatValue | main.py:16-26 | the display of a finite number for each rule, both branches of each sign test written out; stated by the display and round-trip lemmas below |
| Formatter.TableFormat | main.py:11-28 | `table_format`: `float(x)` first, NaN shown empty, a value `float()` rejects returned unchanged, otherwise `FormatValue`; stated by `NonNumericPassesThrough` and the lemmas below |
| Formatter.NonNumericPassesThrough | main.py:11-28 | text that `float()` rejects is returned unchanged; the sentinel shows as `-`; NaN shows as the empty string |
| Formatter.PercentDisplay | main.py:16-19 | a percentage metric shows `abs(x*100)` to two decimals followed by `" %"`, for either sign |
| Formatter.PercentDropsSign | main.py:16-19 | `x` and `-x` display identically under a percentage metric |
| Formatter.NegativePercentRoundTrip | main.py:17-18 | a negative percentage display reads back as `abs(x*100)` rounded half-even to hundredths |
| Formatter.PositivePercentRoundTrip | main.py:19 | a non-negative percentage display reads back as `x*100` rounded half-even to hundredths |
| Formatter.PercentRoundTrip | main.py:16-19 | the chain of main.py:94 reads a percentage display back as `abs(x*100)` rounded half-even to hundredths |
| Formatter.PercentExample | main.py:16-19 | 0.1025 under "MARGIN %" shows as "10.25 %" |
| Formatter.QuantityDisplay | main.py:20-23 | a quantity metric shows `int(x)` with thousands separators, for either sign |
| Formatter.QuantityRoundTrip | main.py:20-23 | a quantity display reads back as `int(x)`, truncated toward zero, sign kept |
| Formatter.NegativeCurrencyDisplay | main.py:24-25 | a negative amount shows as `$ (` + `abs(x)` to two decimals + `)` |
| Formatter.PositiveCurrencyDisplay | main.py:26 | a non-negative amount shows as `$ ` + `x` to two decimals |
| Formatter.CurrencyRoundTrip | main.py:24-26 | a money display reads back, through the chain of main.py:94, as the amount rounded half-even to cents with its sign |
| Formatter.WholeCents | main.py:24-26 | an amount in whole cents is its own rounding |
| Formatter.CurrencyRoundTripExact | main.py:24-26 | a money amount in whole cents is recovered exactly from its display |
| Formatter.Fixed2Example | main.py:25 | 1234.5 to two decimals with grouping is "1,234.50" |
| Formatter.CurrencyExample | main.py:24-25 | -1234.5 under "Contribution Margin" shows as "$ (1,234.50)" |
| Formatter.CurrencyExampleParses | main.py:94 | "$ (1,234.50)" parses to -1234.5 |
| Formatter.Fixed2Reads | main.py:18 | the chain turns a `,.2f` display into a plain decimal that `float()` reads as the rounded value |
| Formatter.GroupReads | main.py:22 | a comma-grouped whole number reads back as itself |
| Formatter.GroupIntReads | main.py:22-23 | a grouped whole number with its sign parses back to itself |
| Numerals.Group | main.py:22 | `f"{n:,}"` for a natural number; `GroupDigits` states its shape and value, `Formatter.GroupReads` its read-back |
| Numerals.GroupInt | main.py:22 | `f"{k:,}"` for an integer, minus sign first; `Formatter.GroupIntReads` states its read-back |
| Numerals.Fixed2 | main.py:18 | `f"{x:,.2f}"` for a non-negative amount: grouped whole part, a point, two digits of the half-even rounding; `Formatter.Fixed2Reads` states its read-back |
| Numerals.ParseFloat | main.py:94 | Python's `float()` on a string: surrounding whitespace ignored, a sign, then "nan" or a decimal literal, `None` for the ValueError; stated by `ParseFloatNegative`, `ParseFloatPositive`, `NoBreakSpaceStripped` and `SeparatorNotStripped` |
| Numerals.NoBreakSpaceStripped | main.py:94 | `float()` strips non-ASCII whitespace too: "1" followed by a no-break space reads as 1.0 |
| Numerals.SeparatorNotStripped | main.py:94 | `float()` does not strip the ASCII information separators: "1" followed by U+001C is refused |
| Numerals.GroupDigits | main.py:22 | `{:,}` output starts with a digit, which is `0` only for "0" itself, holds only digits and commas, has a comma exactly at every fourth place from the right (so each comma is followed by three digits and the first group has one to three), and without its commas is the decimal numeral of `n` |
| Numerals.RoundHalfEven | main.py:18 | the result is within one half of `y`, is even on a tie, and is not negative for a non-negative `y` |
| Numerals.Truncate | main.py:22 | `int(x)` lies between zero and `x`, less than one away from `x` |
| Numerals.ParseFloatNegative | main.py:94 | `float()` of space padding, `-` and an unsigned numeral gives the negated value |
| Numerals.ParseFloatPositive | main.py:94 | `float()` of space padding around an unsigned numeral gives its value |
| Cells.ReplaceChain | main.py:94 | the five `replace` calls of the detector's parse; `ChainIsNormalize` states what they do |
| Cells.HighlightChain | main.py:77 | the five `replace` calls of `highlight_negative`; `HighlightChainAgrees` shows they compute the same string |
| Cells.ParseCell | main.py:92-98 | the value the detector reads from a cell: the sentinel and the empty string are skipped, a float is taken as it is, text goes through the chain and `float()`; stated by the round-trip lemmas and `Discrepancy.ParsedRowsExact` |
| Cells.HighlightChainAgrees | main.py:77 | the replace chain of main.py:77, where `$` goes before `,`, computes the same string as the one of main.py:94 |
| Cells.ChainIsNormalize | main.py:94 | the five-step `replace` chain equals deleting `%`, `,`, `$` and `)` and turning `(` into `-`, character by character |
| Cells.NormalizeGrouped | main.py:94 | the chain deletes exactly the commas of a grouped numeral |
| Strings.Replace | main.py:94 | `str.replace`; `Cells.ChainIsNormalize` states what the chain of replacements does |
| Strings.ReplaceKeepsPrefix | main.py:116 | a prefix in which no occurrence of the pattern starts is copied unchanged |
| Strings.Split | main.py:113 | `str.split` on one character, with at least one piece; `SplitCount`, `SplitPieces` and `JoinSplit` state its meaning |
| Strings.SplitCount | main.py:113 | there is one more piece than there are separators |
| Strings.JoinSplit | main.py:113 | joining the pieces with the separator gives back the string |
| FileDetails.FileDetail | main.py:113-117 | a name gives a row exactly when it has one `-`; otherwise it fails with the number of pieces |
| FileDetails.FileDetailSplit | main.py:113-116 | with one `-`, the customer is the part before it and the date is the part after it with `.xlsx` and then `.xls` removed; neither contains `-` |
| FileDetails.FileDetailFails | main.py:113 | zero or several `-` make the unpack fail, reporting `len(split)` pieces |
| FileDetails.StripExtensions | main.py:116 | the date with `.xlsx` and then `.xls` removed; stated by `FileDetailSplit`, `StripXlsx`, `StripXls` and `DottedDateStripped` |
| FileDetails.StripXlsx | main.py:116 | a date in which `.xls` does not occur loses exactly its `.xlsx` extension |
| FileDetails.StripXls | main.py:116 | such a date keeps `.xls` through the `.xlsx` replacement, then loses it |
| FileDetails.DottedDateStripped | main.py:116 | a dotted date keeps its dots: `2024.01.xlsx` gives `2024.01` |
| FileDetails.FileDetailRoundTrip | main.py:113-116 | `c-d.xlsx` and `c-d.xls` give back customer `c` and date `d`, for every `c` and `d` without `-` such that `.xls` does not occur in `d` |
| FileDetails.GetFileDetails | main.py:110-119 | succeeds iff every name has one `-`, with one row per file, in order; otherwise fails with the error of the first bad name, all earlier names being good |
| Registry.Dedup | main.py:64 | the distinct names: no repeats, and exactly the names that occur |
| Registry.DedupFirstSeen | main.py:186 | the distinct names keep the order of their first occurrences |
| Registry.Session.LoadAsWritten | main.py:64-72 | the store becomes the old store with the `i`-th distinct name set to the `i`-th summary, for as many pairs as `zip` yields |
| Registry.StoreFirst | main.py:72 | the store after the first `n` assignments `store[keys[i]] = values[i]`; `StoreFirstDistinct`, `StoreFirstOthers` and `LoadAttributes` state what it holds |
| Registry.StoreFirstDistinct | main.py:65-72 | with distinct names, the `i`-th name holds exactly the `i`-th summary |
| Registry.StoreFirstOthers | main.py:72 | a name not in the batch keeps its earlier summary, if it had one |
| Registry.DuplicateNameMisattributes | main.py:64-65 | with files named A, A, B, customer B is given the second file, which is A's |
| Registry.Session.Load | main.py:72 | the corrected load: each file's summary is stored under its own customer name, in file order |
| Registry.LoadAttributes | main.py:72 | after the corrected load, every customer of the batch holds the summary of a file bearing its name, and others are untouched |
| Registry.DuplicateNameCorrected | main.py:72 | with files named A, A, B, the corrected load gives B its own file and A the later of its two |
| Comparison.ColumnKey | main.py:191-194 | the column a product line is read from, `"<pline> Per Unit"` or `"<pline> Cumulative"`; stated by `ColumnKeyMode` and `ColumnKeyInjective` |
| Comparison.Lookup | main.py:190-196 | the stored cell, or the sentinel when the customer, the metric or the column is missing; stated by `LookupFound` |
| Comparison.ColumnKeyMode | main.py:191-194 | the `Per Unit` column is read iff the mode is "Per Unit"; every other mode reads the `Cumulative` column |
| Comparison.ColumnKeyInjective | main.py:192-194 | different product lines read different columns |
| Comparison.LookupFound | main.py:190-196 | a cell other than the sentinel shows that the customer, the metric and the column all exist |
| Comparison.BuildColumn | main.py:188-196 | one cell per customer, each the lookup of that customer, the metric and the product line's column key |
| Comparison.Build | main.py:185-197 | one row per distinct customer, one column per product line, every column the length of the customers, each cell the lookup of its customer, the metric and its column key |
| Comparison.BuildRows | main.py:186 | the rows are the uploaded customers without repeats, in first-seen order |
| Discrepancy.Lower | main.py:101 | the lower bound `min(v*0.95, v*1.05)`; `BandIsFivePercent` states the band it bounds |
| Discrepancy.Upper | main.py:102 | the upper bound `max(v*0.95, v*1.05)`; `BandIsFivePercent` states the band it bounds |
| Discrepancy.Outside | main.py:104 | `other < lower or other > upper`, false whenever a NaN is compared; stated by `BandIsFivePercent` and `NotOutsideItself` |
| Discrepancy.Flagged | main.py:103-104 | every other value of the column lies outside the value's band; `OutliersSpec` and `IsFlagged` state its use |
| Discrepancy.ParsedNames | main.py:96 | the customers of the values read, in row order; stated by `ParsedRowsSpec` |
| Discrepancy.FlaggedRows | main.py:100-105 | the positions whose value is flagged, in increasing order; `OutliersSpec` states that the outliers are the names at these positions |
| Discrepancy.ReportedColumns | main.py:106-107 | the columns whose outlier list is non-empty, in column order; stated by `ReportedColumnsExact` and `ReportedColumnsOrdered` |
| Discrepancy.ReportOf | main.py:106-107 | the product lines with a non-empty outlier list, each with that list; stated by `ReportSpec` and `ReportedColumnsExact` |
| Discrepancy.BandIsFivePercent | main.py:101-104 | `w` is outside the band of `v` iff `abs(w - v) > 0.05 * abs(v)`, for either sign of `v` |
| Discrepancy.NotOutsideItself | main.py:101-104 | no value lies outside its own band, NaN included |
| Discrepancy.BandNotSymmetric | main.py:101-104 | 95 lies in the band of 100 but 100 lies outside the band of 95 |
| Discrepancy.ParsedValues | main.py:91-98 | the values read from a column, in row order; `ParsedRowsExact` and `ParsedRowsSpec` state which rows they come from |
| Discrepancy.Outliers | main.py:100-105 | the names of the flagged values, in order; `OutliersSpec` states which they are |
| Discrepancy.Report | main.py:88-107 | `getDescripancy`'s result; `ReportShape` states what it lists |
| Discrepancy.ParseColumn | main.py:90-98 | the values read and their customers are those of `ParsedValues` and `ParsedNames` |
| Discrepancy.ParsedRowsExact | main.py:91-98 | the rows read are exactly the rows whose cell parses, in increasing order |
| Discrepancy.ParsedRowsSpec | main.py:91-98 | the `k`-th value and name read come from the `k`-th row read |
| Discrepancy.SkippedCellIrrelevant | main.py:91-98 | replacing a cell that does not parse by the sentinel does not change the values read |
| Discrepancy.SkippedCellNames | main.py:91-98 | nor the customers read |
| Discrepancy.IsFlagged | main.py:101-104 | the `all(...)` loop answers whether every other value lies outside the band |
| Discrepancy.FindOutliers | main.py:100-105 | the outliers loop computes `Outliers` |
| Discrepancy.OutliersSpec | main.py:100-105 | the outliers are the names at exactly the flagged positions, in increasing order |
| Discrepancy.SingleValueFlagged | main.py:103-105 | a lone value is flagged |
| Discrepancy.TwoApartBothFlagged | main.py:103-105 | two values each outside the other's band are both flagged |
| Discrepancy.FarApartBothFlagged | main.py:101-105 | two values more than five percent of either apart are both flagged |
| Discrepancy.AllEqualNoneFlagged | main.py:103-105 | two or more equal values flag nobody |
| Discrepancy.NaNSuppressesFlags | main.py:101-105 | a NaN among two or more values prevents every flag in its column |
| Discrepancy.ThreeValuesExample | main.py:100-105 | of 100, 102 and 200 only 200 is flagged |
| Discrepancy.ReportedColumnsExact | main.py:99-107 | the columns reported are exactly those with an outlier |
| Discrepancy.ReportedColumnsOrdered | main.py:88-107 | the columns reported appear in column order |
| Discrepancy.ReportSpec | main.py:106-107 | each entry of the report is a column's name with its non-empty list of outliers |
| Discrepancy.ReportShape | main.py:88-107 | the report lists, in column order, exactly the product lines with an outlier, each with the outliers of its column |
| Discrepancy.ReportedNameParsed | main.py:91-105 | every reported name belongs to a row whose cell parsed and whose value is flagged |
| Discrepancy.ReportExample | main.py:85-108 | with A at 100 and B missing, the report lists A alone; the sentinel is not read as zero |
| Discrepancy.GetDiscrepancy | main.py:85-108 | the loop over columns computes `Report`, in column order |

## Left out

- The Streamlit page, layout, styling and the password check (main.py:30-57, 121-221) are UI. The `OpenAI` client (main.py:5-9) is never used.
- Reading workbooks with `pd.read_excel` and `standard.getSummary` (main.py:66-71): the summary of each file is an input of the load methods. `standard.getSummary` is not part of this model, and neither are the product-line, metric and per-unit-metric lists built there.
- The order of `list(set(...))` (main.py:73) is unspecified: the product lines are an input of `Comparison.Build`.
- The colour chosen by `highlight_negative` (main.py:78-82) is presentation. Only its parse chain is modelled (`Cells.HighlightChainAgrees`).
- IEEE floating point: products like `num*100` and `val*0.95` are exact reals here, and `,.2f` rounds the exact real half to even. Infinities are not modelled: `float()` of "inf" is treated as unparseable. Neither are underscores and non-ASCII digits in `float()`, nor `-0.0`. Whitespace is stripped as `float()` strips it: ASCII space and tab to carriage return, and the non-ASCII characters `str.isspace` accepts; the ASCII information separators U+001C to U+001F are kept and make the parse fail.
- `str(v)` of a float cell is taken to read back as the same float (`Cells.ParseCell`), which holds for Python's shortest round-trip `repr`.
- pandas mechanics: a product line named "Customer", which would overwrite the customer column (main.py:197); duplicate metric labels after `set_index`. The frame built from the report at main.py:203 is not modelled either.
- A `Matrix` cell of `Missing` stands for the `'-'` string the builder appends. `Str("-")` behaves the same way in every modelled function.

## Findings

| source | as written | input that shows it | evidently intended | confidence | as-written member | corrected member |
|---|---|---|---|---|---|---|
| main.py:64-65 | `zip(customers, files)` pairs the `i`-th distinct customer name with the `i`-th uploaded file | files named A-…, A-…, B-…: customer B is stored the second file, which belongs to A | every file's summary is stored under the customer named in that file | not executed | Registry.DuplicateNameMisattributes | Registry.LoadAttributes |
