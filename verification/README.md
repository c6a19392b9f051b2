# Plant-care data cleaning pipeline, modelled in Dafny

This project models the core of `Cleaning.py`. That script builds one unified
table of plant-care observations from several independently published CSV
datasets. For every registered dataset it:

1. picks the CSV file to read (`choose_csv`);
2. standardises the column labels and the text cells and drops exact
   duplicate rows (`standardize_columns`);
3. turns numeric-looking text into numbers, including midpoints of ranges
   such as `10-20`, and fills the missing cells of numeric columns with the
   column median (`_coerce_numeric`, `convert_types`);
4. tags every row with the dataset's name (`load_clean_dataset`).

It then folds the frames into one (`merge_dataframes`). Each step is a full
outer join on the first shared key of a fixed priority list
(`find_merge_keys`), or a row concatenation when the frames share no key.

A data frame is a `Tables.Table`: column labels in order, and rows of cells
that are missing, a number or a string. Rows are positional, so two columns
may share a label, as they can after normalisation. Reading a file, listing a
dataset's files and downloading are parameters of the model.

Modules, in pipeline order:

- `Results`: the error kinds, `Option` and `Result`.
- `Text`: Python `str.isspace`, `strip`, `lower` and single-character `replace`.
- `Decimal`: the two regular expressions of the cell parser, as scanners
  proved equal to their pattern definitions, and decimal values.
- `Tables`: cells, rows, frames, object dtype, and label lookup.
- `CsvChoice`: `choose_csv`, including pathlib's path order.
- `Standardize`: `standardize_columns`.
- `Coerce`: the cell parser of `_coerce_numeric`.
- `Stats`: sorting and the median.
- `Convert`: `convert_types`.
- `Keys`: `KEY_PRIORITY` and `find_merge_keys`.
- `Join`: the row side of a full outer join, on positions.
- `Merge`: the labelled outer join, concatenation and `merge_dataframes`.
- `Loader`: `DATASETS`, `load_clean_dataset` and the loading part of `main`.

## Model

| member | source | states |
|---|---|---|
| Text.Strip | Cleaning.py:98 | The stripped label has no whitespace at either end |
| Text.StripCutsSpaces | Cleaning.py:104 | `strip` removes only whitespace, and only from the two ends: the result is a contiguous slice with all-whitespace borders |
| Text.StripIdempotent | Cleaning.py:104 | Stripping twice is the same as stripping once |
| Decimal.FullNumberMatches | Cleaning.py:123 | The scanner used for `re.fullmatch(r"-?\d+(?:\.\d+)?")` accepts a text exactly when it is an optional minus, digits, and optionally a point followed by digits |
| Decimal.ParseRangeMatches | Cleaning.py:110 | On a stripped text, `RANGE_RE` matches exactly when the text splits into decimal, optional whitespace, a hyphen or en dash, optional whitespace, decimal; the two bounds are the values of the two decimals |
| Coerce.ParseCell | Cleaning.py:113-125 | Missing cells and numbers pass through; a text becomes missing exactly when it is blank once stripped; a text result is always the stripped input |
| Coerce.ParseTextCell | Cleaning.py:113-125 | A blank text becomes missing; a range gives the mean of its bounds; a full decimal gives its value; anything else that is not a range is returned as the stripped text |
| Coerce.DecimalNotRange | Cleaning.py:119-124 | A full decimal is non-empty and never matches the range pattern, because its only hyphen can be the sign, so the decimal rule applies to it whole |
| Coerce.ParseNonText | Cleaning.py:113-115 | Missing cells and numbers pass through the parser unchanged |
| Coerce.ParseCellIdempotent | Cleaning.py:112-126 | Parsing an already parsed cell changes nothing |
| Coerce.KeptText | Cleaning.py:125 | Text that survives parsing is exactly the stripped input |
| Coerce.RangeExampleWhole | Cleaning.py:119-122 | `"10-20"` parses to 15 |
| Coerce.RangeExampleSigned | Cleaning.py:119-122 | `"-5 - 5"` parses to 0: a leading minus belongs to the bound, whitespace around the dash is allowed |
| Coerce.RangeExampleFraction | Cleaning.py:119-122 | `"3.5-4.5"` parses to 4 |
| Coerce.NanStaysText | Cleaning.py:123-125 | The text `"nan"` is not a number and stays text |
| Standardize.NormalizeName | Cleaning.py:96-102 | A normalised label is as long as the stripped label |
| Standardize.NormalizedShape | Cleaning.py:96-102 | A normalised label has no upper-case letter, blank or hyphen and no surrounding whitespace; character by character, a blank or hyphen of the stripped label became `_`, an upper-case letter its lower-case, and every other character stays in place |
| Standardize.NormalizeIdempotent | Cleaning.py:96-102 | Normalising a normalised label changes nothing |
| Standardize.Dedup | Cleaning.py:105 | `drop_duplicates` keeps every distinct row and no other, no row twice, and the survivors in the order of their first occurrences |
| Standardize.DedupDistinct | Cleaning.py:105 | A sequence without repeats is its own de-duplication |
| Standardize.StripCellIdempotent | Cleaning.py:104 | `astype(str).str.strip()` applied to its own output changes nothing |
| Standardize.StandardizeColumns | Cleaning.py:94-106 | Fails exactly when two labels normalise alike and one of them is an object column. Otherwise the labels are normalised in place, and the rows are exactly the distinct cleaned rows in first-occurrence order |
| Standardize.StandardizedCells | Cleaning.py:103-104 | Afterwards an object column holds no missing cell, every text cell in it is trimmed, and a number in it is the number the same column of an original row held; every other column keeps a cell of some original row |
| Standardize.TextualPreserved | Cleaning.py:103-104 | A column is of object dtype after standardisation exactly when it was before |
| Standardize.StandardizeIdempotent | Cleaning.py:94-106 | Standardising a standardised frame returns it unchanged |
| Stats.Sort | Cleaning.py:137 | The sorted values are ascending and a permutation of the input |
| Stats.SortedUnique | Cleaning.py:137 | Two ascending permutations of the same values are equal, so the median does not depend on how it is computed |
| Stats.MedianPermutation | Cleaning.py:137 | The median depends only on the multiset of values |
| Stats.MedianBounds | Cleaning.py:137 | The median lies between the smallest and the largest value |
| Stats.MedianBalanced | Cleaning.py:137 | At most half of the values lie strictly below the median and at most half strictly above |
| Stats.MedianOfArrangement | Cleaning.py:137 | The median can be read off any ascending arrangement of the values: its middle value, or the mean of its two middle values for an even count |
| Stats.MedianEvenExample | Cleaning.py:137 | For an even count the median is the mean of the two middle values: 4, 1, 3, 2 gives 2.5 |
| Stats.PermutedOneToFour | Cleaning.py:137 | Every arrangement of 1, 2, 3, 4 has median 2.5 |
| Convert.Present | Cleaning.py:137 | The values the median looks at are the column's numbers, each as often as it occurs in the column, with missing and text cells skipped |
| Convert.MedianByCounts | Cleaning.py:137 | Two columns holding each number equally often get the same fill median, whatever their order or other cells |
| Convert.FillValue | Cleaning.py:135-137 | A column gets a fill value exactly when it is numeric and holds at least one number |
| Convert.ConvertTypes | Cleaning.py:128-139 | Fails exactly when two columns share a label. Otherwise labels and row count stay, and every non-missing parsed cell of an object column, and every non-missing cell of another column, is kept |
| Convert.Imputation | Cleaning.py:135-137 | In a numeric column with a number, no cell is missing afterwards, each formerly missing cell holds the column's median and the others are unchanged; any other column equals the coerced column |
| Convert.TextualAfterFill | Cleaning.py:137 | Filling never changes whether a column is of object dtype |
| Convert.TextualAfterCoerce | Cleaning.py:131-133 | A column holding text after coercion held text before |
| Convert.ConvertIdempotent | Cleaning.py:128-139 | Converting a converted frame changes nothing |
| CsvChoice.Split | Cleaning.py:88 | No part of a split path contains the separator |
| CsvChoice.JoinSplit | Cleaning.py:88 | Joining the parts of a path gives the path back |
| CsvChoice.SplitJoin | Cleaning.py:88 | Splitting parts joined with the separator gives the parts back |
| CsvChoice.PathOrder | Cleaning.py:88 | Path order is a strict total order: irreflexive, transitive and total on distinct paths |
| CsvChoice.MinPath | Cleaning.py:88-91 | `sorted(...)[0]` is one of the paths and no path precedes it |
| CsvChoice.LeastUnique | Cleaning.py:88-91 | The least path is unique |
| CsvChoice.FirstPreferred | Cleaning.py:84-87 | Finds the first enumerated file whose name matches a preferred name ignoring case, or reports that none does |
| CsvChoice.ChooseCsv | Cleaning.py:82-91 | Fails with NotFound exactly when there is no file. A chosen file with a preferred name is the first such file in enumeration order; otherwise no file has a preferred name and no file precedes the chosen one |
| CsvChoice.ChoosePreferred | Cleaning.py:84-87 | When some file has a preferred name, the first such file is chosen |
| CsvChoice.ChooseSmallest | Cleaning.py:88-91 | When no file has a preferred name, the least file in path order is chosen |
| CsvChoice.PartsOrderExample | Cleaning.py:88 | Paths compare part by part: `data/a/x.csv` precedes `data/a-x.csv`, although as plain strings it comes after |
| Keys.KeyPriorityDistinct | Cleaning.py:56-69 | No key candidate names a column twice |
| Keys.FindMergeKeys | Cleaning.py:152-158 | No key exactly when no candidate is contained in both column sets; a found key is the highest-priority candidate contained in both |
| Keys.KeysInBoth | Cleaning.py:155-157 | A found key is non-empty and every key column is a column of both frames |
| Keys.FindMergeKeysSymmetric | Cleaning.py:152-158 | Swapping the two frames gives the same key |
| Keys.FindMergeKeysBySets | Cleaning.py:153-154 | Only the sets of labels matter: reordering or repeating labels gives the same key |
| Keys.KeysExample | Cleaning.py:57-58 | Frames with `plant_id` and `date` join on both, not on `plant_id` alone |
| Keys.KeysFallThrough | Cleaning.py:57-64 | Frames sharing only `species` fall through the earlier candidates to `species` |
| Join.JoinRowsExact | Cleaning.py:171 | An output row of the outer join is exactly a joining pair, a left row without partner padded with missing cells, or a right row without partner laid out under the left keys |
| Join.JoinKeepsLeft | Cleaning.py:171 | Every left row is the front of some output row |
| Join.JoinKeepsRight | Cleaning.py:171 | Every right row's carried cells and key cells appear in some output row |
| Join.PartnersCount | Cleaning.py:171 | A left row has as many partners as there are right positions whose keys equal its keys, repeated right rows included |
| Join.ForLeftCount | Cleaning.py:171 | A left row yields one output row per matching right position, or exactly one padded row when nothing matches |
| Join.LeftRowsCount | Cleaning.py:171 | The left part of the join has, summed over the left rows, as many rows as each one's matches (at least one per left row) |
| Join.RightOnlyCount | Cleaning.py:171 | There is one right-only output row per right position whose keys equal those of no left row |
| Join.JoinRowsCount | Cleaning.py:171 | The outer join's row count is the sum over left rows of their match counts, each at least one, plus the number of right rows matching nothing. Duplicate rows on either side multiply rather than collapse |
| Merge.CarriedExact | Cleaning.py:171 | The carried right-hand columns are all the non-key columns, in their order |
| Merge.OuterJoin | Cleaning.py:171 | Fails exactly when a suffixed label is already taken. Otherwise labels are distinct, the left labels come first, every right label is present, and each non-key right column appears under its possibly suffixed label |
| Merge.ClashExact | Cleaning.py:171 | The joined header repeats a label exactly when some shared non-key column's suffixed label is already a column of either frame |
| Merge.OuterJoinKeepsLeft | Cleaning.py:171 | When no suffixed label collides, every left row survives as the front of some joined row |
| Merge.OuterJoinKeepsRight | Cleaning.py:171 | When no suffixed label collides, for every right row, some joined row holds its key values under the key labels and its other cells under their possibly suffixed labels |
| Merge.OuterJoinRowCount | Cleaning.py:171 | When no suffixed label collides, the joined frame has, for each left row, one row per right row sharing its key values (at least one), plus one row per right row no left row shares keys with |
| Merge.NewColumns | Cleaning.py:174 | The added labels are exactly the right labels the left frame lacks, without repeats |
| Merge.Concat | Cleaning.py:174 | Left labels first, then the right's new ones. Row count is the sum. Left rows come first, padded with missing cells; right rows follow, aligned by label |
| Merge.ConcatKeepsLeft | Cleaning.py:174 | Under every label, the first rows hold the left row's cell, or missing where the left frame has no such column |
| Merge.ConcatKeepsRight | Cleaning.py:174 | Under every label, the later rows hold the right row's cell, or missing where the right frame has no such column |
| Merge.MergeStep | Cleaning.py:168-174 | Without a key the step always succeeds and the row counts add. A failure is a label clash in a keyed join. Every step keeps the labels distinct, keeps the accumulated labels first and adds the new frame's labels |
| Merge.MergeStepKeepsRows | Cleaning.py:169-171 | A keyed step keeps every accumulated row and every key value and cell of the new frame |
| Merge.MergeFold | Cleaning.py:167-174 | The loop keeps labels distinct and the base labels first, and ends with every frame's labels present |
| Merge.MergeDataframes | Cleaning.py:161-176 | Fails with NoDatasets exactly when there are no frames. A single frame comes back unchanged. Otherwise the result has distinct labels, the first frame's labels first, and every frame's labels |
| Loader.TagSource | Cleaning.py:148 | The source label exists afterwards, appended if new; every cell under it is the dataset name and all other cells are unchanged |
| Loader.TagSourceRows | Cleaning.py:148 | Tagging keeps labels distinct, gives every row the dataset name under the source label, and leaves every other labelled cell as it was |
| Loader.LoadCleanDataset | Cleaning.py:142-149 | No file gives NotFound; a loaded frame has distinct labels and every row tagged with the dataset name |
| Loader.LoadSucceeds | Cleaning.py:142-149 | Loading succeeds exactly when a file is chosen, it reads, and its labels stay distinct once normalised |
| Loader.Collect | Cleaning.py:213-216 | Gathering results in order succeeds exactly when every one succeeds, and then holds each name with its own value at its own index; otherwise it fails with the error of the first failing result |
| Loader.LoadAll | Cleaning.py:213-216 | Succeeds exactly when every registered dataset loads; entry k then holds that dataset's name with its own loaded frame, valid and tagged with that name; otherwise the error is the one raised by the first entry that fails |
| Loader.Pipeline | Cleaning.py:210-217 | The merged table has distinct labels and a source column |
| Loader.LoadAndMerge | Cleaning.py:212-216 | When every dataset loads and merges, the merged table has distinct labels and a source column |
| Loader.MissingTextStaysNan | Cleaning.py:103-104 | For a frame whose normalised labels are distinct, standardisation and conversion both succeed, and a missing cell of an object column is the text `"nan"` after each |

## Left out

- `download_datasets`, the Kaggle download and `kagglehub` are not modelled. A dataset's file listing is a parameter, `listing` or `paths`.
- `pd.read_csv` is a parameter, `read`, returning a well-formed table or an error. CSV syntax is not modelled.
- `summarize`, `persist`, `parse_args`, logging and the remaining glue of `main` are diagnostics and I/O, so they are left out. The web front end, authentication and database files of the repository are outside this core.
- Floating point is replaced by exact reals. Rounding in `float(text)` and in the median is not modelled.
- `Text.Lower` lowers ASCII letters only. Python's `str.lower` also lowers non-ASCII letters. `\d` likewise matches only ASCII digits here.
- Coerce.ParseCell: `str(value).strip()` on a number already in an object column is treated as giving the same number back. Its decimal rendering is not modelled.
- Standardize.StandardizeColumns: `astype(str)` on an object column renders a number there as text, but the model keeps it as the number. So a number and its text rendering, such as `Num(1.0)` and `Text("1.0")`, count as different rows for `drop_duplicates`, whereas pandas compares the two equal texts and keeps one row. Float-to-text rendering is not modelled.
- Standardize.StandardizedCells: after `astype(str)` pandas holds only text in an object column. The model keeps a number already there as that number, so the lemma promises trimmed text or an original number, not text alone.
- Convert.ConvertTypes: a column counts as numeric after coercion when it holds no text. In pandas, `Series.map` with `pd.NA` among floats can leave the column as object dtype, so it would not be imputed. That dtype inference is not modelled. Neither is the `pd.to_numeric` pass, which changes nothing on a column that is already numeric.
- Convert.FillValue: a numeric column with no number at all is left missing. This matches a NaN median.
- Join.JoinRowsExact: the order of the joined rows is left-row order followed by the unmatched right rows. pandas sorts the outer-join keys, so the contracts state only order-independent facts about joined rows: which rows appear (`Join.JoinRowsExact`) and how many there are (`Join.JoinRowsCount`). They do not state how often one particular row value repeats.
- Merge.OuterJoin: a join whose suffixed label is already taken fails with ColumnClash. pandas raises only when the duplicate lies within one side; across sides it silently keeps two columns with one label. The model refuses both.
- Merge.OuterJoin: dtype-mismatch errors between key columns are not modelled.
- Merge.MergeDataframes: every frame must have distinct labels. Every loaded frame does, by `Loader.LoadCleanDataset`. pandas' behaviour on repeated labels in a merge is not modelled.
- CsvChoice.ChooseCsv: which files `rglob("*.csv")` enumerates, including its case sensitivity, is taken as given. Paths are assumed to be in normal form, with `/` separators and no `.` or empty parts.
- A missing cell in an object column becomes the text `"nan"` (`astype(str)`), not a missing value. Unparseable text is kept as text and is never forced to missing, because `pd.to_numeric` runs only on columns that are already numeric.
