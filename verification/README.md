# iCSV header generation, modelled in Dafny

This project models the part of `make_icsv.py` that turns a table, already
loaded as a header and rows of text cells, into an iCSV file's header. It
also models the schema that goes with that header. The steps are:

- the iCSV field delimiter is chosen (a comma becomes `|`);
- the most frequent missing-value placeholder is picked as `nodata`;
- the rows are transposed into columns;
- each column gets a type (integer, number, datetime or string), bounds,
  a `required` flag and a missing count;
- a spatial hint is read from the column names;
- the METADATA and FIELDS sections and the Table Schema descriptor
  (`build_frictionless_schema`) are assembled.

It also models three pieces of the Excel converter `xls_to_csv.py`:

- the sheet selection (a comma-separated list of 0-based indices or sheet
  names);
- the row plan that puts the chosen 1-based header row first;
- the output file name built from a sanitised sheet name.

Each file is one module:

- `wrappers.dfy` has `Option` and `Result`.
- `text.dfy` has Python's `strip`, `isdigit` and `lower` on ASCII, decimal
  rendering, and delimiter join/split.
- `missing.dfy` has the `COMMON_MISSING` placeholders.
- `positions.dfy` reads the missing count as a count of positions.
- `inference.dfy` has the two regular-expression shapes, the datetime test
  and the column classifier.
- `statistics.dfy` has min/max and the per-column profile.
- `nodata.dfy` has the placeholder tally.
- `geometry.dfy` has the spatial hint.
- `metadata.dfy` and `fields.dfy` hold the two header sections and the
  schema.
- `rendering.dfy` holds the section's fixed lines as rendered text.
- `pipeline.dfy` holds the whole conversion.
- `sheets.dfy` holds the converter.

Python's `datetime` parsing is outside the model. It is the parameter
`DatetimeLib`:

- `accepts` is the yes/no answer of `try_parse_datetime`'s library calls;
- `parse` maps a string to an instant on a total order;
- `isoformat` renders an instant.

Everything proved about datetimes therefore holds for every library that
behaves like this.

## Model

| member | source | states |
|---|---|---|
| Missing.CommonMissing | make_icsv.py:32 | the placeholder set is exactly the twelve listed tokens (the empty string, the NA/NULL/NaN spellings and the three -999 forms) |
| Missing.PlaceholderCases | make_icsv.py:32 | a string is a placeholder iff it is one of the twelve tokens, written out one by one |
| Missing.MissingIsPlaceholder | make_icsv.py:441 | the profiler's test `v not in COMMON_MISSING and v != ""` is the same as membership in the placeholder set, because the set already holds "" |
| Missing.Pruned | make_icsv.py:441 | the pruned values are no more than the column's values, and none of them is missing |
| Missing.PrunedKeeps | make_icsv.py:441 | every pruned value comes from the column, and every non-missing value of the column is kept |
| Missing.MissingPartition | make_icsv.py:441-478 | the missing count and the number of pruned values add up to the number of cells |
| Missing.NothingMissing | make_icsv.py:441-478 | the missing count is zero iff pruning keeps the whole column |
| Missing.AllMissing | make_icsv.py:441 | pruning leaves nothing iff every cell is missing |
| Positions.MissingCountPositions | make_icsv.py:478 | the missing count, `MissingCount`, is the number of positions of the column that hold a missing cell |
| Missing.TokensAreCommon | make_icsv.py:485 | the token list handed to the schema (`list(COMMON_MISSING)`) holds exactly the members of `CommonMissing` |
| Text.Strip | make_icsv.py:439 | the stripped text is no longer than the input and has no whitespace at either end |
| Text.StripTrims | make_icsv.py:439 | the stripped text is a slice `s[a..b]` of the input, and everything before `a` and from `b` on is whitespace |
| Text.StripKeepsDigits | make_icsv.py:49-52 | stripping keeps every digit: the stripped text has a digit iff the input has one |
| Text.StripIdempotent | make_icsv.py:91 | stripping twice is stripping once, so the classifier's second `strip` of already stripped cells changes nothing |
| Text.SplitJoin | make_icsv.py:287-288 | joining values that do not contain the delimiter and splitting the result gives back the values |
| Inference.IntShapeRegex | make_icsv.py:38 | on the stripped strings that reach `INT_RE`, `IsIntShape` is its match read position by position: an optional minus sign, then at least one digit and nothing but digits |
| Inference.FloatShapeRegex | make_icsv.py:39 | on the stripped strings that reach `FLOAT_RE`, `IsFloatShape` is its match read position by position: an optional minus sign, digits, a point with at least one digit on each side, then digits only |
| Inference.ParseInt | make_icsv.py:128 | on the stripped, `INT_RE`-shaped values that reach `int(x)`, a value is given iff the string has at most 4300 digits after its sign (CPython's default limit); anything else gives no value, as `ValueError` does |
| Inference.LongDigitsRefused | make_icsv.py:128 | a digit string longer than 4300 digits has integer shape and still gets no value |
| Inference.ParseIntRoundTrip | make_icsv.py:128 | the decimal rendering of any integer of at most 4300 digits, negative ones included, parses back to that integer |
| Inference.ShapesHaveDigit | make_icsv.py:38-39 | a string of either shape, `INT_RE` or `FLOAT_RE`, contains a digit |
| Inference.DatetimeGuards | make_icsv.py:42-52 | the empty string and any string without a digit are never datetimes, whatever the library says |
| Inference.DatetimeTestStripped | make_icsv.py:42-82 | `try_parse_datetime` gives the same answer on a string and on its stripped form, and it is true iff the string has a digit and the library accepts the stripped form |
| Inference.InferColumnType | make_icsv.py:85-113 | the loop's three flags give the classifier's verdict, `ClassifyColumn` |
| Inference.EveryStep | make_icsv.py:99-105 | a flag that every value so far passes a test stays set after one more value iff that value passes it too |
| Inference.ClassificationRule | make_icsv.py:91-113 | see note (1) below the table |
| Inference.Demotion | make_icsv.py:99-105 | one non-missing value not of integer shape rules out integer; one of neither numeric shape rules out number too; one that also fails the datetime test makes the column string |
| Inference.AllMissingIsString | make_icsv.py:91-93 | a column of placeholders only, or with no cells, is string |
| Inference.NoDigitForcesString | make_icsv.py:49-52 | one non-missing value without a digit makes the column string |
| Inference.InferPrunedStripped | make_icsv.py:91 | on cells already stripped, the classifier's pruning is the profiler's pruning |
| Statistics.MinOf | make_icsv.py:131 | `min` of a non-empty list is one of its elements and at most every element |
| Statistics.MaxOf | make_icsv.py:131 | `max` of a non-empty list is one of its elements and at least every element |
| Statistics.ParseAllEach | make_icsv.py:128 | `[int(x) for x in pruned]` succeeds iff every value has integer shape and at most 4300 digits, and then gives each value's integer in order |
| Statistics.IntMinMax | make_icsv.py:119-133 | `compute_numeric_minmax` for integers: it gives bounds only for a non-empty list |
| Statistics.IntMinMaxBounds | make_icsv.py:119-133 | integer bounds exist iff the list is non-empty and every value has integer shape and at most 4300 digits; then min ≤ every value ≤ max, and both are values of the list |
| Statistics.InstantsOfReadable | make_icsv.py:140-171 | the collected instants are exactly the parses of the values the library reads, so unreadable values are skipped |
| Statistics.DatetimeMinMax | make_icsv.py:136-175 | `compute_datetime_minmax` gives bounds only for a non-empty list |
| Statistics.DatetimeMinMaxBounds | make_icsv.py:136-175 | datetime bounds exist iff some value parses; then they are the renderings of a least and a greatest parsed instant, both attained |
| Statistics.ColumnInfoShape | make_icsv.py:443-480 | the info built for a column of a given type carries the header name, that type, the missing count `MissingCount`, an empty description and no format; a string column has no min or max |
| Statistics.InfoConstraints | make_icsv.py:445-475 | for any type, the constraints are attached only when they hold a key, and their minimum and maximum are the info's |
| Statistics.DatetimeInfoBounds | make_icsv.py:459-471 | a datetime column has a min iff `compute_datetime_minmax` finds bounds, and then min and max are its two results |
| Statistics.ProfileColumnType | make_icsv.py:439-442 | the profiled type is `ClassifyColumn` of the raw cells: stripping them before `infer_column_type` strips them again changes nothing |
| Statistics.ProfileNames | make_icsv.py:437-443 | the i-th profile carries the i-th header name |
| Statistics.ProfileCounts | make_icsv.py:437-480 | a column's missing count plus its pruned values equal its row count; the info carries the header name and an empty description |
| Statistics.ProfileRequired | make_icsv.py:455-475 | `required` is set iff no cell is missing and the column has a row, for every type |
| Statistics.RequiredInfo | make_icsv.py:455-479 | for every inferred type, `required` holds iff the missing count is zero and there is a row; the missing count is the number of missing cells |
| Statistics.ProfileConstraintsNonEmpty | make_icsv.py:457-475 | the constraints dictionary is attached only when it holds a key, and its minimum and maximum are the info's |
| Statistics.ProfileIntegerBounds | make_icsv.py:445-458 | an integer column has a non-empty pruned list of integer-shaped values; it has integer bounds iff no value has more than 4300 digits, and then they are recorded as constraints, min ≤ every value ≤ max, and both are attained; otherwise the constraints hold only `required` |
| Statistics.IntegerInfoBounds | make_icsv.py:445-458 | for an integer column the info's min and max are `compute_numeric_minmax`'s result and are copied into the constraints; when it gives none, the constraints hold only `required`, and only when set |
| Statistics.ProfileStringNoBounds | make_icsv.py:472-475 | a string column has no bounds; its constraints are `required` alone, and only when set |
| Statistics.ProfileAllMissing | make_icsv.py:437-480 | a column of placeholders only is a string column: every cell is missing, and it has no bounds and no constraints |
| Statistics.NormalizeRow | make_icsv.py:426-431 | a row is brought to the header's width: cells kept in place, padded with empty cells or cut |
| Statistics.Column | make_icsv.py:424-439 | the i-th column has one cell per row |
| Statistics.ColumnCells | make_icsv.py:424-439 | cell k of the i-th column is row k's i-th cell, or empty if row k is shorter |
| Statistics.ProfileColumns | make_icsv.py:437-482 | the loop builds one info per header column, in header order, each the profile of that column (`Profiles`) |
| Statistics.ProfileOne | make_icsv.py:439-481 | one iteration of the loop gives `ProfileColumn` of the column |
| Statistics.MinWidth | make_icsv.py:432 | the shortest row's width: at most every row's, and attained |
| Statistics.ZipColumns | make_icsv.py:432 | `zip(*rows)` gives as many columns as the shortest row has cells |
| Statistics.ShortRowLosesColumns | make_icsv.py:426-439 | as written, a row shorter than the header leaves fewer columns than header names |
| Statistics.ShortRowExample | make_icsv.py:426-439 | a header of two names and the single row ["1"]: zip gives one column, and the padded model gives the second column [""] |
| Statistics.NormalizedMatchesZip | make_icsv.py:424-432 | when every row has the header's width, the padded columns are exactly zip's columns |
| Nodata.TallyCell | make_icsv.py:412-414 | one cell: a placeholder's count goes up by one, and a new placeholder is appended as a key; any other cell changes nothing |
| Nodata.TallyRow | make_icsv.py:412-414 | the scan of one row keeps the tally's meaning: afterwards the keys are the placeholders seen so far, this row included, in order of first occurrence, each with its number of occurrences |
| Nodata.Tally | make_icsv.py:410-414 | after the scan the dictionary holds every placeholder met, with its number of occurrences, keys in order of first occurrence |
| Nodata.PickMax | make_icsv.py:417 | `max` with a count key: the greatest count, ties going to the earliest key |
| Nodata.SelectNodata | make_icsv.py:406-419 | see note (2) below the table |
| Nodata.ChosenUnique | make_icsv.py:417 | the position of the chosen placeholder is unique, so the choice is determined |
| Nodata.ChosenExample | make_icsv.py:417 | among "NA", "-999", "NA", "NA" the choice is "NA" |
| Geometry.DetectGeometryHint | make_icsv.py:350-370 | the loop gives `GeometryHint`, the declarative rule |
| Geometry.GeometryColumnWins | make_icsv.py:357-360 | a column called "geometry", in any case, gives `column:<its name>` without a spatial reference; the first such column wins |
| Geometry.LatLonPair | make_icsv.py:361-369 | without a geometry column, a latitude and a longitude column give `column:<lat>,<lon>` with EPSG:4326, taking the last of each |
| Geometry.NoHint | make_icsv.py:361-370 | without a geometry column and without both a latitude and a longitude column there is no hint |
| Metadata.OutputDelimiter | make_icsv.py:403 | the iCSV delimiter is never a comma: a comma becomes the pipe character, and any other delimiter is kept |
| Metadata.BuildMetadataSection | make_icsv.py:248-276 | the appended lines are `Section` of the settings, the guarded key-by-key layout |
| Metadata.MetadataSection | make_icsv.py:259-276 | the keys appear in the fixed order, each at most once; the section opens with version 1.0 and closes with the generator; delimiter, rows, columns and creation date (with `Z` appended) each appear once |
| Metadata.MetadataOptional | make_icsv.py:260-275 | `nodata` appears iff a value is given, even an empty one; the application profile, geometry and srid appear iff non-empty |
| Metadata.SectionValues | make_icsv.py:259-276 | each key's entries in the section are its value in the settings, once, or none |
| Metadata.SectionEnds | make_icsv.py:259-276 | the first entry is the version and the last is the generator |
| Rendering.SectionText | make_icsv.py:261-275 | the first rendered line is `iCSV_version = 1.0` and the last is `generator = make_icsv.py (frictionless-based)` |
| Metadata.NodataAndDelimiter | make_icsv.py:264-269 | with a nodata value, the section's `nodata` entries are that value once, and its `field_delimiter` entries are the delimiter once |
| Fields.FieldsTable | make_icsv.py:279-305 | the six rows hold the header, then per column the type name, min, max (empty when absent), missing count and description |
| Fields.FieldsSection | make_icsv.py:279-305 | six lines with the keys fields, types, min, max, missing_count and description, in that order |
| Fields.FieldsText | make_icsv.py:298 | the first line renders as `fields = ` followed by the header joined with the delimiter |
| Fields.FieldsSplit | make_icsv.py:287-303 | when no cell contains the delimiter, each line splits back into its row of the table |
| Fields.MissingCountsRecoverable | make_icsv.py:294-302 | with a delimiter that is not a digit, the missing_count line splits into one all-digit part per column, whose value is that column's count |
| Fields.FieldOf | make_icsv.py:233-244 | a descriptor carries the name and the type; format, description and constraints are present iff they are truthy, and then they equal the info's |
| Fields.BuildSchema | make_icsv.py:227-245 | one descriptor per info, in order, each `FieldOf` the info; the missing values pass through |
| Fields.SchemaAgreesWithTable | make_icsv.py:279-293 | when the infos carry the header's names and each field is `FieldOf` its info, the schema's names and types are the FIELDS table's `fields` and `types` rows |
| Pipeline.MakeIcsv | make_icsv.py:376-502 | see note (3) below the table |
| Sheets.Resolve | xls_to_csv.py:38-47 | a resolved part names a sheet of the workbook |
| Sheets.GetSheetList | xls_to_csv.py:23-48 | no selection, or an empty one, gives every sheet; otherwise the result is `Select` of the comma-split selection |
| Sheets.SelectResolvesEach | xls_to_csv.py:32-48 | see note (4) below the table |
| Sheets.ResolveAllEach | xls_to_csv.py:33-47 | resolving succeeds iff each part resolves, and then gives each part's sheet, in order |
| Sheets.ResolveAllFirstError | xls_to_csv.py:33-47 | a failure carries the error of a part all of whose predecessors resolve |
| Sheets.BlankPartsSkipped | xls_to_csv.py:34-36 | a part that is blank after stripping contributes nothing |
| Sheets.SelectMembers | xls_to_csv.py:32-48 | every selected sheet is a sheet of the workbook |
| Sheets.DigitsAreIndices | xls_to_csv.py:38-42 | an all-digit part of at most 4300 digits is a 0-based index: within range it gives that sheet, even when a sheet carries that text as its name; out of range it is an error; a longer one is the `int()` digit-limit error |
| Sheets.NamesAreNames | xls_to_csv.py:43-47 | any other part is a sheet name: present it is chosen as given, absent it is an error |
| Sheets.SafeSheetName | xls_to_csv.py:127 | same length; letters, digits, space, `_` and `-` kept in place; every other character becomes `_` |
| Sheets.SafeSheetNameIdempotent | xls_to_csv.py:127 | sanitising twice is sanitising once |
| Sheets.OutputFileName | xls_to_csv.py:126-128 | the file name is the base, `_`, the sanitised sheet name and `.csv` |
| Sheets.SheetPartIsPlain | xls_to_csv.py:127 | the sheet part contains no path separator and no dot |
| Sheets.DistinctSheetsShareFile | xls_to_csv.py:127-128 | two different sheet names, "a.b" and "a_b", map to the same file name |
| Sheets.PlanHeader | xls_to_csv.py:68-70 | a positive header row skips exactly the rows before it; zero or less reads the sheet without a header |
| Sheets.HeaderRowIsFirstKept | xls_to_csv.py:68-70 | with header row h > 0, the skipped rows are exactly 0 to h−2, so 0-based row h−1 is the first row read |

Notes on the rows whose contracts are too long for a cell:

1. `Inference.ClassificationRule`. The verdicts are all-or-nothing, in a
   fixed order of precedence:
   - integer iff there is a value and every value has integer shape;
   - number iff some value does not, but every value has one of the two
     numeric shapes;
   - datetime iff some value has neither numeric shape, but every value
     passes the datetime test.
2. `Nodata.SelectNodata`.
   - A caller's override is used as given.
   - Otherwise the choice is the placeholder cell that occurs most often
     (no other occurs more), ties going to the one met first in the scan.
   - With no placeholder cell at all, the choice is the empty string.
3. `Pipeline.MakeIcsv`. It states the following.
   - The nodata value is the one of note (2).
   - The metadata is `Section` of the chosen delimiter, the header width,
     the row count, the nodata value, the hint and the creation date.
   - It holds exactly one `nodata` line and one `field_delimiter` line.
   - The FIELDS lines are built from `Profiles`.
   - The schema has one field per header column. Each field is `FieldOf`
     that column's profile, with the same name and type as the FIELDS
     table.
   - The schema's missing values are exactly the members of
     `CommonMissing`.
4. `Sheets.SelectResolvesEach`.
   - A selection succeeds iff every non-blank part resolves. It then holds
     their sheets one for one, in order, repeats included.
   - Otherwise the error is that of the first non-blank part that fails.

## Left out

- Reading the CSV file is not part of this model. That covers
  `detect_delimiter`, `load_rows_with_frictionless` and the row count it
  returns: the model uses the number of rows it is given.
- `write_icsv`, `parse_args`, `main`, printing and file paths are not
  part of this model.
- In `xls_to_csv.py`, pandas, `ask_header_row` (the interactive prompt)
  and the writing of CSV files are not part of this model.
- The base name is a parameter; the output directory and the path joining
  (`os.path.join` at xls_to_csv.py:129) are not modelled.
- The clock is a parameter: `creationDate` is the timestamp text to which
  the section appends `Z`.
- Python's `datetime` (`fromisoformat` and `strptime` with the listed
  formats) is the `DatetimeLib` parameter. The eleven formats of the
  datetime test and the nine of the min/max are not spelt out.
  - The model does not capture that mixing naive and timezone-aware values
    makes `min` raise. Instants are assumed totally ordered.
- `strip`, `isdigit`, `isalnum` and `lower` are modelled on ASCII only:
  - Unicode whitespace and Unicode digits are not modelled;
  - neither are letters outside A–Z.
- Statistics.NumericBounds: gives no bounds for a number column.
  - The source computes float min/max with `float(x)`; floating point is
    not modelled.
  - So a number column's min and max cells are empty, and its constraints
    can only hold `required`.
  - Integer columns are fully modelled.
- Pipeline.MakeIcsv: the schema's `missingValues` are stated as a set (a
  token is listed iff it is a placeholder). The source's order is the
  iteration order of a Python set.
- Pipeline.MakeIcsv: the input delimiter is one character; multi-character
  delimiters are not modelled.
- Inference.ParseInt: gives no value for some strings Python's `int()`
  accepts: a leading `+`, surrounding whitespace and `_` between digits.
  Only stripped values of `INT_RE` shape reach the call, so these never
  occur there. Non-ASCII digits do reach it, since `\d` matches any Unicode
  digit; they fall under the ASCII-only line above.
- Statistics.DatetimeMinMax: the rendered bound depends only on the
  instant. Python renders the datetime object `min`/`max` return, which for
  equal instants with different UTC offsets is the first one met (for
  "2021-01-01T01:00:00+01:00" then "2021-01-01T00:00:00+00:00" both bounds
  render as the first); the model renders the same text in either order.
- Inference.IsIntShape: Python's `$` also matches before a final newline,
  so `INT_RE` and `FLOAT_RE` accept "7\n" and "1.5\n"; `IsIntShape` and
  `IsFloatShape` do not. Only stripped values reach the regexes
  (make_icsv.py:91 and :439), and those end in no newline.
- Inference.ParseInt: the 4300-digit limit is CPython's default; changing
  it with `sys.set_int_max_str_digits` is not modelled.
- Geometry.LatLonPair: when several columns name a latitude or a longitude,
  the last of each is used, since the loop overwrites its match on every
  hit.
- `nodata` is written whenever a value is chosen, the empty string
  included: the test is `is not None`.
- A string column gets no `min`/`max` keys. The FIELDS section renders them
  as empty cells, as it does for `None`.

## Findings

| source | as written | input that shows it | evidently intended | confidence | as-written member | corrected member |
|---|---|---|---|---|---|---|
| make_icsv.py:426-439 | the loop only rebinds the loop variable `r`, so no row is padded or cut, and `zip(*rows)` stops at the shortest row; `cols[i]` then fails for i beyond it | header `a,b` with the single row `["1"]`: zip gives one column, so `cols[1]` raises IndexError | each row is padded with empty cells, or cut, to the header's width before transposing, so every header column has one cell per row | not executed | Statistics.ShortRowLosesColumns | Statistics.ColumnCells |
