# Reshipment converter — verified model of the transformation pipeline

The reshipment converter (재발송 변환기) reads an order table exported by an
order-collection tool and rewrites the rows whose claim type is "교환"
(exchange) or "해당없음" (no claim) into the fixed 31-column import form of a
logistics system (수기_재발송양식). This project models the three stages
beneath the web page, as they are written in `streamlit_app.py`:

- **Bundle numbers** (`Bundles`, file `bundles.dfy`). Each distinct non-empty
  address gets `"re" + timeStr + f"{k:02d}"`. Here `timeStr` is the batch time
  `YYYYMMDDHHMM` and `k` counts distinct addresses in order of first
  appearance, from 1. `GenerateBundleNumbers` is the source's loop that fills
  the map. `BundleMap` is the map it must produce.
- **Conversion** (`Reshipment`, file `reshipment.dfy`). The claim-type filter,
  the early empty return, and the loop that appends one converted row per kept
  row. The bundle-number map is an optional argument, as in the source. When
  none is passed, the map is generated from the filtered rows.
- **Template sheet** (`Template`, file `template.dfy`). The 31 headers in row 1,
  and each converted row in sheet row `2 + idx` with its constants, copied
  fields, normalised postal code and blank columns. The worksheet is a class
  whose cells are written one at a time.
- **Wiring** (`Pipeline`, file `pipeline.dfy`). The upload handler builds the
  bundle numbers from the whole, unfiltered table and passes them in. The
  lemmas show how bundle numbers group converted rows under both wirings. They
  also show that the two wirings can give an address different suffixes.
- `Strings` (file `strings.dfy`) holds Python's `str.strip()`, `str(n)` and
  `f"{n:02d}"`, each with the function that reads it back. `Orders` (file
  `orders.dfy`) holds the records. `Wrappers` (file `wrappers.dfy`) holds `Option`.

Cells of the input table are `Option<string>`. `None` is an empty cell. `str()`
of an empty cell is pandas' text `"nan"` (`Orders.NullText`). So a kept row
with an empty address is looked up under `"nan"`. It gets no bundle number
unless some row literally has the address `"nan"` (`Pipeline.EmptyAddressNoBundle`).

The clock is a parameter. `timeStr` stands for `datetime.now().strftime('%Y%m%d%H%M')`
(line 33). `orderDate` stands for `get_current_date_string()` (lines 25-27).

The two call sites build the bundle-number map differently. When no map is
passed, `convert_data_to_reshipment` numbers the addresses of the filtered rows
(line 57). The upload handler numbers the addresses of the whole table and
passes that map in (line 178). Both wirings are modelled. `Pipeline.WiringsDiffer`
shows that they can give the same address different suffixes.

An empty postal cell is also read through `str()`. So it reaches
`create_excel_file` as `"nan"`, and the `"00000"` branch of line 111 fires only
for a text cell that is empty or all whitespace (`Pipeline.EmptyPostalWrittenAsNan`).

The definitions the lemmas are about, with the lines they model:

- `Strings.Strip`: `str.strip()` (line 108).
- `Strings.Pad2`: `f"{i:02d}"` (line 41).
- `Bundles.BundleNumber`: `f"re{time_str}{i:02d}"` (lines 33 and 41).
- `Bundles.DistinctAddresses`: `df['주소'].dropna().unique()` (line 36).
- `Bundles.BundleMap`: the whole of `generate_bundle_numbers` (lines 29-44).
- `Reshipment.Filtered`: the claim-type mask (line 50).
- `Reshipment.BundleOf`: `bundle_numbers.get(address, '')` (lines 61-62).
- `Reshipment.ConvertRow`: the converted record (lines 64-74).
- `Reshipment.BundlesUsed`: the passed map, or one generated from the filtered rows (lines 56-57).
- `Template.NormalizePostal`: postal normalisation (lines 108-112).
- `Template.Headers`: the 31 labels (lines 89-96).
- `Template.RowCells`: the cell writes of one data row (lines 115-145).

## Model

| member | source | states |
|---|---|---|
| `Strings.StripSplit` | streamlit_app.py:108 | `strip()` keeps the slice `s[i..j]`; everything cut off is whitespace, and the result starts and ends with a non-whitespace character |
| `Strings.StripIdempotent` | streamlit_app.py:108 | stripping a stripped string changes nothing |
| `Strings.DecimalRoundTrip` | streamlit_app.py:41 | `str(n)` is a digit string that reads back as `n` |
| `Strings.Pad2RoundTrip` | streamlit_app.py:41 | `f"{n:02d}"` is a digit string that reads back as `n` |
| `Strings.Pad2Width` | streamlit_app.py:41 | the padded index is at least two digits, and exactly two precisely below 100 (100 and above overflow to three or more digits) |
| `Strings.Pad2Injective` | streamlit_app.py:41 | different indices give different padded suffixes |
| `Bundles.BundleNumberRoundTrip` | streamlit_app.py:33-41 | the index `k` can be read back out of `"re" + timeStr + f"{k:02d}"` |
| `Bundles.BundleNumberInjective` | streamlit_app.py:39-41 | two positions of one batch never share a bundle number |
| `Bundles.BundleNumberLength` | streamlit_app.py:33-41 | a bundle number is 4 characters longer than the stamp exactly when the index is below 100 |
| `Bundles.DistinctAddressesSpec` | streamlit_app.py:36 | `dropna().unique()` lists every non-empty address exactly once, and nothing else, ordered by first appearance in the table |
| `Bundles.NumberingKeys` | streamlit_app.py:39-42 | the numbering of an address list has exactly the listed addresses as keys |
| `Bundles.NumberingValues` | streamlit_app.py:39-42 | numbering a duplicate-free address list gives each address the bundle number of its 1-based position |
| `Bundles.BundleMapKeys` | streamlit_app.py:36-42 | the map has one key per distinct non-empty address; empty addresses are not keys |
| `Bundles.BundleMapAt` | streamlit_app.py:39-42 | the k-th distinct address in first-appearance order maps to `"re" + timeStr + f"{k:02d}"` |
| `Bundles.BundleMapValues` | streamlit_app.py:32-33 | every value starts with the one batch prefix `"re" + timeStr` and carries an index between 1 and the number of addresses |
| `Bundles.BundleMapIndex` | streamlit_app.py:39-42 | every key of the map is the distinct address at some position k, and its value is the bundle number of position k + 1 |
| `Bundles.BundleMapInjective` | streamlit_app.py:38-42 | distinct addresses get distinct bundle numbers |
| `Bundles.GenerateBundleNumbers` | streamlit_app.py:29-44 | the loop builds exactly `BundleMap(timeStr, rows)`, with the non-empty addresses as keys |
| `Reshipment.Filtered` | streamlit_app.py:50 | the mask keeps no more rows than it is given, and every row it keeps has claim type "교환" or "해당없음" |
| `Reshipment.BundleOf` | streamlit_app.py:61-62 | the looked-up bundle number is a value of the map or the empty default |
| `Reshipment.KeptIndicesSpec` | streamlit_app.py:50 | a position is kept iff its claim type is exactly "교환" or "해당없음"; kept positions are strictly increasing |
| `Reshipment.FilteredIsKeptRows` | streamlit_app.py:50 | the k-th filtered row is the input row at the k-th kept position, so the input order is preserved one to one |
| `Reshipment.FilteredEmpty` | streamlit_app.py:50-53 | nothing survives the filter iff no row has an accepted claim type |
| `Reshipment.FilteredAddresses` | streamlit_app.py:50 | the filtered rows have no address that the whole table lacks |
| `Reshipment.ConvertedRowsFromKept` | streamlit_app.py:59-75 | converted row k is made from the input row at the k-th kept position, with the map in use and the supplied date |
| `Reshipment.ConvertDataToReshipment` | streamlit_app.py:47-77 | the result is one converted row per kept row, in order: the fields come from the fixed columns, the bundle number is looked up by the address text (default `""`), and the map is the one passed in or else generated from the filtered rows; the result is empty iff no row is accepted |
| `Template.NormalizePostalTrimmed` | streamlit_app.py:108-112 | the written postal code is never empty and has no surrounding whitespace |
| `Template.NormalizePostalFiveDigits` | streamlit_app.py:108-110 | a code of 4 or 5 characters after stripping comes out with 5: "0" is prepended to any 4-character code, whatever its characters, and a 5-character one is kept; an all-digit code stays all digits with the same numeric value |
| `Template.NormalizePostalBlank` | streamlit_app.py:108-112 | a text cell that is empty or all whitespace is written as `"00000"` |
| `Template.NormalizePostalOtherLengths` | streamlit_app.py:108-112 | a stripped code of any length other than 0 and 4 passes through unchanged |
| `Template.NormalizePostalIgnoresSpace` | streamlit_app.py:108 | only surrounding whitespace is disregarded: normalising the stripped code gives the same result |
| `Template.NormalizePostalIdempotent` | streamlit_app.py:108-112 | normalising a normalised code changes nothing |
| `Template.RowCells` | streamlit_app.py:115-145 | every data row has exactly 31 cells |
| `Template.RowCellsFixedColumns` | streamlit_app.py:115-145 | columns 1-5, 28 and 30 hold NS001, 7, 17, 90015746, NFA, SELF and 09:00:00, and every blank column holds `""`, whatever the row |
| `Template.RowCellsDependOnlyOnData` | streamlit_app.py:115-145 | two data rows can differ only in columns 6, 7, 10, 11, 13, 15, 16, 17 and 19 |
| `Template.RowCellsRoundTrip` | streamlit_app.py:120-133 | reading the data columns back gives the converted row, with only its postal code normalised |
| `Template.Worksheet.constructor` | streamlit_app.py:85-86 | a new worksheet has no cells |
| `Template.Worksheet.SetCell` | streamlit_app.py:100 | writing a cell changes that cell and no other |
| `Template.CreateExcelFile` | streamlit_app.py:79-150 | the grid has exactly rows 1..n+1 by columns 1..31: row 1 holds the header labels in order, and row `2 + idx` holds the cells of converted row `idx` |
| `Pipeline.GroupingLaw` | streamlit_app.py:36-42 | with a map generated from any table that covers the kept addresses, two kept rows with non-empty addresses share a bundle number iff they share an address |
| `Pipeline.ConvertedGrouping` | streamlit_app.py:56-62 | under either wiring, converted rows with non-empty addresses share a bundle number iff they share an address, and each carries the batch prefix |
| `Pipeline.EmptyAddressNoBundle` | streamlit_app.py:61-62 | a kept row with an empty address is looked up as `"nan"` and gets `""` when no row has that literal address |
| `Pipeline.EmptyPostalWrittenAsNan` | streamlit_app.py:108-112 | a kept row with an empty postal cell gets `"nan"` in column 16, not `"00000"` |
| `Pipeline.WiringsDiffer` | streamlit_app.py:56-57 | with a return for "B" ahead of an exchange for "A", the whole-table map gives "A" suffix 02 and the filtered-rows map gives it suffix 01 |
| `Pipeline.ThreeRowScenario` | streamlit_app.py:50-75 | of an exchange for "Seoul A", a return for "Seoul B" and a no-claim order for "Seoul A", the first and third are converted, in order, and share suffix 01 |
| `Pipeline.ConvertUpload` | streamlit_app.py:178-192 | the handler's wiring: there is no sheet iff no row is accepted; otherwise the sheet lays out the rows converted with the whole-table map |

## Left out

- The web page (lines 17-22 and 153-210): the title, file upload, button,
  spinner, preview table, download button and messages. They are presentation
  only. `ConvertUpload` keeps just the wiring of lines 178-192. Its `None`
  result stands for the warning.
- Reading the upload with `pd.read_excel` (line 172), and saving the workbook
  to a byte buffer (lines 148-149). These are library calls. The model stops at
  the grid of cell values, and openpyxl cell types are not modelled.
- The wall clock (lines 27, 32 and 198). `timeStr` and `orderDate` are
  parameters, and the download file name is not modelled.
- `ConvertDataToReshipment` takes one `orderDate` for the whole call. The source
  reads the date again for every row (line 73), so a run that crosses midnight
  could mix two dates.
- How pandas renders numbers as text. Cells are already text, and `str()` is
  the identity except for empty cells (`"nan"`).
- Missing columns. The model assumes every column is present. In the source,
  a missing claim column raises in every call (line 50: the `''` default has
  no `isin`). A missing address column raises at line 36, but only where
  `generate_bundle_numbers` runs. The upload handler always runs it (line 178).
  `convert_data_to_reshipment` runs it only when no map is passed (line 57).
  With a map passed, lines 61 and 71 read `''` instead. Any other missing
  column reads as `''`. The page reports a raised error (line 205).
- Non-text address cells. In the source, two different cell values with the same
  `str()` text would share one map key, and the later number wins.
- `df.get('클레임유형', '')` compares pandas values. The model compares text:
  a claim type matches only when its text equals "교환" or "해당없음".
- Worksheet.SetCell: a cell write is modelled as a plain map update. openpyxl
  truncates a text to 32,767 characters. It raises `IllegalCharacterError` on
  the control characters U+0000-U+0008, U+000B-U+000C and U+000E-U+001F, and
  the page reports that error (line 205). So `CreateExcelFile` does not model
  either effect. Its grid is what the source writes only for texts that are
  short enough and free of those characters.
- The source's header loop (lines 99-100) is a real loop. Its 31 data-cell writes
  (lines 115-145) are separate statements. Both are modelled as loops over the
  row's cells, with the layout written out once in `RowCells`.
