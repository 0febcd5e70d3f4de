# admin_upload: the pivot reshaper and the publish decisions

`admin_upload.py` is a small admin tool. It takes an uploaded training-status file and
reshapes it into one pivot table, with one row per employee and one column per course. It
then publishes that pivot as a CSV file to a GitHub repository through the contents API.
This project models the reshaping function `process_uploaded_to_pivot_df` and the pure
decisions of the publish step, and proves properties of both.

The model is organised by the program's own structure:

- `Wrappers`, `Seqs`, `Text`: option and result types, sequence helpers, and Python's
  `str.strip`, `str.lower`, `in`, `startswith` and `endswith` on strings.
- `Frames`: a data frame as a list of column labels and a list of rows of string cells.
  - The empty string stands for a missing (NaN) cell.
  - It also holds the pandas operations the reshaper uses: stripping the header,
    `dropna(axis=1, how="all")`, column selection, `df[name] = cells` and
    `pd.concat(..., ignore_index=True)`.
- `Columns`: the column-detection rules.
  - The name column is an exact match against four candidate labels.
  - The division column's lower-cased label contains "division" or "unit".
  - The metadata columns are "s.no", "employee no" and "emp no".
  - The "unnamed" columns are dropped.
  - Also the `exclude` loop.
- `Pivots`: the output pivot, the errors, the division lookup and the numeric total of a pivot.
- `CsvPath`: the CSV branch, where each course cell becomes 1 or 0 and row `k` of the output
  is input row `k`.
- `Sheets`: the first half of the workbook branch.
  - Each sheet is cleaned and filtered to its "RMS TP" rows.
  - The rows are tagged with the sheet name.
  - The sheets are concatenated in order.
  - It includes the sheet loop as a method with its invariant.
- `Workbook`: the second half of the workbook branch.
  - The count pivot: one row per distinct name, one column per course, each cell the number
    of combined rows with that (name, course) pair.
  - The error exits, the division attachment and the returned course list.
- `Upload`: the dispatch on the file name.
- `Publish`: the sha sent with the write, the write payload, the success test on the write
  status, and the two URLs built from the configured owner, repository, branch and path.

Each operation that runs step by step in the source is a method with a loop or a sequence
of state changes: the `exclude` loop, the sheet loop, the two branch bodies and the payload
construction. Each such method is proved equal to a function. Lemmas then state what that
function means.

The model states what the code does, including four behaviours a reader might not expect:

- the CSV branch does not remove duplicate rows;
- a cell padded with whitespace around a `1` counts as 1;
- any status other than 200 from the read silently means "no sha";
- a failed write is not classified; only its status and body are reported.

Three situations make pandas raise in the source, and the model turns each into a failure:

- a CSV with no name-candidate label whose first label reads as a division column: that
  label is both the name column and the division column, and `set_index` on the two-column
  selection `df[[c, c]]` at line 59 raises (`NameIsDivision`);
- a sheet named like the name column makes `reset_index` raise (`NameClash`);
- a name paired with two different division values makes `Series.map` raise, because the
  lookup index is not unique (`AmbiguousDivision`).

Labels that coincide once stripped are a further case where pandas can raise; the model reads
such a label at its first occurrence instead (see "## Left out").

## Model

| member | source | states |
|---|---|---|
| Text.StripIsOne | admin_upload.py:54 | `strip() == "1"` holds exactly for a single 1 with only whitespace around it |
| Text.StripOneIsPadded | admin_upload.py:54 | a cell that strips to "1" is a single 1 with only whitespace around it |
| Text.PaddedOneStrips | admin_upload.py:54 | a single 1 with only whitespace around it strips to "1" |
| Text.StripPadded | admin_upload.py:37 | stripping removes exactly the whitespace around a core that neither starts nor ends with whitespace |
| Text.TrimStart | admin_upload.py:37 | the result is a suffix of the input, what was removed is all whitespace, and the result does not start with whitespace |
| Text.TrimEnd | admin_upload.py:37 | the result is a prefix of the input, what was removed is all whitespace, and the result does not end with whitespace |
| Text.ContainsAt | admin_upload.py:43 | substring containment holds iff the needle starts at some position of the string |
| Seqs.Filter | admin_upload.py:51 | filtering keeps exactly the elements that satisfy the predicate, each as often as it occurs |
| Seqs.FilterAppend | admin_upload.py:74 | filtering preserves order: it distributes over concatenation |
| Seqs.FilterAll | admin_upload.py:97 | a filter that every element passes changes nothing |
| Seqs.Dedup | admin_upload.py:97 | grouping keys yields each distinct key exactly once, and nothing else |
| Frames.StripHeader | admin_upload.py:37 | stripping the labels keeps the number of columns and every row |
| Frames.StrippedLabels | admin_upload.py:37-38 | after stripping and `dropna(how="all")`, a label is present iff some non-empty column strips to it |
| Frames.DropEmptyColumns | admin_upload.py:38 | `dropna(axis=1, how="all")` keeps every row and leaves the table rectangular; Frames.StrippedLabels states which labels survive |
| Frames.KeepColumns | admin_upload.py:71 | a column selection keeps every row and keeps the table rectangular |
| Frames.KeepColumnsLabels | admin_upload.py:71 | a label survives a selection iff some selected position carries it |
| Frames.KeepColumnsCell | admin_upload.py:71 | each surviving label reads the same cell in every row as before the selection |
| Frames.PositionsFacts | admin_upload.py:71 | the selected positions are listed once each, in increasing order, and only selected ones are listed |
| Frames.WithColumn | admin_upload.py:60 | `df[name] = cells` keeps the labels when the name exists and appends it otherwise; the row count is unchanged |
| Frames.WithColumnLookup | admin_upload.py:103 | after the assignment the name reads the new cell, and every other label reads its old cell |
| Frames.Union | admin_upload.py:84 | the concatenated labels start with those of the first table, and hold exactly the labels of either |
| Frames.UnionFresh | admin_upload.py:84 | every label the union adds after the first table is new to it and comes from the second |
| Frames.UnionDistinct | admin_upload.py:84 | the union lists each label once when the first table does |
| Frames.UnionOrder | admin_upload.py:84 | the added labels follow the order of their first occurrence in the second table, so each is added once |
| Frames.IndexOfAtMost | admin_upload.py:84 | the first occurrence of a label is at or before any position carrying it |
| Frames.Concat | admin_upload.py:84 | the concatenation holds the rows of the first table, then those of the second, under the union of labels |
| Frames.ConcatCell | admin_upload.py:84 | every concatenated row reads, under every label, what its source row read there, or a missing cell |
| Columns.FirstWhere | admin_upload.py:41 | `next(...)` yields the first position satisfying the test, or none iff no position does |
| Columns.FirstLabel | admin_upload.py:43 | the first label satisfying the test, or none iff no label does |
| Columns.FirstWhereAt | admin_upload.py:43 | a position with a match and none before it is the one `next(...)` yields |
| Columns.FirstLabelSnoc | admin_upload.py:83 | appending a label that fails the test does not change the first match |
| Columns.FirstWhereSnoc | admin_upload.py:83 | the same fact for positions |
| Columns.NameColumn | admin_upload.py:90-91 | the name column is the first label that is exactly a name candidate; it is absent iff no label is one |
| Columns.CsvNameColumn | admin_upload.py:40-41 | on the CSV branch the name column is the exact match, else the first column; it is absent only for a table with no columns |
| Columns.DivisionColumn | admin_upload.py:43 | the division column is the first label whose lower-cased form contains "division" or "unit"; the same rule serves lines 72 and 100 |
| Columns.PlainLabel | admin_upload.py:43 | a label whose lower-cased form has neither "di" nor "un" in it is no division column |
| Columns.CandidatePlain | admin_upload.py:40-43 | no name candidate reads as a division column |
| Columns.NameIsDivisionMeaning | admin_upload.py:40-43 | the CSV name column is also the division column iff no label is a name candidate and the first label reads as a division column |
| Columns.ExcludedColumns | admin_upload.py:44-50 | the `exclude` loop builds exactly the name column, the division column if any, and every metadata column |
| Columns.WithoutKeeps | admin_upload.py:51 | the course list holds exactly the labels outside `exclude`, each as often as it occurs, in the original order |
| Columns.CourseMember | admin_upload.py:44-51 | a label is a course column iff it is a label other than the name column, the division column and the metadata columns |
| Pivots.DivisionMap | admin_upload.py:59 | the division lookup exists iff no name has two division values; its keys are exactly the names, each mapped to its division value |
| Pivots.NameDivisionPairs | admin_upload.py:59 | `df[[name_col, division_col]]` gives one (name, division) pair per row; Pivots.DivisionMap states when they form a lookup, and CsvPath.DivisionCell and Workbook.PivotDivision what it attaches |
| Pivots.AttachDivision | admin_upload.py:60 | attaching the division keeps every row and appends "Division/ Unit" unless the pivot has it; CsvPath.AttachedLookup and CsvPath.DivisionCell state the cells |
| Pivots.LookupCells | admin_upload.py:60 | mapping the row names through the lookup yields one value per row |
| CsvPath.Prepare | admin_upload.py:36-38 | preparation keeps every row and leaves the table rectangular; CsvPath.PrepareKeeps states which labels survive and over which cells |
| CsvPath.IndicatorPivot | admin_upload.py:54-56 | the flag pivot is rectangular, with one row per input row and one column per course after the name; CsvPath.IndicatorPivotLookup states its cells |
| CsvPath.CsvPivot | admin_upload.py:35-61 | the CSV branch fails for want of columns iff every decoded column is empty, and on success its name column is the stripped label of a column with a present cell |
| CsvPath.Indicator | admin_upload.py:54 | a course cell becomes 1 iff it is a padded 1, and 0 otherwise |
| CsvPath.PrepareKeeps | admin_upload.py:36-38 | preparation keeps every row; a column survives iff it has a present cell, and it keeps its cells under its stripped label |
| CsvPath.ProcessCsv | admin_upload.py:34-61 | the CSV branch with its exclusion loop computes the CSV pivot function, including the failure at line 59 when the name column is the division column |
| CsvPath.Reshape | admin_upload.py:41-61 | the CSV branch stops only for want of columns, for a name column that is the division column, or for an ambiguous division; on success the name column is a label and no course; labels duplicated after stripping are read at their first occurrence rather than failing |
| CsvPath.ReshapeOutcome | admin_upload.py:41-60 | the CSV branch fails for want of columns iff the table has none; because the name column is the division column iff no label is a candidate and the first reads as a division column; and for an ambiguous division iff, otherwise, some name has two division values; labels duplicated after stripping are not a failure case |
| CsvPath.ReshapeShape | admin_upload.py:54-60 | unfolding helper: the success branch of `Reshape` with the flag pivot's shape; the facts that matter are in CsvPath.ReshapeRow and CsvPath.ReshapeColumns |
| CsvPath.ReshapeColumns | admin_upload.py:44-56 | courses are exactly the non-excluded labels; the name column comes first in the output; there is one output row per input row |
| CsvPath.ReshapeCourses | admin_upload.py:44-51 | a label is a course iff it is a non-excluded label; the name column is a label of the table, and the first one when no candidate matches |
| CsvPath.ReshapeNameFirst | admin_upload.py:56 | the name is the first output column, and there is one output row per input row |
| CsvPath.IndicatorPivotLookup | admin_upload.py:54-56 | output row `k` reads input row `k`'s name and input row `k`'s flag for each course |
| CsvPath.ReshapeRow | admin_upload.py:54-60 | output row `k` reads input row `k`'s name, its 1/0 flag for each course, and its own division value |
| CsvPath.DivisionLabelIsDivision | admin_upload.py:43 | "Division/ Unit" itself reads as a division column |
| CsvPath.ReshapeNameLabel | admin_upload.py:41-60 | a successful run never has "Division/ Unit" as its name column, since that label would also be the division column |
| CsvPath.AttachedLookup | admin_upload.py:58-60 | attaching the division column leaves every other label of a row as the flag pivot has it |
| CsvPath.DivisionCell | admin_upload.py:58-60 | the division value attached to output row `k` is the one input row `k` carries |
| Sheets.PrepareSheet | admin_upload.py:68-71 | cleaning a sheet keeps every row and keeps the table rectangular |
| Sheets.PrepareSheetLabels | admin_upload.py:68-71 | a cleaned sheet keeps exactly the non-empty columns whose stripped label does not start with "unnamed" |
| Sheets.Survives | admin_upload.py:73-78 | a row that survives the RMS TP filter has a present cell mentioning "RMS TP" |
| Sheets.RmsTpRows | admin_upload.py:73-80 | the RMS TP filter keeps the columns unchanged |
| Sheets.RmsTpRowsKeeps | admin_upload.py:73-80 | the kept rows are exactly the surviving rows, each as often as it occurs, in order |
| Sheets.RmsTpRowsEmpty | admin_upload.py:77-80 | the filter result is empty iff no row survives |
| Sheets.Tag | admin_upload.py:83 | tagging keeps every row |
| Sheets.TaggedEmpty | admin_upload.py:81-82 | a sheet contributes rows iff some row of its cleaned table survives the filter |
| Sheets.TaggedRow | admin_upload.py:83 | each contributed row is a surviving row of the cleaned sheet, with the sheet name under "Course Name" |
| Sheets.TaggedLabels | admin_upload.py:83 | a contributing sheet carries its cleaned labels and "Course Name" |
| Sheets.Combined | admin_upload.py:65-84 | the combined table is rectangular, with one row per row of every contribution, sheet by sheet; Sheets.CombinedRowOrigin, Sheets.CombinedColumns and Sheets.CombinedEmpty state its rows and labels |
| Sheets.CombinedSnoc | admin_upload.py:81-84 | one more sheet is skipped when it contributes nothing, and concatenated otherwise |
| Sheets.CombineSheets | admin_upload.py:65-84 | the sheet loop accumulates exactly the combined table of all sheets |
| Sheets.CombineRows | admin_upload.py:84 | row `k` of the accumulation is the `k`-th row in sheet order, then row order, and reads what that row read |
| Sheets.CombineColumns | admin_upload.py:84 | a label appears in the accumulation iff some contribution with rows carries it |
| Sheets.FlattenOrigin | admin_upload.py:84 | every row in the reference order is some row of some contribution |
| Sheets.FlattenEmpty | admin_upload.py:85 | the accumulation has no rows iff no contribution has any |
| Sheets.CombinedEmpty | admin_upload.py:85-87 | the combined table is empty iff no sheet has a surviving row |
| Sheets.CombinedRowOrigin | admin_upload.py:66-84 | every combined row comes from one surviving row of some sheet; it reads that sheet's name under "Course Name" and that same row's cell under every other label |
| Sheets.CombinedColumns | admin_upload.py:83-84 | a combined label is "Course Name" or a cleaned label of some sheet with surviving rows |
| Sheets.UnionFirst | admin_upload.py:84 | the first label of a union passing a test is the first of the first table, or of the second when the first has none |
| Sheets.CombineFirstNone | admin_upload.py:84 | the accumulation has no label passing a test iff no contribution with rows has one |
| Sheets.CombineFirst | admin_upload.py:84 | the first label of the accumulation passing a test is that of the first contribution with rows that has one |
| Sheets.TaggedFirst | admin_upload.py:83 | tagging does not change the first label passing a test that "Course Name" fails |
| Sheets.CombinedFirst | admin_upload.py:65-84 | among the combined labels, the first passing such a test is that of the first sheet with RMS TP rows that has one |
| Workbook.Keys | admin_upload.py:97 | there is one (name, course) key per combined row |
| Workbook.CountPivot | admin_upload.py:97-98 | the count pivot is rectangular, with one row per name |
| Workbook.AfterCombine | admin_upload.py:85-104 | the branch after the loop stops only for its four errors; on success the name column is a name candidate and no course |
| Workbook.WorkbookPivot | admin_upload.py:63-104 | the workbook branch ends only in its four errors, and on success its name column is a cleaned label of some sheet with RMS TP rows; Workbook.WorkbookNoRows and Workbook.WorkbookNameMissing state when it fails |
| Workbook.BasePivot | admin_upload.py:97-98 | the count pivot is rectangular with one row per distinct name; Workbook.PivotCell, Workbook.BaseLookup and Workbook.BaseTotal state its cells |
| Workbook.ProcessWorkbook | admin_upload.py:64-104 | the workbook branch computes the workbook pivot function |
| Workbook.NameLabel | admin_upload.py:90-91 | the detected name column is a candidate, so it is neither "Course Name" nor "Division/ Unit" |
| Workbook.AfterCombineShape | admin_upload.py:96-103 | unfolding helper: the success branch of `AfterCombine` with the candidate-name facts; the facts that matter are in Workbook.PivotCell and Workbook.PivotDivision |
| Workbook.AfterCombineOutcome | admin_upload.py:85-103 | the workbook branch fails exactly in four cases: no combined rows, no name column, a course named like the name column, or an ambiguous division |
| Workbook.WorkbookNoRows | admin_upload.py:85-87 | "No RMS TP rows" is reported iff no sheet has a surviving row |
| Workbook.WorkbookNameMissing | admin_upload.py:92-94 | given surviving rows, "name column missing" is reported iff no contributing sheet has a name-candidate label |
| Workbook.CombinedNameless | admin_upload.py:91 | the combined labels hold no name candidate iff no contributing sheet's cleaned labels do |
| Workbook.NamelessLabels | admin_upload.py:91 | a label list drawn from those sheet labels has no name candidate iff none of the sheets has one |
| Workbook.NoNameColumn | admin_upload.py:91-92 | no name column is found iff no label is a name candidate |
| Workbook.CombinedNameColumn | admin_upload.py:90-91 | the name column is the first name candidate of the first sheet with RMS TP rows that has one |
| Workbook.CombinedDivisionColumn | admin_upload.py:100 | the division column is the first division-like label of the first sheet with RMS TP rows that has one |
| Workbook.PresentIgnored | admin_upload.py:95-100 | the column of ones added before the division search never becomes the division column |
| Workbook.KeysMembers | admin_upload.py:97 | pivot names and courses are distinct; a name labels a row iff some combined row carries it; a course heads a column iff some named row was tagged with it |
| Workbook.PivotNameMember | admin_upload.py:97 | a name labels a pivot row iff it is present and some combined row carries it |
| Workbook.PivotCourseMember | admin_upload.py:97 | a course heads a pivot column iff some combined row with a name was tagged with it |
| Workbook.PivotCell | admin_upload.py:96-98 | each cell is the number of combined rows with that name and course, which is 0 when there are none, and the row shows its name |
| Workbook.BaseLookup | admin_upload.py:97 | reading the count pivot by label gives the name and the per-course count |
| Workbook.NamedCount | admin_upload.py:97 | a key with a name is counted as often among the grouped keys as among all keys |
| Workbook.ProductFacts | admin_upload.py:97 | the (name, course) grid lists every pair of a pivot name and a pivot course, once each |
| Workbook.NamedCovered | admin_upload.py:97 | every grouped key sits in the grid |
| Workbook.RowTotalCounts | admin_upload.py:97 | a pivot row sums to the number of keys for its name |
| Workbook.TotalCounts | admin_upload.py:97 | a count pivot sums to the number of keys over its grid |
| Workbook.BaseTotal | admin_upload.py:97 | the count pivot sums to the number of combined rows with a name |
| Workbook.TotalAppendText | admin_upload.py:103 | attaching a text column does not change the numeric sum |
| Workbook.PivotTotal | admin_upload.py:96-103 | the output cells sum to the number of combined rows that carry a name |
| Workbook.PivotTotalAllNamed | admin_upload.py:96-98 | when every combined row carries a name, the cells sum to the number of combined rows |
| Workbook.PivotDivision | admin_upload.py:101-103 | a row's division value is the division cell of every combined row with that name |
| Workbook.AttachedColumns | admin_upload.py:97-103 | the output labels are the name, then the courses, then "Division/ Unit" iff a division column exists |
| Workbook.ReturnedCourses | admin_upload.py:104 | as written: the labels strictly between the first and the last, or none for two labels or fewer |
| Workbook.CourseColumns | admin_upload.py:104 | as intended: every label after the first, except the last when the division column was attached |
| Workbook.CourseColumnsAreCourses | admin_upload.py:104 | the corrected course list equals the pivot's courses, with or without a division column |
| Workbook.ReturnedCoursesDropsLast | admin_upload.py:104 | without a division column, the list as written is every course but the last |
| Workbook.SliceDropsLast | admin_upload.py:104 | the slice drops the final course, which then appears nowhere in it |
| Workbook.ReturnedCoursesWithDivision | admin_upload.py:104 | with a division column attached and no course named "Division/ Unit", the list as written is exactly the courses |
| Workbook.SingleCourseLost | admin_upload.py:104 | one employee on one course without a division column: the run succeeds with that course, yet the list as written is empty |
| Upload.ProcessUpload | admin_upload.py:32-34 | the dispatch runs the CSV branch iff the name ends in ".csv", and the workbook branch otherwise |
| Upload.IsCsvName | admin_upload.py:33-34 | the file-name test of the dispatch; Upload.CsvNameMeaning states which names pass it |
| Upload.CsvNameMeaning | admin_upload.py:33-34 | a name is taken for a CSV iff its last four characters are a dot and c, s, v in either case |
| Upload.CsvNameIgnoresCase | admin_upload.py:33 | lower-casing the name first does not change the choice |
| Upload.Process | admin_upload.py:32-104 | a CSV run ends only in the CSV errors, and a workbook run only in the workbook errors |
| Upload.ProcessNameFirst | admin_upload.py:56 | on success the name column comes first, it is not a course, and every course heads a pivot column |
| Upload.CsvNameFirst | admin_upload.py:54-60 | on CSV success the name column comes first, it is not a course, and every course heads a column |
| Upload.WorkbookNameFirst | admin_upload.py:97-103 | on workbook success the name column comes first, it is not a course, and every course heads a column |
| Publish.ContentsUrl | admin_upload.py:115 | the contents-API address starts with the API host |
| Publish.ContentsUrlParts | admin_upload.py:115 | after the host, the address cuts back into "repos", owner, repository, "contents" and path |
| Publish.ApiBase | admin_upload.py:115 | the configured endpoint starts with the API host; Publish.ConfiguredUrls states its parts |
| Publish.RawUrl | admin_upload.py:140 | the configured raw address starts with the raw-content host; Publish.ConfiguredUrls states its parts |
| Publish.ConfiguredUrls | admin_upload.py:115 | the configured addresses hold the configured owner, repository, branch and path, each as one part of the address |
| Publish.RawContentUrl | admin_upload.py:140 | the raw address starts with the raw-content host |
| Publish.RawContentUrlParts | admin_upload.py:140 | after the host, the raw address cuts back into owner, repository, branch and path |
| Publish.SplitSnoc | admin_upload.py:140 | appending "/" and a slash-free part adds exactly that part to the cut |
| Publish.SplitFour | admin_upload.py:140 | four slash-free parts joined by "/" are cut back into the same parts |
| Publish.SplitFive | admin_upload.py:115 | five slash-free parts joined by "/" are cut back into the same parts |
| Publish.LastSlash | admin_upload.py:140 | the last "/" is found iff there is one, and none follows it |
| Publish.ShaToSend | admin_upload.py:119-123 | a sha is sent iff the read returned 200 with a non-empty sha, and it is that sha |
| Publish.BuildPayload | admin_upload.py:127-133 | the payload always holds message, content and branch, and holds "sha" iff a sha is sent |
| Publish.PutOutcome | admin_upload.py:136-141 | the write succeeds iff its status is 200 or 201; a success reports the file URL and the raw URL, a failure reports the status and body |

## Left out

- The Streamlit page: configuration, uploader, preview, messages (lines 8-29, 106-109). Each `st.error` followed by `st.stop` is a `Failure` result.
- The token from the environment and the request headers (lines 20-23, 116): they carry no decision.
- File decoding (`pd.read_csv`, `pd.ExcelFile`, `pd.read_excel(header=1)`): tables arrive decoded into string cells. `Upload.Process` receives the CSV reading and the workbook reading of the upload as parameters and uses the one the name selects.
- pandas type inference: a cell is its string. A numeric column that reads as "1.0" or "nan" is not modelled. The empty string stands for NaN.
- `str.lower` is modelled on ASCII letters only; other characters are left as they are. The case-insensitive `str.contains("RMS TP", case=False)` matches at lines 74 and 76 are modelled through the same lower-casing, so they too fold ASCII letters only.
- The sorting `pivot_table` applies to rows and columns: the model lists the workbook pivot's names and courses in first-seen order rather than sorted order. Membership, distinctness, cell and total lemmas do not depend on that order. Those that state positions do: Workbook.AttachedColumns, Workbook.CourseColumnsAreCourses, Workbook.ReturnedCoursesDropsLast, Workbook.SliceDropsLast and Workbook.ReturnedCoursesWithDivision speak of first-seen order. In pandas the course that line 104 drops is the last in sorted order, not the last seen; the finding below stands either way.
- Workbook.ProcessWorkbook: its third result is the corrected course list (`PivotCourses`, which `Workbook.CourseColumns` recovers from the pivot), not line 104's `[1:-1]` slice; `Workbook.ReturnedCourses` models that slice as written.
- Workbook.AfterCombine: returns the corrected course list, for the same reason.
- Upload.Process: on a workbook its course list is the corrected one, for the same reason; `Upload.ProcessUpload` inherits this.
- CsvPath.Reshape: labels that coincide after stripping (such as "Name" and "Name ", or "Unit" and "Unit ") are read at their first occurrence. In pandas such a label selects every column carrying it: `set_index` at lines 54 and 59 raises for a duplicated name column, `.str` at line 74 raises for a duplicated division column, and a duplicated course yields several columns. The same holds for CsvPath.ReshapeOutcome, CsvPath.CsvPivot, CsvPath.ProcessCsv, Sheets.Survives, Workbook.AfterCombine and Workbook.WorkbookPivot: none of them has a failure for such labels.
- Sheets.Survives: reads a duplicated division label at its first occurrence, for the reason above.
- CsvPath.PrepareKeeps: requires distinct labels after stripping, because pandas frames with duplicate labels select several columns at once.
- Frames.KeepColumnsCell: requires distinct labels, for the same reason.
- Workbook.PivotTotal: states that the cells sum to the number of combined rows that carry a name, because `pivot_table` drops rows whose name is missing. `Workbook.PivotTotalAllNamed` gives the sum over all combined rows.
- Workbook.PivotCell: excludes a course named "Division/ Unit" when a division column is attached, because that assignment overwrites the course column.
- Workbook.AttachedColumns: excludes a course named "Division/ Unit" for the same reason. So do Workbook.PivotTotal, Workbook.PivotTotalAllNamed, Workbook.CourseColumnsAreCourses and Workbook.ReturnedCoursesWithDivision.
- Workbook.ReturnedCoursesWithDivision: excludes a course named "Division/ Unit". With a division column, line 103 overwrites that course's column in place, so line 104's slice loses that course too.
- The HTTP read and write, JSON parsing and the response's `html_url` (lines 119, 121, 135, 138): the statuses, the returned sha and the file URL are parameters.
- Publish.ShaToSend: models the sha as an optional string. A non-string JSON value is not modelled.
- Base64 encoding, `json.dumps` and `to_csv` (lines 112, 126, 135): library code. The payload's content is a parameter.

## Findings

| source | as written | input that shows it | evidently intended | confidence | as-written member | corrected member |
|---|---|---|---|---|---|---|
| admin_upload.py:104 | the workbook branch returns the pivot's labels without the first and the last when there are more than two, and none otherwise | one sheet "Fire Safety" with one RMS TP row for "Asha" under a "Name" column, and no division column: the pivot's labels are "Name" and "Fire Safety", so no course is returned | the labels after the name column, dropping the last one only when "Division/ Unit" was attached | not executed | Workbook.ReturnedCourses (shown by Workbook.SingleCourseLost and Workbook.ReturnedCoursesDropsLast) | Workbook.CourseColumns (proved by Workbook.CourseColumnsAreCourses; the model's `Output.courses` is this list) |
