# Grade summary reconciliation, modelled in Dafny

This project models `create_grade_summary` from `grade_summary_tool.py`.
That function builds a student grade summary from a folder of spreadsheets in five steps:

1. **Roster.** It reads the roster ("CL") files. It locates a header row among the first 20 rows, or failing that the first cell that names the student-ID column. It then walks at most 30 rows below it and emits one record per row whose ID cell passes the student-ID test. The other attributes come from the mapped columns, or are inferred from the other cells of the row.
2. **SA scores.** It collects assignment ("SA") scores into a book keyed by student ID and then by the file's category key (the file name without ".xls"). It uses the first column whose name contains 得分.
3. **LA scores.** The same for lab ("LA") files.
4. **Discussion scores.** It collects discussion ("TL") scores from the column 讨论/ into a flat map keyed by ID.
5. **Merge.** It builds one row per roster record, in roster order. The columns are the seven roster columns, then the sorted SA keys, the sorted LA keys and TL讨论. A missing score is 0.

How the model represents the inputs:

- A roster spreadsheet is a grid of strings (`Header.Grid`). Every cell is already rendered as text, with "nan" for an empty cell.
- A score spreadsheet is a `Scores.Table` of column names and rows of `Scores.Value` cells (`Nan`, a string or an integer).
- Each discovered file is a `Scores.InputFile`. It holds the path and the two reads the tool makes of the file, each `None` when the reader fails.

How the steps are modelled:

- Every loop of the tool is a method proved equal to a specification function.
- The header scan and its early exit are `Header.LocateHeader` and `Header.ScanRow`.
- The 30-row walk is `Roster.ExtractWindow`.
- The cell-by-cell inference is `Roster.InferAttributes`.
- The score loops are `Scores.AddTable`, `Scores.CollectBook` and `Scores.CollectDiscussion`.
- The merge is `Merge.MergeScores`, `Merge.BuildRow` and `Merge.AppendScores`.
- The whole function is `GradeSummary.CreateGradeSummary`, proved equal to `GradeSummary.Summarize`.
- The properties are lemmas about those functions.

Python's string operations are written out in module `Text`:

- `strip()` uses Python's whitespace set.
- `in` on strings is substring search.
- `replace(x, '')` is a single left-to-right pass.
- `Path(f).name` is the part after the last '/'.
- `lower()` and `isdigit()` are restricted to ASCII (see below).

## Model

| member | source | states |
|---|---|---|
| StudentIds.IsStudentIdMeaning | grade_summary_tool.py:154-157 | A stripped cell is an ID exactly when it has at least 8 characters, a digit, and a character that is neither a digit nor '.' nor '-'. This is the five-clause test restated. |
| StudentIds.LooksLikeIdIsStudentId | grade_summary_tool.py:247-249 | The fallback's inline `is_student_id` agrees with the full test on every string. |
| StudentIds.AcceptedIdExample | grade_summary_tool.py:154-157 | "20230001A" is accepted. |
| StudentIds.RejectedIdExamples | grade_summary_tool.py:154-157 | "abc" (too short), "20230001" (all digits) and "2023-0001.5" (digits once '.' and '-' are deleted) are rejected. |
| StudentIds.IsStudentId | grade_summary_tool.py:154-157 | The ID test: non-empty, not "nan", at least 8 characters, some digit, and not a number once '.' and '-' are deleted. `IsStudentIdMeaning` states it independently. |
| Text.StripMeaning | grade_summary_tool.py:115 | `strip()` returns a contiguous slice with only whitespace cut on either side, and no whitespace at its ends. |
| Text.StripUnchanged | grade_summary_tool.py:151 | A cell without whitespace at its ends is left unchanged by `strip()`. |
| Text.LowerMeaning | grade_summary_tool.py:115 | `lower()` keeps the length and lowers each character on its own. |
| Text.RemoveChar | grade_summary_tool.py:157 | `replace(c, '')` never lengthens the string, and the characters left are exactly those other than c. |
| Text.RemoveCharCounts | grade_summary_tool.py:157 | Every character other than c is kept as many times as it occurs, and c not at all. |
| Text.RemoveCharAppend | grade_summary_tool.py:157 | Removing c from a concatenation concatenates the results, so the kept characters stay in their order. |
| Text.RemoveAll | grade_summary_tool.py:325 | `replace(p, '')` never lengthens the string and leaves it unchanged when p does not occur. |
| Text.Basename | grade_summary_tool.py:194 | `Path(f).name` is the longest suffix of the path that holds no '/'. |
| Text.BasenameAfterSlash | grade_summary_tool.py:194 | For any directory, `Path(dir + "/" + name).name` is `name` when `name` holds no '/'. |
| Text.Contains | grade_summary_tool.py:83 | Python's `sub in s`: `sub` is a prefix of `s` or occurs in its tail. |
| Text.ContainsAt | grade_summary_tool.py:83 | If `sub` occurs at some position of `s`, then `sub in s`. |
| Text.ContainsPosition | grade_summary_tool.py:83 | Conversely, `sub in s` gives a position where `sub` occurs. |
| Files.XlsxNeverMarkedXls | grade_summary_tool.py:83 | A ".xlsx" path never passes the CL/SA/LA filters, which require the ".xls" suffix. |
| Files.StripXlsSuffix | grade_summary_tool.py:325 | A file named stem + ".xls", whose stem holds no ".xls", has the stem as its category key. |
| Files.CategoryKeyExample | grade_summary_tool.py:325 | "dir/SA1.xls" gives the column key "SA1". |
| Files.IsMarkedXls | grade_summary_tool.py:83-334 | The CL, SA and LA filters: the marker occurs in the path and the path ends in ".xls". |
| Files.IsDiscussionFile | grade_summary_tool.py:374 | The TL filter: "TL" occurs in the path, whatever the extension. |
| Files.CategoryKey | grade_summary_tool.py:325 | The column key of a score file is its base name with ".xls" deleted. `StripXlsSuffix` and `CategoryKeyExample` state what that gives. |
| Header.ClassifyChain | grade_summary_tool.py:114-131 | A header cell is classified by the if/elif chain 学号 > 姓名 > 班级 > 性别 > 序号 over its stripped, lower-cased text. |
| Header.ClassifyMeaning | grade_summary_tool.py:114-131 | A cell gets no field exactly when it mentions none. It gets field f exactly when it mentions f and no field earlier in the chain. |
| Header.Classify | grade_summary_tool.py:114-131 | The field of a header cell: the first field of the chain 学号, 姓名, 班级, 性别, 序号 whose keywords its stripped, lower-cased text holds. `ClassifyChain` and `ClassifyMeaning` state it. |
| Header.FieldMapMeaning | grade_summary_tool.py:112-131 | Every field in `temp_mapping` points to a cell classified as that field, and no later cell of the row has that field (the last column wins). Every classified cell's field is in the map. |
| Header.MatchCount | grade_summary_tool.py:111-131 | `found_headers` counts keyword cells and is never more than the row's width. |
| Header.FirstHeaderFrom | grade_summary_tool.py:107-138 | The header search finds a qualifying row in range, with no qualifying row before it, or reports that no row in range qualifies. |
| Header.ScanRow | grade_summary_tool.py:111-131 | The per-row loop computes exactly `found_headers` and `temp_mapping` of the row. |
| Header.LocateHeader | grade_summary_tool.py:103-138 | The scan with its `break` returns the first row among the first min(20, len) rows that has at least two keyword cells, with that row's mapping. It returns an empty mapping when no row qualifies. |
| Header.RepeatedFieldMakesHeader | grade_summary_tool.py:118-136 | Two cells naming the same field already make a header row, and the mapping keeps the later column. |
| Header.CountsCellsNotFields | grade_summary_tool.py:117-134 | ["学号", "Student ID"] is a header row although it names one field, which maps to column 1. |
| Header.FieldMapBoundedByCount | grade_summary_tool.py:111-131 | The mapping never holds more fields than the row has keyword cells. |
| Roster.RowId | grade_summary_tool.py:150-159 | A row yields an ID exactly when it has the ID column and the stripped cell passes the test, and the ID is that stripped cell. |
| Roster.MappedText | grade_summary_tool.py:167-180 | 姓名, 班级 and 性别 are the stripped mapped cell when the field is mapped, the column exists in the row, and the cell is neither blank nor "nan". Otherwise they are ''. |
| Roster.MappedSeq | grade_summary_tool.py:182-185 | 原序号 is the stripped mapped cell only when it is all digits, otherwise ''. |
| Roster.InferAttributes | grade_summary_tool.py:242-269 | The fallback's loop over the other cells of a row computes `Infer`, the left-to-right if/elif chain. |
| Roster.Absorb | grade_summary_tool.py:243-269 | One cell of the fallback's if/elif chain: a blank or "nan" cell is skipped, otherwise its stripped value fills at most one unset attribute. |
| Roster.AbsorbMeaning | grade_summary_tool.py:243-269 | One cell never overwrites an attribute already set, keeps every set attribute of its own kind, and sets at most one attribute. A blank or "nan" cell sets none. |
| Roster.InferWellFormed | grade_summary_tool.py:250-269 | Every inferred attribute is either unset or a value of its own kind. A name has 2–15 characters, is neither ID-like nor numeric, and holds no class keyword. A sequence has at most 3 digits. A gender is 男 or 女. A class holds a class keyword and has 3–20 characters. |
| Roster.InferFirstWins | grade_summary_tool.py:250-269 | An attribute set by the first n cells is never changed by later cells. |
| Roster.InferIgnoresIdColumn | grade_summary_tool.py:242-243 | The ID column's own cell never affects the inferred attributes. |
| Roster.NameBranchShadows | grade_summary_tool.py:250-269 | While no name is set, a non-ID, non-numeric cell is spent on the name branch even when rejected, so it never becomes sequence, gender or class. |
| Roster.GenderBeforeNameIsLost | grade_summary_tool.py:250-262 | In the row ["20230001A", "男", "张三"] the gender is not found, because "男" is consumed by the name branch. |
| Roster.RowStudent | grade_summary_tool.py:150-196 | A row yields a record exactly when its ID cell passes, with that ID and the file's name as source. |
| Roster.Records | grade_summary_tool.py:146-196 | A run of rows yields at most one record per row, each with a valid ID and the file's name. |
| Roster.RecordsAppend | grade_summary_tool.py:146-196 | Records are emitted row by row: the records of concatenated rows are the concatenated records. |
| Roster.RowContribution | grade_summary_tool.py:146-196 | Row i contributes exactly its own record, if any, between the records of the rows before and after it (row order is kept). |
| Roster.Window | grade_summary_tool.py:145-146 | The rows searched are those after the start row up to min(start + 31, len), at most 30. |
| Roster.ExtractRow | grade_summary_tool.py:150-196 | The loop body for one row computes `RowStudent`: the ID test, then the attributes from the mapping or by inference. |
| Roster.ExtractWindow | grade_summary_tool.py:141-196 | The 30-row walk of either path computes `Records` over that window. |
| Roster.AnchorFrom | grade_summary_tool.py:207-217 | The anchor is the first cell in row-major order, among the rows searched, whose text holds 学号, "student" or "id". Otherwise no such cell exists there. |
| Roster.FindAnchor | grade_summary_tool.py:204-217 | The nested loop with its two `break`s finds exactly that anchor within the first 20 rows. |
| Roster.ChooseStrategy | grade_summary_tool.py:141-220 | The mapped path is used only with a header whose mapping has 学号. Otherwise the fallback anchor is used, and otherwise nothing. |
| Roster.RosterOf | grade_summary_tool.py:141-284 | A roster file yields at most 30 records, each with a valid ID and the file's name. |
| Roster.ExtractRoster | grade_summary_tool.py:103-284 | Extraction from one roster grid computes `RosterOf`. |
| Scores.ColumnIndex | grade_summary_tool.py:319-391 | Lookup by exact column name finds the first such column, or none exists. |
| Scores.ScoreColumn | grade_summary_tool.py:310-315 | The score column is the first column whose name contains 得分, or no column contains it. |
| Scores.FindScoreColumn | grade_summary_tool.py:310-315 | The loop with its `break` finds exactly that column. |
| Scores.AddTable | grade_summary_tool.py:317-325 | The row loop of one SA/LA file computes `BookTable`: nothing without a score column or an ID column, else the rows in order. |
| Scores.AddRow | grade_summary_tool.py:318-325 | One row sets book[id][key] to its score when both its ID and score cells are present, creating the ID's entry when needed. |
| Scores.CollectBook | grade_summary_tool.py:294-325 | The SA (or LA) step over all files computes `BookFiles`, in discovery order, over the routed and readable files. |
| Scores.AddDiscussion | grade_summary_tool.py:391-396 | The row loop of one TL file computes `DiscussionTable`. It needs a column named exactly 讨论/. |
| Scores.CollectDiscussion | grade_summary_tool.py:374-396 | The TL step over all files computes `DiscussionFiles`. |
| Scores.BookRowsLastWins | grade_summary_tool.py:318-325 | After a file's rows, book[id][key] is the score of the last row carrying that ID. It is unchanged if no row does, and every other key is untouched. |
| Scores.LaterFileOverwrites | grade_summary_tool.py:296-325 | A later routed file that scores an ID decides that ID's cell under its key, whatever earlier files held. |
| Scores.DiscussionLastWins | grade_summary_tool.py:392-396 | tl[id] is the score of the last TL row carrying that ID, or unchanged when no row does. |
| Scores.LastScore | grade_summary_tool.py:318-325 | A score found for an ID is carried by some row. `LastScoreNone` and `LastScoreIsLast` state which row it is. |
| Scores.LastScoreNone | grade_summary_tool.py:318-325 | No score is found for an ID exactly when no row carries that ID. |
| Scores.LastScoreIsLast | grade_summary_tool.py:318-325 | When row k carries the ID and no later row does, the score found is row k's. |
| Scores.BookRowsKeys | grade_summary_tool.py:325 | A file adds at most one new column key: its own category key. |
| Scores.NoScoreColumnNoChange | grade_summary_tool.py:317 | A file with no 得分 column leaves the book unchanged. |
| Scores.Digits | grade_summary_tool.py:320 | `str(n)` of a non-negative integer is a string of decimal digits that denotes n, with no leading zero. |
| Scores.Render | grade_summary_tool.py:320 | `str(v)`: "nan" for a missing cell, the text of a text cell, and the decimal form of a number, with a minus sign when it is negative. |
| Scores.Entry | grade_summary_tool.py:319-321 | A row gives an (ID, score) pair when both its 学号 and score cells are present. The ID is `str()` of the ID cell, stripped. |
| Ordering.StrLtIrreflexive | grade_summary_tool.py:409 | Python string order is irreflexive. |
| Ordering.StrLtTransitive | grade_summary_tool.py:409 | Python string order is transitive. |
| Ordering.StrLtTotal | grade_summary_tool.py:409 | Python string order is total. |
| Ordering.SortedOf | grade_summary_tool.py:409 | `sorted(set(...))` holds each key exactly once, in strictly ascending order. |
| Ordering.SortedUnique | grade_summary_tool.py:409 | That is the only such list. Any strictly sorted list of the same keys equals it. |
| Ordering.SortedKeys | grade_summary_tool.py:409-413 | The key sort computes `SortedOf`. |
| Merge.Score | grade_summary_tool.py:436-438 | A cell is the book's score when the ID and key are present, and 0 otherwise. |
| Merge.DiscussionScore | grade_summary_tool.py:449 | `tl_scores.get(id, 0)`: the TL score when present, else 0. |
| Merge.ScoreCells | grade_summary_tool.py:435-446 | A score block has one cell per key, holding that key's score. |
| Merge.SummaryRow | grade_summary_tool.py:424-450 | Every row is exactly as wide as the column list. |
| Merge.Rows | grade_summary_tool.py:422-452 | There is one row per roster record, each as wide as the column list. |
| Merge.AppendScores | grade_summary_tool.py:435-446 | The append loop adds exactly the block of score cells. |
| Merge.BuildRow | grade_summary_tool.py:423-450 | One row is built as `SummaryRow`. |
| Merge.MergeScores | grade_summary_tool.py:406-452 | The merge step computes `MergeOf`: the sorted key columns and one row per roster record. |
| Merge.RowsAt | grade_summary_tool.py:422-452 | Row i is built from roster record i with index i + 1. |
| Merge.ColumnsAt | grade_summary_tool.py:406-417 | The header has the seven fixed columns, then the SA keys, the LA keys and TL讨论, at the stated positions. |
| Merge.RowInfoAt | grade_summary_tool.py:424-432 | A row starts with the new index, and carries the ID at position 2 and the source file at position 6. |
| Merge.RowSaAt | grade_summary_tool.py:435-439 | The k-th SA cell is the student's score under the k-th SA key, or 0. |
| Merge.RowLaAt | grade_summary_tool.py:442-446 | The k-th LA cell is the student's score under the k-th LA key, or 0. |
| Merge.RowDiscussionAt | grade_summary_tool.py:449-450 | The last cell is the TL score, or 0. |
| Merge.ColumnsMeaning | grade_summary_tool.py:406-417 | The SA block lists exactly the keys present in the SA book, strictly sorted, and the same holds for LA. |
| Merge.ScoreCellsAgree | grade_summary_tool.py:435-446 | A student's score cells depend only on that student's entry in the book. |
| Merge.LeftJoin | grade_summary_tool.py:422-452 | With the same column keys, scores for IDs not on the roster change no row. |
| Merge.RowsFollowRoster | grade_summary_tool.py:422-452 | The rows follow the roster one to one and in order, numbered from 1, each with its record's ID and source file. |
| Merge.RowFollowsRecord | grade_summary_tool.py:423-450 | Row i carries the new index i + 1, record i's ID and record i's source file. |
| GradeSummary.RosterOfFile | grade_summary_tool.py:145-146 | One file adds at most 30 records. |
| GradeSummary.RosterOfFileMeaning | grade_summary_tool.py:83-194 | Only a CL ".xls" file adds records, each with an ID that passes the test and the file's name as its 来源文件. |
| GradeSummary.ReadRosterFile | grade_summary_tool.py:85-287 | One iteration of the CL loop computes `RosterOfFile`. |
| GradeSummary.RosterFilesBound | grade_summary_tool.py:145-146 | The roster has at most 30 records per input file. |
| GradeSummary.RosterIdsValid | grade_summary_tool.py:154-196 | Every ID on the roster passes the ID test. |
| GradeSummary.RecordSource | grade_summary_tool.py:83-279 | Record k of the roster names, as its 来源文件, a CL file among the inputs, and the lemma returns that file's position. |
| GradeSummary.CollectRoster | grade_summary_tool.py:82-287 | The CL step over all files computes `RosterFiles`. |
| GradeSummary.CreateGradeSummary | grade_summary_tool.py:59-463 | The whole function computes `Summarize`, the merge of the four collected maps. |
| GradeSummary.RosterFilesAppend | grade_summary_tool.py:85-287 | Files are read independently and their records concatenated, so a student in two CL files gets two rows. |
| GradeSummary.RosterSources | grade_summary_tool.py:83-279 | Every record's 来源文件 is the name of a CL file among the inputs. |
| GradeSummary.UnroutedFileIgnored | grade_summary_tool.py:83-374 | A file no step routes to leaves the summary unchanged. |
| GradeSummary.XlsxScoreFileIgnored | grade_summary_tool.py:83-374 | An ".xlsx" file without TL in its path leaves the summary unchanged. |
| GradeSummary.SummaryRows | grade_summary_tool.py:422-452 | The summary has one row per roster record, numbered from 1, each with an ID that passes the test. |

## Left out

- File discovery (`discover_files`, lines 41-56) is directory globbing. The model takes the discovered files, in discovery order, as a sequence of `InputFile`.
- Spreadsheet reading and the engine-retry loops (lines 89-100, 299-309, 339-349, 379-389) are a foreign library. Each file carries its header-less grid and its headed table as inputs, or `None` where reading fails.
- Exceptions (lines 286-287, 326-327, 366-367, 397-398) are modelled only by their effect, which is that the file contributes nothing.
  - A failed read contributes nothing.
  - A score table with no 学号 column contributes nothing: the first row's lookup fails before any write.
- Pandas cell semantics are not modelled.
  - `astype(str)` and `str()` of floats (for example "20230001.0") are not rendered. Roster cells are strings already, and score cells are `Nan`, a string, or an integer rendered in decimal.
  - `pd.notna` is `!= Nan`.
  - Score values are carried through unchanged.
  - A row shorter than the header reads as `Nan`.
  - Duplicate column names, which pandas renames, are not modelled.
- Text.LowerMeaning: `lower()` lowers ASCII letters only, and `isdigit()` accepts ASCII digits only. Python's Unicode case mapping and Unicode digit classes are not modelled. The CJK keywords are compared as literal substrings.
- Text.RemoveAll: states only the length bound and the no-occurrence case. `Files.StripXlsSuffix` covers the shape file names actually take.
- The `print` calls, the statistics and export in `export_summary_with_stats` (lines 466-530) and `main` are output only and are not modelled.
- The `pd.DataFrame` construction (line 455) is modelled as the column list plus the row sequence (`Merge.Summary`).
- Integer IDs in score tables render in decimal. Floating-point score or ID cells are not modelled.
