# Table structuring core of the crawl_data extractors

crawl_data pulls statistical tables out of Vietnamese government and bank
publications: the Ministry of Finance's public-debt bulletins (a PDF viewer
read span by span), scanned interest-rate sheets (OCR), and HTML report pages
of the State Bank and of other publishers. This project models, in Dafny, the
deterministic part of those extractors that turns positioned text fragments
and table cells into rows and hierarchical records, and proves what that part
guarantees.

The model has one module per component:

- `Collections`, `Text` and `Sorting` hold shared helpers. These are options and
  results, flattening, filtering, and the widest row. There are also character
  classes, `" ".join` and `str.strip`, and Python's stable `sorted` for a
  real-valued key, modelled as an insertion sort.
- `Fragments`, `LineBuckets` and `MofTable` cover the Ministry of Finance
  extractor (mof_extractor.py):
  - the two neighbour-merging strategies, `process_adjacent_coordinates` and
    `process_adjacent_coordinates2`;
  - bucketing the merged fragments into lines by their rounded coordinate;
  - dropping short lines and footnote markers (`clean_lists`);
  - the second method's header reshaping;
  - the split of the result into header and body.
- `OcrRows` and `TextCleaning` cover the Vietnamese PDF processor
  (vietnamese_pdf_processor.py):
  - the confidence filter and the box measures;
  - the clustering of boxes into rows around an anchor, 20 px apart, with each
    row ordered left to right;
  - `clean_vietnamese_text`;
  - padding rows to a common width.
- `OcrLines` covers the stand-alone OCR script extract.py:
  - grouping detections into lines by their truncated mean height within
    15 px, where the first line in reach wins;
  - reading each line left to right;
  - the window of table lines between "không kỳ hạn" and "60 tháng";
  - splitting a line into fields at runs of two or more whitespace characters.
- `TemplateResolver` and `Records` cover the hierarchical HTML reader of
  extract_template.py:
  - the value token check;
  - the group labels and the group stack;
  - the error cases;
  - the template branch of `extract_with_mapping`.
- `SbvResolver` covers the State Bank report reader extract_sbv_html.py:
  - main sections marked by a grey background;
  - indented items whose `padding-left` in pixels maps to a level;
  - the value check;
  - the six-level group stack.

Coordinates are exact reals, so float rounding error is not modelled. Python's
`round` (half to even) and `int` (toward zero) are written out explicitly.
The errors the readers raise on a missing table, a table without rows or
cells, and a template record without VALUE are the `Err` cases of a
`Result`. Two exceptions are not modelled: a confident OCR detection with no
corner points divides by zero, and pandas pads body rows shorter than the
widest one and rejects a table whose widest body row is not as wide as the
header; "## Left out" says how the model treats each. Inputs are the values the I/O shell would hand over: fragments
`(primary, secondary, text)`, OCR detections, and table rows as cell texts,
with their `style` attribute where the reader uses it.

## Model

| member | source | states |
|---|---|---|
| `Fragments.MergePairs` | mof_extractor.py:76-98 | An input of at most one item comes back as it is. The output has between half (rounded up) and all of the input's items. The first output keeps the first input's primary coordinate. |
| `Fragments.MergePairsIsCollapse` | mof_extractor.py:81-96 | For any pair chunking of the input, the output is the chunks collapsed in order. A pair chunking cuts the input into single items and pairs with equal primary coordinate, where a single item is never followed by one with its primary coordinate. A pair collapses to its primary coordinate, the mean secondary coordinate and the two texts joined by a space. |
| `Fragments.PairChunksValid` | mof_extractor.py:81-96 | Every input has a pair chunking, so the pair merge is fully described by `MergePairsIsCollapse`. |
| `Fragments.MergePairsNoAdjacentEqual` | mof_extractor.py:90-96 | When no two neighbours share a primary coordinate, the output equals the input. |
| `Fragments.MergePairsKeepsText` | mof_extractor.py:85-96 | The output's texts joined by spaces equal the input's texts joined by spaces. |
| `Fragments.CollapseSingle` | mof_extractor.py:94-96 | A lone item collapses to itself, as the trailing item is appended unchanged. |
| `Fragments.MergeRuns` | mof_extractor.py:100-131 | Adjacent outputs always differ in secondary coordinate. The output is no longer than the input. A non-empty input gives a non-empty output whose first item keeps the first secondary coordinate. |
| `Fragments.RunChunksValid` | mof_extractor.py:105-119 | Every input cuts into its maximal runs of equal secondary coordinate. |
| `Fragments.MergeRunsIsCollapse` | mof_extractor.py:105-129 | For the cut into maximal runs, the output is each run collapsed in order: its mean primary coordinate, its shared secondary coordinate and its texts joined by spaces. |
| `Fragments.RunCollapseSingle` | mof_extractor.py:127-129 | A lone item collapses to itself, as the trailing item is appended unchanged. |
| `Fragments.MergeRunsCount` | mof_extractor.py:105-129 | There is one output per maximal run, and the run sizes add up to the input length. |
| `Fragments.MergeRunsOnDistinct` | mof_extractor.py:114-129 | An input whose neighbours always differ in secondary coordinate comes back unchanged. |
| `Fragments.MergeRunsIdempotent` | mof_extractor.py:114-129 | Merging the output of the run merge again changes nothing. |
| `Fragments.MergeRunsKeepsText` | mof_extractor.py:116-122 | The output's texts joined by spaces equal the input's texts joined by spaces. |
| `LineBuckets.RoundHalfEven` | mof_extractor.py:211 | The result is within one half of the input, and a tie goes to the even neighbour. |
| `LineBuckets.RoundHalfEvenExamples` | mof_extractor.py:218 | 2.5 rounds to 2 and 3.5 to 4. -0.5 rounds to 0 and -1.5 to -2. 101.4 rounds to 101 and 101.6 to 102. |
| `LineBuckets.RoundHalfEvenWhole` | mof_extractor.py:211 | A whole number rounds to itself. |
| `LineBuckets.Place` | mof_extractor.py:210-213 | Placing a text keeps the lines in ascending key order, and none becomes empty. It adds exactly one text. |
| `LineBuckets.PlaceLookup` | mof_extractor.py:212-213 | Placing a text appends it to the end of its key's line, and every other key's line is unchanged. |
| `LineBuckets.Bucket` | mof_extractor.py:209-213 | The lines are in strictly ascending key order and none is empty. For every key, the line holds exactly the texts of the fragments rounding to that key, in input order. The line sizes add up to the number of fragments. |
| `LineBuckets.BucketLines` | mof_extractor.py:209-213 | There is a line for a key exactly when some fragment rounds to that key. |
| `LineBuckets.BucketKeepsAll` | mof_extractor.py:209-213 | The lines hold as many texts as there are fragments. |
| `LineBuckets.BucketSameKey` | mof_extractor.py:209-213 | Fragments that all round to one key give a single line with all their texts in order. |
| `MofTable.FootnoteMarkerShape` | mof_extractor.py:136-140 | A cell is a footnote marker exactly when it is one or two digits in parentheses and nothing else. |
| `MofTable.FootnoteMarkerExamples` | mof_extractor.py:136-140 | "(1)" and "(12)" are markers. "(123)", "()", "(a)", "x(1)", "(1)x" and "( 1)" are not. |
| `MofTable.CleanRow` | mof_extractor.py:140 | The cleaned line is no longer than the line and holds no footnote marker. |
| `MofTable.CleanRowKeeps` | mof_extractor.py:140 | Every cell of the cleaned line comes from the line. Every non-marker cell of the line is kept. |
| `MofTable.CleanLists` | mof_extractor.py:133-143 | There is one output line per input line of at least five cells, and no output cell is a footnote marker. |
| `MofTable.CleanListsIsMapFilter` | mof_extractor.py:138-141 | The i-th output line is the i-th input line of at least five cells, with its footnote-marker cells removed and its other cells in order. |
| `MofTable.CleanListsFromWide` | mof_extractor.py:138-141 | Every output line is the cleaned form of an input line of at least five cells. |
| `MofTable.CleanListsKeepsCleanLines` | mof_extractor.py:138-141 | Lines that are all wide and marker-free pass unchanged. |
| `MofTable.CleanRowExample` | mof_extractor.py:136-141 | The line col1, col2, (1), col3, (2), col4, col5 cleans to col1 … col5. |
| `MofTable.CleanListsExample` | mof_extractor.py:133-143 | The seven-cell line above is kept and cleaned, and a four-cell line is dropped. |
| `MofTable.DuplicateEach` | mof_extractor.py:232 | The output is twice as long, and items 2i and 2i+1 both equal input item i. |
| `MofTable.FormatMethod2` | mof_extractor.py:230-235 | The reshaping keeps the number of lines. The first line becomes "Year" followed by each of its labels twice, in order. The second line gets "Currency" in front of its cells. Later lines are untouched. |
| `MofTable.SortedLines` | mof_extractor.py:206-220 | The method's merge runs first: runs for method 1, pairs for method 2. Then there is one line per rounded key of the merged fragments, in ascending key order. Each line holds exactly the texts of the merged fragments with its key, in input order, and is not empty. The lines hold as many texts as the merge produced, which is at most the number of fragments. |
| `MofTable.Assemble` | mof_extractor.py:223-237 | A table exists exactly when at least two lines survive cleaning. For method 1, the header is the first cleaned line and the body the rest. For method 2, the header is "Year" and every first-line label twice, and the body starts with "Currency" in front of the second line. |
| `MofTable.ExtractTable` | mof_extractor.py:202-204 | No fragments, no table. |
| `MofTable.ExtractTableNeedsTenFragments` | mof_extractor.py:207-237 | A table needs at least ten fragments, because two lines of at least five texts must survive. |
| `MofTable.Method1TableHasNoMarkers` | mof_extractor.py:207-237 | No column label or cell of a method-1 table is a footnote marker. |
| `Sorting.SortBy` | vietnamese_pdf_processor.py:141 | The sort's output is ordered by key and is a permutation of its input. |
| `Sorting.SortByStable` | vietnamese_pdf_processor.py:141 | The sort is stable: for every key, the elements carrying it keep their input order. |
| `Sorting.SortBySorted` | vietnamese_pdf_processor.py:152 | Sorting input that is already in key order changes nothing. |
| `TextCleaning.KeepAllowed` | vietnamese_pdf_processor.py:178 | Every character of the result is in the allowed class. |
| `TextCleaning.KeepAllowedAppend` | vietnamese_pdf_processor.py:178 | Deleting the disallowed characters of two joined texts equals deleting them from each and joining, so the kept characters keep their order. |
| `TextCleaning.KeepAllowedChar` | vietnamese_pdf_processor.py:178 | A single character is kept exactly when it is in the allowed class, and deleted otherwise. |
| `TextCleaning.CollapseSpaces` | vietnamese_pdf_processor.py:181 | The result is single-spaced: no two whitespace characters in a row, and only the plain space. It starts with whitespace exactly when the input does. |
| `TextCleaning.CollapseSpacesVisible` | vietnamese_pdf_processor.py:181 | Collapsing keeps every non-whitespace character, in order. |
| `TextCleaning.NormalizeSpaces` | vietnamese_pdf_processor.py:181 | The result is single-spaced, with no whitespace at either end. |
| `TextCleaning.CollapseFromWord` | vietnamese_pdf_processor.py:181 | On text that does not start with whitespace, collapsing gives its words joined by single spaces, plus one space when the text ends in whitespace. |
| `TextCleaning.NormalizeSpacesWords` | vietnamese_pdf_processor.py:181 | Normalising whitespace gives the words of the text (its maximal runs of non-whitespace characters, as `str.split` returns them) joined by single spaces. |
| `TextCleaning.NormalizeSpacesVisible` | vietnamese_pdf_processor.py:181 | Normalising whitespace keeps every non-whitespace character, in order. |
| `TextCleaning.DecimalPoints` | vietnamese_pdf_processor.py:184 | The substitution keeps the length. |
| `TextCleaning.DecimalPointsChars` | vietnamese_pdf_processor.py:184 | Every character is kept, except that a comma may become a point. |
| `TextCleaning.DecimalPointsSound` | vietnamese_pdf_processor.py:184 | Only a comma with a digit on each side is changed. |
| `TextCleaning.DecimalPointsSpaced` | vietnamese_pdf_processor.py:184 | Two commas turned into points are at least three positions apart, because the scan resumes after the second digit of a replacement. |
| `TextCleaning.DecimalPointsComplete` | vietnamese_pdf_processor.py:184 | A digit, comma, digit left in the result must overlap an earlier match: the character two places back became a point. Matches are taken left to right without overlap. |
| `TextCleaning.DecimalPointsKeepsShape` | vietnamese_pdf_processor.py:184 | The substitution keeps text in the allowed class and single-spaced, and changes no whitespace. |
| `TextCleaning.CleanText` | vietnamese_pdf_processor.py:166-186 | Empty text cleans to empty. Every character of the result is allowed. The result is single-spaced, with no whitespace at either end. |
| `TextCleaning.CleanTextIsWords` | vietnamese_pdf_processor.py:175-186 | Cleaning equals: keep the allowed characters, join their words by single spaces, then turn each digit-comma-digit into digit-point-digit. |
| `TextCleaning.CleanTextTwoWords` | vietnamese_pdf_processor.py:175-186 | Two words of allowed characters with any whitespace run between them, and no comma between digits, clean to the two words joined by one space (the shape of the routine's first test case). |
| `TextCleaning.CleanTextFixedPoint` | vietnamese_pdf_processor.py:174-186 | Clean text with no digit, comma, digit sequence is left unchanged. |
| `TextCleaning.DecimalPointsPercent` | vietnamese_pdf_processor.py:184 | "5,25%" becomes "5.25%". |
| `TextCleaning.DecimalPointsThousands` | vietnamese_pdf_processor.py:184 | "12,500,000" becomes "12.500.000". |
| `TextCleaning.DecimalPointsAlternate` | vietnamese_pdf_processor.py:184 | "1,2,3" becomes "1.2,3", and a second pass gives "1.2.3", so cleaning is not idempotent. |
| `Text.Strip` | vietnamese_pdf_processor.py:118 | The result is the input with a prefix and a suffix removed that consist only of whitespace, and it has no whitespace at either end. All-whitespace text strips to empty. |
| `OcrRows.ToTextBoxCentre` | vietnamese_pdf_processor.py:111-118 | The box text is the stripped text, and the centre lies within the polygon's x and y ranges. |
| `OcrRows.ToTextBox` | vietnamese_pdf_processor.py:117-124 | The box keeps the detection's polygon and confidence. |
| `OcrRows.ToTextBoxExtent` | vietnamese_pdf_processor.py:112-124 | Width and height are the largest differences between two of the polygon's x (or y) coordinates, and they are attained. |
| `OcrRows.TextBoxes` | vietnamese_pdf_processor.py:108-125 | One box per detection whose confidence exceeds 0.5. Every box's confidence exceeds 0.5. |
| `OcrRows.Kept` | vietnamese_pdf_processor.py:110 | A detection gives one box when its confidence exceeds 0.5 and none otherwise. |
| `OcrRows.ConfidentKept` | vietnamese_pdf_processor.py:109-125 | Each confident detection's box appears right after the boxes of the detections before it. |
| `OcrRows.TextBoxesAllConfident` | vietnamese_pdf_processor.py:109-125 | Detections that are all confident give one box each, in order. |
| `OcrRows.GroupRows` | vietnamese_pdf_processor.py:143-162 | Rows are non-empty, and the first row starts with the first box. |
| `OcrRows.GroupRowsFlatten` | vietnamese_pdf_processor.py:143-162 | The rows, concatenated, give back the scanned boxes in order. |
| `OcrRows.GroupRowsNear` | vietnamese_pdf_processor.py:148-157 | Every box is within 20 of its row's first box, the anchor. Consecutive anchors are more than 20 apart. |
| `OcrRows.GroupRowsSorted` | vietnamese_pdf_processor.py:141-162 | On boxes sorted by height, rows are sorted by height and each anchor lies more than 20 above the next. |
| `OcrRows.BandedScan` | vietnamese_pdf_processor.py:148-162 | Boxes laid out in separated bands, each band near its first box, scan back to exactly those bands. |
| `OcrRows.DetectTableStructure` | vietnamese_pdf_processor.py:129-164 | There are no rows exactly when there are no boxes. Every row is non-empty and ordered left to right. |
| `OcrRows.SortRows` | vietnamese_pdf_processor.py:152-161 | One output row per input row. Each output row holds the same boxes as its input row, as a multiset, sorted by horizontal centre. |
| `OcrRows.DetectTableRowPermutation` | vietnamese_pdf_processor.py:152-162 | Each row is a reordering of the scan's row at the same position. |
| `OcrRows.DetectTablePartition` | vietnamese_pdf_processor.py:137-164 | The rows hold every box exactly once. |
| `OcrRows.DetectTableAnchor` | vietnamese_pdf_processor.py:145-157 | A row's smallest vertical centre is its anchor in the vertical scan. |
| `OcrRows.DetectTableRowNear` | vietnamese_pdf_processor.py:148-157 | Every box of a row lies between the row's topmost centre and 20 below it. |
| `OcrRows.DetectTableRowsApart` | vietnamese_pdf_processor.py:141-162 | Rows come out top to bottom, their topmost centres more than 20 apart. |
| `OcrRows.DetectTableBands` | vietnamese_pdf_processor.py:129-164 | Boxes in separated bands come back as exactly those bands, each ordered left to right. An example is heights 100, 130 and 160 giving three rows. |
| `OcrRows.PadRow` | vietnamese_pdf_processor.py:239-241 | The padded row has the target width, keeps the row as its prefix, and holds empty cells after it. |
| `OcrRows.PadRows` | vietnamese_pdf_processor.py:236-241 | The row count is kept, and every row has the widest row's length. Each row keeps its cells as a prefix, followed by empty cells. |
| `OcrRows.PadRowsIdempotent` | vietnamese_pdf_processor.py:236-241 | Padding twice is padding once. |
| `OcrRows.PadRowsCell` | vietnamese_pdf_processor.py:239-241 | A padded cell is the row's cell at that position, or empty past the row's end. |
| `OcrRows.PageTable` | vietnamese_pdf_processor.py:227-241 | A page has a table exactly when it has boxes. The table has one row per detected row, all of one length. |
| `OcrRows.PageTableCell` | vietnamese_pdf_processor.py:231-241 | Each cell is the cleaned text of the row's box at that position, or empty past the row's end. |
| `OcrRows.PageTableCellsClean` | vietnamese_pdf_processor.py:231-240 | Every cell of a page table is clean text: allowed characters only, single plain spaces, and no whitespace at either end. |
| `OcrRows.PageTableAllowed` | vietnamese_pdf_processor.py:233 | Every character of the page table is one the cleaner allows. |
| `OcrLines.TruncToInt` | extract.py:35 | Truncation toward zero: the result lies between zero and the input, less than one away. |
| `OcrLines.TruncToIntExamples` | extract.py:35 | 101.75 truncates to 101, -2.5 to -2 and -3.0 to -3. |
| `OcrLines.MinX` | extract.py:47 | The result is the smallest of the four corners' x. |
| `OcrLines.AddItem` | extract.py:36-43 | Existing line keys are kept. A new line is opened exactly when no line key is within 15 of the item's height. |
| `OcrLines.AddItemJoins` | extract.py:37-41 | The item is appended to the first line, in opening order, whose key is within 15. |
| `OcrLines.AddItemOpens` | extract.py:42-43 | With no line in reach, a new line keyed by the item's own height is appended. |
| `OcrLines.AddItemApart` | extract.py:36-43 | Line keys stay pairwise at least 15 apart. |
| `OcrLines.AddItemNear` | extract.py:36-43 | Every line stays non-empty, with its items within 15 of its key. |
| `OcrLines.AddItemKeepsAll` | extract.py:36-43 | The item is added to exactly one line. |
| `OcrLines.GroupByY` | extract.py:33-43 | Line keys are pairwise at least 15 apart, and every item is within 15 of its line's key. There are no more lines than items. |
| `OcrLines.GroupByYKeepsAll` | extract.py:33-43 | Every item of the page lands in exactly one line. |
| `OcrLines.GroupByYSameHeight` | extract.py:33-43 | Items of one height form a single line with all of them, in arrival order. |
| `OcrLines.FirstLineWins` | extract.py:37-41 | Heights 100, 115 and 108 give two lines, and the third item joins the first line though it is closer to the second. |
| `OcrLines.PageLines` | extract.py:45-48 | There is one text per line, and a non-empty page has lines. |
| `OcrLines.LineTextWords` | extract.py:47-48 | When no item text holds whitespace, the words of a line's text are its items' texts ordered by leftmost x, every item exactly once. |
| `OcrLines.PageLinesOrder` | extract.py:45 | Lines come out in strictly rising key order, at least 15 apart. |
| `OcrLines.FirstGap` | extract.py:61 | The result is the first position of two whitespace characters in a row, or none. |
| `OcrLines.SplitWide` | extract.py:61 | There is more than one field exactly when the line has a run of two or more whitespace characters. No field contains such a run. |
| `OcrLines.SplitJoinWide` | extract.py:61 | Splitting fields joined with two spaces gives the fields back. |
| `OcrLines.SplitWideExample` | extract.py:61 | "12 tháng  5,80%" splits into "12 tháng" and "5,80%". |
| `OcrLines.Collect` | extract.py:55-65 | Every collected row has more than one field. |
| `OcrLines.CollectIsWindow` | extract.py:55-65 | The rows are exactly the multi-field lines from the first start line through the first end line at or after it, both included. |
| `OcrLines.CollectingUntilEnd` | extract.py:59-65 | Once collecting, the rows are the multi-field lines up to and including the first end line. |
| `OcrLines.ExtractRows` | extract.py:24-65 | The document's rows are exactly the lines from the first start line through the first end line at or after it whose split has more than one field, each as its fields. Every row has more than one field. |
| `OcrLines.NoStartNoRows` | extract.py:56-65 | A document without a start line yields no rows. |
| `TemplateResolver.Parse` | extract_template.py:68 | A number token splits into sign, whole digits, point and fraction, and these render back to the token. |
| `TemplateResolver.RenderParse` | extract_template.py:68 | Every well-formed number renders to a token that parses back to it. |
| `TemplateResolver.NumberTokenExamples` | extract_template.py:68-69 | "12", "-3.5", "7." and "4" followed by a newline are values. |
| `TemplateResolver.NullMarkerExamples` | extract_template.py:69 | "n/a", "Null" and "-" are values. |
| `TemplateResolver.RejectedTokenExamples` | extract_template.py:68-69 | "", ".5", "1,5" and "--1" are not values. |
| `TemplateResolver.LabelTokenExample` | extract_template.py:68-69 | A label such as "Kỳ hạn" is not a value. |
| `TemplateResolver.RightmostFrom1` | extract_template.py:63-72 | The value column is the rightmost non-empty matching cell at index one or more, or none. |
| `TemplateResolver.GroupCols` | extract_template.py:79-82 | The labels are non-empty and no more than the cells left of the value. |
| `TemplateResolver.GroupColsStep` | extract_template.py:79-82 | The labels are collected left to right: there are none before the first cell, and each further cell left of the value adds itself exactly when it is non-empty. |
| `TemplateResolver.GroupColsMembers` | extract_template.py:79-82 | Every label is a cell left of the value, and every non-empty cell left of the value is a label. |
| `TemplateResolver.UpdateStackClosed` | extract_template.py:85-91 | No labels leave the stack as it is. Otherwise the stack becomes the labels, cut to the stack's length and padded with empty levels. |
| `TemplateResolver.ProcessRow` | extract_template.py:51-103 | The stack keeps its length, and a row without a value changes nothing. A valued row yields a record exactly when its updated stack is not all empty; the record is that stack with the row's value cell. |
| `TemplateResolver.Resolve` | extract_template.py:51-103 | There is at most one record per row. Every record has the stack's length, a non-empty level and a value token. |
| `TemplateResolver.ResolveAppend` | extract_template.py:51-103 | The records of rows a then b are the records of a followed by those of b read from the stack a leaves behind, and the stack after both is reached the same way. |
| `TemplateResolver.ResolveOne` | extract_template.py:56-103 | One row yields at most one record: exactly when it has a value and leaves a stack that is not all empty. That record is the stack with the row's value cell. |
| `TemplateResolver.ExtractData` | extract_template.py:28-103 | A missing table and a table without rows are errors. Every record has one level fewer than the widest row. |
| `TemplateResolver.ExtractDataErrors` | extract_template.py:28-45 | The reader fails exactly for a missing table, no rows, or rows without cells. |
| `TemplateResolver.SingleColumnNoRecords` | extract_template.py:49-95 | Rows of at most one cell yield no record. |
| `TemplateResolver.UnlabelledRowInherits` | extract_template.py:79-91 | A valued row without labels keeps the ancestry of the rows before it. |
| `TemplateResolver.LabelledRowReplaces` | extract_template.py:79-91 | A valued row with labels replaces the whole ancestry with its labels. |
| `TemplateResolver.FirstRowOfExample` | extract_template.py:51-103 | The row Tiền gửi, Kỳ hạn, 5.5 gives the record (Tiền gửi, Kỳ hạn) with value 5.5. |
| `TemplateResolver.SecondRowOfExample` | extract_template.py:51-103 | The row "", 12 tháng, 6.0 after it gives the record (12 tháng, "") with value 6.0. |
| `TemplateResolver.TwoRowExample` | extract_template.py:38-103 | The two rows above read as those two records. |
| `TemplateResolver.HtmlValues` | extract_template.py:154-166 | Each collected cell is a number token, and there is at most one per row. |
| `TemplateResolver.HtmlValuesAppend` | extract_template.py:154-166 | The numbers collected from rows a then b are those of a followed by those of b. |
| `TemplateResolver.HtmlValuesRow` | extract_template.py:162-166 | A row contributes its rightmost non-empty number cell at index one or more, or nothing exactly when it has none. |
| `TemplateResolver.MapRecord` | extract_template.py:170-185 | A template record comes back unchanged. It fails exactly when some collected number has a mapping and the record has no VALUE. |
| `TemplateResolver.MapTemplate` | extract_template.py:169-185 | The template comes back unchanged. It fails exactly when a mapping is consulted and some record has no VALUE. |
| `TemplateResolver.ExtractWithMapping` | extract_template.py:142-188 | A missing table is an error. With a template, a successful result is the template itself. Without one, the result succeeds exactly when the plain reader does, and its k-th entry is the columns of the k-th record that reader returns. |
| `TemplateResolver.TemplateWins` | extract_template.py:150-188 | Template records that all carry VALUE come back unchanged, whatever the mapping. |
| `Records.Get` | extract_template.py:98-101 | A column is absent exactly when no pair carries it. Otherwise its value is one that the record pairs with it. |
| `Records.RecordFields` | extract_template.py:98-101 | The record has a DATA_GROUP_L(i+1) column per stack level in order, then VALUE. |
| `Records.RecordFieldsValue` | extract_template.py:98-101 | Reading VALUE back from a record's columns gives its value. |
| `Records.RecordFieldsGroup` | extract_template.py:97-101 | Reading column DATA_GROUP_L(i+1) back from a record's columns gives level i of its group stack. |
| `Records.ColumnNameInjective` | extract_template.py:98-99 | Different stack levels have different column names. |
| `SbvResolver.StripPrefix` | extract_sbv_html.py:36-38 | A caption longer than three characters whose second and third characters are a point and a blank loses exactly its first three characters; any other caption is kept. A non-empty caption stays non-empty. |
| `SbvResolver.StripPrefixSuffix` | extract_sbv_html.py:37-38 | What remains is a suffix of the caption, and what was cut is one character followed by a point and a blank. |
| `SbvResolver.RemoveFirst` | extract_sbv_html.py:50 | Only the first occurrence of the character is removed: the text before it and the text after it are kept as they are. A text without the character is unchanged. |
| `SbvResolver.RemoveAll` | extract_sbv_html.py:50 | Every occurrence of the character is removed, and every other character keeps its count. The result is the other characters of the text in their original order. |
| `SbvResolver.NormalizeValueStable` | extract_sbv_html.py:50-51 | A text is a value exactly when its stored form is one; the stored form is null exactly when the text is; storing twice equals storing once. |
| `SbvResolver.DigitsAreValues` | extract_sbv_html.py:50-51 | A plain run of digits is a value, stored as it is. |
| `SbvResolver.MinusInsideAccepted` | extract_sbv_html.py:50-51 | Digits, a minus and digits are accepted as a value, since the check deletes the first minus wherever it is. |
| `SbvResolver.TwoPointsRejected` | extract_sbv_html.py:50 | A text with two points is never a value. |
| `SbvResolver.ValueFrom` | extract_sbv_html.py:48-52 | The result is the normalised text of the first value cell at or after the position, no earlier cell from there being a value; it is none exactly when no cell from there is a value. |
| `SbvResolver.MatchFrom` | extract_sbv_html.py:59 | The search finds the leftmost position where the padding pattern matches, or none exactly when it matches nowhere. |
| `SbvResolver.PaddingPixels` | extract_sbv_html.py:56-61 | A pixel count is only found in a style that contains `padding-left:`. |
| `SbvResolver.PaddingStyleRead` | extract_sbv_html.py:59-61 | `padding-left:`, any blanks, the digits of n and `px` read back as n pixels, whatever follows. |
| `SbvResolver.Level` | extract_sbv_html.py:63-73 | 20 and 57 pixels map to level 1, 90 to level 2, 125 to level 3 and 160 to level 4; every other count maps to 0. The last stack level is never addressed. |
| `SbvResolver.Classify` | extract_sbv_html.py:26-61 | An empty cell is passed over. A grey cell opens a main section. A non-grey cell with a readable padding is indented by that padding. Anything else is passed over. |
| `SbvResolver.Decide` | extract_sbv_html.py:26-83 | The row is decided by the first cell that is not passed over, or is undecided exactly when every cell is passed over. |
| `SbvResolver.SetLevel` | extract_sbv_html.py:100-105 | Shallower levels are kept, the caption is written at the level, and deeper levels are cleared. |
| `SbvResolver.Step` | extract_sbv_html.py:86-115 | The stack keeps six levels with the last empty. A record is emitted exactly for a decided row with a value, and it carries the new stack. An undecided row leaves the stack alone. A main section resets the stack to its stripped caption. An indented row with a value and a positive level writes that level and clears the deeper ones, and otherwise leaves the stack alone. |
| `SbvResolver.ReadRow` | extract_sbv_html.py:15-83 | Rows of fewer than five cells say nothing, and a value is only read for a decided row. |
| `SbvResolver.ReadMain` | extract_sbv_html.py:34-53 | A wide row whose first cell is grey reads as a main section with the first value after it. |
| `SbvResolver.ReadIndented` | extract_sbv_html.py:56-83 | A wide row whose first cell is indented reads as an item at that padding with the first value after it. |
| `SbvResolver.Apply` | extract_sbv_html.py:15-115 | There is at most one record per row, and every record's stack is a valid six-level stack. |
| `SbvResolver.FinalStack` | extract_sbv_html.py:15-115 | The stack stays a valid six-level stack over any rows. |
| `SbvResolver.ApplyAppend` | extract_sbv_html.py:15-115 | Reading rows in two parts, the second from the stack the first leaves, gives the records of the whole. |
| `SbvResolver.MainRowForgets` | extract_sbv_html.py:44-45 | After a main section, the records no longer depend on any earlier row. |
| `SbvResolver.ResolveAppend` | extract_sbv_html.py:15-115 | A page read in two parts gives the records of the whole page. |
| `SbvResolver.ExtractSbv` | extract_sbv_html.py:8-117 | A page without the report table is an error. Every record has six levels, the last one empty. |
| `SbvResolver.ClassifyMain` | extract_sbv_html.py:34 | A non-empty caption in a grey style opens a main section. |
| `SbvResolver.ClassifyItem` | extract_sbv_html.py:56-61 | A non-empty caption in an indenting style is indented by the style's pixels. |
| `SbvResolver.MainRowRead` | extract_sbv_html.py:15-53 | A five-cell grey row with a digit value reads as that main section and value. |
| `SbvResolver.ItemRowRead` | extract_sbv_html.py:15-83 | A five-cell indented row with a digit value reads as that item and value. |
| `SbvResolver.ApplyMainFirst` | extract_sbv_html.py:86-97 | A main section with a value gives its one-level record, and later rows start from that stack. |
| `SbvResolver.MainStep` | extract_sbv_html.py:36-97 | A main section with a value gives the record of its stripped caption alone. |
| `SbvResolver.ItemStep` | extract_sbv_html.py:98-115 | An item with a value at a mapped indentation sets its level, and its record carries that stack. |
| `SbvResolver.AncestryReads` | extract_sbv_html.py:15-83 | A grey row and three indented rows read as one main section and three items with their values. |
| `SbvResolver.AncestryApply` | extract_sbv_html.py:86-115 | Those readings give four records, each with its ancestry, and the last item clears the deeper level. |
| `SbvResolver.SectionAncestry` | extract_sbv_html.py:15-115 | Take a page with a grey row, items at levels 1 and 2, and an item at level 1 again. It reads as four records, each carrying its ancestry, and the second level-1 item clears level 2. |

## Left out

- **Browser automation and DOM access.** Selenium, scrolling the PDF viewer and
  reading span styles are left out: they are network and UI plumbing. Fragments
  are given as `(primary, secondary, text)` triples, already stripped, with
  "Trong đó:" removed.
- **HTML parsing.** BeautifulSoup, `find_all` and `get_text(strip=True)` are left
  out. Rows are given as the stripped texts of their cells, with the `style`
  attribute (empty when absent) for the State Bank reader. A missing table is
  `None`, read as the `Err` of the source's exception; the State Bank reader
  would fail on `None.find_all`.
- **OCR and images.** easyocr, pdf2image and the OpenCV preprocessing are
  foreign calls. Detections are given as polygon, text and confidence.
- **File output.** CSV, Excel and JSON writers, pandas DataFrames, logging and
  printing are left out. The outputs are rows (`seq<seq<string>>`) or records.
- **Floating point.** Coordinates, confidences and means are exact reals.
  Float rounding in the means (for example a sum that is not exactly halved) is
  not modelled. Python's round-half-even and truncation toward zero are
  written out on reals.
- **Character classes.**
  - `\d` and `str.isdigit` are ASCII digits.
  - `\w` is ASCII letters, digits and `_` plus the Latin letter blocks used by
    Vietnamese. Other Unicode letters and marks are treated as non-word
    characters.
  - `str.upper` is ASCII only. `str.lower` covers ASCII and the Vietnamese
    capitals.
- `MofTable.Assemble`: building the DataFrame (mof_extractor.py:237) pads
  every body row shorter than the widest body row with missing values, and
  raises a `ValueError` only when that widest width differs from the
  header's length. The model returns the cleaned rows as they are: it
  neither pads the short rows nor models that error.
- `OcrRows.TextBoxes`: a confident detection with no corner points makes the
  source divide by zero (vietnamese_pdf_processor.py:114). The page's handler
  then skips the rest of that page (vietnamese_pdf_processor.py:263). The
  model requires every confident detection to have a non-empty polygon and
  does not model the skipped page.
- `OcrRows.ToTextBoxCentre`: the contract bounds the centre by the polygon's
  extent. It does not state the centre equals the mean, which the definition
  computes; proofs about the mean's product with the point count were too
  costly for the solver.
- `OcrRows.TextBoxes`: the contract gives the count of boxes, and
  `OcrRows.ConfidentKept` places each confident detection's box. It does not
  state that every box comes from a confident detection.
- `OcrLines.PageLines`: the contract gives the number of lines, and
  `OcrLines.LineTextWords` gives a line's words in left-to-right order only
  when no item text holds whitespace. When an OCR text itself contains
  spaces, the words of the line are not related back to the items.
- **Batch processing, system checks, configuration, demos and tests.** These are
  outside the table-structuring core.
