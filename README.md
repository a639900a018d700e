# TableQCR core, modelled in Dafny

TableQCR photographs a paper table, finds its ruling lines and grid points, has
an online OCR service (Tencent or Baidu) recognise the cells, shows the result in
a table widget and exports it as CSV. It can also locate the "score" columns of
a grade sheet. This project models the integer and string logic behind that:

- **Line merging and the grid-point matrix** (`Helper`, `PointMatrix`, `Lines`).
  Hough segments are sorted and merged into one line per row or column.
  Intersection points are claimed by vertical lines, and each column is pruned
  or completed to one point per horizontal line.
- **Table corners** (`Vertexes`). Segments are classified as horizontal or
  vertical. The outermost of each kind is widened into a seed, and the four
  seed intersections are pushed outwards to give the corners.
- **Recognised cells and the table widget** (`OcrTable`, `Qcr`). Decoded
  service cells are normalised and collected into the cell map, where the first
  cell at a position wins. Cells are written into the widget, and the widget is
  exported as CSV rows.
- **Score columns** (`ScoreColumn`). Each column is scanned top to bottom with
  header resets and score counting. Outlying right edges are erased, with the
  element after each erasure skipped. The candidate rectangles are then sorted
  and merged.
- **Crop box** (`CropBox`). The four draggable corners, the selected corner,
  and the orientation check a drag must pass.
- **Tencent request signing** (`TxSign`, `Text`). Lowercase hex encoding, the
  SHA-256 hex digest, and the canonical request, string to sign, signing-key
  chain and `Authorization` value of the TC3-HMAC-SHA256 scheme.
- **Configuration file** (`Config`). The `key=value` line reader with its
  space removal and first-`=` split, and the three-section writer.

Distances are compared exactly on integers: `|Ax+By+C| / sqrt(A²+B²) < t`
becomes `(Ax+By+C)² < t²(A²+B²)`. The outlier test "outside mean ± standard
deviation" becomes `n(n·r − S)² > Σ(n·r_k − S)²`. C++ integer division and
double-to-int casts truncate toward zero (`Util.TruncDiv`). `std::sort` is
specified only as "a sorted permutation". SHA-256 and HMAC-SHA256 are function
parameters; the current date is a parameter too.

Quirks of the code are kept as written and shown by lemmas:
- `mergeLines` never picks the last sorted segment.
- `formatPointMatrix` computes the synthesised x coordinate with `B*B2 - B2*C`
  (`PointMatrix.SynthSlipExample`).
- The outlier erasure skips the element after each erased one
  (`ScoreColumn.SkipEraseKeepsSkippedOutlier`).
- `are_same_column` depends on the argument order when the left edges are
  equal (`Helper.AreSameColumnOrderMatters`).
- `isOk` checks the corners as they were before the drag
  (`CropBox.AcceptedDragCanLockCorner`).

## Model

| member | source | states |
|---|---|---|
| Util.TruncDiv | QCR/src/qcr.cpp:377-378 | the quotient rounds toward zero: `|q·d| ≤ |n|`, the remainder is smaller than `|d|`, and the sign follows the operands |
| Util.MinOf | QCR/src/qcr.cpp:1000 | the value is an element and no element is smaller |
| Util.MaxOf | QCR/src/qcr.cpp:1001 | the value is an element and no element is larger |
| Util.FirstMinBy | QCR/src/helper.cpp:472-487 | the index has the smallest key, and every earlier index has a strictly larger one (first minimum wins) |
| Util.SortBy | QCR/src/qcr.cpp:1012 | the result is a permutation of the input, sorted by the key (`std::sort`, no stability assumed) |
| Text.Decimal | QCR/src/tx_ocr.cpp:16-21 | non-empty digits, with a leading '-' only for a negative number |
| Text.ParseDecimalRoundTrip | QCR/src/tx_ocr.cpp:16-21 | parsing the decimal text of n gives back n |
| Text.ParseDecimal | QCR/src/config_dialog.cpp:60-62 | definition of reading a decimal number as `toInt` does; its properties are stated in Text.ParseDecimalRoundTrip and Config.ToIntDecimal |
| Text.DecimalInjective | QCR/src/tx_ocr.cpp:16-21 | different numbers have different decimal texts |
| Text.IndexOf | QCR/src/config_dialog.cpp:46-48 | the index holds the character and no earlier position does |
| Text.Split | QCR/src/config_dialog.cpp:46 | `QString::split`: the parts contain no separator, and there is one more part than separators |
| Text.JoinSplit | QCR/src/config_dialog.cpp:46-51 | joining the split parts with the separator gives back the text |
| Text.SplitJoin | QCR/src/config_dialog.cpp:46-51 | splitting the join of separator-free parts gives back the parts |
| Text.TerminatedJoin | QCR/src/config_dialog.cpp:118-133 | lines each ended by a break are their join followed by one break |
| Text.JoinAvoids | QCR/src/config_dialog.cpp:118-133 | a character in none of the parts, and not the separator, is not in the join |
| Lines.CoefThroughEnds | QCR/src/helper.cpp:395-397 | both ends of a segment satisfy `A·x + B·y + C = 0` for its coefficients, and A = B = 0 exactly for a point segment |
| Lines.Coef | QCR/src/qcr.cpp:360-364 | definition of the line coefficients A, B, C of a segment; its properties are stated in Lines.CoefThroughEnds |
| Lines.DistanceBelow | QCR/src/qcr.cpp:360-366 | definition of the distance test, squared and cross-multiplied; its properties are stated in Lines.HorizontalDistance and Lines.VerticalDistance |
| Lines.CloserThan | QCR/src/helper.cpp:479-485 | definition of "strictly closer", cross-multiplied; its properties are stated in Lines.CloserTransitive and Lines.CloserThanNotCloser |
| Lines.Det | QCR/src/qcr.cpp:368-378 | definition of the determinant of two lines; its properties are stated in Lines.Intersection and Lines.ExactIntersection |
| Lines.HorizontalDistance | QCR/src/qcr.cpp:360-366 | for a horizontal segment, the distance test is `|p.y − y1| < t` |
| Lines.VerticalDistance | QCR/src/qcr.cpp:360-366 | for a vertical segment, the distance test is `|p.x − x1| < t` |
| Lines.CloserTransitive | QCR/src/helper.cpp:479-485 | "strictly closer" between proper lines is transitive, so a running minimum is a minimum |
| Lines.CloserThanNotCloser | QCR/src/helper.cpp:513-517 | a line strictly closer than l2 is strictly closer than any line not closer than l2 |
| Lines.Intersection | QCR/src/qcr.cpp:368-380 | None exactly when the two lines are parallel (zero determinant) |
| Lines.ExactIntersection | QCR/src/qcr.cpp:368-380 | a common integer point of two non-parallel lines is what is returned |
| Lines.AxisAlignedIntersection | QCR/src/qcr.cpp:368-380 | a horizontal and a vertical segment meet at (x of the vertical, y of the horizontal), in either order |
| Helper.AreSameColumn | QCR/src/helper.cpp:215-232 | a true result for proper intervals means they intersect |
| Helper.AreSameColumnSymmetric | QCR/src/helper.cpp:215-232 | with different left edges the result does not depend on the argument order |
| Helper.AreSameColumnOrderMatters | QCR/src/helper.cpp:218-228 | with equal left edges no swap happens, and the order changes the result |
| Helper.ArgLongest | QCR/src/helper.cpp:404-405 | the index of the longest segment of a range, the first one on ties |
| Helper.Reps | QCR/src/helper.cpp:379-406 | the representatives are indices of the sorted input, never the last one |
| Helper.RepsIncreasing | QCR/src/helper.cpp:379-406 | representatives come in strictly increasing index order |
| Helper.RepsCount | QCR/src/helper.cpp:387-389 | there is one representative per boundary index, i.e. per jump above 10 or the last index |
| Helper.RepsNonEmpty | QCR/src/helper.cpp:389 | two or more segments give at least one line |
| Helper.ScanMark | QCR/src/helper.cpp:378-405 | the walk's mark is the longest segment of the current run |
| Helper.ScanReps | QCR/src/helper.cpp:379-406 | what the walk has emitted, plus what the rest of the runs give, is the whole output |
| Helper.MergeRuns | QCR/src/helper.cpp:375-406 | one line per run, the coefficients of the run's longest segment |
| Helper.MergeLines | QCR/src/helper.cpp:367-408 | the caller's vector is left as a sorted permutation, and the output is the coefficients of each run's representative |
| Helper.Transposed | QCR/src/helper.cpp:590-604 | `|vec[0]|` rows of length `|vec|`, with entry (i, j) = vec[j][i] |
| Helper.TransposeTwice | QCR/src/helper.cpp:590-604 | transposing a non-empty rectangular matrix twice gives it back |
| Helper.Transpose | QCR/src/helper.cpp:590-604 | the nested loops build the transpose |
| PointMatrix.NearFarSplit | QCR/src/helper.cpp:440-452 | every pool point is claimed or stays, exactly once |
| PointMatrix.NearFarMembers | QCR/src/helper.cpp:444-450 | claimed points are within distance 20 of the vertical line; the rest are not |
| PointMatrix.ClaimColumn | QCR/src/helper.cpp:436-452 | the erase-while-walking loop yields the near points in order, and leaves the far points in the pool |
| PointMatrix.Without | QCR/src/helper.cpp:489 | erasing one element removes exactly that element from the multiset |
| PointMatrix.Pruned | QCR/src/helper.cpp:466-490 | one point per horizontal line, all taken from the candidates |
| PointMatrix.NearestCandidate | QCR/src/helper.cpp:472-487 | the scan returns the first candidate nearest to the line |
| PointMatrix.PruneColumn | QCR/src/helper.cpp:460-491 | greedy pruning: each line in order takes the remaining candidate nearest to it |
| PointMatrix.NearestLine | QCR/src/helper.cpp:503-520 | for proper lines: no line is strictly closer, and every earlier line is strictly farther (the first nearest line wins) |
| PointMatrix.NearestLineIndex | QCR/src/helper.cpp:503-520 | the scan returns that index |
| PointMatrix.Slots | QCR/src/helper.cpp:498-522 | a filled slot holds a point whose nearest line it is, and every point's nearest slot is filled |
| PointMatrix.PlacePoints | QCR/src/helper.cpp:501-522 | the placement loop yields those slots |
| PointMatrix.SynthY | QCR/src/helper.cpp:533 | the synthesised y is the intersection's y |
| PointMatrix.Synth | QCR/src/helper.cpp:524-535 | definition of the synthesised point for a missing slot; its properties are stated in PointMatrix.SynthY, PointMatrix.SynthExactForVertical and PointMatrix.SynthSlipExample |
| PointMatrix.SynthExactForVertical | QCR/src/helper.cpp:532 | for a line with B = 0 the synthesised point is the intersection |
| PointMatrix.SynthSlipExample | QCR/src/helper.cpp:532 | for a slanted vertical line, the synthesised x differs from the intersection's x |
| PointMatrix.Completed | QCR/src/helper.cpp:525-536 | filled slots keep their point, and empty ones get the synthesised point |
| PointMatrix.CompleteSlots | QCR/src/helper.cpp:525-536 | the completion loop yields that column |
| PointMatrix.FillColumn | QCR/src/helper.cpp:494-537 | the short-column branch: place, then complete |
| PointMatrix.ColumnOf | QCR/src/helper.cpp:459-537 | each column has exactly one entry per horizontal line; each entry is a candidate, or synthesised when there were too few |
| PointMatrix.FormatColumn | QCR/src/helper.cpp:433-538 | one pass of the outer loop: claim, sort by y, then prune or complete |
| PointMatrix.FormatColumns | QCR/src/helper.cpp:433-539 | column facts for every vertical line, and every input point is claimed once or left over |
| PointMatrix.ClaimKeepsFar | QCR/src/helper.cpp:441-452 | points claimed by line j were far from every earlier line |
| PointMatrix.FormatPointMatrix | QCR/src/helper.cpp:410-541 | empty below 4 points or 2 lines of either kind; otherwise one column per vertical line, each with one point per horizontal line, built from points within 20 of that line and of no earlier one, and the claimed plus unclaimed points are the input |
| Vertexes.OrientH | QCR/src/qcr.cpp:391-402 | the segment or its reversal, with x1 ≤ x2 |
| Vertexes.OrientV | QCR/src/qcr.cpp:406-416 | the segment or its reversal, with y1 ≤ y2 |
| Vertexes.ClassifyFacts | QCR/src/qcr.cpp:387-418 | every segment lands in exactly one group: horizontal iff `|dy| < |dx|`, oriented |
| Vertexes.Classify | QCR/src/qcr.cpp:387-418 | the classification loop builds both groups in input order |
| Vertexes.Widen | QCR/src/qcr.cpp:444-453 | the widened seed runs from the smaller start to the larger end of the two, and each end is an end of one of them |
| Vertexes.WidenStep | QCR/src/qcr.cpp:442-467 | definition of offering one inner segment to the seeds; its properties are stated in Vertexes.WidenStepExclusive and Vertexes.WidenedMonotone |
| Vertexes.Widened | QCR/src/qcr.cpp:437-468 | definition of the seeds after offering the inner segments in order; its properties are stated in Vertexes.WidenedMonotone and Vertexes.WidenSeeds |
| Vertexes.WidenedMonotone | QCR/src/qcr.cpp:437-468 | the seeds only grow; the first seed's ends are ends of the first or an offered inner segment, the last seed's ends of the last or an offered inner segment |
| Vertexes.WidenStepExclusive | QCR/src/qcr.cpp:442-467 | a segment close to the first seed is never given to the last one |
| Vertexes.WidenSeeds | QCR/src/qcr.cpp:437-468 | the widening loop over the inner segments gives the widened seeds |
| Vertexes.Corners | QCR/src/qcr.cpp:517-530 | four corners exactly when no pair of seeds is parallel |
| Vertexes.AxisAlignedCorners | QCR/src/qcr.cpp:517-530 | for axis-aligned seeds, the rectangle corners offset by (−2,−2), (+4,−2), (+4,+4) and (−2,+4) |
| Vertexes.Assemble | QCR/src/qcr.cpp:421-531 | sorted permutations of both groups; `lines` becomes {vl, hu, vr, hb} and `points` the corners |
| Vertexes.GetVertexes | QCR/src/qcr.cpp:382-531 | with fewer than 2 segments of either kind, `lines` and `points` are unchanged; otherwise as Assemble |
| OcrTable.KeepWordChars | QCR/src/qcr.cpp:834 | only ideographs, Latin letters and digits remain |
| OcrTable.KeepWordCharsIdentity | QCR/src/qcr.cpp:834 | text made only of those characters is unchanged |
| OcrTable.KeepWordCharsMembers | QCR/src/qcr.cpp:834 | a character survives iff it occurs and is a word character |
| OcrTable.TxEntry | QCR/src/qcr.cpp:823-839 | placed at (RowTl, ColTl), spans reaching (RowBr, ColBr), filtered text, outline kept |
| OcrTable.RectPolygon | QCR/src/qcr.cpp:885-891 | the four rectangle corners clockwise from (left, top) |
| OcrTable.BdEntry | QCR/src/qcr.cpp:868-891 | the row is the smallest listed row minus 1, the span reaches the largest (columns alike), with filtered text and rectangle outline |
| OcrTable.TxEntries | QCR/src/qcr.cpp:820-851 | one entry per recognised cell, in order |
| OcrTable.BdEntries | QCR/src/qcr.cpp:864-903 | one entry per recognised cell, in order |
| OcrTable.InsertCell | QCR/src/qcr.cpp:842-850 | a position already holding a cell keeps it; otherwise it gets the cell; nothing else changes |
| OcrTable.CollectEntries | QCR/src/qcr.cpp:819-851 | the insertion loop from an empty map |
| OcrTable.CollectFirstWins | QCR/src/qcr.cpp:842-850 | each position holds the first entry placed there |
| OcrTable.Collect | QCR/src/qcr.cpp:841-850 | definition of the table filled from the entries; its properties are stated in OcrTable.CollectEntries and OcrTable.CollectFirstWins |
| OcrTable.LookupFirst | QCR/src/qcr.cpp:842-850 | a position reads the cell of the first entry there, whatever follows |
| OcrTable.LookupLast | QCR/src/qcr.cpp:842-850 | a later entry fills a position only when no earlier entry holds it |
| OcrTable.LargestTable | QCR/src/qcr.cpp:811-817 | a table of the input with no table larger |
| OcrTable.LargestTableStep | QCR/src/qcr.cpp:815-816 | a later table replaces the choice only when strictly larger |
| OcrTable.PickLargest | QCR/src/qcr.cpp:811-817 | the scan yields the first largest table |
| OcrTable.BuildRow | QCR/src/qcr.cpp:269-277 | append each cell and a comma, then replace the last character by a line break |
| OcrTable.CsvRowReadBack | QCR/src/qcr.cpp:269-277 | a row whose cells hold no comma ends with a break and splits back into its cells |
| OcrTable.CsvRow | QCR/src/qcr.cpp:269-277 | definition of one exported row; its properties are stated in OcrTable.CsvRowReadBack |
| ScoreColumn.Kinds | QCR/src/qcr.cpp:970-974 | at most 3, and 0 iff none of the three kinds occurs |
| ScoreColumn.Utf16Len | QCR/src/qcr.cpp:975 | between the character count and twice it |
| ScoreColumn.Utf16LenBasic | QCR/src/qcr.cpp:975 | basic-plane text counts one unit per character |
| ScoreColumn.MarksImpliesHeader | QCR/src/qcr.cpp:952-956 | text naming a score heading is a header |
| ScoreColumn.CellBox | QCR/src/qcr.cpp:933-940 | the bounding box of the outline |
| ScoreColumn.ScanStep | QCR/src/qcr.cpp:929-982 | a header resets the boxes to its own, with the top at its bottom; otherwise the box is appended and counted; the score flag never reverts |
| ScoreColumn.ScanKeepsInvariant | QCR/src/qcr.cpp:919-983 | the counters stay within the box count, the boxes are proper, and a flagged column has a box |
| ScoreColumn.Scan | QCR/src/qcr.cpp:919-983 | definition of the row scan of a column; its properties are stated in ScoreColumn.ScanStep, ScoreColumn.ScanKeepsInvariant, ScoreColumn.ScanShortNumbers and ScoreColumn.ScanLongTexts |
| ScoreColumn.AcceptedHasBoxes | QCR/src/qcr.cpp:984-1003 | an accepted column has a box to take bounds of |
| ScoreColumn.Accepted | QCR/src/qcr.cpp:984 | definition of the acceptance test of a scanned column; its properties are stated in ScoreColumn.AcceptedHasBoxes, ScoreColumn.DigitColumnAccepted and ScoreColumn.LongTextRejected |
| ScoreColumn.ColumnCells | QCR/src/qcr.cpp:919-927 | every listed cell is stored at some row of the column |
| ScoreColumn.ScanColumn | QCR/src/qcr.cpp:919-983 | the row loop computes the scan of the column's cells |
| ScoreColumn.ScanCell | QCR/src/qcr.cpp:929-982 | the loop body computes one scan step |
| ScoreColumn.NotAllOutliers | QCR/src/qcr.cpp:986-999 | not every value lies outside mean ± deviation |
| ScoreColumn.Outlier | QCR/src/qcr.cpp:986-992 | definition of a value outside mean ± deviation; its properties are stated in ScoreColumn.NotAllOutliers and ScoreColumn.SkipEraseKeepsSkippedOutlier |
| ScoreColumn.SkipErase | QCR/src/qcr.cpp:990-999 | the kept boxes are a sub-multiset of the boxes |
| ScoreColumn.SkipEraseKeepsInliers | QCR/src/qcr.cpp:990-999 | a box whose right edge is not an outlier is kept |
| ScoreColumn.SkipEraseNonEmpty | QCR/src/qcr.cpp:990-1003 | the filter keeps at least one box, so the bounds exist |
| ScoreColumn.SkipEraseKeepsSkippedOutlier | QCR/src/qcr.cpp:990-999 | right edges 0, 0, 5, 10, 10: the second 0 and the second 10 are outliers yet stay |
| ScoreColumn.SkipPattern | QCR/src/qcr.cpp:990-999 | with outliers at positions 0 and 3 and an inlier at 2, the kept boxes are those at 1, 2 and 4 |
| ScoreColumn.SkipFilter | QCR/src/qcr.cpp:990-999 | the erase-in-a-forward-loop computes SkipErase |
| ScoreColumn.ColumnRect | QCR/src/qcr.cpp:1000-1004 | a proper rectangle containing every kept box |
| ScoreColumn.MergeRects | QCR/src/qcr.cpp:1018-1020 | keeps the left rectangle's column and left edge, and covers both |
| ScoreColumn.Mergeable | QCR/src/qcr.cpp:1015-1016 | definition of two neighbours overlapping by more than half the narrower width; its properties are stated in ScoreColumn.MergedFacts and ScoreColumn.MergedApart |
| ScoreColumn.WiderStaysApart | QCR/src/qcr.cpp:1015-1016 | widening to the right cannot make a rectangle mergeable with its left neighbour |
| ScoreColumn.MergedAt | QCR/src/qcr.cpp:1018-1025 | the pair is replaced by its merge, and the others shift |
| ScoreColumn.MergeAt | QCR/src/qcr.cpp:1013-1027 | a merge keeps order, properness, coverage and the no-mergeable prefix |
| ScoreColumn.Merged | QCR/src/qcr.cpp:1013-1027 | no more rectangles than the input, and none exactly for no input |
| ScoreColumn.MergeUnfold | QCR/src/qcr.cpp:1015-1025 | a merge followed by `--i` leaves the finished prefix plus the pass over the rest unchanged |
| ScoreColumn.KeepUnfold | QCR/src/qcr.cpp:1013-1016 | moving on past an unmergeable pair leaves the output unchanged |
| ScoreColumn.MergeFrom | QCR/src/qcr.cpp:1013-1027 | from any loop state the pass ends sorted, with no mergeable neighbours, covering what the state covered, proper if the state was |
| ScoreColumn.MergedFacts | QCR/src/qcr.cpp:1012-1027 | for input sorted by left edge: no more rectangles, sorted, no mergeable neighbours, every input inside an output rectangle, proper stays proper |
| ScoreColumn.MergedApart | QCR/src/qcr.cpp:1013-1027 | rectangles with no mergeable neighbours pass through unchanged: nothing apart is merged |
| ScoreColumn.MergePass | QCR/src/qcr.cpp:1013-1027 | the loop computes Merged: a mergeable pair is replaced by its merge, which is compared with the next; otherwise the pass moves on |
| ScoreColumn.ColumnCandidate | QCR/src/qcr.cpp:984-1006 | at most one rectangle, for column j, and proper |
| ScoreColumn.ColumnCandidateAccepted | QCR/src/qcr.cpp:984 | a column gives a rectangle iff the header flag is set or `4·cnt_score > cnt_all` |
| ScoreColumn.ColumnCandidateOf | QCR/src/qcr.cpp:984-1006 | the column body computes the candidate |
| ScoreColumn.ShortNumberLooksLikeScore | QCR/src/qcr.cpp:952-982 | a one- or two-digit number looks like a score and is no header |
| ScoreColumn.ScanShortNumbers | QCR/src/qcr.cpp:929-982 | a column of short numbers counts every cell, and each as a score |
| ScoreColumn.DigitColumnAccepted | QCR/src/qcr.cpp:929-984 | a non-empty column of one- and two-digit numbers is a score column |
| ScoreColumn.ScanLongTexts | QCR/src/qcr.cpp:929-982 | texts longer than two units that name no score heading count no score and never set the flag |
| ScoreColumn.LongTextRejected | QCR/src/qcr.cpp:929-984 | a column of such texts is not a score column |
| ScoreColumn.LongHeaderAccepted | QCR/src/qcr.cpp:952-984 | the long header "平时成绩" alone marks its column as a score column |
| ScoreColumn.ColumnRects | QCR/src/qcr.cpp:908-1007 | the column loop collects the candidates in column order |
| ScoreColumn.CandidatesFacts | QCR/src/qcr.cpp:908-1007 | at most one proper rectangle per column, in increasing column order |
| Qcr.RowTexts | QCR/src/qcr.cpp:270-275 | a missing item reads as the empty text |
| Qcr.TableLines | QCR/src/qcr.cpp:267-279 | the file's lines are the comma-joined rows |
| Qcr.TableCsvTerminated | QCR/src/qcr.cpp:267-279 | the export is its lines, each ended by a break |
| Qcr.TableCsv | QCR/src/qcr.cpp:267-279 | definition of the CSV export of the table; its properties are stated in Qcr.TableCsvTerminated |
| Qcr.ExportReadBack | QCR/src/qcr.cpp:267-279 | a table whose texts hold no comma or break reads back: the lines are the rows and each splits into the row's texts |
| Qcr.Qcr.UpdateTableCell | QCR/src/qcr.cpp:754-777 | the table grows to hold row + rowSpan and col + colSpan, the text is set inside the table, and a span is set for a multi-cell span |
| Qcr.Qcr.TxParseData | QCR/src/qcr.cpp:803-852 | with no table the cell map is unchanged; otherwise it is collected from the largest table |
| Qcr.Qcr.BdParseData | QCR/src/qcr.cpp:854-904 | with a zero form count the map is unchanged; otherwise it is collected from the first form |
| Qcr.Qcr.ExportTableData | QCR/src/qcr.cpp:244-286 | the written text is one CSV row per table row |
| Qcr.Qcr.GetScoreColumn | QCR/src/qcr.cpp:906-1028 | the candidates are appended to the caller's rectangles; the result is the merge pass over a sorted permutation of that list, so it is sorted, has no mergeable neighbours, covers every rectangle, and is empty when the list is |
| CropBox.OutsideRejected | QCR/src/image_widget.cpp:116-122 | a cursor outside the image area is rejected |
| CropBox.NoCornerRejected | QCR/src/image_widget.cpp:140-176 | without a corner index 0..3 nothing is accepted |
| CropBox.IsOkIgnoresTarget | QCR/src/image_widget.cpp:125-173 | inside the image, the answer does not depend on the drag target |
| CropBox.RectangleTurnsOk | QCR/src/image_widget.cpp:142-173 | every corner of an axis-aligned rectangle passes the orientation test |
| CropBox.FirstTurnNeeded | QCR/src/image_widget.cpp:140-146 | a box turning the wrong way at its second corner fails the test for the first |
| CropBox.CornerTurnsOk | QCR/src/image_widget.cpp:140-176 | definition of the turn test at a corner; its properties are stated in CropBox.RectangleTurnsOk and CropBox.FirstTurnNeeded |
| CropBox.IsOkAt | QCR/src/image_widget.cpp:114-178 | definition of the acceptance of a dragged corner; its properties are stated in CropBox.OutsideRejected, CropBox.NoCornerRejected, CropBox.IsOkIgnoresTarget, CropBox.UnitBoxAccepts and CropBox.AcceptedDragCanLockCorner |
| CropBox.UnitBoxAccepts | QCR/src/image_widget.cpp:272-284 | from the initial box every corner can be dragged anywhere in the image |
| CropBox.AcceptedDragCanLockCorner | QCR/src/image_widget.cpp:99-178 | an accepted drag can leave a box whose same corner then fails the test |
| CropBox.ImageWidget.constructor | QCR/src/image_widget.cpp:274-281 | starts with the unit box over the image and no selection |
| CropBox.ImageWidget.InVertex | QCR/src/image_widget.cpp:54-66 | selects the first corner within 10 on both axes; with none, the selection stays |
| CropBox.ImageWidget.UpdatePos | QCR/src/image_widget.cpp:99-112 | only the selected corner moves, and only when the drag is accepted |
| CropBox.ImageWidget.MousePressEvent | QCR/src/image_widget.cpp:13-23 | selects the first corner within 10 of the cursor, keeps the selection when none is near, and moves the selected corner to the cursor without the drag test |
| CropBox.ImageWidget.MouseMoveEvent | QCR/src/image_widget.cpp:25-28 | as UpdatePos |
| CropBox.ImageWidget.MouseReleaseEvent | QCR/src/image_widget.cpp:30-34 | the last move as UpdatePos, then no selection |
| TxSign.RawText | QCR/src/tx_ocr.cpp:64-71 | the digest written out byte by byte reads back as the digest |
| TxSign.LutDigit | QCR/src/tx_ocr.cpp:76 | each table entry is a lowercase hex digit whose value is its position |
| TxSign.HexPair | QCR/src/tx_ocr.cpp:84-85 | two hex digits whose value is the byte, high nibble first |
| TxSign.HexOfBytes | QCR/src/tx_ocr.cpp:81-86 | twice as long, all hex, and digits 2i..2i+1 encode byte i |
| TxSign.HexDecode | QCR/src/tx_ocr.cpp:81-86 | one byte per digit pair |
| TxSign.HexRoundTrip | QCR/src/tx_ocr.cpp:81-86 | decoding the encoding gives back the bytes |
| TxSign.HexInjective | QCR/src/tx_ocr.cpp:81-86 | different inputs have different encodings |
| TxSign.HexEncode | QCR/src/tx_ocr.cpp:74-88 | the loop computes the lowercase base16 encoding of the input's bytes |
| TxSign.Sha256Hex | QCR/src/tx_ocr.cpp:23-38 | 64 lowercase hex digits, two per digest byte |
| TxSign.CanonicalRequestFields | QCR/src/tx_ocr.cpp:101-110 | the six fields POST, "/", "", the headers, the signed headers and the payload hash, joined by line breaks |
| TxSign.CanonicalRequestInjective | QCR/src/tx_ocr.cpp:101-110 | different payload hashes give different canonical requests |
| TxSign.StringToSignLines | QCR/src/tx_ocr.cpp:114-119 | four lines: algorithm, timestamp (parsing back to it), scope and request hash |
| TxSign.AuthorizationForm | QCR/src/tx_ocr.cpp:90-139 | `TC3-HMAC-SHA256 Credential=<id>/<date>/ocr/tc3_request, SignedHeaders=content-type;host, Signature=<sig>`, where sig is the 64-digit hex HMAC of the string to sign under the key chain |
| TxSign.CanonicalRequest | QCR/src/tx_ocr.cpp:101-110 | definition of the canonical request; its properties are stated in TxSign.CanonicalRequestFields and TxSign.CanonicalRequestInjective |
| TxSign.RequestHash | QCR/src/tx_ocr.cpp:107-118 | definition of the hex digest of the canonical request built around the payload's hex digest; its form is stated in TxSign.Sha256Hex |
| TxSign.StringToSign | QCR/src/tx_ocr.cpp:115-119 | definition of the string to sign; its properties are stated in TxSign.StringToSignLines |
| TxSign.SigningKey | QCR/src/tx_ocr.cpp:124-127 | definition of the derived signing key; its use is stated in TxSign.AuthorizationForm |
| TxSign.Signature | QCR/src/tx_ocr.cpp:128 | definition of the hex signature; its use is stated in TxSign.AuthorizationForm |
| TxSign.Authorization | QCR/src/tx_ocr.cpp:90-139 | definition of the Authorization header; its properties are stated in TxSign.AuthorizationForm |
| Config.SetValue | QCR/src/config_dialog.cpp:59-62 | the spin box's range is kept, the value is clamped into it, and an in-range value is taken as it is |
| Config.FindText | QCR/src/config_dialog.cpp:56 | the first item with the text, or −1 iff there is none |
| Config.ToInt | QCR/src/config_dialog.cpp:60 | the value is in int32 range |
| Config.ToIntDecimal | QCR/src/config_dialog.cpp:91-92 | an int32 written in decimal reads back as itself |
| Config.KeyOf | QCR/src/config_dialog.cpp:54-80 | a recognised key is the name of the key it selects |
| Config.KeyOfName | QCR/src/config_dialog.cpp:54-80 | a key is recognised as k iff it is k's name |
| Config.NamePlain | QCR/src/config_dialog.cpp:119-133 | no written key contains a space, '=' or a line break |
| Config.SetOverrides | QCR/src/config_dialog.cpp:54-80 | a later value for a key replaces the earlier one |
| Config.Set | QCR/src/config_dialog.cpp:54-80 | definition of storing one value under a key; its properties are stated in Config.SetOverrides and Config.LineSets |
| Config.RemoveSpaces | QCR/src/config_dialog.cpp:45 | no space is left and every other character keeps its count |
| Config.SplitKeyValue | QCR/src/config_dialog.cpp:45-51 | the key is the text before the first '=' and the value everything after it, both space-free |
| Config.LoadStopsAtEmpty | QCR/src/config_dialog.cpp:38-42 | lines after the first empty one are ignored |
| Config.LoadCons | QCR/src/config_dialog.cpp:38-82 | a non-empty line is applied, then the rest are read |
| Config.LoadAppend | QCR/src/config_dialog.cpp:38-82 | reading a + b with no empty line in a is reading a, then b |
| Config.Load | QCR/src/config_dialog.cpp:38-82 | definition of reading the lines in order; its properties are stated in Config.LoadStopsAtEmpty, Config.LoadCons and Config.LoadAppend |
| Config.HeaderLine | QCR/src/config_dialog.cpp:43 | a line without '=' changes nothing |
| Config.ApplyLine | QCR/src/config_dialog.cpp:43-80 | definition of reading one line; its properties are stated in Config.HeaderLine and Config.LineSets |
| Config.KeyLineSplits | QCR/src/config_dialog.cpp:119-133 | a written line splits back into its key's name and its value |
| Config.LineSets | QCR/src/config_dialog.cpp:43-80 | reading a written line sets exactly that key to that value |
| Config.ConfigFileLines | QCR/src/config_dialog.cpp:118-133 | the file splits into the [normal], [bd] and [tx] lines in the written order, then an empty last piece |
| Config.ConfigLines | QCR/src/config_dialog.cpp:118-133 | definition of the lines written for the dialog; its properties are stated in Config.ConfigFileLines and Config.SaveThenLoad |
| Config.ConfigFile | QCR/src/config_dialog.cpp:118-133 | definition of the written file; its properties are stated in Config.ConfigFileLines, Config.SaveThenLoad and Config.SaveThenLoadSame |
| Config.SaveThenLoad | QCR/src/config_dialog.cpp:38-133 | reading a written file sets the combo box to the first matching item, the spin boxes to the clamped values and the line edits to the written texts |
| Config.SaveThenLoadSame | QCR/src/config_dialog.cpp:38-133 | with space- and break-free texts, in-range spin values and a first-matching selection, reading back the written file leaves the dialog unchanged |
| Config.ConfigDialog.LoadConfig | QCR/src/config_dialog.cpp:25-86 | a missing file leaves the dialog as it was; otherwise the lines are applied in order up to the first empty one |

## Left out

- Image processing with OpenCV (edge detection, Hough transform, contours, warping, image files) is not modelled; it works on floating-point images in a foreign library.
- `calAveSd` is not modelled as written. Its square root and double arithmetic are replaced by the exact integer outlier test; floating-point rounding at the boundary is not modelled.
- Networking is not modelled: `bd_ocr.cpp`, the curl requests in `tx_ocr.cpp`, the token request and the polling loop.
- SHA-256 and HMAC-SHA256 internals are not modelled. They are function parameters returning 32-byte digests.
- `get_data` (`gmtime`/`strftime`) is not modelled; the date text is a parameter.
- JSON parsing is not modelled. The parsers take the decoded fields (`TxCell`, `BdCell`, table lists, the form count).
- Threads and the UI are not modelled: painting, dialogs, message boxes, logging and `updateTable`'s iteration over the JSON object.
- `abs2rel`/`rel2abs` and `getNeareastPoint` use double scaling and slopes; the crop box is kept in absolute pixels only.
- `digits_classify.cpp`, `loading_animation.cpp`, `about_dialog.cpp`, `my_message_box.cpp` and `main.cpp` are not part of this model.
- `optimize()` is not defined in the repository's files; it is not part of this model.
- Vertexes.GetVertexes: when two seeds are parallel, the C++ code casts an infinite or undefined quotient to int (undefined behaviour). The model leaves `points` unchanged in that case.
- PointMatrix.Slots, PointMatrix.Completed, PointMatrix.FillColumn: the source marks an empty slot with the ordinary point value `cv::Point(-1. - 1)` (helper.cpp:498), a one-argument call on the number -2.0 rather than the point (-1, -1), and at helper.cpp:527-534 any slot equal to that marker is taken as missing, so a real point equal to the marker is overwritten by the synthesised point; the model keeps empty slots apart with `Option` and does not capture this collision.
- PointMatrix.FormatPointMatrix: requires every vertical and horizontal line pair to be non-parallel, because the synthesised point divides by their determinant.
- Helper.MergeLines: requires a non-empty input; the C++ code reads `lines[0]` unconditionally.
- Helper.Transpose: requires a non-empty matrix whose rows are at least as long as the first; the C++ code reads `vec[0]`.
- Lines.Intersection: each coordinate is the exact integer quotient truncated toward zero; double rounding of very large coordinates is not modelled.
- ScoreColumn.Utf16Len: counts characters above U+FFFF as two units; Dafny strings hold code points, not UTF-16 units.
- Qcr.Qcr.UpdateTableCell: items are a map from positions to texts, and item objects are not modelled; Qt's refusal of negative counts is not modelled; `spans` records the span requests made at qcr.cpp:776, not the widget's span state — `QTableWidget::setSpan` ignores non-positive extents and anchors inside another span, and that is not modelled.
- OcrTable.KeepWordChars: the regular expression's ideograph range is taken as U+4E00..U+9FA5 on code points.
- Text.ParseDecimal: `QString::toInt` also accepts a leading '+' and surrounding whitespace; the model accepts only an optional '-' and digits.
- Config.ToInt: out-of-range and malformed numbers give 0, as `toInt` does; a leading '+' and surrounding whitespace are not accepted (see Text.ParseDecimal).
- Config.SetValue: the spin boxes' ranges come from the dialog's form file, which is not part of this model; they are fields of the state.
- Config.ConfigDialog.LoadConfig: the file is given as its text or None. Failing to open it, and "\r\n" line endings, are not modelled.
- TxSign.Bytes: characters are bytes by their code modulo 256, as a `std::string` holds them; UTF-8 encoding of the payload is not modelled.
- Qcr.Qcr.ExportTableData: the file is written through a GB18030 text codec; the model returns the characters, and the encoding is not modelled.
- Qcr.Qcr.GetScoreColumn: requires every stored cell to have a non-empty outline. The C++ code takes `min_element` of an empty outline and dereferences the end iterator (undefined behaviour); that case is not modelled.
- OcrTable.BdEntry: requires non-empty row and column lists (`Locatable`). `Qcr.Qcr.BdParseData` asks the same of every cell. The C++ code dereferences the end iterator of an empty list (undefined behaviour); that case is not modelled.
