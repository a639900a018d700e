/** The main window's table state: the recognised cell map and the table widget
    it is shown in (row and column counts, cell texts, spans). The parsers fill
    the cell map from decoded service replies, table cells are written into the
    widget, the widget is exported as CSV, and score columns are located from the
    cell map. */
module Qcr {
  import opened Util
  import opened Text
  import opened OcrTable
  import opened ScoreColumn

  /** The text of every cell of row `i`, empty where the widget has no item. */
  function RowTexts(items: map<(int, int), string>, i: int, cols: nat): (texts: seq<string>)
    ensures |texts| == cols
    ensures forall j :: 0 <= j < cols ==> texts[j] == if (i, j) in items then items[(i, j)] else ""
  {
    seq(cols, j requires 0 <= j < cols => if (i, j) in items then items[(i, j)] else "")
  }

  /** The exported file: one CSV row per table row. */
  function TableCsv(items: map<(int, int), string>, rows: nat, cols: nat): string
  {
    if rows == 0 then "" else TableCsv(items, rows - 1, cols) + CsvRow(RowTexts(items, rows - 1, cols))
  }

  /** The joined cells of each row, as the lines of the file. */
  function TableLines(items: map<(int, int), string>, rows: nat, cols: nat): (lines: seq<string>)
    requires cols >= 1
    ensures |lines| == rows && forall i :: 0 <= i < rows ==> lines[i] == Join(RowTexts(items, i, cols), ',')
  {
    seq(rows, i requires 0 <= i < rows => Join(RowTexts(items, i, cols), ','))
  }

  lemma {:induction false} TableCsvTerminated(items: map<(int, int), string>, rows: nat, cols: nat)
    requires cols >= 1
    ensures TableCsv(items, rows, cols) == Terminated(TableLines(items, rows, cols), '\n')
    decreases rows
  {
    if rows > 0 {
      TableCsvTerminated(items, rows - 1, cols);
      assert TableLines(items, rows, cols)[..rows - 1] == TableLines(items, rows - 1, cols);
    }
  }

  /** A table with at least one row and column, whose texts hold neither commas nor
      line breaks, reads back from its export: the file ends with a line break,
      its lines are the rows, and each line splits into the row's texts. */
  lemma ExportReadBack(items: map<(int, int), string>, rows: nat, cols: nat)
    requires rows >= 1 && cols >= 1
    requires forall k :: k in items ==> ',' !in items[k] && '\n' !in items[k]
    ensures var csv := TableCsv(items, rows, cols);
      && |csv| >= 1 && csv[|csv| - 1] == '\n'
      && Split(csv[..|csv| - 1], '\n') == TableLines(items, rows, cols)
      && forall i :: 0 <= i < rows ==> Split(TableLines(items, rows, cols)[i], ',') == RowTexts(items, i, cols)
  {
    var lines := TableLines(items, rows, cols);
    TableCsvTerminated(items, rows, cols);
    TerminatedJoin(lines, '\n');
    forall i | 0 <= i < rows
      ensures '\n' !in lines[i] && Split(lines[i], ',') == RowTexts(items, i, cols)
    {
      var texts := RowTexts(items, i, cols);
      JoinAvoids(texts, ',', '\n');
      SplitJoin(texts, ',');
    }
    var csv := TableCsv(items, rows, cols);
    assert csv[..|csv| - 1] == Join(lines, '\n');
    SplitJoin(lines, '\n');
  }

  class Qcr {
    /** The recognised cells, row -> column -> cell. */
    var ocrResult: OcrResult
    /** The table widget: its size, the text of each item and the spans set on it. */
    var rowCount: nat
    var colCount: nat
    var items: map<(int, int), string>
    var spans: map<(int, int), (int, int)>

    /** Items exist only inside the table. */
    ghost predicate Valid()
      reads this
    {
      forall k :: k in items ==> 0 <= k.0 < rowCount && 0 <= k.1 < colCount
    }

    constructor()
      ensures Valid()
      ensures ocrResult == map[] && rowCount == 0 && colCount == 0 && items == map[] && spans == map[]
    {
      ocrResult := map[];
      rowCount, colCount := 0, 0;
      items, spans := map[], map[];
    }

    /** Writes a cell: the table grows to hold row + rowSpan rows and col + colSpan
        columns, the text is stored when the position lies inside the table, and a
        span is set when the cell covers more than one position. */
    method UpdateTableCell(row: int, col: int, rowSpan: int, colSpan: int, text: string)
      requires Valid()
      modifies this
      ensures Valid()
      ensures rowCount == Max(old(rowCount), row + rowSpan) && colCount == Max(old(colCount), col + colSpan)
      ensures items == if 0 <= row < rowCount && 0 <= col < colCount then old(items)[(row, col) := text] else old(items)
      ensures spans == if rowSpan > 1 || colSpan > 1 then old(spans)[(row, col) := (rowSpan, colSpan)] else old(spans)
      ensures ocrResult == old(ocrResult)
    {
      if rowCount < row + rowSpan {
        rowCount := row + rowSpan;
      }
      if colCount < col + colSpan {
        colCount := col + colSpan;
      }
      if 0 <= row < rowCount && 0 <= col < colCount {
        items := items[(row, col) := text];
      }
      if rowSpan > 1 || colSpan > 1 {
        spans := spans[(row, col) := (rowSpan, colSpan)];
      }
    }

    /** Keeps the table with the most cells (the first on ties) and collects its
        cells; with no table the cell map is left as it was. */
    method TxParseData(tables: seq<seq<TxCell>>)
      modifies this
      ensures |tables| == 0 ==> ocrResult == old(ocrResult)
      ensures |tables| >= 1 ==> ocrResult == Collect(TxEntries(LargestTable(tables)))
      ensures rowCount == old(rowCount) && colCount == old(colCount) && items == old(items) && spans == old(spans)
    {
      if |tables| == 0 {
        return;
      }
      var cells := PickLargest(tables);
      ocrResult := CollectEntries(TxEntries(cells));
    }

    /** With a non-zero form count, collects the cells of the first form; with none
        the cell map is left as it was. */
    method BdParseData(formNum: int, body: seq<BdCell>)
      requires formNum != 0 ==> forall k :: 0 <= k < |body| ==> Locatable(body[k])
      modifies this
      ensures formNum == 0 ==> ocrResult == old(ocrResult)
      ensures formNum != 0 ==> ocrResult == Collect(BdEntries(body))
      ensures rowCount == old(rowCount) && colCount == old(colCount) && items == old(items) && spans == old(spans)
    {
      if formNum == 0 {
        return;
      }
      ocrResult := CollectEntries(BdEntries(body));
    }

    /** The text written to the exported file. */
    method ExportTableData() returns (csv: string)
      ensures csv == TableCsv(items, rowCount, colCount)
    {
      csv := "";
      var i := 0;
      while i < rowCount
        invariant 0 <= i <= rowCount
        invariant csv == TableCsv(items, i, colCount)
      {
        var texts := RowTexts(items, i, colCount);
        var line := BuildRow(texts);
        csv := csv + line;
        i := i + 1;
      }
    }

    /** The score-column rectangles: one candidate per accepted column is
        appended to the caller's rectangles, and unless that leaves none, the
        whole list is sorted by left edge and merged. */
    method GetScoreColumn(init: seq<Rect>) returns (rects: seq<Rect>, ghost sorted: seq<Rect>)
      requires AllOutlined(ocrResult)
      ensures var all := init + Candidates(ocrResult, rowCount, colCount);
        && multiset(sorted) == multiset(all) && SortedBy(sorted, Left)
        && rects == Merged(sorted)
      ensures var all := init + Candidates(ocrResult, rowCount, colCount);
        && |rects| <= |all| && (all == [] ==> rects == [])
        && SortedBy(rects, Left)
        && (forall k :: 1 <= k < |rects| ==> !Mergeable(rects[k - 1], rects[k]))
        && AllCovered(all, rects)
        && (AllProper(init) ==> AllProper(rects))
    {
      var cands := ColumnRects(ocrResult, rowCount, colCount);
      rects := init + cands;
      if |rects| == 0 {
        sorted := [];
        return;
      }
      ghost var all := rects;
      CandidatesFacts(ocrResult, rowCount, colCount);
      var byLeft := SortBy(rects, Left);
      sorted := byLeft;
      rects := MergePass(byLeft);
      MergedFacts(sorted);
      CoveredThroughPermutation(all, sorted, rects);
      ProperThroughPermutation(init, cands, sorted);
    }
  }

  /** Appending the candidates, which are proper, keeps a proper list proper, and
      so does sorting it. */
  lemma ProperThroughPermutation(init: seq<Rect>, cands: seq<Rect>, sorted: seq<Rect>)
    requires AllProper(cands) && multiset(sorted) == multiset(init + cands)
    ensures AllProper(init) ==> AllProper(sorted)
  {
    if AllProper(init) {
      assert AllProper(init + cands) by {
        forall k | 0 <= k < |init + cands| ensures Proper((init + cands)[k]) {
          if k >= |init| {
            assert (init + cands)[k] == cands[k - |init|];
          }
        }
      }
      SortedKeepsProper(init + cands, sorted);
    }
  }

  lemma SortedKeepsProper(rs: seq<Rect>, sorted: seq<Rect>)
    requires AllProper(rs) && multiset(sorted) == multiset(rs)
    ensures AllProper(sorted)
  {
    forall k | 0 <= k < |sorted| ensures Proper(sorted[k]) {
      assert sorted[k] in multiset(sorted);
      assert sorted[k] in multiset(rs);
      var i :| 0 <= i < |rs| && rs[i] == sorted[k];
    }
  }

  lemma CoveredThroughPermutation(rs: seq<Rect>, sorted: seq<Rect>, out: seq<Rect>)
    requires multiset(sorted) == multiset(rs) && AllCovered(sorted, out)
    ensures AllCovered(rs, out)
  {
    forall x | x in rs ensures exists o :: o in out && Covers(o, x) {
      assert x in multiset(rs);
      assert x in sorted;
    }
  }
}
