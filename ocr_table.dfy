/** The recognised table as the OCR services return it, after JSON decoding: one
    record per cell, normalised to its top-left grid position, its spans, its
    filtered text and its outline, and collected into a row -> column -> cell
    map in which the first cell seen for a position is kept. Also the CSV text
    of one table row. */
module OcrTable {
  import opened Util
  import opened Lines
  import opened Text

  // ---------------------------------------------------------------------------
  // Cell text

  /** A CJK unified ideograph in the range U+4E00..U+9FA5. */
  predicate IsCjk(c: char)
  {
    '一' <= c <= '龥'
  }

  predicate IsLatin(c: char)
  {
    ('a' <= c <= 'z') || ('A' <= c <= 'Z')
  }

  /** The characters a cell's text keeps: ideographs, Latin letters and digits. */
  predicate IsWordChar(c: char)
  {
    IsCjk(c) || IsLatin(c) || IsDigit(c)
  }

  /** Removes every run of other characters, keeping the rest in order. */
  function KeepWordChars(s: string): (r: string)
    ensures |r| <= |s|
    ensures forall i :: 0 <= i < |r| ==> IsWordChar(r[i])
  {
    if s == [] then []
    else
      var rest := KeepWordChars(s[..|s| - 1]);
      if IsWordChar(s[|s| - 1]) then rest + [s[|s| - 1]] else rest
  }

  /** Text made only of kept characters passes through unchanged; in particular
      filtering twice is filtering once. */
  lemma {:induction false} KeepWordCharsIdentity(s: string)
    requires forall i :: 0 <= i < |s| ==> IsWordChar(s[i])
    ensures KeepWordChars(s) == s
  {
    if s != [] {
      KeepWordCharsIdentity(s[..|s| - 1]);
      assert s[..|s| - 1] + [s[|s| - 1]] == s;
    }
  }

  /** A character of the text is kept exactly when it is a word character. */
  lemma {:induction false} KeepWordCharsMembers(s: string, c: char)
    ensures c in KeepWordChars(s) <==> c in s && IsWordChar(c)
  {
    if s != [] {
      KeepWordCharsMembers(s[..|s| - 1], c);
      assert s == s[..|s| - 1] + [s[|s| - 1]];
    }
  }

  // ---------------------------------------------------------------------------
  // Cell records

  /** A stored cell: its spans, its text and its outline. */
  datatype Cell = Cell(rowSpan: int, colSpan: int, text: string, polygon: seq<Point>)

  /** A cell placed at a grid position. */
  datatype Entry = Entry(row: int, col: int, cell: Cell)

  /** A cell of the Tencent service: top-left and bottom-right grid positions,
      text and outline. */
  datatype TxCell = TxCell(rowTl: int, colTl: int, rowBr: int, colBr: int, text: string, polygon: seq<Point>)

  /** A cell of the Baidu service: the grid rows and columns it covers (counted
      from 1), its word and its rectangle. */
  datatype BdCell = BdCell(rows: seq<int>, cols: seq<int>, word: string, left: int, top: int, width: int, height: int)

  /** Tencent cells keep their top-left position; spans are the differences of
      the bottom-right and top-left positions. */
  function TxEntry(c: TxCell): (e: Entry)
    ensures e.row == c.rowTl && e.col == c.colTl
    ensures e.row + e.cell.rowSpan == c.rowBr && e.col + e.cell.colSpan == c.colBr
    ensures e.cell.text == KeepWordChars(c.text) && e.cell.polygon == c.polygon
  {
    Entry(c.rowTl, c.colTl, Cell(c.rowBr - c.rowTl, c.colBr - c.colTl, KeepWordChars(c.text), c.polygon))
  }

  /** The rectangle's corners clockwise from (left, top). */
  function RectPolygon(left: int, top: int, width: int, height: int): (p: seq<Point>)
    ensures |p| == 4 && p[0] == Point(left, top) && p[2] == Point(left + width, top + height)
    ensures p[1] == Point(p[2].x, p[0].y) && p[3] == Point(p[0].x, p[2].y)
  {
    [Point(left, top), Point(left + width, top), Point(left + width, top + height), Point(left, top + height)]
  }

  /** A Baidu cell names at least one row and one column: their smallest and
      largest are taken without a check. */
  predicate Locatable(c: BdCell)
  {
    |c.rows| >= 1 && |c.cols| >= 1
  }

  /** Baidu cells are placed at their smallest row and column, made 0-based; the
      span reaches the largest covered row (column). */
  function BdEntry(c: BdCell): (e: Entry)
    requires Locatable(c)
    ensures forall k :: 0 <= k < |c.rows| ==> e.row < c.rows[k] <= e.row + e.cell.rowSpan
    ensures forall k :: 0 <= k < |c.cols| ==> e.col < c.cols[k] <= e.col + e.cell.colSpan
    ensures e.row + 1 in c.rows && e.row + e.cell.rowSpan in c.rows
    ensures e.col + 1 in c.cols && e.col + e.cell.colSpan in c.cols
    ensures e.cell.text == KeepWordChars(c.word)
    ensures e.cell.polygon == RectPolygon(c.left, c.top, c.width, c.height)
  {
    var row := MinOf(c.rows) - 1;
    var col := MinOf(c.cols) - 1;
    Entry(row, col, Cell(MaxOf(c.rows) - row, MaxOf(c.cols) - col, KeepWordChars(c.word), RectPolygon(c.left, c.top, c.width, c.height)))
  }

  function TxEntries(cells: seq<TxCell>): (es: seq<Entry>)
    ensures |es| == |cells| && forall k :: 0 <= k < |cells| ==> es[k] == TxEntry(cells[k])
  {
    seq(|cells|, k requires 0 <= k < |cells| => TxEntry(cells[k]))
  }

  function BdEntries(cells: seq<BdCell>): (es: seq<Entry>)
    requires forall k :: 0 <= k < |cells| ==> Locatable(cells[k])
    ensures |es| == |cells| && forall k :: 0 <= k < |cells| ==> es[k] == BdEntry(cells[k])
  {
    seq(|cells|, k requires 0 <= k < |cells| && Locatable(cells[k]) => BdEntry(cells[k]))
  }

  // ---------------------------------------------------------------------------
  // The row -> column -> cell map

  type OcrResult = map<int, map<int, Cell>>

  function Get(res: OcrResult, row: int, col: int): Option<Cell>
  {
    if row in res && col in res[row] then Some(res[row][col]) else None
  }

  /** Adds a row when it is missing, then inserts the cell unless the position is
      taken: an insertion into a JSON object never replaces an existing key. */
  function InsertCell(res: OcrResult, e: Entry): (r: OcrResult)
    ensures Get(r, e.row, e.col) == if Get(res, e.row, e.col).Some? then Get(res, e.row, e.col) else Some(e.cell)
    ensures forall row, col :: (row != e.row || col != e.col) ==> Get(r, row, col) == Get(res, row, col)
  {
    var cells := if e.row in res then res[e.row] else map[];
    if e.col in cells then res else res[e.row := cells[e.col := e.cell]]
  }

  /** The map after inserting the entries in order into an empty one. */
  function Collect(es: seq<Entry>): OcrResult
  {
    if es == [] then map[] else InsertCell(Collect(es[..|es| - 1]), es[|es| - 1])
  }

  /** The first entry placed at (row, col), if any. */
  function Lookup(es: seq<Entry>, row: int, col: int): (r: Option<Cell>)
    ensures r.None? <==> forall k :: 0 <= k < |es| ==> es[k].row != row || es[k].col != col
  {
    if es == [] then None
    else if es[0].row == row && es[0].col == col then Some(es[0].cell)
    else
      var r := Lookup(es[1..], row, col);
      assert forall k :: 1 <= k < |es| ==> es[k] == es[1..][k - 1];
      r
  }

  /** The insertion loop of the parsers, starting from an empty map. */
  method CollectEntries(entries: seq<Entry>) returns (res: OcrResult)
    ensures res == Collect(entries)
  {
    res := map[];
    var k := 0;
    while k < |entries|
      invariant 0 <= k <= |entries|
      invariant res == Collect(entries[..k])
    {
      CollectSnoc(entries, k);
      res := InsertCell(res, entries[k]);
      k := k + 1;
    }
    assert entries[..k] == entries;
  }

  lemma CollectSnoc(entries: seq<Entry>, k: int)
    requires 0 <= k < |entries|
    ensures Collect(entries[..k + 1]) == InsertCell(Collect(entries[..k]), entries[k])
  {
    assert entries[..k + 1][..k] == entries[..k];
  }

  /** Lookup finds the cell of the first entry at the position. */
  lemma {:induction false} LookupFirst(es: seq<Entry>, row: int, col: int, k: int)
    requires 0 <= k < |es| && es[k].row == row && es[k].col == col
    requires forall m :: 0 <= m < k ==> es[m].row != row || es[m].col != col
    ensures Lookup(es, row, col) == Some(es[k].cell)
    decreases k
  {
    if k > 0 {
      LookupFirst(es[1..], row, col, k - 1);
    }
  }

  /** Lookup over the entries read from the back: the last entry decides only if
      no earlier one holds the position. */
  lemma {:induction false} LookupLast(es: seq<Entry>, row: int, col: int)
    requires |es| >= 1
    ensures var init := es[..|es| - 1]; var e := es[|es| - 1];
      Lookup(es, row, col) == if Lookup(init, row, col).Some? then Lookup(init, row, col)
        else if e.row == row && e.col == col then Some(e.cell) else None
    decreases |es|
  {
    if |es| > 1 && !(es[0].row == row && es[0].col == col) {
      LookupLast(es[1..], row, col);
      assert es[1..][..|es[1..]| - 1] == es[..|es| - 1][1..];
    }
  }

  /** Collecting keeps, for every position, the first cell placed there. */
  lemma {:induction false} CollectFirstWins(es: seq<Entry>, row: int, col: int)
    ensures Get(Collect(es), row, col) == Lookup(es, row, col)
    decreases |es|
  {
    if es != [] {
      CollectFirstWins(es[..|es| - 1], row, col);
      LookupLast(es, row, col);
    }
  }

  // ---------------------------------------------------------------------------
  // The Tencent table choice

  function CellCount(t: seq<TxCell>): int
  {
    0 - |t|
  }

  /** The first table with the most cells. */
  function LargestTable(tables: seq<seq<TxCell>>): (t: seq<TxCell>)
    requires |tables| >= 1
    ensures t in tables
    ensures forall k :: 0 <= k < |tables| ==> |tables[k]| <= |t|
  {
    tables[FirstMinBy(tables, CellCount)]
  }

  /** The scan over the tables, starting from no cells. */
  method PickLargest(tables: seq<seq<TxCell>>) returns (cells: seq<TxCell>)
    requires |tables| >= 1
    ensures cells == LargestTable(tables)
  {
    cells := [];
    var index := 0;
    while index < |tables|
      invariant 0 <= index <= |tables|
      invariant index == 0 ==> cells == []
      invariant index >= 1 ==> cells == LargestTable(tables[..index])
    {
      if index >= 1 {
        LargestTableStep(tables, index);
      } else {
        assert LargestTable(tables[..1]) == tables[0];
      }
      if |tables[index]| > |cells| {
        cells := tables[index];
      }
      index := index + 1;
    }
    assert tables[..index] == tables;
  }

  /** The scan over the tables: a later table replaces the choice only when it
      has strictly more cells. */
  lemma LargestTableStep(tables: seq<seq<TxCell>>, i: int)
    requires 1 <= i < |tables|
    ensures LargestTable(tables[..i + 1]) ==
      if |tables[i]| > |LargestTable(tables[..i])| then tables[i] else LargestTable(tables[..i])
  {
    FirstMinByStep(tables, CellCount, i);
    var m := FirstMinBy(tables[..i], CellCount);
    assert tables[..i + 1][m] == tables[..i][m];
  }

  // ---------------------------------------------------------------------------
  // CSV rows

  /** A row of cells: joined by commas and ended by a line break; a table with no
      columns gives an empty line without a break, because replacing the character
      before position 0 changes nothing. */
  function CsvRow(texts: seq<string>): string
  {
    if texts == [] then "" else Join(texts, ',') + "\n"
  }

  /** Builds a row as the export loop does: appends each cell and a comma, then
      replaces the last character by a line break when there is one. */
  method BuildRow(texts: seq<string>) returns (line: string)
    ensures line == CsvRow(texts)
  {
    line := "";
    var j := 0;
    while j < |texts|
      invariant 0 <= j <= |texts|
      invariant line == Terminated(texts[..j], ',')
    {
      assert texts[..j + 1][..j] == texts[..j];
      line := line + texts[j] + ",";
      j := j + 1;
    }
    assert texts[..j] == texts;
    if |line| >= 1 {
      TerminatedJoin(texts, ',');
      line := line[..|line| - 1] + "\n";
    }
  }

  /** A row whose cells hold no comma reads back into the same cells. */
  lemma CsvRowReadBack(texts: seq<string>)
    requires |texts| >= 1
    requires forall k :: 0 <= k < |texts| ==> ',' !in texts[k]
    ensures var row := CsvRow(texts);
      |row| >= 1 && row[|row| - 1] == '\n' && Split(row[..|row| - 1], ',') == texts
  {
    var row := CsvRow(texts);
    assert row[..|row| - 1] == Join(texts, ',');
    SplitJoin(texts, ',');
  }
}
