/** Finding the score columns of a recognised table. Each column is scanned top
    to bottom: a header cell (one naming the usual score headings) restarts the
    count, and a column is a score column when its header says so or when more
    than a quarter of its cells look like scores (at most two characters, digits
    only or mixed kinds). Cells whose right edge is far from the column's mean
    are dropped, the column's bounding rectangle is reported, and overlapping
    rectangles are merged left to right. */
module ScoreColumn {
  import opened Util
  import opened Lines
  import opened Text
  import opened OcrTable

  // ---------------------------------------------------------------------------
  // Cell text

  predicate HasCjk(s: string)
  {
    exists i | 0 <= i < |s| :: IsCjk(s[i])
  }

  predicate HasLatin(s: string)
  {
    exists i | 0 <= i < |s| :: IsLatin(s[i])
  }

  predicate HasDigit(s: string)
  {
    exists i | 0 <= i < |s| :: IsDigit(s[i])
  }

  /** How many of the kinds ideograph, Latin letter and digit occur in the text. */
  function Kinds(s: string): (k: nat)
    ensures k <= 3
    ensures k == 0 <==> !HasCjk(s) && !HasLatin(s) && !HasDigit(s)
  {
    (if HasCjk(s) then 1 else 0) + (if HasLatin(s) then 1 else 0) + (if HasDigit(s) then 1 else 0)
  }

  /** Length in UTF-16 code units: characters beyond U+FFFF take two. */
  function Utf16Len(s: string): (n: nat)
    ensures |s| <= n <= 2 * |s|
  {
    if s == [] then 0 else Utf16Len(s[..|s| - 1]) + (if s[|s| - 1] as int >= 0x1_0000 then 2 else 1)
  }

  /** Text of the basic plane only is as long in code units as in characters. */
  lemma {:induction false} Utf16LenBasic(s: string)
    requires forall i :: 0 <= i < |s| ==> s[i] as int < 0x1_0000
    ensures Utf16Len(s) == |s|
  {
    if s != [] {
      Utf16LenBasic(s[..|s| - 1]);
    }
  }

  /** At most two code units, and either more than one kind of character or digits only. */
  predicate LooksLikeScore(s: string)
  {
    Utf16Len(s) <= 2 && (Kinds(s) > 1 || (Kinds(s) == 1 && HasDigit(s)))
  }

  predicate IsHeaderChar(c: char)
  {
    c == '平' || c == '时' || c == '成' || c == '绩'
  }

  /** The text holds one of the characters of the usual score headings. */
  predicate IsHeader(s: string)
  {
    exists i | 0 <= i < |s| :: IsHeaderChar(s[i])
  }

  /** The text names a score heading outright. */
  predicate MarksScoreColumn(s: string)
  {
    Contains(s, "平时") || Contains(s, "成绩")
  }

  /** A text that names a heading is a header. */
  lemma MarksImpliesHeader(s: string)
    requires MarksScoreColumn(s)
    ensures IsHeader(s)
  {
    if Contains(s, "平时") {
      var i :| 0 <= i <= |s| - 2 && OccursAt(s, "平时", i);
      assert s[i..i + 2][0] == s[i];
    } else {
      var i :| 0 <= i <= |s| - 2 && OccursAt(s, "成绩", i);
      assert s[i..i + 2][0] == s[i];
    }
  }

  // ---------------------------------------------------------------------------
  // Scanning one column

  /** Extent of a cell: left, right, top and bottom. */
  datatype Box = Box(l: int, r: int, t: int, b: int)

  function Xs(ps: seq<Point>): (xs: seq<int>)
    ensures |xs| == |ps| && forall k :: 0 <= k < |ps| ==> xs[k] == ps[k].x
  {
    seq(|ps|, k requires 0 <= k < |ps| => ps[k].x)
  }

  function Ys(ps: seq<Point>): (ys: seq<int>)
    ensures |ys| == |ps| && forall k :: 0 <= k < |ps| ==> ys[k] == ps[k].y
  {
    seq(|ps|, k requires 0 <= k < |ps| => ps[k].y)
  }

  /** The bounding box of a cell's outline. */
  function CellBox(polygon: seq<Point>): (bx: Box)
    requires |polygon| >= 1
    ensures bx.l <= bx.r && bx.t <= bx.b
    ensures forall k :: 0 <= k < |polygon| ==> bx.l <= polygon[k].x <= bx.r && bx.t <= polygon[k].y <= bx.b
  {
    var xs := Xs(polygon);
    var ys := Ys(polygon);
    assert xs[0] == polygon[0].x && ys[0] == polygon[0].y;
    Box(MinOf(xs), MaxOf(xs), MinOf(ys), MaxOf(ys))
  }

  /** Counters and collected boxes of the scan. */
  datatype ScanState = ScanState(cntAll: int, cntScore: int, isScore: bool, boxes: seq<Box>)

  /** One cell of the column. It is counted and its box collected; a header cell
      then restarts everything with its own box, taking its bottom as the top so
      that the header itself lies outside; finally a cell that looks like a score
      is counted as one. */
  function ScanStep(st: ScanState, cell: Cell): (r: ScanState)
    requires |cell.polygon| >= 1
    ensures st.isScore ==> r.isScore
    ensures IsHeader(cell.text) ==> r.boxes == [Box(CellBox(cell.polygon).l, CellBox(cell.polygon).r, CellBox(cell.polygon).b, CellBox(cell.polygon).b)]
    ensures !IsHeader(cell.text) ==> r.boxes == st.boxes + [CellBox(cell.polygon)] && r.cntAll == st.cntAll + 1 && r.isScore == st.isScore
  {
    var bx := CellBox(cell.polygon);
    var counted := ScanState(st.cntAll + 1, st.cntScore, st.isScore, st.boxes + [bx]);
    var restarted := if IsHeader(cell.text) then ScanState(0, 0, st.isScore || MarksScoreColumn(cell.text), [Box(bx.l, bx.r, bx.b, bx.b)]) else counted;
    restarted.(cntScore := restarted.cntScore + if LooksLikeScore(cell.text) then 1 else 0)
  }

  predicate HasOutlines(cells: seq<Cell>)
  {
    forall k :: 0 <= k < |cells| ==> |cells[k].polygon| >= 1
  }

  /** The state after scanning the cells in order. */
  function Scan(cells: seq<Cell>): ScanState
    requires HasOutlines(cells)
  {
    if cells == [] then ScanState(0, 0, false, [])
    else ScanStep(Scan(cells[..|cells| - 1]), cells[|cells| - 1])
  }

  /** Boxes are proper, and both counters stay within the number of boxes (a
      header is a box but not counted); a column marked by its header has a box. */
  ghost predicate ScanInvariant(st: ScanState)
  {
    && 0 <= st.cntAll <= |st.boxes|
    && 0 <= st.cntScore <= |st.boxes|
    && (st.isScore ==> |st.boxes| >= 1)
    && forall k :: 0 <= k < |st.boxes| ==> st.boxes[k].l <= st.boxes[k].r && st.boxes[k].t <= st.boxes[k].b
  }

  lemma {:induction false} ScanKeepsInvariant(cells: seq<Cell>)
    requires HasOutlines(cells)
    ensures ScanInvariant(Scan(cells))
    decreases |cells|
  {
    if cells != [] {
      var init := cells[..|cells| - 1];
      assert HasOutlines(init) by {
        forall k | 0 <= k < |init| ensures |init[k].polygon| >= 1 {
          assert init[k] == cells[k];
        }
      }
      ScanKeepsInvariant(init);
      StepKeepsInvariant(Scan(init), cells[|cells| - 1]);
    }
  }

  lemma StepKeepsInvariant(st: ScanState, cell: Cell)
    requires |cell.polygon| >= 1 && ScanInvariant(st)
    ensures ScanInvariant(ScanStep(st, cell))
  {
    var bx := CellBox(cell.polygon);
    var r := ScanStep(st, cell);
    if !IsHeader(cell.text) {
      assert forall k :: 0 <= k < |st.boxes| ==> r.boxes[k] == st.boxes[k];
      assert r.boxes[|st.boxes|] == bx;
    }
  }

  /** The column is reported when its header named a score heading or when more
      than a quarter of the counted cells look like scores. */
  predicate Accepted(st: ScanState)
  {
    st.isScore || 4 * st.cntScore > st.cntAll
  }

  /** A short number: one or two digits. */
  predicate ShortNumber(s: string)
  {
    1 <= |s| && Utf16Len(s) <= 2 && forall i :: 0 <= i < |s| ==> IsDigit(s[i])
  }

  lemma ShortNumberLooksLikeScore(s: string)
    requires ShortNumber(s)
    ensures LooksLikeScore(s) && !IsHeader(s) && !MarksScoreColumn(s)
  {
    assert IsDigit(s[0]);
    assert !HasCjk(s) && !HasLatin(s);
    if MarksScoreColumn(s) {
      MarksImpliesHeader(s);
    }
  }

  /** Scanning cells that are all short numbers counts every one of them, as a
      score too. */
  lemma {:induction false} ScanShortNumbers(cells: seq<Cell>)
    requires HasOutlines(cells)
    requires forall k :: 0 <= k < |cells| ==> ShortNumber(cells[k].text)
    ensures Scan(cells).cntAll == |cells| && Scan(cells).cntScore == |cells| && !Scan(cells).isScore
    decreases |cells|
  {
    if cells != [] {
      var init := cells[..|cells| - 1];
      assert forall k :: 0 <= k < |init| ==> init[k] == cells[k];
      ScanShortNumbers(init);
      ShortNumberLooksLikeScore(cells[|cells| - 1].text);
    }
  }

  /** A column of one- and two-digit numbers is a score column. */
  lemma DigitColumnAccepted(cells: seq<Cell>)
    requires HasOutlines(cells) && |cells| >= 1
    requires forall k :: 0 <= k < |cells| ==> ShortNumber(cells[k].text)
    ensures Accepted(Scan(cells))
  {
    ScanShortNumbers(cells);
  }

  /** Scanning cells longer than two code units, none of which names a score
      heading, counts no score and never sets the flag. */
  lemma {:induction false} ScanLongTexts(cells: seq<Cell>)
    requires HasOutlines(cells)
    requires forall k :: 0 <= k < |cells| ==> Utf16Len(cells[k].text) > 2 && !MarksScoreColumn(cells[k].text)
    ensures Scan(cells).cntAll >= 0 && Scan(cells).cntScore == 0 && !Scan(cells).isScore
    decreases |cells|
  {
    if cells != [] {
      var init := cells[..|cells| - 1];
      assert forall k :: 0 <= k < |init| ==> init[k] == cells[k];
      ScanLongTexts(init);
    }
  }

  /** A column of texts longer than two code units is no score column, unless
      one of them names a score heading. */
  lemma LongTextRejected(cells: seq<Cell>)
    requires HasOutlines(cells)
    requires forall k :: 0 <= k < |cells| ==> Utf16Len(cells[k].text) > 2 && !MarksScoreColumn(cells[k].text)
    ensures !Accepted(Scan(cells))
  {
    ScanLongTexts(cells);
  }

  /** The exception: a long header naming a score heading marks its column. */
  lemma LongHeaderAccepted(polygon: seq<Point>)
    requires |polygon| >= 1
    ensures var cell := Cell(1, 1, "平时成绩", polygon);
      Utf16Len(cell.text) > 2 && Accepted(Scan([cell]))
  {
    var s := "平时成绩";
    assert OccursAt(s, "平时", 0) by {
      assert s[0..2] == "平时";
    }
    Utf16LenBasic(s);
    var cell := Cell(1, 1, s, polygon);
    assert [cell][..0] == [];
    assert IsHeader(s) by {
      assert IsHeaderChar(s[0]);
    }
  }

  /** An accepted column always has a box to take the bounds of. */
  lemma AcceptedHasBoxes(cells: seq<Cell>)
    requires HasOutlines(cells) && Accepted(Scan(cells))
    ensures |Scan(cells).boxes| >= 1
  {
    ScanKeepsInvariant(cells);
  }

  /** The cells of column `j` in rows 0 .. rowCount - 1, top to bottom, skipping
      positions without a cell. */
  function ColumnCells(res: OcrResult, j: int, rowCount: nat): (cells: seq<Cell>)
    ensures forall k :: 0 <= k < |cells| ==> exists i :: 0 <= i < rowCount && Get(res, i, j) == Some(cells[k])
    decreases rowCount
  {
    if rowCount == 0 then []
    else
      var cells := ColumnCells(res, j, rowCount - 1);
      var c := Get(res, rowCount - 1, j);
      var r := cells + if c.Some? then [c.value] else [];
      assert forall k :: 0 <= k < |cells| ==> r[k] == cells[k];
      r
  }

  /** Every stored cell has an outline. */
  ghost predicate AllOutlined(res: OcrResult)
  {
    forall row, col :: Get(res, row, col).Some? ==> |Get(res, row, col).value.polygon| >= 1
  }

  lemma ColumnOutlined(res: OcrResult, j: int, rowCount: nat)
    requires AllOutlined(res)
    ensures HasOutlines(ColumnCells(res, j, rowCount))
  {
    var cells := ColumnCells(res, j, rowCount);
    forall k | 0 <= k < |cells| ensures |cells[k].polygon| >= 1 {
      var i :| 0 <= i < rowCount && Get(res, i, j) == Some(cells[k]);
    }
  }

  /** The row loop over one column. */
  method ScanColumn(res: OcrResult, j: int, rowCount: nat) returns (st: ScanState)
    requires AllOutlined(res)
    ensures st == Scan(ColumnCells(res, j, rowCount))
  {
    st := ScanState(0, 0, false, []);
    var i := 0;
    while i < rowCount
      invariant 0 <= i <= rowCount
      invariant HasOutlines(ColumnCells(res, j, i))
      invariant st == Scan(ColumnCells(res, j, i))
    {
      st := ScanRow(res, j, i, st);
      i := i + 1;
    }
  }

  method ScanRow(res: OcrResult, j: int, i: nat, st: ScanState) returns (r: ScanState)
    requires AllOutlined(res) && HasOutlines(ColumnCells(res, j, i)) && st == Scan(ColumnCells(res, j, i))
    ensures HasOutlines(ColumnCells(res, j, i + 1)) && r == Scan(ColumnCells(res, j, i + 1))
  {
    if Get(res, i, j).Some? {
      ColumnGrows(res, j, i);
      r := ScanCell(st, Get(res, i, j).value);
    } else {
      ColumnSkips(res, j, i);
      r := st;
    }
  }

  /** A row holding a cell adds that cell to the scan. */
  lemma ColumnGrows(res: OcrResult, j: int, i: nat)
    requires AllOutlined(res) && Get(res, i, j).Some?
    ensures HasOutlines(ColumnCells(res, j, i)) && HasOutlines(ColumnCells(res, j, i + 1))
    ensures Scan(ColumnCells(res, j, i + 1)) == ScanStep(Scan(ColumnCells(res, j, i)), Get(res, i, j).value)
  {
    ColumnOutlined(res, j, i);
    ColumnOutlined(res, j, i + 1);
    var cells := ColumnCells(res, j, i);
    var cell := Get(res, i, j).value;
    assert ColumnCells(res, j, i + 1) == cells + [cell];
    ScanSnoc(cells, cell);
  }

  /** A row without a cell leaves the scan as it is. */
  lemma ColumnSkips(res: OcrResult, j: int, i: nat)
    requires AllOutlined(res) && Get(res, i, j).None?
    ensures HasOutlines(ColumnCells(res, j, i)) && HasOutlines(ColumnCells(res, j, i + 1))
    ensures Scan(ColumnCells(res, j, i + 1)) == Scan(ColumnCells(res, j, i))
  {
    ColumnOutlined(res, j, i);
    ColumnOutlined(res, j, i + 1);
    assert ColumnCells(res, j, i + 1) == ColumnCells(res, j, i);
  }

  lemma ScanSnoc(cells: seq<Cell>, cell: Cell)
    requires HasOutlines(cells + [cell])
    ensures HasOutlines(cells) && Scan(cells + [cell]) == ScanStep(Scan(cells), cell)
  {
    var all := cells + [cell];
    assert all[..|all| - 1] == cells;
    assert all[|all| - 1] == cell;
    assert forall k :: 0 <= k < |cells| ==> cells[k] == all[k];
  }

  /** One cell, with the counters as the source keeps them. */
  method ScanCell(st: ScanState, cell: Cell) returns (r: ScanState)
    requires |cell.polygon| >= 1
    ensures r == ScanStep(st, cell)
  {
    var cntAll, cntScore, isScore := st.cntAll + 1, st.cntScore, st.isScore;
    var bx := CellBox(cell.polygon);
    var boxes := st.boxes + [bx];
    if IsHeader(cell.text) {
      if MarksScoreColumn(cell.text) {
        isScore := true;
      }
      cntAll, cntScore := 0, 0;
      boxes := [Box(bx.l, bx.r, bx.b, bx.b)];
    }
    var kinds := Kinds(cell.text);
    var size := Utf16Len(cell.text);
    if size <= 2 && kinds > 1 {
      cntScore := cntScore + 1;
    }
    if size <= 2 && kinds == 1 && HasDigit(cell.text) {
      cntScore := cntScore + 1;
    }
    r := ScanState(cntAll, cntScore, isScore, boxes);
  }

  // ---------------------------------------------------------------------------
  // Dropping right edges far from the mean

  function Sum(xs: seq<int>): int
  {
    if xs == [] then 0 else Sum(xs[..|xs| - 1]) + xs[|xs| - 1]
  }

  /** Sum over the first m values of (n * x - s)^2. */
  function SqDev(xs: seq<int>, n: int, s: int, m: int): int
    requires 0 <= m <= |xs|
  {
    if m == 0 then 0 else SqDev(xs, n, s, m - 1) + Sq(n * xs[m - 1] - s)
  }

  /** `x` lies outside mean +- standard deviation of `xs` (population deviation):
      |x - S/n| > sqrt(sum (x_k - S/n)^2 / n), multiplied out by n^3. */
  predicate Outlier(xs: seq<int>, x: int)
  {
    var n := |xs|;
    n * Sq(n * x - Sum(xs)) > SqDev(xs, n, Sum(xs), n)
  }

  /** If each of the first m squared deviations, scaled by n, exceeds the total
      t, then their scaled sum exceeds m * t. */
  lemma {:induction false} ScaledSumAbove(xs: seq<int>, n: nat, s: int, t: int, m: int)
    requires 0 <= m <= |xs|
    requires forall k :: 0 <= k < m ==> n * Sq(n * xs[k] - s) > t
    ensures n * SqDev(xs, n, s, m) >= m * t
    ensures m >= 1 ==> n * SqDev(xs, n, s, m) > m * t
    decreases m
  {
    if m > 0 {
      ScaledSumAbove(xs, n, s, t, m - 1);
      var prev := SqDev(xs, n, s, m - 1);
      var d := Sq(n * xs[m - 1] - s);
      assert SqDev(xs, n, s, m) == prev + d;
      AddScaled(n, prev, d, m, t);
    }
  }

  lemma AddScaled(n: int, prev: int, d: int, m: int, t: int)
    requires n * prev >= (m - 1) * t && n * d > t
    ensures n * (prev + d) > m * t
  {
    assert n * (prev + d) == n * prev + n * d;
    assert m * t == (m - 1) * t + t;
  }

  /** Not every value is an outlier: the squared deviations cannot all exceed their mean. */
  lemma NotAllOutliers(xs: seq<int>)
    requires |xs| >= 1
    ensures exists k :: 0 <= k < |xs| && !Outlier(xs, xs[k])
  {
    if forall k :: 0 <= k < |xs| ==> Outlier(xs, xs[k]) {
      var n := |xs|;
      ScaledSumAbove(xs, n, Sum(xs), SqDev(xs, n, Sum(xs), n), n);
      assert false;
    }
  }

  function Rights(bs: seq<Box>): (rs: seq<int>)
    ensures |rs| == |bs| && forall k :: 0 <= k < |bs| ==> rs[k] == bs[k].r
  {
    seq(|bs|, k requires 0 <= k < |bs| => bs[k].r)
  }

  /** The erase loop over the boxes with the mean and deviation of `rs`: an
      outlier is erased, and the index still advances, so the box that moved
      into its place is never examined. */
  function SkipErase(bs: seq<Box>, rs: seq<int>): (r: seq<Box>)
    ensures multiset(r) <= multiset(bs)
    decreases |bs|
  {
    if bs == [] then []
    else if Outlier(rs, bs[0].r) then
      if |bs| == 1 then [] else
        assert bs == [bs[0]] + [bs[1]] + bs[2..];
        [bs[1]] + SkipErase(bs[2..], rs)
    else
      assert bs == [bs[0]] + bs[1..];
      [bs[0]] + SkipErase(bs[1..], rs)
  }

  /** A box whose right edge is not an outlier is never erased. */
  lemma {:induction false} SkipEraseKeepsInliers(bs: seq<Box>, rs: seq<int>, k: int)
    requires 0 <= k < |bs| && !Outlier(rs, bs[k].r)
    ensures bs[k] in SkipErase(bs, rs)
    decreases |bs|
  {
    if k > 0 {
      if Outlier(rs, bs[0].r) {
        if k > 1 {
          SkipEraseKeepsInliers(bs[2..], rs, k - 2);
        }
      } else {
        SkipEraseKeepsInliers(bs[1..], rs, k - 1);
      }
    }
  }

  /** The filtered column keeps at least one box. */
  lemma SkipEraseNonEmpty(bs: seq<Box>)
    requires |bs| >= 1
    ensures |SkipErase(bs, Rights(bs))| >= 1
  {
    NotAllOutliers(Rights(bs));
    var k :| 0 <= k < |bs| && !Outlier(Rights(bs), Rights(bs)[k]);
    SkipEraseKeepsInliers(bs, Rights(bs), k);
  }

  /** The skipped box is kept even when it is an outlier: right edges 0, 0, 5, 10, 10
      have mean 5 and deviation sqrt(20); both 0s and both 10s are outliers, but
      the second 0 and the second 10 stay. */
  lemma SkipEraseKeepsSkippedOutlier()
    ensures var bs := [Box(0, 0, 0, 0), Box(0, 0, 1, 1), Box(0, 5, 2, 2), Box(0, 10, 3, 3), Box(0, 10, 4, 4)];
      && Rights(bs) == [0, 0, 5, 10, 10]
      && Outlier(Rights(bs), 0) && Outlier(Rights(bs), 10) && !Outlier(Rights(bs), 5)
      && SkipErase(bs, Rights(bs)) == [Box(0, 0, 1, 1), Box(0, 5, 2, 2), Box(0, 10, 4, 4)]
  {
    var bs := [Box(0, 0, 0, 0), Box(0, 0, 1, 1), Box(0, 5, 2, 2), Box(0, 10, 3, 3), Box(0, 10, 4, 4)];
    assert Rights(bs) == [0, 0, 5, 10, 10];
    ExampleStats();
    SkipPattern(bs, Rights(bs));
  }

  /** Outlier, kept, outlier: the first and the fourth are erased, the second and
      the fifth skipped. */
  lemma SkipPattern(bs: seq<Box>, rs: seq<int>)
    requires |bs| == 5 && Outlier(rs, bs[0].r) && !Outlier(rs, bs[2].r) && Outlier(rs, bs[3].r)
    ensures SkipErase(bs, rs) == [bs[1], bs[2], bs[4]]
  {
    var t3 := bs[3..];
    assert t3[2..] == [];
    assert SkipErase(t3, rs) == [bs[4]];
    var t2 := bs[2..];
    assert t2[1..] == t3;
  }

  lemma ExampleStats()
    ensures Outlier([0, 0, 5, 10, 10], 0) && Outlier([0, 0, 5, 10, 10], 10) && !Outlier([0, 0, 5, 10, 10], 5)
  {
    var xs := [0, 0, 5, 10, 10];
    assert xs[..4] == [0, 0, 5, 10];
    assert xs[..4][..3] == [0, 0, 5];
    assert xs[..4][..3][..2] == [0, 0];
    assert xs[..4][..3][..2][..1] == [0];
    assert xs[..4][..3][..2][..1][..0] == [];
    assert Sum([0]) == 0;
    assert Sum([0, 0]) == 0;
    assert Sum([0, 0, 5]) == 5;
    assert Sum([0, 0, 5, 10]) == 15;
    assert Sum(xs) == 25;
    assert SqDev(xs, 5, 25, 1) == 625;
    assert SqDev(xs, 5, 25, 2) == 1250;
    assert SqDev(xs, 5, 25, 3) == 1250;
    assert SqDev(xs, 5, 25, 4) == 1875;
    assert SqDev(xs, 5, 25, 5) == 2500;
  }

  /** The erase loop on the boxes. */
  method SkipFilter(boxes: seq<Box>) returns (kept: seq<Box>)
    ensures kept == SkipErase(boxes, Rights(boxes))
  {
    var rs := Rights(boxes);
    kept := boxes;
    var i := 0;
    while i < |kept|
      invariant 0 <= i <= |kept| + 1
      invariant SkipInvariant(kept, i, rs, SkipErase(boxes, rs))
      decreases |kept| + 1 - i
    {
      SkipStep(kept, i, rs, SkipErase(boxes, rs));
      if Outlier(rs, kept[i].r) {
        kept := kept[..i] + kept[i + 1..];
      }
      i := i + 1;
    }
  }

  /** The kept prefix followed by what the rest of the loop keeps is the result;
      once the index runs past the end, the list is the result. */
  predicate SkipInvariant(kept: seq<Box>, i: int, rs: seq<int>, target: seq<Box>)
    requires 0 <= i <= |kept| + 1
  {
    if i <= |kept| then kept[..i] + SkipErase(kept[i..], rs) == target else kept == target
  }

  lemma SkipStep(kept: seq<Box>, i: int, rs: seq<int>, target: seq<Box>)
    requires 0 <= i < |kept| && SkipInvariant(kept, i, rs, target)
    ensures var next := if Outlier(rs, kept[i].r) then kept[..i] + kept[i + 1..] else kept;
      i + 1 <= |next| + 1 && SkipInvariant(next, i + 1, rs, target)
  {
    if Outlier(rs, kept[i].r) {
      if i + 1 < |kept| {
        EraseStep(kept, i, rs, target);
      } else {
        EraseLast(kept, i, rs, target);
      }
    } else {
      KeepStep(kept, i, rs, target);
    }
  }

  /** An outlier with boxes after it: the next box moves into its place and is kept. */
  lemma EraseStep(kept: seq<Box>, i: int, rs: seq<int>, target: seq<Box>)
    requires 0 <= i && i + 1 < |kept| && Outlier(rs, kept[i].r)
    requires kept[..i] + SkipErase(kept[i..], rs) == target
    ensures var next := kept[..i] + kept[i + 1..];
      i + 1 <= |next| && next[..i + 1] + SkipErase(next[i + 1..], rs) == target
  {
    var tail := kept[i..];
    assert tail[0] == kept[i] && tail[1] == kept[i + 1] && tail[2..] == kept[i + 2..];
    SkipEraseDrop(tail, rs);
    var next := kept[..i] + kept[i + 1..];
    assert next[..i + 1] == kept[..i] + [kept[i + 1]];
    assert next[i + 1..] == kept[i + 2..];
    MoveFirst(kept[..i], kept[i + 1], SkipErase(kept[i + 2..], rs));
  }

  /** An outlier in the last place: it is erased and the loop ends. */
  lemma EraseLast(kept: seq<Box>, i: int, rs: seq<int>, target: seq<Box>)
    requires 0 <= i && i + 1 == |kept| && Outlier(rs, kept[i].r)
    requires kept[..i] + SkipErase(kept[i..], rs) == target
    ensures kept[..i] + kept[i + 1..] == target
  {
    assert kept[i..] == [kept[i]];
    assert kept[i + 1..] == [];
  }

  /** A box that is not an outlier stays and the index moves past it. */
  lemma KeepStep(kept: seq<Box>, i: int, rs: seq<int>, target: seq<Box>)
    requires 0 <= i < |kept| && !Outlier(rs, kept[i].r)
    requires kept[..i] + SkipErase(kept[i..], rs) == target
    ensures kept[..i + 1] + SkipErase(kept[i + 1..], rs) == target
  {
    var tail := kept[i..];
    assert tail[0] == kept[i] && tail[1..] == kept[i + 1..];
    SkipEraseKeep(tail, rs);
    assert kept[..i + 1] == kept[..i] + [kept[i]];
    MoveFirst(kept[..i], kept[i], SkipErase(kept[i + 1..], rs));
  }

  lemma MoveFirst<T>(front: seq<T>, x: T, rest: seq<T>)
    ensures front + ([x] + rest) == (front + [x]) + rest
  {
  }

  lemma SkipEraseKeep(bs: seq<Box>, rs: seq<int>)
    requires |bs| >= 1 && !Outlier(rs, bs[0].r)
    ensures SkipErase(bs, rs) == [bs[0]] + SkipErase(bs[1..], rs)
  {
  }

  lemma SkipEraseDrop(bs: seq<Box>, rs: seq<int>)
    requires |bs| >= 2 && Outlier(rs, bs[0].r)
    ensures SkipErase(bs, rs) == [bs[1]] + SkipErase(bs[2..], rs)
  {
  }

  // ---------------------------------------------------------------------------
  // Column rectangles and the merge pass

  /** A reported column: its index and its left, right, top and bottom edges. */
  datatype Rect = Rect(col: int, left: int, right: int, top: int, bottom: int)

  predicate Proper(x: Rect)
  {
    x.left <= x.right && x.top <= x.bottom
  }

  /** The bounds of the kept boxes: leftmost left, rightmost right, topmost top,
      bottommost bottom. */
  function ColumnRect(j: int, bs: seq<Box>): (x: Rect)
    requires |bs| >= 1
    requires forall k :: 0 <= k < |bs| ==> bs[k].l <= bs[k].r && bs[k].t <= bs[k].b
    ensures x.col == j && Proper(x)
    ensures forall k :: 0 <= k < |bs| ==> x.left <= bs[k].l && bs[k].r <= x.right && x.top <= bs[k].t && bs[k].b <= x.bottom
  {
    var left, right := MinOf(Lefts(bs)), MaxOf(Rights(bs));
    var top, bottom := MinOf(Tops(bs)), MaxOf(Bottoms(bs));
    assert left <= bs[0].l <= bs[0].r <= right;
    assert top <= bs[0].t <= bs[0].b <= bottom;
    Rect(j, left, right, top, bottom)
  }

  function Lefts(bs: seq<Box>): (ls: seq<int>)
    ensures |ls| == |bs| && forall k :: 0 <= k < |bs| ==> ls[k] == bs[k].l
  {
    seq(|bs|, k requires 0 <= k < |bs| => bs[k].l)
  }

  function Tops(bs: seq<Box>): (ts: seq<int>)
    ensures |ts| == |bs| && forall k :: 0 <= k < |bs| ==> ts[k] == bs[k].t
  {
    seq(|bs|, k requires 0 <= k < |bs| => bs[k].t)
  }

  function Bottoms(bs: seq<Box>): (bts: seq<int>)
    ensures |bts| == |bs| && forall k :: 0 <= k < |bs| ==> bts[k] == bs[k].b
  {
    seq(|bs|, k requires 0 <= k < |bs| => bs[k].b)
  }

  /** `o` contains `x`. */
  predicate Covers(o: Rect, x: Rect)
  {
    o.left <= x.left && x.right <= o.right && o.top <= x.top && x.bottom <= o.bottom
  }

  function Width(x: Rect): int
  {
    x.right - x.left
  }

  /** The previous rectangle reaches into the next one by more than half the
      narrower width (C++ integer halving). */
  predicate Mergeable(prev: Rect, next: Rect)
  {
    prev.right - next.left > TruncDiv(Min(Width(prev), Width(next)), 2)
  }

  /** The merged rectangle keeps the previous one's column and left edge and
      covers both. */
  function MergeRects(prev: Rect, next: Rect): (m: Rect)
    ensures m.col == prev.col && m.left == prev.left
    ensures Covers(m, prev) && (prev.left <= next.left ==> Covers(m, next))
    ensures Proper(prev) ==> Proper(m)
  {
    Rect(prev.col, prev.left, Max(prev.right, next.right), Min(prev.top, next.top), Max(prev.bottom, next.bottom))
  }

  lemma TruncDivMono(a: int, b: int)
    requires a <= b
    ensures TruncDiv(a, 2) <= TruncDiv(b, 2)
  {
    if a < 0 && b >= 0 {
    } else if a < 0 {
      assert -b <= -a;
      assert (-b) / 2 <= (-a) / 2;
    } else {
      assert a / 2 <= b / 2;
    }
  }

  /** Widening a rectangle to the right cannot make it mergeable with its left neighbour. */
  lemma WiderStaysApart(a: Rect, p: Rect, m: Rect)
    requires !Mergeable(a, p) && m.left == p.left && m.right >= p.right
    ensures !Mergeable(a, m)
  {
    TruncDivMono(Min(Width(a), Width(p)), Min(Width(a), Width(m)));
  }

  predicate NoMergeableBefore(rs: seq<Rect>, i: int)
  {
    forall k :: 1 <= k < i && k < |rs| ==> !Mergeable(rs[k - 1], rs[k])
  }

  ghost predicate AllCovered(rs: seq<Rect>, cover: seq<Rect>)
  {
    forall x :: x in rs ==> exists o :: o in cover && Covers(o, x)
  }

  predicate AllProper(rs: seq<Rect>)
  {
    forall k :: 0 <= k < |rs| ==> Proper(rs[k])
  }

  function Left(x: Rect): int
  {
    x.left
  }

  /** The list with the pair at i - 1, i replaced by its merge. */
  function MergedAt(rs: seq<Rect>, i: int): (next: seq<Rect>)
    requires 1 <= i < |rs|
    ensures |next| == |rs| - 1 && next[i - 1] == MergeRects(rs[i - 1], rs[i])
    ensures forall k :: 0 <= k < i - 1 ==> next[k] == rs[k]
    ensures forall k :: i <= k < |next| ==> next[k] == rs[k + 1]
  {
    rs[..i - 1] + [MergeRects(rs[i - 1], rs[i])] + rs[i + 1..]
  }

  /** Replacing the pair at i - 1, i by its merge keeps the invariants of the pass. */
  lemma MergeAt(rs: seq<Rect>, i: int, orig: seq<Rect>)
    requires 1 <= i < |rs|
    requires SortedBy(rs, Left) && NoMergeableBefore(rs, i) && AllCovered(orig, rs)
    ensures var next := MergedAt(rs, i);
      && SortedBy(next, Left) && NoMergeableBefore(next, i) && AllCovered(orig, next)
      && (AllProper(rs) ==> AllProper(next))
  {
    MergeSorted(rs, i);
    MergeApart(rs, i);
    MergeCovers(rs, i, orig);
  }

  lemma MergeSorted(rs: seq<Rect>, i: int)
    requires 1 <= i < |rs| && SortedBy(rs, Left)
    ensures SortedBy(MergedAt(rs, i), Left)
  {
    var next := MergedAt(rs, i);
    forall a, b | 0 <= a < b < |next| ensures next[a].left <= next[b].left {
      var a' := if a < i then a else a + 1;
      var b' := if b < i then b else b + 1;
      assert next[a].left == rs[a'].left && next[b].left == rs[b'].left;
    }
  }

  lemma MergeApart(rs: seq<Rect>, i: int)
    requires 1 <= i < |rs| && NoMergeableBefore(rs, i)
    ensures NoMergeableBefore(MergedAt(rs, i), i)
  {
    var next := MergedAt(rs, i);
    forall k | 1 <= k < i && k < |next| ensures !Mergeable(next[k - 1], next[k]) {
      if k == i - 1 {
        WiderStaysApart(rs[k - 1], rs[k], next[k]);
      }
    }
  }

  lemma MergeCovers(rs: seq<Rect>, i: int, orig: seq<Rect>)
    requires 1 <= i < |rs| && SortedBy(rs, Left) && AllCovered(orig, rs)
    ensures AllCovered(orig, MergedAt(rs, i))
    ensures AllProper(rs) ==> AllProper(MergedAt(rs, i))
  {
    var next := MergedAt(rs, i);
    var m := next[i - 1];
    assert rs[i - 1].left <= rs[i].left;
    assert Covers(m, rs[i - 1]) && Covers(m, rs[i]);
    forall x | x in orig ensures exists o :: o in next && Covers(o, x) {
      var o :| o in rs && Covers(o, x);
      var k :| 0 <= k < |rs| && rs[k] == o;
      if k == i - 1 || k == i {
        assert m in next && Covers(m, x);
      } else if k < i - 1 {
        assert next[k] == o;
      } else {
        assert next[k - 1] == o;
      }
    }
  }

  /** The merge pass, read recursively: while the first two rectangles are
      mergeable they are replaced by their merge, which is compared with the
      next; otherwise the first is final and the pass goes on with the rest. */
  function Merged(rs: seq<Rect>): (r: seq<Rect>)
    ensures |r| <= |rs| && (r == [] <==> rs == [])
    decreases |rs|
  {
    if |rs| <= 1 then rs
    else if Mergeable(rs[0], rs[1]) then Merged([MergeRects(rs[0], rs[1])] + rs[2..])
    else [rs[0]] + Merged(rs[1..])
  }

  /** A merge at i - 1, i leaves the finished prefix and the pass over the rest
      producing the same output. */
  lemma MergeUnfold(out: seq<Rect>, i: int)
    requires 1 <= i < |out| && Mergeable(out[i - 1], out[i])
    ensures out[..i - 1] + Merged(out[i - 1..]) == MergedAt(out, i)[..i - 1] + Merged(MergedAt(out, i)[i - 1..])
  {
    var next := MergedAt(out, i);
    assert next[..i - 1] == out[..i - 1];
    assert out[i - 1..][2..] == out[i + 1..];
    assert next[i - 1..] == [MergeRects(out[i - 1], out[i])] + out[i + 1..];
  }

  /** Moving on at i - 1, i leaves the output unchanged. */
  lemma KeepUnfold(out: seq<Rect>, i: int)
    requires 1 <= i < |out| && !Mergeable(out[i - 1], out[i])
    ensures out[..i - 1] + Merged(out[i - 1..]) == out[..i] + Merged(out[i..])
  {
    assert out[i - 1..][1..] == out[i..];
    assert out[..i] == out[..i - 1] + [out[i - 1]];
    MoveFirst(out[..i - 1], out[i - 1], Merged(out[i..]));
  }

  lemma MergedEnd(out: seq<Rect>)
    requires |out| >= 1
    ensures out[..|out| - 1] + Merged(out[|out| - 1..]) == out
  {
    assert out[|out| - 1..] == [out[|out| - 1]];
  }

  /** The pass from loop state (out, i) keeps its invariants to the end: the
      output is sorted by left edge, no neighbours are mergeable, everything
      the state covered stays covered, and proper rectangles stay proper. */
  lemma {:induction false} MergeFrom(out: seq<Rect>, i: int, orig: seq<Rect>)
    requires 1 <= i <= |out|
    requires SortedBy(out, Left) && NoMergeableBefore(out, i) && AllCovered(orig, out)
    ensures var r := out[..i - 1] + Merged(out[i - 1..]);
      && |r| <= |out| && SortedBy(r, Left) && AllCovered(orig, r)
      && (forall k :: 1 <= k < |r| ==> !Mergeable(r[k - 1], r[k]))
      && (AllProper(out) ==> AllProper(r))
    decreases |out| - i
  {
    if i == |out| {
      MergedEnd(out);
    } else if Mergeable(out[i - 1], out[i]) {
      MergeAt(out, i, orig);
      MergeUnfold(out, i);
      MergeFrom(MergedAt(out, i), i, orig);
    } else {
      KeepUnfold(out, i);
      MergeFrom(out, i + 1, orig);
    }
  }

  /** What the pass promises for rectangles sorted by left edge: no more
      rectangles, sorted, no mergeable neighbours, every input inside an output
      rectangle, and proper rectangles stay proper. */
  lemma MergedFacts(rs: seq<Rect>)
    requires SortedBy(rs, Left)
    ensures var r := Merged(rs);
      && |r| <= |rs| && SortedBy(r, Left) && AllCovered(rs, r)
      && (forall k :: 1 <= k < |r| ==> !Mergeable(r[k - 1], r[k]))
      && (AllProper(rs) ==> AllProper(r))
  {
    if rs != [] {
      forall x | x in rs ensures exists o :: o in rs && Covers(o, x) {
        assert Covers(x, x);
      }
      MergeFrom(rs, 1, rs);
      assert rs[..0] + Merged(rs[0..]) == Merged(rs) by {
        assert rs[0..] == rs;
      }
    }
  }

  /** Rectangles with no mergeable neighbours pass through unchanged: the pass
      merges nothing that is apart. */
  lemma {:induction false} MergedApart(rs: seq<Rect>)
    requires forall k :: 1 <= k < |rs| ==> !Mergeable(rs[k - 1], rs[k])
    ensures Merged(rs) == rs
    decreases |rs|
  {
    if |rs| > 1 {
      MergedApart(rs[1..]);
    }
  }

  /** The merge pass over rectangles sorted by left edge: a pair that overlaps
      enough is merged into the left one, and the merged one is compared with
      the next; otherwise the pass moves on. */
  method MergePass(rects: seq<Rect>) returns (out: seq<Rect>)
    ensures out == Merged(rects)
  {
    out := rects;
    if |rects| == 0 {
      return;
    }
    var i := 1;
    assert out[..0] + Merged(out[0..]) == Merged(rects) by {
      assert out[0..] == rects;
    }
    while i < |out|
      invariant 1 <= i <= |out|
      invariant out[..i - 1] + Merged(out[i - 1..]) == Merged(rects)
      decreases |out| - i
    {
      if out[i - 1].right - out[i].left > TruncDiv(Min(out[i - 1].right - out[i - 1].left, out[i].right - out[i].left), 2) {
        MergeUnfold(out, i);
        out := MergedAt(out, i);
      } else {
        KeepUnfold(out, i);
        i := i + 1;
      }
    }
    MergedEnd(out);
  }

  // ---------------------------------------------------------------------------
  // The rectangles of all columns

  /** Column j's rectangle when it is a score column: the bounds of the boxes the
      outlier filter keeps. */
  function ColumnCandidate(res: OcrResult, j: int, rowCount: nat): (r: seq<Rect>)
    requires AllOutlined(res)
    ensures |r| <= 1
    ensures forall k :: 0 <= k < |r| ==> r[k].col == j && Proper(r[k])
  {
    ColumnOutlined(res, j, rowCount);
    CellsCandidate(j, ColumnCells(res, j, rowCount))
  }

  /** The rectangle of column j read from its cells, when the scan accepts them. */
  function CellsCandidate(j: int, cells: seq<Cell>): (r: seq<Rect>)
    requires HasOutlines(cells)
    ensures |r| <= 1
    ensures forall k :: 0 <= k < |r| ==> r[k].col == j && Proper(r[k])
  {
    ScanKeepsInvariant(cells);
    var st := Scan(cells);
    if Accepted(st) then [KeptRect(j, st)] else []
  }

  /** The bounds of the boxes an accepted scan keeps through the filter. */
  function KeptRect(j: int, st: ScanState): (x: Rect)
    requires ScanInvariant(st) && Accepted(st)
    ensures x.col == j && Proper(x)
  {
    AcceptedKept(st);
    ColumnRect(j, SkipErase(st.boxes, Rights(st.boxes)))
  }

  /** What a column's scan starts from: outlined cells, so the scan keeps its invariant. */
  lemma ColumnCandidateBoxes(res: OcrResult, j: int, rowCount: nat)
    requires AllOutlined(res)
    ensures HasOutlines(ColumnCells(res, j, rowCount))
    ensures ScanInvariant(Scan(ColumnCells(res, j, rowCount)))
  {
    ColumnOutlined(res, j, rowCount);
    ScanKeepsInvariant(ColumnCells(res, j, rowCount));
  }

  /** An accepted scan keeps a non-empty list of proper boxes through the filter. */
  lemma AcceptedKept(st: ScanState)
    requires ScanInvariant(st) && Accepted(st)
    ensures var kept := SkipErase(st.boxes, Rights(st.boxes));
      |kept| >= 1 && forall k :: 0 <= k < |kept| ==> kept[k].l <= kept[k].r && kept[k].t <= kept[k].b
  {
    SkipEraseNonEmpty(st.boxes);
    var kept := SkipErase(st.boxes, Rights(st.boxes));
    forall k | 0 <= k < |kept| ensures kept[k].l <= kept[k].r && kept[k].t <= kept[k].b {
      assert kept[k] in multiset(kept);
      assert kept[k] in st.boxes;
    }
  }

  /** A column contributes a rectangle exactly when it is accepted. */
  lemma ColumnCandidateAccepted(res: OcrResult, j: int, rowCount: nat)
    requires AllOutlined(res)
    ensures HasOutlines(ColumnCells(res, j, rowCount))
    ensures |ColumnCandidate(res, j, rowCount)| == 1 <==> Accepted(Scan(ColumnCells(res, j, rowCount)))
  {
    ColumnOutlined(res, j, rowCount);
  }

  /** The column loop: scans each column and, for an accepted one, filters its
      boxes and takes their bounds. */
  method ColumnRects(res: OcrResult, rowCount: nat, colCount: nat) returns (rects: seq<Rect>)
    requires AllOutlined(res)
    ensures rects == Candidates(res, rowCount, colCount)
  {
    rects := [];
    var j := 0;
    while j < colCount
      invariant 0 <= j <= colCount
      invariant rects == Candidates(res, rowCount, j)
    {
      var c := ColumnCandidateOf(res, j, rowCount);
      CandidatesSnoc(res, rowCount, j);
      rects := rects + c;
      j := j + 1;
    }
  }

  lemma CandidatesSnoc(res: OcrResult, rowCount: nat, j: nat)
    requires AllOutlined(res)
    ensures Candidates(res, rowCount, j + 1) == Candidates(res, rowCount, j) + ColumnCandidate(res, j, rowCount)
  {
  }

  /** One column of the loop. */
  method ColumnCandidateOf(res: OcrResult, j: int, rowCount: nat) returns (c: seq<Rect>)
    requires AllOutlined(res)
    ensures c == ColumnCandidate(res, j, rowCount)
  {
    var st := ScanColumn(res, j, rowCount);
    c := [];
    if Accepted(st) {
      ColumnCandidateBoxes(res, j, rowCount);
      AcceptedKept(st);
      var kept := SkipFilter(st.boxes);
      c := [ColumnRect(j, kept)];
    }
  }

  /** The rectangles of columns 0 .. cols - 1, left to right by column index. */
  function Candidates(res: OcrResult, rowCount: nat, cols: nat): seq<Rect>
    requires AllOutlined(res)
  {
    if cols == 0 then [] else Candidates(res, rowCount, cols - 1) + ColumnCandidate(res, cols - 1, rowCount)
  }

  /** At most one proper rectangle per column, in increasing column order. */
  lemma {:induction false} CandidatesFacts(res: OcrResult, rowCount: nat, cols: nat)
    requires AllOutlined(res)
    ensures OnePerColumn(Candidates(res, rowCount, cols), cols)
    decreases cols
  {
    if cols > 0 {
      var c := cols - 1;
      CandidatesFacts(res, rowCount, c);
      CandidatesStep(res, rowCount, c);
    }
  }

  lemma CandidatesStep(res: OcrResult, rowCount: nat, c: nat)
    requires AllOutlined(res)
    requires OnePerColumn(Candidates(res, rowCount, c), c)
    ensures OnePerColumn(Candidates(res, rowCount, c + 1), c + 1)
  {
    var prev := Candidates(res, rowCount, c);
    var last := ColumnCandidate(res, c, rowCount);
    assert Candidates(res, rowCount, c + 1) == prev + last;
    AppendColumn(prev, last, c);
  }

  /** At most one proper rectangle for each of the columns 0 .. cols - 1, in increasing column order. */
  predicate OnePerColumn(rs: seq<Rect>, cols: nat)
  {
    && |rs| <= cols
    && (forall k :: 0 <= k < |rs| ==> 0 <= rs[k].col < cols && Proper(rs[k]))
    && (forall a, b :: 0 <= a < b < |rs| ==> rs[a].col < rs[b].col)
  }

  lemma AppendColumn(prev: seq<Rect>, last: seq<Rect>, j: nat)
    requires OnePerColumn(prev, j)
    requires |last| <= 1 && forall k :: 0 <= k < |last| ==> last[k].col == j && Proper(last[k])
    ensures OnePerColumn(prev + last, j + 1)
  {
    var rs := prev + last;
    assert forall k :: 0 <= k < |prev| ==> rs[k] == prev[k];
    assert forall k :: |prev| <= k < |rs| ==> rs[k] == last[k - |prev|];
  }
}
