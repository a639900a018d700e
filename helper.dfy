/** The small table helpers: the same-column test for two cells, merging the
    segments the line detector reports into one line per table row (or column),
    and matrix transposition. */
module Helper {
  import opened Util
  import opened Lines

  // ---------------------------------------------------------------------------
  // are_same_column

  /** Two cells, given by their left and right edges, are taken to be in the same
      column when the earlier-starting one reaches past the later one's left edge
      by more than a quarter of the narrower width (the quarter is taken before
      the cells are put in order). A true answer means the two intervals meet;
      a false one does not mean they are apart. */
  function AreSameColumn(l1: int, r1: int, l2: int, r2: int): (ret: bool)
    ensures l1 <= r1 && l2 <= r2 && ret ==> Max(l1, l2) <= Min(r1, r2)
    ensures l1 <= r1 && l2 <= r2 && ret ==> Max(l1, l2) < Max(r1, r2)
  {
    var cmp := TruncDiv(Min(r1 - l1, r2 - l2), 4);
    if l1 > l2 then r2 - l1 > cmp else r1 - l2 > cmp
  }

  /** The test does not depend on the order of the two cells when their left edges differ. */
  lemma AreSameColumnSymmetric(l1: int, r1: int, l2: int, r2: int)
    requires l1 != l2
    ensures AreSameColumn(l1, r1, l2, r2) == AreSameColumn(l2, r2, l1, r1)
  {
    assert Min(r1 - l1, r2 - l2) == Min(r2 - l2, r1 - l1);
  }

  /** With equal left edges no swap happens, and the order of the cells matters:
      a zero-width first cell is apart from a wide second one, but not the other way round. */
  lemma AreSameColumnOrderMatters()
    ensures !AreSameColumn(0, 0, 0, 100)
    ensures AreSameColumn(0, 100, 0, 0)
  {
    assert TruncDiv(0, 4) == 0;
  }

  // ---------------------------------------------------------------------------
  // mergeLines

  /** The coordinate segments are sorted and grouped by: y1 for horizontal lines, x1 for vertical ones. */
  function Primary(s: Segment, horizontal: bool): int
  {
    if horizontal then s.y1 else s.x1
  }

  /** Squared length of a segment; comparing squares orders segments as their lengths do. */
  function Len2(s: Segment): nat
  {
    Sq(s.x1 - s.x2) + Sq(s.y1 - s.y2)
  }

  /** Index `i` closes a run: the primary coordinate jumps by more than 10 from the
      previous segment, or `i` is the last index. */
  predicate IsBoundary(s: seq<Segment>, horizontal: bool, i: int)
    requires 1 <= i < |s|
  {
    Abs(Primary(s[i], horizontal) - Primary(s[i - 1], horizontal)) > 10 || i == |s| - 1
  }

  /** The longest segment among s[lo..hi]; the earliest one on ties. */
  function ArgLongest(s: seq<Segment>, lo: int, hi: int): (r: nat)
    requires 0 <= lo < hi <= |s|
    ensures lo <= r < hi
    ensures forall k :: lo <= k < hi ==> Len2(s[k]) <= Len2(s[r])
    ensures forall k :: lo <= k < r ==> Len2(s[k]) < Len2(s[r])
  {
    var m := FirstMinBy(s[lo..hi], (seg: Segment) => 0 - Len2(seg));
    assert forall k :: lo <= k < hi ==> s[lo..hi][k - lo] == s[k];
    lo + m
  }

  /** Extending the range by one segment keeps the candidate unless the new
      segment is strictly longer. */
  lemma ArgLongestStep(s: seq<Segment>, lo: int, hi: int)
    requires 0 <= lo < hi < |s|
    ensures ArgLongest(s, lo, hi + 1)
      == if Len2(s[hi]) > Len2(s[ArgLongest(s, lo, hi)]) then hi else ArgLongest(s, lo, hi)
  {
    assert s[lo..hi + 1][..hi - lo] == s[lo..hi];
  }

  /** Representatives of the runs: scanning from index `i`, with the current run
      starting at `start`, every boundary index emits the longest segment of the
      run it closes and starts a new run there. The segment at the last index is
      only ever a run start, never compared, so it is never a representative. */
  function Reps(s: seq<Segment>, horizontal: bool, start: int, i: int): (r: seq<nat>)
    requires 0 <= start < i <= |s|
    ensures |r| <= |s| - i
    ensures forall k :: 0 <= k < |r| ==> start <= r[k] < |s| - 1
    decreases |s| - i
  {
    if i == |s| then []
    else if IsBoundary(s, horizontal, i) then [ArgLongest(s, start, i)] + Reps(s, horizontal, i, i + 1)
    else Reps(s, horizontal, start, i + 1)
  }

  predicate Increasing(r: seq<nat>)
  {
    forall k, m :: 0 <= k < m < |r| ==> r[k] < r[m]
  }

  lemma IncreasingCons(a: nat, rest: seq<nat>)
    requires Increasing(rest)
    requires forall k :: 0 <= k < |rest| ==> a < rest[k]
    ensures Increasing([a] + rest)
  {
    var r := [a] + rest;
    forall k, m | 0 <= k < m < |r|
      ensures r[k] < r[m]
    {
      assert r[m] == rest[m - 1];
      if k > 0 {
        assert r[k] == rest[k - 1];
      }
    }
  }

  /** Representatives come in increasing index order, one per run. */
  lemma {:induction false} RepsIncreasing(s: seq<Segment>, horizontal: bool, start: int, i: int)
    requires 0 <= start < i <= |s|
    ensures Increasing(Reps(s, horizontal, start, i))
    decreases |s| - i
  {
    if i < |s| {
      if IsBoundary(s, horizontal, i) {
        RepsIncreasing(s, horizontal, i, i + 1);
        IncreasingCons(ArgLongest(s, start, i), Reps(s, horizontal, i, i + 1));
      } else {
        RepsIncreasing(s, horizontal, start, i + 1);
      }
    }
  }

  /** Number of boundary indices in [i, |s|). */
  function BoundaryCount(s: seq<Segment>, horizontal: bool, i: int): nat
    requires 1 <= i <= |s|
    decreases |s| - i
  {
    if i == |s| then 0
    else (if IsBoundary(s, horizontal, i) then 1 else 0) + BoundaryCount(s, horizontal, i + 1)
  }

  /** One representative per boundary index. */
  lemma {:induction false} RepsCount(s: seq<Segment>, horizontal: bool, start: int, i: int)
    requires 0 <= start < i <= |s|
    ensures |Reps(s, horizontal, start, i)| == BoundaryCount(s, horizontal, i)
    decreases |s| - i
  {
    if i < |s| {
      if IsBoundary(s, horizontal, i) {
        RepsCount(s, horizontal, i, i + 1);
      } else {
        RepsCount(s, horizontal, start, i + 1);
      }
    }
  }

  /** Two or more segments always give at least one line, because the last index closes a run. */
  lemma {:induction false} RepsNonEmpty(s: seq<Segment>, horizontal: bool, start: int, i: int)
    requires 0 <= start < i < |s|
    ensures |Reps(s, horizontal, start, i)| >= 1
    decreases |s| - i
  {
    if !IsBoundary(s, horizontal, i) {
      RepsNonEmpty(s, horizontal, start, i + 1);
    }
  }

  /** Merges detected segments into one line per row (horizontal) or column (vertical).
      The segments come back sorted by their primary coordinate, as the caller's
      vector is sorted in place, and the result holds the coefficients of each
      run's longest segment, in run order. */
  method MergeLines(lines: seq<Segment>, horizontal: bool) returns (sorted: seq<Segment>, ret: seq<LineCoef>)
    requires |lines| >= 1
    ensures |sorted| == |lines| && multiset(sorted) == multiset(lines)
    ensures SortedBy(sorted, (s: Segment) => Primary(s, horizontal))
    ensures var reps := Reps(sorted, horizontal, 0, 1);
      |ret| == |reps| && forall k :: 0 <= k < |reps| ==> ret[k] == Coef(sorted[reps[k]])
  {
    sorted := SortBy(lines, (s: Segment) => Primary(s, horizontal));
    ret := MergeRuns(sorted, horizontal);
  }

  /** State of the walk over the sorted segments before index `i`: the
      representatives emitted so far, where the current run starts, and the
      index of its longest segment (the mark). */
  datatype MergeState = MergeState(reps: seq<nat>, start: nat, mark: nat)

  function Scan(s: seq<Segment>, horizontal: bool, i: int): (st: MergeState)
    requires 1 <= i <= |s|
    ensures st.start <= st.mark < i
    decreases i
  {
    if i == 1 then MergeState([], 0, 0)
    else
      var st := Scan(s, horizontal, i - 1);
      var j := i - 1;
      if IsBoundary(s, horizontal, j) then MergeState(st.reps + [st.mark], j, j)
      else if Len2(s[j]) > Len2(s[st.mark]) then MergeState(st.reps, st.start, j)
      else st
  }

  /** The mark of the walk is the longest segment of the current run (the first one on ties). */
  lemma {:induction false} ScanMark(s: seq<Segment>, horizontal: bool, i: int)
    requires 1 <= i <= |s|
    ensures Scan(s, horizontal, i).mark == ArgLongest(s, Scan(s, horizontal, i).start, i)
    decreases i
  {
    if i > 1 {
      var st := Scan(s, horizontal, i - 1);
      var j := i - 1;
      if !IsBoundary(s, horizontal, j) {
        ScanMark(s, horizontal, j);
        ArgLongestStep(s, st.start, j);
      }
    }
  }

  /** What the walk has emitted, followed by what the description by runs emits
      from the walk's position on, is the whole list of representatives. */
  lemma {:induction false} ScanReps(s: seq<Segment>, horizontal: bool, i: int)
    requires 1 <= i <= |s|
    ensures Scan(s, horizontal, i).reps + Reps(s, horizontal, Scan(s, horizontal, i).start, i) == Reps(s, horizontal, 0, 1)
    decreases i
  {
    if i > 1 {
      ScanReps(s, horizontal, i - 1);
      ScanRepsStep(s, horizontal, i - 1);
    }
  }

  lemma ScanRepsStep(s: seq<Segment>, horizontal: bool, j: int)
    requires 1 <= j < |s|
    requires Scan(s, horizontal, j).reps + Reps(s, horizontal, Scan(s, horizontal, j).start, j) == Reps(s, horizontal, 0, 1)
    ensures Scan(s, horizontal, j + 1).reps + Reps(s, horizontal, Scan(s, horizontal, j + 1).start, j + 1) == Reps(s, horizontal, 0, 1)
  {
    var st := Scan(s, horizontal, j);
    if IsBoundary(s, horizontal, j) {
      ScanMark(s, horizontal, j);
      RepsBoundaryStep(s, horizontal, st.start, j);
      AppendShift(st.reps, st.mark, Reps(s, horizontal, j, j + 1));
    } else {
      RepsInnerStep(s, horizontal, st.start, j);
    }
  }

  lemma AppendShift(a: seq<nat>, m: nat, b: seq<nat>)
    ensures (a + [m]) + b == a + ([m] + b)
  {
  }

  lemma RepsBoundaryStep(s: seq<Segment>, horizontal: bool, start: int, j: int)
    requires 0 <= start < j < |s| && IsBoundary(s, horizontal, j)
    ensures Reps(s, horizontal, start, j) == [ArgLongest(s, start, j)] + Reps(s, horizontal, j, j + 1)
  {
  }

  lemma RepsInnerStep(s: seq<Segment>, horizontal: bool, start: int, j: int)
    requires 0 <= start < j < |s| && !IsBoundary(s, horizontal, j)
    ensures Reps(s, horizontal, start, j) == Reps(s, horizontal, start, j + 1)
  {
  }

  /** The walk over the sorted segments with the running (index, length) mark. */
  method MergeRuns(sorted: seq<Segment>, horizontal: bool) returns (ret: seq<LineCoef>)
    requires |sorted| >= 1
    ensures var reps := Reps(sorted, horizontal, 0, 1);
      |ret| == |reps| && forall k :: 0 <= k < |reps| ==> reps[k] < |sorted| && ret[k] == Coef(sorted[reps[k]])
  {
    ret := [];
    var mark, markLen := 0, Len2(sorted[0]);
    var i := 1;
    while i < |sorted|
      invariant 1 <= i <= |sorted|
      invariant mark == Scan(sorted, horizontal, i).mark && markLen == Len2(sorted[mark])
      invariant |ret| == |Scan(sorted, horizontal, i).reps|
      invariant forall k :: 0 <= k < |ret| ==>
        Scan(sorted, horizontal, i).reps[k] < |sorted| && ret[k] == Coef(sorted[Scan(sorted, horizontal, i).reps[k]])
    {
      var cur := sorted[i];
      var dist := Len2(cur);
      if (horizontal && Abs(cur.y1 - sorted[i - 1].y1) > 10)
        || (!horizontal && Abs(cur.x1 - sorted[i - 1].x1) > 10)
        || i == |sorted| - 1
      {
        assert IsBoundary(sorted, horizontal, i);
        ret := ret + [Coef(sorted[mark])];
        mark, markLen := i, dist;
      } else {
        assert !IsBoundary(sorted, horizontal, i);
        if dist > markLen {
          mark, markLen := i, dist;
        }
      }
      i := i + 1;
    }
    ScanReps(sorted, horizontal, i);
    assert Reps(sorted, horizontal, Scan(sorted, horizontal, i).start, i) == [];
  }

  // ---------------------------------------------------------------------------
  // transpose

  /** Rows of `vec` are at least as long as the first one, so every
      `vec[j][i]` with i below the first row's length exists. */
  predicate Transposable<T>(vec: seq<seq<T>>)
  {
    |vec| > 0 && forall j :: 0 <= j < |vec| ==> |vec[j]| >= |vec[0]|
  }

  /** The transpose: `|vec[0]|` rows of length `|vec|`, entry (i, j) taken from (j, i). */
  function Transposed<T>(vec: seq<seq<T>>): (t: seq<seq<T>>)
    requires Transposable(vec)
    ensures |t| == |vec[0]|
    ensures forall i :: 0 <= i < |t| ==> |t[i]| == |vec|
    ensures forall i, j :: 0 <= i < |t| && 0 <= j < |vec| ==> t[i][j] == vec[j][i]
  {
    seq(|vec[0]|, i requires 0 <= i < |vec[0]| => seq(|vec|, j requires 0 <= j < |vec| && Transposable(vec) => vec[j][i]))
  }

  /** Transposing a non-empty rectangular matrix twice gives it back. */
  lemma TransposeTwice<T>(vec: seq<seq<T>>)
    requires |vec| > 0 && |vec[0]| > 0
    requires forall j :: 0 <= j < |vec| ==> |vec[j]| == |vec[0]|
    ensures Transposable(Transposed(vec))
    ensures Transposed(Transposed(vec)) == vec
  {
    var t := Transposed(vec);
    var tt := Transposed(t);
    assert |tt| == |vec|;
    forall j | 0 <= j < |vec|
      ensures tt[j] == vec[j]
    {
      assert |tt[j]| == |vec[j]|;
      forall i | 0 <= i < |vec[j]|
        ensures tt[j][i] == vec[j][i]
      {
        assert tt[j][i] == t[i][j];
      }
    }
  }

  /** Builds the transposed matrix row by row, as nested loops over the source. */
  method Transpose<T>(vec: seq<seq<T>>) returns (trans: seq<seq<T>>)
    requires Transposable(vec)
    ensures trans == Transposed(vec)
  {
    trans := [];
    var i := 0;
    while i < |vec[0]|
      invariant 0 <= i <= |vec[0]|
      invariant trans == Transposed(vec)[..i]
    {
      var v := [];
      var j := 0;
      while j < |vec|
        invariant 0 <= j <= |vec|
        invariant |v| == j
        invariant forall k :: 0 <= k < j ==> v[k] == vec[k][i]
      {
        v := v + [vec[j][i]];
        j := j + 1;
      }
      assert v == Transposed(vec)[i];
      trans := trans + [v];
      i := i + 1;
    }
  }
}
