/** Arranging the detected grid points of a table into a matrix with one column
    per vertical line and one row per horizontal line. Each vertical line claims
    the points close to it; a column with too many points keeps, for every
    horizontal line in turn, the remaining point nearest to it; a column with too
    few places each point on its nearest horizontal line and synthesises the rest
    as line intersections (with the coefficient slip of the original formula). */
module PointMatrix {
  import opened Util
  import opened Lines

  /** A point belongs to a vertical line when it lies closer than this. */
  const ClaimDistance: nat := 20

  // ---------------------------------------------------------------------------
  // Claiming the points of one column

  /** The points of `ps` closer than ClaimDistance to `v`, in their order. */
  function NearPoints(ps: seq<Point>, v: LineCoef): seq<Point>
    decreases |ps|
  {
    if ps == [] then []
    else
      var last := ps[|ps| - 1];
      NearPoints(ps[..|ps| - 1], v) + (if DistanceBelow(v, last, ClaimDistance) then [last] else [])
  }

  /** The points of `ps` not closer than ClaimDistance to `v`, in their order. */
  function FarPoints(ps: seq<Point>, v: LineCoef): seq<Point>
    decreases |ps|
  {
    if ps == [] then []
    else
      var last := ps[|ps| - 1];
      FarPoints(ps[..|ps| - 1], v) + (if DistanceBelow(v, last, ClaimDistance) then [] else [last])
  }

  /** Claiming splits the pool: every point goes to exactly one side. */
  lemma {:induction false} NearFarSplit(ps: seq<Point>, v: LineCoef)
    ensures multiset(NearPoints(ps, v)) + multiset(FarPoints(ps, v)) == multiset(ps)
    decreases |ps|
  {
    if ps != [] {
      var last := ps[|ps| - 1];
      assert ps == ps[..|ps| - 1] + [last];
      NearFarSplit(ps[..|ps| - 1], v);
    }
  }

  /** Every claimed point is close to the line and every point left is not. */
  lemma {:induction false} NearFarMembers(ps: seq<Point>, v: LineCoef)
    ensures forall p :: p in NearPoints(ps, v) ==> DistanceBelow(v, p, ClaimDistance)
    ensures forall p :: p in FarPoints(ps, v) ==> !DistanceBelow(v, p, ClaimDistance)
    decreases |ps|
  {
    if ps != [] {
      NearFarMembers(ps[..|ps| - 1], v);
    }
  }

  /** Taking one more point of the pool extends exactly one of the two sides. */
  lemma NearFarStep(pool: seq<Point>, v: LineCoef, k: int)
    requires 0 <= k < |pool|
    ensures NearPoints(pool[..k + 1], v)
      == NearPoints(pool[..k], v) + (if DistanceBelow(v, pool[k], ClaimDistance) then [pool[k]] else [])
    ensures FarPoints(pool[..k + 1], v)
      == FarPoints(pool[..k], v) + (if DistanceBelow(v, pool[k], ClaimDistance) then [] else [pool[k]])
  {
    assert pool[..k + 1][..k] == pool[..k];
  }

  /** Walks the pool, moving each point close to `v` into the column and erasing it
      from the pool; the index only advances past points that stay. */
  method ClaimColumn(pool: seq<Point>, v: LineCoef) returns (vec: seq<Point>, rest: seq<Point>)
    ensures vec == NearPoints(pool, v)
    ensures rest == FarPoints(pool, v)
  {
    rest := pool;
    vec := [];
    var i := 0;
    ghost var k := 0;
    assert pool[..0] == [];
    while i != |rest|
      invariant 0 <= k <= |pool|
      invariant rest == FarPoints(pool[..k], v) + pool[k..]
      invariant i == |FarPoints(pool[..k], v)|
      invariant vec == NearPoints(pool[..k], v)
      decreases |pool| - k
    {
      var p := rest[i];
      ClaimStep(pool, v, k);
      if DistanceBelow(v, p, ClaimDistance) {
        ClaimStepNear(pool, v, k);
        vec := vec + [p];
        rest := rest[..i] + rest[i + 1..];
        k := k + 1;
        continue;
      }
      ClaimStepFar(pool, v, k);
      i := i + 1;
      k := k + 1;
    }
    assert pool[k..] == [];
    assert pool[..k] == pool;
  }

  /** One step of the walk: the point at the walk's position is the next pool point. */
  lemma ClaimStep(pool: seq<Point>, v: LineCoef, k: int)
    requires 0 <= k < |pool|
    ensures var far := FarPoints(pool[..k], v);
      |far| < |far + pool[k..]| && (far + pool[k..])[|far|] == pool[k]
  {
    assert pool[k..][0] == pool[k];
    SplitAt(FarPoints(pool[..k], v), pool[k..]);
  }

  /** Erasing a point close to the line gives the state for one more pool point. */
  lemma ClaimStepNear(pool: seq<Point>, v: LineCoef, k: int)
    requires 0 <= k < |pool| && DistanceBelow(v, pool[k], ClaimDistance)
    ensures var far := FarPoints(pool[..k], v);
      var rest := far + pool[k..];
      && |far| < |rest|
      && rest[..|far|] + rest[|far| + 1..] == FarPoints(pool[..k + 1], v) + pool[k + 1..]
      && |FarPoints(pool[..k + 1], v)| == |far|
      && NearPoints(pool[..k + 1], v) == NearPoints(pool[..k], v) + [pool[k]]
  {
    NearFarStep(pool, v, k);
    assert pool[k..][0] == pool[k] && pool[k..][1..] == pool[k + 1..];
    SplitAt(FarPoints(pool[..k], v), pool[k..]);
  }

  /** Stepping past a point far from the line gives the state for one more pool point. */
  lemma ClaimStepFar(pool: seq<Point>, v: LineCoef, k: int)
    requires 0 <= k < |pool| && !DistanceBelow(v, pool[k], ClaimDistance)
    ensures var far := FarPoints(pool[..k], v);
      && far + pool[k..] == FarPoints(pool[..k + 1], v) + pool[k + 1..]
      && |FarPoints(pool[..k + 1], v)| == |far| + 1
      && NearPoints(pool[..k + 1], v) == NearPoints(pool[..k], v)
  {
    NearFarStep(pool, v, k);
    assert pool[k..][0] == pool[k] && pool[k..][1..] == pool[k + 1..];
    SplitAt(FarPoints(pool[..k], v), pool[k..]);
  }

  /** Facts about the element right after a prefix. */
  lemma SplitAt<T>(front: seq<T>, tail: seq<T>)
    requires |tail| > 0
    ensures var a := front + tail;
      && |front| < |a| && a[|front|] == tail[0]
      && a[..|front|] + a[|front| + 1..] == front + tail[1..]
      && a == (front + [tail[0]]) + tail[1..]
  {
    var a := front + tail;
    assert a[..|front|] == front;
    assert a[|front| + 1..] == tail[1..];
  }

  // ---------------------------------------------------------------------------
  // Pruning a column that has more points than rows

  /** How far a point is from a line, up to the line's own positive factor: the
      ordering of points by distance to one line. */
  function Residual(h: LineCoef): Point -> int
  {
    (p: Point) => Sq(Eval(h, p))
  }

  function Without<T>(s: seq<T>, k: int): (r: seq<T>)
    requires 0 <= k < |s|
    ensures |r| == |s| - 1
    ensures multiset(r) + multiset{s[k]} == multiset(s)
  {
    assert s == s[..k] + [s[k]] + s[k + 1..];
    s[..k] + s[k + 1..]
  }

  /** Greedy pruning: for each horizontal line in order, the remaining candidate
      nearest to it (the first one on ties) is taken and removed; what is left
      over at the end is dropped. */
  function Pruned(cands: seq<Point>, hs: seq<LineCoef>): (r: seq<Point>)
    requires |cands| >= |hs|
    ensures |r| == |hs|
    ensures multiset(r) <= multiset(cands)
    decreases |hs|
  {
    if hs == [] then []
    else
      var k := FirstMinBy(cands, Residual(hs[0]));
      [cands[k]] + Pruned(Without(cands, k), hs[1..])
  }

  /** The inner scan for the candidate nearest to `h`, replacing the candidate only
      on a strictly smaller distance. */
  method NearestCandidate(cands: seq<Point>, h: LineCoef) returns (minIndex: nat)
    requires |cands| >= 1
    ensures minIndex == FirstMinBy(cands, Residual(h))
  {
    minIndex := 0;
    var dist := Sq(Eval(h, cands[0]));
    var i := 1;
    while i != |cands|
      invariant 1 <= i <= |cands|
      invariant minIndex == FirstMinBy(cands[..i], Residual(h))
      invariant dist == Sq(Eval(h, cands[minIndex]))
    {
      FirstMinByStep(cands, Residual(h), i);
      var dd := Sq(Eval(h, cands[i]));
      if dd < dist {
        minIndex, dist := i, dd;
      }
      i := i + 1;
    }
    assert cands[..i] == cands;
  }

  method PruneColumn(cands: seq<Point>, hs: seq<LineCoef>) returns (vec: seq<Point>)
    requires |cands| > |hs|
    ensures vec == Pruned(cands, hs)
  {
    var copy := cands;
    vec := [];
    var j := 0;
    while j < |hs|
      invariant 0 <= j <= |hs|
      invariant |copy| == |cands| - j
      invariant vec + Pruned(copy, hs[j..]) == Pruned(cands, hs)
    {
      var minIndex := NearestCandidate(copy, hs[j]);
      assert hs[j..][1..] == hs[j + 1..];
      vec := vec + [copy[minIndex]];
      copy := Without(copy, minIndex);
      j := j + 1;
    }
  }

  // ---------------------------------------------------------------------------
  // Completing a column that has fewer points than rows

  /** Index of the horizontal line nearest to `p`, scanning in order and moving
      only to a strictly nearer line. Among proper lines nothing is strictly nearer. */
  function NearestLine(hs: seq<LineCoef>, p: Point): (r: nat)
    requires |hs| >= 1
    ensures r < |hs|
    ensures (forall i :: 0 <= i < |hs| ==> Norm(hs[i]) > 0) ==>
      forall i :: 0 <= i < |hs| ==> !CloserThan(hs[i], p, hs[r], p)
    ensures (forall i :: 0 <= i < |hs| ==> Norm(hs[i]) > 0) ==>
      forall i :: 0 <= i < r ==> CloserThan(hs[r], p, hs[i], p)
    decreases |hs|
  {
    if |hs| == 1 then 0
    else
      var m := NearestLine(hs[..|hs| - 1], p);
      var n := |hs| - 1;
      if CloserThan(hs[n], p, hs[m], p) then
        NearestReplaced(hs, p, m);
        n
      else
        NearestKept(hs, p, m);
        m
  }

  /** The last line replaces the nearest of the others when strictly closer:
      nothing is closer than it, and it is closer than every earlier line. */
  lemma NearestReplaced(hs: seq<LineCoef>, p: Point, m: nat)
    requires |hs| >= 2 && m < |hs| - 1
    requires CloserThan(hs[|hs| - 1], p, hs[m], p)
    requires (forall i :: 0 <= i < |hs| ==> Norm(hs[i]) > 0) ==>
      forall i :: 0 <= i < |hs| - 1 ==> !CloserThan(hs[i], p, hs[m], p)
    ensures (forall i :: 0 <= i < |hs| ==> Norm(hs[i]) > 0) ==>
      (forall i :: 0 <= i < |hs| ==> !CloserThan(hs[i], p, hs[|hs| - 1], p))
      && (forall i :: 0 <= i < |hs| - 1 ==> CloserThan(hs[|hs| - 1], p, hs[i], p))
  {
    var n := |hs| - 1;
    if forall i :: 0 <= i < |hs| ==> Norm(hs[i]) > 0 {
      forall i | 0 <= i < |hs|
        ensures !CloserThan(hs[i], p, hs[n], p)
      {
        if i < n && CloserThan(hs[i], p, hs[n], p) {
          CloserTransitive(hs[i], p, hs[n], p, hs[m], p);
        }
      }
      forall i | 0 <= i < n
        ensures CloserThan(hs[n], p, hs[i], p)
      {
        CloserThanNotCloser(hs[n], p, hs[m], p, hs[i], p);
      }
    }
  }

  /** Otherwise the nearest of the others stays. */
  lemma NearestKept(hs: seq<LineCoef>, p: Point, m: nat)
    requires |hs| >= 2 && m < |hs| - 1
    requires !CloserThan(hs[|hs| - 1], p, hs[m], p)
    requires (forall i :: 0 <= i < |hs| ==> Norm(hs[i]) > 0) ==>
      (forall i :: 0 <= i < |hs| - 1 ==> !CloserThan(hs[i], p, hs[m], p))
      && (forall i :: 0 <= i < m ==> CloserThan(hs[m], p, hs[i], p))
    ensures (forall i :: 0 <= i < |hs| ==> Norm(hs[i]) > 0) ==>
      (forall i :: 0 <= i < |hs| ==> !CloserThan(hs[i], p, hs[m], p))
      && (forall i :: 0 <= i < m ==> CloserThan(hs[m], p, hs[i], p))
  {
  }

  /** The scan of the horizontal lines for the one nearest to `p`. */
  method NearestLineIndex(hs: seq<LineCoef>, p: Point) returns (minIndex: nat)
    requires |hs| >= 1
    ensures minIndex == NearestLine(hs, p)
  {
    minIndex := 0;
    var i := 0;
    while i != |hs|
      invariant 0 <= i <= |hs|
      invariant minIndex == NearestLine(hs[..if i == 0 then 1 else i], p)
    {
      if i > 0 {
        assert hs[..i + 1][..i] == hs[..i];
      }
      if CloserThan(hs[i], p, hs[minIndex], p) {
        minIndex := i;
      }
      i := i + 1;
    }
    assert hs[..i] == hs;
  }

  /** Row slots after placing each point on its nearest horizontal line in order;
      a later point on the same line overwrites an earlier one. */
  function Slots(ps: seq<Point>, hs: seq<LineCoef>): (r: seq<Option<Point>>)
    requires |hs| >= 1
    ensures |r| == |hs|
    ensures forall i :: 0 <= i < |r| && r[i].Some? ==> r[i].value in ps && NearestLine(hs, r[i].value) == i
    ensures forall p :: p in ps ==> r[NearestLine(hs, p)].Some?
    decreases |ps|
  {
    if ps == [] then seq(|hs|, _ => None)
    else
      var last := ps[|ps| - 1];
      var prev := Slots(ps[..|ps| - 1], hs);
      assert forall p :: p in ps ==> p in ps[..|ps| - 1] || p == last;
      prev[NearestLine(hs, last) := Some(last)]
  }

  /** The synthesised grid point for vertical line `v` and horizontal line `h`, with
      the x numerator as written, B*B2 - B2*C, where Cramer's rule has B*C2 - B2*C. */
  function Synth(v: LineCoef, h: LineCoef): Point
    requires Det(v, h) != 0
  {
    Point(TruncDiv(v.b * h.b - h.b * v.c, Det(v, h)), TruncDiv(v.a * h.c - v.c * h.a, v.b * h.a - v.a * h.b))
  }

  /** The synthesised y coordinate is the intersection's. */
  lemma SynthY(v: LineCoef, h: LineCoef)
    requires Det(v, h) != 0
    ensures Synth(v, h).y == Intersection(v, h).value.y
  {
  }

  /** For an exactly vertical line (B = 0) the slip is harmless: the synthesised
      point is the intersection. */
  lemma SynthExactForVertical(v: LineCoef, h: LineCoef)
    requires Det(v, h) != 0 && v.b == 0
    ensures Synth(v, h) == Intersection(v, h).value
  {
  }

  /** The slip shows for a slanted vertical line: the segment (10,0)-(11,100) meets
      the horizontal line y = 20 at x = 10.2, truncated to 10, but x = 9 is synthesised. */
  lemma SynthSlipExample()
    ensures var v := Coef(Segment(10, 0, 11, 100));
      var h := Coef(Segment(0, 20, 100, 20));
      Det(v, h) != 0 && Intersection(v, h) == Some(Point(10, 20)) && Synth(v, h) == Point(9, 20)
  {
    var v := Coef(Segment(10, 0, 11, 100));
    var h := Coef(Segment(0, 20, 100, 20));
    assert v == LineCoef(100, -1, -1000);
    assert h == LineCoef(0, -100, 2000);
    assert Det(v, h) == -10000;
    assert TruncDiv(-102000, -10000) == 10;
    assert TruncDiv(-99900, -10000) == 9;
    assert TruncDiv(200000, 10000) == 20;
  }

  /** Filled slots keep their point; empty ones get the synthesised intersection. */
  function Completed(slots: seq<Option<Point>>, v: LineCoef, hs: seq<LineCoef>): (r: seq<Point>)
    requires |slots| == |hs|
    requires forall i :: 0 <= i < |hs| ==> Det(v, hs[i]) != 0
    ensures |r| == |slots|
    ensures forall i :: 0 <= i < |r| ==> r[i] == if slots[i].Some? then slots[i].value else Synth(v, hs[i])
  {
    seq(|slots|, i requires 0 <= i < |slots| => if slots[i].Some? then slots[i].value else Synth(v, hs[i]))
  }

  method FillColumn(cands: seq<Point>, v: LineCoef, hs: seq<LineCoef>) returns (vec: seq<Point>)
    requires |hs| >= 1
    requires forall i :: 0 <= i < |hs| ==> Det(v, hs[i]) != 0
    ensures vec == Completed(Slots(cands, hs), v, hs)
  {
    var slots := PlacePoints(cands, hs);
    vec := CompleteSlots(slots, v, hs);
  }

  /** Empty slots are replaced in place by the synthesised intersection. */
  method CompleteSlots(slots: seq<Option<Point>>, v: LineCoef, hs: seq<LineCoef>) returns (vec: seq<Point>)
    requires |slots| == |hs|
    requires forall i :: 0 <= i < |hs| ==> Det(v, hs[i]) != 0
    ensures vec == Completed(slots, v, hs)
  {
    ghost var full := Completed(slots, v, hs);
    vec := [];
    var i := 0;
    while i < |slots|
      invariant 0 <= i <= |slots|
      invariant |vec| == i
      invariant forall k :: 0 <= k < i ==> vec[k] == full[k]
    {
      var q;
      if slots[i].None? {
        q := Synth(v, hs[i]);
      } else {
        q := slots[i].value;
      }
      assert q == full[i];
      vec := vec + [q];
      i := i + 1;
    }
  }

  /** Each candidate in turn is written into the slot of its nearest horizontal line. */
  method PlacePoints(cands: seq<Point>, hs: seq<LineCoef>) returns (slots: seq<Option<Point>>)
    requires |hs| >= 1
    ensures slots == Slots(cands, hs)
  {
    slots := seq(|hs|, _ => None);
    var k := 0;
    while k < |cands|
      invariant 0 <= k <= |cands|
      invariant slots == Slots(cands[..k], hs)
    {
      var p := cands[k];
      var minIndex := NearestLineIndex(hs, p);
      assert cands[..k + 1][..k] == cands[..k];
      slots := slots[minIndex := Some(p)];
      k := k + 1;
    }
    assert cands[..k] == cands;
  }

  // ---------------------------------------------------------------------------
  // One column and the whole matrix

  /** A column from its candidates sorted by y: pruned when there are more than
      rows, completed when fewer, kept as it is otherwise. Every entry is a
      candidate, except synthesised ones in a column that had too few. */
  function ColumnOf(ys: seq<Point>, v: LineCoef, hs: seq<LineCoef>): (r: seq<Point>)
    requires |hs| >= 1
    requires forall i :: 0 <= i < |hs| ==> Det(v, hs[i]) != 0
    ensures |r| == |hs|
    ensures forall i :: 0 <= i < |r| ==> r[i] in ys || (|ys| < |hs| && r[i] == Synth(v, hs[i]))
  {
    if |ys| > |hs| then
      var r := Pruned(ys, hs);
      assert forall i :: 0 <= i < |r| ==> r[i] in ys by {
        forall i | 0 <= i < |r| ensures r[i] in ys {
          assert r[i] in multiset(r);
        }
      }
      r
    else if |ys| < |hs| then Completed(Slots(ys, hs), v, hs)
    else ys
  }

  /** One pass of the outer loop: claim, sort by y, then prune or complete. */
  method FormatColumn(pool: seq<Point>, v: LineCoef, hs: seq<LineCoef>)
    returns (vec: seq<Point>, rest: seq<Point>, ghost claimed: seq<Point>, ghost ys: seq<Point>)
    requires |hs| >= 1
    requires forall i :: 0 <= i < |hs| ==> Det(v, hs[i]) != 0
    ensures claimed == NearPoints(pool, v) && rest == FarPoints(pool, v)
    ensures multiset(ys) == multiset(claimed) && SortedBy(ys, (p: Point) => p.y)
    ensures vec == ColumnOf(ys, v, hs)
    ensures ColumnFacts(vec, claimed, ys, v, hs)
  {
    var near;
    near, rest := ClaimColumn(pool, v);
    NearFarMembers(pool, v);
    claimed := near;
    var sorted := SortBy(near, (p: Point) => p.y);
    ys := sorted;
    if |sorted| > |hs| {
      vec := PruneColumn(sorted, hs);
    } else if |sorted| < |hs| {
      vec := FillColumn(sorted, v, hs);
    } else {
      vec := sorted;
    }
  }

  /** All elements of the columns, in column order. */
  function Concat(cols: seq<seq<Point>>): seq<Point>
  {
    if cols == [] then [] else Concat(cols[..|cols| - 1]) + cols[|cols| - 1]
  }

  /** The grid-point matrix, one column per vertical line. Fewer than 4 points or
      fewer than 2 lines of either kind give an empty matrix. Otherwise every
      column has exactly one point per horizontal line; column j is built from the
      points vertical line j claimed, which lie within ClaimDistance of it and of
      no earlier vertical line; the claimed points and the points nobody claimed
      together are exactly the input points. */
  method FormatPointMatrix(points: seq<Point>, hs: seq<LineCoef>, vs: seq<LineCoef>)
    returns (matrix: seq<seq<Point>>, ghost claimed: seq<seq<Point>>, ghost leftover: seq<Point>, ghost ys: seq<seq<Point>>)
    requires forall j, i :: 0 <= j < |vs| && 0 <= i < |hs| ==> Det(vs[j], hs[i]) != 0
    ensures |points| < 4 || |hs| < 2 || |vs| < 2 ==> matrix == []
    ensures !(|points| < 4 || |hs| < 2 || |vs| < 2) ==>
      && |matrix| == |vs| && |claimed| == |vs| && |ys| == |vs|
      && (forall j :: 0 <= j < |vs| ==> |matrix[j]| == |hs|)
      && (forall j :: 0 <= j < |vs| ==> matrix[j] == ColumnOf(ys[j], vs[j], hs))
      && (forall j :: 0 <= j < |vs| ==> multiset(ys[j]) == multiset(claimed[j]) && SortedBy(ys[j], (p: Point) => p.y))
      && (forall j, p :: 0 <= j < |vs| && p in claimed[j] ==> DistanceBelow(vs[j], p, ClaimDistance))
      && (forall j, k, p :: 0 <= k < j < |vs| && p in claimed[j] ==> !DistanceBelow(vs[k], p, ClaimDistance))
      && (forall k, p :: 0 <= k < |vs| && p in leftover ==> !DistanceBelow(vs[k], p, ClaimDistance))
      && multiset(Concat(claimed) + leftover) == multiset(points)
  {
    matrix := [];
    claimed := [];
    ys := [];
    leftover := [];
    if |points| < 4 || |hs| < 2 || |vs| < 2 {
      return;
    }
    var pool := SortBy(points, (p: Point) => p.x);
    matrix, claimed, ys, leftover := FormatColumns(pool, hs, vs);
    forall j | 0 <= j < |vs|
      ensures matrix[j] == ColumnOf(ys[j], vs[j], hs) && |matrix[j]| == |hs|
      ensures multiset(ys[j]) == multiset(claimed[j]) && SortedBy(ys[j], (p: Point) => p.y)
      ensures forall p :: p in claimed[j] ==> DistanceBelow(vs[j], p, ClaimDistance)
    {
      assert ColumnFacts(matrix[j], claimed[j], ys[j], vs[j], hs);
    }
    forall j, k, p | 0 <= k < j < |vs| && p in claimed[j]
      ensures !DistanceBelow(vs[k], p, ClaimDistance)
    {
      assert FarFromFirst(claimed[j], vs, j);
    }
    assert FarFromFirst(leftover, vs, |vs|);
  }

  /** The outer loop: each vertical line in order claims its points from the pool. */
  method FormatColumns(pool0: seq<Point>, hs: seq<LineCoef>, vs: seq<LineCoef>)
    returns (matrix: seq<seq<Point>>, ghost claimed: seq<seq<Point>>, ghost ys: seq<seq<Point>>, ghost leftover: seq<Point>)
    requires |hs| >= 1
    requires forall j, i :: 0 <= j < |vs| && 0 <= i < |hs| ==> Det(vs[j], hs[i]) != 0
    ensures |matrix| == |vs| && |claimed| == |vs| && |ys| == |vs|
    ensures forall m :: 0 <= m < |vs| ==> ColumnFacts(matrix[m], claimed[m], ys[m], vs[m], hs)
    ensures forall m :: 0 <= m < |vs| ==> FarFromFirst(claimed[m], vs, m)
    ensures FarFromFirst(leftover, vs, |vs|)
    ensures multiset(Concat(claimed) + leftover) == multiset(pool0)
  {
    matrix, claimed, ys := [], [], [];
    var pool := pool0;
    var j := 0;
    while j < |vs|
      invariant 0 <= j <= |vs|
      invariant |matrix| == j && |claimed| == j && |ys| == j
      invariant forall m :: 0 <= m < j ==> ColumnFacts(matrix[m], claimed[m], ys[m], vs[m], hs)
      invariant forall m :: 0 <= m < j ==> FarFromFirst(claimed[m], vs, m)
      invariant FarFromFirst(pool, vs, j)
      invariant multiset(Concat(claimed) + pool) == multiset(pool0)
    {
      var vec, rest;
      ghost var near, sortedNear;
      vec, rest, near, sortedNear := FormatColumn(pool, vs[j], hs);
      ExtendColumns(matrix, claimed, ys, vec, near, sortedNear, vs, hs);
      ClaimKeepsFar(pool, vs, j);
      ExtendFar(claimed, NearPoints(pool, vs[j]), vs);
      ExtendPool(claimed, pool, pool0, vs[j]);
      matrix := matrix + [vec];
      claimed := claimed + [near];
      ys := ys + [sortedNear];
      pool := rest;
      j := j + 1;
    }
    leftover := pool;
  }

  /** The points a vertical line claims were far from the earlier lines, and
      the points it leaves are far from it as well. */
  lemma ClaimKeepsFar(pool: seq<Point>, vs: seq<LineCoef>, j: int)
    requires 0 <= j < |vs|
    requires FarFromFirst(pool, vs, j)
    ensures FarFromFirst(NearPoints(pool, vs[j]), vs, j)
    ensures FarFromFirst(FarPoints(pool, vs[j]), vs, j + 1)
  {
    NearFarSplit(pool, vs[j]);
    NearFarMembers(pool, vs[j]);
    InPool(NearPoints(pool, vs[j]), pool);
    InPool(FarPoints(pool, vs[j]), pool);
  }

  lemma ExtendFar(claimed: seq<seq<Point>>, near: seq<Point>, vs: seq<LineCoef>)
    requires |claimed| < |vs|
    requires forall m :: 0 <= m < |claimed| ==> FarFromFirst(claimed[m], vs, m)
    requires FarFromFirst(near, vs, |claimed|)
    ensures forall m :: 0 <= m < |claimed| + 1 ==> FarFromFirst((claimed + [near])[m], vs, m)
  {
    forall m | 0 <= m < |claimed| + 1
      ensures FarFromFirst((claimed + [near])[m], vs, m)
    {
      if m < |claimed| {
        assert (claimed + [near])[m] == claimed[m];
      }
    }
  }

  /** Moving the claimed points from the pool into the columns keeps every point exactly once. */
  lemma ExtendPool(claimed: seq<seq<Point>>, pool: seq<Point>, pool0: seq<Point>, v: LineCoef)
    requires multiset(Concat(claimed) + pool) == multiset(pool0)
    ensures multiset(Concat(claimed + [NearPoints(pool, v)]) + FarPoints(pool, v)) == multiset(pool0)
  {
    var near := NearPoints(pool, v);
    NearFarSplit(pool, v);
    assert (claimed + [near])[..|claimed|] == claimed;
    assert Concat(claimed + [near]) == Concat(claimed) + near;
  }

  lemma ExtendColumns(matrix: seq<seq<Point>>, claimed: seq<seq<Point>>, ys: seq<seq<Point>>,
                      vec: seq<Point>, near: seq<Point>, sortedNear: seq<Point>, vs: seq<LineCoef>, hs: seq<LineCoef>)
    requires |matrix| == |claimed| == |ys| < |vs|
    requires forall m :: 0 <= m < |matrix| ==> ColumnFacts(matrix[m], claimed[m], ys[m], vs[m], hs)
    requires ColumnFacts(vec, near, sortedNear, vs[|matrix|], hs)
    ensures forall m :: 0 <= m < |matrix| + 1 ==>
      ColumnFacts((matrix + [vec])[m], (claimed + [near])[m], (ys + [sortedNear])[m], vs[m], hs)
  {
    forall m | 0 <= m < |matrix| + 1
      ensures ColumnFacts((matrix + [vec])[m], (claimed + [near])[m], (ys + [sortedNear])[m], vs[m], hs)
    {
      if m < |matrix| {
        assert (matrix + [vec])[m] == matrix[m];
        assert (claimed + [near])[m] == claimed[m];
        assert (ys + [sortedNear])[m] == ys[m];
      }
    }
  }

  /** What FormatPointMatrix promises about one column. */
  ghost predicate ColumnFacts(col: seq<Point>, claimed: seq<Point>, ys: seq<Point>, v: LineCoef, hs: seq<LineCoef>)
  {
    && |hs| >= 1
    && (forall i :: 0 <= i < |hs| ==> Det(v, hs[i]) != 0)
    && col == ColumnOf(ys, v, hs)
    && multiset(ys) == multiset(claimed)
    && SortedBy(ys, (p: Point) => p.y)
    && (forall p :: p in claimed ==> DistanceBelow(v, p, ClaimDistance))
  }

  /** No point of `ps` lies within ClaimDistance of any of the first `n` vertical lines. */
  ghost predicate FarFromFirst(ps: seq<Point>, vs: seq<LineCoef>, n: int)
    requires 0 <= n <= |vs|
  {
    forall k, p :: 0 <= k < n && p in ps ==> !DistanceBelow(vs[k], p, ClaimDistance)
  }

  /** Elements of a sub-multiset are elements of the whole. */
  lemma InPool(part: seq<Point>, whole: seq<Point>)
    requires multiset(part) <= multiset(whole)
    ensures forall p :: p in part ==> p in whole
  {
    forall p | p in part
      ensures p in whole
    {
      assert p in multiset(part);
    }
  }
}
