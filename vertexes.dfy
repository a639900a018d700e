/** The four corners of the table from the detected segments: the segments are
    split into horizontal and vertical ones, the outermost segment of each kind
    (top, bottom, left, right) is taken as a seed and widened by the segments
    lying on the same line, and the seeds' pairwise intersections, pushed
    slightly outwards, are the corners. */
module Vertexes {
  import opened Util
  import opened Lines

  /** Two segments are taken to lie on the same line when the distance is below this. */
  const SameLineDistance: nat := 10

  // ---------------------------------------------------------------------------
  // Classification

  /** A segment is horizontal when its slope |dy / dx| is below 1. A zero dx gives
      an infinite or undefined slope, which is not below 1. */
  predicate IsHorizontal(s: Segment)
  {
    Abs(s.y2 - s.y1) < Abs(s.x2 - s.x1)
  }

  function Reversed(s: Segment): Segment
  {
    Segment(s.x2, s.y2, s.x1, s.y1)
  }

  /** A horizontal segment oriented left to right. */
  function OrientH(s: Segment): (r: Segment)
    ensures r == s || r == Reversed(s)
    ensures r.x1 <= r.x2
  {
    if s.x1 > s.x2 then Reversed(s) else s
  }

  /** A vertical segment oriented top to bottom. */
  function OrientV(s: Segment): (r: Segment)
    ensures r == s || r == Reversed(s)
    ensures r.y1 <= r.y2
  {
    if s.y1 > s.y2 then Reversed(s) else s
  }

  /** The horizontal segments of `lines`, oriented, in input order. */
  function Horizontals(lines: seq<Segment>): seq<Segment>
  {
    if lines == [] then []
    else
      var last := lines[|lines| - 1];
      Horizontals(lines[..|lines| - 1]) + (if IsHorizontal(last) then [OrientH(last)] else [])
  }

  /** The other segments, oriented, in input order. */
  function Verticals(lines: seq<Segment>): seq<Segment>
  {
    if lines == [] then []
    else
      var last := lines[|lines| - 1];
      Verticals(lines[..|lines| - 1]) + (if IsHorizontal(last) then [] else [OrientV(last)])
  }

  /** Every segment lands in exactly one of the two groups, and each group is
      oriented the way the later steps expect. */
  lemma {:induction false} ClassifyFacts(lines: seq<Segment>)
    ensures |Horizontals(lines)| + |Verticals(lines)| == |lines|
    ensures forall s :: s in Horizontals(lines) ==> IsHorizontal(s) && s.x1 <= s.x2
    ensures forall s :: s in Verticals(lines) ==> !IsHorizontal(s) && s.y1 <= s.y2
  {
    if lines != [] {
      ClassifyFacts(lines[..|lines| - 1]);
      var last := lines[|lines| - 1];
      assert IsHorizontal(Reversed(last)) == IsHorizontal(last) by {
        assert Abs(last.y1 - last.y2) == Abs(last.y2 - last.y1);
        assert Abs(last.x1 - last.x2) == Abs(last.x2 - last.x1);
      }
    }
  }

  /** The classification loop: each segment, oriented, is appended to its group. */
  method Classify(lines: seq<Segment>) returns (hs: seq<Segment>, vs: seq<Segment>)
    ensures hs == Horizontals(lines) && vs == Verticals(lines)
  {
    hs, vs := [], [];
    var i := 0;
    while i < |lines|
      invariant 0 <= i <= |lines|
      invariant hs == Horizontals(lines[..i]) && vs == Verticals(lines[..i])
    {
      var line := lines[i];
      assert lines[..i + 1][..i] == lines[..i];
      if Abs(line.y2 - line.y1) < Abs(line.x2 - line.x1) {
        if line.x1 > line.x2 {
          line := Segment(line.x2, line.y2, line.x1, line.y1);
        }
        hs := hs + [line];
      } else {
        if line.y1 > line.y2 {
          line := Segment(line.x2, line.y2, line.x1, line.y1);
        }
        vs := vs + [line];
      }
      i := i + 1;
    }
    assert lines[..i] == lines;
  }

  // ---------------------------------------------------------------------------
  // Seed widening

  /** Start and end coordinate along the segment's direction: x for horizontal
      segments, y for vertical ones. */
  function Lo(s: Segment, horizontal: bool): int
  {
    if horizontal then s.x1 else s.y1
  }

  function Hi(s: Segment, horizontal: bool): int
  {
    if horizontal then s.x2 else s.y2
  }

  /** The seed takes the segment's start when that starts earlier, and its end
      when that ends later: the seed's extent becomes the hull of both. */
  function Widen(seed: Segment, line: Segment, horizontal: bool): (r: Segment)
    ensures Lo(r, horizontal) == Min(Lo(seed, horizontal), Lo(line, horizontal))
    ensures Hi(r, horizontal) == Max(Hi(seed, horizontal), Hi(line, horizontal))
    ensures r.Start() == seed.Start() || r.Start() == line.Start()
    ensures r.End() == seed.End() || r.End() == line.End()
  {
    var start := if Lo(line, horizontal) < Lo(seed, horizontal) then line.Start() else seed.Start();
    var end := if Hi(line, horizontal) > Hi(seed, horizontal) then line.End() else seed.End();
    Segment(start.x, start.y, end.x, end.y)
  }

  /** The two seeds of one kind: top and bottom, or left and right. */
  datatype Seeds = Seeds(first: Segment, last: Segment)

  /** One segment is offered to the first seed, and only if it is not close to
      that seed's start, to the last seed. */
  function WidenStep(p: Seeds, line: Segment, horizontal: bool): Seeds
  {
    if DistanceBelow(Coef(line), p.first.Start(), SameLineDistance) then Seeds(Widen(p.first, line, horizontal), p.last)
    else if DistanceBelow(Coef(line), p.last.Start(), SameLineDistance) then Seeds(p.first, Widen(p.last, line, horizontal))
    else p
  }

  /** The seeds after offering them the sorted segments s[1..i]; the seeds start
      as the first and the last segment. */
  function Widened(s: seq<Segment>, horizontal: bool, i: int): Seeds
    requires |s| >= 2 && 1 <= i <= |s| - 1
    decreases i
  {
    if i == 1 then Seeds(s[0], s[|s| - 1])
    else WidenStep(Widened(s, horizontal, i - 1), s[i - 1], horizontal)
  }

  /** Widening is monotone: the first seed only ever reaches further than the
      first segment in both directions, the last seed further than the last one,
      and each seed's ends are ends of the segment it started from or of the inner
      segments offered so far. */
  lemma {:induction false} WidenedMonotone(s: seq<Segment>, horizontal: bool, i: int)
    requires |s| >= 2 && 1 <= i <= |s| - 1
    ensures var p := Widened(s, horizontal, i);
      && Lo(p.first, horizontal) <= Lo(s[0], horizontal) && Hi(p.first, horizontal) >= Hi(s[0], horizontal)
      && Lo(p.last, horizontal) <= Lo(s[|s| - 1], horizontal) && Hi(p.last, horizontal) >= Hi(s[|s| - 1], horizontal)
    ensures var p := Widened(s, horizontal, i);
      && (exists k :: 0 <= k < i && p.first.Start() == s[k].Start())
      && (exists k :: 0 <= k < i && p.first.End() == s[k].End())
    ensures var p := Widened(s, horizontal, i);
      && (exists k :: (k == |s| - 1 || 1 <= k < i) && p.last.Start() == s[k].Start())
      && (exists k :: (k == |s| - 1 || 1 <= k < i) && p.last.End() == s[k].End())
    decreases i
  {
    if i == 1 {
      assert Widened(s, horizontal, 1).last == s[|s| - 1];
    } else {
      WidenedMonotone(s, horizontal, i - 1);
      var p := Widened(s, horizontal, i - 1);
      var k1 :| 0 <= k1 < i - 1 && p.first.Start() == s[k1].Start();
      var k2 :| 0 <= k2 < i - 1 && p.first.End() == s[k2].End();
      var k3 :| (k3 == |s| - 1 || 1 <= k3 < i - 1) && p.last.Start() == s[k3].Start();
      var k4 :| (k4 == |s| - 1 || 1 <= k4 < i - 1) && p.last.End() == s[k4].End();
      var q := Widened(s, horizontal, i);
      if q.first.Start() == s[i - 1].Start() {
      } else {
        assert q.first.Start() == s[k1].Start();
      }
      if q.first.End() == s[i - 1].End() {
      } else {
        assert q.first.End() == s[k2].End();
      }
      if q.last.Start() == s[i - 1].Start() {
      } else {
        assert q.last.Start() == s[k3].Start();
      }
      if q.last.End() == s[i - 1].End() {
      } else {
        assert q.last.End() == s[k4].End();
      }
    }
  }

  /** A segment close to the first seed is never given to the last one. */
  lemma WidenStepExclusive(p: Seeds, line: Segment, horizontal: bool)
    requires DistanceBelow(Coef(line), p.first.Start(), SameLineDistance)
    ensures WidenStep(p, line, horizontal).last == p.last
    ensures WidenStep(p, line, horizontal).first == Widen(p.first, line, horizontal)
  {
  }

  /** The widening loop over the inner segments s[1..|s|-1]; the first and the
      last segment are not offered to the seeds. */
  method WidenSeeds(s: seq<Segment>, horizontal: bool) returns (first: Segment, last: Segment)
    requires |s| >= 2
    ensures Seeds(first, last) == Widened(s, horizontal, |s| - 1)
  {
    first, last := s[0], s[|s| - 1];
    var i := 1;
    while i < |s| - 1
      invariant 1 <= i <= |s| - 1
      invariant Seeds(first, last) == Widened(s, horizontal, i)
    {
      var line := s[i];
      var l := Coef(line);
      if DistanceBelow(l, first.Start(), SameLineDistance) {
        first := Widen(first, line, horizontal);
      } else if DistanceBelow(l, last.Start(), SameLineDistance) {
        last := Widen(last, line, horizontal);
      }
      i := i + 1;
    }
  }

  // ---------------------------------------------------------------------------
  // Corners

  function Offset(p: Point, dx: int, dy: int): Point
  {
    Point(p.x + dx, p.y + dy)
  }

  /** Upper-left, upper-right, bottom-right and bottom-left corner: the seed
      intersections moved out by 2 on the top and left and by 4 on the bottom and
      right. None when a pair of seeds is parallel. */
  function Corners(vl: Segment, hu: Segment, vr: Segment, hb: Segment): (r: Option<seq<Point>>)
    ensures r.Some? <==>
      && Det(Coef(vl), Coef(hu)) != 0 && Det(Coef(vr), Coef(hu)) != 0
      && Det(Coef(vr), Coef(hb)) != 0 && Det(Coef(vl), Coef(hb)) != 0
    ensures r.Some? ==> |r.value| == 4
  {
    match (Intersection(Coef(vl), Coef(hu)), Intersection(Coef(vr), Coef(hu)),
           Intersection(Coef(vr), Coef(hb)), Intersection(Coef(vl), Coef(hb)))
    case (Some(ul), Some(ur), Some(br), Some(bl)) =>
      Some([Offset(ul, -2, -2), Offset(ur, 4, -2), Offset(br, 4, 4), Offset(bl, -2, 4)])
    case _ => None
  }

  /** The corners, or `points` unchanged when a pair of seeds is parallel. */
  function CornersOr(vl: Segment, hu: Segment, vr: Segment, hb: Segment, points: seq<Point>): seq<Point>
  {
    match Corners(vl, hu, vr, hb)
    case Some(c) => c
    case None => points
  }

  /** For axis-aligned seeds the corners are the rectangle's corners, moved out. */
  lemma AxisAlignedCorners(vl: Segment, hu: Segment, vr: Segment, hb: Segment)
    requires vl.x1 == vl.x2 && vl.y1 != vl.y2 && vr.x1 == vr.x2 && vr.y1 != vr.y2
    requires hu.y1 == hu.y2 && hu.x1 != hu.x2 && hb.y1 == hb.y2 && hb.x1 != hb.x2
    ensures Corners(vl, hu, vr, hb) == Some([
      Point(vl.x1 - 2, hu.y1 - 2), Point(vr.x1 + 4, hu.y1 - 2),
      Point(vr.x1 + 4, hb.y1 + 4), Point(vl.x1 - 2, hb.y1 + 4)])
  {
    AxisAlignedIntersection(hu, vl);
    AxisAlignedIntersection(hu, vr);
    AxisAlignedIntersection(hb, vr);
    AxisAlignedIntersection(hb, vl);
  }

  // ---------------------------------------------------------------------------
  // getVertexes

  /** The in-out parameters `lines` and `points` are returned as new values. With
      fewer than two segments of either kind both are returned unchanged.
      Otherwise the horizontal segments are sorted by y1 and the vertical ones by
      x1, the outermost of each are widened into seeds, `lines` becomes the four
      seeds (left, upper, right, bottom) and `points` the four corners. */
  method GetVertexes(lines: seq<Segment>, points: seq<Point>)
    returns (newLines: seq<Segment>, newPoints: seq<Point>, ghost sortedH: seq<Segment>, ghost sortedV: seq<Segment>)
    ensures |Horizontals(lines)| < 2 || |Verticals(lines)| < 2 ==> newLines == lines && newPoints == points
    ensures !(|Horizontals(lines)| < 2 || |Verticals(lines)| < 2) ==>
      SeedsAndCorners(Horizontals(lines), Verticals(lines), points, newLines, newPoints, sortedH, sortedV)
  {
    var hs, vs := Classify(lines);
    if |hs| < 2 || |vs| < 2 {
      newLines, newPoints, sortedH, sortedV := lines, points, [], [];
      return;
    }
    newLines, newPoints, sortedH, sortedV := Assemble(hs, vs, points);
  }

  /** What the part after the guard computes from the two groups. */
  ghost predicate SeedsAndCorners(hs: seq<Segment>, vs: seq<Segment>, points: seq<Point>,
                                  newLines: seq<Segment>, newPoints: seq<Point>, sortedH: seq<Segment>, sortedV: seq<Segment>)
  {
    && multiset(sortedH) == multiset(hs) && SortedBy(sortedH, (s: Segment) => s.y1)
    && multiset(sortedV) == multiset(vs) && SortedBy(sortedV, (s: Segment) => s.x1)
    && |sortedH| >= 2 && |sortedV| >= 2
    && var h := Widened(sortedH, true, |sortedH| - 1);
       var v := Widened(sortedV, false, |sortedV| - 1);
       && newLines == [v.first, h.first, v.last, h.last]
       && newPoints == CornersOr(v.first, h.first, v.last, h.last, points)
  }

  /** Sorting, seed widening and corners, for at least two segments of each kind. */
  method Assemble(hs: seq<Segment>, vs: seq<Segment>, points: seq<Point>)
    returns (newLines: seq<Segment>, newPoints: seq<Point>, ghost sortedH: seq<Segment>, ghost sortedV: seq<Segment>)
    requires |hs| >= 2 && |vs| >= 2
    ensures |newLines| == 4 && (|newPoints| == 4 || newPoints == points)
    ensures SeedsAndCorners(hs, vs, points, newLines, newPoints, sortedH, sortedV)
  {
    var hSorted := SortBy(hs, (s: Segment) => s.y1);
    var hu, hb := WidenSeeds(hSorted, true);
    var vSorted := SortBy(vs, (s: Segment) => s.x1);
    var vl, vr := WidenSeeds(vSorted, false);
    sortedH, sortedV := hSorted, vSorted;
    newLines := [vl, hu, vr, hb];
    newPoints := CornersOr(vl, hu, vr, hb, points);
  }
}
