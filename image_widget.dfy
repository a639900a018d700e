/** The crop box drawn over the shown image: four corners in widget pixels,
    stored top-left, top-right, bottom-right, bottom-left, and the index of the
    corner being dragged (-1 for none). A press near a corner selects it and
    moves it to the cursor, moves drag it while the box passes the
    orientation check, and a release ends the drag. */
module CropBox {
  import opened Util
  import opened Lines

  /** How close, in pixels along each axis, a press must be to grab a corner. */
  const CircleSize := 10

  function Sub(p: Point, q: Point): Point
  {
    Point(p.x - q.x, p.y - q.y)
  }

  /** z component of the cross product of two edge vectors. */
  function Cross(u: Point, v: Point): int
  {
    u.x * v.y - u.y * v.x
  }

  /** `p` lies in the image area (bounds included). */
  predicate InImage(p: Point, hMargin: int, vMargin: int, width: int, height: int)
  {
    hMargin <= p.x <= hMargin + width && vMargin <= p.y <= vMargin + height
  }

  /** The orientation test for dragging corner `index`, over the current corners:
      edge vectors v01, v12, v23, v30 and diagonals v02, v13. */
  predicate CornerTurnsOk(c: seq<Point>, index: int)
    requires |c| == 4
  {
    var v01, v12, v23, v30 := Sub(c[1], c[0]), Sub(c[2], c[1]), Sub(c[3], c[2]), Sub(c[0], c[3]);
    var v02, v13 := Sub(c[2], c[0]), Sub(c[3], c[1]);
    if index == 0 then Cross(v01, v12) >= 0 && Cross(v02, v23) >= 0 && Cross(v01, v13) >= 0
    else if index == 1 then Cross(v12, v23) >= 0 && Cross(v13, v30) >= 0 && Cross(v12, v02) <= 0
    else if index == 2 then Cross(v23, v30) >= 0 && Cross(v02, v01) <= 0 && Cross(v23, v13) <= 0
    else if index == 3 then Cross(v30, v01) >= 0 && Cross(v13, v12) <= 0 && Cross(v30, v02) >= 0
    else false
  }

  /** A drag to `p` is accepted: `p` lies in the image and the current corners pass
      the orientation test for the dragged corner. */
  predicate IsOkAt(c: seq<Point>, index: int, p: Point, hMargin: int, vMargin: int, width: int, height: int)
    requires |c| == 4
  {
    InImage(p, hMargin, vMargin, width, height) && CornerTurnsOk(c, index)
  }

  /** A cursor outside the image is never accepted. */
  lemma OutsideRejected(c: seq<Point>, index: int, p: Point, hMargin: int, vMargin: int, width: int, height: int)
    requires |c| == 4 && !InImage(p, hMargin, vMargin, width, height)
    ensures !IsOkAt(c, index, p, hMargin, vMargin, width, height)
  {
  }

  /** Without a corner index in 0..3 nothing is accepted. */
  lemma NoCornerRejected(c: seq<Point>, index: int, p: Point, hMargin: int, vMargin: int, width: int, height: int)
    requires |c| == 4 && !(0 <= index < 4)
    ensures !IsOkAt(c, index, p, hMargin, vMargin, width, height)
  {
  }

  /** Inside the image the answer does not depend on where the corner is dragged:
      the orientation test reads only the current corners. */
  lemma IsOkIgnoresTarget(c: seq<Point>, index: int, p: Point, q: Point, hMargin: int, vMargin: int, width: int, height: int)
    requires |c| == 4
    requires InImage(p, hMargin, vMargin, width, height) && InImage(q, hMargin, vMargin, width, height)
    ensures IsOkAt(c, index, p, hMargin, vMargin, width, height) <==> IsOkAt(c, index, q, hMargin, vMargin, width, height)
  {
  }

  /** Corners of an axis-aligned rectangle, top-left first, clockwise with y downward. */
  function Rectangle(left: int, top: int, right: int, bottom: int): (c: seq<Point>)
    ensures |c| == 4
  {
    [Point(left, top), Point(right, top), Point(right, bottom), Point(left, bottom)]
  }

  lemma MulNonneg(a: int, b: int)
    requires a >= 0 && b >= 0
    ensures a * b >= 0
  {
  }

  /** Every corner of an axis-aligned rectangle passes the orientation test. */
  lemma RectangleTurnsOk(left: int, top: int, right: int, bottom: int, index: int)
    requires left <= right && top <= bottom && 0 <= index < 4
    ensures CornerTurnsOk(Rectangle(left, top, right, bottom), index)
  {
    var w, h := right - left, bottom - top;
    MulNonneg(w, h);
    var c := Rectangle(left, top, right, bottom);
    assert Sub(c[1], c[0]) == Point(w, 0) && Sub(c[2], c[1]) == Point(0, h);
    assert Sub(c[3], c[2]) == Point(0 - w, 0) && Sub(c[0], c[3]) == Point(0, 0 - h);
    assert Sub(c[2], c[0]) == Point(w, h) && Sub(c[3], c[1]) == Point(0 - w, h);
    assert (0 - w) * (0 - h) == w * h;
    assert h * (0 - w) == 0 - w * h;
  }

  /** The box placed over a freshly shown image covers it: relative corners (0, 0),
      (1, 0), (1, 1), (0, 1) scaled to the image and shifted by the margins. */
  function UnitBox(hMargin: int, vMargin: int, width: int, height: int): (c: seq<Point>)
    ensures |c| == 4
  {
    Rectangle(hMargin, vMargin, hMargin + width, vMargin + height)
  }

  /** From the initial box every corner can be dragged anywhere in the image. */
  lemma UnitBoxAccepts(hMargin: int, vMargin: int, width: int, height: int, index: int, p: Point)
    requires width >= 0 && height >= 0 && 0 <= index < 4
    requires InImage(p, hMargin, vMargin, width, height)
    ensures IsOkAt(UnitBox(hMargin, vMargin, width, height), index, p, hMargin, vMargin, width, height)
  {
    RectangleTurnsOk(hMargin, vMargin, hMargin + width, vMargin + height, index);
  }

  /** Because the test reads the corners before the move, an accepted drag can
      leave the box in a shape the same test then rejects: dragging the top-left
      corner of a d x d square to (2d, 2d) is accepted, after which the orientation
      test for that corner fails, so no drag of it is accepted until another
      corner is moved. */
  lemma AcceptedDragCanLockCorner(d: int)
    requires d >= 1
    ensures IsOkAt(Rectangle(0, 0, d, d), 0, Point(2 * d, 2 * d), 0, 0, 2 * d, 2 * d)
    ensures !CornerTurnsOk(Rectangle(0, 0, d, d)[0 := Point(2 * d, 2 * d)], 0)
  {
    RectangleTurnsOk(0, 0, d, d, 0);
    FirstTurnNeeded(Rectangle(0, 0, d, d)[0 := Point(2 * d, 2 * d)], d);
  }

  /** Dragging the first corner needs a non-negative turn at the second; a box whose
      first three corners are (2d, 2d), (d, 0), (d, d) turns the wrong way there. */
  lemma FirstTurnNeeded(c: seq<Point>, d: int)
    requires |c| == 4 && d >= 1
    requires c[0] == Point(2 * d, 2 * d) && c[1] == Point(d, 0) && c[2] == Point(d, d)
    ensures !CornerTurnsOk(c, 0)
  {
    MulNonneg(d - 1, d);
    assert Sub(c[1], c[0]) == Point(0 - d, 0 - 2 * d) && Sub(c[2], c[1]) == Point(0, d);
    assert Cross(Point(0 - d, 0 - 2 * d), Point(0, d)) == (0 - d) * d;
  }

  /** The cursor is within the grab distance of a corner on both axes. */
  predicate Near(corner: Point, pos: Point)
  {
    Abs(pos.x - corner.x) < CircleSize && Abs(pos.y - corner.y) < CircleSize
  }

  class ImageWidget {
    /** Corners in widget pixels: top-left, top-right, bottom-right, bottom-left. */
    var corners: seq<Point>
    /** The dragged corner, or -1. */
    var vertexIndex: int
    /** Where the scaled image is drawn and its size. */
    var hMargin: int
    var vMargin: int
    var width: int
    var height: int

    ghost predicate Valid()
      reads this
    {
      |corners| == 4 && -1 <= vertexIndex < 4
    }

    /** A widget showing a new image of the given placement, with the initial box. */
    constructor(hMargin: int, vMargin: int, width: int, height: int)
      ensures Valid() && vertexIndex == -1
      ensures corners == UnitBox(hMargin, vMargin, width, height)
      ensures this.hMargin == hMargin && this.vMargin == vMargin && this.width == width && this.height == height
    {
      this.hMargin, this.vMargin := hMargin, vMargin;
      this.width, this.height := width, height;
      corners := UnitBox(hMargin, vMargin, width, height);
      vertexIndex := -1;
    }

    predicate IsOk(p: Point)
      requires |corners| == 4
      reads this
    {
      IsOkAt(corners, vertexIndex, p, hMargin, vMargin, width, height)
    }

    /** Selects the first corner near `pos`; with none near, the selection stays. */
    method InVertex(pos: Point)
      requires Valid()
      modifies this
      ensures Valid() && corners == old(corners)
      ensures hMargin == old(hMargin) && vMargin == old(vMargin) && width == old(width) && height == old(height)
      ensures (forall i :: 0 <= i < 4 ==> !Near(corners[i], pos)) ==> vertexIndex == old(vertexIndex)
      ensures (exists i :: 0 <= i < 4 && Near(corners[i], pos)) ==>
        0 <= vertexIndex < 4 && Near(corners[vertexIndex], pos) && forall i :: 0 <= i < vertexIndex ==> !Near(corners[i], pos)
    {
      var i := 0;
      while i < |corners|
        invariant 0 <= i <= 4
        invariant forall k :: 0 <= k < i ==> !Near(corners[k], pos)
      {
        if Abs(pos.x - corners[i].x) < CircleSize && Abs(pos.y - corners[i].y) < CircleSize {
          vertexIndex := i;
          return;
        }
        i := i + 1;
      }
    }

    /** Moves the dragged corner to `p` when there is one and the drag is accepted;
        nothing else changes. */
    method UpdatePos(p: Point)
      requires Valid()
      modifies this
      ensures Valid() && vertexIndex == old(vertexIndex)
      ensures hMargin == old(hMargin) && vMargin == old(vMargin) && width == old(width) && height == old(height)
      ensures corners == if old(vertexIndex) != -1 && old(IsOk(p)) then old(corners)[old(vertexIndex) := p] else old(corners)
    {
      if vertexIndex != -1 {
        if IsOk(p) {
          corners := corners[vertexIndex := p];
        }
      }
    }

    /** A press selects the first corner near the cursor, keeping the selection
        when none is near, and moves the selected corner to the cursor. */
    method MousePressEvent(p: Point)
      requires Valid()
      modifies this
      ensures Valid()
      ensures hMargin == old(hMargin) && vMargin == old(vMargin) && width == old(width) && height == old(height)
      ensures (forall i :: 0 <= i < 4 ==> !Near(old(corners)[i], p)) ==> vertexIndex == old(vertexIndex)
      ensures (exists i :: 0 <= i < 4 && Near(old(corners)[i], p)) ==>
        0 <= vertexIndex < 4 && Near(old(corners)[vertexIndex], p) && forall i :: 0 <= i < vertexIndex ==> !Near(old(corners)[i], p)
      ensures corners == if vertexIndex != -1 then old(corners)[vertexIndex := p] else old(corners)
    {
      InVertex(p);
      if vertexIndex != -1 {
        corners := corners[vertexIndex := p];
      }
    }

    method MouseMoveEvent(p: Point)
      requires Valid()
      modifies this
      ensures Valid() && vertexIndex == old(vertexIndex)
      ensures hMargin == old(hMargin) && vMargin == old(vMargin) && width == old(width) && height == old(height)
      ensures corners == if old(vertexIndex) != -1 && old(IsOk(p)) then old(corners)[old(vertexIndex) := p] else old(corners)
    {
      UpdatePos(p);
    }

    /** A release makes the last move and ends the drag. */
    method MouseReleaseEvent(p: Point)
      requires Valid()
      modifies this
      ensures Valid() && vertexIndex == -1
      ensures hMargin == old(hMargin) && vMargin == old(vMargin) && width == old(width) && height == old(height)
      ensures corners == if old(vertexIndex) != -1 && old(IsOk(p)) then old(corners)[old(vertexIndex) := p] else old(corners)
    {
      UpdatePos(p);
      vertexIndex := -1;
    }
  }
}
