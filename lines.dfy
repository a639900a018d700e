/** Plane geometry on integer pixel coordinates: segments as the line
    detector reports them, the general line equation A*x + B*y + C = 0 derived
    from a segment, point-to-line distance tests and the intersection of two
    lines. Distances are compared through squares so that every test is exact. */
module Lines {
  import opened Util

  datatype Point = Point(x: int, y: int)

  /** A detected segment from (x1, y1) to (x2, y2). */
  datatype Segment = Segment(x1: int, y1: int, x2: int, y2: int)
  {
    function Start(): Point { Point(x1, y1) }
    function End(): Point { Point(x2, y2) }
  }

  /** Coefficients of the line a*x + b*y + c = 0. */
  datatype LineCoef = LineCoef(a: int, b: int, c: int)

  function Eval(l: LineCoef, p: Point): int
  {
    l.a * p.x + l.b * p.y + l.c
  }

  function Norm(l: LineCoef): nat
  {
    Sq(l.a) + Sq(l.b)
  }

  predicate OnLine(l: LineCoef, p: Point)
  {
    Eval(l, p) == 0
  }

  /** The line through both ends of a segment: A = y2 - y1, B = x1 - x2,
      C = x2*y1 - x1*y2. */
  function Coef(s: Segment): LineCoef
  {
    LineCoef(s.y2 - s.y1, s.x1 - s.x2, s.x2 * s.y1 - s.x1 * s.y2)
  }

  /** Both ends of a segment satisfy the equation of its line. The line is
      degenerate exactly when the ends coincide, and then all three coefficients
      vanish. */
  lemma CoefThroughEnds(s: Segment)
    ensures OnLine(Coef(s), s.Start()) && OnLine(Coef(s), s.End())
    ensures (Coef(s).a == 0 && Coef(s).b == 0) <==> s.Start() == s.End()
    ensures Coef(s).a == 0 && Coef(s).b == 0 ==> Coef(s).c == 0
  {
  }

  /** The distance from `p` to `l` is below `t`: |Eval| / sqrt(Norm) < t, squared.
      For a degenerate line the floating-point quotient is NaN or infinite and the
      test fails, as it does here. */
  predicate DistanceBelow(l: LineCoef, p: Point, t: nat)
  {
    Sq(Eval(l, p)) < t * t * Norm(l)
  }

  /** `p` is strictly closer to `l` than `q` is to `m`, compared as
      |Eval(l, p)| / sqrt(Norm(l)) < |Eval(m, q)| / sqrt(Norm(m)), cross-multiplied. */
  predicate CloserThan(l: LineCoef, p: Point, m: LineCoef, q: Point)
  {
    Sq(Eval(l, p)) * Norm(m) < Sq(Eval(m, q)) * Norm(l)
  }

  /** On a horizontal segment the distance test is the difference of the y coordinates. */
  lemma HorizontalDistance(s: Segment, p: Point, t: nat)
    requires s.y1 == s.y2 && s.x1 != s.x2
    ensures DistanceBelow(Coef(s), p, t) <==> Abs(p.y - s.y1) < t
  {
    var dx := s.x1 - s.x2;
    var e := p.y - s.y1;
    assert Eval(Coef(s), p) == dx * e by {
      assert Coef(s) == LineCoef(0, dx, s.x2 * s.y1 - s.x1 * s.y1);
      assert dx * p.y - dx * s.y1 == dx * e;
    }
    SqMulAbs(dx, e);
    SquareScale(Sq(dx), Abs(e), t);
  }

  /** On a vertical segment the distance test is the difference of the x coordinates. */
  lemma VerticalDistance(s: Segment, p: Point, t: nat)
    requires s.x1 == s.x2 && s.y1 != s.y2
    ensures DistanceBelow(Coef(s), p, t) <==> Abs(p.x - s.x1) < t
  {
    var dy := s.y2 - s.y1;
    var e := p.x - s.x1;
    assert Eval(Coef(s), p) == dy * e by {
      assert Coef(s) == LineCoef(dy, 0, s.x1 * s.y1 - s.x1 * s.y2);
      assert dy * p.x - dy * s.x1 == dy * e;
    }
    SqMulAbs(dy, e);
    SquareScale(Sq(dy), Abs(e), t);
  }

  lemma SqMulAbs(k: int, e: int)
    ensures Sq(k * e) == Sq(k) * Sq(Abs(e))
  {
    assert (k * e) * (k * e) == (k * k) * (e * e);
  }

  lemma SquareScale(k: nat, u: nat, t: nat)
    requires k > 0
    ensures k * Sq(u) < t * t * k <==> u < t
  {
    if u < t {
      assert u * u < t * t by { MulMono(u, t); }
    } else {
      assert t * t <= u * u by { MulMonoLe(t, u); }
    }
  }

  lemma MulMono(u: nat, t: nat)
    requires u < t
    ensures u * u < t * t
  {
  }

  lemma MulMonoLe(t: nat, u: nat)
    requires t <= u
    ensures t * t <= u * u
  {
  }

  /** Closeness comparison is transitive between proper lines, so a running
      "nearest so far" is nearer than everything it replaced. */
  lemma CloserTransitive(l1: LineCoef, p1: Point, l2: LineCoef, p2: Point, l3: LineCoef, p3: Point)
    requires Norm(l1) > 0 && Norm(l2) > 0 && Norm(l3) > 0
    requires CloserThan(l1, p1, l2, p2) && CloserThan(l2, p2, l3, p3)
    ensures CloserThan(l1, p1, l3, p3)
  {
    CrossTransitive(Sq(Eval(l1, p1)), Sq(Eval(l2, p2)), Sq(Eval(l3, p3)), Norm(l1), Norm(l2), Norm(l3));
  }

  /** A line strictly closer than l2 is strictly closer than any line that is
      not closer than l2. */
  lemma CloserThanNotCloser(l1: LineCoef, p1: Point, l2: LineCoef, p2: Point, l3: LineCoef, p3: Point)
    requires Norm(l1) > 0 && Norm(l2) > 0 && Norm(l3) > 0
    requires CloserThan(l1, p1, l2, p2) && !CloserThan(l3, p3, l2, p2)
    ensures CloserThan(l1, p1, l3, p3)
  {
    CrossMixed(Sq(Eval(l1, p1)), Sq(Eval(l2, p2)), Sq(Eval(l3, p3)), Norm(l1), Norm(l2), Norm(l3));
  }

  lemma CrossMixed(e1: int, e2: int, e3: int, n1: int, n2: int, n3: int)
    requires n1 > 0 && n2 > 0 && n3 > 0
    requires e1 * n2 < e2 * n1 && e2 * n3 <= e3 * n2
    ensures e1 * n3 < e3 * n1
  {
    MulLt(e1 * n2, e2 * n1, n3);
    MulLe(e2 * n3, e3 * n2, n1);
    assert (e2 * n1) * n3 == (e2 * n3) * n1;
    assert (e1 * n2) * n3 == (e1 * n3) * n2;
    assert (e3 * n2) * n1 == (e3 * n1) * n2;
    if e1 * n3 >= e3 * n1 {
      MulLe(e3 * n1, e1 * n3, n2);
    }
  }

  lemma CrossTransitive(e1: int, e2: int, e3: int, n1: int, n2: int, n3: int)
    requires n1 > 0 && n2 > 0 && n3 > 0
    requires e1 * n2 < e2 * n1 && e2 * n3 < e3 * n2
    ensures e1 * n3 < e3 * n1
  {
    MulLt(e1 * n2, e2 * n1, n3);
    MulLt(e2 * n3, e3 * n2, n1);
    assert (e2 * n1) * n3 == (e2 * n3) * n1;
    assert (e1 * n2) * n3 == (e1 * n3) * n2;
    assert (e3 * n2) * n1 == (e3 * n1) * n2;
    if e1 * n3 >= e3 * n1 {
      MulLe(e3 * n1, e1 * n3, n2);
    }
  }

  lemma MulLe(a: int, b: int, k: nat)
    requires a <= b
    ensures a * k <= b * k
  {
  }

  lemma MulLt(a: int, b: int, k: nat)
    requires a < b && k > 0
    ensures a * k < b * k
  {
  }

  /** Determinant of the system formed by two lines; zero exactly when they are parallel. */
  function Det(l1: LineCoef, l2: LineCoef): int
  {
    l2.b * l1.a - l1.b * l2.a
  }

  /** Intersection of two lines by Cramer's rule, each coordinate truncated toward
      zero as the conversion of the floating-point quotient to int does. Parallel
      lines (vanishing determinant) have none. */
  function Intersection(l1: LineCoef, l2: LineCoef): (r: Option<Point>)
    ensures r.None? <==> Det(l1, l2) == 0
  {
    var d := Det(l1, l2);
    if d == 0 then None
    else Some(Point(TruncDiv(l1.b * l2.c - l2.b * l1.c, d), TruncDiv(l1.a * l2.c - l1.c * l2.a, l1.b * l2.a - l1.a * l2.b)))
  }

  /** When the exact intersection has integer coordinates it is returned, and it
      lies on both lines. */
  lemma ExactIntersection(l1: LineCoef, l2: LineCoef, p: Point)
    requires Det(l1, l2) != 0
    requires OnLine(l1, p) && OnLine(l2, p)
    ensures Intersection(l1, l2) == Some(p)
  {
    var d := Det(l1, l2);
    Cramer(l1.a, l1.b, l1.c, l2.a, l2.b, l2.c, p.x, p.y);
    TruncDivExact(p.x, d);
    TruncDivExact(p.y, -d);
  }

  /** Cramer's rule, numerators in terms of a common solution (x, y). */
  lemma Cramer(a1: int, b1: int, c1: int, a2: int, b2: int, c2: int, x: int, y: int)
    requires a1 * x + b1 * y + c1 == 0 && a2 * x + b2 * y + c2 == 0
    ensures b1 * c2 - b2 * c1 == x * (b2 * a1 - b1 * a2)
    ensures a1 * c2 - c1 * a2 == y * (b1 * a2 - a1 * b2)
  {
    assert c1 == -a1 * x - b1 * y;
    assert c2 == -a2 * x - b2 * y;
    calc {
      b1 * c2 - b2 * c1;
      b1 * (-a2 * x - b2 * y) - b2 * (-a1 * x - b1 * y);
      { assert b1 * (b2 * y) == b2 * (b1 * y); }
      x * (b2 * a1 - b1 * a2);
    }
    calc {
      a1 * c2 - c1 * a2;
      a1 * (-a2 * x - b2 * y) - (-a1 * x - b1 * y) * a2;
      { assert a1 * (a2 * x) == (a1 * x) * a2; }
      y * (b1 * a2 - a1 * b2);
    }
  }

  lemma TruncDivExact(q: int, d: int)
    requires d != 0
    ensures TruncDiv(q * d, d) == q
  {
    var n := q * d;
    var r := TruncDiv(n, d);
    if r != q {
      var k := q - r;
      Distribute(q, r, d);
      AbsMul(k, d);
    }
  }

  lemma Distribute(q: int, r: int, d: int)
    ensures q * d - r * d == (q - r) * d
  {
  }

  lemma AbsMul(k: int, d: int)
    requires k != 0
    ensures Abs(k * d) >= Abs(d)
  {
    if k > 0 {
      MulLe(1, k, Abs(d));
      assert Abs(k * d) == k * Abs(d);
    } else {
      MulLe(1, -k, Abs(d));
      assert Abs(k * d) == (-k) * Abs(d);
    }
  }

  /** A horizontal and a vertical segment cross at (x of the vertical, y of the horizontal). */
  lemma AxisAlignedIntersection(h: Segment, v: Segment)
    requires h.y1 == h.y2 && h.x1 != h.x2
    requires v.x1 == v.x2 && v.y1 != v.y2
    ensures Intersection(Coef(h), Coef(v)) == Some(Point(v.x1, h.y1))
    ensures Intersection(Coef(v), Coef(h)) == Some(Point(v.x1, h.y1))
  {
    var p := Point(v.x1, h.y1);
    assert OnLine(Coef(h), p);
    assert OnLine(Coef(v), p);
    ExactIntersection(Coef(h), Coef(v), p);
    ExactIntersection(Coef(v), Coef(h), p);
  }
}
