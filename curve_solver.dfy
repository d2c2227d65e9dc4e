/** The curve-parameter solver of the nozzle script: the circle point that
    fixes the inflection point, and the parabola x(y) = a*y^2 + b*y + c that
    continues the diverging wall from the inflection point to the exit. */
module CurveSolver {
  import opened Elementary

  /** A point of the half profile: x runs along the revolution axis, y is the
      radius. */
  datatype Point = Point(x: real, y: real)

  /** Coefficients of x(y) = a*y^2 + b*y + c. */
  datatype Coeffs = Coeffs(a: real, b: real, c: real)

  /** sqr: the square of a number is never negative. */
  function Sqr(v: real): (r: real)
    ensures 0.0 <= r
  {
    v * v
  }

  /** |u| <= r implies u^2 <= r^2. */
  lemma SquareMonotone(u: real, r: real)
    requires -r <= u <= r
    ensures Sqr(u) <= Sqr(r)
  {
    var w := if 0.0 <= u then u else -u;
    calc {
      Sqr(u);
    == w * w;
    <= w * r;
    <= r * r;
    }
  }

  /** u^2 <= r^2 with r >= 0 implies |u| <= r. */
  lemma SquareBoundsRoot(u: real, r: real)
    requires 0.0 <= r && Sqr(u) <= Sqr(r)
    ensures -r <= u <= r
  {
    if u > r {
      StrictSquare(r, u);
      assert false;
    } else if u < -r {
      StrictSquare(r, -u);
      assert false;
    }
  }

  lemma StrictSquare(a: real, b: real)
    requires 0.0 <= a < b
    ensures Sqr(a) < Sqr(b)
  {
    calc {
      a * a;
    <= a * b;
    <  b * b;
    }
  }

  /** True when p lies on the circle of the given centre and radius. */
  ghost predicate OnCircle(p: Point, cx: real, cy: real, radius: real) {
    Sqr(p.x - cx) + Sqr(p.y - cy) == Sqr(radius)
  }

  /** circle_point: the point of the circle around (cx, cy) reached at the
      direction tangentAngle - 90 degrees. Whatever the angle, the point is
      at distance |radius| from the centre. */
  function CirclePoint(m: MathLib, tangentAngle: real, radius: real, cx: real, cy: real): (p: Point)
    requires Lawful(m)
    ensures OnCircle(p, cx, cy, radius)
  {
    var angle := tangentAngle - Radians(m, 90.0);
    ScaledUnitCircle(m.cos(angle), m.sin(angle), radius);
    Point(m.cos(angle) * radius + cx, m.sin(angle) * radius + cy)
  }

  lemma ScaledUnitCircle(c: real, s: real, radius: real)
    requires c * c + s * s == 1.0
    ensures Sqr(c * radius) + Sqr(s * radius) == Sqr(radius)
  {
    calc {
      Sqr(c * radius) + Sqr(s * radius);
    == (c * c + s * s) * (radius * radius);
    == Sqr(radius);
    }
  }

  /** The parabola's x at radius y. */
  function Eval(k: Coeffs, y: real): real {
    k.a * Sqr(y) + k.b * y + k.c
  }

  /** The parabola's slope dx/dy at radius y. */
  function Slope(k: Coeffs, y: real): real {
    2.0 * k.a * y + k.b
  }

  /** The three conditions the solver imposes: the parabola passes through
      the inflection point with slope inflectionSlope there, and has slope
      exitSlope at the exit radius. */
  ghost predicate Fits(k: Coeffs, inflection: Point, inflectionSlope: real, exitRadius: real, exitSlope: real) {
    && Eval(k, inflection.y) == inflection.x
    && Slope(k, inflection.y) == inflectionSlope
    && Slope(k, exitRadius) == exitSlope
  }

  /** parabola_koef: solves the three conditions for (a, b, c). Each of its
      divisions raises ZeroDivisionError on a zero divisor: a zero tangent of
      either angle, or an exit radius equal to the inflection radius. */
  function ParabolaKoef(m: MathLib, inflectionAngle: real, exitAngle: real, exitRadius: real, inflection: Point): (r: Result<Coeffs>)
    ensures r.Ok? <==> m.tan(inflectionAngle) != 0.0 && m.tan(exitAngle) != 0.0 && exitRadius != inflection.y
    ensures r.Ok? ==> Fits(r.value, inflection, 1.0 / m.tan(inflectionAngle), exitRadius, 1.0 / m.tan(exitAngle))
  {
    var inflectionTg := m.tan(inflectionAngle);
    var exitTg := m.tan(exitAngle);
    var yExit := exitRadius;
    if exitTg == 0.0 || inflectionTg == 0.0 || yExit == inflection.y then
      Err(ZeroDivisionError)
    else
      var a := (1.0 / exitTg - 1.0 / inflectionTg) / 2.0 / (yExit - inflection.y);
      var b := 1.0 / inflectionTg - 2.0 * inflection.y * a;
      var c := inflection.x - Sqr(inflection.y) * a - inflection.y * b;
      SolvedCoeffsFit(a, b, c, inflection, 1.0 / inflectionTg, yExit, 1.0 / exitTg);
      Ok(Coeffs(a, b, c))
  }

  /** The coefficients parabola_koef computes meet the three conditions. */
  lemma SolvedCoeffsFit(a: real, b: real, c: real, inflection: Point, si: real, ye: real, se: real)
    requires ye != inflection.y
    requires a == (se - si) / 2.0 / (ye - inflection.y)
    requires b == si - 2.0 * inflection.y * a
    requires c == inflection.x - Sqr(inflection.y) * a - inflection.y * b
    ensures Fits(Coeffs(a, b, c), inflection, si, ye, se)
  {
    SlopeAtExit(a, b, inflection.y, ye, si, se);
  }

  lemma SlopeAtExit(a: real, b: real, yi: real, ye: real, si: real, se: real)
    requires ye != yi
    requires a == (se - si) / 2.0 / (ye - yi)
    requires b == si - 2.0 * yi * a
    ensures 2.0 * a * ye + b == se
  {
    calc {
      2.0 * a * ye + b;
    == si + 2.0 * a * (ye - yi);
    == { assert 2.0 * a * (ye - yi) == se - si; }
      se;
    }
  }

  /** The solution is unique: any coefficients that meet the three conditions
      are the ones parabola_koef returns. */
  lemma FitIsUnique(m: MathLib, inflectionAngle: real, exitAngle: real, exitRadius: real, inflection: Point, k: Coeffs)
    requires m.tan(inflectionAngle) != 0.0 && m.tan(exitAngle) != 0.0 && exitRadius != inflection.y
    requires Fits(k, inflection, 1.0 / m.tan(inflectionAngle), exitRadius, 1.0 / m.tan(exitAngle))
    ensures ParabolaKoef(m, inflectionAngle, exitAngle, exitRadius, inflection) == Ok(k)
  {
    var si, se := 1.0 / m.tan(inflectionAngle), 1.0 / m.tan(exitAngle);
    CoeffsDetermined(k, inflection, si, exitRadius, se);
    var r := ParabolaKoef(m, inflectionAngle, exitAngle, exitRadius, inflection);
    assert r.value.a == k.a;
    assert r.value.b == k.b;
    assert r.value.c == k.c;
  }

  /** The three conditions fix a, then b, then c. */
  lemma CoeffsDetermined(k: Coeffs, inflection: Point, si: real, ye: real, se: real)
    requires ye != inflection.y && Fits(k, inflection, si, ye, se)
    ensures k.a == (se - si) / 2.0 / (ye - inflection.y)
    ensures k.b == si - 2.0 * inflection.y * k.a
    ensures k.c == inflection.x - Sqr(inflection.y) * k.a - inflection.y * k.b
  {
    var yi := inflection.y;
    calc {
      k.a * (ye - yi);
    == (Slope(k, ye) - Slope(k, yi)) / 2.0;
    == (se - si) / 2.0;
    }
    DivUnique((se - si) / 2.0, ye - yi, k.a);
  }

  lemma DivUnique(v: real, d: real, r: real)
    requires d != 0.0 && r * d == v
    ensures v / d == r
  {
    assert (v / d - r) * d == 0.0;
  }
}
