# Nozzle contour of cad.py, in Dafny

`cad.py` builds the half profile of a rocket nozzle and hands it to FreeCAD.
This project models the part of the script that computes that profile. The
profile lives in the (x, y) plane: x runs along the revolution axis and y is
the radius.

It is built in three steps:

- **Curve solver** (`curve_solver.dfy`, module `CurveSolver`).
  - `sqr` and `circle_point` are pure functions.
  - `parabola_koef` solves for the coefficients of x(y) = a·y² + b·y + c.
    The parabola must pass through the inflection point. Its slope dx/dy
    must be 1/tan of the inflection angle there and 1/tan of the exit angle
    at the exit radius.
  - A zero divisor raises `ZeroDivisionError`, modelled as an `Err` result.
- **Set-up** (`nozzle_geometry.dfy`, module `NozzleGeometry`).
  - The script's module-level constants become a `Config` value.
  - From them it derives the exit radius, the diverging-circle radius, the
    inflection point `xy_i` and the parabola coefficients.
- **Sampler** (`nozzle_contour.dfy`, module `NozzleContour`).
  - The script's two `while True` loops become two methods with loop
    invariants over a growing sequence of edges.
  - The converging loop walks y down by `delta` along the converging arc.
  - The diverging loop walks y up through the diverging circle and then the
    parabola.
  - `TraceContour` runs both loops, then appends the two edges that close
    the contour through the axis.

`math.sqrt`, `math.sin`, `math.cos`, `math.tan` and the constant behind
`math.radians` are passed in as a `MathLib` value (`elementary.dfy`, module
`Elementary`). The model assumes only the facts collected in `Lawful`:

- `sqrt` accepts exactly the nonnegative reals;
- on those, `sqrt` returns the nonnegative root;
- cos² + sin² = 1.

`sqrt` is a partial arrow, so every call site in the loops must prove its
argument nonnegative. This shows that the script never hits a math domain
error.

The model follows the code:

- The converging radius is `outside_radius - rt` (cad.py:48); the
  `converging_radius_koef` line is commented out (cad.py:16).
- The first edge starts on the axis at (-converging_radius, 0), because
  `py` starts at 0 (cad.py:50-52).
- The diverging walk stops at the last whole step not beyond the exit
  radius. Nothing clamps the last sample to the exit radius: it lies within
  one step below it (cad.py:74-75).

## Model

| member | source | states |
|---|---|---|
| Elementary.SinCosBounded | cad.py:29-30 | cos and sin of any angle lie in [-1, 1]; this follows from cos² + sin² = 1 alone |
| CurveSolver.Sqr | cad.py:24-25 | the square is never negative |
| CurveSolver.SquareMonotone | cad.py:24-25 | \|u\| ≤ r implies u² ≤ r² (this keeps the loops' sqrt arguments nonnegative) |
| CurveSolver.SquareBoundsRoot | cad.py:24-25 | u² ≤ r² with r ≥ 0 implies -r ≤ u ≤ r |
| CurveSolver.CirclePoint | cad.py:28-30 | for any tangent angle, the point is at distance radius from (cx, cy) |
| CurveSolver.ParabolaKoef | cad.py:33-40 | fails with ZeroDivisionError exactly when either tangent is 0 or the exit radius equals the inflection radius; otherwise the parabola passes through the inflection point, with slope 1/t_i there and 1/t_e at the exit radius |
| CurveSolver.SolvedCoeffsFit | cad.py:37-39 | the a, b, c formulas meet the three conditions |
| CurveSolver.CoeffsDetermined | cad.py:37-39 | any coefficients that meet the three conditions equal the a, b, c formulas |
| CurveSolver.FitIsUnique | cad.py:33-40 | any parabola that meets the three conditions is the one parabola_koef returns (the solution is unique) |
| NozzleGeometry.ExitRadius | cad.py:12 | exit_radius is nonnegative and its square is rt² times the expansion ratio |
| NozzleGeometry.InflectionPoint | cad.py:42 | xy_i lies on the diverging circle, centred at (0, rt + diverging_radius) with radius diverging_radius, so its radius is at most rt + 2·diverging_radius |
| NozzleGeometry.DeriveGeometry | cad.py:42-43 | the set-up fails exactly when parabola_koef divides by zero; otherwise its values satisfy everything the sampler relies on |
| NozzleContour.ConvergingRoot | cad.py:64 | for rt ≤ y < outside_radius, the sqrt argument is nonnegative and (-sqrt, y) lies on the converging arc |
| NozzleContour.ConvergingExtend | cad.py:66-68 | appending a converging sample one step below the cursor, then moving the cursor to it, keeps the chain, the equal steps and the arc |
| NozzleContour.ConvergingPart | cad.py:47-68 | the converging loop stops and appends at least one edge; the edges form a chain from (-converging_radius, 0); the samples start one step below outside_radius and go down by exactly delta, all on the converging arc at radius in [rt, outside_radius); one more step would pass below rt |
| NozzleContour.DivergingRoot | cad.py:77-79 | in the circle branch (rt < y < xy_i.y), the sqrt argument is nonnegative and (sqrt, y) is a diverging sample |
| NozzleContour.DivergingExtend | cad.py:84-86 | appending a diverging sample one step above the cursor keeps the earlier edges, the chain, the equal steps and the wall |
| NozzleContour.DivergingPart | cad.py:71-86 | the diverging loop stops; it keeps the converging edges and chains onto them; its samples go up by exactly delta; each lies in (rt, exit_radius]; below xy_i.y each is on the diverging circle, from there on the parabola; one more step would pass beyond exit_radius |
| NozzleContour.TraceContour | cad.py:47-90 | the contour is a closed chain: converging arc, diverging wall, an edge straight down to the axis, and an edge along the axis back to the start (-converging_radius, 0) |
| NozzleContour.ClosingTheWall | cad.py:88-90 | the two closing edges turn what the two loops establish into the closed contour |
| NozzleContour.ChainThroughAxis | cad.py:89-90 | the two closing edges keep the chain connected and end it at its start point |
| NozzleContour.ConvergingSamplesExactly | cad.py:58-68 | the converging samples are exactly outside_radius - k·delta for k = 1 .. floor((outside_radius - rt) / delta) |
| NozzleContour.DivergingSamplesExactly | cad.py:71-86 | the diverging samples are exactly y0 + k·delta, where y0 is the last converging sample; k runs from 1 to the number of whole steps from y0 up to exit_radius (none if exit_radius < y0); the last one lies in (exit_radius - delta, exit_radius] |
| NozzleContour.RadiiMonotone | cad.py:58-86 | the radius falls strictly along the converging samples and rises strictly along the diverging ones |
| NozzleContour.FloorStep | cad.py:58-86 | one step of delta lowers floor(u / delta) by exactly one; this is the integer measure that makes both loops terminate |

## Left out

- FreeCAD kernel calls (cad.py:2-3, 92-108): `Part.Wire`, `Part.Face`, the revolution, `MeshPart` and the `App`/`Gui` document and view calls. `Part.makeLine` (cad.py:66, 84, 89-90) becomes a plain `Edge` of two 2D points.
- Floating point: the model computes over exact reals, so rounding in the loops' repeated `y - delta` and `py + delta` is not modelled.
- Actual values of `math.sqrt`, `sin`, `cos`, `tan` and `pi`: only the `Lawful` facts are assumed. `math.radians` is degrees·pi/180.
- Concrete constants (cad.py:5-21): they are `Config` parameters. `ValidConfig` requires rt > 0, delta > 0, rt ≤ outside_radius - delta, diverging_radius_koef > 0 and expansion ratio ≥ 0.
- With rt > outside_radius - delta, the converging loop appends nothing. The diverging loop would then start from py = 0, where the circle branch's sqrt argument can be negative and Python raises ValueError. That configuration is excluded by `ValidConfig` rather than modelled. So is a negative expansion ratio, for which cad.py:12 raises ValueError.
- Slope continuity where the diverging circle meets the parabola is not proved. It would need angle-shift identities for tan, beyond the `Lawful` facts.
- NozzleContour.DivergingPart: it needs only delta > 0, diverging_radius > 0 and xy_i.y ≤ rt + 2·diverging_radius about the set-up. TraceContour obtains these from `DeriveGeometry`.
