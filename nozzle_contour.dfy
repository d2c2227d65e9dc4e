/** The nozzle script's sampling loops: they walk the radius down the
    converging arc and up the diverging circle and parabola, join each sample
    to the previous one by an edge, and close the contour through the axis. */
module NozzleContour {
  import opened Elementary
  import opened CurveSolver
  import opened NozzleGeometry

  /** A straight edge of the contour, Part.makeLine in the script. */
  datatype Edge = Edge(src: Point, dst: Point)

  /** Each edge starts where the previous one ends. */
  ghost predicate Chained(edges: seq<Edge>) {
    forall i :: 0 < i < |edges| ==> edges[i].src == edges[i - 1].dst
  }

  /** The chain ends where it starts. */
  ghost predicate Closed(edges: seq<Edge>) {
    0 < |edges| && edges[|edges| - 1].dst == edges[0].src
  }

  /** Between lo and hi each sample's radius is the previous one's plus step. */
  ghost predicate Steps(edges: seq<Edge>, lo: int, hi: int, step: real)
    requires 0 <= lo <= hi <= |edges|
  {
    forall i :: lo < i < hi ==> edges[i].dst.y == edges[i - 1].dst.y + step
  }

  /** The samples from lo to hi are origin + 1 * step, origin + 2 * step, ... */
  ghost predicate SpacedFrom(edges: seq<Edge>, lo: int, hi: int, origin: real, step: real)
    requires 0 <= lo <= hi <= |edges|
  {
    forall i :: lo <= i < hi ==> edges[i].dst.y == origin + (i - lo + 1) as real * step
  }

  /** A sample of the converging arc: centre (0, outside radius), radius
      outside radius - rt, on its negative-x half, at a radius in
      [rt, outside radius). */
  ghost predicate ConvergingSample(cfg: Config, p: Point) {
    && cfg.throatRadius <= p.y < cfg.outsideRadius
    && p.x <= 0.0
    && OnCircle(p, 0.0, cfg.outsideRadius, cfg.outsideRadius - cfg.throatRadius)
  }

  /** A sample of the diverging wall: above the throat and not beyond the exit
      radius; below the inflection radius on the diverging circle's
      positive-x half, from there on the parabola. */
  ghost predicate DivergingSample(cfg: Config, g: Geometry, p: Point) {
    && cfg.throatRadius < p.y <= g.exitRadius
    && (if p.y < g.inflection.y
        then 0.0 <= p.x && OnCircle(p, 0.0, cfg.throatRadius + g.divergingRadius, g.divergingRadius)
        else p.x == Eval(g.coeffs, p.y))
  }

  /** The contour's start: the axis point below the converging arc's start. */
  function Start(cfg: Config): Point {
    Point(-(cfg.outsideRadius - cfg.throatRadius), 0.0)
  }

  /** The shape of the whole contour, with `converging` the number of
      converging samples: a closed chain from Start, whose last two edges go
      straight down from the last sample to the axis and along the axis back
      to Start. */
  ghost predicate ClosedThroughAxis(cfg: Config, edges: seq<Edge>, converging: nat) {
    var n := |edges|;
    && 1 <= converging && converging + 2 <= n
    && Chained(edges) && Closed(edges)
    && edges[0].src == Start(cfg)
    && edges[n - 2] == Edge(edges[n - 3].dst, Point(edges[n - 3].dst.x, 0.0))
    && edges[n - 1] == Edge(Point(edges[n - 3].dst.x, 0.0), Start(cfg))
  }

  /** The first `converging` samples: one step below the outside radius, then
      one step apart going down, all on the converging arc, until one more
      step would pass below rt. */
  ghost predicate ConvergingArc(cfg: Config, edges: seq<Edge>, converging: nat)
    requires 1 <= converging <= |edges|
  {
    && edges[0].dst.y == cfg.outsideRadius - cfg.delta
    && Steps(edges, 0, converging, -cfg.delta)
    && (forall i {:trigger ConvergingSample(cfg, edges[i].dst)} ::
          0 <= i < converging ==> ConvergingSample(cfg, edges[i].dst))
    && edges[converging - 1].dst.y - cfg.delta < cfg.throatRadius
  }

  /** The samples after the converging ones, up to the two closing edges: one
      step apart going up from the last converging sample, all on the
      diverging wall, until one more step would pass beyond the exit radius. */
  ghost predicate DivergingWall(cfg: Config, g: Geometry, edges: seq<Edge>, converging: nat)
    requires 1 <= converging && converging + 2 <= |edges|
  {
    var n := |edges|;
    && Steps(edges, converging - 1, n - 2, cfg.delta)
    && (forall i {:trigger DivergingSample(cfg, g, edges[i].dst)} ::
          converging <= i < n - 2 ==> DivergingSample(cfg, g, edges[i].dst))
    && edges[n - 3].dst.y + cfg.delta > g.exitRadius
  }

  /** The contour the script hands to Part.Wire. */
  ghost predicate Traced(cfg: Config, g: Geometry, edges: seq<Edge>, converging: nat) {
    && ClosedThroughAxis(cfg, edges, converging)
    && ConvergingArc(cfg, edges, converging)
    && DivergingWall(cfg, g, edges, converging)
  }

  /** The converging loop's invariant: the cursor (px, py) is where the last
      edge ends, at radius y (on the axis at Start before the first edge); the
      samples so far are one step apart from one step below the outside
      radius, all on the converging arc. */
  ghost predicate ConvergingSoFar(cfg: Config, edges: seq<Edge>, px: real, py: real, y: real) {
    if |edges| == 0 then
      y == cfg.outsideRadius && Point(px, py) == Start(cfg)
    else
      && edges[|edges| - 1].dst == Point(px, py) && y == py
      && edges[0].src == Start(cfg)
      && edges[0].dst.y == cfg.outsideRadius - cfg.delta
      && Chained(edges) && Steps(edges, 0, |edges|, -cfg.delta)
      && forall i :: 0 <= i < |edges| ==> ConvergingSample(cfg, edges[i].dst)
  }

  /** The converging loop: from the outside radius, step y down by delta
      until it would pass below rt; each sample lies on the converging arc
      (math.sqrt's argument is never negative there) and is joined to the
      cursor by an edge. The cursor starts on the axis, at Start. */
  method ConvergingPart(m: MathLib, cfg: Config) returns (edges: seq<Edge>, px: real, py: real)
    requires Lawful(m) && ValidConfig(cfg)
    ensures 1 <= |edges| && edges[|edges| - 1].dst == Point(px, py)
    ensures edges[0].src == Start(cfg) && Chained(edges)
    ensures ConvergingArc(cfg, edges, |edges|)
  {
    var rt, delta := cfg.throatRadius, cfg.delta;
    var y := cfg.outsideRadius;
    var convergingRadius := cfg.outsideRadius - rt;
    px, py := -convergingRadius, 0.0;
    edges := [];
    var x := 0.0;
    while true
      invariant rt <= y <= cfg.outsideRadius
      invariant ConvergingSoFar(cfg, edges, px, py, y)
      decreases ((y - rt) / delta).Floor
    {
      ghost var before := y;
      y := y - delta;
      if y < rt {
        ConvergingDone(cfg, edges, px, py, before);
        break;
      } else {
        ConvergingRoot(m, cfg, y);
        x := -m.sqrt(Sqr(convergingRadius) - Sqr(y - cfg.outsideRadius));
      }
      ConvergingExtend(cfg, edges, px, py, before, Point(x, y));
      edges := edges + [Edge(Point(px, py), Point(x, y))];
      px, py := x, y;
      FloorStep(before - rt, delta);
    }
  }

  /** Appending a converging sample one step below the cursor keeps the
      converging loop's invariant. */
  lemma ConvergingExtend(cfg: Config, edges: seq<Edge>, px: real, py: real, y: real, p: Point)
    requires ConvergingSoFar(cfg, edges, px, py, y)
    requires p.y == y - cfg.delta && ConvergingSample(cfg, p)
    ensures ConvergingSoFar(cfg, edges + [Edge(Point(px, py), p)], p.x, p.y, p.y)
  {
    var next := edges + [Edge(Point(px, py), p)];
    assert forall i :: 0 <= i < |edges| ==> next[i] == edges[i];
  }

  /** When the next step would pass below rt, the loop has sampled at least
      once and its samples form the converging arc. */
  lemma ConvergingDone(cfg: Config, edges: seq<Edge>, px: real, py: real, y: real)
    requires ValidConfig(cfg) && ConvergingSoFar(cfg, edges, px, py, y)
    requires y - cfg.delta < cfg.throatRadius
    ensures 1 <= |edges| && edges[|edges| - 1].dst == Point(px, py)
    ensures edges[0].src == Start(cfg) && Chained(edges)
    ensures ConvergingArc(cfg, edges, |edges|)
  {
  }

  /** The diverging loop's invariant: the given edges are kept, the cursor
      (px, py) is where the last edge ends, at or above the throat, and the
      new samples are one step apart going up, all on the diverging wall. */
  ghost predicate DivergingSoFar(cfg: Config, g: Geometry, edges0: seq<Edge>, edges: seq<Edge>, px: real, py: real) {
    && 0 < |edges0| <= |edges| && edges[..|edges0|] == edges0
    && edges[|edges| - 1].dst == Point(px, py) && cfg.throatRadius <= py
    && Chained(edges) && Steps(edges, |edges0| - 1, |edges|, cfg.delta)
    && forall i :: |edges0| <= i < |edges| ==> DivergingSample(cfg, g, edges[i].dst)
  }

  /** The diverging loop: from the cursor's radius py, step y up by delta
      until it would pass beyond the exit radius; below the inflection radius
      the sample lies on the diverging circle (math.sqrt's argument is never
      negative there, given py >= rt), from there on the parabola. Each sample
      is joined to the cursor by an edge appended to the given ones. */
  method DivergingPart(m: MathLib, cfg: Config, g: Geometry, edges0: seq<Edge>, px0: real, py0: real)
    returns (edges: seq<Edge>, px: real, py: real)
    requires Lawful(m) && 0.0 < cfg.delta && 0.0 < g.divergingRadius
    requires g.inflection.y <= cfg.throatRadius + 2.0 * g.divergingRadius
    requires 0 < |edges0| && edges0[|edges0| - 1].dst == Point(px0, py0) && Chained(edges0)
    requires cfg.throatRadius <= py0
    ensures |edges0| <= |edges| && edges[..|edges0|] == edges0
    ensures edges[|edges| - 1].dst == Point(px, py)
    ensures Chained(edges) && Steps(edges, |edges0| - 1, |edges|, cfg.delta)
    ensures forall i :: |edges0| <= i < |edges| ==> DivergingSample(cfg, g, edges[i].dst)
    ensures py + cfg.delta > g.exitRadius
  {
    var rt, delta := cfg.throatRadius, cfg.delta;
    var dr := g.divergingRadius;
    edges, px, py := edges0, px0, py0;
    var x, y;
    assert edges[..|edges0|] == edges0;
    while true
      invariant DivergingSoFar(cfg, g, edges0, edges, px, py)
      decreases ((g.exitRadius - py) / delta).Floor
    {
      y := py + delta;
      if y > g.exitRadius {
        DivergingDone(cfg, g, edges0, edges, px, py);
        break;
      } else {
        if y < g.inflection.y {
          // on the diverging circle
          DivergingRoot(m, cfg, g, y);
          x := m.sqrt(Sqr(dr) - Sqr(y - (rt + dr)));
        } else {
          // on the parabola
          x := Eval(g.coeffs, y);
          assert DivergingSample(cfg, g, Point(x, y));
        }
      }
      FloorStep(g.exitRadius - py, delta);
      DivergingExtend(cfg, g, edges0, edges, px, py, Point(x, y));
      edges := edges + [Edge(Point(px, py), Point(x, y))];
      px, py := x, y;
    }
  }

  /** When the next step would pass beyond the exit radius, the loop's
      invariant is the loop's postcondition. */
  lemma DivergingDone(cfg: Config, g: Geometry, edges0: seq<Edge>, edges: seq<Edge>, px: real, py: real)
    requires DivergingSoFar(cfg, g, edges0, edges, px, py) && py + cfg.delta > g.exitRadius
    ensures |edges0| <= |edges| && edges[..|edges0|] == edges0
    ensures edges[|edges| - 1].dst == Point(px, py)
    ensures Chained(edges) && Steps(edges, |edges0| - 1, |edges|, cfg.delta)
    ensures forall i :: |edges0| <= i < |edges| ==> DivergingSample(cfg, g, edges[i].dst)
    ensures py + cfg.delta > g.exitRadius
  {
  }

  /** Appending a diverging sample one step above the cursor keeps the
      diverging loop's invariant. */
  lemma DivergingExtend(cfg: Config, g: Geometry, edges0: seq<Edge>, edges: seq<Edge>, px: real, py: real, p: Point)
    requires DivergingSoFar(cfg, g, edges0, edges, px, py)
    requires p.y == py + cfg.delta && DivergingSample(cfg, g, p)
    ensures DivergingSoFar(cfg, g, edges0, edges + [Edge(Point(px, py), p)], p.x, p.y)
  {
    var next := edges + [Edge(Point(px, py), p)];
    assert forall i :: 0 <= i < |edges| ==> next[i] == edges[i];
    assert next[..|edges0|] == edges[..|edges0|];
  }

  /** The script's contour: the converging samples, the diverging samples,
      then an edge down to the axis and one along it back to the start. */
  method TraceContour(m: MathLib, cfg: Config, g: Geometry) returns (edges: seq<Edge>, converging: nat)
    requires Lawful(m) && ValidConfig(cfg) && DeriveGeometry(m, cfg) == Ok(g)
    ensures Traced(cfg, g, edges, converging)
  {
    var px, py;
    edges, px, py := ConvergingPart(m, cfg);
    converging := |edges|;
    ghost var arc := edges;
    assert ConvergingSample(cfg, edges[converging - 1].dst);
    edges, px, py := DivergingPart(m, cfg, g, edges, px, py);
    ghost var wall := edges;
    // back to the axis
    var convergingRadius := cfg.outsideRadius - cfg.throatRadius;
    edges := edges + [Edge(Point(px, py), Point(px, 0.0))];
    edges := edges + [Edge(Point(px, 0.0), Point(-convergingRadius, 0.0))];
    ClosingTheWall(cfg, g, arc, wall, edges, converging);
  }

  /** The contour's predicate follows from what the two loops establish and
      the two closing edges. */
  lemma ClosingTheWall(cfg: Config, g: Geometry, arc: seq<Edge>, wall: seq<Edge>, edges: seq<Edge>, converging: nat)
    requires converging == |arc| && 1 <= |arc| <= |wall|
    requires arc[0].src == Start(cfg) && ConvergingArc(cfg, arc, converging)
    requires wall[..converging] == arc && Chained(wall) && Steps(wall, converging - 1, |wall|, cfg.delta)
    requires forall i :: converging <= i < |wall| ==> DivergingSample(cfg, g, wall[i].dst)
    requires wall[|wall| - 1].dst.y + cfg.delta > g.exitRadius
    requires var last := wall[|wall| - 1].dst;
             edges == wall + [Edge(last, Point(last.x, 0.0)), Edge(Point(last.x, 0.0), Start(cfg))]
    ensures Traced(cfg, g, edges, converging)
  {
    assert wall[0] == arc[0];
    ChainThroughAxis(cfg, wall, edges);
    ArcInPrefix(cfg, arc, edges, converging);
    WallInPrefix(cfg, g, wall, edges, converging);
  }

  lemma ChainThroughAxis(cfg: Config, wall: seq<Edge>, edges: seq<Edge>)
    requires 1 <= |wall| && wall[0].src == Start(cfg) && Chained(wall)
    requires var last := wall[|wall| - 1].dst;
             edges == wall + [Edge(last, Point(last.x, 0.0)), Edge(Point(last.x, 0.0), Start(cfg))]
    ensures Chained(edges) && Closed(edges) && edges[0].src == Start(cfg)
  {
    assert forall i :: 0 <= i < |wall| ==> edges[i] == wall[i];
  }

  lemma ArcInPrefix(cfg: Config, arc: seq<Edge>, edges: seq<Edge>, converging: nat)
    requires 1 <= converging == |arc| <= |edges| && edges[..converging] == arc
    requires ConvergingArc(cfg, arc, converging)
    ensures ConvergingArc(cfg, edges, converging)
  {
    assert forall i :: 0 <= i < converging ==> edges[i] == arc[i];
  }

  lemma WallInPrefix(cfg: Config, g: Geometry, wall: seq<Edge>, edges: seq<Edge>, converging: nat)
    requires 1 <= converging <= |wall| && |edges| == |wall| + 2 && edges[..|wall|] == wall
    requires Steps(wall, converging - 1, |wall|, cfg.delta)
    requires forall i :: converging <= i < |wall| ==> DivergingSample(cfg, g, wall[i].dst)
    requires wall[|wall| - 1].dst.y + cfg.delta > g.exitRadius
    ensures DivergingWall(cfg, g, edges, converging)
  {
    assert forall i :: 0 <= i < |wall| ==> edges[i] == wall[i];
  }

  /** A radius in [rt, outside radius) is within the converging arc's reach:
      math.sqrt's argument is nonnegative, and the negative root gives a
      converging sample. */
  lemma ConvergingRoot(m: MathLib, cfg: Config, y: real)
    requires Lawful(m) && cfg.throatRadius <= y < cfg.outsideRadius
    ensures var v := Sqr(cfg.outsideRadius - cfg.throatRadius) - Sqr(y - cfg.outsideRadius);
            0.0 <= v && m.sqrt.requires(v) && ConvergingSample(cfg, Point(-m.sqrt(v), y))
  {
    var r := cfg.outsideRadius - cfg.throatRadius;
    var v := Sqr(r) - Sqr(y - cfg.outsideRadius);
    SquareMonotone(y - cfg.outsideRadius, r);
    SqrtIsRoot(m, v);
    RootOnCircle(m.sqrt(v), y, cfg.outsideRadius, r);
  }

  /** A radius above the throat and below both the exit and the inflection
      radius is within the diverging circle's reach: math.sqrt's argument is
      nonnegative, and the positive root gives a diverging sample. */
  lemma DivergingRoot(m: MathLib, cfg: Config, g: Geometry, y: real)
    requires Lawful(m) && 0.0 < g.divergingRadius
    requires g.inflection.y <= cfg.throatRadius + 2.0 * g.divergingRadius
    requires cfg.throatRadius < y <= g.exitRadius && y < g.inflection.y
    ensures var dr := g.divergingRadius;
            var v := Sqr(dr) - Sqr(y - (cfg.throatRadius + dr));
            0.0 <= v && m.sqrt.requires(v) && DivergingSample(cfg, g, Point(m.sqrt(v), y))
  {
    var dr, rt := g.divergingRadius, cfg.throatRadius;
    var v := Sqr(dr) - Sqr(y - (rt + dr));
    SquareMonotone(y - (rt + dr), dr);
    SqrtIsRoot(m, v);
    RootOnCircle(m.sqrt(v), y, rt + dr, dr);
  }

  /** A point whose x is a square root of r^2 - (y - cy)^2, of either sign,
      lies on the circle of radius r around (0, cy). */
  lemma RootOnCircle(s: real, y: real, cy: real, r: real)
    requires s * s == Sqr(r) - Sqr(y - cy)
    ensures OnCircle(Point(s, y), 0.0, cy, r) && OnCircle(Point(-s, y), 0.0, cy, r)
  {
  }

  /** One step of delta lowers the number of whole steps in u by exactly one. */
  lemma FloorStep(u: real, delta: real)
    requires 0.0 < delta
    ensures ((u - delta) / delta).Floor == (u / delta).Floor - 1
  {
    var q := u / delta;
    assert (q - 1.0) * delta == u - delta;
    DivUnique(u - delta, delta, q - 1.0);
  }

  // ---------------------------------------------------------------------
  // What the traced contour is, sample by sample

  /** The converging samples are exactly outside radius - k * delta for
      k = 1 .. N, where N = floor((outside radius - rt) / delta): every
      whole step that keeps the radius at or above the throat. */
  lemma ConvergingSamplesExactly(cfg: Config, g: Geometry, edges: seq<Edge>, converging: nat)
    requires ValidConfig(cfg) && Traced(cfg, g, edges, converging)
    ensures SpacedFrom(edges, 0, converging, cfg.outsideRadius, -cfg.delta)
    ensures converging == ((cfg.outsideRadius - cfg.throatRadius) / cfg.delta).Floor
  {
    assert ConvergingSample(cfg, edges[converging - 1].dst);
    SpacedDown(edges, converging, cfg.outsideRadius, cfg.delta);
    CountDown(edges, converging, cfg.outsideRadius, cfg.throatRadius, cfg.delta);
  }

  /** The diverging samples are exactly y0 + k * delta for k = 1 .. M, where
      y0 is the last converging sample and M is the number of whole steps from
      y0 up to the exit radius (none when the exit radius is below y0). The
      last of them is therefore within one step below the exit radius. */
  lemma DivergingSamplesExactly(cfg: Config, g: Geometry, edges: seq<Edge>, converging: nat)
    requires ValidConfig(cfg) && Traced(cfg, g, edges, converging)
    ensures SpacedFrom(edges, converging, |edges| - 2, edges[converging - 1].dst.y, cfg.delta)
    ensures var y0 := edges[converging - 1].dst.y;
            |edges| - 2 - converging == if g.exitRadius < y0 then 0 else ((g.exitRadius - y0) / cfg.delta).Floor
    ensures converging < |edges| - 2 ==>
              g.exitRadius - cfg.delta < edges[|edges| - 3].dst.y <= g.exitRadius
  {
    var n := |edges|;
    if converging < n - 2 {
      assert DivergingSample(cfg, g, edges[n - 3].dst);
    }
    SpacedUp(edges, converging - 1, n - 2, cfg.delta);
    CountUp(edges, converging - 1, n - 2, g.exitRadius, cfg.delta);
  }

  /** Along the contour the radius falls strictly on the converging arc and
      rises strictly on the diverging wall. */
  lemma RadiiMonotone(cfg: Config, g: Geometry, edges: seq<Edge>, converging: nat)
    requires ValidConfig(cfg) && Traced(cfg, g, edges, converging)
    ensures forall i, j :: 0 <= i < j < converging ==> edges[j].dst.y < edges[i].dst.y
    ensures forall i, j :: converging - 1 <= i < j < |edges| - 2 ==> edges[i].dst.y < edges[j].dst.y
  {
    forall i, j | 0 <= i < j < converging
      ensures edges[j].dst.y < edges[i].dst.y
    {
      StepsMonotone(edges, 0, converging, -cfg.delta, i, j);
    }
    forall i, j | converging - 1 <= i < j < |edges| - 2
      ensures edges[i].dst.y < edges[j].dst.y
    {
      StepsMonotone(edges, converging - 1, |edges| - 2, cfg.delta, i, j);
    }
  }

  // ---------------------------------------------------------------------
  // Arithmetic of equal steps

  /** Within a run of equal steps the radii form an arithmetic progression. */
  lemma {:induction false} StepsProgression(edges: seq<Edge>, lo: int, hi: int, step: real, j: int)
    requires 0 <= lo <= j < hi <= |edges| && Steps(edges, lo, hi, step)
    ensures edges[j].dst.y == edges[lo].dst.y + (j - lo) as real * step
  {
    if lo < j {
      StepsProgression(edges, lo, hi, step, j - 1);
      calc {
        edges[j].dst.y;
      == edges[j - 1].dst.y + step;
      == edges[lo].dst.y + (j - 1 - lo) as real * step + step;
      == edges[lo].dst.y + (j - lo) as real * step;
      }
    }
  }

  /** Within a run of equal steps the radii move strictly in the step's
      direction. */
  lemma {:induction false} StepsMonotone(edges: seq<Edge>, lo: int, hi: int, step: real, i: int, j: int)
    requires 0 <= lo <= i < j < hi <= |edges| && Steps(edges, lo, hi, step) && step != 0.0
    ensures step > 0.0 ==> edges[i].dst.y < edges[j].dst.y
    ensures step < 0.0 ==> edges[j].dst.y < edges[i].dst.y
  {
    if i + 1 < j {
      StepsMonotone(edges, lo, hi, step, i, j - 1);
    }
  }

  /** Samples one step d apart going down from top - d are top - k * d. */
  lemma SpacedDown(edges: seq<Edge>, n: nat, top: real, d: real)
    requires 1 <= n <= |edges|
    requires edges[0].dst.y == top - d && Steps(edges, 0, n, -d)
    ensures SpacedFrom(edges, 0, n, top, -d)
  {
    forall i | 0 <= i < n
      ensures edges[i].dst.y == top + (i - 0 + 1) as real * -d
    {
      StepsProgression(edges, 0, n, -d, i);
    }
  }

  /** n such samples, the last at or above bottom and one more step below
      it, are floor((top - bottom) / d) in number. */
  lemma CountDown(edges: seq<Edge>, n: nat, top: real, bottom: real, d: real)
    requires 0.0 < d && 1 <= n <= |edges|
    requires SpacedFrom(edges, 0, n, top, -d)
    requires bottom <= edges[n - 1].dst.y && edges[n - 1].dst.y - d < bottom
    ensures n == ((top - bottom) / d).Floor
  {
    assert edges[n - 1].dst.y == top + (n - 1 - 0 + 1) as real * -d;
    FloorBetween(top - bottom, d, n);
  }

  /** Samples one step d apart going up after index lo are y + k * d, with y
      the sample at lo. */
  lemma SpacedUp(edges: seq<Edge>, lo: nat, hi: nat, d: real)
    requires lo < hi <= |edges| && Steps(edges, lo, hi, d)
    ensures SpacedFrom(edges, lo + 1, hi, edges[lo].dst.y, d)
  {
    forall i | lo + 1 <= i < hi
      ensures edges[i].dst.y == edges[lo].dst.y + (i - (lo + 1) + 1) as real * d
    {
      StepsProgression(edges, lo, hi, d, i);
    }
  }

  /** When they run until one more step would pass beyond top, there are as
      many of them as whole steps fit between y and top (none when top is
      below y), and the last lies within one step below top. */
  lemma CountUp(edges: seq<Edge>, lo: nat, hi: nat, top: real, d: real)
    requires 0.0 < d && lo < hi <= |edges| && Steps(edges, lo, hi, d)
    requires edges[hi - 1].dst.y + d > top
    requires lo + 1 < hi ==> edges[hi - 1].dst.y <= top
    ensures hi - 1 - lo == if top < edges[lo].dst.y then 0 else ((top - edges[lo].dst.y) / d).Floor
    ensures lo + 1 < hi ==> top - d < edges[hi - 1].dst.y <= top
  {
    var y0, count := edges[lo].dst.y, hi - 1 - lo;
    StepsProgression(edges, lo, hi, d, hi - 1);
    if y0 <= top {
      assert count as real * d <= top - y0;
      FloorBetween(top - y0, d, count);
    } else if lo + 1 < hi {
      StepsMonotone(edges, lo, hi, d, lo, hi - 1);
      assert false;
    }
  }

  /** k = floor(u / d) whenever k * d <= u < (k + 1) * d. */
  lemma FloorBetween(u: real, d: real, k: int)
    requires 0.0 < d && k as real * d <= u < (k + 1) as real * d
    ensures (u / d).Floor == k
  {
    var q := u / d;
    assert q * d == u;
    calc {
      (q - k as real) * d;
    == q * d - k as real * d;
    >= 0.0;
    }
    calc {
      (k as real + 1.0 - q) * d;
    == (k + 1) as real * d - q * d;
    > 0.0;
    }
    SignOfFactor(q - k as real, d);
    SignOfFactor(k as real + 1.0 - q, d);
  }

  lemma SignOfFactor(x: real, d: real)
    requires 0.0 < d
    ensures x * d >= 0.0 ==> x >= 0.0
    ensures x * d > 0.0 ==> x > 0.0
  {
  }
}
