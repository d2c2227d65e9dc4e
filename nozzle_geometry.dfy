/** The nozzle script's set-up: its constants, and the values it derives
    from them before sampling (exit radius, diverging radius, inflection
    point, parabola coefficients). */
module NozzleGeometry {
  import opened Elementary
  import opened CurveSolver

  /** The script's module-level constants, as parameters. */
  datatype Config = Config(
    throatRadius: real,          // rt
    inflectionAngleDeg: real,
    exitAngleDeg: real,
    expansionRatio: real,        // exit area / throat area
    delta: real,                 // radial sampling step
    outsideRadius: real,
    divergingRadiusKoef: real)

  /** What the script needs of its constants: a positive step, a throat one
      step or more below the outside radius (so the converging loop samples at
      least once), positive lengths, and an expansion ratio math.sqrt
      accepts. */
  predicate ValidConfig(cfg: Config) {
    && 0.0 < cfg.throatRadius
    && 0.0 < cfg.delta
    && cfg.throatRadius <= cfg.outsideRadius - cfg.delta
    && 0.0 < cfg.divergingRadiusKoef
    && 0.0 <= cfg.expansionRatio
  }

  /** The values the script derives before sampling. */
  datatype Geometry = Geometry(
    exitRadius: real,
    divergingRadius: real,
    inflection: Point,
    coeffs: Coeffs)

  function DivergingRadius(cfg: Config): real {
    cfg.divergingRadiusKoef * cfg.throatRadius
  }

  /** exit_radius: the radius whose square is rt^2 times the expansion ratio. */
  function ExitRadius(m: MathLib, cfg: Config): (r: real)
    requires Lawful(m) && 0.0 <= cfg.expansionRatio
    ensures 0.0 <= r && Sqr(r) == Sqr(cfg.throatRadius) * cfg.expansionRatio
  {
    var v := cfg.throatRadius * cfg.throatRadius * cfg.expansionRatio;
    SqrtIsRoot(m, v);
    m.sqrt(v)
  }

  /** xy_i: the point of the diverging circle (centre on the throat's
      normal, radius 0.382 rt in the script) where the wall turns from arc
      to parabola. It lies on that circle, so no higher than the circle's
      top. */
  function InflectionPoint(m: MathLib, cfg: Config): (p: Point)
    requires Lawful(m) && 0.0 < cfg.throatRadius && 0.0 < cfg.divergingRadiusKoef
    ensures OnCircle(p, 0.0, cfg.throatRadius + DivergingRadius(cfg), DivergingRadius(cfg))
    ensures p.y <= cfg.throatRadius + 2.0 * DivergingRadius(cfg)
  {
    var dr := DivergingRadius(cfg);
    var p := CirclePoint(m, Radians(m, cfg.inflectionAngleDeg), dr, 0.0, (1.0 + cfg.divergingRadiusKoef) * cfg.throatRadius);
    SquareBoundsRoot(p.y - (cfg.throatRadius + dr), dr);
    p
  }

  /** Everything the sampler relies on about the derived values. */
  ghost predicate Consistent(m: MathLib, cfg: Config, g: Geometry) {
    && 0.0 <= g.exitRadius
    && Sqr(g.exitRadius) == Sqr(cfg.throatRadius) * cfg.expansionRatio
    && g.divergingRadius == DivergingRadius(cfg)
    && OnCircle(g.inflection, 0.0, cfg.throatRadius + g.divergingRadius, g.divergingRadius)
    && g.inflection.y <= cfg.throatRadius + 2.0 * g.divergingRadius
    && m.tan(Radians(m, cfg.inflectionAngleDeg)) != 0.0
    && m.tan(Radians(m, cfg.exitAngleDeg)) != 0.0
    && Fits(g.coeffs, g.inflection, 1.0 / m.tan(Radians(m, cfg.inflectionAngleDeg)),
            g.exitRadius, 1.0 / m.tan(Radians(m, cfg.exitAngleDeg)))
  }

  /** The script's set-up: exit radius, diverging radius, inflection point and
      parabola coefficients. It fails exactly when parabola_koef divides by
      zero; otherwise its values are consistent. */
  function DeriveGeometry(m: MathLib, cfg: Config): (r: Result<Geometry>)
    requires Lawful(m) && ValidConfig(cfg)
    ensures r.Err? <==>
              || m.tan(Radians(m, cfg.inflectionAngleDeg)) == 0.0
              || m.tan(Radians(m, cfg.exitAngleDeg)) == 0.0
              || ExitRadius(m, cfg) == InflectionPoint(m, cfg).y
    ensures r.Ok? ==> Consistent(m, cfg, r.value)
  {
    var exitRadius := ExitRadius(m, cfg);
    var inflection := InflectionPoint(m, cfg);
    match ParabolaKoef(m, Radians(m, cfg.inflectionAngleDeg), Radians(m, cfg.exitAngleDeg), exitRadius, inflection)
    case Err(e) => Err(e)
    case Ok(k) => Ok(Geometry(exitRadius, DivergingRadius(cfg), inflection, k))
  }
}
