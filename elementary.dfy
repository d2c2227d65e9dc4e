/** The floating-point library the nozzle script calls (math.sqrt, math.sin,
    math.cos, math.tan and the constant behind math.radians), seen as
    real-valued functions handed to the model. Nothing is assumed of them
    except the identities collected in Lawful. */
module Elementary {

  /** Raised by the script's divisions: Python's ZeroDivisionError. */
  datatype MathError = ZeroDivisionError

  datatype Result<T> = Ok(value: T) | Err(error: MathError)

  /** math.sqrt is partial (a negative argument raises ValueError), so it is a
      partial arrow: a caller must show its argument is nonnegative. */
  datatype MathLib = MathLib(
    sqrt: real --> real,
    sin: real -> real,
    cos: real -> real,
    tan: real -> real,
    pi: real)

  /** The only facts the model uses about the library. */
  ghost predicate Lawful(m: MathLib) {
    && (forall v: real :: m.sqrt.requires(v) <==> 0.0 <= v)
    && (forall v: real :: 0.0 <= v ==> 0.0 <= m.sqrt(v) && m.sqrt(v) * m.sqrt(v) == v)
    && (forall t: real :: m.cos(t) * m.cos(t) + m.sin(t) * m.sin(t) == 1.0)
  }

  /** math.radians */
  function Radians(m: MathLib, degrees: real): real {
    degrees * m.pi / 180.0
  }

  /** A square root the library returns is the nonnegative root of its argument. */
  lemma SqrtIsRoot(m: MathLib, v: real)
    requires Lawful(m) && 0.0 <= v
    ensures m.sqrt.requires(v)
    ensures 0.0 <= m.sqrt(v) && m.sqrt(v) * m.sqrt(v) == v
  {
  }

  /** Both sine and cosine stay within [-1, 1]; this follows from the unit
      circle identity alone. */
  lemma SinCosBounded(m: MathLib, t: real)
    requires Lawful(m)
    ensures -1.0 <= m.sin(t) <= 1.0 && -1.0 <= m.cos(t) <= 1.0
  {
    assert m.cos(t) * m.cos(t) + m.sin(t) * m.sin(t) == 1.0;
  }
}
