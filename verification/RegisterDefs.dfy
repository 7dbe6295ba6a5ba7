/** Register definitions and the scaling both codecs share (registers/register_def.py,
    registers/codec.py). Numbers are exact: reals stand for the source's Decimal and float values. */
module RegisterDefs {
  import opened Common

  datatype Kind = Plain | I16 | U32 | I32 | U64 | I64 | Text

  datatype WordOrder = BigEndian | LittleEndian

  /** A register without enum, bitmask, BCD or AATT encoding. */
  datatype RegisterDef = RegisterDef(
    function_: int,
    address: int,
    length: nat,
    kind: Kind,
    order: WordOrder,
    temperature: bool,
    dac: bool,
    minimum: Option<real>,
    maximum: Option<real>,
    multiplier: real,
    resolution: real)
  {
    predicate Scalable() {
      multiplier > 0.0 && resolution > 0.0
    }

    predicate WithinLimits(v: real) {
      && (minimum.Some? ==> minimum.value <= v)
      && (maximum.Some? ==> v <= maximum.value)
    }
  }

  datatype EncodeError = OutsideLimits | Overflow | NotAscii

  // ---------------------------------------------------------------- rounding

  /** int(x): towards zero. */
  function Truncate(x: real): int {
    if x >= 0.0 then x.Floor else -((-x).Floor)
  }

  /** Decimal ROUND_HALF_UP: ties away from zero. */
  function RoundHalfUp(x: real): int {
    if x >= 0.0 then (x + 0.5).Floor else -((-x + 0.5).Floor)
  }

  /** round(x): ties to the even neighbour. */
  function RoundHalfEven(x: real): int {
    var below := x.Floor;
    var rest := x - below as real;
    if rest < 0.5 || (rest == 0.5 && below % 2 == 0) then below else below + 1
  }

  lemma IntegersStay(n: int)
    ensures RoundHalfUp(n as real) == RoundHalfEven(n as real) == Truncate(n as real) == n
  {
  }

  /** At most half off; a tie goes away from zero. */
  lemma HalfUpError(x: real)
    ensures var error := RoundHalfUp(x) as real - x;
            -0.5 <= error <= 0.5 && (error == 0.5 ==> x > 0.0) && (error == -0.5 ==> x < 0.0)
  {
    var up := if x >= 0.0 then (x + 0.5).Floor else (-x + 0.5).Floor;
    assert if x >= 0.0 then up as real <= x + 0.5 < up as real + 1.0 else up as real <= -x + 0.5 < up as real + 1.0;
  }

  /** At most half off; a tie goes to the even neighbour. */
  lemma HalfEvenError(x: real)
    ensures var error := RoundHalfEven(x) as real - x;
            -0.5 <= error <= 0.5 && (error == 0.5 || error == -0.5 ==> RoundHalfEven(x) % 2 == 0)
  {
    var below := x.Floor;
    NextIsEven(below);
    assert below as real <= x < below as real + 1.0;
  }

  lemma NextIsEven(n: int)
    ensures (n + 1) % 2 == 0 <==> n % 2 != 0
  {
  }

  lemma RoundingError(x: real)
    ensures -0.5 <= RoundHalfUp(x) as real - x <= 0.5
    ensures -0.5 <= RoundHalfEven(x) as real - x <= 0.5
  {
    hide RoundHalfUp, RoundHalfEven;
    HalfUpError(x);
    HalfEvenError(x);
  }

  /** Less than one off, towards zero. */
  lemma TruncationError(x: real)
    ensures x >= 0.0 ==> 0.0 <= x - Truncate(x) as real < 1.0
    ensures x < 0.0 ==> 0.0 <= Truncate(x) as real - x < 1.0
  {
  }

  lemma RoundingMonotone(x: real, y: real)
    requires x <= y
    ensures RoundHalfUp(x) <= RoundHalfUp(y) && Truncate(x) <= Truncate(y)
  {
  }

  // ---------------------------------------------------------------- whole numbers of units

  function Units(n: int, u: real): real {
    n as real * u
  }

  function NearestUp(x: real, u: real): int
    requires u > 0.0
  {
    RoundHalfUp(x / u)
  }

  function NearestEven(x: real, u: real): int
    requires u > 0.0
  {
    RoundHalfEven(x / u)
  }

  lemma UnitsMonotone(m: int, n: int, u: real)
    requires m <= n && u > 0.0
    ensures Units(m, u) <= Units(n, u)
  {
    assert Units(n, u) - Units(m, u) == (n - m) as real * u;
  }

  lemma DivideUnits(n: int, u: real)
    requires u > 0.0
    ensures Units(n, u) / u == n as real
  {
  }

  lemma QuotientOrdered(x: real, y: real, u: real)
    requires x <= y && u > 0.0
    ensures x / u <= y / u
  {
    assert y / u - x / u == (y - x) / u;
  }

  lemma NearestExact(n: int, u: real)
    requires u > 0.0
    ensures NearestUp(Units(n, u), u) == NearestEven(Units(n, u), u) == n
  {
    DivideUnits(n, u);
    IntegersStay(n);
  }

  lemma NearestMonotone(x: real, y: real, u: real)
    requires x <= y && u > 0.0
    ensures NearestUp(x, u) <= NearestUp(y, u)
  {
    QuotientOrdered(x, y, u);
    RoundingMonotone(x / u, y / u);
  }

  /** Rounding to a whole number of units moves a value by at most half a unit. */
  lemma NearestError(x: real, u: real)
    requires u > 0.0
    ensures -(u / 2.0) <= Units(NearestUp(x, u), u) - x <= u / 2.0
  {
    RoundingError(x / u);
    DifferenceScaled(NearestUp(x, u), x / u, x, u);
  }

  lemma UnitsOrdered(n: int, low: real, high: real, u: real)
    requires low <= n as real <= high && u > 0.0
    ensures low * u <= Units(n, u) <= high * u
  {
    assert high * u - Units(n, u) == (high - n as real) * u;
    assert Units(n, u) - low * u == (n as real - low) * u;
  }

  lemma DifferenceScaled(n: int, q: real, x: real, u: real)
    requires u > 0.0 && q == x / u && -0.5 <= n as real - q <= 0.5
    ensures -(u / 2.0) <= Units(n, u) - x <= u / 2.0
  {
    var top, bottom := q + 0.5, q - 0.5;
    assert q * u == x;
    assert top * u == x + u / 2.0 && bottom * u == x - u / 2.0;
    UnitsOrdered(n, bottom, top, u);
  }

  // ---------------------------------------------------------------- scaling

  /** apply_output_scaling */
  function ApplyOutputScaling(def: RegisterDef, raw: int): real
    requires def.Scalable()
  {
    var scaled := if def.multiplier != 1.0 then Units(raw, def.multiplier) else raw as real;
    if def.resolution != 1.0 then Units(NearestEven(scaled, def.resolution), def.resolution) else scaled
  }

  /** coerce_scaled_input: limits, then whole resolution steps, then raw units. */
  function CoerceScaledInput(def: RegisterDef, value: real): Result<real, EncodeError>
    requires def.Scalable()
  {
    if !def.WithinLimits(value) then Err(OutsideLimits) else Ok(RawUnits(def, Stepped(def, value)))
  }

  function Stepped(def: RegisterDef, value: real): real
    requires def.Scalable()
  {
    if def.resolution != 1.0 then Units(NearestUp(value, def.resolution), def.resolution) else value
  }

  function RawUnits(def: RegisterDef, value: real): real
    requires def.Scalable()
  {
    if def.multiplier != 1.0 then NearestUp(value, def.multiplier) as real else value
  }

  /** The multiplier is a whole number of resolution steps, or there is no stepping at all. */
  ghost predicate Compatible(def: RegisterDef) {
    && def.Scalable()
    && (def.resolution == 1.0 || exists k: int :: IsMultiple(def, k))
  }

  predicate IsMultiple(def: RegisterDef, k: int) {
    def.multiplier == Units(k, def.resolution)
  }

  lemma UnitsOfUnits(n: int, k: int, r: real)
    ensures Units(n, Units(k, r)) == Units(n * k, r)
  {
  }

  lemma UnitOne(n: int)
    ensures Units(n, 1.0) == n as real
  {
  }

  /** On a compatible register decoding loses nothing: the steps fall on multiples of the multiplier. */
  lemma OutputIsExact(def: RegisterDef, raw: int)
    requires Compatible(def)
    ensures ApplyOutputScaling(def, raw) == Units(raw, def.multiplier)
    ensures Stepped(def, Units(raw, def.multiplier)) == Units(raw, def.multiplier)
  {
    UnitOne(raw);
    if def.resolution != 1.0 {
      var k :| IsMultiple(def, k);
      UnitsOfUnits(raw, k, def.resolution);
      NearestExact(raw * k, def.resolution);
    }
  }

  /** Encoding a decoded value returns the raw number it came from. */
  lemma CoerceInvertsOutput(def: RegisterDef, raw: int)
    requires Compatible(def) && def.WithinLimits(ApplyOutputScaling(def, raw))
    ensures CoerceScaledInput(def, ApplyOutputScaling(def, raw)) == Ok(raw as real)
  {
    OutputIsExact(def, raw);
    NearestExact(raw, def.multiplier);
    UnitOne(raw);
  }

  lemma CoerceMonotone(def: RegisterDef, v: real, w: real)
    requires def.Scalable() && v <= w && def.WithinLimits(v) && def.WithinLimits(w)
    ensures CoerceScaledInput(def, v).value <= CoerceScaledInput(def, w).value
  {
    var r := def.resolution;
    NearestMonotone(v, w, r);
    UnitsMonotone(NearestUp(v, r), NearestUp(w, r), r);
    NearestMonotone(Stepped(def, v), Stepped(def, w), def.multiplier);
  }

  function HalfStep(def: RegisterDef): real {
    if def.resolution != 1.0 then def.resolution / 2.0 else 0.0
  }

  lemma CoerceError(def: RegisterDef, v: real)
    requires def.Scalable() && def.multiplier != 1.0
    ensures var bound := def.multiplier / 2.0 + HalfStep(def);
            -bound <= Units(NearestUp(Stepped(def, v), def.multiplier), def.multiplier) - v <= bound
  {
    NearestError(v, def.resolution);
    NearestError(Stepped(def, v), def.multiplier);
  }
}
