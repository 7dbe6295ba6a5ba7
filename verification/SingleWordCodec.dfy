/** One-word scaled registers (registers/register_def.py). */
module SingleWordCodec {
  import opened Common
  import opened RegisterDefs

  function Signed16(raw: int): int {
    if raw < 32768 then raw else raw - 65536
  }

  /** decode of one register; None is an unavailable reading. */
  function Decode(def: RegisterDef, raw: int): Option<real>
    requires def.Scalable()
  {
    if def.dac && !(0 <= raw <= 4095) then None
    else if raw == 32768 && (def.function_ == 4 || def.temperature) then None
    else Some(ApplyOutputScaling(def, if def.kind == I16 then Signed16(raw) else raw))
  }

  /** encode of one register: the scaled value truncated, masked to 16 bits when it is signed. */
  function Encode(def: RegisterDef, value: real): Result<int, EncodeError>
    requires def.Scalable()
  {
    var scaled := CoerceScaledInput(def, value);
    if scaled.Err? then Err(scaled.error)
    else if def.kind == I16 then Ok(Truncate(scaled.value) % 65536)
    else Ok(Truncate(scaled.value))
  }

  /** Writing back what was read changes nothing. */
  lemma EncodeInvertsDecode(def: RegisterDef, raw: int)
    requires Compatible(def) && 0 <= raw < 65536
    requires Decode(def, raw).Some? && def.WithinLimits(Decode(def, raw).value)
    ensures Encode(def, Decode(def, raw).value) == Ok(raw)
  {
    var n := if def.kind == I16 then Signed16(raw) else raw;
    CoerceInvertsOutput(def, n);
    IntegersStay(n);
  }

  /** The number a raw word stands for before scaling. */
  function Meaning(def: RegisterDef, raw: int): int {
    if def.kind == I16 then Signed16(raw) else raw
  }

  /** A signed register can hold the raw value of a request. */
  predicate Holdable(def: RegisterDef, value: real)
    requires def.Scalable() && CoerceScaledInput(def, value).Ok?
  {
    def.kind == I16 ==> -32768 <= Truncate(CoerceScaledInput(def, value).value) < 32768
  }

  /** The raw number of a request, before any masking. */
  function RawNumber(def: RegisterDef, value: real): int
    requires def.Scalable() && CoerceScaledInput(def, value).Ok?
  {
    Truncate(CoerceScaledInput(def, value).value)
  }

  /** How often a raw number wraps around the signed 16-bit range. */
  function Wraps(n: int): int {
    (n + 32768) / 65536
  }

  lemma RawMonotone(def: RegisterDef, v: real, w: real)
    requires def.Scalable() && v <= w && Encode(def, v).Ok? && Encode(def, w).Ok?
    ensures RawNumber(def, v) <= RawNumber(def, w)
  {
    CoerceMonotone(def, v, w);
    RoundingMonotone(CoerceScaledInput(def, v).value, CoerceScaledInput(def, w).value);
  }

  /** A larger request never means a smaller raw number, unless a signed register wraps around between the
      two requests by more than they are apart; requests it can hold do not wrap. */
  lemma EncodeMonotone(def: RegisterDef, v: real, w: real)
    requires def.Scalable() && v <= w && Encode(def, v).Ok? && Encode(def, w).Ok?
    ensures var wraps := if def.kind == I16 then Wraps(RawNumber(def, w)) - Wraps(RawNumber(def, v)) else 0;
            Meaning(def, Encode(def, v).value) <= Meaning(def, Encode(def, w).value)
            <==> RawNumber(def, w) - RawNumber(def, v) >= 65536 * wraps
    ensures Holdable(def, v) && Holdable(def, w) ==>
              Meaning(def, Encode(def, v).value) <= Meaning(def, Encode(def, w).value)
  {
    RawMonotone(def, v, w);
    Masked(RawNumber(def, v));
    Masked(RawNumber(def, w));
  }

  lemma Masked(n: int)
    ensures Signed16(n % 65536) == n - 65536 * Wraps(n)
    ensures Wraps(n) == 0 <==> -32768 <= n < 32768
  {
  }

  function ErrorBound(def: RegisterDef): real {
    def.multiplier / 2.0 + HalfStep(def)
  }

  /** Half a raw unit off, plus half a resolution step; without a multiplier the request is cut off, not
      rounded, and less than one off. */
  predicate Near(def: RegisterDef, seen: real, v: real) {
    if def.multiplier != 1.0 then -ErrorBound(def) <= seen - v <= ErrorBound(def)
    else -(1.0 + HalfStep(def)) < seen - v < 1.0 + HalfStep(def)
  }

  /** The word of a raw number is not one of those that read as unavailable. */
  predicate ReadsAsNumber(def: RegisterDef, n: int) {
    && (def.dac ==> n % 65536 <= 4095)
    && (def.function_ == 4 || def.temperature ==> n % 65536 != 32768)
  }

  /** The value a raw number stands for is near the request exactly when no masking has moved it. */
  lemma MeaningNearRequest(def: RegisterDef, v: real)
    requires Compatible(def) && Encode(def, v).Ok?
    ensures Near(def, Units(Meaning(def, Encode(def, v).value), def.multiplier), v) <==> Holdable(def, v)
  {
    var n, m := RawNumber(def, v), Meaning(def, Encode(def, v).value);
    RawNearRequest(def, v);
    MaskedSign(n);
    if m != n {
      BoundIsSmall(def);
      if m <= n - 65536 {
        UnitsMonotone(m, n - 65536, def.multiplier);
      } else {
        UnitsMonotone(n + 65536, m, def.multiplier);
      }
      FarApart(n, def.multiplier);
    }
  }

  lemma RawNearRequest(def: RegisterDef, v: real)
    requires Compatible(def) && Encode(def, v).Ok?
    ensures Near(def, Units(RawNumber(def, v), def.multiplier), v)
  {
    if def.multiplier != 1.0 {
      IntegersStay(NearestUp(Stepped(def, v), def.multiplier));
      CoerceError(def, v);
    } else {
      UnitOne(RawNumber(def, v));
      NearestError(v, def.resolution);
    }
  }

  /** decode(encode(v)), for every compatible register and every accepted request. A value that is read at
      all is near v exactly when a signed register can hold the raw number; and an encoding that is a word
      is read as a value near v exactly when, besides, that word does not stand for "unavailable". */
  lemma DecodeNearRequest(def: RegisterDef, v: real)
    requires Compatible(def) && Encode(def, v).Ok?
    ensures var word := Encode(def, v).value;
            var seen := Decode(def, word);
            && (seen.Some? ==> (Near(def, seen.value, v) <==> Holdable(def, v)))
            && (0 <= word < 65536 ==>
                  (seen.Some? && Near(def, seen.value, v)
                   <==> Holdable(def, v) && ReadsAsNumber(def, RawNumber(def, v))))
  {
    MeaningNearRequest(def, v);
    OutputIsExact(def, Meaning(def, Encode(def, v).value));
  }

  /** The second exception is real too: a temperature in half degrees takes 16384 and a signed one -16384,
      a DAC register in half units takes 2500, and each reads back as unavailable. */
  lemma RequestReadsAsUnavailable()
    ensures var def := RegisterDef(3, 100, 1, Plain, BigEndian, true, false, None, None, 0.5, 0.5);
            Encode(def, 16384.0) == Ok(32768) && Holdable(def, 16384.0) && Decode(def, 32768) == None
    ensures var def := RegisterDef(3, 100, 1, I16, BigEndian, true, false, None, None, 0.5, 0.5);
            Encode(def, -16384.0) == Ok(32768) && Holdable(def, -16384.0) && Decode(def, 32768) == None
    ensures var def := RegisterDef(3, 100, 1, Plain, BigEndian, false, true, None, None, 0.5, 0.5);
            Encode(def, 2500.0) == Ok(5000) && Holdable(def, 2500.0) && Decode(def, 5000) == None
  {
    forall n: int | n in {32768, -32768, 5000}
      ensures NearestUp(Units(n, 0.5), 0.5) == n && RoundHalfUp(n as real) == Truncate(n as real) == n
    {
      NearestExact(n, 0.5);
      IntegersStay(n);
    }
    assert NearestUp(Units(32768, 0.5), 0.5) == 32768;
    assert NearestUp(Units(-32768, 0.5), 0.5) == -32768;
    assert NearestUp(Units(5000, 0.5), 0.5) == 5000;
  }

  /** The failing side is not empty: a signed register in steps of 2 takes 80000 and reads back less than
      zero. Neither is that of EncodeMonotone: 65536 encodes to a smaller number than 65534. */
  lemma SignedRegisterWraps()
    ensures var def := RegisterDef(3, 100, 1, I16, BigEndian, false, false, None, None, 2.0, 1.0);
            && Encode(def, 80000.0) == Ok(40000) && !Holdable(def, 80000.0)
            && Decode(def, 40000) == Some(-51072.0)
            && Encode(def, 65534.0) == Ok(32767) && Encode(def, 65536.0) == Ok(32768)
            && Meaning(def, 32768) < Meaning(def, 32767)
  {
    var def := RegisterDef(3, 100, 1, I16, BigEndian, false, false, None, None, 2.0, 1.0);
    forall n: int | n in {40000, 32767, 32768} ensures Encode(def, Units(n, 2.0)) == Ok(n) {
      NearestExact(n, 2.0);
      IntegersStay(n);
    }
    assert Encode(def, Units(40000, 2.0)) == Ok(40000);
    assert Encode(def, Units(32767, 2.0)) == Ok(32767) && Encode(def, Units(32768, 2.0)) == Ok(32768);
    assert Units(-25536, 2.0) == -51072.0;
  }

  /** A register without a signed type is not masked: its encoding is a 16-bit word exactly when the
      request, in resolution steps, is less than half a unit (without a multiplier, less than one) beyond
      0 .. 65535. */
  lemma UnsignedIsWord(def: RegisterDef, v: real)
    requires def.Scalable() && def.kind != I16 && Encode(def, v).Ok?
    ensures 0 <= Encode(def, v).value < 65536
       <==> if def.multiplier == 1.0 then -1.0 < Stepped(def, v) < 65536.0
            else -0.5 < Stepped(def, v) / def.multiplier < 65535.5
  {
    IntegersStay(NearestUp(Stepped(def, v), def.multiplier));
  }

  lemma FarApart(n: int, u: real)
    ensures Units(n - 65536, u) == Units(n, u) - 65536.0 * u
    ensures Units(n + 65536, u) == Units(n, u) + 65536.0 * u
  {
  }

  /** On a compatible register a resolution step is at most one raw unit. */
  lemma BoundIsSmall(def: RegisterDef)
    requires Compatible(def)
    ensures HalfStep(def) <= def.multiplier / 2.0
  {
    if def.resolution != 1.0 {
      var k :| IsMultiple(def, k);
      if k <= 0 {
        UnitsMonotone(k, 0, def.resolution);
        assert false;
      }
      UnitsMonotone(1, k, def.resolution);
    }
  }

  lemma MaskedSign(n: int)
    ensures Signed16(n % 65536) == n <==> -32768 <= n < 32768
    ensures Signed16(n % 65536) != n ==> Signed16(n % 65536) <= n - 65536 || n + 65536 <= Signed16(n % 65536)
  {
  }
}
