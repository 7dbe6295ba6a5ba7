/** An independent reading of the RTU check value: the remainder of the message polynomial. */
module CrcDivision {
  import opened Crc16

  // Polynomials over GF(2) are coefficient lists, highest power first.

  /** x^16 + x^15 + x^2 + 1, the generator of the serial line specification. */
  const GENERATOR: Bits := seq(17, k => k in {16 - 16, 16 - 15, 16 - 2, 16 - 0})

  /** One step of schoolbook division: cancel the leading term with the generator. */
  function Reduce(d: Bits): (r: Bits)
    requires |d| >= 17
    ensures |r| == |d| - 1
  {
    seq(|d| - 1, k requires 0 <= k < |d| - 1 => d[k + 1] != (d[0] && k < 16 && GENERATOR[k + 1]))
  }

  function Remainder(d: Bits): (r: Bits)
    requires |d| >= 16
    ensures |r| == 16
    decreases |d|
  {
    if |d| == 16 then d else Remainder(Reduce(d))
  }

  function Quotient(d: Bits): (q: Bits)
    requires |d| >= 16
    ensures |q| == |d| - 16
    decreases |d|
  {
    if |d| == 16 then [] else [d[0]] + Quotient(Reduce(d))
  }

  /** The generator times q. */
  function Product(q: Bits): (p: Bits)
    ensures |p| == |q| + 16
  {
    if q == [] then seq(16, _ => false)
    else
      var rest := Product(q[1..]);
      seq(|q| + 16, k requires 0 <= k < |q| + 16 => (q[0] && k < 17 && GENERATOR[k]) != (k >= 1 && rest[k - 1]))
  }

  /** d = generator * q + r with r of degree below 16. */
  ghost predicate IsDivision(d: Bits, q: Bits, r: Bits) {
    && |r| == 16 && |d| == |q| + 16
    && forall k :: 0 <= k < |d| ==> d[k] == (Product(q)[k] != (k >= |q| && r[k - |q|]))
  }

  /** Schoolbook division finds the one quotient and remainder there are. */
  lemma {:induction false} DivisionUnique(d: Bits, q: Bits, r: Bits)
    requires |d| >= 16
    ensures IsDivision(d, q, r) <==> q == Quotient(d) && r == Remainder(d)
    decreases |d|
  {
    if |d| == 16 {
      if IsDivision(d, q, r) {
        assert d == r;
      }
    } else {
      DivisionUnique(Reduce(d), Quotient(Reduce(d)), Remainder(Reduce(d)));
      LeadingTermReturns(d, Quotient(d), Remainder(d));
      if IsDivision(d, q, r) {
        LeadingTermCancels(d, q, r);
        DivisionUnique(Reduce(d), q[1..], r);
      }
    }
  }

  lemma ProductStep(q: Bits, k: nat)
    requires 0 < |q| && k < |q| + 15
    ensures Product(q)[0] == q[0]
    ensures Product(q)[k + 1] == ((q[0] && k < 16 && GENERATOR[k + 1]) != Product(q[1..])[k])
  {
  }

  lemma LeadingTermCancels(d: Bits, q: Bits, r: Bits)
    requires |q| > 0 && IsDivision(d, q, r)
    ensures q[0] == d[0] && IsDivision(Reduce(d), q[1..], r)
  {
    ProductStep(q, 0);
    forall k | 0 <= k < |d| - 1
      ensures Reduce(d)[k] == (Product(q[1..])[k] != (k >= |q[1..]| && r[k - |q[1..]|]))
    {
      ProductStep(q, k);
      assert d[k + 1] == (Product(q)[k + 1] != (k + 1 >= |q| && r[k + 1 - |q|]));
    }
  }

  lemma LeadingTermReturns(d: Bits, q: Bits, r: Bits)
    requires |d| >= 17 && |q| > 0 && q[0] == d[0] && IsDivision(Reduce(d), q[1..], r)
    ensures IsDivision(d, q, r)
  {
    ProductStep(q, 0);
    forall k | 1 <= k < |d| ensures d[k] == (Product(q)[k] != (k >= |q| && r[k - |q|])) {
      ProductStep(q, k - 1);
      assert Reduce(d)[k - 1] == (Product(q[1..])[k - 1] != (k - 1 >= |q[1..]| && r[k - 1 - |q[1..]|]));
    }
  }

  // ---------------------------------------------------------------- register and polynomial

  /** The polynomial a register and the bits still to come stand for: the bits shifted up by x^16,
      with the register (bit 0 the highest power) added to the first 16 places. */
  function Dividend(c: Register, bits: Bits): (d: Bits)
    ensures |d| == |bits| + 16
  {
    seq(|bits| + 16, k requires 0 <= k < |bits| + 16 => DividendAt(c, bits, k))
  }

  predicate DividendAt(c: Register, bits: Bits, k: nat) {
    (k < 16 && LowBits(c, 16)[k]) != (k < |bits| && bits[k])
  }

  function Halved(b: nat, k: nat): nat
    decreases k
  {
    if k == 0 then b else Halved(b / 2, k - 1)
  }

  lemma {:induction false} LowBitAt(b: nat, n: nat, k: nat)
    requires k < n
    ensures LowBits(b, n)[k] == (Halved(b, k) % 2 == 1)
    decreases n
  {
    if k > 0 {
      LowBitAt(b / 2, n - 1, k - 1);
    }
  }

  lemma {:induction false} HalvedXor(a: nat, b: nat, k: nat)
    ensures Halved(Xor(a, b), k) == Xor(Halved(a, k), Halved(b, k))
    decreases k
  {
    if k > 0 {
      XorHalves(a, b);
      HalvedXor(a / 2, b / 2, k - 1);
    }
  }

  lemma LowBitsOfXor(a: nat, b: nat, n: nat)
    ensures forall k :: 0 <= k < n ==> LowBits(Xor(a, b), n)[k] == (LowBits(a, n)[k] != LowBits(b, n)[k])
  {
    forall k | 0 <= k < n ensures LowBits(Xor(a, b), n)[k] == (LowBits(a, n)[k] != LowBits(b, n)[k]) {
      LowBitAt(a, n, k);
      LowBitAt(b, n, k);
      LowBitAt(Xor(a, b), n, k);
      HalvedXor(a, b, k);
      XorParity(Halved(a, k), Halved(b, k));
    }
  }

  lemma XorParity(a: nat, b: nat)
    ensures Xor(a, b) % 2 == 1 <==> (a % 2 == 1) != (b % 2 == 1)
  {
    XorHalves(a, b);
    SumParity(a, b);
  }

  lemma SumParity(a: nat, b: nat)
    ensures (a + b) % 2 == 1 <==> (a % 2 == 1) != (b % 2 == 1)
  {
  }

  lemma {:induction false} LowBitsOfZero(n: nat)
    ensures forall k :: 0 <= k < n ==> !LowBits(0, n)[k]
  {
    if n > 0 {
      LowBitsOfZero(n - 1);
    }
  }

  lemma {:induction false} LowBitsExtend(b: nat, n: nat)
    requires b < Pow2(n)
    ensures LowBits(b, n + 1) == LowBits(b, n) + [false]
    decreases n
  {
    if n > 0 {
      LowBitsExtend(b / 2, n - 1);
    }
  }

  lemma {:induction false} LowBitsDoubled(x: nat, m: nat, n: nat)
    ensures LowBits(Doubled(x, m), m + n) == seq(m, _ => false) + LowBits(x, n)
    decreases m
  {
    if m == 0 {
      assert seq(0, _ => false) + LowBits(x, n) == LowBits(x, n);
    } else {
      LowBitsDoubled(x, m - 1, n);
      assert seq(m, _ => false) == [false] + seq(m - 1, _ => false);
    }
  }

  lemma PolynomialTerms()
    ensures LowBits(POLYNOMIAL, 16) == [true] + (seq(12, _ => false) + [true, false, true])
  {
    assert Doubled(Doubled(5, 6), 6) == Doubled(5, 12) == 0x5000;
    LowBitsDoubled(5, 12, 3);
    assert LowBits(5, 3) == [true, false, true];
    assert LowBits(0xA001, 16) == [true] + LowBits(0x5000, 15);
  }

  lemma PolynomialBits()
    ensures [true] + LowBits(POLYNOMIAL, 16) == GENERATOR
  {
    PolynomialTerms();
  }

  lemma {:induction false} ShiftedBits(e: Register)
    ensures forall k :: 0 <= k < 16 ==>
      LowBits(Shift(e), 16)[k] == ((k < 15 && LowBits(e, 16)[k + 1]) != (LowBits(e, 16)[0] && GENERATOR[k + 1]))
  {
    var odd := e % 2 == 1;
    var f: Register := if odd then POLYNOMIAL else 0;
    ShiftCases(e, e / 2, odd);
    LowBitsOfXor(e / 2, f, 16);
    LowBitsOfZero(16);
    PolynomialBits();
    Pow2Values();
    LowBitsExtend(e / 2, 15);
    assert LowBits(e, 16) == [odd] + LowBits(e / 2, 15);
    assert forall k :: 0 <= k < 16 ==> GENERATOR[k + 1] == LowBits(POLYNOMIAL, 16)[k];
  }

  lemma MixedBits(c: Register, b: bool)
    ensures LowBits(Mix(c, Bit(b)), 16)[0] == (LowBits(c, 16)[0] != b)
    ensures forall k :: 1 <= k < 16 ==> LowBits(Mix(c, Bit(b)), 16)[k] == LowBits(c, 16)[k]
  {
    LowBitsOfXor(c, Bit(b), 16);
    LowBitsOfZero(15);
    assert LowBits(Bit(b), 16) == [b] + LowBits(0, 15);
  }

  /** The register after one clocked bit, place by place. */
  lemma ClockedBitAt(c: Register, b: bool, k: nat)
    requires k < 16
    ensures LowBits(Shift(Mix(c, Bit(b))), 16)[k]
         == ((k < 15 && LowBits(c, 16)[k + 1]) != (LowBits(c, 16)[0] != b && GENERATOR[k + 1]))
  {
    MixedBits(c, b);
    ShiftedBits(Mix(c, Bit(b)));
  }

  lemma ClockDividesAt(c: Register, bits: Bits, k: nat)
    requires bits != []
    ensures DividendAt(Shift(Mix(c, Bit(bits[0]))), bits[1..], k)
         == (DividendAt(c, bits, k + 1) != (DividendAt(c, bits, 0) && k < 16 && GENERATOR[k + 1]))
  {
    assert k + 1 < |bits| ==> bits[1..][k] == bits[k + 1];
    if k < 16 {
      ClockedBitAt(c, bits[0], k);
    }
  }

  lemma DividesAt(c: Register, bits: Bits, next: Register, k: nat)
    requires bits != [] && next == Shift(Mix(c, Bit(bits[0]))) && k < |bits| + 15
    ensures Reduce(Dividend(c, bits))[k] == Dividend(next, bits[1..])[k]
  {
    hide DividendAt, LowBits, Shift, Mix;
    var d := Dividend(c, bits);
    ClockDividesAt(c, bits, k);
    assert d[k + 1] == DividendAt(c, bits, k + 1) && d[0] == DividendAt(c, bits, 0);
  }

  /** Clocking one bit into the register is one division step. */
  lemma ClockDivides(c: Register, bits: Bits)
    requires bits != []
    ensures Reduce(Dividend(c, bits)) == Dividend(Shift(Mix(c, Bit(bits[0]))), bits[1..])
  {
    var next := Shift(Mix(c, Bit(bits[0])));
    var reduced, divided := Reduce(Dividend(c, bits)), Dividend(next, bits[1..]);
    forall k | 0 <= k < |bits| + 15 ensures reduced[k] == divided[k] {
      DividesAt(c, bits, next, k);
    }
  }

  lemma {:induction false} ClockIsRemainder(c: Register, bits: Bits)
    ensures LowBits(Clock(c, bits), 16) == Remainder(Dividend(c, bits))
    decreases |bits|
  {
    if bits == [] {
      assert Dividend(c, bits) == LowBits(c, 16);
    } else {
      ClockDivides(c, bits);
      ClockIsRemainder(Shift(Mix(c, Bit(bits[0]))), bits[1..]);
    }
  }

  /** crc16 is the remainder, by x^16 + x^15 + x^2 + 1, of the message (least significant bits first)
      with its first 16 places inverted and 16 zeros appended; bit 0 is the highest power. */
  lemma {:induction false} CrcIsRemainder(data: seq<Byte>, q: Bits, r: Bits)
    requires IsDivision(Dividend(0xFFFF, MessageBits(data)), q, r)
    ensures LowBits(Crc(data), 16) == r
  {
    ClockIsRemainder(0xFFFF, MessageBits(data));
    DivisionUnique(Dividend(0xFFFF, MessageBits(data)), q, r);
  }

  // ---------------------------------------------------------------- odd errors

  function Ones(bits: Bits): nat {
    if bits == [] then 0 else (if bits[0] then 1 else 0) + Ones(bits[1..])
  }

  predicate Odd(bits: Bits) {
    Ones(bits) % 2 == 1
  }

  lemma {:induction false} OnesConcat(u: Bits, v: Bits)
    ensures Ones(u + v) == Ones(u) + Ones(v)
    decreases |u|
  {
    if u == [] {
      assert u + v == v;
    } else {
      assert (u + v)[1..] == u[1..] + v;
      OnesConcat(u[1..], v);
    }
  }

  lemma {:induction false} OnesOfZeros(n: nat)
    ensures Ones(seq(n, _ => false)) == 0
    decreases n
  {
    if n > 0 {
      assert seq(n, _ => false)[1..] == seq(n - 1, _ => false);
      OnesOfZeros(n - 1);
    }
  }

  lemma MaskHalves(p: nat)
    requires p >= 1
    ensures (2 * p - 1) % 2 == 1 && (2 * p - 1) / 2 == p - 1
  {
  }

  lemma {:induction false} OnesOfMask(n: nat)
    ensures Ones(LowBits(Pow2(n) - 1, n)) == n
    decreases n
  {
    if n > 0 {
      MaskHalves(Pow2(n - 1));
      OnesOfMask(n - 1);
      assert LowBits(Pow2(n) - 1, n) == [true] + LowBits(Pow2(n - 1) - 1, n - 1);
    }
  }

  lemma {:induction false} OddXor(a: Bits, b: Bits)
    requires |a| == |b|
    ensures Odd(XorBits(a, b)) <==> Odd(a) != Odd(b)
    decreases |a|
  {
    if a != [] {
      OddXor(a[1..], b[1..]);
      assert XorBits(a, b)[1..] == XorBits(a[1..], b[1..]);
    }
  }

  /** What the generator adds below its leading term: three further terms. */
  lemma FeedbackIsOdd()
    ensures Ones(GENERATOR[1..]) == 3 && Odd(GENERATOR[1..])
  {
    PolynomialTerms();
    PolynomialBits();
    var tail := seq(12, _ => false) + [true, false, true];
    OnesOfZeros(12);
    OnesConcat(seq(12, _ => false), [true, false, true]);
    assert Ones([true, false, true]) == 2;
    OnesConcat([true], tail);
    assert GENERATOR[1..] == LowBits(0xA001, 16);
  }

  /** The generator has an even number of terms, so a division step keeps the parity. */
  lemma ReduceKeepsParity(d: Bits)
    requires |d| >= 17
    ensures Odd(Reduce(d)) <==> Odd(d)
  {
    var zeros := seq(|d| - 17, _ => false);
    if d[0] {
      var feedback := GENERATOR[1..] + zeros;
      FeedbackIsOdd();
      OnesOfZeros(|d| - 17);
      OnesConcat(GENERATOR[1..], zeros);
      OddXor(d[1..], feedback);
      assert Reduce(d) == XorBits(d[1..], feedback);
    } else {
      assert Reduce(d) == d[1..];
    }
  }

  lemma {:induction false} RemainderKeepsParity(d: Bits)
    requires |d| >= 16
    ensures Odd(Remainder(d)) <==> Odd(d)
    decreases |d|
  {
    if |d| > 16 {
      ReduceKeepsParity(d);
      RemainderKeepsParity(Reduce(d));
    }
  }

  lemma DividendParity(c: Register, bits: Bits)
    ensures Odd(Dividend(c, bits)) <==> Odd(LowBits(c, 16)) != Odd(bits)
  {
    hide Ones, LowBits;
    var behind, before := seq(|bits|, _ => false), seq(16, _ => false);
    OnesOfZeros(|bits|);
    OnesOfZeros(16);
    OnesConcat(LowBits(c, 16), behind);
    OnesConcat(bits, before);
    OddXor(LowBits(c, 16) + behind, bits + before);
    assert Dividend(c, bits) == XorBits(LowBits(c, 16) + behind, bits + before);
  }

  /** The register starts with all its 16 bits set. */
  lemma StartIsEven()
    ensures !Odd(LowBits(0xFFFF, 16))
  {
    hide LowBits, Ones, Pow2;
    assert Pow2(16) == 65536 by {
      Pow2Values();
    }
    OnesOfMask(16);
  }

  /** The check value has an odd number of ones exactly when the message does. */
  lemma CrcParity(data: seq<Byte>)
    ensures Odd(LowBits(Crc(data), 16)) <==> Odd(MessageBits(data))
  {
    hide Ones, Odd, LowBits, MessageBits, Clock, Remainder;
    var d := Dividend(0xFFFF, MessageBits(data));
    ClockIsRemainder(0xFFFF, MessageBits(data));
    RemainderKeepsParity(d);
    DividendParity(0xFFFF, MessageBits(data));
    StartIsEven();
  }

  /** Every error that flips an odd number of bits of a message, however far apart, changes the check value. */
  lemma OddErrorDetected(sent: seq<Byte>, received: seq<Byte>)
    requires |sent| == |received| && Odd(XorBits(MessageBits(sent), MessageBits(received)))
    ensures Crc(sent) != Crc(received)
  {
    CrcParity(sent);
    CrcParity(received);
    OddXor(MessageBits(sent), MessageBits(received));
  }

  /** A frame carries an even number of ones, trailer included. */
  lemma FramesAreEven(frame: seq<Byte>)
    ensures IsFrame(frame) ==> !Odd(MessageBits(frame))
  {
    hide Ones, LowBits, MessageBits, Clock, Crc;
    if IsFrame(frame) {
      FrameChecksOut(frame);
      CrcParity(frame);
      LowBitsOfZero(16);
      OnesOfZeros(16);
      assert LowBits(0, 16) == seq(16, _ => false);
    }
  }

  /** So no odd number of flipped bits leads from one frame to another. */
  lemma OddErrorRejected(frame: seq<Byte>, received: seq<Byte>)
    requires |received| == |frame| && Odd(XorBits(MessageBits(frame), MessageBits(received)))
    ensures IsFrame(frame) ==> !IsFrame(received)
  {
    hide Odd;
    OddXor(MessageBits(frame), MessageBits(received));
    FramesAreEven(frame);
    FramesAreEven(received);
  }
}
