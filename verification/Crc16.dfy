/** The RTU frame check (transport/crc.py; MODBUS over Serial Line Specification V1.02, sections
    2.5.1.2 and 6.2.2) and the errors it must notice. Integers are unbounded as in the source, so
    that the register keeps to 16 bits is a fact here, not a type. */
module Crc16 {

  type Byte = b: int | 0 <= b < 256
  type Register = c: int | 0 <= c < 65536
  type Bits = seq<bool>

  const POLYNOMIAL: Register := 0xA001

  // ---------------------------------------------------------------- exclusive or on naturals

  function Xor(a: nat, b: nat): nat
    decreases a + b
  {
    if a == 0 then b
    else if b == 0 then a
    else 2 * Xor(a / 2, b / 2) + (a + b) % 2
  }

  lemma XorHalves(a: nat, b: nat)
    ensures Xor(a, b) / 2 == Xor(a / 2, b / 2)
    ensures Xor(a, b) % 2 == (a + b) % 2
  {
  }

  lemma SameHalves(x: nat, y: nat)
    requires x / 2 == y / 2 && x % 2 == y % 2
    ensures x == y
  {
  }

  lemma SameParity(a: nat, b: nat, c: nat, ab: nat, bc: nat)
    requires ab % 2 == (a + b) % 2 && bc % 2 == (b + c) % 2
    ensures (ab + c) % 2 == (a + bc) % 2
  {
  }

  lemma {:induction false} XorCommutes(a: nat, b: nat)
    ensures Xor(a, b) == Xor(b, a)
    decreases a + b
  {
    if a != 0 && b != 0 {
      XorCommutes(a / 2, b / 2);
    }
  }

  lemma {:induction false} XorAssociates(a: nat, b: nat, c: nat)
    ensures Xor(Xor(a, b), c) == Xor(a, Xor(b, c))
    decreases a + b + c
  {
    if a != 0 && b != 0 && c != 0 {
      var ab, bc := Xor(a, b), Xor(b, c);
      XorHalves(a, b);
      XorHalves(b, c);
      XorHalves(ab, c);
      XorHalves(a, bc);
      XorAssociates(a / 2, b / 2, c / 2);
      SameParity(a, b, c, ab, bc);
      SameHalves(Xor(ab, c), Xor(a, bc));
    }
  }

  lemma {:induction false} XorSelf(a: nat)
    ensures Xor(a, a) == 0
  {
    if a != 0 {
      XorSelf(a / 2);
    }
  }

  lemma {:induction false} XorCancels(a: nat, b: nat)
    ensures Xor(Xor(a, b), b) == a
    ensures Xor(a, b) == 0 <==> a == b
  {
    XorAssociates(a, b, b);
    XorSelf(b);
  }

  lemma {:induction false} XorSwaps(a: nat, b: nat, c: nat)
    ensures Xor(Xor(a, b), c) == Xor(Xor(a, c), b)
  {
    XorAssociates(a, b, c);
    XorCommutes(b, c);
    XorAssociates(a, c, b);
  }

  lemma {:induction false} XorPairs(a: nat, b: nat, c: nat, d: nat)
    ensures Xor(Xor(a, b), Xor(c, d)) == Xor(Xor(a, c), Xor(b, d))
  {
    XorAssociates(Xor(a, b), c, d);
    XorSwaps(a, b, c);
    XorAssociates(Xor(a, c), b, d);
  }

  function Pow2(n: nat): (r: nat)
    ensures r >= 1
  {
    if n == 0 then 1 else 2 * Pow2(n - 1)
  }

  lemma {:induction false} XorBound(a: nat, b: nat, n: nat)
    requires a < Pow2(n) && b < Pow2(n)
    ensures Xor(a, b) < Pow2(n)
    decreases n
  {
    if a != 0 && b != 0 {
      XorBound(a / 2, b / 2, n - 1);
    }
  }

  /** A bit only one of the two has stays set. */
  lemma {:induction false} XorKeepsTop(a: nat, b: nat, n: nat)
    requires a < Pow2(n) <= b
    ensures Pow2(n) <= Xor(a, b)
    decreases n
  {
    if a != 0 {
      XorKeepsTop(a / 2, b / 2, n - 1);
      XorHalves(a, b);
    }
  }

  lemma Pow2Values()
    ensures Pow2(8) == 256 && Pow2(15) == 32768 && Pow2(16) == 65536
  {
    assert Pow2(4) == 16;
    assert Pow2(8) == 256;
    assert Pow2(12) == 4096;
  }

  // ---------------------------------------------------------------- the shift register

  lemma FeedbackFits(c: Register)
    ensures Xor(c / 2, POLYNOMIAL) < 65536
  {
    Pow2Values();
    XorBound(c / 2, POLYNOMIAL, 16);
  }

  /** One shift: the bit that falls out feeds back the reflected polynomial. */
  function Shift(c: Register): Register {
    FeedbackFits(c);
    if c % 2 == 1 then Xor(c / 2, POLYNOMIAL) else c / 2
  }

  function Mix(c: Register, d: Register): Register {
    Pow2Values();
    XorBound(c, d, 16);
    Xor(c, d)
  }

  function Bit(b: bool): Register {
    if b then 1 else 0
  }

  /** The register after `bits` have been clocked in, first bit first. */
  function Clock(c: Register, bits: Bits): Register
    decreases |bits|
  {
    if bits == [] then c else Clock(Shift(Mix(c, Bit(bits[0]))), bits[1..])
  }

  function Shifts(c: Register, n: nat): Register
    decreases n
  {
    if n == 0 then c else Shifts(Shift(c), n - 1)
  }

  /** The two halves of a shift, without the case split. */
  lemma ShiftCases(c: Register, p: nat, odd: bool)
    requires p == c / 2 && odd == (c % 2 == 1)
    ensures Shift(c) == Xor(p, if odd then POLYNOMIAL else 0)
  {
    XorCommutes(p, 0);
  }

  lemma ShiftLinear(x: Register, y: Register)
    ensures Shift(Mix(x, y)) == Mix(Shift(x), Shift(y))
  {
    XorHalves(x, y);
    var a, b := x % 2 == 1, y % 2 == 1;
    var f, g: Register := if a then POLYNOMIAL else 0, if b then POLYNOMIAL else 0;
    ShiftCases(x, x / 2, a);
    ShiftCases(y, y / 2, b);
    assert Xor(x, y) % 2 == 1 <==> a != b;
    ShiftCases(Mix(x, y), Xor(x / 2, y / 2), a != b);
    XorSelf(POLYNOMIAL);
    XorCommutes(0, POLYNOMIAL);
    XorPairs(x / 2, f, y / 2, g);
  }

  /** No two registers shift to the same value: only a feedback sets the top bit. */
  lemma ShiftInjective(x: Register, y: Register)
    requires Shift(x) == Shift(y)
    ensures x == y
  {
    Pow2Values();
    XorKeepsTop(x / 2, POLYNOMIAL, 15);
    XorKeepsTop(y / 2, POLYNOMIAL, 15);
    XorCancels(x / 2, POLYNOMIAL);
    XorCancels(y / 2, POLYNOMIAL);
  }

  lemma {:induction false} ShiftsInjective(x: Register, y: Register, n: nat)
    requires Shifts(x, n) == Shifts(y, n)
    ensures x == y
    decreases n
  {
    if n > 0 {
      ShiftsInjective(Shift(x), Shift(y), n - 1);
      ShiftInjective(x, y);
    }
  }

  lemma {:induction false} ClockInjective(c: Register, d: Register, bits: Bits)
    requires Clock(c, bits) == Clock(d, bits)
    ensures c == d
    decreases |bits|
  {
    if bits != [] {
      var b := Bit(bits[0]);
      ClockInjective(Shift(Mix(c, b)), Shift(Mix(d, b)), bits[1..]);
      ShiftInjective(Mix(c, b), Mix(d, b));
      XorCancels(c, b);
      XorCancels(d, b);
    }
  }

  function XorBits(a: Bits, b: Bits): (r: Bits)
    requires |a| == |b|
    ensures |r| == |a| && forall i :: 0 <= i < |a| ==> r[i] == (a[i] != b[i])
  {
    seq(|a|, i requires 0 <= i < |a| => a[i] != b[i])
  }

  /** Clocking is linear: registers and bit streams may be added before or after. */
  lemma {:induction false} ClockLinear(c: Register, d: Register, a: Bits, b: Bits)
    requires |a| == |b|
    ensures Clock(Mix(c, d), XorBits(a, b)) == Mix(Clock(c, a), Clock(d, b))
    decreases |a|
  {
    if a != [] {
      var x, y := Bit(a[0]), Bit(b[0]);
      assert Bit(XorBits(a, b)[0]) == Xor(x, y);
      XorPairs(c, d, x, y);
      ShiftLinear(Mix(c, x), Mix(d, y));
      assert XorBits(a, b)[1..] == XorBits(a[1..], b[1..]);
      ClockLinear(Shift(Mix(c, x)), Shift(Mix(d, y)), a[1..], b[1..]);
    }
  }

  lemma {:induction false} ClockConcat(c: Register, u: Bits, v: Bits)
    ensures Clock(c, u + v) == Clock(Clock(c, u), v)
    decreases |u|
  {
    if u == [] {
      assert u + v == v;
    } else {
      assert (u + v)[1..] == u[1..] + v;
      ClockConcat(Shift(Mix(c, Bit(u[0]))), u[1..], v);
    }
  }

  // ---------------------------------------------------------------- short runs of bits

  /** A run of bits as a number, first bit lowest. */
  function Pack(bits: Bits): (r: nat)
    ensures r < Pow2(|bits|)
  {
    if bits == [] then 0 else Bit(bits[0]) + 2 * Pack(bits[1..])
  }

  function PackShort(bits: Bits): Register
    requires |bits| <= 16
  {
    Pow2Values();
    Pow2Grows(|bits|, 16);
    Pack(bits)
  }

  lemma {:induction false} Pow2Grows(m: nat, n: nat)
    requires m <= n
    ensures Pow2(m) <= Pow2(n)
    decreases n
  {
    if m < n {
      Pow2Grows(m, n - 1);
    }
  }

  /** A number fed in one place further up is caught one shift later. */
  lemma ShiftCarries(x: Register, p: nat, d: Register)
    requires d == 2 * p
    ensures Shift(Mix(x, d)) == Mix(Shift(x), p)
  {
    hide Xor, Shift;
    XorHalves(x, d);
    assert d / 2 == p && (x + d) % 2 == x % 2;
    var half, odd := x / 2, x % 2 == 1;
    var f: Register := if odd then POLYNOMIAL else 0;
    ShiftCases(x, half, odd);
    ShiftCases(Mix(x, d), Xor(half, p), odd);
    XorSwaps(half, p, f);
  }

  lemma BitThenPair(b: nat, p: nat)
    requires b < 2
    ensures Xor(b, 2 * p) == b + 2 * p
  {
    XorHalves(b, 2 * p);
  }

  /** Clocking in at most 16 bits one by one is the same as loading them at once and shifting. */
  lemma {:induction false} ClockPacked(c: Register, bits: Bits)
    requires |bits| <= 16
    ensures Clock(c, bits) == Shifts(Mix(c, PackShort(bits)), |bits|)
    decreases |bits|
  {
    if bits == [] {
      XorCommutes(c, 0);
    } else {
      var b := Bit(bits[0]);
      var p: nat := PackShort(bits[1..]);
      var whole: int := PackShort(bits);
      assert 2 * p <= whole < 65536;
      BitThenPair(b, p);
      XorAssociates(c, b, 2 * p);
      ShiftCarries(Mix(c, b), p, 2 * p);
      ClockPacked(Shift(Mix(c, b)), bits[1..]);
    }
  }

  lemma {:induction false} PackZero(bits: Bits)
    requires Pack(bits) == 0
    ensures forall i :: 0 <= i < |bits| ==> !bits[i]
    decreases |bits|
  {
    if bits != [] {
      PackZero(bits[1..]);
      assert forall i :: 0 < i < |bits| ==> bits[i] == bits[1..][i - 1];
    }
  }

  lemma {:induction false} ShiftsOfZero(n: nat)
    ensures Shifts(0, n) == 0
  {
    if n > 0 {
      ShiftsOfZero(n - 1);
    }
  }

  lemma {:induction false} ClockZeros(bits: Bits)
    requires forall i :: 0 <= i < |bits| ==> !bits[i]
    ensures Clock(0, bits) == 0
    decreases |bits|
  {
    if bits != [] {
      ClockZeros(bits[1..]);
    }
  }

  /** The heart of error detection: from a clear register, a burst no wider than the register always
      leaves a trace, whatever zeros surround it. */
  lemma BurstLeavesTrace(error: Bits, p: nat, q: nat)
    requires p <= q <= |error| && q - p <= 16
    requires forall i :: 0 <= i < |error| && error[i] ==> p <= i < q
    requires exists i :: 0 <= i < |error| && error[i]
    ensures Clock(0, error) != 0
  {
    hide Clock, Shift, Shifts, Pow2;
    var before, burst, after := error[..p], error[p..q], error[q..];
    assert error == before + (burst + after);
    ClockZeros(before);
    ClockConcat(0, before, burst + after);
    ClockConcat(0, burst, after);
    ClockZeros(after);
    ClockPacked(0, burst);
    ShiftsOfZero(|burst|);
    assert forall i :: p <= i < q ==> error[i] == burst[i - p];
    if Clock(0, error) == 0 {
      ClockInjective(Clock(0, burst), 0, after);
      ShiftsInjective(PackShort(burst), 0, |burst|);
      PackZero(burst);
    }
  }

  // ---------------------------------------------------------------- messages

  /** The n lowest bits of a number, lowest first: the order in which the line carries a byte. */
  function LowBits(b: nat, n: nat): (r: Bits)
    ensures |r| == n
    decreases n
  {
    if n == 0 then [] else [b % 2 == 1] + LowBits(b / 2, n - 1)
  }

  lemma {:induction false} PackLowBits(b: nat, n: nat)
    requires b < Pow2(n)
    ensures Pack(LowBits(b, n)) == b
    decreases n
  {
    if n > 0 {
      PackLowBits(b / 2, n - 1);
    }
  }

  function MessageBits(data: seq<Byte>): (r: Bits)
    ensures |r| == 8 * |data|
  {
    if data == [] then [] else LowBits(data[0], 8) + MessageBits(data[1..])
  }

  /** The check value of a message, defined bit by bit. */
  function Crc(data: seq<Byte>): Register {
    Clock(0xFFFF, MessageBits(data))
  }

  lemma {:induction false} MessageBitsConcat(a: seq<Byte>, b: seq<Byte>)
    ensures MessageBits(a + b) == MessageBits(a) + MessageBits(b)
    decreases |a|
  {
    if a == [] {
      assert a + b == b;
    } else {
      assert (a + b)[1..] == a[1..] + b;
      MessageBitsConcat(a[1..], b);
    }
  }

  lemma {:induction false} MessageBitsInjective(a: seq<Byte>, b: seq<Byte>)
    requires |a| == |b| && MessageBits(a) == MessageBits(b)
    ensures a == b
    decreases |a|
  {
    if a != [] {
      var x, y := MessageBits(a), MessageBits(b);
      assert x[..8] == LowBits(a[0], 8) && y[..8] == LowBits(b[0], 8);
      assert x[8..] == MessageBits(a[1..]) && y[8..] == MessageBits(b[1..]);
      Pow2Values();
      PackLowBits(a[0], 8);
      PackLowBits(b[0], 8);
      MessageBitsInjective(a[1..], b[1..]);
    }
  }

  // ---------------------------------------------------------------- the code

  lemma ByteClocks(c: Register, b: Byte, rest: Bits)
    ensures Clock(c, LowBits(b, 8) + rest) == Clock(Shifts(Mix(c, b), 8), rest)
  {
    Pow2Values();
    PackLowBits(b, 8);
    ClockConcat(c, LowBits(b, 8), rest);
    ClockPacked(c, LowBits(b, 8));
  }

  lemma MessageStep(c: Register, data: seq<Byte>, i: nat)
    requires i < |data|
    ensures Xor(c, data[i]) < 65536
    ensures Clock(c, MessageBits(data[i..])) == Clock(Shifts(Xor(c, data[i]), 8), MessageBits(data[i + 1..]))
  {
    assert Xor(c, data[i]) == Mix(c, data[i]);
    assert data[i..][1..] == data[i + 1..];
    ByteClocks(c, data[i], MessageBits(data[i + 1..]));
  }

  /** The inner loop of crc16. */
  method EightShifts(mixed: int) returns (crc: int)
    requires 0 <= mixed < 65536
    ensures crc == Shifts(mixed, 8)
  {
    crc := mixed;
    for k := 0 to 8
      invariant 0 <= crc < 65536
      invariant Shifts(crc, 8 - k) == Shifts(mixed, 8)
    {
      FeedbackFits(crc);
      assert Shifts(crc, 8 - k) == Shifts(Shift(crc), 8 - k - 1);
      crc := if crc % 2 == 1 then Xor(crc / 2, 0xA001) else crc / 2;
    }
  }

  /** One byte: mixed in whole and shifted eight times. */
  method MixByte(crc: int, data: seq<Byte>, i: nat) returns (next: int)
    requires 0 <= crc < 65536 && i < |data|
    ensures 0 <= next < 65536
    ensures Clock(next, MessageBits(data[i + 1..])) == Clock(crc, MessageBits(data[i..]))
  {
    MessageStep(crc, data, i);
    next := EightShifts(Xor(crc, data[i]));
  }

  /** crc16: bytes are mixed in whole and shifted eight times; the final mask never changes anything. */
  method ComputeCrc16(data: seq<Byte>) returns (result: int)
    ensures result == Crc(data)
  {
    var crc: int := 0xFFFF;
    assert data[0..] == data;
    for i := 0 to |data|
      invariant 0 <= crc < 65536
      invariant Clock(crc, MessageBits(data[i..])) == Crc(data)
    {
      crc := MixByte(crc, data, i);
    }
    result := crc % 65536;
  }

  function Word(lo: int, hi: int): int {
    lo + 256 * hi
  }

  /** The check value in little-endian order: on the line it is the register, lowest bit first. */
  method Crc16Bytes(data: seq<Byte>) returns (r: seq<Byte>)
    ensures |r| == 2 && Word(r[0], r[1]) == Crc(data)
  {
    var crc := ComputeCrc16(data);
    r := [crc % 256, crc / 256];
  }

  method AppendCrc(data: seq<Byte>) returns (frame: seq<Byte>)
    ensures IsFrame(frame) && frame[..|frame| - 2] == data
  {
    var check := Crc16Bytes(data);
    frame := data + check;
    assert frame[..|data|] == data;
  }

  // ---------------------------------------------------------------- theorems

  /** The last two bytes are the check value of what precedes them, low byte first. */
  predicate IsFrame(frame: seq<Byte>) {
    |frame| >= 2 && Word(frame[|frame| - 2], frame[|frame| - 1]) == Crc(frame[..|frame| - 2])
  }

  /** For messages of equal length, how the check values differ depends on the error alone. */
  lemma {:induction false} CrcDifference(a: seq<Byte>, b: seq<Byte>)
    requires |a| == |b|
    ensures Mix(Crc(a), Crc(b)) == Clock(0, XorBits(MessageBits(a), MessageBits(b)))
  {
    XorSelf(0xFFFF);
    ClockLinear(0xFFFF, 0xFFFF, MessageBits(a), MessageBits(b));
  }

  /** The two bit sequences differ at most in 16 consecutive places, from p on. */
  ghost predicate DifferInBurst(a: Bits, b: Bits, p: nat) {
    |a| == |b| && forall i :: 0 <= i < |a| && a[i] != b[i] ==> p <= i < p + 16
  }

  /** Every error confined to 16 consecutive bits of a message of any length changes the check value. */
  lemma {:induction false} BurstDetected(sent: seq<Byte>, received: seq<Byte>, p: nat)
    requires |sent| == |received| && sent != received
    requires DifferInBurst(MessageBits(sent), MessageBits(received), p)
    ensures Crc(sent) != Crc(received)
  {
    var error := XorBits(MessageBits(sent), MessageBits(received));
    if forall i :: 0 <= i < |error| ==> !error[i] {
      assert MessageBits(sent) == MessageBits(received);
      MessageBitsInjective(sent, received);
    } else {
      var q := if p + 16 <= |error| then p + 16 else |error|;
      BurstLeavesTrace(error, if p <= q then p else q, q);
      CrcDifference(sent, received);
      XorSelf(Crc(sent));
    }
  }

  /** Two more bytes clear the register exactly when they repeat its contents, low byte first. */
  lemma TwoBytesClear(c: Register, lo: Byte, hi: Byte)
    ensures Clock(c, LowBits(lo, 8) + LowBits(hi, 8)) == 0 <==> Word(lo, hi) == c
  {
    var bits := LowBits(lo, 8) + LowBits(hi, 8);
    Pow2Values();
    PackConcat(LowBits(lo, 8), LowBits(hi, 8));
    PackLowBits(lo, 8);
    PackLowBits(hi, 8);
    assert Doubled(Doubled(hi, 4), 4) == Doubled(hi, 8) == 256 * hi;
    assert PackShort(bits) == Word(lo, hi);
    ClockPacked(c, bits);
    ShiftsOfZero(16);
    if Clock(c, bits) == 0 {
      ShiftsInjective(Mix(c, Word(lo, hi)), 0, 16);
    }
    XorCancels(c, Word(lo, hi));
  }

  function Doubled(x: nat, n: nat): nat
    decreases n
  {
    if n == 0 then x else 2 * Doubled(x, n - 1)
  }

  lemma {:induction false} PackConcat(u: Bits, v: Bits)
    ensures Pack(u + v) == Pack(u) + Doubled(Pack(v), |u|)
    decreases |u|
  {
    if u == [] {
      assert u + v == v;
    } else {
      assert (u + v)[1..] == u[1..] + v;
      PackConcat(u[1..], v);
    }
  }

  /** The receiver's test: the check value of a whole frame is zero exactly when its trailer is right. */
  lemma FrameChecksOut(frame: seq<Byte>)
    requires |frame| >= 2
    ensures Crc(frame) == 0 <==> IsFrame(frame)
  {
    var n := |frame| - 2;
    var body, lo, hi := frame[..n], frame[n], frame[n + 1];
    assert frame == body + [lo, hi];
    MessageBitsConcat(body, [lo, hi]);
    assert MessageBits([lo, hi]) == LowBits(lo, 8) + LowBits(hi, 8) by {
      assert [lo, hi][1..] == [hi] && [hi][1..] == [];
      assert MessageBits([hi]) == LowBits(hi, 8) + [];
    }
    ClockConcat(0xFFFF, MessageBits(body), MessageBits([lo, hi]));
    TwoBytesClear(Crc(body), lo, hi);
  }

  /** No burst of at most 16 bits gets a damaged frame accepted, wherever in the frame it strikes. */
  lemma {:induction false} DamagedFrameRejected(frame: seq<Byte>, received: seq<Byte>, p: nat)
    requires IsFrame(frame) && |received| == |frame| && received != frame
    requires DifferInBurst(MessageBits(frame), MessageBits(received), p)
    ensures Crc(received) != 0 && !IsFrame(received)
  {
    FrameChecksOut(frame);
    BurstDetected(frame, received, p);
    FrameChecksOut(received);
  }
}
