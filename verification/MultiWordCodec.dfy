/** Registers of several words: positional integers in either word order, and padded strings
    (registers/register_def.py). */
module MultiWordCodec {
  import opened Common
  import opened RegisterDefs

  type Word = w: int | 0 <= w < 65536
  type Byte = b: int | 0 <= b < 256

  // ---------------------------------------------------------------- words and bytes

  function WordBytes(w: Word): (r: seq<Byte>)
    ensures |r| == 2
  {
    [w / 256, w % 256]
  }

  function BytesOf(words: seq<Word>): (r: seq<Byte>)
    ensures |r| == 2 * |words|
  {
    if words == [] then [] else WordBytes(words[0]) + BytesOf(words[1..])
  }

  function WordsOf(data: seq<Byte>): (r: seq<Word>)
    requires |data| % 2 == 0
    ensures |r| == |data| / 2
  {
    if data == [] then [] else [256 * (data[0] as int) + data[1]] + WordsOf(data[2..])
  }

  lemma {:induction false} WordsOfBytesOf(words: seq<Word>)
    ensures WordsOf(BytesOf(words)) == words
  {
    if words != [] {
      WordsOfBytesOf(words[1..]);
      assert BytesOf(words)[2..] == BytesOf(words[1..]);
    }
  }

  lemma {:induction false} BytesOfWordsOf(data: seq<Byte>)
    requires |data| % 2 == 0
    ensures BytesOf(WordsOf(data)) == data
  {
    if data != [] {
      BytesOfWordsOf(data[2..]);
      assert data == [data[0], data[1]] + data[2..];
    }
  }

  // ---------------------------------------------------------------- bytes and integers

  function Pow256(n: nat): (r: nat)
    ensures r >= 1 && (n > 0 ==> r % 2 == 0)
  {
    if n == 0 then 1 else 256 * Pow256(n - 1)
  }

  /** int.from_bytes(data, "big") */
  function FromBytes(data: seq<Byte>): (r: nat)
    ensures r < Pow256(|data|)
  {
    if data == [] then 0 else 256 * FromBytes(data[..|data| - 1]) + data[|data| - 1]
  }

  /** The n lowest bytes of v, highest first. */
  function ToBytes(v: nat, n: nat): (r: seq<Byte>)
    ensures |r| == n
    decreases n
  {
    if n == 0 then [] else ToBytes(v / 256, n - 1) + [v % 256]
  }

  lemma {:induction false} FromToBytes(v: nat, n: nat)
    requires v < Pow256(n)
    ensures FromBytes(ToBytes(v, n)) == v
    decreases n
  {
    if n > 0 {
      FromToBytes(v / 256, n - 1);
      var data := ToBytes(v, n);
      assert data[..n - 1] == ToBytes(v / 256, n - 1);
    }
  }

  lemma {:induction false} ToFromBytes(data: seq<Byte>)
    ensures ToBytes(FromBytes(data), |data|) == data
    decreases |data|
  {
    if data != [] {
      var rest := data[..|data| - 1];
      ToFromBytes(rest);
      assert FromBytes(data) / 256 == FromBytes(rest);
      assert data == rest + [data[|data| - 1]];
    }
  }

  function FromBytesSigned(data: seq<Byte>, signed: bool): int {
    var v := FromBytes(data);
    if signed && 2 * v >= Pow256(|data|) then v - Pow256(|data|) else v
  }

  predicate Representable(v: int, size: nat, signed: bool) {
    if signed then 0 <= 2 * v + Pow256(size) < 2 * Pow256(size) else 0 <= v < Pow256(size)
  }

  /** int.to_bytes, which raises OverflowError outside the range of the bytes. */
  function ToBytesSigned(v: int, size: nat, signed: bool): Result<seq<Byte>, EncodeError> {
    if !Representable(v, size, signed) then Err(Overflow)
    else Ok(ToBytes(if v < 0 then v + Pow256(size) else v, size))
  }

  lemma IntegerRoundTrip(v: int, size: nat, signed: bool)
    requires size > 0 && Representable(v, size, signed)
    ensures FromBytesSigned(ToBytesSigned(v, size, signed).value, signed) == v
  {
    FromToBytes(if v < 0 then v + Pow256(size) else v, size);
  }

  lemma BytesRoundTrip(data: seq<Byte>, signed: bool)
    requires |data| > 0
    ensures ToBytesSigned(FromBytesSigned(data, signed), |data|, signed) == Ok(data)
  {
    ToFromBytes(data);
  }

  // ---------------------------------------------------------------- integers over several words

  function Reversed<T>(s: seq<T>): (r: seq<T>)
    ensures |r| == |s| && forall i :: 0 <= i < |s| ==> r[i] == s[|s| - 1 - i]
  {
    seq(|s|, i requires 0 <= i < |s| => s[|s| - 1 - i])
  }

  lemma ReversedTwice<T>(s: seq<T>)
    ensures Reversed(Reversed(s)) == s
  {
  }

  function Ordered(def: RegisterDef, words: seq<Word>): seq<Word> {
    if def.order.BigEndian? then words else Reversed(words)
  }

  predicate SignedKind(def: RegisterDef) {
    def.kind == I32 || def.kind == I64
  }

  /** Words an integer is encoded to: two or four for the sized types whatever the register's length
      says, the register's length for any other. */
  function Width(def: RegisterDef): nat {
    match def.kind
    case U32 => 2
    case I32 => 2
    case U64 => 4
    case I64 => 4
    case _ => def.length
  }

  const SENTINEL: Word := 32768

  predicate Unavailable(def: RegisterDef, words: seq<Word>) {
    def.temperature && forall i :: 0 <= i < |words| ==> words[i] == SENTINEL
  }

  /** The integer behind the words of a register. */
  function IntegerOf(def: RegisterDef, words: seq<Word>): int {
    FromBytesSigned(BytesOf(Ordered(def, words)), SignedKind(def))
  }

  /** The words of an integer; Overflow when it does not fit them. */
  function IntegerWords(def: RegisterDef, v: int): Result<seq<Word>, EncodeError> {
    var data := ToBytesSigned(v, 2 * Width(def), SignedKind(def));
    if data.Err? then Err(data.error) else Ok(Ordered(def, WordsOf(data.value)))
  }

  function DecodeInteger(def: RegisterDef, words: seq<Word>): Option<real>
    requires def.Scalable()
  {
    if Unavailable(def, words) then None else Some(ApplyOutputScaling(def, IntegerOf(def, words)))
  }

  function EncodeInteger(def: RegisterDef, value: real): Result<seq<Word>, EncodeError>
    requires def.Scalable()
  {
    var scaled := CoerceScaledInput(def, value);
    if scaled.Err? then Err(scaled.error) else IntegerWords(def, Truncate(scaled.value))
  }

  predicate Unscaled(def: RegisterDef) {
    def.multiplier == 1.0 && def.resolution == 1.0
  }

  /** The integer a temperature register cannot tell from "unavailable". */
  function SentinelValue(def: RegisterDef): int {
    FromBytesSigned(BytesOf(SentinelRun(Width(def))), SignedKind(def))
  }

  lemma OrderedTwice(def: RegisterDef, words: seq<Word>)
    ensures Ordered(def, Ordered(def, words)) == words && |Ordered(def, words)| == |words|
  {
    ReversedTwice(words);
  }

  /** An integer that fits its words survives them, in both word orders. */
  lemma WordsKeepInteger(def: RegisterDef, v: int)
    requires Width(def) > 0 && Representable(v, 2 * Width(def), SignedKind(def))
    ensures IntegerWords(def, v).Ok? && |IntegerWords(def, v).value| == Width(def)
    ensures IntegerOf(def, IntegerWords(def, v).value) == v
  {
    var size, signed := 2 * Width(def), SignedKind(def);
    var data := ToBytesSigned(v, size, signed).value;
    IntegerRoundTrip(v, size, signed);
    BytesOfWordsOf(data);
    OrderedTwice(def, WordsOf(data));
  }

  /** And the words of any integer are its own. */
  lemma IntegerKeepsWords(def: RegisterDef, words: seq<Word>)
    requires |words| == Width(def) > 0
    ensures IntegerWords(def, IntegerOf(def, words)) == Ok(words)
  {
    var ordered := Ordered(def, words);
    OrderedTwice(def, words);
    BytesRoundTrip(BytesOf(ordered), SignedKind(def));
    WordsOfBytesOf(ordered);
  }

  // ---------------------------------------------------------------- what the words mean

  function Pow65536(n: nat): nat {
    if n == 0 then 1 else 65536 * Pow65536(n - 1)
  }

  /** The words as digits, the first the highest: words[i] * 65536^(n - 1 - i), summed up. */
  function HighFirst(words: seq<Word>): nat {
    if words == [] then 0 else words[0] * Pow65536(|words| - 1) + HighFirst(words[1..])
  }

  /** The words as digits, the first the lowest: words[i] * 65536^i, summed up. */
  function LowFirst(words: seq<Word>): nat {
    if words == [] then 0
    else
      var last := |words| - 1;
      LowFirst(words[..last]) + words[last] * Pow65536(last)
  }

  lemma {:induction false} LowIsHighReversed(words: seq<Word>)
    ensures HighFirst(Reversed(words)) == LowFirst(words)
    decreases |words|
  {
    if words != [] {
      var last := |words| - 1;
      LowIsHighReversed(words[..last]);
      assert Reversed(words)[1..] == Reversed(words[..last]);
    }
  }

  lemma {:induction false} PowersAgree(n: nat)
    ensures Pow256(2 * n) == Pow65536(n)
  {
    if n > 0 {
      PowersAgree(n - 1);
      assert Pow256(2 * n) == 256 * (256 * Pow256(2 * n - 2));
    }
  }

  lemma {:induction false} FromBytesConcat(a: seq<Byte>, b: seq<Byte>)
    ensures FromBytes(a + b) == FromBytes(a) * Pow256(|b|) + FromBytes(b)
    decreases |b|
  {
    if b == [] {
      assert a + b == a;
    } else {
      var front := b[..|b| - 1];
      FromBytesConcat(a, front);
      assert (a + b)[..|a + b| - 1] == a + front;
      TimesPower(FromBytes(a), Pow256(|front|), FromBytes(front), b[|b| - 1]);
    }
  }

  lemma TimesPower(x: nat, p: nat, y: nat, low: nat)
    ensures 256 * (x * p + y) + low == x * (256 * p) + (256 * y + low)
  {
  }

  lemma {:induction false} BytesAreDigits(words: seq<Word>)
    ensures FromBytes(BytesOf(words)) == HighFirst(words)
  {
    if words != [] {
      BytesAreDigits(words[1..]);
      PowersAgree(|words| - 1);
      FromBytesConcat(WordBytes(words[0]), BytesOf(words[1..]));
      WordIsDigit(words[0]);
    }
  }

  lemma WordIsDigit(w: Word)
    ensures FromBytes(WordBytes(w)) == w
  {
    assert WordBytes(w)[..1] == [w / 256] && [w / 256][..0] == [];
    assert FromBytes([w / 256]) == w / 256;
  }

  /** The two's complement reading of a number of n words. */
  function AsSigned(sum: nat, n: nat): int {
    if 2 * sum >= Pow65536(n) then sum - Pow65536(n) else sum
  }

  function DigitSum(def: RegisterDef, words: seq<Word>): nat {
    match def.order
    case BigEndian => HighFirst(words)
    case LittleEndian => LowFirst(words)
  }

  /** A big-endian register has its highest word first, a little-endian one its lowest; signed kinds are
      read in two's complement. */
  lemma IntegerIsPositional(def: RegisterDef, words: seq<Word>)
    ensures def.kind in {I32, I64} ==> IntegerOf(def, words) == AsSigned(DigitSum(def, words), |words|)
    ensures def.kind !in {I32, I64} ==> IntegerOf(def, words) == DigitSum(def, words)
    ensures DigitSum(def, words) < Pow65536(|words|)
  {
    hide FromBytes, BytesOf, HighFirst, LowFirst, Pow256, Pow65536;
    BytesAreDigits(Ordered(def, words));
    LowIsHighReversed(words);
    PowersAgree(|words|);
  }

  /** The words sent for a value are the digits of its raw number, in the register's order and modulo their
      size, two or four of them for the sized types and as many as the register has for any other. */
  lemma EncodedIsPositional(def: RegisterDef, value: real)
    requires def.Scalable() && EncodeInteger(def, value).Ok?
    ensures var words, raw := EncodeInteger(def, value).value, Truncate(CoerceScaledInput(def, value).value);
            && DigitSum(def, words) == (if raw < 0 then raw + Pow65536(|words|) else raw)
            && (raw < 0 ==> def.kind in {I32, I64})
            && |words| == (if def.kind in {U32, I32} then 2 else if def.kind in {U64, I64} then 4 else def.length)
  {
    var raw := Truncate(CoerceScaledInput(def, value).value);
    if Width(def) > 0 {
      WordsKeepInteger(def, raw);
    }
    IntegerIsPositional(def, EncodeInteger(def, value).value);
  }

  /** An integer is accepted exactly when it is within the limits and fits the words. */
  lemma EncodeAccepts(def: RegisterDef, v: int)
    requires Unscaled(def)
    ensures EncodeInteger(def, v as real)
         == if def.WithinLimits(v as real) then IntegerWords(def, v) else Err(OutsideLimits)
    ensures IntegerWords(def, v).Ok? <==> Representable(v, 2 * Width(def), SignedKind(def))
    ensures IntegerWords(def, v).Err? ==> IntegerWords(def, v).error == Overflow
  {
    IntegersStay(v);
  }

  /** An accepted integer reads back as itself, unless the register is a temperature and the integer is
      the sentinel's. */
  lemma DecodeInvertsEncode(def: RegisterDef, v: int)
    requires Unscaled(def) && Width(def) > 0 && EncodeInteger(def, v as real).Ok?
    ensures DecodeInteger(def, EncodeInteger(def, v as real).value)
         == if def.temperature && v == SentinelValue(def) then None else Some(v as real)
  {
    EncodeAccepts(def, v);
    WordsKeepInteger(def, v);
    SentinelWords(def, IntegerWords(def, v).value, v);
  }

  function SentinelRun(n: nat): (r: seq<Word>)
    ensures |r| == n && forall i :: 0 <= i < n ==> r[i] == SENTINEL
  {
    seq(n, _ => SENTINEL)
  }

  lemma {:induction false} SameInteger(a: seq<Word>, b: seq<Word>, signed: bool)
    requires |a| == |b| > 0 && FromBytesSigned(BytesOf(a), signed) == FromBytesSigned(BytesOf(b), signed)
    ensures a == b
  {
    BytesRoundTrip(BytesOf(a), signed);
    BytesRoundTrip(BytesOf(b), signed);
    WordsOfBytesOf(a);
    WordsOfBytesOf(b);
  }

  /** Only the sentinel's integer is encoded to the sentinel's words. */
  lemma SentinelWords(def: RegisterDef, words: seq<Word>, v: int)
    requires |words| == Width(def) > 0 && IntegerOf(def, words) == v
    ensures v == SentinelValue(def) <==> forall i :: 0 <= i < |words| ==> words[i] == 0x8000
  {
    var sentinel := SentinelRun(Width(def));
    if v == SentinelValue(def) {
      SameInteger(Ordered(def, words), sentinel, SignedKind(def));
      ReversedTwice(words);
    } else {
      assert Ordered(def, words) != sentinel;
    }
    assert Reversed(sentinel) == sentinel;
    assert words == sentinel <==> forall i :: 0 <= i < |words| ==> words[i] == SENTINEL;
  }

  /** The exception is real: a signed 32-bit temperature takes its sentinel's integer, and does not read
      it back. */
  lemma SentinelIsLost()
    ensures var def := RegisterDef(3, 100, 2, I32, BigEndian, true, false, None, None, 1.0, 1.0);
            var v := SentinelValue(def);
            EncodeInteger(def, v as real).Ok? && DecodeInteger(def, EncodeInteger(def, v as real).value) == None
  {
    var def := RegisterDef(3, 100, 2, I32, BigEndian, true, false, None, None, 1.0, 1.0);
    var sentinel := SentinelRun(2);
    EncodeAccepts(def, SentinelValue(def));
    IntegerKeepsWords(def, sentinel);
    DecodeInvertsEncode(def, SentinelValue(def));
  }

  /** Words that decode to a value within the limits are written back unchanged, scaled or not. */
  lemma {:induction false} EncodeInvertsDecode(def: RegisterDef, words: seq<Word>)
    requires Compatible(def) && |words| == Width(def) > 0
    requires DecodeInteger(def, words).Some? && def.WithinLimits(DecodeInteger(def, words).value)
    ensures EncodeInteger(def, DecodeInteger(def, words).value) == Ok(words)
  {
    var v := IntegerOf(def, words);
    CoerceInvertsOutput(def, v);
    IntegersStay(v);
    IntegerKeepsWords(def, words);
  }

  // ---------------------------------------------------------------- strings

  type Ascii = c: int | 0 <= c < 128

  function Padded(data: seq<Byte>, size: nat): seq<Byte> {
    if |data| >= size then data else data + seq(size - |data|, _ => 0)
  }

  /** Encoding an ASCII string: padded with NULs, and cut off, to exactly two bytes a word. */
  function EncodeText(def: RegisterDef, text: seq<Ascii>): (r: seq<Word>)
    ensures |r| == def.length
  {
    WordsOf(Padded(text, 2 * def.length)[..2 * def.length])
  }

  function CharAt(text: seq<Ascii>, k: nat): Byte {
    if k < |text| then text[k] else 0
  }

  lemma {:induction false} WordsAt(data: seq<Byte>, i: nat)
    requires |data| % 2 == 0 && 2 * i < |data|
    ensures WordsOf(data)[i] == 256 * (data[2 * i] as int) + data[2 * i + 1]
    decreases i
  {
    if i > 0 {
      WordsAt(data[2..], i - 1);
    }
  }

  /** Two characters to a word, the first in the high byte. */
  lemma TextWords(def: RegisterDef, text: seq<Ascii>, i: nat)
    requires i < def.length
    ensures EncodeText(def, text)[i] == 256 * (CharAt(text, 2 * i) as int) + CharAt(text, 2 * i + 1)
  {
    WordsAt(Padded(text, 2 * def.length)[..2 * def.length], i);
  }

  function StripNuls(data: seq<Byte>): (r: seq<Byte>)
    ensures r <= data
    ensures r != [] ==> r[|r| - 1] != 0
    ensures forall i :: |r| <= i < |data| ==> data[i] == 0
  {
    if data != [] && data[|data| - 1] == 0 then StripNuls(data[..|data| - 1]) else data
  }

  /** Decoding, before the bytes are turned into characters. */
  function DecodeText(def: RegisterDef, words: seq<Word>): Option<seq<Byte>> {
    if Unavailable(def, words) then None else Some(StripNuls(BytesOf(words)))
  }

  lemma {:induction false} StripUnique(data: seq<Byte>, kept: seq<Byte>)
    requires kept <= data && (kept != [] ==> kept[|kept| - 1] != 0)
    requires forall i :: |kept| <= i < |data| ==> data[i] == 0
    ensures StripNuls(data) == kept
    decreases |data|
  {
    if |kept| < |data| {
      StripUnique(data[..|data| - 1], kept);
    } else {
      assert kept == data;
    }
  }

  lemma AsciiIsAvailable(def: RegisterDef, words: seq<Word>, data: seq<Byte>)
    requires |words| > 0 && BytesOf(words) == data && data[0] < 128
    ensures !Unavailable(def, words)
  {
    assert data[0] == words[0] / 256;
  }

  /** A string survives exactly when it fits and does not end in a NUL. */
  lemma TextRoundTrip(def: RegisterDef, text: seq<Ascii>)
    requires def.length > 0
    ensures DecodeText(def, EncodeText(def, text)) == Some(text)
       <==> |text| <= 2 * def.length && (text != [] ==> text[|text| - 1] != 0)
  {
    var size := 2 * def.length;
    var data := Padded(text, size)[..size];
    BytesOfWordsOf(data);
    AsciiIsAvailable(def, EncodeText(def, text), data);
    if |text| <= size && (text != [] ==> text[|text| - 1] != 0) {
      StripUnique(data, text);
    }
  }

  /** A register that holds ASCII is written back unchanged. */
  lemma TextWordsRoundTrip(def: RegisterDef, words: seq<Word>)
    requires |words| == def.length > 0
    requires forall i :: 0 <= i < |BytesOf(words)| ==> BytesOf(words)[i] < 128
    ensures var text := DecodeText(def, words);
            && text.Some? && (forall i :: 0 <= i < |text.value| ==> text.value[i] < 128)
            && EncodeText(def, text.value) == words
  {
    var data := BytesOf(words);
    var text := StripNuls(data);
    AsciiIsAvailable(def, words, data);
    assert Padded(text, 2 * def.length)[..2 * def.length] == data;
    WordsOfBytesOf(words);
  }
}
