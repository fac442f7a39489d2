/** Encoding a physical value into a CAN payload and decoding it again. Doubles are exact reals; the
    32-bit floating-point format is a parameter. */
module CanCodec {
  import opened Results
  import opened Sequences
  import opened Reals
  import opened Bytes
  import opened Bits
  import opened Rounding
  import opened CanSignal

  /** What the read and write specifications of a signal have in common. */
  datatype Signal = Signal(dataType: string, scale: real, offset: real, byteOffset: int, bitOffset: int,
                           bitLength: int, bitOrder: string, endian: string)

  type uint32 = x: int | 0 <= x < 0x1_0000_0000

  /** Conversions of the platform's `float`: the bits of the float nearest to a quotient, and back. */
  datatype Float32 = Float32(quotientBits: (real, real) -> uint32, fromBits: uint32 -> real)

  function Lower(s: string): string {
    seq(|s|, i requires 0 <= i < |s| => if 'A' <= s[i] <= 'Z' then s[i] - 'A' + 'a' else s[i])
  }

  predicate IsFlag(dataType: string) {
    Lower(dataType) in ["bool", "bit"]
  }

  predicate IsFloat(dataType: string) {
    Lower(dataType) in ["float32", "float"]
  }

  predicate IsSignedType(dataType: string) {
    Lower(dataType) in ["int8", "int16", "int32", "int64"]
  }

  function DefaultBitLength(dataType: string): nat {
    var t := Lower(dataType);
    if t in ["bool", "bit"] then 1
    else if t in ["uint8", "int8", "byte"] then 8
    else if t in ["uint16", "int16"] then 16
    else if t in ["uint32", "int32", "float32", "float"] then 32
    else if t in ["uint64", "int64", "double"] then 64
    else 16
  }

  function SignalBitLength(s: Signal): (n: nat)
    ensures n > 0
  {
    if s.bitLength > 0 then s.bitLength else DefaultBitLength(s.dataType)
  }

  function LayoutOf(s: Signal): Layout {
    Layout(s.byteOffset, s.bitOffset, Lower(s.endian) in ["big", "be"],
           if Lower(s.bitOrder) == "lsb0" then Lsb0 else if Lower(s.bitOrder) == "msb0" then Msb0 else Unnamed)
  }

  // ----- integers of 64 bits -----

  /** The cast of a 64-bit unsigned integer to a signed one. */
  function ToInt64(u: nat): int {
    if u < Pow2(63) then u else u - Pow2(64)
  }

  /** Setting all bits from `bitLength` up when the sign bit is set. */
  function SignExtend(value: nat, bitLength: nat): int {
    if bitLength == 0 || bitLength >= 64 || !Bit(value, bitLength - 1) then ToInt64(value)
    else Pow2Monotone(bitLength, 64); ToInt64(Low(value, bitLength) + (Pow2(64) - Pow2(bitLength)))
  }

  function ToRawInteger(value: real, s: Signal): (r: Result<nat>)
    ensures r.Failed? <==> Abs(s.scale) < SMALLEST_SCALE
  {
    if Abs(s.scale) < SMALLEST_SCALE then Failed else Ok(ToUint64(Llround(Quotient(value, s.scale, s.offset))))
  }

  function ApplyScale(raw: real, s: Signal): real {
    raw * s.scale + s.offset
  }

  // ----- encoding and decoding -----

  predicate Placeable(s: Signal, size: nat) {
    InBounds(size, LayoutOf(s), SignalBitLength(s)) && (IsFloat(s.dataType) ==> SignalBitLength(s) == 32)
  }

  /** The 64 bits that encoding writes. */
  function RawOf(f: Float32, value: real, s: Signal): Result<nat> {
    if IsFloat(s.dataType) then Ok(f.quotientBits(value - s.offset, s.scale))
    else if IsFlag(s.dataType) then Ok(if value == 0.0 then 0 else 1)
    else ToRawInteger(value, s)
  }

  function FrameSize(dlc: int): int {
    if dlc > 0 then dlc else 8
  }

  /** Encoding fails exactly when the signal does not fit the frame or cannot be scaled; otherwise only the
      signal's own bits differ from zero, and they hold the raw value. */
  method Encode(f: Float32, value: real, s: Signal, dlc: int) returns (r: Result<bytes>)
    ensures r.Ok? <==> FrameSize(dlc) <= 64 && Placeable(s, FrameSize(dlc)) && RawOf(f, value, s).Ok?
    ensures r.Ok? ==> Written(Repeat(0 as byte, FrameSize(dlc)), r.value, LayoutOf(s), SignalBitLength(s),
                              RawOf(f, value, s).value)
  {
    hide Written, InBounds, IsFloat, IsFlag, ToRawInteger, LayoutOf, SignalBitLength;
    var size := FrameSize(dlc);
    if size > 64 {
      return Failed;
    }
    var bitLength := SignalBitLength(s);
    if !InBounds(size, LayoutOf(s), bitLength) {
      return Failed;
    }
    var payload := new byte[size](i => 0);
    assert payload[..] == Repeat(0 as byte, size);
    if IsFloat(s.dataType) {
      if bitLength != 32 {
        return Failed;
      }
      WriteUnsignedBits(payload, LayoutOf(s), bitLength, f.quotientBits(value - s.offset, s.scale));
    } else if IsFlag(s.dataType) {
      WriteUnsignedBits(payload, LayoutOf(s), bitLength, if value == 0.0 then 0 else 1);
    } else {
      var raw := ToRawInteger(value, s);
      if raw.Failed? {
        return Failed;
      }
      WriteUnsignedBits(payload, LayoutOf(s), bitLength, raw.value);
    }
    r := Ok(payload[..]);
  }

  /** The physical value of a raw signal. */
  function Physical(f: Float32, s: Signal, signedFlag: bool, raw: nat): real {
    if IsFlag(s.dataType) then if raw == 0 then 0.0 else 1.0
    else if IsFloat(s.dataType) then ApplyScale(f.fromBits(raw % 0x1_0000_0000), s)
    else ApplyScale(Integer(raw, SignalBitLength(s), IsSignedType(s.dataType) || signedFlag) as real, s)
  }

  function Integer(raw: nat, bitLength: nat, signed: bool): int {
    if signed then SignExtend(raw, bitLength) else raw
  }

  method Decode(f: Float32, payload: bytes, s: Signal, signedFlag: bool) returns (r: Result<real>)
    ensures r.Ok? <==> Placeable(s, |payload|)
    ensures r.Ok? ==> exists raw :: Holds(payload, LayoutOf(s), SignalBitLength(s), raw)
                                    && r.value == Physical(f, s, signedFlag, raw)
  {
    hide InBounds, IsFloat, IsFlag, IsSignedType, LayoutOf, SignalBitLength, SignExtend, Holds, Lower;
    var bitLength := SignalBitLength(s);
    if !InBounds(|payload|, LayoutOf(s), bitLength) {
      return Failed;
    }
    var raw := ExtractUnsignedBits(payload, LayoutOf(s), bitLength);
    if IsFlag(s.dataType) {
      FlagsAreNotFloats(s.dataType);
      return Ok(if raw == 0 then 0.0 else 1.0);
    }
    if IsFloat(s.dataType) {
      if bitLength != 32 {
        return Failed;
      }
      return Ok(ApplyScale(f.fromBits(raw % 0x1_0000_0000), s));
    } else if IsSignedType(s.dataType) || signedFlag {
      return Ok(ApplyScale(SignExtend(raw, bitLength) as real, s));
    } else {
      return Ok(ApplyScale(raw as real, s));
    }
  }

  lemma FlagsAreNotFloats(dataType: string)
    requires IsFlag(dataType)
    ensures !IsFloat(dataType)
  {
  }

  // ----- the round trip -----

  /** The integers a signal of this width can carry. */
  predicate Fits(n: int, bitLength: nat, signed: bool)
    requires bitLength > 0
  {
    if signed then 0 <= n + Pow2(bitLength - 1) < Pow2(bitLength) else 0 <= n < Pow2(bitLength)
  }

  lemma {:induction false} TopBit(x: nat, n: nat)
    requires n > 0 && x < Pow2(n)
    ensures Bit(x, n - 1) <==> x >= Pow2(n - 1)
    decreases n
  {
    if n > 1 {
      TopBit(x / 2, n - 1);
    }
  }

  /** The truncated cast of an integer is the integer modulo 2^bitLength. */
  lemma TruncatedCast(n: int, bitLength: nat)
    requires bitLength <= 64
    ensures ToUint64(n) % Pow2(bitLength) == n % Pow2(bitLength)
  {
    hide Pow2;
    var p, q := Pow2(bitLength), Pow2(64 - bitLength);
    Pow2Sum(bitLength, 64 - bitLength);
    var u := ToUint64(n);
    var a, b := n / Pow2(64), u / p;
    assert n == a * Pow2(64) + u;
    assert u == b * p + u % p;
    assert a * Pow2(64) == (a * q) * p by {
      assert Pow2(64) == p * q;
      Regroup(a, p, q);
    }
    assert n == (a * q + b) * p + u % p by {
      assert (a * q + b) * p == (a * q) * p + b * p;
    }
    DivisionUnique(n, p, a * q + b, u % p);
  }

  lemma Regroup(a: int, p: int, q: int)
    ensures a * (p * q) == (a * q) * p
  {
  }

  /** What a raw signal decodes to is in range and congruent to the raw value. */
  lemma IntegerRange(raw: nat, bitLength: nat, signed: bool)
    requires 0 < bitLength <= 64 && raw < Pow2(bitLength)
    ensures Fits(Integer(raw, bitLength, signed), bitLength, signed)
    ensures Integer(raw, bitLength, signed) == raw || Integer(raw, bitLength, signed) == raw - Pow2(bitLength)
  {
    hide Bit, Low, Pow2;
    Halves(bitLength);
    if signed {
      Halves(64);
      TopBit(raw, bitLength);
      LowIsMod(raw, bitLength);
      if bitLength < 64 {
        Pow2Monotone(bitLength, 63);
      }
    }
  }

  /** Distinct integers that agree modulo `m` are at least `m` apart. */
  lemma CongruentApart(x: int, y: int, m: int)
    requires m > 0 && x % m == y % m && x != y
    ensures x - y >= m || y - x >= m
  {
    assert x == m * (x / m) + x % m && y == m * (y / m) + y % m;
    var d := x / m - y / m;
    assert x - y == d * m by {
      assert d * m == m * (x / m) - m * (y / m);
    }
    if d > 0 {
      AtLeastOnce(d, m);
    } else if d < 0 {
      AtLeastOnce(-d, m);
    }
  }

  /** Sign extension (or nothing, for unsigned signals) undoes the cast and the truncation, exactly for the
      integers that fit the signal. */
  lemma IntegerRoundTrip(n: int, bitLength: nat, signed: bool)
    requires 0 < bitLength <= 64
    ensures var d := Integer(ToUint64(n) % Pow2(bitLength), bitLength, signed);
            if Fits(n, bitLength, signed) then d == n else d - n >= Pow2(bitLength) || n - d >= Pow2(bitLength)
  {
    hide Pow2, Integer, ToUint64;
    var m := Pow2(bitLength);
    var raw := ToUint64(n) % m;
    var d := Integer(raw, bitLength, signed);
    TruncatedCast(n, bitLength);
    IntegerRange(raw, bitLength, signed);
    assert n % m == raw;
    assert d % m == raw by {
      if d == raw {
        DivisionUnique(d, m, 0, raw);
      } else {
        DivisionUnique(d, m, -1, raw);
      }
    }
    if d != n {
      CongruentApart(d, n, m);
      Halves(bitLength);
    }
  }

  /** |s| * |d| against |s| / 2: scaling keeps comparisons with a half. */
  lemma ScaledError(s: real, d: real, e: real)
    requires s != 0.0 && e == s * d
    ensures Abs(e) <= Abs(s) / 2.0 <==> -0.5 <= d <= 0.5
  {
    if s > 0.0 {
      ScaledOrder(s, d);
      ScaledOrder(s, -d);
      assert s * -d == -(s * d);
    } else {
      ScaledOrder(-s, d);
      ScaledOrder(-s, -d);
      assert -s * d == -(s * d) && -s * -d == s * d;
    }
  }

  lemma ScaledOrder(s: real, d: real)
    requires s > 0.0
    ensures s * d <= s / 2.0 <==> d <= 0.5
  {
    if d <= 0.5 {
      assert s * (0.5 - d) >= 0.0;
    } else {
      assert s * (d - 0.5) > 0.0;
    }
  }

  /** Encoding then decoding an integer signal comes back within half a step of the value exactly when the
      rounded quotient fits the signal's width. */
  lemma NumericRoundTrip(f: Float32, value: real, s: Signal, signedFlag: bool, size: nat, payload: bytes, raw: nat)
    requires !IsFlag(s.dataType) && !IsFloat(s.dataType) && RawOf(f, value, s).Ok?
    requires FitsInt64(Llround(Quotient(value, s.scale, s.offset)))
    requires Written(Repeat(0 as byte, size), payload, LayoutOf(s), SignalBitLength(s), RawOf(f, value, s).value)
    requires Holds(payload, LayoutOf(s), SignalBitLength(s), raw)
    ensures Abs(Physical(f, s, signedFlag, raw) - value) <= Abs(s.scale) / 2.0
       <==> Fits(Llround(Quotient(value, s.scale, s.offset)), SignalBitLength(s),
                 IsSignedType(s.dataType) || signedFlag)
  {
    hide IsFlag, IsFloat, IsSignedType, LayoutOf, SignalBitLength, Written, Holds, Integer, ToUint64, Fits, Pow2,
      Llround, FitsInt64, Quotient, ApplyScale, Abs;
    var bitLength := SignalBitLength(s);
    var signed := IsSignedType(s.dataType) || signedFlag;
    var n := Llround(Quotient(value, s.scale, s.offset));
    ReadAfterWrite(Repeat(0 as byte, size), payload, LayoutOf(s), bitLength, ToUint64(n), raw);
    HoldsOnlyInBounds(payload, LayoutOf(s), bitLength, raw);
    IntegerWithinHalf(value, s, n, bitLength, signed);
  }

  /** An 8-bit unsigned signal of scale one. */
  function SmallSignal(): Signal {
    Signal("uint8", 1.0, 0.0, 0, 0, 8, "lsb0", "little")
  }

  /** It encodes 256 without complaint, and the value comes back as zero. */
  lemma TooWideValue(f: Float32, payload: bytes, raw: nat)
    requires Written(Repeat(0 as byte, 8), payload, LayoutOf(SmallSignal()), 8, 256)
    requires Holds(payload, LayoutOf(SmallSignal()), 8, raw)
    ensures Placeable(SmallSignal(), 8) && SignalBitLength(SmallSignal()) == 8
    ensures RawOf(f, 256.0, SmallSignal()) == Ok(256)
    ensures Physical(f, SmallSignal(), false, raw) == 0.0
  {
    hide Written, Holds, Pow2, Placeable, IsFlag, IsFloat, IsSignedType, LayoutOf, SignalBitLength;
    SmallSignalIsPlaced();
    ReadAfterWrite(Repeat(0 as byte, 8), payload, LayoutOf(SmallSignal()), 8, 256, raw);
    Pow2Of8();
    Halves(9);
    Pow2Monotone(9, 64);
    DivisionUnique(256, Pow2(64), 0, 256);
  }

  lemma SmallSignalIsPlaced()
    ensures Placeable(SmallSignal(), 8) && SignalBitLength(SmallSignal()) == 8
    ensures !IsFlag("uint8") && !IsFloat("uint8") && !IsSignedType("uint8")
  {
    assert Lower("uint8") == "uint8";
  }

  lemma IntegerWithinHalf(value: real, s: Signal, n: int, bitLength: nat, signed: bool)
    requires Abs(s.scale) >= SMALLEST_SCALE && n == Llround(Quotient(value, s.scale, s.offset)) && 0 < bitLength <= 64
    ensures var d := Integer(ToUint64(n) % Pow2(bitLength), bitLength, signed);
            Abs(ApplyScale(d as real, s) - value) <= Abs(s.scale) / 2.0 <==> Fits(n, bitLength, signed)
  {
    hide Integer, ToUint64, Fits, Pow2, Llround, Quotient, ApplyScale, Abs;
    var d := Integer(ToUint64(n) % Pow2(bitLength), bitLength, signed);
    var x := Quotient(value, s.scale, s.offset);
    IntegerRoundTrip(n, bitLength, signed);
    Halves(bitLength);
    RoundingError(x);
    PhysicalDifference(d as real, value, s);
    NotZero(s.scale);
    ScaledError(s.scale, d as real - x, ApplyScale(d as real, s) - value);
    ExactOrFar(d, n, x);
  }

  lemma ExactOrFar(d: int, n: int, x: real)
    requires d == n || d - n >= 2 || n - d >= 2
    requires -0.5 <= n as real - x <= 0.5
    ensures -0.5 <= d as real - x <= 0.5 <==> d == n
  {
    assert (d - n) as real == d as real - n as real;
  }

  lemma PhysicalDifference(d: real, value: real, s: Signal)
    requires Abs(s.scale) >= SMALLEST_SCALE
    ensures ApplyScale(d, s) - value == s.scale * (d - Quotient(value, s.scale, s.offset))
  {
    var x := Quotient(value, s.scale, s.offset);
    assert s.scale * x == value - s.offset;
    assert s.scale * (d - x) == s.scale * d - s.scale * x;
  }

  /** Flags come back as zero or one. */
  lemma FlagRoundTrip(f: Float32, value: real, s: Signal, signedFlag: bool, size: nat, payload: bytes, raw: nat)
    requires IsFlag(s.dataType)
    requires Written(Repeat(0 as byte, size), payload, LayoutOf(s), SignalBitLength(s), RawOf(f, value, s).value)
    requires Holds(payload, LayoutOf(s), SignalBitLength(s), raw)
    ensures Physical(f, s, signedFlag, raw) == if value == 0.0 then 0.0 else 1.0
  {
    hide IsFlag, IsFloat, LayoutOf, SignalBitLength, Written, Holds;
    FlagsAreNotFloats(s.dataType);
    var bitLength := SignalBitLength(s);
    HoldsOnlyInBounds(payload, LayoutOf(s), bitLength, raw);
    Halves(bitLength);
    var bit := if value == 0.0 then 0 else 1;
    ReadAfterWrite(Repeat(0 as byte, size), payload, LayoutOf(s), bitLength, bit, raw);
    DivisionUnique(bit, Pow2(bitLength), 0, bit);
  }

  lemma Pow2Of32()
    ensures Pow2(32) == 0x1_0000_0000
  {
    hide Pow2;
    Pow2Sum(8, 8);
    Pow2Sum(16, 16);
    Pow2Of8();
  }

  lemma Pow2Of8()
    ensures Pow2(8) == 256
  {
  }

  /** Floats come back as the scaled float nearest to the quotient. */
  lemma FloatRoundTrip(f: Float32, value: real, s: Signal, signedFlag: bool, size: nat, payload: bytes, raw: nat)
    requires IsFloat(s.dataType) && Placeable(s, size)
    requires Written(Repeat(0 as byte, size), payload, LayoutOf(s), SignalBitLength(s), RawOf(f, value, s).value)
    requires Holds(payload, LayoutOf(s), SignalBitLength(s), raw)
    ensures Physical(f, s, signedFlag, raw)
            == f.fromBits(f.quotientBits(value - s.offset, s.scale)) * s.scale + s.offset
  {
    hide IsFlag, IsFloat, LayoutOf, SignalBitLength, Written, Holds, InBounds, Pow2;
    if IsFlag(s.dataType) {
      FlagsAreNotFloats(s.dataType);
    }
    Pow2Of32();
    ReadAfterWrite(Repeat(0 as byte, size), payload, LayoutOf(s), 32, f.quotientBits(value - s.offset, s.scale), raw);
  }

  // ----- byte order -----

  function Word(endian: string, scale: real, offset: real): Signal {
    Signal("uint16", scale, offset, 0, 0, 16, "lsb0", endian)
  }

  /** Two bytes as an unsigned word: the first byte is the high one if the byte order is named `big` or `be`, in upper
      or lower case, and the low one otherwise; times the scale, plus the offset. */
  lemma WordOrder(f: Float32, first: byte, second: byte, endian: string, scale: real, offset: real,
                  raw: nat)
    requires Holds([first, second], LayoutOf(Word(endian, scale, offset)), 16, raw)
    ensures Placeable(Word(endian, scale, offset), 2) && SignalBitLength(Word(endian, scale, offset)) == 16
    ensures var number: int := if Lower(endian) in ["big", "be"] then first * 256 + second else second * 256 + first;
            Physical(f, Word(endian, scale, offset), false, raw) == number as real * scale + offset
  {
    hide Holds, LittleEndian, BigEndian, Pow2, IsFlag, IsFloat, IsSignedType;
    WordIsPlaced(endian, scale, offset);
    WholeBytesHold([first, second], LayoutOf(Word(endian, scale, offset)), 16, raw);
    assert [first, second][0..2] == [first, second];
    TwoBytesWrite(first, second);
  }

  lemma WordIsPlaced(endian: string, scale: real, offset: real)
    ensures Placeable(Word(endian, scale, offset), 2) && SignalBitLength(Word(endian, scale, offset)) == 16
    ensures ByteWise(LayoutOf(Word(endian, scale, offset)), 16) && LayoutOf(Word(endian, scale, offset)).byteOffset == 0
    ensures LayoutOf(Word(endian, scale, offset)).bigEndian == (Lower(endian) in ["big", "be"])
    ensures !IsFlag("uint16") && !IsFloat("uint16") && !IsSignedType("uint16")
  {
    assert Lower("uint16") == "uint16" && Lower("lsb0") == "lsb0";
  }

  lemma TwoBytesWrite(first: byte, second: byte)
    ensures LittleEndian([first, second]) == second * 256 + first && BigEndian([first, second]) == first * 256 + second
  {
    assert [first, second][..1] == [first] && [first][..0] == [];
    Pow2Of8();
    assert Pow2(0) == 1;
    assert LittleEndian([]) == 0 && BigEndian([]) == 0;
    assert LittleEndian([first]) == first && BigEndian([first]) == first;
  }

  /** The widths of the data types when none is given. */
  lemma TypesHaveWidths(s: Signal)
    requires s.bitLength <= 0
    ensures var t, n := Lower(s.dataType), SignalBitLength(s);
            && (t in ["bool", "bit"] ==> n == 1)
            && (t in ["uint8", "int8", "byte"] ==> n == 8)
            && (t in ["uint32", "int32", "float32", "float"] ==> n == 32)
            && (t in ["uint64", "int64", "double"] ==> n == 64)
            && (n in [1, 8, 32, 64] || n == 16)
            && (t in ["uint16", "int16"] ==> n == 16)
  {
  }
}
