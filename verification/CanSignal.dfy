/** CAN signals: unsigned integers packed into payload bytes, with two byte orders, two bit orders, a
    byte-wise path and a bit-wise path. */
module CanSignal {
  import opened Bytes
  import opened Bits

  /** The bit orders the code knows; any other text behaves like `lsb0` without the byte-wise path. */
  datatype BitOrder = Lsb0 | Msb0 | Unnamed

  datatype Layout = Layout(byteOffset: int, bitOffset: int, bigEndian: bool, bitOrder: BitOrder)

  /** The signal lies inside a payload of `size` bytes. */
  predicate InBounds(size: nat, can: Layout, bitLength: nat) {
    && can.byteOffset >= 0 && 0 <= can.bitOffset <= 7 && 0 < bitLength <= 64
    && can.byteOffset * 8 + can.bitOffset + bitLength <= size * 8
  }

  function PhysicalBitIndex(can: Layout, signalBit: int): int
    requires can.byteOffset >= 0 && can.bitOffset >= 0 && signalBit >= 0
  {
    var logicalBit := can.byteOffset * 8 + can.bitOffset + signalBit;
    if can.bitOrder.Msb0? then logicalBit / 8 * 8 + (7 - logicalBit % 8) else logicalBit
  }

  /** Whole bytes in `lsb0` order take the byte-wise path. */
  predicate ByteWise(can: Layout, bitLength: nat) {
    can.bitOffset == 0 && bitLength % 8 == 0 && can.bitOrder.Lsb0?
  }

  // ----- where the bits of a value lie -----

  /** Bit `k` of a payload, counting from the low bit of its first byte. */
  function PayloadBit(payload: bytes, k: nat): bool
    requires k < 8 * |payload|
  {
    Bit(payload[k / 8], k % 8)
  }

  /** The payload bit that holds bit `t` of the value. */
  function Place(can: Layout, bitLength: nat, t: nat): int
    requires can.byteOffset >= 0 && can.bitOffset >= 0 && t < bitLength
  {
    if ByteWise(can, bitLength) then
      var byteIndex := if can.bigEndian then bitLength / 8 - 1 - t / 8 else t / 8;
      (can.byteOffset + byteIndex) * 8 + t % 8
    else PhysicalBitIndex(can, if can.bigEndian then bitLength - 1 - t else t)
  }

  /** The bits of a value lie inside the payload, no two in the same place. */
  lemma PlaceInRange(size: nat, can: Layout, bitLength: nat, t: nat)
    requires InBounds(size, can, bitLength) && t < bitLength
    ensures 0 <= Place(can, bitLength, t) < 8 * size
  {
    hide PhysicalBitIndex;
    if ByteWise(can, bitLength) {
      assert t / 8 < bitLength / 8 && t % 8 < 8;
    } else {
      PhysicalInRange(size, can, bitLength, if can.bigEndian then bitLength - 1 - t else t);
    }
  }

  lemma PhysicalInRange(size: nat, can: Layout, bitLength: nat, i: nat)
    requires InBounds(size, can, bitLength) && i < bitLength
    ensures 0 <= PhysicalBitIndex(can, i) < 8 * size
  {
    Mirror(can.byteOffset * 8 + can.bitOffset + i);
  }

  /** Mirroring the bits of a byte keeps the byte. */
  lemma Mirror(x: nat)
    ensures var m := x / 8 * 8 + (7 - x % 8); m / 8 == x / 8 && m % 8 == 7 - x % 8
  {
  }

  lemma PhysicalInjective(can: Layout, i: nat, j: nat)
    requires can.byteOffset >= 0 && can.bitOffset >= 0
    requires PhysicalBitIndex(can, i) == PhysicalBitIndex(can, j)
    ensures i == j
  {
    if can.bitOrder.Msb0? {
      var base := can.byteOffset * 8 + can.bitOffset;
      Mirror(base + i);
      Mirror(base + j);
    }
  }

  lemma PlaceInjective(size: nat, can: Layout, bitLength: nat, t: nat, u: nat)
    requires InBounds(size, can, bitLength) && t < bitLength && u < bitLength
    requires Place(can, bitLength, t) == Place(can, bitLength, u)
    ensures t == u
  {
    hide PhysicalBitIndex;
    if ByteWise(can, bitLength) {
      assert t == t / 8 * 8 + t % 8 && u == u / 8 * 8 + u % 8;
    } else if can.bigEndian {
      PhysicalInjective(can, bitLength - 1 - t, bitLength - 1 - u);
    } else {
      PhysicalInjective(can, t, u);
    }
  }

  /** `value` is what the payload holds in the signal's place. */
  ghost predicate Holds(payload: bytes, can: Layout, bitLength: nat, value: nat) {
    && InBounds(|payload|, can, bitLength)
    && value < Pow2(bitLength)
    && forall t :: 0 <= t < bitLength ==>
         0 <= Place(can, bitLength, t) < 8 * |payload|
         && Bit(value, t) == PayloadBit(payload, Place(can, bitLength, t))
  }

  /** The signal's value is unique. */
  lemma HoldsUnique(payload: bytes, can: Layout, bitLength: nat, x: nat, y: nat)
    requires Holds(payload, can, bitLength, x) && Holds(payload, can, bitLength, y)
    ensures x == y
  {
    hide Place, PayloadBit, Bit, Pow2;
    BitsDetermine(x, y, bitLength);
  }

  // ----- extraction -----

  method ExtractUnsignedBits(payload: bytes, can: Layout, bitLength: nat) returns (value: nat)
    requires InBounds(|payload|, can, bitLength)
    ensures Holds(payload, can, bitLength, value)
  {
    if ByteWise(can, bitLength) {
      value := ExtractBytes(payload, can, bitLength);
    } else {
      value := ExtractBits(payload, can, bitLength);
    }
  }

  method ExtractBits(payload: bytes, can: Layout, bitLength: nat) returns (value: nat)
    requires InBounds(|payload|, can, bitLength) && !ByteWise(can, bitLength)
    ensures Holds(payload, can, bitLength, value)
  {
    hide Bit, Pow2, WithBit;
    value := 0;
    NothingSet(bitLength);
    forall t: nat | t < bitLength {
      PlaceInRange(|payload|, can, bitLength, t);
    }
    for i := 0 to bitLength
      invariant value < Pow2(bitLength)
      invariant forall t :: 0 <= t < bitLength ==>
                  Bit(value, t) == ((if can.bigEndian then bitLength - 1 - t else t) < i
                                    && PayloadBit(payload, Place(can, bitLength, t)))
    {
      var targetBit := if can.bigEndian then bitLength - 1 - i else i;
      var physical := PhysicalBitIndex(can, i);
      assert physical == Place(can, bitLength, targetBit);
      if Bit(payload[physical / 8], physical % 8) {
        forall t | 0 <= t < bitLength {
          BitOfWithBit(value, targetBit, true, t);
        }
        WithBitBound(value, targetBit, true, bitLength);
        value := WithBit(value, targetBit, true);
      }
    }
  }

  lemma NothingSet(n: nat)
    ensures 0 < Pow2(n) && forall t: nat :: !Bit(0, t)
  {
    forall t: nat {
      BitOfZero(t);
    }
  }

  lemma ByteIsBelowPow2(b: byte)
    ensures b < Pow2(8)
  {
    assert Pow2(8) == 256;
  }

  /** `value` is made of the first `i` bytes from `offset`, the first of them highest if `bigEndian`. */
  ghost predicate Assembled(payload: bytes, offset: nat, bigEndian: bool, i: nat, value: nat)
    requires offset + i <= |payload|
  {
    value < Pow2(8 * i) && forall t :: 0 <= t < 8 * i ==>
      Bit(value, t) == AssembledBit(payload, offset, bigEndian, i, t)
  }

  ghost function AssembledBit(payload: bytes, offset: nat, bigEndian: bool, i: nat, t: nat): bool
    requires offset + i <= |payload| && t < 8 * i
  {
    Bit(payload[offset + (if bigEndian then i - 1 - t / 8 else t / 8)], t % 8)
  }

  lemma AssembleBelow(payload: bytes, offset: nat, i: nat, value: nat)
    requires offset + i < |payload| && Assembled(payload, offset, true, i, value)
    ensures Assembled(payload, offset, true, i + 1, value * Pow2(8) + payload[offset + i])
  {
    hide Bit, Pow2;
    var byte := payload[offset + i];
    ByteIsBelowPow2(byte);
    JoinedBound(value, 8 * i, byte, 8);
    var joined := value * Pow2(8) + byte;
    forall t | 0 <= t < 8 * (i + 1)
      ensures Bit(joined, t) == AssembledBit(payload, offset, true, i + 1, t)
    {
      BitOfJoin(value, byte, 8, t);
      if t >= 8 {
        assert (t - 8) / 8 == t / 8 - 1 && (t - 8) % 8 == t % 8;
        assert Bit(value, t - 8) == AssembledBit(payload, offset, true, i, t - 8);
      }
    }
  }

  lemma AssembleAbove(payload: bytes, offset: nat, i: nat, value: nat)
    requires offset + i < |payload| && Assembled(payload, offset, false, i, value)
    ensures Assembled(payload, offset, false, i + 1, payload[offset + i] * Pow2(8 * i) + value)
  {
    hide Bit, Pow2;
    var byte := payload[offset + i];
    ByteIsBelowPow2(byte);
    JoinedBound(byte, 8, value, 8 * i);
    var joined := byte * Pow2(8 * i) + value;
    forall t | 0 <= t < 8 * (i + 1)
      ensures Bit(joined, t) == AssembledBit(payload, offset, false, i + 1, t)
    {
      BitOfJoin(byte, value, 8 * i, t);
      if t >= 8 * i {
        assert t / 8 == i && t % 8 == t - 8 * i;
      } else {
        assert Bit(value, t) == AssembledBit(payload, offset, false, i, t);
      }
    }
  }

  lemma AssembledHolds(payload: bytes, can: Layout, bitLength: nat, value: nat)
    requires InBounds(|payload|, can, bitLength) && ByteWise(can, bitLength)
    requires Assembled(payload, can.byteOffset, can.bigEndian, bitLength / 8, value)
    ensures Holds(payload, can, bitLength, value)
  {
    hide Bit, Pow2;
    assert 8 * (bitLength / 8) == bitLength;
    forall t | 0 <= t < bitLength
      ensures 0 <= Place(can, bitLength, t) < 8 * |payload|
      ensures Bit(value, t) == PayloadBit(payload, Place(can, bitLength, t))
    {
      PlaceInRange(|payload|, can, bitLength, t);
      assert Bit(value, t) == AssembledBit(payload, can.byteOffset, can.bigEndian, bitLength / 8, t);
    }
  }

  lemma NothingAssembled(payload: bytes, offset: nat, bigEndian: bool)
    requires offset <= |payload|
    ensures Assembled(payload, offset, bigEndian, 0, 0)
  {
  }

  method ExtractBytes(payload: bytes, can: Layout, bitLength: nat) returns (value: nat)
    requires InBounds(|payload|, can, bitLength) && ByteWise(can, bitLength)
    ensures Holds(payload, can, bitLength, value)
  {
    hide Assembled, Pow2;
    var byteCount := bitLength / 8;
    value := 0;
    NothingAssembled(payload, can.byteOffset, can.bigEndian);
    for i := 0 to byteCount
      invariant Assembled(payload, can.byteOffset, can.bigEndian, i, value)
    {
      var byte := payload[can.byteOffset + i];
      if can.bigEndian {
        AssembleBelow(payload, can.byteOffset, i, value);
        value := value * Pow2(8) + byte;
      } else {
        AssembleAbove(payload, can.byteOffset, i, value);
        value := byte * Pow2(8 * i) + value;
      }
    }
    AssembledHolds(payload, can, bitLength, value);
  }

  /** The number that bytes write, the first of them lowest. */
  function LittleEndian(s: bytes): nat {
    if s == [] then 0 else s[|s| - 1] * Pow2(8 * (|s| - 1)) + LittleEndian(s[..|s| - 1])
  }

  /** The number that bytes write, the first of them highest. */
  function BigEndian(s: bytes): nat {
    if s == [] then 0 else BigEndian(s[..|s| - 1]) * 256 + s[|s| - 1]
  }

  lemma {:induction false} NumberAssembled(payload: bytes, offset: nat, i: nat)
    requires offset + i <= |payload|
    ensures Assembled(payload, offset, false, i, LittleEndian(payload[offset..offset + i]))
    ensures Assembled(payload, offset, true, i, BigEndian(payload[offset..offset + i]))
  {
    hide Assembled, Pow2;
    var s := payload[offset..offset + i];
    if i == 0 {
      NothingAssembled(payload, offset, false);
      NothingAssembled(payload, offset, true);
    } else {
      NumberAssembled(payload, offset, i - 1);
      assert s[..i - 1] == payload[offset..offset + (i - 1)];
      AssembleAbove(payload, offset, i - 1, LittleEndian(s[..i - 1]));
      AssembleBelow(payload, offset, i - 1, BigEndian(s[..i - 1]));
      assert Pow2(8) == 256 by {
        TwoToTheEighth();
      }
    }
  }

  lemma TwoToTheEighth()
    ensures Pow2(8) == 256
  {
  }

  /** A signal of whole bytes in `lsb0` order holds the number that its bytes write in its byte order. */
  lemma WholeBytesHold(payload: bytes, can: Layout, bitLength: nat, value: nat)
    requires InBounds(|payload|, can, bitLength) && ByteWise(can, bitLength)
    ensures var s := payload[can.byteOffset..can.byteOffset + bitLength / 8];
            Holds(payload, can, bitLength, value)
            <==> value == if can.bigEndian then BigEndian(s) else LittleEndian(s)
  {
    hide Assembled, Holds;
    var s := payload[can.byteOffset..can.byteOffset + bitLength / 8];
    var number := if can.bigEndian then BigEndian(s) else LittleEndian(s);
    NumberAssembled(payload, can.byteOffset, bitLength / 8);
    AssembledHolds(payload, can, bitLength, number);
    if Holds(payload, can, bitLength, value) {
      HoldsUnique(payload, can, bitLength, value, number);
    }
  }

  /** Any other signal takes the bits from its first on in order, its lowest bit first or, big-endian, last; `msb0`
      counts the bits of a byte from its highest. */
  lemma OtherSignalsHold(payload: bytes, can: Layout, bitLength: nat, value: nat, t: nat)
    requires Holds(payload, can, bitLength, value) && !ByteWise(can, bitLength) && t < bitLength
    ensures var position := can.byteOffset * 8 + can.bitOffset + if can.bigEndian then bitLength - 1 - t else t;
            && 0 <= position < 8 * |payload|
            && Bit(value, t)
               == Bit(payload[position / 8], if can.bitOrder.Msb0? then 7 - position % 8 else position % 8)
  {
    hide Bit, Pow2;
    var position := can.byteOffset * 8 + can.bitOffset + if can.bigEndian then bitLength - 1 - t else t;
    Mirror(position);
    assert Bit(value, t) == PayloadBit(payload, Place(can, bitLength, t));
  }

  /** Two numbers put side by side. */
  lemma JoinedBound(x: nat, m: nat, y: nat, n: nat)
    requires x < Pow2(m) && y < Pow2(n)
    ensures x * Pow2(n) + y < Pow2(m + n)
  {
    hide Pow2;
    Pow2Sum(m, n);
    ProductBound(x, Pow2(m), Pow2(n));
  }

  lemma ProductBound(x: nat, p: nat, q: nat)
    requires x < p
    ensures x * q + q <= p * q
  {
    assert (x + 1) * q <= p * q;
  }

  // ----- writing -----

  /** The value's bits are in their places, and all other bits are as before. */
  ghost predicate Written(before: bytes, after: bytes, can: Layout, bitLength: nat, value: nat) {
    && |after| == |before|
    && Holds(after, can, bitLength, Low(value, bitLength))
    && forall k :: 0 <= k < 8 * |before| && !Occupied(can, bitLength, k) ==>
      PayloadBit(after, k) == PayloadBit(before, k)
  }

  ghost predicate Occupied(can: Layout, bitLength: nat, k: int)
    requires can.byteOffset >= 0 && can.bitOffset >= 0
  {
    exists t :: 0 <= t < bitLength && Place(can, bitLength, t) == k
  }

  lemma PayloadBitSet(payload: bytes, k: nat, v: bool, j: nat)
    requires k < 8 * |payload| && j < 8 * |payload|
    ensures 0 <= WithBit(payload[k / 8], k % 8, v) < 256
    ensures PayloadBit(payload[k / 8 := WithBit(payload[k / 8], k % 8, v)], j)
            == if j == k then v else PayloadBit(payload, j)
  {
    hide Bit, WithBit;
    ByteIsBelowPow2(payload[k / 8]);
    WithBitBound(payload[k / 8], k % 8, v, 8);
    assert Pow2(8) == 256;
    BitOfWithBit(payload[k / 8], k % 8, v, j % 8);
    assert j == j / 8 * 8 + j % 8 && k == k / 8 * 8 + k % 8;
  }

  /** After the first `i` signal bits have been written: those are in place, the rest as before. */
  ghost predicate PartlyWritten(before: bytes, after: bytes, can: Layout, bitLength: nat, value: nat, i: int) {
    && InBounds(|before|, can, bitLength) && |after| == |before|
    && forall k :: 0 <= k < 8 * |before| ==>
         PayloadBit(after, k) == ExpectedBit(before, can, bitLength, value, i, k)
  }

  /** Payload bit `k` after that: the value's bit if its signal bit came among the first `i`. */
  ghost function ExpectedBit(before: bytes, can: Layout, bitLength: nat, value: nat, i: int, k: nat): bool
    requires InBounds(|before|, can, bitLength) && k < 8 * |before|
  {
    if exists t :: 0 <= t < bitLength && Place(can, bitLength, t) == k && Turn(can, bitLength, t) < i
    then var t :| 0 <= t < bitLength && Place(can, bitLength, t) == k && Turn(can, bitLength, t) < i; Bit(value, t)
    else PayloadBit(before, k)
  }

  /** When the bit-wise loop reaches bit `t` of the value. */
  ghost function Turn(can: Layout, bitLength: nat, t: nat): int {
    if can.bigEndian then bitLength - 1 - t else t
  }

  lemma ExpectedAtPlace(before: bytes, can: Layout, bitLength: nat, value: nat, i: int, t: nat)
    requires InBounds(|before|, can, bitLength) && t < bitLength && 0 <= Place(can, bitLength, t) < 8 * |before|
    ensures ExpectedBit(before, can, bitLength, value, i, Place(can, bitLength, t))
         == if Turn(can, bitLength, t) < i then Bit(value, t) else PayloadBit(before, Place(can, bitLength, t))
  {
    hide Place, Bit, PayloadBit;
    forall u: nat | u < bitLength && Place(can, bitLength, u) == Place(can, bitLength, t)
      ensures u == t
    {
      PlaceInjective(|before|, can, bitLength, u, t);
    }
  }

  /** All signal bits written is the whole write. */
  lemma AllWritten(before: bytes, after: bytes, can: Layout, bitLength: nat, value: nat)
    requires PartlyWritten(before, after, can, bitLength, value, bitLength)
    ensures Written(before, after, can, bitLength, value)
  {
    hide Place, Bit, PayloadBit, Low, Pow2, ExpectedBit;
    LowBound(value, bitLength);
    forall t | 0 <= t < bitLength
      ensures 0 <= Place(can, bitLength, t) < 8 * |before|
      ensures Bit(Low(value, bitLength), t) == PayloadBit(after, Place(can, bitLength, t))
    {
      PlaceInRange(|before|, can, bitLength, t);
      ExpectedAtPlace(before, can, bitLength, value, bitLength, t);
      BitOfLow(value, bitLength, t);
    }
    forall k | 0 <= k < 8 * |before| && !Occupied(can, bitLength, k)
      ensures PayloadBit(after, k) == PayloadBit(before, k)
    {
      UnoccupiedExpected(before, can, bitLength, value, k);
    }
  }

  lemma UnoccupiedExpected(before: bytes, can: Layout, bitLength: nat, value: nat, k: nat)
    requires InBounds(|before|, can, bitLength) && k < 8 * |before| && !Occupied(can, bitLength, k)
    ensures ExpectedBit(before, can, bitLength, value, bitLength, k) == PayloadBit(before, k)
  {
    hide Place, Bit, PayloadBit;
  }

  method WriteUnsignedBits(payload: array<byte>, can: Layout, bitLength: nat, value: nat)
    requires InBounds(payload.Length, can, bitLength)
    modifies payload
    ensures Written(old(payload[..]), payload[..], can, bitLength, value)
  {
    if ByteWise(can, bitLength) {
      WriteBytes(payload, can, bitLength, value);
    } else {
      WriteBits(payload, can, bitLength, value);
    }
  }

  lemma NothingWritten(before: bytes, can: Layout, bitLength: nat, value: nat)
    requires InBounds(|before|, can, bitLength)
    ensures PartlyWritten(before, before, can, bitLength, value, 0)
  {
    hide Place, Bit, PayloadBit;
  }

  /** One more turn of the bit-wise loop. */
  lemma WriteTurn(before: bytes, now: bytes, can: Layout, bitLength: nat, value: nat, t: nat, i: int, k: nat)
    requires PartlyWritten(before, now, can, bitLength, value, i)
    requires t < bitLength && Turn(can, bitLength, t) == i && Place(can, bitLength, t) == k < 8 * |now|
    ensures 0 <= WithBit(now[k / 8], k % 8, Bit(value, t)) < 256
    ensures PartlyWritten(before, now[k / 8 := WithBit(now[k / 8], k % 8, Bit(value, t))], can, bitLength, value, i + 1)
  {
    hide Place, Bit, PayloadBit, ExpectedBit, WithBit;
    PayloadBitSet(now, k, Bit(value, t), k);
    var after := now[k / 8 := WithBit(now[k / 8], k % 8, Bit(value, t))];
    forall j | 0 <= j < 8 * |before|
      ensures PayloadBit(after, j) == ExpectedBit(before, can, bitLength, value, i + 1, j)
    {
      PayloadBitSet(now, k, Bit(value, t), j);
      if j == k {
        ExpectedAtPlace(before, can, bitLength, value, i + 1, t);
      } else {
        SameExpectation(before, can, bitLength, value, t, i, j);
      }
    }
  }

  lemma SameExpectation(before: bytes, can: Layout, bitLength: nat, value: nat, t: nat, i: int, j: nat)
    requires InBounds(|before|, can, bitLength) && j < 8 * |before|
    requires t < bitLength && Turn(can, bitLength, t) == i && Place(can, bitLength, t) != j
    ensures ExpectedBit(before, can, bitLength, value, i + 1, j) == ExpectedBit(before, can, bitLength, value, i, j)
  {
    hide Place, Bit, PayloadBit, ExpectedBit;
    if u :| 0 <= u < bitLength && Place(can, bitLength, u) == j {
      ExpectedAtPlace(before, can, bitLength, value, i, u);
      ExpectedAtPlace(before, can, bitLength, value, i + 1, u);
    } else {
      NoPlaceExpected(before, can, bitLength, value, i, j);
      NoPlaceExpected(before, can, bitLength, value, i + 1, j);
    }
  }

  lemma NoPlaceExpected(before: bytes, can: Layout, bitLength: nat, value: nat, i: int, k: nat)
    requires InBounds(|before|, can, bitLength) && k < 8 * |before|
    requires forall t :: 0 <= t < bitLength ==> Place(can, bitLength, t) != k
    ensures ExpectedBit(before, can, bitLength, value, i, k) == PayloadBit(before, k)
  {
    hide Place, Bit, PayloadBit;
  }

  method WriteBits(payload: array<byte>, can: Layout, bitLength: nat, value: nat)
    requires InBounds(payload.Length, can, bitLength) && !ByteWise(can, bitLength)
    modifies payload
    ensures Written(old(payload[..]), payload[..], can, bitLength, value)
  {
    hide Bit, PartlyWritten, Written, WithBit;
    ghost var before := payload[..];
    NothingWritten(before, can, bitLength, value);
    for i := 0 to bitLength
      invariant PartlyWritten(before, payload[..], can, bitLength, value, i)
    {
      var sourceBit := if can.bigEndian then bitLength - 1 - i else i;
      var physical := PhysicalBitIndex(can, i);
      PlaceInRange(payload.Length, can, bitLength, sourceBit);
      ghost var now := payload[..];
      WriteTurn(before, now, can, bitLength, value, sourceBit, i, physical);
      payload[physical / 8] := WithBit(payload[physical / 8], physical % 8, Bit(value, sourceBit));
      assert payload[..] == now[physical / 8 := WithBit(now[physical / 8], physical % 8, Bit(value, sourceBit))];
    }
    AllWritten(before, payload[..], can, bitLength, value);
  }

  /** The byte the byte-wise loop stores in its turn `i`. */
  function ByteOf(value: nat, can: Layout, byteCount: nat, i: nat): byte
    requires i < byteCount
  {
    var shift := if can.bigEndian then 8 * (byteCount - 1 - i) else 8 * i;
    LowBound(ShiftRight(value, shift), 8);
    ByteIsBelowPow2(0);
    assert Pow2(8) == 256;
    Low(ShiftRight(value, shift), 8)
  }

  method WriteBytes(payload: array<byte>, can: Layout, bitLength: nat, value: nat)
    requires InBounds(payload.Length, can, bitLength) && ByteWise(can, bitLength)
    modifies payload
    ensures Written(old(payload[..]), payload[..], can, bitLength, value)
  {
    hide Written, ByteOf;
    var byteCount := bitLength / 8;
    ghost var before := payload[..];
    for i := 0 to byteCount
      invariant forall j :: 0 <= j < |before| ==>
                  payload[j] == if can.byteOffset <= j < can.byteOffset + i
                    then ByteOf(value, can, byteCount, j - can.byteOffset) else before[j]
    {
      payload[can.byteOffset + i] := ByteOf(value, can, byteCount, i);
    }
    BytesWritten(before, payload[..], can, bitLength, value);
  }

  lemma BytesWritten(before: bytes, after: bytes, can: Layout, bitLength: nat, value: nat)
    requires InBounds(|before|, can, bitLength) && ByteWise(can, bitLength) && |after| == |before|
    requires forall j :: 0 <= j < |before| ==>
               after[j] == if can.byteOffset <= j < can.byteOffset + bitLength / 8
                           then ByteOf(value, can, bitLength / 8, j - can.byteOffset) else before[j]
    ensures Written(before, after, can, bitLength, value)
  {
    hide Bit, Low, Pow2, ByteOf, Place;
    LowBound(value, bitLength);
    forall t | 0 <= t < bitLength
      ensures 0 <= Place(can, bitLength, t) < 8 * |before|
      ensures Bit(Low(value, bitLength), t) == PayloadBit(after, Place(can, bitLength, t))
    {
      PlaceInRange(|before|, can, bitLength, t);
      BitOfLow(value, bitLength, t);
      ByteHoldsBit(value, can, bitLength, t);
    }
    forall k | 0 <= k < 8 * |before| && !Occupied(can, bitLength, k)
      ensures PayloadBit(after, k) == PayloadBit(before, k)
    {
      if can.byteOffset <= k / 8 < can.byteOffset + bitLength / 8 {
        SpanOccupied(|before|, can, bitLength, k);
      }
    }
  }

  lemma ByteHoldsBit(value: nat, can: Layout, bitLength: nat, t: nat)
    requires can.byteOffset >= 0 && ByteWise(can, bitLength) && t < bitLength
    ensures var k := Place(can, bitLength, t);
            can.byteOffset <= k / 8 < can.byteOffset + bitLength / 8
            && Bit(ByteOf(value, can, bitLength / 8, k / 8 - can.byteOffset), k % 8) == Bit(value, t)
  {
    hide Bit, Low, ShiftRight, Pow2;
    var k := Place(can, bitLength, t);
    var i := k / 8 - can.byteOffset;
    var shift := if can.bigEndian then 8 * (bitLength / 8 - 1 - i) else 8 * i;
    assert shift == t / 8 * 8 && k % 8 == t % 8;
    BitOfLow(ShiftRight(value, shift), 8, t % 8);
    BitOfShift(value, shift, t % 8);
  }

  /** In the byte-wise path the signal fills its bytes. */
  lemma SpanOccupied(size: nat, can: Layout, bitLength: nat, k: nat)
    requires InBounds(size, can, bitLength) && ByteWise(can, bitLength)
    requires can.byteOffset <= k / 8 < can.byteOffset + bitLength / 8
    ensures Occupied(can, bitLength, k)
  {
    var i := k / 8 - can.byteOffset;
    var t := (if can.bigEndian then bitLength / 8 - 1 - i else i) * 8 + k % 8;
    assert t / 8 == (if can.bigEndian then bitLength / 8 - 1 - i else i) && t % 8 == k % 8;
    assert 0 <= t < bitLength;
    assert Place(can, bitLength, t) == k;
  }

  // ----- laws of packing -----

  /** Reading after writing gives the value modulo 2^bitLength. */
  lemma ReadAfterWrite(before: bytes, after: bytes, can: Layout, bitLength: nat, value: nat, extracted: nat)
    requires Written(before, after, can, bitLength, value) && Holds(after, can, bitLength, extracted)
    ensures extracted == value % Pow2(bitLength)
  {
    hide Holds, Low, Pow2;
    HoldsUnique(after, can, bitLength, extracted, Low(value, bitLength));
    LowBound(value, bitLength);
    LowIsMod(value, bitLength);
    var k: nat :| value == Low(value, bitLength) + k * Pow2(bitLength);
    DivisionUnique(value, Pow2(bitLength), k, Low(value, bitLength));
  }

  /** A signal whose places are all disjoint from the written ones reads the same before and after. */
  lemma OtherSignalsKept(before: bytes, after: bytes, can: Layout, bitLength: nat, value: nat,
                         other: Layout, otherLength: nat, x: nat)
    requires Written(before, after, can, bitLength, value) && Holds(before, other, otherLength, x)
    requires forall t :: 0 <= t < otherLength ==> !Occupied(can, bitLength, Place(other, otherLength, t))
    ensures Holds(after, other, otherLength, x)
  {
    hide Place, PayloadBit, Bit, Pow2, Low, Occupied;
  }

  /** For little-endian `lsb0` signals the byte-wise path puts every bit where the bit-wise path does. */
  lemma PathsAgree(payload: bytes, can: Layout, bitLength: nat, value: nat)
    requires !can.bigEndian && ByteWise(can, bitLength)
    ensures Holds(payload, can, bitLength, value) <==> Holds(payload, can.(bitOrder := Unnamed), bitLength, value)
  {
    hide Bit, Pow2, PayloadBit, Place, Holds;
    if InBounds(|payload|, can, bitLength) {
      var slow := can.(bitOrder := Unnamed);
      forall t | 0 <= t < bitLength
        ensures Place(can, bitLength, t) == Place(slow, bitLength, t)
      {
        SamePlace(can, bitLength, t);
      }
      SamePlacesSameHolds(payload, can, slow, bitLength, value);
    }
    HoldsOnlyInBounds(payload, can, bitLength, value);
    HoldsOnlyInBounds(payload, can.(bitOrder := Unnamed), bitLength, value);
  }

  /** And it writes what the bit-wise path writes. */
  lemma WritePathsAgree(before: bytes, after: bytes, can: Layout, bitLength: nat, value: nat)
    requires !can.bigEndian && ByteWise(can, bitLength)
    ensures Written(before, after, can, bitLength, value) <==>
            Written(before, after, can.(bitOrder := Unnamed), bitLength, value)
  {
    hide Bit, Pow2, PayloadBit, Place, Holds, Low;
    var slow := can.(bitOrder := Unnamed);
    var low := Low(value, bitLength);
    PathsAgree(after, can, bitLength, low);
    HoldsOnlyInBounds(after, can, bitLength, low);
    HoldsOnlyInBounds(after, slow, bitLength, low);
    if InBounds(|after|, can, bitLength) {
      forall k: int
        ensures Occupied(can, bitLength, k) <==> Occupied(slow, bitLength, k)
      {
        SameOccupied(can, bitLength, k);
      }
    }
  }

  lemma SameOccupied(can: Layout, bitLength: nat, k: int)
    requires can.byteOffset >= 0 && !can.bigEndian && ByteWise(can, bitLength)
    ensures Occupied(can, bitLength, k) <==> Occupied(can.(bitOrder := Unnamed), bitLength, k)
  {
    hide Place;
    var slow := can.(bitOrder := Unnamed);
    forall t | 0 <= t < bitLength
      ensures Place(can, bitLength, t) == Place(slow, bitLength, t)
    {
      SamePlace(can, bitLength, t);
    }
  }

  lemma HoldsOnlyInBounds(payload: bytes, can: Layout, bitLength: nat, value: nat)
    ensures Holds(payload, can, bitLength, value) ==> InBounds(|payload|, can, bitLength)
  {
    hide Bit, Pow2, PayloadBit, Place;
  }

  lemma SamePlace(can: Layout, bitLength: nat, t: nat)
    requires can.byteOffset >= 0 && !can.bigEndian && ByteWise(can, bitLength) && t < bitLength
    ensures Place(can, bitLength, t) == Place(can.(bitOrder := Unnamed), bitLength, t)
  {
  }

  lemma SamePlacesSameHolds(payload: bytes, can: Layout, slow: Layout, bitLength: nat, value: nat)
    requires InBounds(|payload|, can, bitLength) && InBounds(|payload|, slow, bitLength)
    requires forall t :: 0 <= t < bitLength ==> Place(can, bitLength, t) == Place(slow, bitLength, t)
    ensures Holds(payload, can, bitLength, value) <==> Holds(payload, slow, bitLength, value)
  {
    hide Bit, Pow2, PayloadBit, Place;
  }

  /** A payload with a single bit set. */
  lemma OneBit(size: nat, k: nat) returns (r: bytes)
    requires k < 8 * size
    ensures |r| == size && forall j :: 0 <= j < 8 * size ==> PayloadBit(r, j) == (j == k)
  {
    hide Bit, WithBit;
    var zeros: bytes := seq(size, _ => 0);
    PayloadBitSet(zeros, k, true, k);
    r := zeros[k / 8 := WithBit(zeros[k / 8], k % 8, true)];
    forall j | 0 <= j < 8 * size
      ensures PayloadBit(r, j) == (j == k)
    {
      PayloadBitSet(zeros, k, true, j);
      BitOfZero(j % 8);
    }
  }

  /** No big-endian signal is read alike by the two paths: they put the lowest bit in different places, so that of a
      payload with that bit alone they read different values. */
  lemma BigEndianPathsDiffer(size: nat, can: Layout, bitLength: nat) returns (payload: bytes)
    requires InBounds(size, can, bitLength) && can.bigEndian && ByteWise(can, bitLength)
    ensures |payload| == size
    ensures forall x, y :: Holds(payload, can, bitLength, x) && Holds(payload, can.(bitOrder := Unnamed), bitLength, y)
              ==> x != y
  {
    PlaceInRange(size, can, bitLength, 0);
    var k := Place(can, bitLength, 0);
    assert k != Place(can.(bitOrder := Unnamed), bitLength, 0);
    hide Place, Bit, PayloadBit, Pow2;
    payload := OneBit(size, k);
  }
}
