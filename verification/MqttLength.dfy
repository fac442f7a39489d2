/** The variable-length integers of MQTT (section 2.2.3 of MQTT 3.1.1, section 1.5.5 of MQTT 5.0). */
module MqttLength {
  import opened Results
  import opened Integers
  import opened Bytes

  /** The largest length that four bytes can carry. */
  const MAX_REMAINING_LENGTH := 268435455

  function Varint(length: nat): (r: bytes)
    ensures r != [] && r[0] % 128 == length % 128 && (r[0] < 128 <==> length < 128)
  {
    if length < 128 then [length] else [length % 128 + 128] + Varint(length / 128)
  }

  method AppendRemainingLength(bytes0: bytes, length: nat) returns (out: bytes)
    ensures out == bytes0 + Varint(length)
  {
    out := bytes0;
    var remaining := length;
    var more := true;
    while more
      invariant more ==> out + Varint(remaining) == bytes0 + Varint(length)
      invariant !more ==> out == bytes0 + Varint(length)
      decreases more, remaining
    {
      var encoded := remaining % 128;
      ghost var rest := Varint(remaining);
      remaining := remaining / 128;
      more := remaining > 0;
      if more {
        encoded := encoded + 128;
        assert rest == [encoded] + Varint(remaining);
      }
      out := out + [encoded];
    }
  }

  /** A decoded length and the position behind it. */
  datatype Length = Length(value: nat, next: nat)

  const LAST_MULTIPLIER := 128 * 128 * 128

  function LengthFrom(packet: bytes, offset: nat, multiplier: nat, value: nat): Result<Length>
    decreases |packet| - offset
  {
    if offset >= |packet| then Failed
    else if multiplier > LAST_MULTIPLIER then Failed
    else
      var sum := value + packet[offset] % 128 * multiplier;
      if packet[offset] >= 128 then LengthFrom(packet, offset + 1, multiplier * 128, sum)
      else Ok(Length(sum, offset + 1))
  }

  method DecodeRemainingLength(packet: bytes) returns (r: Result<Length>)
    ensures r == LengthFrom(packet, 1, 1, 0)
  {
    var multiplier: nat, value: nat, offset: nat := 1, 0, 1;
    var more := true;
    while more
      invariant more ==> LengthFrom(packet, 1, 1, 0) == LengthFrom(packet, offset, multiplier, value)
      invariant !more ==> LengthFrom(packet, 1, 1, 0) == Ok(Length(value, offset))
      decreases more, |packet| - offset
    {
      if offset >= |packet| {
        return Failed;
      }
      var encoded := packet[offset];
      offset := offset + 1;
      value := value + encoded % 128 * multiplier;
      if multiplier > LAST_MULTIPLIER {
        return Failed;
      }
      multiplier := multiplier * 128;
      more := encoded >= 128;
    }
    r := Ok(Length(value, offset));
  }

  /** Decoding an encoded length, in the middle of a packet and after `j` bytes of it have been read. */
  lemma {:induction false} DecodeVarint(before: bytes, length: nat, after: bytes, j: nat, value: nat)
    requires j < 4 && length < Power(128, 4 - j)
    ensures LengthFrom(before + Varint(length) + after, |before|, Power(128, j), value)
         == Ok(Length(value + length * Power(128, j), |before| + |Varint(length)|))
    decreases length
  {
    hide Power, Varint;
    var packet := before + Varint(length) + after;
    MultiplierInRange(j);
    VarintUnfolds(length);
    if length >= 128 {
      var encoded := length % 128 + 128;
      assert packet == (before + [encoded]) + Varint(length / 128) + after;
      assert packet[|before|] == encoded && encoded % 128 == length % 128;
      PowerStep(128, 0);
      if j == 3 {
        assert false;
      } else {
        PowerStep(128, 3 - j);
        PowerStep(128, j);
        var sum := value + length % 128 * Power(128, j);
        DecodeVarint(before + [encoded], length / 128, after, j + 1, sum);
        Digits(length, Power(128, j));
      }
    } else {
      assert packet[|before|] == length;
    }
  }

  lemma VarintUnfolds(length: nat)
    ensures Varint(length) == if length < 128 then [length] else [length % 128 + 128] + Varint(length / 128)
  {
  }

  lemma Digits(length: nat, p: nat)
    ensures length % 128 * p + length / 128 * (128 * p) == length * p
  {
    var q, r := length / 128, length % 128;
    assert length == 128 * q + r;
    assert (128 * q + r) * p == 128 * q * p + r * p;
    assert q * (128 * p) == 128 * q * p;
  }

  lemma MultiplierInRange(j: nat)
    requires j < 4
    ensures Power(128, j) <= LAST_MULTIPLIER
  {
    assert Power(128, 1) == 128;
    assert Power(128, 2) == 128 * 128;
    assert Power(128, 3) == 128 * 128 * 128;
  }

  /** Every length up to the maximum decodes to itself with the exact header size, and no larger one is
      accepted. */
  lemma LengthRoundTrip(first: byte, length: nat, after: bytes)
    ensures LengthFrom([first] + Varint(length) + after, 1, 1, 0)
         == if length <= MAX_REMAINING_LENGTH then Ok(Length(length, 1 + |Varint(length)|)) else Failed
  {
    hide Varint, LengthFrom;
    MaxIsPow();
    if length <= MAX_REMAINING_LENGTH {
      DecodeVarint([first], length, after, 0, 0);
    } else {
      var packet := [first] + Varint(length) + after;
      LongVarint(length, 4);
      FifthByteRejected(packet);
    }
  }

  lemma MaxIsPow()
    ensures Power(128, 4) == MAX_REMAINING_LENGTH + 1 && Power(128, 0) == 1
  {
    assert Power(128, 2) == 128 * 128;
    assert Power(128, 3) == 128 * 128 * 128;
  }

  /** A length of 128^n or more starts with `n` bytes that announce another. */
  lemma {:induction false} LongVarint(length: nat, n: nat)
    requires length >= Power(128, n)
    ensures |Varint(length)| > n && forall i :: 0 <= i < n ==> Varint(length)[i] >= 128
    decreases n
  {
    if n > 0 {
      LongVarint(length / 128, n - 1);
    }
  }

  /** Four bytes that announce another are refused, whatever follows. */
  lemma FifthByteRejected(packet: bytes)
    requires |packet| >= 5 && forall i :: 1 <= i < 5 ==> packet[i] >= 128
    ensures LengthFrom(packet, 1, 1, 0).Failed?
  {
    var a: nat, b: nat, c: nat, d: nat := packet[1] % 128, packet[2] % 128, packet[3] % 128, packet[4] % 128;
    assert LengthFrom(packet, 1, 1, 0) == LengthFrom(packet, 2, 128, a);
    assert LengthFrom(packet, 2, 128, a) == LengthFrom(packet, 3, 128 * 128, a + b * 128);
    var sum := a + b * 128 + c * (128 * 128);
    assert LengthFrom(packet, 3, 128 * 128, a + b * 128) == LengthFrom(packet, 4, 128 * 128 * 128, sum);
    assert LengthFrom(packet, 4, 128 * 128 * 128, sum)
      == LengthFrom(packet, 5, 128 * 128 * 128 * 128, sum + d * (128 * 128 * 128));
  }
}
