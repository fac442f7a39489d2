/** Bytes written as hexadecimal text, and read back. */
module Hexadecimal {
  import opened Results
  import opened Bytes
  import opened Sequences

  function HexDigit(v: nat): char
    requires v < 16
  {
    if v < 10 then '0' + v as char else 'A' + (v - 10) as char
  }

  function HexValue(c: char): (v: int)
    ensures -1 <= v < 16
  {
    if '0' <= c <= '9' then (c - '0') as int
    else if 'a' <= c <= 'f' then 10 + (c - 'a') as int
    else if 'A' <= c <= 'F' then 10 + (c - 'A') as int
    else -1
  }

  function Hex(value: bytes): string {
    if value == [] then "" else [HexDigit(value[0] / 16), HexDigit(value[0] % 16)] + Hex(value[1..])
  }

  function Unhex(text: string): Result<bytes> {
    if text == "" then Ok([])
    else if |text| == 1 then Failed
    else
      var high, low, rest := HexValue(text[0]), HexValue(text[1]), Unhex(text[2..]);
      if high < 0 || low < 0 || rest.Failed? then Failed
      else
        assert high < 16 && low < 16;
        Ok([high * 16 + low] + rest.value)
  }

  method HexEncode(value: bytes) returns (out: string)
    ensures out == Hex(value)
  {
    hide Hex, HexDigit;
    out := "";
    NoHex();
    assert value[..0] == [];
    for i := 0 to |value|
      invariant out == Hex(value[..i])
    {
      HexStep(value, i);
      out := out + [HexDigit(value[i] / 16)];
      out := out + [HexDigit(value[i] % 16)];
    }
    assert value[..|value|] == value;
  }

  lemma NoHex()
    ensures Hex([]) == ""
  {
  }

  lemma HexStep(value: bytes, i: nat)
    requires i < |value|
    ensures Hex(value[..i + 1]) == Hex(value[..i]) + [HexDigit(value[i] / 16)] + [HexDigit(value[i] % 16)]
  {
    hide Hex;
    assert value[..i + 1] == value[..i] + [value[i]];
    HexTwo(value[..i], [value[i]]);
    HexOne(value[i]);
  }

  lemma HexOne(b: byte)
    ensures Hex([b]) == [HexDigit(b / 16), HexDigit(b % 16)]
  {
    assert [b][1..] == [];
  }

  lemma HexCons(x: byte, s: bytes)
    ensures Hex([x] + s) == [HexDigit(x / 16), HexDigit(x % 16)] + Hex(s)
  {
    assert ([x] + s)[1..] == s;
  }

  lemma {:induction false} HexTwo(a: bytes, b: bytes)
    ensures Hex(a + b) == Hex(a) + Hex(b)
  {
    hide Hex, HexDigit;
    if a == [] {
      assert a + b == b;
      NoHex();
    } else {
      var x, rest := a[0], a[1..];
      assert a == [x] + rest && a + b == [x] + (rest + b);
      HexCons(x, rest);
      HexCons(x, rest + b);
      HexTwo(rest, b);
      Associate([HexDigit(x / 16), HexDigit(x % 16)], Hex(rest), Hex(b));
    }
  }

  method HexDecode(value: string) returns (r: Result<bytes>)
    ensures r == Unhex(value)
  {
    hide Unhex, HexValue, Prefixed;
    if |value| % 2 != 0 {
      OddFails(value);
      return Failed;
    }
    var decoded: bytes := [];
    var i := 0;
    assert value[0..] == value;
    PrefixedNothing(Unhex(value));
    while i < |value|
      invariant 0 <= i <= |value| && i % 2 == 0
      invariant Unhex(value) == Prefixed(decoded, Unhex(value[i..]))
    {
      var high, low := HexValue(value[i]), HexValue(value[i + 1]);
      UnhexStep(value, i, decoded);
      if high < 0 || low < 0 {
        return Failed;
      }
      assert high < 16 && low < 16;
      decoded := decoded + [high * 16 + low];
      i := i + 2;
    }
    assert value[i..] == "";
    NothingLeft(decoded);
    r := Ok(decoded);
  }

  lemma NothingLeft(decoded: bytes)
    ensures Prefixed(decoded, Unhex("")) == Ok(decoded)
  {
    assert decoded + [] == decoded;
  }

  lemma PrefixedNothing(r: Result<bytes>)
    ensures Prefixed([], r) == r
  {
    assert r.Ok? ==> [] + r.value == r.value;
  }

  lemma UnhexStep(value: string, i: nat, decoded: bytes)
    requires i + 1 < |value|
    ensures var high, low := HexValue(value[i]), HexValue(value[i + 1]);
            Prefixed(decoded, Unhex(value[i..]))
            == if high < 0 || low < 0 then Failed else Prefixed(decoded + [high * 16 + low], Unhex(value[i + 2..]))
  {
    var high, low, rest := HexValue(value[i]), HexValue(value[i + 1]), Unhex(value[i + 2..]);
    assert value[i..][2..] == value[i + 2..];
    if high >= 0 && low >= 0 && rest.Ok? {
      assert decoded + ([high * 16 + low] + rest.value) == decoded + [high * 16 + low] + rest.value;
    }
  }

  function Prefixed(done: bytes, rest: Result<bytes>): Result<bytes> {
    if rest.Failed? then Failed else Ok(done + rest.value)
  }

  lemma {:induction false} OddFails(text: string)
    requires |text| % 2 != 0
    ensures Unhex(text).Failed?
    decreases |text|
  {
    if |text| > 1 {
      OddFails(text[2..]);
    }
  }

  /** Decoding inverts encoding, and the encoded text has neither tabs nor newlines. */
  lemma {:induction false} UnhexHex(value: bytes)
    ensures Unhex(Hex(value)) == Ok(value)
    ensures '\t' !in Hex(value) && '\n' !in Hex(value)
  {
    if value != [] {
      UnhexHex(value[1..]);
      var digits := [HexDigit(value[0] / 16), HexDigit(value[0] % 16)];
      HexDigitValue(value[0] / 16);
      HexDigitValue(value[0] % 16);
      assert Hex(value)[2..] == Hex(value[1..]);
      assert [value[0]] + value[1..] == value;
      assert value[0] / 16 * 16 + value[0] % 16 == value[0];
    }
  }

  lemma HexDigitValue(v: nat)
    requires v < 16
    ensures HexValue(HexDigit(v)) == v && HexDigit(v) != '\t' && HexDigit(v) != '\n'
  {
  }
}
