/** Decimal text of machine integers: what `std::to_string` writes and `std::stoi` reads. */
module Decimal {
  import opened Results

  predicate IsDigit(c: char) {
    '0' <= c <= '9'
  }

  function DigitChar(d: nat): (c: char)
    requires d < 10
    ensures IsDigit(c) && DigitValue(c) == d
  {
    '0' + d as char
  }

  function DigitValue(c: char): (d: nat)
    requires IsDigit(c)
    ensures d < 10
  {
    (c - '0') as nat
  }

  predicate AllDigits(s: string) {
    forall k :: 0 <= k < |s| ==> IsDigit(s[k])
  }

  function PrintNat(n: nat): (s: string)
    ensures s != [] && AllDigits(s)
  {
    if n < 10 then [DigitChar(n)] else PrintNat(n / 10) + [DigitChar(n % 10)]
  }

  function Print(n: int): (s: string)
    ensures s != []
  {
    if n < 0 then ['-'] + PrintNat(-n) else PrintNat(n)
  }

  /** The value of a string of digits. */
  function NatValue(s: string): nat
    requires AllDigits(s)
  {
    if s == [] then 0 else 10 * NatValue(s[..|s| - 1]) + DigitValue(s[|s| - 1])
  }

  /** The length of the run of digits at the front. */
  function DigitRun(s: string): (n: nat)
    ensures n <= |s| && AllDigits(s[..n])
    ensures n < |s| ==> !IsDigit(s[n])
  {
    if s != [] && IsDigit(s[0]) then
      var n := DigitRun(s[1..]);
      assert s[..n + 1] == [s[0]] + s[1..][..n];
      n + 1
    else 0
  }

  predicate IsSpace(c: char) {
    c == ' ' || ('\t' <= c <= '\r')
  }

  function SkipSpace(s: string): (r: string)
    ensures |r| <= |s| && r == s[|s| - |r|..]
    ensures r != [] ==> !IsSpace(r[0])
    ensures s != [] && !IsSpace(s[0]) ==> r == s
  {
    if s != [] && IsSpace(s[0]) then SkipSpace(s[1..]) else s
  }

  const INT_MIN := -0x8000_0000
  const INT_MAX := 0x7FFF_FFFF

  predicate IsInt32(n: int) {
    INT_MIN <= n <= INT_MAX
  }

  /** `std::stoi`: white space, a sign, digits; anything after them is ignored. */
  function Stoi(s: string): (r: Result<int>) {
    var text := SkipSpace(s);
    var signed := text != [] && (text[0] == '-' || text[0] == '+');
    var body := if signed then text[1..] else text;
    var n := DigitRun(body);
    if n == 0 then Failed
    else
      var magnitude: int := NatValue(body[..n]);
      var value := if signed && text[0] == '-' then -magnitude else magnitude;
      if IsInt32(value) then Ok(value) else Failed
  }

  lemma {:induction false} PrintedNatValue(n: nat)
    ensures NatValue(PrintNat(n)) == n
  {
    if n >= 10 {
      PrintedNatValue(n / 10);
      assert PrintNat(n)[..|PrintNat(n)| - 1] == PrintNat(n / 10);
    } else {
      assert [DigitChar(n)][..0] == [];
    }
  }

  lemma {:induction false} DigitRunOfDigits(s: string)
    requires AllDigits(s)
    ensures DigitRun(s) == |s|
  {
    if s != [] {
      DigitRunOfDigits(s[1..]);
    }
  }

  /** Reading back what was written, for every machine integer. */
  lemma StoiPrint(n: int)
    requires IsInt32(n)
    ensures Stoi(Print(n)) == Ok(n)
  {
    hide NatValue, PrintNat, DigitRun, SkipSpace;
    var digits := PrintNat(if n < 0 then -n else n);
    PrintedNatValue(if n < 0 then -n else n);
    DigitRunOfDigits(digits);
    assert digits[..|digits|] == digits && IsDigit(digits[0]);
    if n < 0 {
      assert Print(n)[1..] == digits;
    }
  }
}
