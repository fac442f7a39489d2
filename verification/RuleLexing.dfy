/** How the parser's scanner reads the pieces of a printed expression. */
module RuleLexing {
  import opened Results
  import opened Decimal
  import opened RuleValues
  import opened RuleParser
  import opened RuleSyntax

  /** The level of the operators that begin with a character. */
  function HeadLevel(c: char): Option<nat> {
    if c == '|' then Some(0)
    else if c == '&' then Some(1)
    else if c == '=' || c == '!' then Some(2)
    else if c == '<' || c == '>' then Some(3)
    else if c == '+' || c == '-' then Some(4)
    else if c == '*' || c == '/' || c == '%' then Some(5)
    else None
  }

  /** After this text no operator of level `p` or tighter can follow, and no name or number goes on. */
  predicate Stops(p: nat, r: string) {
    r == [] || r[0] == ')' || r[0] == ',' || (HeadLevel(r[0]).Some? && HeadLevel(r[0]).value < p)
  }

  /** The characters a printed operand can begin with. */
  predicate OperandStart(c: char) {
    c == '(' || c == '!' || c == '-' || c == '.' || IsDigit(c) || IsIdentStart(c)
  }

  predicate Operand(t: string) {
    t != [] && OperandStart(t[0])
  }

  lemma {:induction false} StopsSkip(p: nat, r: string)
    requires Stops(p, r)
    ensures SkipSpace(r) == r
  {
    hide SkipSpace;
  }

  lemma {:induction false} OperandSkip(t: string)
    requires Operand(t)
    ensures SkipSpace(t) == t
  {
    hide SkipSpace;
  }

  lemma TokenHead(op: Op)
    ensures HeadLevel(Token(op)[0]) == Some(LevelOf(op))
  {
  }

  lemma OperatorsOfLevel(level: nat, k: nat)
    requires level < LEVELS && k < |Operators(level)|
    ensures LevelOf(Operators(level)[k]) == level
  {
  }

  lemma {:induction false} MatchesHead(s: string, token: string)
    requires token != [] && SkipSpace(s) == s && Match(s, token).Some?
    ensures s != [] && s[0] == token[0]
  {
    assert s[..|token|][0] == token[0];
  }

  lemma {:induction false} NoneMatches(p: nat, r: string, ops: seq<Op>)
    requires Stops(p, r) && forall k :: 0 <= k < |ops| ==> LevelOf(ops[k]) >= p
    ensures MatchOperator(r, ops) == None
  {
    StopsSkip(p, r);
    if ops != [] {
      TokenHead(ops[0]);
      if Match(r, Token(ops[0])).Some? {
        MatchesHead(r, Token(ops[0]));
      }
      NoneMatches(p, r, ops[1..]);
    }
  }

  lemma {:induction false} MatchToken(token: string, t: string)
    requires token != [] && !IsSpace(token[0])
    ensures Match(token + t, token) == Some(t)
  {
    assert (token + t)[..|token|] == token && (token + t)[|token|..] == t;
  }

  /** No other token of the level is taken for the operator that stands there. */
  lemma {:induction false} OtherToken(op: Op, other: Op, t: string, k: nat, j: nat)
    requires Operand(t) && j < k < |Operators(LevelOf(op))|
    requires Operators(LevelOf(op))[k] == op && Operators(LevelOf(op))[j] == other
    ensures Match(Token(op) + t, Token(other)) == None
  {
    var s, token := Token(op) + t, Token(other);
    assert SkipSpace(s) == s;
    if |token| <= |s| {
      if s[0] != token[0] {
        DiffersAt(s, token, 0);
      } else {
        assert s[1] == t[0];
        DiffersAt(s, token, 1);
      }
    }
  }

  lemma DiffersAt(s: string, token: string, i: nat)
    requires i < |token| <= |s| && s[i] != token[i]
    ensures s[..|token|] != token
  {
    assert s[..|token|][i] == s[i];
  }

  lemma {:induction false} FindsOperator(op: Op, t: string, k: nat, j: nat)
    requires Operand(t) && j <= k < |Operators(LevelOf(op))| && Operators(LevelOf(op))[k] == op
    ensures MatchOperator(Token(op) + t, Operators(LevelOf(op))[j..]) == Some((op, t))
    decreases k - j
  {
    hide Match, Token, Operators;
    var ops := Operators(LevelOf(op));
    assert ops[j..][1..] == ops[j + 1..];
    if j == k {
      TokenIsPrintable(op);
      MatchToken(Token(op), t);
    } else {
      OtherToken(op, ops[j], t, k, j);
      FindsOperator(op, t, k, j + 1);
    }
  }

  lemma TokenIsPrintable(op: Op)
    ensures !IsSpace(Token(op)[0])
  {
  }

  lemma OperatorHasPlace(op: Op) returns (k: nat)
    ensures k < |Operators(LevelOf(op))| && Operators(LevelOf(op))[k] == op
  {
    k := match op
      case Or => 0 case And => 0 case Eq => 0 case Ne => 1 case Ge => 0 case Le => 1 case Gt => 2 case Lt => 3
      case Add => 0 case Sub => 1 case Mul => 0 case Div => 1 case Mod => 2;
  }

  /** A printed operator before an operand is recognised. */
  lemma {:induction false} MatchesOperator(op: Op, t: string)
    requires Operand(t)
    ensures MatchOperator(Token(op) + t, Operators(LevelOf(op))) == Some((op, t))
  {
    hide MatchOperator, Operators;
    var k := OperatorHasPlace(op);
    FindsOperator(op, t, k, 0);
    assert Operators(LevelOf(op))[0..] == Operators(LevelOf(op));
  }

  // ----- names and numbers -----

  lemma {:induction false} IdentRunOf(name: string, r: string)
    requires (forall k :: 0 <= k < |name| ==> IsIdentPart(name[k])) && (r != [] ==> !IsIdentPart(r[0]))
    ensures IdentRun(name + r) == |name|
  {
    if name == [] {
      assert name + r == r;
    } else {
      IdentRunOf(name[1..], r);
      assert (name + r)[1..] == name[1..] + r;
    }
  }

  lemma {:induction false} DigitRunOf(digits: string, r: string)
    requires AllDigits(digits) && (r != [] ==> !IsDigit(r[0]))
    ensures DigitRun(digits + r) == |digits|
  {
    if digits == [] {
      assert digits + r == r;
    } else {
      DigitRunOf(digits[1..], r);
      assert (digits + r)[1..] == digits[1..] + r;
    }
  }

  lemma {:induction false} NumberRunOf(s: string, r: string)
    requires (forall k :: 0 <= k < |s| ==> IsDigit(s[k]) || s[k] == '.') && (r != [] ==> !IsDigit(r[0]) && r[0] != '.')
    ensures NumberRun(s + r) == |s|
  {
    if s == [] {
      assert s + r == r;
    } else {
      NumberRunOf(s[1..], r);
      assert (s + r)[1..] == s[1..] + r;
    }
  }

  /** The part of a numeral before its exponent. */
  function Mantissa(n: Numeral): string {
    n.whole + (if n.fraction.Some? then "." + n.fraction.value else "")
  }

  function ExponentText(n: Numeral): string {
    if n.exponent.Some? then "e" + n.exponent.value.0 + n.exponent.value.1 else ""
  }

  /** Text that can follow a number: no digit, no point, no letter. */
  predicate AfterNumber(r: string) {
    r == [] || (!IsDigit(r[0]) && r[0] != '.' && !IsAlpha(r[0]))
  }

  lemma {:induction false} ExponentReads(n: Numeral, r: string)
    requires IsNumeral(n) && AfterNumber(r) && n.exponent.Some?
    ensures var s := ExponentText(n) + r;
            var k := 1 + |n.exponent.value.0|;
            && s[0] == 'e' && s[k..] == n.exponent.value.1 + r
            && (1 < |s| && (s[1] == '+' || s[1] == '-') <==> n.exponent.value.0 != "")
            && (n.exponent.value.0 != "" ==> s[1] == n.exponent.value.0[0])
            && DigitRun(s[k..]) == |n.exponent.value.1|
  {
    var (sign, digits) := n.exponent.value;
    var s := ExponentText(n) + r;
    assert s == "e" + sign + digits + r;
    DigitRunOf(digits, r);
    if sign == "" {
      assert s[1] == digits[0];
      assert s[1..] == digits + r;
    } else {
      assert s[1] == sign[0];
      assert s[2..] == digits + r;
    }
  }

  lemma {:induction false} ExponentValueOf(n: Numeral, r: string)
    requires IsNumeral(n) && AfterNumber(r)
    ensures ExponentValue(ExponentText(n) + r)
         == if n.exponent.None? then 0
            else if n.exponent.value.0 == "-" then -(NatValue(n.exponent.value.1) as int)
            else NatValue(n.exponent.value.1)
  {
    hide DigitRun, NatValue;
    if n.exponent.Some? {
      ExponentReads(n, r);
      var digits := n.exponent.value.1;
      assert (digits + r)[..|digits|] == digits;
    } else {
      assert ExponentText(n) + r == r;
    }
  }

  lemma {:induction false} ExponentEndOf(n: Numeral, r: string)
    requires IsNumeral(n) && AfterNumber(r)
    ensures ExponentEnd(ExponentText(n) + r) == |ExponentText(n)|
  {
    hide DigitRun;
    if n.exponent.Some? {
      ExponentReads(n, r);
    } else {
      assert ExponentText(n) + r == r;
    }
  }

  lemma {:induction false} MantissaRun(n: Numeral, x: string)
    requires IsNumeral(n) && (x != [] ==> !IsDigit(x[0]) && x[0] != '.')
    ensures NumberRun(Mantissa(n) + x) == |Mantissa(n)| > 0
  {
    hide NumberRun;
    NumberRunOf(Mantissa(n), x);
  }

  lemma ExponentTextHead(n: Numeral, r: string)
    requires IsNumeral(n) && AfterNumber(r)
    ensures var x := ExponentText(n) + r; x != [] ==> !IsDigit(x[0]) && x[0] != '.'
  {
  }

  /** The scanner consumes exactly the numeral. */
  lemma {:induction false} NumberEndOf(n: Numeral, r: string)
    requires IsNumeral(n) && AfterNumber(r)
    ensures NumberEnd(PrintNumeral(n) + r) == |PrintNumeral(n)|
  {
    hide NumberRun, ExponentEnd, IsNumeral, AfterNumber;
    var m, x := Mantissa(n), ExponentText(n);
    assert PrintNumeral(n) == m + x;
    assert PrintNumeral(n) + r == m + (x + r);
    ExponentTextHead(n, r);
    MantissaRun(n, x + r);
    assert (m + (x + r))[|m|..] == x + r;
    ExponentEndOf(n, r);
  }

  lemma {:induction false} FractionOf(n: Numeral, x: string)
    requires IsNumeral(n) && (x != [] ==> !IsDigit(x[0]) && x[0] != '.')
    ensures var after := (if n.fraction.Some? then "." + n.fraction.value else "") + x;
            && FractionDigits(after) == (if n.fraction.Some? then n.fraction.value else [])
            && (after != [] && after[0] == '.' <==> n.fraction.Some?)
            && (after != [] ==> !IsDigit(after[0]))
            && after[if n.fraction.Some? then 1 + |n.fraction.value| else 0..] == x
  {
    hide DigitRun;
    if n.fraction.Some? {
      var f := n.fraction.value;
      var after := "." + f + x;
      assert after[1..] == f + x;
      DigitRunOf(f, x);
      assert (f + x)[..|f|] == f;
    } else {
      assert "" + x == x;
    }
  }

  lemma {:induction false} DecimalText(whole: string, after: string)
    requires AllDigits(whole) && (after != [] ==> !IsDigit(after[0])) && whole + FractionDigits(after) != []
    ensures var f := FractionDigits(after);
            var end := if after != [] && after[0] == '.' then 1 + |f| else 0;
            DecimalNumber(whole + after) == Scale(NatValue(whole + f) as real, ExponentValue(after[end..]) - |f|)
  {
    hide DigitRun, NatValue, ExponentValue, Scale, FractionDigits;
    DigitRunOf(whole, after);
    assert (whole + after)[..|whole|] == whole && (whole + after)[|whole|..] == after;
  }

  function FractionText(n: Numeral): string {
    if n.fraction.Some? then "." + n.fraction.value else ""
  }

  lemma PrintedParts(n: Numeral, r: string)
    ensures PrintNumeral(n) + r == n.whole + (FractionText(n) + (ExponentText(n) + r))
  {
  }

  /** A numeral is not taken for a hexadecimal one. */
  lemma {:induction false} NumeralIsDecimal(n: Numeral, r: string)
    requires IsNumeral(n) && AfterNumber(r)
    ensures !IsHex(PrintNumeral(n) + r)
  {
    hide IsHexDigit;
    var text := PrintNumeral(n);
    if |text| == 1 {
      assert r != [] ==> (text + r)[1] == r[0];
    } else {
      assert (text + r)[1] == text[1];
      SecondCharacter(n);
    }
  }

  lemma SecondCharacter(n: Numeral)
    requires IsNumeral(n) && |PrintNumeral(n)| > 1
    ensures PrintNumeral(n)[0] == '0' ==> PrintNumeral(n)[1] != 'x' && PrintNumeral(n)[1] != 'X'
  {
    var text := PrintNumeral(n);
    if |n.whole| > 1 {
      assert text[1] == n.whole[1];
    } else if |n.whole| == 1 && n.fraction.Some? {
      assert text[1] == '.';
    } else if |n.whole| == 1 {
      assert text[1] == 'e';
    } else {
      assert text[0] == '.';
    }
  }

  /** And `strtod` reads its value, whatever follows. */
  lemma {:induction false} StrtodOf(n: Numeral, r: string)
    requires IsNumeral(n) && AfterNumber(r)
    ensures Strtod(PrintNumeral(n) + r) == NumeralValue(n)
  {
    hide DigitRun, NatValue, ExponentValue, Scale, FractionDigits, AfterNumber, DecimalNumber, HexNumber, IsHex,
      PrintNumeral, ExponentText;
    NumeralIsDecimal(n, r);
    var x := ExponentText(n) + r;
    ExponentTextHead(n, r);
    FractionOf(n, x);
    PrintedParts(n, r);
    DecimalText(n.whole, FractionText(n) + x);
    ExponentValueOf(n, r);
  }
}
