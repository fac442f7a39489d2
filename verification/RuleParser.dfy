/** The rule-expression parser: a recursive descent over the text that evaluates as it goes. The six
    binary levels of the grammar share one shape and are numbered from 0 (`||`) to 5 (`*`, `/`, `%`). */
module RuleParser {
  import opened Results
  import opened Decimal
  import opened Bits
  import opened Hexadecimal
  import opened RuleValues

  /** A value and the text that is left, or a failure. */
  datatype Parse = Parsed(value: Value, rest: string) | Error

  datatype ParseList = ParsedList(values: seq<Value>, rest: string) | ListError

  const LEVELS := 6

  // ----- lexical matters -----

  predicate IsAlpha(c: char) {
    'a' <= c <= 'z' || 'A' <= c <= 'Z'
  }

  predicate IsIdentStart(c: char) {
    IsAlpha(c) || c == '_'
  }

  predicate IsIdentPart(c: char) {
    IsIdentStart(c) || IsDigit(c)
  }

  /** After white space, the token is matched or not. */
  function Match(text: string, token: string): (r: Option<string>)
    ensures r.Some? ==> |r.value| + |token| <= |text|
  {
    var s := SkipSpace(text);
    if |token| <= |s| && s[..|token|] == token then Some(s[|token|..]) else None
  }

  function IdentRun(s: string): (n: nat)
    ensures n <= |s| && (forall k :: 0 <= k < n ==> IsIdentPart(s[k])) && (n < |s| ==> !IsIdentPart(s[n]))
  {
    if s != [] && IsIdentPart(s[0]) then 1 + IdentRun(s[1..]) else 0
  }

  /** The run of digits and points at the front. */
  function NumberRun(s: string): (n: nat)
    ensures n <= |s|
    ensures s != [] && (IsDigit(s[0]) || s[0] == '.') ==> n > 0
  {
    if s != [] && (IsDigit(s[0]) || s[0] == '.') then 1 + NumberRun(s[1..]) else 0
  }

  /** What the scanner consumes as a number: digits and points, then an exponent. */
  function NumberEnd(s: string): (n: nat)
    ensures NumberRun(s) <= n <= |s|
  {
    NumberRun(s) + ExponentEnd(s[NumberRun(s)..])
  }

  function ExponentEnd(s: string): (n: nat)
    ensures n <= |s|
  {
    if s == [] || (s[0] != 'e' && s[0] != 'E') then 0
    else
      var k := if 1 < |s| && (s[1] == '+' || s[1] == '-') then 2 else 1;
      k + DigitRun(s[k..])
  }

  function TenTo(n: nat): (r: real)
    ensures r > 0.0
  {
    if n == 0 then 1.0 else 10.0 * TenTo(n - 1)
  }

  function Scale(x: real, exponent: int): real {
    if exponent >= 0 then x * TenTo(exponent) else x / TenTo(-exponent)
  }

  /** The digits after a point at the front. */
  function FractionDigits(s: string): (f: string)
    ensures AllDigits(f) && |f| <= |s| && (s != [] && s[0] == '.' ==> |f| < |s|)
  {
    if s != [] && s[0] == '.' then s[1..][..DigitRun(s[1..])] else []
  }

  /** `strtod`: the longest numeral at the front, in exact arithmetic. */
  function Strtod(s: string): real {
    if IsHex(s) then HexNumber(s[2..]) else DecimalNumber(s)
  }

  predicate IsHexDigit(c: char) {
    HexValue(c) >= 0
  }

  /** A hexadecimal numeral: after `0x` a digit, or a point and a digit. */
  predicate IsHex(s: string) {
    && |s| > 2 && s[0] == '0' && (s[1] == 'x' || s[1] == 'X')
    && (IsHexDigit(s[2]) || (s[2] == '.' && |s| > 3 && IsHexDigit(s[3])))
  }

  function HexRun(s: string): (n: nat)
    ensures n <= |s| && forall k :: 0 <= k < n ==> IsHexDigit(s[k])
  {
    if s != [] && IsHexDigit(s[0]) then 1 + HexRun(s[1..]) else 0
  }

  function HexNat(s: string): int {
    if s == [] then 0 else 16 * HexNat(s[..|s| - 1]) + HexValue(s[|s| - 1])
  }

  /** The value behind `0x`: digits, perhaps a point with more, perhaps a binary exponent. */
  function HexNumber(s: string): real {
    var whole := HexRun(s);
    var after := s[whole..];
    var fraction := if after != [] && after[0] == '.' then after[1..][..HexRun(after[1..])] else [];
    var end := if after != [] && after[0] == '.' then 1 + |fraction| else 0;
    BinaryScale(HexNat(s[..whole] + fraction) as real, SignedDigits(after[end..], 'p') - 4 * |fraction|)
  }

  function BinaryScale(x: real, exponent: int): real {
    if exponent >= 0 then x * Pow2(exponent) as real else x / Pow2(-exponent) as real
  }

  /** `strtod` on decimal text. */
  function DecimalNumber(s: string): real {
    var whole := DigitRun(s);
    var after := s[whole..];
    var fraction := FractionDigits(after);
    var end := if after != [] && after[0] == '.' then 1 + |fraction| else 0;
    if whole + |fraction| == 0 then 0.0
    else Scale(NatValue(s[..whole] + fraction) as real, ExponentValue(after[end..]) - |fraction|)
  }

  /** The exponent at the front of the text; zero when it is missing or has no digits. */
  function ExponentValue(s: string): int {
    SignedDigits(s, 'e')
  }

  /** The signed number behind a mark, which may be upper case. */
  function SignedDigits(s: string, mark: char): int
    requires 'a' <= mark <= 'z'
  {
    if s == [] || (s[0] != mark && s[0] != mark - 'a' + 'A') then 0
    else
      var signed := 1 < |s| && (s[1] == '+' || s[1] == '-');
      var k := if signed then 2 else 1;
      var n := DigitRun(s[k..]);
      if n == 0 then 0
      else
        var magnitude: int := NatValue(s[k..][..n]);
        if signed && s[1] == '-' then -magnitude else magnitude
  }

  // ----- the grammar -----

  /** The operators of a level, in the order in which they are tried. */
  function Operators(level: nat): seq<Op>
    requires level < LEVELS
  {
    if level == 0 then [Or]
    else if level == 1 then [And]
    else if level == 2 then [Eq, Ne]
    else if level == 3 then [Ge, Le, Gt, Lt]
    else if level == 4 then [Add, Sub]
    else [Mul, Div, Mod]
  }

  function Token(op: Op): (t: string)
    ensures 1 <= |t| <= 2
  {
    match op
    case Or => "||" case And => "&&" case Eq => "==" case Ne => "!=" case Ge => ">=" case Le => "<="
    case Gt => ">" case Lt => "<" case Add => "+" case Sub => "-" case Mul => "*" case Div => "/" case Mod => "%"
  }

  /** The first operator of a list that the text continues with. */
  function MatchOperator(text: string, ops: seq<Op>): (r: Option<(Op, string)>)
    ensures r.Some? ==> |r.value.1| < |text|
  {
    if ops == [] then None
    else
      match Match(text, Token(ops[0]))
      case Some(rest) => Some((ops[0], rest))
      case None => MatchOperator(text, ops[1..])
  }

  function ParseLevel(env: Env, level: nat, text: string): (r: Parse)
    requires level <= LEVELS
    ensures r.Parsed? ==> |r.rest| < |text|
    decreases |text|, 3 + LEVELS - level
  {
    if level == LEVELS then ParseUnary(env, text)
    else
      match ParseLevel(env, level + 1, text)
      case Error => Error
      case Parsed(left, rest) => ParseTail(env, level, left, rest)
  }

  /** The loop of a level: operators and operands are folded into the value from the left. */
  function ParseTail(env: Env, level: nat, left: Value, text: string): (r: Parse)
    requires level < LEVELS
    ensures r.Parsed? ==> |r.rest| <= |text|
    decreases |text|, 0
  {
    match MatchOperator(text, Operators(level))
    case None => Parsed(left, SkipSpace(text))
    case Some((op, rest)) =>
      match ParseLevel(env, level + 1, rest)
      case Error => Error
      case Parsed(right, rest') => ParseTail(env, level, Combine(op, left, right), rest')
  }

  function ParseUnary(env: Env, text: string): (r: Parse)
    ensures r.Parsed? ==> |r.rest| < |text|
    decreases |text|, 2
  {
    match Match(text, "!")
    case Some(rest) =>
      (match ParseUnary(env, rest)
       case Error => Error
       case Parsed(v, rest') => Parsed(Not(v), rest'))
    case None =>
      match Match(text, "-")
      case Some(rest) =>
        (match ParseUnary(env, rest)
         case Error => Error
         case Parsed(v, rest') => Parsed(Negate(v), rest'))
      case None => ParsePrimary(env, text)
  }

  function ParsePrimary(env: Env, text: string): (r: Parse)
    ensures r.Parsed? ==> |r.rest| < |text|
    decreases |text|, 1, 1
  {
    ParsePrimaryAt(env, SkipSpace(text))
  }

  /** A parse that a closing parenthesis must follow. */
  function Closed(p: Parse): (r: Parse)
    ensures r.Parsed? ==> p.Parsed? && |r.rest| < |p.rest|
  {
    match p
    case Error => Error
    case Parsed(v, rest) =>
      match Match(rest, ")")
      case None => Error
      case Some(rest') => Parsed(v, rest')
  }

  /** A primary that starts right here. */
  function ParsePrimaryAt(env: Env, s: string): (r: Parse)
    ensures r.Parsed? ==> |r.rest| < |s|
    decreases |s|, 1, 0
  {
    if s == [] then Error
    else
      match Match(s, "(")
      case Some(rest) => Closed(ParseLevel(env, 0, rest))
      case None =>
        if IsDigit(s[0]) || s[0] == '.' then Parsed(Number(Strtod(s)), s[NumberEnd(s)..])
        else if IsIdentStart(s[0]) then ParseNamed(env, s)
        else Error
  }

  /** A constant, a function call or an input. */
  function ParseNamed(env: Env, s: string): (r: Parse)
    requires s != [] && IsIdentStart(s[0])
    ensures r.Parsed? ==> |r.rest| < |s|
    decreases |s|, 0
  {
    var n := IdentRun(s);
    assert n > 0;
    var name, rest := s[..n], s[n..];
    if name == "null" then Parsed(Null, rest)
    else if name == "true" then Parsed(Number(1.0), rest)
    else if name == "false" then Parsed(Number(0.0), rest)
    else
      match Match(rest, "(")
      case Some(rest') => if IsProbe(name) then ParseProbe(env, name, rest') else ParseCall(env, name, rest')
      case None => Parsed(Lookup(env, name), SkipSpace(rest))
  }

  function ParseProbe(env: Env, probe: string, text: string): (r: Parse)
    ensures r.Parsed? ==> |r.rest| < |text|
  {
    var s := SkipSpace(text);
    if s == [] || !IsIdentStart(s[0]) then Error
    else
      var n := IdentRun(s);
      match Match(s[n..], ")")
      case None => Error
      case Some(rest) => Parsed(ProbeInput(env, probe, s[..n]), rest)
  }

  function ParseCall(env: Env, name: string, text: string): (r: Parse)
    ensures r.Parsed? ==> |r.rest| < |text|
    decreases |text|, 5 + LEVELS
  {
    match ParseArguments(env, text)
    case ListError => Error
    case ParsedList(values, rest) =>
      match Apply(env, name, values)
      case Failed => Error
      case Ok(v) => Parsed(v, rest)
  }

  function ParseArguments(env: Env, text: string): (r: ParseList)
    ensures r.ParsedList? ==> |r.rest| < |text|
    decreases |text|, 4 + LEVELS, 1
  {
    match Match(text, ")")
    case Some(rest) => ParsedList([], rest)
    case None => ParseArgumentList(env, text)
  }

  function ParseArgumentList(env: Env, text: string): (r: ParseList)
    ensures r.ParsedList? ==> |r.rest| < |text|
    decreases |text|, 4 + LEVELS, 0
  {
    match ParseLevel(env, 0, text)
    case Error => ListError
    case Parsed(v, rest) =>
      match Match(rest, ")")
      case Some(rest') => ParsedList([v], rest')
      case None =>
        match Match(rest, ",")
        case None => ListError
        case Some(rest') =>
          match ParseArgumentList(env, rest')
          case ListError => ListError
          case ParsedList(values, rest'') => ParsedList([v] + values, rest'')
  }

  /** A whole expression: nothing but white space may follow. */
  function ParseExpression(env: Env, text: string): Result<Value> {
    match ParseLevel(env, 0, text)
    case Error => Failed
    case Parsed(v, rest) => if SkipSpace(rest) == [] then Ok(v) else Failed
  }
}
