/** Rule expressions as trees: their value, and their text with as few parentheses as the grammar allows. */
module RuleSyntax {
  import opened Results
  import opened Decimal
  import opened RuleValues
  import opened RuleParser

  /** A numeral: whole digits, perhaps a point with more digits, perhaps an exponent with its sign. There are digits
      before or behind the point. */
  datatype Numeral = Numeral(whole: string, fraction: Option<string>, exponent: Option<(string, string)>)

  datatype Expr =
    | Literal(text: string)
    | NullConstant
    | Boolean(value: bool)
    | Input(name: string)
    | LogicalNot(operand: Expr)
    | Minus(operand: Expr)
    | Binary(op: Op, left: Expr, right: Expr)
    | Call(name: string, args: seq<Expr>)
    | Probe(probe: string, name: string)

  // ----- well-formed trees -----

  predicate IsIdentifier(s: string) {
    s != [] && IsIdentStart(s[0]) && forall k :: 0 <= k < |s| ==> IsIdentPart(s[k])
  }

  predicate IsReserved(s: string) {
    s == "null" || s == "true" || s == "false"
  }

  predicate IsNumeral(n: Numeral) {
    && AllDigits(n.whole)
    && (n.fraction.Some? ==> AllDigits(n.fraction.value))
    && (n.whole != [] || (n.fraction.Some? && n.fraction.value != []))
    && (n.exponent.Some? ==>
          && (n.exponent.value.0 == "" || n.exponent.value.0 == "+" || n.exponent.value.0 == "-")
          && n.exponent.value.1 != [] && AllDigits(n.exponent.value.1))
  }

  /** The text of a number, as the scanner consumes it; it need not be a numeral. */
  predicate IsNumber(text: string) {
    text != [] && (IsDigit(text[0]) || text[0] == '.') && NumberEnd(text) == |text|
  }

  /** A number that ends in the letter of an exponent: a sign behind it would belong to it. */
  predicate IsOpen(e: Expr) {
    e.Literal? && e.text != [] && (e.text[|e.text| - 1] == 'e' || e.text[|e.text| - 1] == 'E')
  }

  /** Names are identifiers; a function's name is not a constant or a probe. */
  predicate WellFormed(e: Expr)
    decreases e, 1
  {
    match e
    case Literal(text) => IsNumber(text)
    case NullConstant => true
    case Boolean(_) => true
    case Input(name) => IsIdentifier(name) && !IsReserved(name)
    case LogicalNot(operand) => WellFormed(operand)
    case Minus(operand) => WellFormed(operand)
    case Binary(_, left, right) => WellFormed(left) && WellFormed(right)
    case Call(name, args) => IsIdentifier(name) && !IsReserved(name) && !IsProbe(name) && AllWellFormed(args)
    case Probe(probe, name) => IsProbe(probe) && IsIdentifier(name)
  }

  predicate AllWellFormed(es: seq<Expr>)
    decreases es, 0
  {
    es == [] || (WellFormed(es[0]) && AllWellFormed(es[1..]))
  }

  // ----- meaning -----

  function NumeralValue(n: Numeral): real
    requires IsNumeral(n)
  {
    var fraction := if n.fraction.Some? then n.fraction.value else [];
    var magnitude: int := if n.exponent.Some? then NatValue(n.exponent.value.1) else 0;
    var exponent := if n.exponent.Some? && n.exponent.value.0 == "-" then -magnitude else magnitude;
    Scale(NatValue(n.whole + fraction) as real, exponent - |fraction|)
  }

  /** The value of a tree; that of a number's text is its numeral's value (`RuleLexing.StrtodOf`). Both operands of
      every operator and all arguments are evaluated; a failing call anywhere makes the whole expression fail. */
  function Eval(env: Env, e: Expr): Result<Value>
    decreases e, 1
  {
    match e
    case Literal(text) => Ok(Number(Strtod(text)))
    case NullConstant => Ok(Null)
    case Boolean(b) => Ok(Truth(b))
    case Input(name) => Ok(Lookup(env, name))
    case LogicalNot(operand) =>
      (match Eval(env, operand)
       case Failed => Failed
       case Ok(v) => Ok(Not(v)))
    case Minus(operand) =>
      (match Eval(env, operand)
       case Failed => Failed
       case Ok(v) => Ok(Negate(v)))
    case Binary(op, left, right) =>
      (match Eval(env, left)
       case Failed => Failed
       case Ok(l) =>
         match Eval(env, right)
         case Failed => Failed
         case Ok(r) => Ok(Combine(op, l, r)))
    case Call(name, args) =>
      (match EvalAll(env, args)
       case Failed => Failed
       case Ok(values) => Apply(env, name, values))
    case Probe(probe, name) => Ok(ProbeInput(env, probe, name))
  }

  function EvalAll(env: Env, es: seq<Expr>): Result<seq<Value>>
    decreases es, 0
  {
    if es == [] then Ok([])
    else
      match Eval(env, es[0])
      case Failed => Failed
      case Ok(v) =>
        match EvalAll(env, es[1..])
        case Failed => Failed
        case Ok(values) => Ok([v] + values)
  }

  // ----- text -----

  function LevelOf(op: Op): (l: nat)
    ensures l < LEVELS
  {
    match op
    case Or => 0 case And => 1 case Eq => 2 case Ne => 2 case Ge => 3 case Le => 3 case Gt => 3 case Lt => 3
    case Add => 4 case Sub => 4 case Mul => 5 case Div => 5 case Mod => 5
  }

  function PrintNumeral(n: Numeral): string {
    n.whole
    + (if n.fraction.Some? then "." + n.fraction.value else "")
    + (if n.exponent.Some? then "e" + n.exponent.value.0 + n.exponent.value.1 else "")
  }

  /** The text of a tree where the grammar expects level `p`: parenthesised only when its operator
      binds less tightly, or when it is an open number. Operators associate to the left. */
  function PrintAt(e: Expr, p: nat): string
    decreases e, 2
  {
    if (e.Binary? && LevelOf(e.op) < p) || IsOpen(e) then "(" + PrintBare(e) + ")" else PrintBare(e)
  }

  function PrintBare(e: Expr): string
    decreases e, 1
  {
    match e
    case Literal(text) => text
    case NullConstant => "null"
    case Boolean(b) => if b then "true" else "false"
    case Input(name) => name
    case LogicalNot(operand) => "!" + PrintAt(operand, LEVELS)
    case Minus(operand) => "-" + PrintAt(operand, LEVELS)
    case Binary(op, left, right) => PrintAt(left, LevelOf(op)) + Token(op) + PrintAt(right, LevelOf(op) + 1)
    case Call(name, args) => name + "(" + PrintArguments(args)
    case Probe(probe, name) => probe + "(" + name + ")"
  }

  /** Arguments up to and including the closing parenthesis. */
  function PrintArguments(es: seq<Expr>): string
    decreases es, 0
  {
    if es == [] then ")"
    else if |es| == 1 then PrintAt(es[0], 0) + ")"
    else PrintAt(es[0], 0) + "," + PrintArguments(es[1..])
  }

  function PrintExpression(e: Expr): string {
    PrintAt(e, 0)
  }
}
