/** Values of rule expressions: a number or null, and the operations on them. */
module RuleValues {
  import opened Results
  import opened Reals
  import opened Rounding

  datatype Value = Null | Number(number: real) {
    predicate Truthy() {
      Number? && number != 0.0
    }
  }

  /** A rule input as the engine sees it. */
  datatype InputState = InputState(valid: bool, stale: bool, quality: int, value: real)

  /** The inputs of a rule, and the power of ten of the mathematical library: None where the result
      is zero or not finite. */
  datatype Env = Env(inputs: map<string, InputState>, pow10: real -> Option<real>)

  datatype Op = Or | And | Eq | Ne | Ge | Le | Gt | Lt | Add | Sub | Mul | Div | Mod

  function Truth(b: bool): Value {
    if b then Number(1.0) else Number(0.0)
  }

  function Truncate(x: real): int {
    if x >= 0.0 then x.Floor else -(-x).Floor
  }

  /** `fmod`: the remainder of the quotient rounded towards zero. */
  function Fmod(x: real, y: real): real
    requires y != 0.0
  {
    x - Truncate(x / y) as real * y
  }

  /** A binary operation: the logical ones treat null as false, all others propagate it; division and
      remainder by zero give null. */
  function Combine(op: Op, l: Value, r: Value): Value {
    if op == Or then Truth(l.Truthy() || r.Truthy())
    else if op == And then Truth(l.Truthy() && r.Truthy())
    else if l.Null? || r.Null? then Null
    else Compute(op, l.number, r.number)
  }

  function Compute(op: Op, x: real, y: real): Value {
    match op
    case Eq => Truth(x == y)
    case Ne => Truth(x != y)
    case Ge => Truth(x >= y)
    case Le => Truth(x <= y)
    case Gt => Truth(x > y)
    case Lt => Truth(x < y)
    case Add => Number(x + y)
    case Sub => Number(x - y)
    case Mul => Number(x * y)
    case Div => if y == 0.0 then Null else Number(x / y)
    case Mod => if y == 0.0 then Null else Number(Fmod(x, y))
    case _ => Null
  }

  function Negate(v: Value): Value {
    if v.Null? then Null else Number(-v.number)
  }

  function Not(v: Value): Value {
    Truth(!v.Truthy())
  }

  function Lookup(env: Env, name: string): Value {
    if name in env.inputs && env.inputs[name].valid then Number(env.inputs[name].value) else Null
  }

  predicate IsProbe(name: string) {
    name == "valid" || name == "stale" || name == "quality"
  }

  /** The functions that look at an input itself instead of its value. */
  function ProbeInput(env: Env, probe: string, name: string): Value {
    if probe == "valid" then Truth(name in env.inputs && env.inputs[name].valid)
    else if probe == "stale" then Truth(name in env.inputs && env.inputs[name].stale)
    else if name !in env.inputs then Null
    else Number(env.inputs[name].quality as real)
  }

  /** The nearest multiple of the scale's reciprocal. */
  function RoundTo(x: real, scale: real): real
    requires scale != 0.0
  {
    Llround(x * scale) as real / scale
  }

  /** A function call on evaluated arguments; a wrong name or a wrong number of arguments fails. */
  function Apply(env: Env, name: string, args: seq<Value>): Result<Value> {
    if name == "if" then
      if |args| != 3 then Failed else Ok(if args[0].Truthy() then args[1] else args[2])
    else if name == "abs" then
      if |args| != 1 then Failed else Ok(if args[0].Null? then Null else Number(Abs(args[0].number)))
    else if name == "min" then
      if |args| != 2 then Failed
      else Ok(if args[0].Null? || args[1].Null? then Null else Number(Min(args[0].number, args[1].number)))
    else if name == "max" then
      if |args| != 2 then Failed
      else Ok(if args[0].Null? || args[1].Null? then Null else Number(Max(args[0].number, args[1].number)))
    else if name == "clamp" then
      if |args| != 3 then Failed
      else Ok(if args[0].Null? || args[1].Null? || args[2].Null? then Null
              else Number(Max(args[1].number, Min(args[0].number, args[2].number))))
    else if name == "round" then
      if |args| != 2 then Failed
      else Ok(if args[0].Null? || args[1].Null? then Null
              else
                match env.pow10(args[1].number)
                case None => Null
                case Some(scale) =>
                  if scale == 0.0 then Null else Number(RoundTo(args[0].number, scale)))
    else Failed
  }
}
