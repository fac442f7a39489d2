/** The laws of rule expressions: what the operators, functions and inputs mean, as laws between the values of
    expressions, and how operators bind in a text. */
module RuleLaws {
  import opened Results
  import opened Reals
  import opened Rounding
  import opened RuleValues
  import opened RuleParser
  import opened RuleSyntax
  import opened RuleGrammar
  import opened RuleTrees
  import opened RuleRoundTrip

  /** The expression has the number `x` as its value. */
  predicate Has(env: Env, e: Expr, x: real) {
    Eval(env, e) == Ok(Number(x))
  }

  /** The expressions have the same value, and it is a number. */
  predicate Same(env: Env, e: Expr, f: Expr) {
    Eval(env, e) == Eval(env, f) && Eval(env, e).Ok? && Eval(env, e).value.Number?
  }

  predicate Holds(env: Env, e: Expr) {
    Has(env, e, 1.0)
  }

  predicate Fails(env: Env, e: Expr) {
    Has(env, e, 0.0)
  }

  lemma Numbers(env: Env, op: Op, a: Expr, b: Expr, x: real, y: real)
    requires Has(env, a, x) && Has(env, b, y)
    ensures Eval(env, Binary(op, a, b)) == Ok(Combine(op, Number(x), Number(y)))
  {
    hide Eval, Combine;
    EvalBinary(env, op, a, b);
  }

  // ----- arithmetic -----

  lemma Arithmetic(env: Env, a: Expr, b: Expr, x: real, y: real)
    requires Has(env, a, x) && Has(env, b, y)
    ensures Has(env, Binary(Add, a, b), x + y) && Has(env, Binary(Sub, a, b), x - y)
    ensures Has(env, Binary(Mul, a, b), x * y)
    ensures if y == 0.0 then Eval(env, Binary(Div, a, b)) == Ok(Null) && Eval(env, Binary(Mod, a, b)) == Ok(Null)
            else Has(env, Binary(Div, a, b), x / y)
  {
    hide Eval;
    Numbers(env, Add, a, b, x, y);
    Numbers(env, Sub, a, b, x, y);
    Numbers(env, Mul, a, b, x, y);
    Numbers(env, Div, a, b, x, y);
    Numbers(env, Mod, a, b, x, y);
  }

  lemma Restated(env: Env, e: Expr, x: real, y: real)
    requires Has(env, e, x) && x == y
    ensures Has(env, e, y)
  {
  }

  lemma Agreeing(env: Env, e: Expr, f: Expr, x: real)
    requires Has(env, e, x) && Has(env, f, x)
    ensures Same(env, e, f)
  {
    hide Eval;
  }

  /** Addition is commutative and associative, adding zero changes nothing, and a subtraction undoes it. */
  lemma SumLaws(env: Env, a: Expr, b: Expr, c: Expr, x: real, y: real, z: real)
    requires Has(env, a, x) && Has(env, b, y) && Has(env, c, z)
    ensures Same(env, Binary(Add, a, b), Binary(Add, b, a))
    ensures Same(env, Binary(Add, Binary(Add, a, b), c), Binary(Add, a, Binary(Add, b, c)))
    ensures y == 0.0 ==> Same(env, Binary(Add, a, b), a)
    ensures Same(env, Binary(Sub, Binary(Add, a, b), b), a) && Same(env, Binary(Add, Binary(Sub, a, b), b), a)
    ensures Has(env, Binary(Add, a, Minus(a)), 0.0)
  {
    hide Has, Same;
    NegationOf(env, a, x);
    Arithmetic(env, a, b, x, y);
    Arithmetic(env, b, a, y, x);
    Arithmetic(env, b, c, y, z);
    Arithmetic(env, a, Minus(a), x, -x);
    Arithmetic(env, Binary(Add, a, b), c, x + y, z);
    Arithmetic(env, a, Binary(Add, b, c), x, y + z);
    Arithmetic(env, Binary(Add, a, b), b, x + y, y);
    Arithmetic(env, Binary(Sub, a, b), b, x - y, y);
    Agreeing(env, Binary(Add, a, b), Binary(Add, b, a), x + y);
    Agreeing(env, Binary(Add, Binary(Add, a, b), c), Binary(Add, a, Binary(Add, b, c)), x + y + z);
    Agreeing(env, Binary(Sub, Binary(Add, a, b), b), a, x);
    Agreeing(env, Binary(Add, Binary(Sub, a, b), b), a, x);
    if y == 0.0 {
      Agreeing(env, Binary(Add, a, b), a, x);
    }
  }

  lemma NegationOf(env: Env, a: Expr, x: real)
    requires Has(env, a, x)
    ensures Has(env, Minus(a), -x)
  {
  }

  /** Multiplication is commutative and associative, distributes over addition, has the unit one, and is undone by a
      division by anything but zero; a division by zero gives null. */
  lemma ProductLaws(env: Env, a: Expr, b: Expr, c: Expr, x: real, y: real, z: real)
    requires Has(env, a, x) && Has(env, b, y) && Has(env, c, z)
    ensures Same(env, Binary(Mul, a, b), Binary(Mul, b, a))
    ensures Same(env, Binary(Mul, Binary(Mul, a, b), c), Binary(Mul, a, Binary(Mul, b, c)))
    ensures Same(env, Binary(Mul, a, Binary(Add, b, c)), Binary(Add, Binary(Mul, a, b), Binary(Mul, a, c)))
    ensures y == 1.0 ==> Same(env, Binary(Mul, a, b), a)
    ensures y != 0.0 ==> Same(env, Binary(Div, Binary(Mul, a, b), b), a)
    ensures y != 0.0 ==> Same(env, Binary(Mul, Binary(Div, a, b), b), a)
    ensures y == 0.0 ==> Eval(env, Binary(Div, a, b)) == Ok(Null) && Eval(env, Binary(Mod, a, b)) == Ok(Null)
  {
    hide Has, Same, Eval;
    Arithmetic(env, a, b, x, y);
    var ab := Times(env, a, b, x, y);
    var bc := Times(env, b, c, y, z);
    var ac := Times(env, a, c, x, z);
    var ba := Times(env, b, a, y, x);
    var abC := Times(env, Binary(Mul, a, b), c, ab, z);
    var aBC := Times(env, a, Binary(Mul, b, c), x, bc);
    Arithmetic(env, b, c, y, z);
    var sum := y + z;
    var product := Times(env, a, Binary(Add, b, c), x, sum);
    Arithmetic(env, Binary(Mul, a, b), Binary(Mul, a, c), ab, ac);
    Products(x, y, z, ab, bc, ac);
    Agreeing(env, Binary(Mul, a, b), Binary(Mul, b, a), ab);
    Agreeing(env, Binary(Mul, Binary(Mul, a, b), c), Binary(Mul, a, Binary(Mul, b, c)), abC);
    Restated(env, Binary(Mul, a, Binary(Add, b, c)), product, ab + ac);
    Agreeing(env, Binary(Mul, a, Binary(Add, b, c)), Binary(Add, Binary(Mul, a, b), Binary(Mul, a, c)), ab + ac);
    if y == 1.0 {
      Agreeing(env, Binary(Mul, a, b), a, x);
    }
    if y != 0.0 {
      DivisionUndone(env, a, b, x, y);
    }
  }

  lemma Times(env: Env, a: Expr, b: Expr, x: real, y: real) returns (r: real)
    requires Has(env, a, x) && Has(env, b, y)
    ensures r == x * y && Has(env, Binary(Mul, a, b), r)
  {
    hide Has;
    r := x * y;
    Arithmetic(env, a, b, x, y);
  }

  lemma Over(env: Env, a: Expr, b: Expr, x: real, y: real) returns (r: real)
    requires Has(env, a, x) && Has(env, b, y) && y != 0.0
    ensures r == x / y && Has(env, Binary(Div, a, b), r)
  {
    hide Has;
    r := x / y;
    Arithmetic(env, a, b, x, y);
  }

  lemma DivisionUndone(env: Env, a: Expr, b: Expr, x: real, y: real)
    requires Has(env, a, x) && Has(env, b, y) && y != 0.0
    ensures Same(env, Binary(Div, Binary(Mul, a, b), b), a) && Same(env, Binary(Mul, Binary(Div, a, b), b), a)
  {
    hide Has, Same, Eval;
    var product := Times(env, a, b, x, y);
    var quotient := Over(env, a, b, x, y);
    Undone(x, y, product, quotient);
    var back := Over(env, Binary(Mul, a, b), b, product, y);
    var again := Times(env, Binary(Div, a, b), b, quotient, y);
    Agreeing(env, Binary(Div, Binary(Mul, a, b), b), a, x);
    Agreeing(env, Binary(Mul, Binary(Div, a, b), b), a, x);
  }

  lemma Products(x: real, y: real, z: real, xy: real, yz: real, xz: real)
    requires xy == x * y && yz == y * z && xz == x * z
    ensures x * y == y * x && xy * z == x * yz && x * (y + z) == xy + xz
  {
  }

  lemma Undone(x: real, y: real, product: real, quotient: real)
    requires y != 0.0 && product == x * y && quotient == x / y
    ensures product / y == x && quotient * y == x
  {
  }

  /** A remainder is smaller than the divisor, never of the other sign than the dividend, and differs from it by a
      whole multiple of the divisor. */
  lemma RemainderLaws(env: Env, a: Expr, b: Expr, x: real, y: real) returns (m: real, k: int)
    requires Has(env, a, x) && Has(env, b, y) && y != 0.0
    ensures Has(env, Binary(Mod, a, b), m)
    ensures Abs(m) < Abs(y) && (if x < 0.0 then m <= 0.0 else m >= 0.0) && x - m == k as real * y
  {
    hide Eval;
    Numbers(env, Mod, a, b, x, y);
    m, k := Fmod(x, y), Truncate(x / y);
    var q := x / y;
    var part := q - k as real;
    assert x == q * y;
    assert m == part * y by {
      assert part * y == q * y - k as real * y;
    }
    assert -1.0 < part < 1.0 && (if q < 0.0 then part <= 0.0 else part >= 0.0);
    PartOf(part, y);
    SignOfQuotient(q, y);
    SignOfQuotient(part, y);
  }

  lemma PartOf(part: real, y: real)
    requires -1.0 < part < 1.0 && y != 0.0
    ensures Abs(part * y) < Abs(y)
  {
    if y > 0.0 {
      assert (1.0 - part) * y > 0.0 && (1.0 + part) * y > 0.0;
    } else {
      assert (1.0 - part) * -y > 0.0 && (1.0 + part) * -y > 0.0;
    }
  }

  lemma SignOfQuotient(q: real, y: real)
    requires y != 0.0
    ensures q == 0.0 ==> q * y == 0.0
    ensures q > 0.0 ==> if y > 0.0 then q * y > 0.0 else q * y < 0.0
    ensures q < 0.0 ==> if y > 0.0 then q * y < 0.0 else q * y > 0.0
  {
    if q > 0.0 {
      assert y > 0.0 ==> q * y > 0.0;
      assert y < 0.0 ==> q * -y > 0.0;
    } else if q < 0.0 {
      assert y > 0.0 ==> -q * y > 0.0;
      assert y < 0.0 ==> -q * -y > 0.0;
    }
  }

  /** Each step of an exponent is a factor of ten. */
  lemma ScaleLaws(x: real, exponent: int)
    ensures Scale(x, 0) == x && Scale(x, exponent + 1) == 10.0 * Scale(x, exponent)
  {
    if exponent < 0 {
      var p := TenTo(-exponent - 1);
      assert TenTo(-exponent) == 10.0 * p;
      TenthOf(x, p);
    }
  }

  lemma TenthOf(x: real, p: real)
    requires p > 0.0
    ensures x / p == 10.0 * (x / (10.0 * p))
  {
    var q := x / (10.0 * p);
    assert q * (10.0 * p) == x;
    assert (10.0 * q) * p == x;
  }

  // ----- comparisons and logic -----

  /** Exactly one of less, equal and greater holds, in agreement with addition: a positive amount makes a sum greater.
      The other comparisons are their negations. */
  lemma ComparisonLaws(env: Env, a: Expr, b: Expr, x: real, y: real)
    requires Has(env, a, x) && Has(env, b, y)
    ensures Holds(env, Binary(Eq, a, b)) <==> Eval(env, a) == Eval(env, b)
    ensures y > 0.0 ==> Holds(env, Binary(Lt, a, Binary(Add, a, b))) && Holds(env, Binary(Gt, Binary(Add, a, b), a))
    ensures Eval(env, Binary(Lt, a, b)) == Eval(env, Binary(Gt, b, a))
    ensures x < y ==> Holds(env, Binary(Lt, a, b)) && Fails(env, Binary(Eq, a, b)) && Fails(env, Binary(Gt, a, b))
    ensures x == y ==> Fails(env, Binary(Lt, a, b)) && Holds(env, Binary(Eq, a, b)) && Fails(env, Binary(Gt, a, b))
    ensures x > y ==> Fails(env, Binary(Lt, a, b)) && Fails(env, Binary(Eq, a, b)) && Holds(env, Binary(Gt, a, b))
    ensures Same(env, Binary(Ge, a, b), LogicalNot(Binary(Lt, a, b)))
    ensures Same(env, Binary(Le, a, b), LogicalNot(Binary(Gt, a, b)))
    ensures Same(env, Binary(Ne, a, b), LogicalNot(Binary(Eq, a, b)))
  {
    NotOf(env, Binary(Lt, a, b));
    NotOf(env, Binary(Gt, a, b));
    NotOf(env, Binary(Eq, a, b));
    hide Eval;
    Numbers(env, Eq, a, b, x, y);
    Numbers(env, Ne, a, b, x, y);
    Numbers(env, Lt, a, b, x, y);
    Numbers(env, Gt, a, b, x, y);
    Numbers(env, Gt, b, a, y, x);
    Numbers(env, Ge, a, b, x, y);
    Numbers(env, Le, a, b, x, y);
    Numbers(env, Add, a, b, x, y);
    Numbers(env, Lt, a, Binary(Add, a, b), x, x + y);
    Numbers(env, Gt, Binary(Add, a, b), a, x + y, x);
  }

  lemma NotOf(env: Env, a: Expr)
    ensures Eval(env, LogicalNot(a)) == match Eval(env, a) case Failed => Failed case Ok(v) => Ok(Not(v))
  {
  }

  /** The logical operators see whether a value is a number other than zero: a conjunction holds if both are, a
      disjunction if one is, a negation if it is not; they never give null. */
  lemma LogicLaws(env: Env, a: Expr, b: Expr)
    requires Eval(env, a).Ok? && Eval(env, b).Ok?
    ensures var u, v := Eval(env, a).value, Eval(env, b).value;
            var p, q := u.Number? && u.number != 0.0, v.Number? && v.number != 0.0;
            && (if p && q then Holds(env, Binary(And, a, b)) else Fails(env, Binary(And, a, b)))
            && (if p || q then Holds(env, Binary(Or, a, b)) else Fails(env, Binary(Or, a, b)))
            && (if p then Fails(env, LogicalNot(a)) else Holds(env, LogicalNot(a)))
  {
    NotOf(env, a);
    hide Eval;
    EvalBinary(env, And, a, b);
    EvalBinary(env, Or, a, b);
  }

  /** Null on either side makes every other operator null, and minus; a failure on either side makes all fail. */
  lemma NullLaws(env: Env, op: Op, a: Expr, b: Expr)
    ensures Eval(env, Binary(op, a, b)).Failed? <==> Eval(env, a).Failed? || Eval(env, b).Failed?
    ensures op !in [And, Or] && Eval(env, Binary(op, a, b)).Ok? && Ok(Null) in [Eval(env, a), Eval(env, b)] ==>
              Eval(env, Binary(op, a, b)) == Ok(Null)
    ensures Eval(env, Minus(a)).Failed? <==> Eval(env, a).Failed?
    ensures Eval(env, Minus(a)) == Ok(Null) <==> Eval(env, a) == Ok(Null)
  {
    MinusOf(env, a);
    hide Eval;
    EvalBinary(env, op, a, b);
  }

  lemma MinusOf(env: Env, a: Expr)
    ensures Eval(env, Minus(a)) == match Eval(env, a) case Failed => Failed case Ok(v) => Ok(Negate(v))
  {
  }

  // ----- functions -----

  /** How many arguments each function takes. */
  predicate Takes(name: string, n: nat) {
    || (name in ["abs"] && n == 1)
    || (name in ["min", "max", "round"] && n == 2)
    || (name in ["if", "clamp"] && n == 3)
  }

  lemma CallOf(env: Env, name: string, args: seq<Expr>)
    ensures Eval(env, Call(name, args))
         == match EvalAll(env, args) case Failed => Failed case Ok(values) => Apply(env, name, values)
  {
    hide Apply;
  }

  lemma {:induction false} AllValues(env: Env, es: seq<Expr>)
    ensures EvalAll(env, es).Ok? <==> forall i :: 0 <= i < |es| ==> Eval(env, es[i]).Ok?
    ensures EvalAll(env, es).Ok? ==>
              |EvalAll(env, es).value| == |es|
              && forall i :: 0 <= i < |es| ==> EvalAll(env, es).value[i] == Eval(env, es[i]).value
  {
    hide Eval;
    if es != [] {
      AllValues(env, es[1..]);
      var rest := es[1..];
      forall i | 0 < i < |es|
        ensures es[i] == rest[i - 1]
      {
      }
      forall i | 0 <= i < |rest|
        ensures rest[i] == es[i + 1]
      {
      }
    }
  }

  /** A call fails exactly when the function is unknown, its number of arguments is wrong, or one of them fails. */
  lemma CallFails(env: Env, name: string, args: seq<Expr>)
    ensures Eval(env, Call(name, args)).Ok?
       <==> Takes(name, |args|) && forall i :: 0 <= i < |args| ==> Eval(env, args[i]).Ok?
  {
    CallOf(env, name, args);
    hide Eval, EvalAll;
    AllValues(env, args);
  }

  lemma Called(env: Env, name: string, args: seq<Expr>, values: seq<Value>)
    requires |args| == |values| && forall i :: 0 <= i < |args| ==> Eval(env, args[i]) == Ok(values[i])
    ensures Eval(env, Call(name, args)) == Apply(env, name, values)
  {
    CallOf(env, name, args);
    hide Eval, EvalAll, Apply;
    AllValues(env, args);
    assert EvalAll(env, args).value == values;
  }

  /** `if` has the value of the branch that its condition picks; null and zero pick the second. */
  lemma IfLaws(env: Env, c: Expr, a: Expr, b: Expr)
    requires Eval(env, c).Ok? && Eval(env, a).Ok? && Eval(env, b).Ok?
    ensures Eval(env, Call("if", [c, a, b]))
         == if Eval(env, c) == Ok(Null) || Eval(env, c) == Ok(Number(0.0)) then Eval(env, b) else Eval(env, a)
  {
    hide Eval;
    Called(env, "if", [c, a, b], [Eval(env, c).value, Eval(env, a).value, Eval(env, b).value]);
  }

  /** The other functions of null are null. */
  lemma NullArguments(env: Env, name: string, args: seq<Expr>)
    requires name != "if" && Eval(env, Call(name, args)).Ok?
    requires exists i :: 0 <= i < |args| && Eval(env, args[i]) == Ok(Null)
    ensures Eval(env, Call(name, args)) == Ok(Null)
  {
    CallFails(env, name, args);
    CallOf(env, name, args);
    hide Eval, EvalAll;
    AllValues(env, args);
  }

  /** The magnitude, the smaller and the larger of two numbers, by their bounds. */
  lemma ExtremeLaws(env: Env, a: Expr, b: Expr, x: real, y: real) returns (abs: real, low: real, high: real)
    requires Has(env, a, x) && Has(env, b, y)
    ensures Has(env, Call("abs", [a]), abs) && abs >= 0.0 && (abs == x || abs == -x)
    ensures Has(env, Call("min", [a, b]), low) && low <= x && low <= y && (low == x || low == y)
    ensures Has(env, Call("max", [a, b]), high) && high >= x && high >= y && (high == x || high == y)
  {
    hide Eval;
    Called(env, "abs", [a], [Number(x)]);
    Called(env, "min", [a, b], [Number(x), Number(y)]);
    Called(env, "max", [a, b], [Number(x), Number(y)]);
    abs, low, high := Abs(x), Min(x, y), Max(x, y);
  }

  /** `clamp` keeps a number between the bounds and moves any other to the nearer one; with crossed bounds it is the
      lower bound. */
  lemma ClampLaws(env: Env, a: Expr, b: Expr, c: Expr, x: real, low: real, high: real) returns (r: real)
    requires Has(env, a, x) && Has(env, b, low) && Has(env, c, high)
    ensures Has(env, Call("clamp", [a, b, c]), r) && low <= r
    ensures low <= high ==> r <= high
    ensures low <= x <= high ==> r == x
    ensures x < low || high < low ==> r == low
    ensures low <= high < x ==> r == high
  {
    hide Eval;
    Called(env, "clamp", [a, b, c], [Number(x), Number(low), Number(high)]);
    r := Max(low, Min(x, high));
  }

  /** `round` gives the nearest number with as many decimals: times the power of ten it is whole, and it is within half
      a unit; from the middle it goes away from zero. */
  lemma RoundLaws(env: Env, a: Expr, b: Expr, x: real, digits: real, scale: real) returns (r: real, n: int)
    requires Has(env, a, x) && Has(env, b, digits) && env.pow10(digits) == Some(scale) && scale != 0.0
    ensures Has(env, Call("round", [a, b]), r) && r * scale == n as real && Nearest(n, x * scale)
  {
    hide Eval, Apply, Nearest, RoundTo;
    r := RoundTo(x, scale);
    n := RoundedNearest(x, scale);
    Called(env, "round", [a, b], [Number(x), Number(digits)]);
    RoundApplied(env, x, digits);
  }

  /** Without a usable power of ten it is null. */
  lemma RoundWithoutScale(env: Env, a: Expr, b: Expr, x: real, digits: real)
    requires Has(env, a, x) && Has(env, b, digits) && env.pow10(digits) in [None, Some(0.0)]
    ensures Eval(env, Call("round", [a, b])) == Ok(Null)
  {
    hide Eval, Apply, RoundTo;
    Called(env, "round", [a, b], [Number(x), Number(digits)]);
    RoundApplied(env, x, digits);
  }

  lemma RoundApplied(env: Env, x: real, digits: real)
    ensures var scale := env.pow10(digits);
            Apply(env, "round", [Number(x), Number(digits)])
            == Ok(if scale.None? || scale.value == 0.0 then Null else Number(RoundTo(x, scale.value)))
  {
    hide RoundTo;
  }

  lemma RoundedNearest(x: real, scale: real) returns (n: int)
    requires scale != 0.0
    ensures RoundTo(x, scale) * scale == n as real && Nearest(n, x * scale)
  {
    n := Llround(x * scale);
    var r := RoundTo(x, scale);
    assert r == n as real / scale;
    assert r * scale == n as real;
  }

  predicate Nearest(n: int, x: real) {
    Abs(n as real - x) <= 0.5 && (Abs(n as real - x) == 0.5 ==> Abs(n as real) > Abs(x))
  }

  // ----- inputs -----

  /** A name is null unless it is a valid input, which `valid` tells; `stale` and `quality` look at the input itself,
      valid or not. */
  lemma InputLaws(env: Env, name: string)
    ensures var known, value, valid := name in env.inputs, Eval(env, Input(name)), Probe("valid", name);
            && (Holds(env, valid) <==> value != Ok(Null)) && (Holds(env, valid) || Fails(env, valid))
            && (Holds(env, valid) <==> known && env.inputs[name].valid)
            && (Holds(env, valid) ==> value == Ok(Number(env.inputs[name].value)))
            && (if known && env.inputs[name].stale then Holds(env, Probe("stale", name))
                else Fails(env, Probe("stale", name)))
            && (if known then Has(env, Probe("quality", name), env.inputs[name].quality as real)
                else Eval(env, Probe("quality", name)) == Ok(Null))
  {
  }

  // ----- texts -----

  /** A name that is read as an input. */
  predicate IsName(name: string) {
    IsIdentifier(name) && !IsReserved(name)
  }

  lemma InputText(name: string, p: nat)
    ensures PrintAt(Input(name), p) == name
  {
    assert PrintBare(Input(name)) == name;
  }

  lemma BinaryPrinted(op: Op, left: Expr, right: Expr, p: nat)
    ensures var bare := PrintAt(left, LevelOf(op)) + Token(op) + PrintAt(right, LevelOf(op) + 1);
            PrintAt(Binary(op, left, right), p) == if LevelOf(op) < p then "(" + bare + ")" else bare
  {
    hide LevelOf, Token;
    var bare := PrintBare(Binary(op, left, right));
    assert bare == PrintAt(left, LevelOf(op)) + Token(op) + PrintAt(right, LevelOf(op) + 1);
  }

  lemma TwoNames(a: string, op: Op, b: string)
    requires IsName(a) && IsName(b)
    ensures TreeOf(a + Token(op) + b) == Some(Binary(op, Input(a), Input(b)))
  {
    hide TreeOf, PrintAt, Token, LevelOf, IsIdentifier;
    var e := Binary(op, Input(a), Input(b));
    assert WellFormed(Input(a)) && WellFormed(Input(b));
    assert WellFormed(e);
    InputText(a, LevelOf(op));
    InputText(b, LevelOf(op) + 1);
    BinaryPrinted(op, Input(a), Input(b), 0);
    TreeOfPrinted(e);
  }

  /** What each token between two names means. */
  lemma TokensMean(a: string, b: string)
    requires IsName(a) && IsName(b)
    ensures var x, y := Input(a), Input(b);
            && TreeOf(a + "||" + b) == Some(Binary(Or, x, y)) && TreeOf(a + "&&" + b) == Some(Binary(And, x, y))
            && TreeOf(a + "==" + b) == Some(Binary(Eq, x, y)) && TreeOf(a + "!=" + b) == Some(Binary(Ne, x, y))
            && TreeOf(a + "<" + b) == Some(Binary(Lt, x, y)) && TreeOf(a + ">" + b) == Some(Binary(Gt, x, y))
            && TreeOf(a + "<=" + b) == Some(Binary(Le, x, y)) && TreeOf(a + ">=" + b) == Some(Binary(Ge, x, y))
            && TreeOf(a + "+" + b) == Some(Binary(Add, x, y)) && TreeOf(a + "-" + b) == Some(Binary(Sub, x, y))
            && TreeOf(a + "*" + b) == Some(Binary(Mul, x, y)) && TreeOf(a + "/" + b) == Some(Binary(Div, x, y))
            && TreeOf(a + "%" + b) == Some(Binary(Mod, x, y))
  {
    hide TreeOf, IsName;
    forall op: Op {
      TwoNames(a, op, b);
    }
    assert Token(Or) == "||" && Token(And) == "&&" && Token(Eq) == "==" && Token(Ne) == "!=" && Token(Lt) == "<"
        && Token(Gt) == ">" && Token(Le) == "<=" && Token(Ge) == ">=" && Token(Add) == "+" && Token(Sub) == "-"
        && Token(Mul) == "*" && Token(Div) == "/" && Token(Mod) == "%";
  }

  /** How tightly operators bind. */
  function Tightness(op: Op): nat {
    if op in [Mul, Div, Mod] then 6
    else if op in [Add, Sub] then 5
    else if op in [Lt, Le, Gt, Ge] then 4
    else if op in [Eq, Ne] then 3
    else if op == And then 2
    else 1
  }

  lemma TighterIsHigher(op: Op)
    ensures Tightness(op) == LevelOf(op) + 1
  {
  }

  /** Between three names the tighter operator takes the middle one, and of two that bind alike the first. */
  lemma Precedence(a: string, first: Op, b: string, second: Op, c: string)
    requires IsName(a) && IsName(b) && IsName(c)
    ensures TreeOf(a + Token(first) + b + Token(second) + c)
         == Some(if Tightness(first) >= Tightness(second)
                 then Binary(second, Binary(first, Input(a), Input(b)), Input(c))
                 else Binary(first, Input(a), Binary(second, Input(b), Input(c))))
  {
    hide TreeOf, PrintAt, Token, LevelOf, IsIdentifier, Tightness;
    assert WellFormed(Input(a)) && WellFormed(Input(b)) && WellFormed(Input(c));
    TighterIsHigher(first);
    TighterIsHigher(second);
    forall p: nat, name: string
      ensures PrintAt(Input(name), p) == name
    {
      InputText(name, p);
    }
    if Tightness(first) >= Tightness(second) {
      var left := Binary(first, Input(a), Input(b));
      assert WellFormed(left) && WellFormed(Binary(second, left, Input(c)));
      BinaryPrinted(first, Input(a), Input(b), LevelOf(second));
      BinaryPrinted(second, left, Input(c), 0);
      TreeOfPrinted(Binary(second, left, Input(c)));
    } else {
      var right := Binary(second, Input(b), Input(c));
      assert WellFormed(right) && WellFormed(Binary(first, Input(a), right));
      BinaryPrinted(second, Input(b), Input(c), LevelOf(first) + 1);
      BinaryPrinted(first, Input(a), right, 0);
      assert a + Token(first) + (b + Token(second) + c) == a + Token(first) + b + Token(second) + c;
      TreeOfPrinted(Binary(first, Input(a), right));
    }
  }

  // ----- a rule -----

  /** The sum of two inputs if both are valid, and null otherwise. */
  function SumOfValid(a: string, b: string): Expr {
    Call("if", [Binary(And, Probe("valid", a), Probe("valid", b)), Binary(Add, Input(a), Input(b)), NullConstant])
  }

  function RuleText(a: string, b: string): string {
    "if(" + ("valid(" + a + ")" + "&&" + ("valid(" + b + ")")) + "," + (a + "+" + b) + ",null)"
  }

  lemma RuleArguments(a: string, b: string)
    ensures var args := SumOfValid(a, b).args;
            && PrintAt(args[0], 0) == "valid(" + a + ")" + "&&" + ("valid(" + b + ")")
            && PrintAt(args[1], 0) == a + "+" + b && PrintAt(args[2], 0) == "null"
  {
    InputText(a, 4);
    InputText(b, 5);
    ProbeText(a, 1);
    ProbeText(b, 2);
    hide PrintAt;
    BinaryPrinted(Add, Input(a), Input(b), 0);
    BinaryPrinted(And, Probe("valid", a), Probe("valid", b), 0);
    NullText();
  }

  lemma ProbeText(name: string, p: nat)
    ensures PrintAt(Probe("valid", name), p) == "valid(" + name + ")"
  {
    assert PrintBare(Probe("valid", name)) == "valid" + "(" + name + ")";
  }

  lemma NullText()
    ensures PrintAt(NullConstant, 0) == "null"
  {
    assert PrintBare(NullConstant) == "null";
  }

  lemma CallPrinted(name: string, args: seq<Expr>)
    ensures PrintExpression(Call(name, args)) == name + "(" + PrintArguments(args)
  {
    hide PrintArguments;
    assert PrintBare(Call(name, args)) == name + "(" + PrintArguments(args);
  }

  lemma RulePrinted(a: string, b: string)
    ensures PrintExpression(SumOfValid(a, b)) == RuleText(a, b)
  {
    hide PrintAt, PrintExpression, PrintArguments;
    var args := SumOfValid(a, b).args;
    RuleArguments(a, b);
    PrintedThree(args[0], args[1], args[2]);
    assert args == [args[0], args[1], args[2]];
    CallPrinted("if", args);
    Regrouped(PrintAt(args[0], 0), PrintAt(args[1], 0));
  }

  lemma Regrouped(s: string, t: string)
    ensures "if" + "(" + (s + "," + t + "," + "null" + ")") == "if(" + s + "," + t + ",null)"
  {
    assert "if" + "(" == "if(" && "," + "null" + ")" == ",null)";
  }

  lemma RuleIsWellFormed(a: string, b: string)
    requires IsName(a) && IsName(b)
    ensures WellFormed(SumOfValid(a, b))
  {
    hide IsIdentifier;
    var args := SumOfValid(a, b).args;
    assert IsIdentifier("if") by {
      IfIsIdentifier();
    }
    assert WellFormed(args[0]) && WellFormed(args[1]) && WellFormed(args[2]);
    assert args[1..][0] == args[1] && args[1..][1..] == [args[2]] && [args[2]][1..] == [];
    assert AllWellFormed([args[2]]);
    assert AllWellFormed(args[1..]);
  }

  lemma IfIsIdentifier()
    ensures IsIdentifier("if")
  {
  }

  lemma PrintedThree(a: Expr, b: Expr, c: Expr)
    ensures PrintArguments([a, b, c]) == PrintAt(a, 0) + "," + PrintAt(b, 0) + "," + PrintAt(c, 0) + ")"
  {
    hide PrintAt;
    assert [a, b, c][1..] == [b, c] && [b, c][1..] == [c];
    assert PrintArguments([c]) == PrintAt(c, 0) + ")";
    assert PrintArguments([b, c]) == PrintAt(b, 0) + "," + PrintArguments([c]);
    assert PrintArguments([a, b, c]) == PrintAt(a, 0) + "," + PrintArguments([b, c]);
  }

  lemma SumOfValidValue(env: Env, a: string, b: string)
    ensures var known := a in env.inputs && env.inputs[a].valid && b in env.inputs && env.inputs[b].valid;
            Eval(env, SumOfValid(a, b)) == Ok(if known then Number(env.inputs[a].value + env.inputs[b].value) else Null)
  {
    var x, y, va, vb := Input(a), Input(b), Probe("valid", a), Probe("valid", b);
    InputLaws(env, a);
    InputLaws(env, b);
    LeafValues(env, a);
    LeafValues(env, b);
    hide Eval, Lookup;
    LogicLaws(env, va, vb);
    NullLaws(env, Add, x, y);
    IfLaws(env, Binary(And, va, vb), Binary(Add, x, y), NullConstant);
    if Eval(env, x).value.Number? && Eval(env, y).value.Number? {
      Arithmetic(env, x, y, Eval(env, x).value.number, Eval(env, y).value.number);
    }
  }

  /** The text `if(valid(a)&&valid(b),a+b,null)` evaluates to it, for all inputs. */
  lemma SumOfValidInputs(env: Env, a: string, b: string)
    requires IsName(a) && IsName(b)
    ensures var known := a in env.inputs && env.inputs[a].valid && b in env.inputs && env.inputs[b].valid;
            ParseExpression(env, RuleText(a, b))
            == Ok(if known then Number(env.inputs[a].value + env.inputs[b].value) else Null)
  {
    hide Eval, ParseExpression, PrintExpression, IsName, SumOfValid;
    SumOfValidValue(env, a, b);
    RuleIsWellFormed(a, b);
    RulePrinted(a, b);
    ParsePrinted(env, SumOfValid(a, b));
  }
}
