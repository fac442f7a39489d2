/** The pure limits of the power controller: clamping, rate limiting, capability and derating, and
    the apparent-power envelope over active power P and reactive power Q. */
module PowerLimits {
  import opened Reals

  /** The mathematical library the controller calls. Only the square root's defining property is
      used; the tangent of the power-factor angle stays arbitrary. */
  datatype Libm = Libm(sqrt: real -> real, tanAcos: real -> real) {
    ghost predicate Valid() {
      forall x :: 0.0 <= x ==> IsRoot(sqrt(x), x)
    }
  }

  ghost predicate IsRoot(r: real, x: real) {
    0.0 <= r && Square(r) == x
  }

  function ClampValue(value: real, low: real, high: real): (r: real)
    ensures Min(low, high) <= r <= Max(low, high)
    ensures Min(low, high) <= value <= Max(low, high) ==> r == value
  {
    if low > high then Max(high, Min(value, low)) else Max(low, Min(value, high))
  }

  function PositiveLimit(primary: real, fallback: real): (r: real)
    ensures 0.0 <= r
  {
    if primary > 0.0 then primary else Max(0.0, fallback)
  }

  function RampOver(rate: real, seconds: real): real {
    rate * seconds
  }

  lemma RampMonotone(x: real, y: real, dtSec: real)
    requires x <= y && dtSec > 0.0
    ensures RampOver(x, dtSec) <= RampOver(y, dtSec) && RampOver(0.0, dtSec) == 0.0
  {
    assert (y - x) * dtSec >= 0.0;
  }

  /** The ramps cover the distance in the time. */
  predicate Reachable(previous: real, requested: real, risePerSec: real, fallPerSec: real, dtSec: real) {
    previous - RampOver(Max(0.0, fallPerSec), dtSec) <= requested <= previous + RampOver(Max(0.0, risePerSec), dtSec)
  }

  /** Moves from `previous` towards `requested`, never past it, by at most rate times time. */
  function RateLimit(previous: real, requested: real, risePerSec: real, fallPerSec: real, dtSec: real): (r: real)
    ensures Min(previous, requested) <= r <= Max(previous, requested)
    ensures dtSec > 0.0 ==>
              previous - RampOver(Max(0.0, fallPerSec), dtSec) <= r <= previous + RampOver(Max(0.0, risePerSec), dtSec)
    ensures dtSec > 0.0 && Reachable(previous, requested, risePerSec, fallPerSec, dtSec) ==> r == requested
    ensures dtSec <= 0.0 ==> r == requested
  {
    if dtSec <= 0.0 then requested
    else
      RampMonotone(0.0, Max(0.0, risePerSec), dtSec);
      RampMonotone(0.0, Max(0.0, fallPerSec), dtSec);
      var up := Max(0.0, risePerSec) * dtSec;
      var down := Max(0.0, fallPerSec) * dtSec;
      if requested > previous then Min(requested, previous + up)
      else Max(requested, previous - down)
  }

  datatype CapabilityConfig = CapabilityConfig(commissionedLimit: real, hasSourcePoint: bool, combinePolicy: string)

  /** The rating in force: never above the commissioned limit, unless the policy is "source" or
      nothing was commissioned. */
  function EffectiveCapability(config: CapabilityConfig, collected: real, hasCollected: bool): (r: real)
    ensures 0.0 <= r
    ensures config.combinePolicy != "source" && config.commissionedLimit > 0.0 ==> 0.0 < r <= config.commissionedLimit
    ensures !(config.hasSourcePoint && hasCollected && collected > 0.0) ==> r == Max(0.0, config.commissionedLimit)
    ensures config.hasSourcePoint && hasCollected && collected > 0.0 ==>
              r in {config.commissionedLimit, collected} && 0.0 < r <= collected
              && (config.combinePolicy == "source" ==> r == collected)
  {
    var commissioned := Max(0.0, config.commissionedLimit);
    if !config.hasSourcePoint || !hasCollected || collected <= 0.0 then commissioned
    else if config.combinePolicy == "source" then collected
    else if commissioned <= 0.0 then collected
    else Min(commissioned, collected)
  }

  /** From nothing at `stop` and below to everything at `full` and above. */
  function RisingDerateFactor(value: real, stop: real, full: real): (r: real)
    ensures 0.0 <= r <= 1.0
    ensures full <= stop ==> r == 1.0
    ensures stop < full ==> (r == 0.0 <==> value <= stop) && (r == 1.0 <==> value >= full)
  {
    if full <= stop then 1.0
    else
      QuotientOrder(value - stop, full - stop);
      ClampValue((value - stop) / (full - stop), 0.0, 1.0)
  }

  /** From everything at `full` and below to nothing at `stop` and above. */
  function FallingDerateFactor(value: real, full: real, stop: real): (r: real)
    ensures 0.0 <= r <= 1.0
    ensures stop <= full ==> r == 1.0
    ensures full < stop ==> (r == 1.0 <==> value <= full) && (r == 0.0 <==> value >= stop)
  {
    if stop <= full then 1.0
    else
      QuotientOrder(stop - value, stop - full);
      ClampValue((stop - value) / (stop - full), 0.0, 1.0)
  }

  lemma QuotientOrder(x: real, y: real)
    requires y > 0.0
    ensures x / y <= 0.0 <==> x <= 0.0
    ensures x / y >= 1.0 <==> x >= y
  {
    var q := x / y;
    assert x == q * y;
    if q <= 0.0 {
      assert -q * y >= 0.0;
    } else {
      assert q * y > 0.0;
    }
    if q >= 1.0 {
      assert (q - 1.0) * y >= 0.0;
    } else {
      assert (1.0 - q) * y > 0.0;
    }
  }

  /** The factors never fall, or never rise, with the value. */
  lemma DeratesMonotone(x: real, y: real, low: real, high: real)
    requires x <= y
    ensures RisingDerateFactor(x, low, high) <= RisingDerateFactor(y, low, high)
    ensures FallingDerateFactor(x, low, high) >= FallingDerateFactor(y, low, high)
  {
    if low < high {
      QuotientMonotone(x - low, y - low, high - low);
      QuotientMonotone(high - y, high - x, high - low);
    }
  }

  /** Between the ends they change in proportion. */
  lemma DeratesProportional(x: real, low: real, high: real)
    requires low <= x <= high && low < high
    ensures RampOver(RisingDerateFactor(x, low, high), high - low) == x - low
    ensures RampOver(FallingDerateFactor(x, low, high), high - low) == high - x
  {
    QuotientOrder(x - low, high - low);
    QuotientOrder(high - x, high - low);
    assert (x - low) / (high - low) * (high - low) == x - low;
    assert (high - x) / (high - low) * (high - low) == high - x;
  }

  lemma QuotientMonotone(a: real, b: real, y: real)
    requires y > 0.0 && a <= b
    ensures a / y <= b / y
  {
    var p, q := a / y, b / y;
    assert a == p * y && b == q * y;
    assert (q - p) * y == b - a;
    assert p > q ==> (p - q) * y > 0.0;
  }

  /** `copysign` on reals: a zero counts as positive. */
  function CopySign(magnitude: real, sign: real): (r: real)
    ensures Abs(r) == Abs(magnitude)
  {
    if sign < 0.0 then -Abs(magnitude) else Abs(magnitude)
  }

  datatype Power = Power(p: real, q: real)

  function Square(x: real): real {
    x * x
  }

  /** The disc of the apparent-power rating, with the code's tolerance on the square. */
  predicate InDisc(power: Power, s: real) {
    Square(power.p) + Square(power.q) <= Square(s) + TOLERANCE
  }

  function Scaled(power: Power, scale: real): Power {
    Power(power.p * scale, power.q * scale)
  }

  function ApplyPqEnvelope(libm: Libm, power: Power, s: real, priority: string): (r: Power) {
    var p, q := power.p, power.q;
    if s <= 0.0 || InDisc(power, s) then power
    else if priority == "reactivePowerFirst" then
      var q' := ClampValue(q, -s, s);
      Power(CopySign(libm.sqrt(Max(0.0, Square(s) - Square(q'))), p), q')
    else if priority == "proportional" then
      var magnitude := libm.sqrt(Square(p) + Square(q));
      if magnitude > TOLERANCE then Scaled(power, s / magnitude) else power
    else
      var p' := ClampValue(p, -s, s);
      Power(p', CopySign(libm.sqrt(Max(0.0, Square(s) - Square(p'))), q))
  }

  /** `r` is `x` brought towards zero: no larger, and of the same sign or zero. */
  predicate Shrunk(x: real, r: real) {
    if x < 0.0 then x <= r <= 0.0 else 0.0 <= r <= x
  }

  lemma SquareMonotone(x: real, y: real)
    requires Abs(x) <= Abs(y)
    ensures Square(x) <= Square(y)
  {
  }

  lemma PositiveProduct(x: real, y: real)
    requires 0.0 < x && 0.0 < y
    ensures 0.0 < x * y
  {
  }

  lemma RootOfZero(r: real)
    requires IsRoot(r, 0.0)
    ensures r == 0.0
  {
    SquareOrder(r, 0.0);
  }

  lemma SquareOrder(x: real, y: real)
    requires Square(x) <= Square(y)
    ensures Abs(x) <= Abs(y)
  {
    if Abs(x) > Abs(y) {
      PositiveProduct(Abs(x) - Abs(y), Abs(x) + Abs(y));
    }
  }

  /** The clipped branch: one coordinate clamped to the radius, the other put on the circle. */
  lemma ClippedToCircle(libm: Libm, x: real, y: real, s: real)
    requires libm.Valid() && s > 0.0 && Square(x) + Square(y) > Square(s)
    ensures var x' := ClampValue(x, -s, s);
            var y' := CopySign(libm.sqrt(Max(0.0, Square(s) - Square(x'))), y);
            Square(x') + Square(y') == Square(s) && Shrunk(x, x') && Shrunk(y, y')
  {
    var x' := ClampValue(x, -s, s);
    var rest := Square(s) - Square(x');
    SquareMonotone(x', s);
    var root := libm.sqrt(Max(0.0, rest));
    assert IsRoot(root, rest);
    var y' := CopySign(root, y);
    assert Square(y') == rest;
    if x' == x {
      SquareOrder(y', y);
    } else {
      assert rest == 0.0;
      RootOfZero(root);
    }
  }

  lemma ScaledToCircle(power: Power, s: real, magnitude: real)
    requires s > 0.0 && IsRoot(magnitude, Square(power.p) + Square(power.q)) && !InDisc(power, s)
    ensures magnitude > TOLERANCE
    ensures var r := Scaled(power, s / magnitude);
            Square(r.p) + Square(r.q) == Square(s) && Shrunk(power.p, r.p) && Shrunk(power.q, r.q)
  {
    var p, q := power.p, power.q;
    assert Square(magnitude) == Square(p) + Square(q);
    SquaresNonNegative(p, q);
    if magnitude <= TOLERANCE {
      SquareMonotone(magnitude, TOLERANCE);
    }
    SquareOrder(s, magnitude);
    ScaleOf(s, magnitude);
    var scale := s / magnitude;
    ScaleShrinks(p, scale);
    ScaleShrinks(q, scale);
    ScaledSquares(p, q, scale, magnitude);
  }

  lemma SquaresNonNegative(p: real, q: real)
    ensures 0.0 <= Square(p) && 0.0 <= Square(q)
  {
  }

  lemma ScaleOf(s: real, magnitude: real)
    requires 0.0 < s <= magnitude
    ensures 0.0 < s / magnitude <= 1.0 && (s / magnitude) * magnitude == s
  {
  }

  lemma ScaledSquares(p: real, q: real, scale: real, magnitude: real)
    requires Square(magnitude) == Square(p) + Square(q)
    ensures Square(p * scale) + Square(q * scale) == Square(scale * magnitude)
  {
    assert Square(p * scale) == Square(p) * Square(scale);
    assert Square(q * scale) == Square(q) * Square(scale);
    assert Square(scale * magnitude) == Square(magnitude) * Square(scale);
  }

  lemma ScaleShrinks(x: real, scale: real)
    requires 0.0 < scale <= 1.0
    ensures Shrunk(x, x * scale)
  {
  }

  /** The envelope never grows |P| or |Q| and never flips a sign; and its result lies in the disc
      exactly when there is a rating or the request lay in the disc already. */
  lemma EnvelopeShrinksIntoDisc(libm: Libm, power: Power, s: real, priority: string)
    requires libm.Valid()
    ensures var r := ApplyPqEnvelope(libm, power, s, priority);
            && Shrunk(power.p, r.p) && Shrunk(power.q, r.q)
            && (InDisc(r, s) <==> s > 0.0 || InDisc(power, s))
            && (InDisc(power, s) ==> r == power)
            && (s > 0.0 && !InDisc(power, s) ==> Square(r.p) + Square(r.q) == Square(s))
  {
    hide Square, IsRoot, ClampValue, CopySign;
    if s > 0.0 && !InDisc(power, s) {
      if priority == "reactivePowerFirst" {
        ClippedToCircle(libm, power.q, power.p, s);
      } else if priority == "proportional" {
        ProportionalOnCircle(libm, power, s);
      } else {
        ClippedToCircle(libm, power.p, power.q, s);
      }
    }
  }

  /** What the priority keeps when the envelope cuts: reactive power within the rating, active power within the rating,
      or the ratio of the two. */
  lemma PriorityKeeps(libm: Libm, power: Power, s: real, priority: string)
    requires s > 0.0
    ensures var r := ApplyPqEnvelope(libm, power, s, priority);
            if priority == "reactivePowerFirst" then Abs(power.q) <= s ==> r.q == power.q
            else if priority == "proportional" then exists k :: r == Scaled(power, k)
            else Abs(power.p) <= s ==> r.p == power.p
  {
    hide Square, CopySign, InDisc;
    assert power == Scaled(power, 1.0);
  }

  lemma ProportionalOnCircle(libm: Libm, power: Power, s: real)
    requires libm.Valid() && s > 0.0 && !InDisc(power, s)
    ensures var r := ApplyPqEnvelope(libm, power, s, "proportional");
            Shrunk(power.p, r.p) && Shrunk(power.q, r.q) && Square(r.p) + Square(r.q) == Square(s)
  {
    hide Square, IsRoot, Scaled;
    var sum := Square(power.p) + Square(power.q);
    SquaresNonNegative(power.p, power.q);
    assert IsRoot(libm.sqrt(sum), sum);
    ScaledToCircle(power, s, libm.sqrt(sum));
  }

  /** A smaller disc lies in a larger one, and shrinking stays inside. */
  lemma DiscMonotone(power: Power, r: Power, s: real, t: real)
    requires InDisc(power, s) && 0.0 <= s <= t
    requires Shrunk(power.p, r.p) && Shrunk(power.q, r.q)
    ensures InDisc(r, t)
  {
    SquareMonotone(s, t);
    SquareMonotone(r.p, power.p);
    SquareMonotone(r.q, power.q);
  }

  lemma RampOverSum(rate: real, s: real, t: real)
    ensures RampOver(rate, s + t) == RampOver(rate, s) + RampOver(rate, t)
    ensures RampOver(rate, 0.0) == 0.0
  {
  }

  /** Rate-limited movement to zero: a shrink, by at least the smaller rate times the time, or all the way. */
  lemma RateLimitToZero(previous: real, risePerSec: real, fallPerSec: real, dtSec: real, rate: real)
    requires dtSec > 0.0 && rate <= risePerSec && rate <= fallPerSec
    ensures var r := RateLimit(previous, 0.0, risePerSec, fallPerSec, dtSec);
            Shrunk(previous, r) && (r == 0.0 || Abs(r) <= Abs(previous) - RampOver(rate, dtSec))
  {
    hide RampOver, RateLimit;
    RampMonotone(rate, Max(0.0, risePerSec), dtSec);
    RampMonotone(rate, Max(0.0, fallPerSec), dtSec);
    RampMonotone(0.0, Max(0.0, risePerSec), dtSec);
    RampMonotone(0.0, Max(0.0, fallPerSec), dtSec);
    RateLimitSteps(previous, risePerSec, fallPerSec, dtSec);
  }

  lemma RateLimitSteps(previous: real, risePerSec: real, fallPerSec: real, dtSec: real)
    requires dtSec > 0.0
    ensures var up, down := RampOver(Max(0.0, risePerSec), dtSec), RampOver(Max(0.0, fallPerSec), dtSec);
            RateLimit(previous, 0.0, risePerSec, fallPerSec, dtSec)
            == if previous < 0.0 then Min(0.0, previous + up) else Max(0.0, previous - down)
  {
  }
}
