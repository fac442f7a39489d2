/** Binary digits of natural numbers: shifting, truncating, setting, and the uniqueness of a number's bits. */
module Bits {
  function Pow2(n: nat): (r: nat)
    ensures r >= 1
  {
    if n == 0 then 1 else 2 * Pow2(n - 1)
  }

  function Bit(x: nat, i: nat): bool
    decreases i
  {
    if i == 0 then x % 2 == 1 else Bit(x / 2, i - 1)
  }

  /** `x >> n` */
  function ShiftRight(x: nat, n: nat): nat
    decreases n
  {
    if n == 0 then x else ShiftRight(x / 2, n - 1)
  }

  /** The low `n` bits of `x`. */
  function Low(x: nat, n: nat): nat
    decreases n
  {
    if n == 0 then 0 else x % 2 + 2 * Low(x / 2, n - 1)
  }

  /** `x` with bit `i` set or cleared, as by an or with the mask or an and with its complement. */
  function WithBit(x: nat, i: nat, v: bool): nat
    decreases i
  {
    if i == 0 then x - x % 2 + (if v then 1 else 0) else x % 2 + 2 * WithBit(x / 2, i - 1, v)
  }

  lemma {:induction false} BitOfShift(x: nat, n: nat, i: nat)
    ensures Bit(ShiftRight(x, n), i) == Bit(x, n + i)
    decreases n
  {
    if n > 0 {
      BitOfShift(x / 2, n - 1, i);
    }
  }

  lemma {:induction false} BitOfLow(x: nat, n: nat, i: nat)
    ensures Bit(Low(x, n), i) == (i < n && Bit(x, i))
    decreases n
  {
    if n == 0 {
      BitOfZero(i);
    } else {
      assert Low(x, n) % 2 == x % 2 && Low(x, n) / 2 == Low(x / 2, n - 1);
      if i > 0 {
        BitOfLow(x / 2, n - 1, i - 1);
      }
    }
  }

  lemma {:induction false} BitOfZero(i: nat)
    ensures !Bit(0, i)
    decreases i
  {
    if i > 0 {
      BitOfZero(i - 1);
    }
  }

  lemma {:induction false} LowBound(x: nat, n: nat)
    ensures Low(x, n) < Pow2(n)
    decreases n
  {
    if n > 0 {
      LowBound(x / 2, n - 1);
    }
  }

  lemma {:induction false} LowIsMod(x: nat, n: nat)
    ensures exists k: nat :: x == Low(x, n) + k * Pow2(n)
    ensures x < Pow2(n) ==> Low(x, n) == x
    decreases n
  {
    if n == 0 {
      assert x == 0 + x * Pow2(0);
    } else {
      LowIsMod(x / 2, n - 1);
      var k: nat :| x / 2 == Low(x / 2, n - 1) + k * Pow2(n - 1);
      assert x == Low(x, n) + k * Pow2(n) by {
        assert k * Pow2(n) == 2 * (k * Pow2(n - 1));
      }
    }
  }

  lemma {:induction false} BitOfWithBit(x: nat, i: nat, v: bool, j: nat)
    ensures Bit(WithBit(x, i, v), j) == if j == i then v else Bit(x, j)
    decreases i
  {
    if i == 0 {
      assert WithBit(x, 0, v) / 2 == x / 2;
    } else {
      assert WithBit(x, i, v) % 2 == x % 2 && WithBit(x, i, v) / 2 == WithBit(x / 2, i - 1, v);
      if j > 0 {
        BitOfWithBit(x / 2, i - 1, v, j - 1);
      }
    }
  }

  lemma {:induction false} WithBitBound(x: nat, i: nat, v: bool, n: nat)
    requires i < n && x < Pow2(n)
    ensures WithBit(x, i, v) < Pow2(n)
    decreases i
  {
    hide Pow2;
    Halves(n);
    if i > 0 {
      WithBitBound(x / 2, i - 1, v, n - 1);
    }
  }

  lemma Halves(n: nat)
    requires n > 0
    ensures Pow2(n) == 2 * Pow2(n - 1)
  {
  }

  /** A number below 2^n is determined by its low n bits. */
  lemma {:induction false} BitsDetermine(x: nat, y: nat, n: nat)
    requires x < Pow2(n) && y < Pow2(n) && forall i :: 0 <= i < n ==> Bit(x, i) == Bit(y, i)
    ensures x == y
    decreases n
  {
    if n > 0 {
      assert Bit(x, 0) == Bit(y, 0);
      forall i | 0 <= i < n - 1
        ensures Bit(x / 2, i) == Bit(y / 2, i)
      {
        assert Bit(x, i + 1) == Bit(y, i + 1);
      }
      BitsDetermine(x / 2, y / 2, n - 1);
    }
  }

  /** Appending `y` below `x`: the bits of `x * 2^n + y`, for `y` below 2^n. */
  lemma {:induction false} BitOfJoin(x: nat, y: nat, n: nat, i: nat)
    requires y < Pow2(n)
    ensures Bit(x * Pow2(n) + y, i) == if i < n then Bit(y, i) else Bit(x, i - n)
    decreases n
  {
    if n == 0 {
      assert x * Pow2(0) + y == x;
    } else {
      var z := x * Pow2(n) + y;
      assert z == 2 * (x * Pow2(n - 1)) + y by {
        assert x * Pow2(n) == 2 * (x * Pow2(n - 1));
      }
      assert z % 2 == y % 2 && z / 2 == x * Pow2(n - 1) + y / 2;
      if i > 0 {
        BitOfJoin(x, y / 2, n - 1, i - 1);
      }
    }
  }

  lemma {:induction false} Pow2Sum(m: nat, n: nat)
    ensures Pow2(m + n) == Pow2(m) * Pow2(n)
    decreases m
  {
    if m > 0 {
      Pow2Sum(m - 1, n);
      assert Pow2(m + n) == 2 * Pow2(m - 1 + n);
    }
  }

  lemma {:induction false} Pow2Monotone(m: nat, n: nat)
    requires m <= n
    ensures Pow2(m) <= Pow2(n)
    decreases n
  {
    if m < n {
      Pow2Monotone(m, n - 1);
    }
  }

  lemma DivisionUnique(x: int, m: int, q: int, r: int)
    requires m > 0 && x == q * m + r && 0 <= r < m
    ensures x / m == q && x % m == r
  {
    var d := x / m - q;
    assert x == m * (x / m) + x % m;
    assert d * m == r - x % m by {
      assert d * m == (x / m) * m - q * m;
    }
    if d > 0 {
      AtLeastOnce(d, m);
    } else if d < 0 {
      AtLeastOnce(-d, m);
    }
  }

  lemma AtLeastOnce(d: int, m: int)
    requires d >= 1 && m > 0
    ensures d * m >= m
  {
    assert (d - 1) * m >= 0;
  }
}
