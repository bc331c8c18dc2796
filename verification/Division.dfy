/** The compiler's 64-bit division helpers: restoring division, one bit at a time. */
module Division {

  const TWO64: nat := 0x1_0000_0000_0000_0000

  function Pow2(n: nat): (p: nat)
    ensures p >= 1
  {
    if n == 0 then 1 else 2 * Pow2(n - 1)
  }

  /** `x << 1` in 64 bits. */
  function ShiftLeft(x: nat): nat {
    2 * x % TWO64
  }

  /** `(x >> i) & 1`. */
  function BitAt(x: nat, i: nat): (b: nat)
    ensures b <= 1
  {
    x / Pow2(i) % 2
  }

  /** `x | (1 << i)`. */
  function WithBit(x: nat, i: nat): nat {
    if BitAt(x, i) == 1 then x else x + Pow2(i)
  }

  lemma {:induction false} MulAtLeast(e: nat, d: nat)
    requires e >= 1
    ensures e * d >= d
  {
    if e > 1 {
      MulAtLeast(e - 1, d);
      assert e * d == (e - 1) * d + d;
    }
  }

  /** Quotient and remainder are unique. */
  lemma QuotientUnique(d: nat, a: nat, b: nat, q: nat, r: nat)
    requires a * d + b == q * d + r && b < d && r < d
    ensures a == q && b == r
  {
    assert (a - q) * d == a * d - q * d;
    assert (q - a) * d == q * d - a * d;
    if a > q {
      MulAtLeast(a - q, d);
    } else if q > a {
      MulAtLeast(q - a, d);
    }
  }

  lemma DivUnique(n: nat, d: nat, q: nat, r: nat)
    requires d > 0 && n == q * d + r && r < d
    ensures q == n / d && r == n % d
  {
    assert n == n / d * d + n % d;
    QuotientUnique(d, n / d, n % d, q, r);
  }

  lemma DivAtMost(n: nat, d: nat)
    requires d > 0
    ensures n / d <= n
  {
    if n / d > 0 {
      MulAtLeast(d, n / d);
      assert n == n / d * d + n % d;
    }
  }

  /** Shifting right by one place more halves. */
  lemma HalfStep(n: nat, i: nat)
    ensures n / Pow2(i) == 2 * (n / Pow2(i + 1)) + BitAt(n, i)
  {
    var p, a := Pow2(i), n / Pow2(i);
    var b, c := a / 2, a % 2;
    var r := n % p;
    assert n == a * p + r;
    assert a * p == b * (2 * p) + c * p;
    DivUnique(n, 2 * p, b, c * p + r);
  }

  lemma {:induction false} TopBitsZero(n: nat, k: nat)
    requires n < Pow2(k)
    ensures n / Pow2(k) == 0
  {
    DivUnique(n, Pow2(k), 0, n);
  }

  lemma Pow64()
    ensures Pow2(64) == TWO64
  {
    Pow32();
    PowAdd(32, 32);
  }

  lemma Pow32()
    ensures Pow2(32) == 0x1_0000_0000
  {
    assert Pow2(8) == 256;
    PowAdd(8, 8);
    PowAdd(16, 16);
  }

  lemma {:induction false} PowAdd(a: nat, b: nat)
    ensures Pow2(a + b) == Pow2(a) * Pow2(b)
  {
    if a > 0 {
      PowAdd(a - 1, b);
      assert Pow2(a + b) == 2 * Pow2(a - 1 + b);
    }
  }

  /** The state of the loop when bits 63 down to `i` of the dividend have been brought down:
      their value is `quotient * d + r`, the quotient so far standing `i` places up. */
  ghost predicate Partial(n: nat, d: nat, i: nat, top: nat, q: nat, r: nat) {
    n / Pow2(i) == top * d + r && r < d && q == top * Pow2(i)
  }

  /** Bringing down one more bit: nothing is lost by the 64-bit shift, whatever the divisor. */
  lemma BringDown(n: nat, d: nat, i: nat, top: nat, q: nat, r: nat)
    requires n < TWO64 && 0 < d && Partial(n, d, i + 1, top, q, r)
    ensures ShiftLeft(r) + BitAt(n, i) == 2 * r + BitAt(n, i) < TWO64
    ensures n / Pow2(i) == 2 * top * d + (2 * r + BitAt(n, i))
    ensures q == 2 * top * Pow2(i) && BitAt(q, i) == 0
  {
    HalfStep(n, i);
    DivAtMost(n, Pow2(i));
    Regroup(top, d);
    Regroup(top, Pow2(i));
    assert q == top * (2 * Pow2(i));
    DivUnique(q, Pow2(i), 2 * top, 0);
  }

  lemma Regroup(a: nat, b: nat)
    ensures 2 * (a * b) == 2 * a * b == a * (2 * b) && a * b >= 0
  {
  }

  /** One bit of restoring division. */
  lemma Restore(n: nat, d: nat, i: nat, top: nat, q: nat, r: nat)
    requires n < TWO64 && 0 < d && Partial(n, d, i + 1, top, q, r)
    ensures var down := 2 * r + BitAt(n, i);
            if down >= d then Partial(n, d, i, 2 * top + 1, q + Pow2(i), down - d)
            else Partial(n, d, i, 2 * top, q, down)
  {
    BringDown(n, d, i, top, q, r);
    assert (2 * top + 1) * d == 2 * top * d + d;
    assert (2 * top + 1) * Pow2(i) == 2 * top * Pow2(i) + Pow2(i);
  }

  /** `__udivdi3`.  A zero divisor makes the original loop for ever. */
  method UDivDi3(dividend: nat, divisor: nat) returns (quotient: nat)
    requires dividend < TWO64 && 0 < divisor < TWO64
    ensures quotient == dividend / divisor
  {
    if dividend < divisor {
      DivUnique(dividend, divisor, 0, dividend);
      return 0;
    }
    quotient := 0;
    var remainder := 0;
    ghost var top := 0;
    Pow64();
    TopBitsZero(dividend, 64);
    var i := 63;
    while i >= 0
      invariant -1 <= i <= 63
      invariant 0 <= remainder && 0 <= top
      invariant Partial(dividend, divisor, i + 1, top, quotient, remainder)
      decreases i
    {
      BringDown(dividend, divisor, i, top, quotient, remainder);
      Restore(dividend, divisor, i, top, quotient, remainder);
      remainder := ShiftLeft(remainder) + BitAt(dividend, i);
      if remainder >= divisor {
        remainder := remainder - divisor;
        quotient := WithBit(quotient, i);
        top := 2 * top + 1;
      } else {
        top := 2 * top;
      }
      i := i - 1;
    }
    DivUnique(dividend, divisor, quotient, remainder);
  }

  /** `__umoddi3`. */
  method UModDi3(dividend: nat, divisor: nat) returns (remainder: nat)
    requires dividend < TWO64 && 0 < divisor < TWO64
    ensures remainder == dividend % divisor
  {
    if dividend < divisor {
      DivUnique(dividend, divisor, 0, dividend);
      return dividend;
    }
    remainder := 0;
    ghost var top, quotient := 0, 0;
    Pow64();
    TopBitsZero(dividend, 64);
    var i := 63;
    while i >= 0
      invariant -1 <= i <= 63
      invariant 0 <= quotient && 0 <= top
      invariant Partial(dividend, divisor, i + 1, top, quotient, remainder)
      decreases i
    {
      BringDown(dividend, divisor, i, top, quotient, remainder);
      Restore(dividend, divisor, i, top, quotient, remainder);
      remainder := ShiftLeft(remainder) + BitAt(dividend, i);
      if remainder >= divisor {
        remainder := remainder - divisor;
        quotient, top := quotient + Pow2(i), 2 * top + 1;
      } else {
        top := 2 * top;
      }
      i := i - 1;
    }
    DivUnique(dividend, divisor, quotient, remainder);
  }
}
