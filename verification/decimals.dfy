/** Exact decimal numbers as the interpreter uses them (java.math.BigDecimal):
    an unscaled integer and a scale, standing for unscaled * 10^-scale.
    Equality of two numbers is equality of both parts, as for BigDecimal, so
    2.0 and 2.00 are different numbers. */
module Decimals {
  import opened Errors

  datatype Decimal = Decimal(unscaled: int, scale: int)

  function Pow10(k: nat): (p: nat)
    ensures p >= 1
  {
    if k == 0 then 1 else 10 * Pow10(k - 1)
  }

  lemma {:induction false} Pow10Add(a: nat, b: nat)
    ensures Pow10(a + b) == Pow10(a) * Pow10(b)
  {
    if a > 0 {
      Pow10Add(a - 1, b);
    }
  }

  function Max(a: int, b: int): int {
    if a >= b then a else b
  }

  /** The value of `x` counted in units of 10^-s, for a scale `s` at least
      that of `x`: two decimals have the same value exactly when they agree
      at a common scale. */
  function Align(x: Decimal, s: int): int
    requires s >= x.scale
  {
    x.unscaled * Pow10(s - x.scale)
  }

  /** Writing a value at a larger scale multiplies it by a power of ten. */
  lemma AlignShift(x: Decimal, s: int, t: int)
    requires x.scale <= s <= t
    ensures Align(x, t) == Align(x, s) * Pow10(t - s)
  {
    Pow10Add(s - x.scale, t - s);
  }

  const Zero: Decimal := Decimal(0, 0)
  const One: Decimal := Decimal(1, 0)

  /** BigDecimal.add: the exact sum, at the larger of the two scales. */
  function Add(x: Decimal, y: Decimal): (r: Decimal)
    ensures r.scale == Max(x.scale, y.scale)
    ensures forall s :: s >= r.scale ==> Align(r, s) == Align(x, s) + Align(y, s)
  {
    var m := Max(x.scale, y.scale);
    var r := Decimal(Align(x, m) + Align(y, m), m);
    assert forall s :: s >= r.scale ==> Align(r, s) == Align(x, s) + Align(y, s) by {
      forall s | s >= m ensures Align(r, s) == Align(x, s) + Align(y, s) {
        AlignShift(x, m, s);
        AlignShift(y, m, s);
      }
    }
    r
  }

  /** BigDecimal.subtract: the exact difference, at the larger of the two scales. */
  function Subtract(x: Decimal, y: Decimal): (r: Decimal)
    ensures r.scale == Max(x.scale, y.scale)
    ensures forall s :: s >= r.scale ==> Align(r, s) == Align(x, s) - Align(y, s)
  {
    var m := Max(x.scale, y.scale);
    var r := Decimal(Align(x, m) - Align(y, m), m);
    assert forall s :: s >= r.scale ==> Align(r, s) == Align(x, s) - Align(y, s) by {
      forall s | s >= m ensures Align(r, s) == Align(x, s) - Align(y, s) {
        AlignShift(x, m, s);
        AlignShift(y, m, s);
      }
    }
    r
  }

  /** BigDecimal.multiply: the exact product; the scales add. */
  function Multiply(x: Decimal, y: Decimal): (r: Decimal)
    ensures r.scale == x.scale + y.scale
    ensures forall s, t :: s >= x.scale && t >= y.scale ==> Align(r, s + t) == Align(x, s) * Align(y, t)
  {
    var r := Decimal(x.unscaled * y.unscaled, x.scale + y.scale);
    assert forall s, t :: s >= x.scale && t >= y.scale ==> Align(r, s + t) == Align(x, s) * Align(y, t) by {
      forall s, t | s >= x.scale && t >= y.scale
        ensures Align(r, s + t) == Align(x, s) * Align(y, t)
      {
        var a, b := s - x.scale, t - y.scale;
        Pow10Add(a, b);
        calc {
          Align(r, s + t);
          x.unscaled * y.unscaled * Pow10(a + b);
          x.unscaled * y.unscaled * (Pow10(a) * Pow10(b));
          (x.unscaled * Pow10(a)) * (y.unscaled * Pow10(b));
        }
      }
    }
    r
  }

  /** BigDecimal.compareTo(...) >= 1: the first value is strictly larger;
      the scales do not matter. */
  predicate Greater(x: Decimal, y: Decimal) {
    var m := Max(x.scale, y.scale);
    Align(x, m) > Align(y, m)
  }

  lemma MulMonotone(a: int, b: int, p: int)
    requires p >= 1
    ensures a > b <==> a * p > b * p
  {
    if a > b {
      assert a * p - b * p == (a - b) * p;
    } else {
      assert b * p - a * p == (b - a) * p;
    }
  }

  /** Greater compares the values at any common scale. */
  lemma GreaterAtAnyScale(x: Decimal, y: Decimal, s: int)
    requires s >= x.scale && s >= y.scale
    ensures Greater(x, y) <==> Align(x, s) > Align(y, s)
  {
    var m := Max(x.scale, y.scale);
    AlignShift(x, m, s);
    AlignShift(y, m, s);
    MulMonotone(Align(x, m), Align(y, m), Pow10(s - m));
  }

  /** Strictness: no number is greater than itself, and two numbers are
      never greater than each other. */
  lemma GreaterStrict(x: Decimal, y: Decimal)
    ensures !Greater(x, x)
    ensures !(Greater(x, y) && Greater(y, x))
  {
  }

  /** The number of decimal digits the exact quotient may need is searched up
      to a bound; `FirstExact(a, b, k, bound)` is the least `j` in `k..bound`
      with `b` dividing `a * 10^j`. */
  function FirstExact(a: int, b: int, k: nat, bound: nat): (r: Option<nat>)
    requires b != 0
    decreases bound - k
    ensures r.Some? ==> k <= r.value <= bound && (a * Pow10(r.value)) % b == 0
    ensures forall j :: k <= j <= bound && (r.None? || j < r.value) ==> (a * Pow10(j)) % b != 0
  {
    if k > bound then None
    else if (a * Pow10(k)) % b == 0 then Some(k)
    else FirstExact(a, b, k + 1, bound)
  }

  function Abs(n: int): nat {
    if n < 0 then -n else n
  }

  lemma ExactQuotient(n: int, b: int)
    requires b != 0 && n % b == 0
    ensures (n / b) * b == n
  {
  }

  /** BigDecimal.divide without a rounding context: the exact quotient at the
      smallest scale not below the preferred scale (dividend scale minus
      divisor scale); division by zero and quotients without a terminating
      expansion fail. At scale `preferred + k` the quotient is exact exactly
      when the divisor divides `x.unscaled * 10^k`. */
  function Divide(x: Decimal, y: Decimal): (r: Result<Decimal>)
    ensures y.unscaled == 0 <==> r == Err(DivideByZero)
    ensures r.Ok? ==> r.value.scale >= x.scale - y.scale
    ensures r.Ok? ==> r.value.unscaled * y.unscaled == Align(x, r.value.scale + y.scale)
    ensures r.Ok? ==> forall k: nat :: k < r.value.scale - (x.scale - y.scale) ==>
      (x.unscaled * Pow10(k)) % y.unscaled != 0
    ensures r == Err(NonTerminating) ==> forall k: nat :: k <= Abs(y.unscaled) ==>
      (x.unscaled * Pow10(k)) % y.unscaled != 0
  {
    if y.unscaled == 0 then Err(DivideByZero)
    else
      var preferred := x.scale - y.scale;
      match FirstExact(x.unscaled, y.unscaled, 0, Abs(y.unscaled))
      case None => Err(NonTerminating)
      case Some(k) =>
        var n := x.unscaled * Pow10(k);
        ExactQuotient(n, y.unscaled);
        Ok(Decimal(n / y.unscaled, preferred + k))
  }

  /** Integer division rounding toward zero, as the host's integers divide. */
  function TruncQuot(a: int, b: int): int
    requires b != 0
  {
    if (a >= 0) == (b > 0) then Abs(a) / Abs(b) else -(Abs(a) / Abs(b))
  }

  /** The remainder left by TruncQuot: it takes the sign of the dividend. */
  function TruncRem(a: int, b: int): int
    requires b != 0
  {
    if a >= 0 then Abs(a) % Abs(b) else -(Abs(a) % Abs(b))
  }

  lemma DivMod(n: nat, d: nat)
    requires d > 0
    ensures n == (n / d) * d + n % d && 0 <= n % d < d
  {
  }

  lemma SignedParts(a: int, b: int, q: int, r: int)
    requires b != 0 && Abs(a) == q * Abs(b) + r
    ensures a >= 0 && b > 0 ==> a == q * b + r
    ensures a >= 0 && b < 0 ==> a == (-q) * b + r
    ensures a < 0 && b > 0 ==> a == (-q) * b + (-r)
    ensures a < 0 && b < 0 ==> a == q * b + (-r)
  {
    if b > 0 {
      assert q * Abs(b) == q * b == -((-q) * b);
    } else {
      assert q * Abs(b) == (-q) * b == -(q * b);
    }
  }

  lemma TruncDivision(a: int, b: int)
    requires b != 0
    ensures a == TruncQuot(a, b) * b + TruncRem(a, b)
    ensures Abs(TruncRem(a, b)) < Abs(b)
  {
    DivMod(Abs(a), Abs(b));
    SignedParts(a, b, Abs(a) / Abs(b), Abs(a) % Abs(b));
  }

  /** The number of trailing decimal zeros of a positive integer. */
  function TrailingZeros(n: nat): nat
    requires n > 0
  {
    if n % 10 == 0 then 1 + TrailingZeros(n / 10) else 0
  }

  /** `n` with `k` of its trailing zeros removed. */
  function {:induction false} DropZeros(n: nat, k: nat): (d: nat)
    requires n > 0 && k <= TrailingZeros(n)
    ensures d * Pow10(k) == n
  {
    if k == 0 then n
    else
      var d := DropZeros(n / 10, k - 1);
      var p := Pow10(k - 1);
      assert Pow10(k) == 10 * p;
      MulAssoc(d, 10, p);
      MulAssoc(10, d, p);
      d
  }

  /** The whole number of times the divisor goes into `x`, truncated toward
      zero, counting both at their common scale. */
  function IntegralPart(x: Decimal, y: Decimal): int
    requires y.unscaled != 0
  {
    var m := Max(x.scale, y.scale);
    assert Align(y, m) != 0 by {
      assert Pow10(m - y.scale) >= 1;
    }
    TruncQuot(Align(x, m), Align(y, m))
  }

  /** The whole number `t` written at scale `p` or, when it has trailing
      zeros to spare, at the smallest scale not below `p` that still holds
      it exactly; zero stays at `p`. */
  function Whole(t: int, p: int): (q: Decimal)
    ensures q.scale == if t == 0 then p else Max(p, -(TrailingZeros(Abs(t)) as int))
    ensures forall s: nat {:trigger Align(q, s)} :: s >= q.scale ==> Align(q, s) == t * Pow10(s)
  {
    if t == 0 then
      Decimal(0, p)
    else
      var e := Max(p, -(TrailingZeros(Abs(t)) as int));
      if e >= 0 then
        var q := Decimal(t * Pow10(e), e);
        forall s: nat | s >= e
          ensures Align(q, s) == t * Pow10(s)
        {
          ScaleUp(t, e, s);
        }
        q
      else
        var d := DropZeros(Abs(t), -e);
        var q := Decimal(if t < 0 then -(d as int) else d, e);
        forall s: nat | s >= e
          ensures Align(q, s) == t * Pow10(s)
        {
          ScaleDown(q.unscaled, d, t, -e, s);
        }
        q
  }

  lemma ScaleUp(t: int, e: nat, s: nat)
    requires s >= e
    ensures (t * Pow10(e)) * Pow10(s - e) == t * Pow10(s)
  {
    Pow10Add(e, s - e);
    MulAssoc(t, Pow10(e), Pow10(s - e));
  }

  lemma ScaleDown(u: int, d: nat, t: int, k: nat, s: nat)
    requires d * Pow10(k) == Abs(t) && u == (if t < 0 then -(d as int) else d)
    ensures u * Pow10(s + k) == t * Pow10(s)
  {
    Pow10Add(k, s);
    MulAssoc(u, Pow10(k), Pow10(s));
    assert u * Pow10(k) == t;
  }

  lemma MulAssoc(a: int, b: int, c: int)
    ensures (a * b) * c == a * (b * c)
  {
  }

  /** BigDecimal.divideToIntegralValue: the integral part of x / y at the
      preferred scale x.scale - y.scale, less any trailing zeros it can spare. */
  function IntegralQuotient(x: Decimal, y: Decimal): (q: Decimal)
    requires y.unscaled != 0
    ensures q.scale >= x.scale - y.scale
    ensures var t := IntegralPart(x, y);
      q.scale == if t == 0 then x.scale - y.scale else Max(x.scale - y.scale, -(TrailingZeros(Abs(t)) as int))
    ensures forall s: nat {:trigger Align(q, s)} :: s >= q.scale ==> Align(q, s) == IntegralPart(x, y) * Pow10(s)
  {
    Whole(IntegralPart(x, y), x.scale - y.scale)
  }

  /** BigDecimal.remainder: `x` less the integral quotient times the
      divisor, `x.subtract(q.multiply(y))`. Its scale is the larger of the
      dividend's and that of the product; when the divisor is larger in
      magnitude than `x`, the quotient is zero and the remainder is `x` itself. */
  function Remainder(x: Decimal, y: Decimal): (r: Result<Decimal>)
    ensures y.unscaled == 0 <==> r == Err(DivideByZero)
    ensures r.Ok? ==> var m := Max(x.scale, y.scale); var t := IntegralPart(x, y);
      && (t == 0 ==> r.value == x)
      && (t != 0 ==> r.value.scale == Max(x.scale, y.scale - TrailingZeros(Abs(t))))
      && r.value.scale <= m
      && Align(x, m) == t * Align(y, m) + Align(r.value, m)
      && Abs(Align(r.value, m)) < Abs(Align(y, m))
      && (Align(r.value, m) == 0 || (Align(r.value, m) > 0 <==> x.unscaled > 0))
  {
    if y.unscaled == 0 then Err(DivideByZero)
    else
      var m := Max(x.scale, y.scale);
      var t := IntegralPart(x, y);
      WholeTimes(x, y, t);
      AlignSign(x, m);
      AlignSign(y, m);
      var r := Subtract(x, Multiply(IntegralQuotient(x, y), y));
      TruncatedRemainder(Align(x, m), Align(y, m), t, Align(r, m));
      Ok(r)
  }

  /** When the divisor is larger in magnitude, the integral quotient is zero
      and the remainder is the dividend itself, at its own scale. */
  lemma RemainderOfSmaller(x: Decimal, y: Decimal)
    requires y.unscaled != 0
    requires var m := Max(x.scale, y.scale); Abs(Align(x, m)) < Abs(Align(y, m))
    ensures Remainder(x, y) == Ok(x)
  {
    var m := Max(x.scale, y.scale);
    var a, b := Align(x, m), Align(y, m);
    assert Abs(a) / Abs(b) == 0;
    assert IntegralPart(x, y) == 0;
  }

  /** `(mod 5 10.0)` is 5 and `(mod 0.1 0.25)` is 0.1: the dividend comes
      back at its own scale. */
  lemma RemainderExamplesSmaller(x: Decimal, y: Decimal)
    requires (x, y) in {(Decimal(5, 0), Decimal(100, 1)), (Decimal(1, 1), Decimal(25, 2))}
    ensures Remainder(x, y) == Ok(x)
  {
    RemainderOfSmaller(x, y);
  }

  /** `(mod 100 0.5)` is 0: the integral quotient 200 gives up its two
      trailing zeros, so the product and the remainder have scale 0. */
  lemma RemainderExampleStripped(x: Decimal, y: Decimal)
    requires x == Decimal(100, 0) && y == Decimal(5, 1)
    ensures Remainder(x, y) == Ok(Decimal(0, 0))
  {
    assert IntegralPart(x, y) == 200;
    TrailingZerosExamples();
    RemainderIs(x, y, 200, Decimal(0, 0));
  }

  /** `(mod 7 0.5)` is 0.0: with no trailing zeros to spare in the integral
      quotient 14, the larger scale is kept. */
  lemma RemainderExampleKept(x: Decimal, y: Decimal)
    requires x == Decimal(7, 0) && y == Decimal(5, 1)
    ensures Remainder(x, y) == Ok(Decimal(0, 1))
  {
    assert IntegralPart(x, y) == 14 by { TrailingZerosExamples(); }
    RemainderIs(x, y, 14, Decimal(0, 1));
  }

  /** `(mod -7.5 2)` is -1.5: the remainder takes the dividend's sign. */
  lemma RemainderExampleNegative(x: Decimal, y: Decimal)
    requires x == Decimal(-75, 1) && y == Decimal(2, 0)
    ensures Remainder(x, y) == Ok(Decimal(-15, 1))
  {
    assert IntegralPart(x, y) == -3 by { TrailingZerosExamples(); }
    RemainderIs(x, y, -3, Decimal(-15, 1));
  }

  lemma TrailingZerosExamples()
    ensures TrailingZeros(200) == 2 && TrailingZeros(14) == 0 && TrailingZeros(3) == 0
  {
  }

  /** Remainder pinned down by its integral part, scale and value. */
  lemma RemainderIs(x: Decimal, y: Decimal, t: int, r: Decimal)
    requires y.unscaled != 0 && t != 0 && IntegralPart(x, y) == t
    requires r.scale == Max(x.scale, y.scale - TrailingZeros(Abs(t)))
    requires var m := Max(x.scale, y.scale);
      r.scale <= m && Align(x, m) - t * Align(y, m) == Align(r, m)
    ensures Remainder(x, y) == Ok(r)
  {
    var m := Max(x.scale, y.scale);
    var v := Remainder(x, y).value;
    assert v.scale == r.scale;
    assert v.unscaled * Pow10(m - r.scale) == r.unscaled * Pow10(m - r.scale);
    MulCancel(v.unscaled, r.unscaled, Pow10(m - r.scale));
  }

  lemma MulCancel(a: int, b: int, p: int)
    requires p >= 1 && a * p == b * p
    ensures a == b
  {
    MulMonotone(a, b, p);
    MulMonotone(b, a, p);
  }

  /** Writing a number at a larger scale keeps its sign. */
  lemma AlignSign(x: Decimal, s: int)
    requires s >= x.scale
    ensures Align(x, s) > 0 <==> x.unscaled > 0
    ensures Align(x, s) == 0 <==> x.unscaled == 0
  {
    assert Pow10(s - x.scale) >= 1;
    MulMonotone(x.unscaled, 0, Pow10(s - x.scale));
    MulMonotone(0, x.unscaled, Pow10(s - x.scale));
  }

  /** What is left of `a` after taking away `b` as many whole times as the
      truncated quotient says is smaller than `b` and has the sign of `a`. */
  lemma TruncatedRemainder(a: int, b: int, t: int, rest: int)
    requires b != 0 && t == TruncQuot(a, b) && rest == a - t * b
    ensures Abs(rest) < Abs(b)
    ensures rest == 0 || (rest > 0 <==> a > 0)
  {
    TruncDivision(a, b);
  }

  /** Taking `t` whole times the divisor away from `x`, with `t` written as
      divideToIntegralValue writes it: the value at the common scale is
      `x - t * y`, and the scale is the dividend's, or the divisor's less the
      trailing zeros `t` can spare when that is larger. */
  lemma WholeTimes(x: Decimal, y: Decimal, t: int)
    ensures var m := Max(x.scale, y.scale);
      var r := Subtract(x, Multiply(Whole(t, x.scale - y.scale), y));
      && r.scale <= m
      && Align(r, m) == Align(x, m) - t * Align(y, m)
      && (t == 0 ==> r == x)
      && (t != 0 ==> r.scale == Max(x.scale, y.scale - TrailingZeros(Abs(t))))
  {
    var m := Max(x.scale, y.scale);
    var q := Whole(t, x.scale - y.scale);
    ProductAt(q, y, t, m);
    WholeTimesScale(x, y, t);
    if t == 0 {
      assert Multiply(q, y) == Decimal(0, x.scale);
      assert Align(x, x.scale) == x.unscaled;
    }
  }

  lemma WholeTimesScale(x: Decimal, y: Decimal, t: int)
    ensures var r := Subtract(x, Multiply(Whole(t, x.scale - y.scale), y));
      && r.scale <= Max(x.scale, y.scale)
      && (t == 0 ==> r.scale == x.scale)
      && (t != 0 ==> r.scale == Max(x.scale, y.scale - TrailingZeros(Abs(t))))
  {
    if t != 0 {
      MaxShift(x.scale, y.scale, TrailingZeros(Abs(t)));
    }
  }

  lemma MaxShift(a: int, b: int, z: nat)
    ensures Max(a, Max(a - b, -(z as int)) + b) == Max(a, b - z)
  {
  }

  /** A decimal worth the whole number `t`, times `y`, is worth `t` times `y`
      at any scale where both can be written. */
  lemma ProductAt(q: Decimal, y: Decimal, t: int, m: int)
    requires m >= y.scale && m - y.scale >= q.scale
    requires forall s: nat {:trigger Align(q, s)} :: s >= q.scale ==> Align(q, s) == t * Pow10(s)
    ensures Multiply(q, y).scale <= m
    ensures Align(Multiply(q, y), m) == t * Align(y, m)
  {
    var k: nat := m - y.scale;
    var p := Pow10(k - q.scale);
    assert Align(Multiply(q, y), m) == (q.unscaled * y.unscaled) * p;
    assert Align(q, k) == t * Pow10(k);
    assert q.unscaled * p == t * Pow10(k);
    calc {
      (q.unscaled * y.unscaled) * p;
      { MulAssoc(y.unscaled, q.unscaled, p); }
      y.unscaled * (q.unscaled * p);
      y.unscaled * (t * Pow10(k));
      { MulAssoc(t, y.unscaled, Pow10(k)); MulAssoc(y.unscaled, t, Pow10(k)); }
      t * (y.unscaled * Pow10(k));
    }
  }

  // Reading and writing numbers

  predicate IsDigit(c: char) {
    '0' <= c <= '9'
  }

  predicate AllDigits(s: string) {
    forall i :: 0 <= i < |s| ==> IsDigit(s[i])
  }

  /** The number a string of decimal digits stands for, most significant first. */
  function DigitsValue(s: string): nat {
    if s == [] then 0
    else DigitsValue(s[..|s| - 1]) * 10 + (if IsDigit(s[|s| - 1]) then s[|s| - 1] as int - '0' as int else 0)
  }

  function DigitChar(d: nat): (c: char)
    requires d < 10
    ensures IsDigit(c) && c as int - '0' as int == d
  {
    ('0' as int + d) as char
  }

  /** The shortest decimal digit string of `n` ("0" for zero). */
  function NatDigits(n: nat): (s: string)
    ensures |s| >= 1 && AllDigits(s)
  {
    if n < 10 then [DigitChar(n)] else NatDigits(n / 10) + [DigitChar(n % 10)]
  }

  lemma {:induction false} NatDigitsValue(n: nat)
    ensures DigitsValue(NatDigits(n)) == n
  {
    if n >= 10 {
      NatDigitsValue(n / 10);
      var s := NatDigits(n);
      assert s[..|s| - 1] == NatDigits(n / 10);
    } else {
      assert NatDigits(n)[..0] == [];
    }
  }

  function Zeros(k: nat): (s: string)
    ensures |s| == k && AllDigits(s)
    ensures forall i :: 0 <= i < k ==> s[i] == '0'
  {
    if k == 0 then [] else Zeros(k - 1) + ['0']
  }

  lemma {:induction false} ZerosValue(k: nat)
    ensures DigitsValue(Zeros(k)) == 0
  {
    if k > 0 {
      ZerosValue(k - 1);
      assert Zeros(k)[..k - 1] == Zeros(k - 1);
    }
  }

  /** Leading zeros do not change the value of a digit string. */
  lemma {:induction false} LeadingZeros(k: nat, s: string)
    ensures DigitsValue(Zeros(k) + s) == DigitsValue(s)
    decreases |s|
  {
    if s == [] {
      assert Zeros(k) + s == Zeros(k);
      ZerosValue(k);
    } else {
      var t := Zeros(k) + s;
      assert t[..|t| - 1] == Zeros(k) + s[..|s| - 1];
      assert t[|t| - 1] == s[|s| - 1];
      LeadingZeros(k, s[..|s| - 1]);
    }
  }

  /** Index of the first occurrence of `a` or `b` in `s`, or |s| if neither occurs. */
  lemma DigitsAppend(a: string, b: string)
    requires AllDigits(a) && AllDigits(b)
    ensures AllDigits(a + b)
  {
    forall j | 0 <= j < |a + b| ensures IsDigit((a + b)[j]) {
      if j >= |a| {
        assert (a + b)[j] == b[j - |a|];
      }
    }
  }

  function Find(s: string, a: char, b: char): (i: nat)
    ensures i <= |s|
    ensures i < |s| ==> s[i] == a || s[i] == b
  {
    if s == [] then 0
    else if s[0] == a || s[0] == b then 0
    else 1 + Find(s[1..], a, b)
  }

  /** Find reports the first occurrence: neither character occurs before it. */
  lemma {:induction false} FindFirst(s: string, a: char, b: char)
    ensures forall j :: 0 <= j < Find(s, a, b) ==> s[j] != a && s[j] != b
  {
    if s != [] && s[0] != a && s[0] != b {
      FindFirst(s[1..], a, b);
      forall j | 1 <= j < Find(s, a, b) ensures s[j] != a && s[j] != b {
        assert s[j] == s[1..][j - 1];
      }
    }
  }

  /** The position of the first `a` or `b` is where Find stops. */
  lemma {:induction false} FindAt(s: string, a: char, b: char, i: nat)
    requires i <= |s| && (i < |s| ==> s[i] == a || s[i] == b)
    requires forall j :: 0 <= j < i ==> s[j] != a && s[j] != b
    ensures Find(s, a, b) == i
  {
    if i > 0 {
      forall j | 0 <= j < i - 1 ensures s[1..][j] != a && s[1..][j] != b {
        assert s[1..][j] == s[j + 1];
      }
      FindAt(s[1..], a, b, i - 1);
    }
  }

  /** The exponent after `e`/`E`: an optional sign and at least one digit. */
  function ParseExponent(t: string): Option<int> {
    if |t| > 1 && (t[0] == '+' || t[0] == '-') && AllDigits(t[1..]) then
      var v: int := DigitsValue(t[1..]);
      Some(if t[0] == '-' then -v else v)
    else if |t| > 0 && AllDigits(t) then Some(DigitsValue(t))
    else None
  }

  /** Digits with at most one point and at least one digit; the scale is
      the number of digits after the point. */
  function ParseMantissa(m: string): Option<Decimal> {
    var p := Find(m, '.', '.');
    var whole := m[..p];
    var frac := if p < |m| then m[p + 1..] else [];
    if AllDigits(whole) && AllDigits(frac) && |whole| + |frac| > 0 then
      Some(Decimal(DigitsValue(whole + frac), |frac|))
    else None
  }

  /** An unsigned decimal: a mantissa, then optionally `e` or `E` and an
      exponent, which is subtracted from the scale. */
  function ParseUnsigned(s: string): Option<Decimal> {
    var e := Find(s, 'e', 'E');
    var exp := if e == |s| then Some(0) else ParseExponent(s[e + 1..]);
    match ParseMantissa(s[..e])
    case Some(d) => if exp.Some? then Some(Decimal(d.unscaled, d.scale - exp.value)) else None
    case None => None
  }

  /** The host's decimal string grammar (new BigDecimal(String)) over ASCII
      digits: an optional sign followed by an unsigned decimal. */
  function ParseDecimal(s: string): Option<Decimal> {
    if |s| > 0 && (s[0] == '-' || s[0] == '+') then
      match ParseUnsigned(s[1..])
      case None => None
      case Some(d) => Some(if s[0] == '-' then Decimal(-d.unscaled, d.scale) else d)
    else ParseUnsigned(s)
  }

  /** Plain notation of the digits `coeff` at a non-negative scale. */
  function PlainBody(coeff: string, scale: nat): string {
    if scale == 0 then coeff
    else if |coeff| > scale then coeff[..|coeff| - scale] + "." + coeff[|coeff| - scale..]
    else "0." + (Zeros(scale - |coeff|) + coeff)
  }

  /** Scientific notation: one digit, the rest after a point, then the
      adjusted exponent with its sign. */
  function SciMantissa(coeff: string): string
    requires |coeff| >= 1
  {
    [coeff[0]] + (if |coeff| > 1 then "." + coeff[1..] else "")
  }

  function ExponentText(k: int): string {
    if k > 0 then "+" + NatDigits(k) else "-" + NatDigits(-k)
  }

  function SciBody(coeff: string, adjusted: int): string
    requires |coeff| >= 1
  {
    SciMantissa(coeff) + "E" + ExponentText(adjusted)
  }

  /** BigDecimal.toString: plain notation when the scale is not negative and
      the adjusted exponent is at least -6, scientific notation otherwise. */
  function ShowDecimal(x: Decimal): string {
    (if x.unscaled < 0 then "-" else "") + MagnitudeText(x)
  }

  /** The text of the magnitude: the digits of |unscaled|, in plain notation
      when the scale is not negative and the adjusted exponent (the power of
      ten of the leading digit) is at least -6, in scientific notation otherwise. */
  function MagnitudeText(x: Decimal): string {
    var coeff := NatDigits(Abs(x.unscaled));
    var adjusted := -x.scale + (|coeff| - 1);
    if x.scale >= 0 && adjusted >= -6 then PlainBody(coeff, x.scale)
    else SciBody(coeff, adjusted)
  }

  /** Digits with at most one point: no exponent mark occurs. */
  predicate MantissaChars(s: string) {
    forall j :: 0 <= j < |s| ==> IsDigit(s[j]) || s[j] == '.'
  }

  lemma DigitsAreMantissa(w: string)
    requires AllDigits(w)
    ensures MantissaChars(w)
  {
  }

  lemma PointChars(w: string, f: string)
    requires AllDigits(w) && AllDigits(f)
    ensures MantissaChars(w + "." + f)
  {
    var s := w + "." + f;
    forall j | 0 <= j < |s| ensures IsDigit(s[j]) || s[j] == '.' {
      if j < |w| {
        assert s[j] == w[j];
      } else if j > |w| {
        assert s[j] == f[j - |w| - 1];
      }
    }
  }

  lemma PointAt(w: string, f: string)
    requires AllDigits(w)
    ensures Find(w + "." + f, '.', '.') == |w|
  {
    var s := w + "." + f;
    forall j | 0 <= j < |w| ensures s[j] != '.' {
      assert s[j] == w[j];
    }
    FindAt(s, '.', '.', |w|);
  }

  lemma DigitsWithPoint(w: string, f: string)
    requires AllDigits(w) && AllDigits(f)
    ensures MantissaChars(w + "." + f) && MantissaChars(w)
    ensures Find(w + "." + f, '.', '.') == |w|
  {
    PointChars(w, f);
    DigitsAreMantissa(w);
    PointAt(w, f);
  }

  lemma NoExponentMark(s: string)
    requires MantissaChars(s)
    ensures Find(s, 'e', 'E') == |s|
  {
    FindAt(s, 'e', 'E', |s|);
  }

  lemma ExponentMarkAt(m: string, x: string)
    requires MantissaChars(m)
    ensures Find(m + "E" + x, 'e', 'E') == |m|
  {
    var s := m + "E" + x;
    forall j | 0 <= j < |m| ensures s[j] != 'e' && s[j] != 'E' {
      assert s[j] == m[j];
    }
    FindAt(s, 'e', 'E', |m|);
  }

  lemma MantissaWhole(w: string)
    requires |w| > 0 && AllDigits(w)
    ensures ParseMantissa(w) == Some(Decimal(DigitsValue(w), 0))
  {
    FindAt(w, '.', '.', |w|);
    assert w[..|w|] == w;
    assert w + [] == w;
  }

  lemma MantissaPoint(w: string, f: string)
    requires |w| > 0 && AllDigits(w) && AllDigits(f)
    ensures ParseMantissa(w + "." + f) == Some(Decimal(DigitsValue(w + f), |f|))
  {
    var m := w + "." + f;
    DigitsWithPoint(w, f);
    assert m[..|w|] == w;
    assert m[|w| + 1..] == f;
  }

  lemma UnsignedNoExponent(m: string)
    requires MantissaChars(m)
    ensures ParseUnsigned(m) == ParseMantissa(m)
  {
    NoExponentMark(m);
    assert m[..|m|] == m;
  }

  lemma UnsignedExponent(m: string, x: string, d: Decimal, k: int, r: Decimal)
    requires MantissaChars(m) && ParseMantissa(m) == Some(d) && ParseExponent(x) == Some(k)
    requires r == Decimal(d.unscaled, d.scale - k)
    ensures ParseUnsigned(m + "E" + x) == Some(r)
  {
    var t := m + "E" + x;
    ExponentMarkAt(m, x);
    assert t[..|m|] == m && t[|m| + 1..] == x;
  }

  /** A mantissa with a point and no exponent reads back as its digits at
      the scale given by the digits after the point. */
  lemma PointRoundTrip(w: string, f: string, s: string, r: Decimal)
    requires |w| > 0 && AllDigits(w) && AllDigits(f)
    requires s == w + "." + f && r == Decimal(DigitsValue(w + f), |f|)
    ensures ParseUnsigned(s) == Some(r)
  {
    DigitsWithPoint(w, f);
    UnsignedNoExponent(s);
    MantissaPoint(w, f);
  }

  lemma ExponentRoundTrip(k: int)
    requires k != 0
    ensures ParseExponent(ExponentText(k)) == Some(k)
  {
    var n := if k > 0 then k else -k;
    var x := (if k > 0 then "+" else "-") + NatDigits(n);
    assert x[1..] == NatDigits(n);
    NatDigitsValue(n);
  }

  lemma PlainRoundTrip(coeff: string, scale: nat, text: string, r: Decimal)
    requires |coeff| >= 1 && AllDigits(coeff)
    requires text == PlainBody(coeff, scale) && r == Decimal(DigitsValue(coeff), scale)
    ensures |text| > 0 && IsDigit(text[0])
    ensures ParseUnsigned(text) == Some(r)
  {
    if scale == 0 {
      assert MantissaChars(coeff);
      UnsignedNoExponent(coeff);
      MantissaWhole(coeff);
    } else if |coeff| > scale {
      PlainSplit(coeff, scale);
    } else {
      PlainPadded(coeff, scale);
    }
    assert text[0] == coeff[0] || text[0] == '0';
  }

  lemma PlainSplit(coeff: string, scale: nat)
    requires AllDigits(coeff) && |coeff| > scale > 0
    ensures ParseUnsigned(PlainBody(coeff, scale)) == Some(Decimal(DigitsValue(coeff), scale))
  {
    var w, f := coeff[..|coeff| - scale], coeff[|coeff| - scale..];
    assert w + f == coeff;
    PointRoundTrip(w, f, PlainBody(coeff, scale), Decimal(DigitsValue(coeff), scale));
  }

  lemma PaddedDigits(coeff: string, n: nat)
    requires AllDigits(coeff)
    ensures AllDigits(Zeros(n) + coeff)
    ensures DigitsValue("0" + (Zeros(n) + coeff)) == DigitsValue(coeff)
  {
    DigitsAppend(Zeros(n), coeff);
    LeadingZeros(n, coeff);
    LeadingZeros(1, Zeros(n) + coeff);
    assert Zeros(1) == "0";
  }

  lemma PaddedText(coeff: string, scale: nat)
    requires scale >= |coeff| && scale > 0
    ensures PlainBody(coeff, scale) == "0" + "." + (Zeros(scale - |coeff|) + coeff)
  {
    assert "0" + "." == "0.";
  }

  lemma PlainPadded(coeff: string, scale: nat)
    requires |coeff| >= 1 && AllDigits(coeff) && scale >= |coeff|
    ensures ParseUnsigned(PlainBody(coeff, scale)) == Some(Decimal(DigitsValue(coeff), scale))
  {
    var f := Zeros(scale - |coeff|) + coeff;
    PaddedDigits(coeff, scale - |coeff|);
    PaddedText(coeff, scale);
    PointRoundTrip("0", f, PlainBody(coeff, scale), Decimal(DigitsValue(coeff), scale));
  }

  lemma SciMantissaChars(coeff: string)
    requires |coeff| >= 1 && AllDigits(coeff)
    ensures MantissaChars(SciMantissa(coeff))
  {
    DigitsWithPoint([coeff[0]], coeff[1..]);
  }

  lemma SciMantissaParse(coeff: string, r: Decimal)
    requires |coeff| >= 1 && AllDigits(coeff) && r == Decimal(DigitsValue(coeff), |coeff| - 1)
    ensures ParseMantissa(SciMantissa(coeff)) == Some(r)
  {
    var w, f := [coeff[0]], coeff[1..];
    assert w + f == coeff;
    if |coeff| > 1 {
      assert SciMantissa(coeff) == w + "." + f;
      MantissaPoint(w, f);
    } else {
      assert SciMantissa(coeff) == w;
      MantissaWhole(w);
    }
  }

  lemma SciRoundTrip(coeff: string, adjusted: int, text: string, r: Decimal)
    requires |coeff| >= 1 && AllDigits(coeff) && adjusted != 0
    requires text == SciBody(coeff, adjusted) && r == Decimal(DigitsValue(coeff), |coeff| - 1 - adjusted)
    ensures |text| > 0 && IsDigit(text[0])
    ensures ParseUnsigned(text) == Some(r)
  {
    ExponentRoundTrip(adjusted);
    SciMantissaChars(coeff);
    SciMantissaParse(coeff, Decimal(DigitsValue(coeff), |coeff| - 1));
    UnsignedExponent(SciMantissa(coeff), ExponentText(adjusted), Decimal(DigitsValue(coeff), |coeff| - 1), adjusted, r);
    assert text[0] == coeff[0];
  }

  lemma PlainText(x: Decimal, coeff: string)
    requires coeff == NatDigits(Abs(x.unscaled)) && x.scale >= 0 && -x.scale + (|coeff| - 1) >= -6
    ensures MagnitudeText(x) == PlainBody(coeff, x.scale)
  {
  }

  lemma SciText(x: Decimal, coeff: string, adjusted: int)
    requires coeff == NatDigits(Abs(x.unscaled)) && adjusted == -x.scale + (|coeff| - 1)
    requires !(x.scale >= 0 && adjusted >= -6)
    ensures MagnitudeText(x) == SciBody(coeff, adjusted)
  {
  }

  /** The text after the sign starts with a digit and reads back as the magnitude. */
  lemma MagnitudeRoundTrip(x: Decimal)
    ensures |MagnitudeText(x)| > 0 && IsDigit(MagnitudeText(x)[0])
    ensures ParseUnsigned(MagnitudeText(x)) == Some(Decimal(Abs(x.unscaled), x.scale))
  {
    var coeff := NatDigits(Abs(x.unscaled));
    var adjusted := -x.scale + (|coeff| - 1);
    NatDigitsValue(Abs(x.unscaled));
    if x.scale >= 0 && adjusted >= -6 {
      PlainText(x, coeff);
      PlainRoundTrip(coeff, x.scale, MagnitudeText(x), Decimal(Abs(x.unscaled), x.scale));
    } else {
      SciText(x, coeff, adjusted);
      SciRoundTrip(coeff, adjusted, MagnitudeText(x), Decimal(Abs(x.unscaled), x.scale));
    }
  }

  lemma SignRoundTrip(x: Decimal, body: string)
    requires |body| > 0 && IsDigit(body[0])
    requires ParseUnsigned(body) == Some(Decimal(Abs(x.unscaled), x.scale))
    ensures ParseDecimal((if x.unscaled < 0 then "-" else "") + body) == Some(x)
  {
    var s := (if x.unscaled < 0 then "-" else "") + body;
    if x.unscaled < 0 {
      assert s[1..] == body;
    } else {
      assert s == body;
    }
  }

  /** Reading back what toString writes gives the same number, scale included. */
  lemma ShowParseRoundTrip(x: Decimal)
    ensures ParseDecimal(ShowDecimal(x)) == Some(x)
  {
    MagnitudeRoundTrip(x);
    SignRoundTrip(x, MagnitudeText(x));
  }
}
