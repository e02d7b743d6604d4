/** Non-negative rationals as `big.Rat` keeps them: always in lowest terms.  `Value` is what a
    fraction stands for; each operation is characterised by it. */
module Rational {

  datatype Rat = Rat(num: nat, den: nat)

  type Fraction = r: Rat | r.den > 0 witness Rat(0, 1)

  function Gcd(a: nat, b: nat): (g: nat)
    ensures a + b > 0 ==> g > 0
    decreases b
  {
    if b == 0 then a else Gcd(b, a % b)
  }

  ghost predicate Divides(d: nat, n: nat) {
    exists k: nat :: n == d * k
  }

  lemma DividesSum(d: nat, a: nat, b: nat, q: nat)
    requires Divides(d, a) && Divides(d, b)
    ensures Divides(d, q * a + b)
  {
    var x: nat :| a == d * x;
    var y: nat :| b == d * y;
    assert q * (d * x) == d * (q * x) by { Reorder(q, d, x); }
    assert q * a + b == d * (q * x + y) by { Distribute(d, q * x, y); }
  }

  lemma Reorder(a: nat, b: nat, c: nat)
    ensures a * (b * c) == b * (a * c)
  {
  }

  lemma Distribute(d: nat, x: nat, y: nat)
    ensures d * (x + y) == d * x + d * y
  {
  }

  /** The greatest common divisor divides both. */
  lemma {:induction false} GcdDivides(a: nat, b: nat)
    ensures Divides(Gcd(a, b), a) && Divides(Gcd(a, b), b)
    decreases b
  {
    if b == 0 {
      assert a == Gcd(a, b) * 1;
      assert b == Gcd(a, b) * 0;
    } else {
      GcdDivides(b, a % b);
      DividesSum(Gcd(a, b), b, a % b, a / b);
      assert a / b * b + a % b == a;
    }
  }

  lemma DividesDifference(d: nat, a: nat, b: nat)
    requires Divides(d, a) && Divides(d, b) && b <= a
    ensures Divides(d, a - b)
  {
    var x: nat :| a == d * x;
    var y: nat :| b == d * y;
    if d > 0 {
      assert x >= y;
      assert a - b == d * (x - y) by { Distribute(d, x - y, y); }
    } else {
      assert a - b == d * 0;
    }
  }

  lemma DividesMultiple(d: nat, a: nat, q: nat)
    requires Divides(d, a)
    ensures Divides(d, q * a)
  {
    var x: nat :| a == d * x;
    assert q * a == d * (q * x) by { Reorder(q, d, x); }
  }

  /** Every common divisor divides it, so it is the greatest. */
  lemma {:induction false} GcdGreatest(d: nat, a: nat, b: nat)
    requires Divides(d, a) && Divides(d, b)
    ensures Divides(d, Gcd(a, b))
    decreases b
  {
    if b > 0 {
      DividesMultiple(d, b, a / b);
      assert a / b * b + a % b == a;
      DividesDifference(d, a, a / b * b);
      GcdGreatest(d, b, a % b);
    }
  }

  lemma UnitFactor(k: nat, g: nat, m: nat)
    requires g > 0 && g == (k * g) * m
    ensures k == 1
  {
    Assoc(k, g, m);
    Reorder(k, g, m);
    Cancel(g, k * m);
    FactorsOfOne(k, m);
  }

  lemma Cancel(g: nat, p: nat)
    requires g > 0 && g * p == g
    ensures p == 1
  {
    assert g * (p - 1) == 0;
  }

  lemma FactorsOfOne(k: nat, m: nat)
    requires k * m == 1
    ensures k == 1
  {
  }

  /** Lowest terms. */
  function Norm(n: nat, d: nat): (r: Fraction)
    requires d > 0
    ensures r.num == 0 <==> n == 0
    ensures SameRatio(r.num, r.den, n, d)
  {
    var g := Gcd(n, d);
    NormFacts(n, d);
    Rat(n / g, d / g)
  }

  ghost predicate SameRatio(a: nat, b: nat, c: nat, d: nat) {
    a * d == c * b
  }

  lemma NormFacts(n: nat, d: nat)
    requires d > 0
    ensures var g := Gcd(n, d); g > 0 && d / g > 0 && SameRatio(n / g, d / g, n, d) && (n / g == 0 <==> n == 0)
  {
    var g := Gcd(n, d);
    GcdDivides(n, d);
    var x: nat :| n == g * x;
    var y: nat :| d == g * y;
    Quotient(g, x);
    Quotient(g, y);
    assert x * (g * y) == (g * x) * y by { Reorder(x, g, y); Assoc(g, x, y); }
  }

  lemma Assoc(a: nat, b: nat, c: nat)
    ensures a * (b * c) == (a * b) * c
  {
  }

  lemma {:induction false} Quotient(g: nat, x: nat)
    requires g > 0
    ensures g * x / g == x
  {
    if x > 0 {
      Quotient(g, x - 1);
      assert g * x == g * (x - 1) + g;
      assert (g * (x - 1) + g) / g == g * (x - 1) / g + 1;
    }
  }

  lemma ScaleDivisor(k: nat, g: nat, x: nat)
    requires Divides(k, x)
    ensures Divides(k * g, g * x)
  {
    var y: nat :| x == k * y;
    assert g * x == (k * g) * y by { Reorder(g, k, y); Assoc(k, g, y); }
  }

  /** Only one divides both terms of a reduced fraction. */
  lemma {:induction false} LowestTerms(n: nat, d: nat, k: nat)
    requires d > 0 && Divides(k, Norm(n, d).num) && Divides(k, Norm(n, d).den)
    ensures k == 1
  {
    var g := Gcd(n, d);
    GcdDivides(n, d);
    var x: nat :| n == g * x;
    var y: nat :| d == g * y;
    Quotient(g, x);
    Quotient(g, y);
    ScaleDivisor(k, g, x);
    ScaleDivisor(k, g, y);
    GcdGreatest(k * g, n, d);
    var m: nat :| g == (k * g) * m;
    UnitFactor(k, g, m);
  }

  // ---- Operations ----

  function Add(a: Fraction, b: Fraction): Fraction {
    Norm(a.num * b.den + b.num * a.den, Product(a.den, b.den))
  }

  function Mul(a: Fraction, b: Fraction): Fraction {
    Norm(a.num * b.num, Product(a.den, b.den))
  }

  function Quo(a: Fraction, b: Fraction): Fraction
    requires b.num > 0
  {
    Norm(a.num * b.den, Product(a.den, b.num))
  }

  function Product(a: nat, b: nat): (p: nat)
    ensures p == a * b
    ensures a > 0 && b > 0 ==> p > 0
  {
    a * b
  }

  // ---- Values ----

  ghost function Value(r: Fraction): real {
    r.num as real / r.den as real
  }

  lemma NormValue(n: nat, d: nat)
    requires d > 0
    ensures Value(Norm(n, d)) == n as real / d as real
  {
  }

  lemma RealMul(a: nat, b: nat)
    ensures (a * b) as real == a as real * b as real
  {
  }

  lemma AddFractions(a: real, b: real, c: real, d: real, n: real, m: real)
    requires b > 0.0 && d > 0.0 && n == a * d + c * b && m == b * d
    ensures m > 0.0 && n / m == a / b + c / d
  {
  }

  lemma CrossSum(a: Fraction, b: Fraction, n: nat)
    requires n == a.num * b.den + b.num * a.den
    ensures n as real == a.num as real * b.den as real + b.num as real * a.den as real
  {
  }

  /** Values add and divide. */
  lemma AddValue(a: Fraction, b: Fraction)
    ensures Value(Add(a, b)) == Value(a) + Value(b)
  {
    hide Norm;
    var n, d := a.num * b.den + b.num * a.den, Product(a.den, b.den);
    NormValue(n, d);
    CrossSum(a, b, n);
    RealMul(a.den, b.den);
    AddFractions(a.num as real, a.den as real, b.num as real, b.den as real, n as real, d as real);
  }

  lemma DivideFractions(a: real, b: real, c: real, d: real)
    requires b > 0.0 && c > 0.0 && d > 0.0
    ensures b * c > 0.0 && c / d > 0.0 && (a * d) / (b * c) == (a / b) / (c / d)
  {
  }

  lemma QuoValue(a: Fraction, b: Fraction)
    requires b.num > 0
    ensures Value(b) > 0.0 && Value(Quo(a, b)) == Value(a) / Value(b)
  {
    NormValue(a.num * b.den, Product(a.den, b.num));
    RealMul(a.num, b.den);
    RealMul(a.den, b.num);
    DivideFractions(a.num as real, a.den as real, b.num as real, b.den as real);
  }

  lemma MultiplyFractions(a: real, b: real, c: real, d: real)
    requires b > 0.0 && d > 0.0
    ensures b * d > 0.0 && (a * c) / (b * d) == (a / b) * (c / d)
  {
  }

  lemma MulValue(a: Fraction, b: Fraction)
    ensures Value(Mul(a, b)) == Value(a) * Value(b)
  {
    hide Norm;
    NormValue(a.num * b.num, Product(a.den, b.den));
    RealMul(a.num, b.num);
    RealMul(a.den, b.den);
    MultiplyFractions(a.num as real, a.den as real, b.num as real, b.den as real);
  }

  lemma QuotientAtMost(n: nat, g: nat)
    requires g > 0
    ensures n / g <= n
  {
    DivMonotone(n, Product(g, n), g);
    Quotient(g, n);
    assert n <= g * n;
  }

  /** Reducing never makes a term larger. */
  lemma NormShrinks(n: nat, d: nat)
    requires d > 0
    ensures Norm(n, d).num <= n && Norm(n, d).den <= d
  {
    QuotientAtMost(n, Gcd(n, d));
    QuotientAtMost(d, Gcd(n, d));
  }

  lemma PositiveValue(r: Fraction)
    ensures Value(r) >= 0.0
    ensures r.num > 0 <==> Value(r) > 0.0
  {
  }

  /** The whole part of `x` times a fraction (`x * num / den` in integers). */
  function Share(x: nat, r: Fraction): nat {
    x * r.num / r.den
  }

  lemma ShareBounds(x: nat, r: Fraction)
    ensures Share(x, r) as real <= x as real * Value(r) < Share(x, r) as real + 1.0
  {
    var f, n, d := Share(x, r), x * r.num, r.den;
    assert f * d <= n < f * d + d by {
      assert n == n / d * d + n % d;
    }
    RealMul(x, r.num);
    RealMul(f, d);
    var v := Value(r);
    assert v * d as real == r.num as real;
    assert x as real * v * d as real == n as real by {
      assert x as real * v * d as real == x as real * (v * d as real);
    }
    ScaleDown(f as real, x as real * v, d as real);
    ScaleDown2(x as real * v, f as real + 1.0, d as real);
  }

  lemma ScaleDown(a: real, b: real, d: real)
    requires d > 0.0 && a * d <= b * d
    ensures a <= b
  {
  }

  lemma ScaleDown2(a: real, b: real, d: real)
    requires d > 0.0 && a * d < b * d
    ensures a < b
  {
  }

  lemma ShareMonotone(x: nat, y: nat, r: Fraction)
    requires x <= y
    ensures Share(x, r) <= Share(y, r)
  {
    assert x * r.num <= y * r.num;
    DivMonotone(x * r.num, y * r.num, r.den);
  }

  lemma MulGap(x: nat, y: nat, d: nat)
    requires x > y
    ensures x * d >= y * d + d
  {
    var k := x - y - 1;
    Distribute(d, y + 1, k);
    Distribute(d, y, 1);
  }

  lemma DivMonotone(a: nat, b: nat, d: nat)
    requires d > 0 && a <= b
    ensures a / d <= b / d
  {
    var x, y := a / d, b / d;
    assert a == x * d + a % d && b == y * d + b % d;
    if x > y {
      MulGap(x, y, d);
    }
  }
}
