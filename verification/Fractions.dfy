/** Exact fractions, kept in lowest terms with a positive denominator.  `T81BigInt` is the
    mathematical integer. */
module Fractions {
  import opened Word
  import opened Multiples
  import opened Wrappers

  datatype Fraction = Fraction(num: int, den: int)

  datatype Error = ZeroDenominator | DivisionByZero

  // ---------- greatest common divisors

  function Gcd(a: nat, b: nat): (g: nat)
    requires a > 0 || b > 0
    ensures g > 0
    decreases b
  {
    if b == 0 then a else Gcd(b, a % b)
  }

  /** The gcd divides both numbers. */
  lemma {:induction false} GcdDivides(a: nat, b: nat) returns (p: nat, q: nat)
    requires a > 0 || b > 0
    ensures a == Gcd(a, b) * p && b == Gcd(a, b) * q
    decreases b
  {
    hide Gcd;
    GcdUnfolds(a, b);
    if b == 0 {
      p, q := 1, 0;
    } else {
      var p', q' := GcdDivides(b, a % b);
      p, q := p' * (a / b) + q', p';
      Recompose(a, b, Gcd(a, b), p', q');
    }
  }

  lemma GcdUnfolds(a: nat, b: nat)
    requires a > 0 || b > 0
    ensures Gcd(a, b) == if b == 0 then a else Gcd(b, a % b)
  {
  }

  lemma Recompose(a: nat, b: nat, g: nat, p: nat, q: nat)
    requires b > 0 && b == g * p && a % b == g * q
    ensures a == g * (p * (a / b) + q)
  {
    var k := a / b;
    assert a == b * k + a % b;
    Distributes(g, p, q, k);
  }

  lemma Distributes(g: int, p: int, q: int, k: int)
    ensures g * (p * k + q) == (g * p) * k + g * q
  {
  }

  /** And it is a combination of them. */
  lemma {:induction false} Bezout(a: nat, b: nat) returns (x: int, y: int)
    requires a > 0 || b > 0
    ensures x * a + y * b == Gcd(a, b)
    decreases b
  {
    if b == 0 {
      x, y := 1, 0;
    } else {
      var x', y' := Bezout(b, a % b);
      x, y := y', x' - y' * (a / b);
      assert a == b * (a / b) + a % b;
      Back(a, b, x', y', a / b, a % b);
    }
  }

  lemma Back(a: int, b: int, x: int, y: int, k: int, r: int)
    requires a == b * k + r
    ensures y * a + (x - y * k) * b == x * b + y * r
  {
    assert y * a == y * (b * k) + y * r;
    assert (x - y * k) * b == x * b - (y * k) * b;
    assert y * (b * k) == (y * k) * b;
  }

  predicate Coprime(n: int, d: nat)
    requires d > 0
  {
    Gcd(Abs(n), d) == 1
  }

  /** A number that is a combination to one is coprime. */
  lemma CombinationCoprime(n: int, d: nat, x: int, y: int)
    requires d > 0 && x * Abs(n) + y * d == 1
    ensures Coprime(n, d)
  {
    var g := Gcd(Abs(n), d);
    var p, q := GcdDivides(Abs(n), d);
    assert x * (g * p) + y * (g * q) == g * (x * p + y * q);
    UnitFactor(g, x * p + y * q);
  }

  lemma UnitFactor(g: nat, k: int)
    requires g * k == 1
    ensures g == 1
  {
    NoSmallMultiple(k, g);
  }

  /** What divides a product and is coprime to one factor divides the other. */
  lemma Euclid(m: int, d: nat, n: int, k: int) returns (j: int)
    requires d > 0 && Coprime(m, d) && m * n == d * k
    ensures n == d * j
  {
    var x, y := Bezout(Abs(m), d);
    var s := if m < 0 then -x else x;
    assert s * m == x * Abs(m);
    j := s * k + y * n;
    Combine(s, m, y, d, n, k);
  }

  lemma Combine(s: int, m: int, y: int, d: int, n: int, k: int)
    requires s * m + y * d == 1 && m * n == d * k
    ensures n == d * (s * k + y * n)
  {
    calc {
      n;
      (s * m + y * d) * n;
      s * (m * n) + (y * d) * n;
      s * (d * k) + d * (y * n);
      d * (s * k + y * n);
    }
  }

  // ---------- normal form

  predicate Canonical(f: Fraction) {
    f.den > 0 && Coprime(f.num, f.den) && (f.num == 0 ==> f.den == 1)
  }

  /** The constructor: `normalize_` throws on a zero denominator. */
  function Make(n: int, d: int): Result<Fraction, Error> {
    if d == 0 then Err(ZeroDenominator)
    else
      var num := if d < 0 then -n else n;
      var den := if d < 0 then -d else d;
      if num == 0 then Ok(Fraction(0, 1))
      else
        var g := Gcd(Abs(num), den);
        if g == 1 then Ok(Fraction(num, den)) else Ok(Fraction(TruncDiv(num, g), TruncDiv(den, g)))
  }

  /** Same rational number. */
  predicate Denotes(f: Fraction, n: int, d: int) {
    f.num * d == n * f.den
  }

  lemma ExactQuotient(g: nat, p: int)
    requires g > 0
    ensures TruncDiv(g * p, g) == p
  {
    var a := g * p;
    if p >= 0 {
      assert Abs(a) == g * p && (g * p) / g == p by { DivExact(g, p); }
    } else {
      assert Abs(a) == g * -p && (g * -p) / g == -p by { DivExact(g, -p); }
    }
  }

  lemma DivExact(g: nat, p: nat)
    requires g > 0
    ensures (g * p) / g == p && 0 <= g * p
  {
    var q, r := (g * p) / g, (g * p) % g;
    assert g * p == g * q + r;
    assert (p - q) * g == r;
    NoSmallMultiple(p - q, g);
  }

  /** Making a fraction gives the lowest terms of the same number. */
  lemma MakeIsCanonical(n: int, d: int)
    ensures Make(n, d).Err? <==> d == 0
    ensures d != 0 ==> Canonical(Make(n, d).value) && Denotes(Make(n, d).value, n, d)
  {
    if d != 0 && n != 0 {
      var num := if d < 0 then -n else n;
      var den := if d < 0 then -d else d;
      hide Coprime, Gcd, TruncDiv;
      Reduced(num, den);
      var g := Gcd(Abs(num), den);
      var s, q := TruncDiv(num, g), TruncDiv(den, g);
      assert Make(n, d) == Ok(Fraction(s, q));
      Signs(s, q, n, d);
    }
  }

  lemma Signs(s: int, q: int, n: int, d: int)
    ensures s * -d == -(s * d) && -n * q == -(n * q)
  {
  }

  /** Dividing by the gcd. */
  lemma Reduced(num: int, den: nat)
    requires num != 0 && den > 0
    ensures var g := Gcd(Abs(num), den);
            var s, q := TruncDiv(num, g), TruncDiv(den, g);
            q > 0 && Coprime(s, q) && s != 0 && s * den == num * q && (g == 1 ==> s == num && q == den)
  {
    hide Gcd, Coprime, TruncDiv;
    var g := Gcd(Abs(num), den);
    var p, q := GcdDivides(Abs(num), den);
    var x, y := Bezout(Abs(num), den);
    var m: int := p;
    var s := if num < 0 then -m else m;
    Positive(g, q);
    Positive(g, p);
    Signed(g, m);
    assert num == g * s;
    QuotientsCoprime(g, p, q, x, y);
    SignCoprime(s, p, q);
    ExactQuotient(g, s);
    ExactQuotient(g, q);
    Swap(s, g, q);
  }

  lemma Signed(g: int, m: int)
    ensures g * -m == -(g * m)
  {
  }

  lemma SignCoprime(s: int, p: nat, q: nat)
    requires q > 0 && Coprime(p, q) && (s == p || s == -(p as int))
    ensures Coprime(s, q)
  {
    hide Gcd;
  }

  /** The quotients by the gcd are coprime: what combines to the gcd combines to one. */
  lemma QuotientsCoprime(g: nat, p: nat, q: nat, x: int, y: int)
    requires g > 0 && q > 0 && x * (g * p) + y * (g * q) == g
    ensures Coprime(p, q)
  {
    hide Coprime;
    Factors(g, p, q, x, y);
    CancelFactor(g, x * p + y * q, 1);
    CombinationCoprime(p, q, x, y);
  }

  lemma Factors(g: int, p: int, q: int, x: int, y: int)
    ensures x * (g * p) + y * (g * q) == g * (x * p + y * q)
  {
    assert x * (g * p) == g * (x * p) && y * (g * q) == g * (y * q);
  }

  lemma Swap(s: int, g: int, q: int)
    ensures s * (g * q) == (g * s) * q
  {
  }

  lemma CancelFactor(g: nat, x: int, y: int)
    requires g > 0 && g * x == g * y
    ensures x == y
  {
    assert (x - y) * g == 0;
    SmallMultiple(x - y, g);
  }

  lemma Positive(g: nat, q: nat)
    ensures g * q > 0 ==> q > 0
  {
  }

  /** A rational number has one canonical form: two canonical fractions denote the same
      number exactly when their fields are equal. */
  lemma CanonicalUnique(a: Fraction, b: Fraction)
    requires Canonical(a) && Canonical(b)
    ensures a.num * b.den == b.num * a.den <==> a == b
  {
    if a.num * b.den == b.num * a.den {
      var j := Euclid(a.num, a.den, b.den, b.num);
      var k := Euclid(b.num, b.den, a.den, a.num);
      Mutual(a.den, b.den, j, k);
      CancelFactor(a.den, a.num, b.num);
    }
  }

  lemma Mutual(a: nat, b: nat, j: int, k: int)
    requires a > 0 && b > 0 && b == a * j && a == b * k
    ensures a == b
  {
    AtLeast(a, j);
    AtLeast(b, k);
  }

  lemma AtLeast(a: nat, j: int)
    requires a > 0 && a * j > 0
    ensures a * j >= a
  {
    NoSmallMultiple(j, a);
  }

  // ---------- arithmetic

  function Add(a: Fraction, b: Fraction): Result<Fraction, Error> {
    Make(a.num * b.den + b.num * a.den, a.den * b.den)
  }

  function Sub(a: Fraction, b: Fraction): Result<Fraction, Error> {
    Make(a.num * b.den - b.num * a.den, a.den * b.den)
  }

  function Mul(a: Fraction, b: Fraction): Result<Fraction, Error> {
    Make(a.num * b.num, a.den * b.den)
  }

  function Div(a: Fraction, b: Fraction): Result<Fraction, Error> {
    if b.num == 0 then Err(DivisionByZero) else Make(a.num * b.den, a.den * b.num)
  }

  function Neg(a: Fraction): Result<Fraction, Error> {
    Make(-a.num, a.den)
  }

  function Cmp(a: Fraction, b: Fraction): int {
    var lhs, rhs := a.num * b.den, b.num * a.den;
    if lhs < rhs then -1 else if lhs > rhs then 1 else 0
  }

  lemma ProductNonzero(a: int, b: int)
    requires a != 0 && b != 0
    ensures a * b != 0 && (a > 0 && b > 0 ==> a * b > 0)
  {
  }

  /** On canonical fractions the operations succeed, but for division by zero, and give the
      canonical form of the exact result. */
  lemma ArithmeticExact(a: Fraction, b: Fraction)
    requires Canonical(a) && Canonical(b)
    ensures Add(a, b).Ok? && Canonical(Add(a, b).value) &&
            Denotes(Add(a, b).value, a.num * b.den + b.num * a.den, a.den * b.den)
    ensures Sub(a, b).Ok? && Canonical(Sub(a, b).value) &&
            Denotes(Sub(a, b).value, a.num * b.den - b.num * a.den, a.den * b.den)
    ensures Mul(a, b).Ok? && Canonical(Mul(a, b).value) && Denotes(Mul(a, b).value, a.num * b.num, a.den * b.den)
    ensures Div(a, b).Err? <==> b.num == 0
    ensures b.num != 0 ==> Canonical(Div(a, b).value) && Denotes(Div(a, b).value, a.num * b.den, a.den * b.num)
    ensures Neg(a) == Ok(Fraction(-a.num, a.den))
  {
    hide Make, Canonical, Denotes;
    CanonicalPositive(a);
    CanonicalPositive(b);
    ProductNonzero(a.den, b.den);
    MakeIsCanonical(a.num * b.den + b.num * a.den, a.den * b.den);
    MakeIsCanonical(a.num * b.den - b.num * a.den, a.den * b.den);
    MakeIsCanonical(a.num * b.num, a.den * b.den);
    if b.num != 0 {
      ProductNonzero(a.den, b.num);
      MakeIsCanonical(a.num * b.den, a.den * b.num);
    }
    MakeStays(Fraction(-a.num, a.den)) by { NegCanonical(a); }
  }

  lemma CanonicalPositive(a: Fraction)
    requires Canonical(a)
    ensures a.den > 0
  {
  }

  lemma NegCanonical(a: Fraction)
    requires Canonical(a)
    ensures Canonical(Fraction(-a.num, a.den))
  {
  }

  /** A canonical fraction is its own normal form. */
  lemma MakeStays(a: Fraction)
    requires Canonical(a)
    ensures Make(a.num, a.den) == Ok(a)
  {
  }

  // ---------- order

  lemma ScalesOrder(x: int, y: int, d: int)
    requires d > 0
    ensures x < y <==> x * d < y * d
    ensures x == y <==> x * d == y * d
  {
    if x < y {
      assert (y - x) * d > 0;
    } else if x > y {
      assert (x - y) * d > 0;
    }
  }

  /** `cmp` is zero exactly for equal fractions, changes sign with its operands, and is
      transitive. */
  lemma CmpIsOrder(a: Fraction, b: Fraction, c: Fraction)
    requires Canonical(a) && Canonical(b) && Canonical(c)
    ensures Cmp(a, b) == 0 <==> a == b
    ensures Cmp(b, a) == -Cmp(a, b)
    ensures Cmp(a, b) <= 0 && Cmp(b, c) <= 0 ==> Cmp(a, c) <= 0
  {
    hide Coprime;
    CanonicalUnique(a, b);
    if Cmp(a, b) <= 0 && Cmp(b, c) <= 0 {
      ScalesOrder(b.num * a.den, a.num * b.den, c.den);
      ScalesOrder(c.num * b.den, b.num * c.den, a.den);
      Rearrange(a.num, b.den, c.den);
      Rearrange(b.num, a.den, c.den);
      Rearrange(c.num, b.den, a.den);
      ScalesOrder(c.num * a.den, a.num * c.den, b.den);
    }
  }

  lemma SameSign(x: int, d: int, n: int, m: int)
    requires d > 0 && m > 0 && x * m == n * d
    ensures (x > 0 <==> n > 0) && (x < 0 <==> n < 0)
  {
    ScalesOrder(0, x, m);
    ScalesOrder(x, 0, m);
    ScalesOrder(0, n, d);
    ScalesOrder(n, 0, d);
  }

  lemma CmpByProducts(a: Fraction, b: Fraction, n: int)
    requires n == a.num * b.den - b.num * a.den
    ensures (Cmp(a, b) == 1 <==> n > 0) && (Cmp(a, b) == -1 <==> n < 0) && (Cmp(a, b) == 0 <==> n == 0)
  {
  }

  /** `cmp` answers by the sign of the difference. */
  lemma CmpIsSignOfDifference(a: Fraction, b: Fraction)
    requires Canonical(a) && Canonical(b)
    ensures var d := Sub(a, b);
            && d.Ok?
            && (Cmp(a, b) == 1 <==> d.value.num > 0)
            && (Cmp(a, b) == -1 <==> d.value.num < 0)
            && (Cmp(a, b) == 0 <==> d.value.num == 0)
  {
    hide Make, Coprime, Cmp, Sub;
    ArithmeticExact(a, b);
    var d := Sub(a, b).value;
    var n, m := a.num * b.den - b.num * a.den, a.den * b.den;
    ProductNonzero(a.den, b.den);
    SameSign(d.num, d.den, n, m);
    CmpByProducts(a, b, n);
  }

  lemma Rearrange(x: int, y: int, z: int)
    ensures (x * y) * z == (x * z) * y
  {
  }

  /** Adding the same fraction to both sides keeps the order. */
  lemma CmpCompatible(a: Fraction, b: Fraction, c: Fraction)
    requires Canonical(a) && Canonical(b) && Canonical(c)
    ensures Add(a, c).Ok? && Add(b, c).Ok? && Cmp(Add(a, c).value, Add(b, c).value) == Cmp(a, b)
  {
    hide Make, Coprime;
    ArithmeticExact(a, c);
    ArithmeticExact(b, c);
    var p, q := Add(a, c).value, Add(b, c).value;
    CanonicalPositive(p);
    CanonicalPositive(q);
    var pn, pd := a.num * c.den + c.num * a.den, a.den * c.den;
    var qn, qd := b.num * c.den + c.num * b.den, b.den * c.den;
    ProductNonzero(a.den, c.den);
    ProductNonzero(b.den, c.den);
    CmpDenotes(p, q, pn, pd, qn, qd);
    Cross(a.num, a.den, b.num, b.den, c.num, c.den);
    ProductNonzero(c.den, c.den);
    ScalesOrder(a.num * b.den, b.num * a.den, c.den * c.den);
    ScalesOrder(b.num * a.den, a.num * b.den, c.den * c.den);
  }

  /** Cross products of sums differ by the cross products of the summands. */
  lemma Cross(an: int, ad: int, bn: int, bd: int, cn: int, cd: int)
    ensures (an * cd + cn * ad) * (bd * cd) - (bn * cd + cn * bd) * (ad * cd) ==
            (an * bd) * (cd * cd) - (bn * ad) * (cd * cd)
  {
    CrossHalf(an, ad, bd, cn, cd);
    CrossHalf(bn, bd, ad, cn, cd);
    assert ad * bd == bd * ad;
  }

  lemma CrossHalf(an: int, ad: int, bd: int, cn: int, cd: int)
    ensures (an * cd + cn * ad) * (bd * cd) == (an * bd) * (cd * cd) + (cn * cd) * (ad * bd)
  {
    var m := bd * cd;
    assert (an * cd + cn * ad) * m == (an * cd) * m + (cn * ad) * m;
    assert (an * cd) * m == (an * bd) * (cd * cd) by { Shuffle(an, cd, bd, cd); }
    assert (cn * ad) * m == (cn * cd) * (ad * bd) by { Shuffle(cn, ad, cd, bd); assert m == cd * bd; }
  }

  lemma Commute(x: int, y: int)
    ensures x * y == y * x
  {
  }

  lemma Shuffle(x: int, y: int, z: int, w: int)
    ensures (x * y) * (z * w) == (x * z) * (y * w)
  {
    assert (x * y) * (z * w) == x * (y * (z * w));
    assert y * (z * w) == z * (y * w);
    assert x * (z * (y * w)) == (x * z) * (y * w);
  }

  /** Comparison looks at the numbers, not at how they are written. */
  lemma CmpDenotes(p: Fraction, q: Fraction, pn: int, pd: int, qn: int, qd: int)
    requires p.den > 0 && q.den > 0 && pd > 0 && qd > 0 && Denotes(p, pn, pd) && Denotes(q, qn, qd)
    ensures p.num * q.den < q.num * p.den <==> pn * qd < qn * pd
    ensures p.num * q.den == q.num * p.den <==> pn * qd == qn * pd
  {
    ProductNonzero(pd, qd);
    ProductNonzero(p.den, q.den);
    ScalesOrder(p.num * q.den, q.num * p.den, pd * qd);
    ScalesOrder(pn * qd, qn * pd, p.den * q.den);
    Shuffle(p.num, q.den, pd, qd);
    Shuffle(q.num, p.den, qd, pd);
    Shuffle(pn, qd, p.den, q.den);
    Shuffle(qn, pd, q.den, p.den);
    Commute(q.den, qd);
    Commute(p.den, pd);
    Commute(pd, qd);
    Commute(p.den, q.den);
  }

  // ---------- normalization in place

  class Rational {
    var num: int
    var den: int

    constructor (n: int, d: int)
      ensures num == n && den == d
    {
      num, den := n, d;
    }

    /** Construction ends with `normalize_`; a zero denominator is an exception. */
    static method Create(n: int, d: int) returns (r: Result<Rational, Error>)
      ensures r.Ok? ==> fresh(r.value) && Make(n, d) == Ok(Fraction(r.value.num, r.value.den))
                        && Canonical(Fraction(r.value.num, r.value.den))
      ensures r.Err? ==> Make(n, d) == Err(r.error)
    {
      MakeIsCanonical(n, d);
      var f := new Rational(n, d);
      var ok := f.Normalize();
      r := if ok then Ok(f) else Err(ZeroDenominator);
    }

    method Normalize() returns (ok: bool)
      modifies this
      ensures ok <==> old(den) != 0
      ensures if ok then Make(old(num), old(den)) == Ok(Fraction(num, den)) else num == old(num) && den == old(den)
    {
      if den == 0 {
        return false;
      }
      ok := true;
      if den < 0 {
        num := -num;
        den := -den;
      }
      if num == 0 {
        den := 1;
        return;
      }
      var g := Gcd(Abs(num), den);
      if g != 1 {
        num := TruncDiv(num, g);
        den := TruncDiv(den, g);
      }
    }
  }
}
