/** Balanced ternary: digits -1, 0 and 1, least significant first, and the numbers they
    denote. */
module Ternary {
  import opened Multiples

  type Trit = d: int | -1 <= d <= 1

  function Power3(n: nat): (p: nat)
    ensures p > 0
    decreases n, 0
  {
    if n == 0 then 1 else 3 * Power3(n - 1)
  }

  /** The number that digits denote; the digits need not be small. */
  function Value(d: seq<int>): int {
    if d == [] then 0 else d[0] + 3 * Value(d[1..])
  }

  predicate Trits(d: seq<int>) {
    forall i :: 0 <= i < |d| ==> -1 <= d[i] <= 1
  }

  /** Equal modulo `m`. */
  predicate Congruent(x: int, y: int, m: nat)
    requires m > 0
  {
    (x - y) % m == 0
  }

  lemma MultipleIsZero(k: int, m: nat)
    requires m > 0
    ensures (k * m) % m == 0
  {
    var q, r := k * m / m, k * m % m;
    assert k * m == m * q + r;
    assert (k - q) * m == r;
    NoSmallMultiple(k - q, m);
  }

  lemma CongruentBy(x: int, y: int, k: int, m: nat)
    requires m > 0 && x == y + k * m
    ensures Congruent(x, y, m)
  {
    MultipleIsZero(k, m);
  }

  lemma Quotient(x: int, y: int, m: nat) returns (k: int)
    requires m > 0 && Congruent(x, y, m)
    ensures x == y + k * m
  {
    k := (x - y) / m;
  }

  lemma CongruentAll(x: int, y: int, z: int, m: nat)
    requires m > 0 && Congruent(x, y, m) && Congruent(y, z, m)
    ensures Congruent(x, z, m)
  {
    var j := Quotient(x, y, m);
    var k := Quotient(y, z, m);
    assert (j + k) * m == j * m + k * m;
    CongruentBy(x, z, j + k, m);
  }

  lemma Symmetric(x: int, y: int, m: nat)
    requires m > 0 && Congruent(x, y, m)
    ensures Congruent(y, x, m)
  {
    var k := Quotient(x, y, m);
    assert -k * m == -(k * m);
    CongruentBy(y, x, -k, m);
  }

  lemma PlusCongruent(x: int, y: int, x': int, y': int, m: nat)
    requires m > 0 && Congruent(x, y, m) && Congruent(x', y', m)
    ensures Congruent(x + x', y + y', m)
  {
    var j := Quotient(x, y, m);
    var k := Quotient(x', y', m);
    assert (j + k) * m == j * m + k * m;
    CongruentBy(x + x', y + y', j + k, m);
  }

  lemma TimesCongruent(a: int, x: int, y: int, m: nat)
    requires m > 0 && Congruent(x, y, m)
    ensures Congruent(a * x, a * y, m)
  {
    var k := Quotient(x, y, m);
    assert a * (y + k * m) == a * y + (a * k) * m;
    CongruentBy(a * x, a * y, a * k, m);
  }

  lemma Differ(x: int, y: int, z: int, m: nat)
    requires m > 0 && Congruent(x, y, m) && !Congruent(y, z, m)
    ensures !Congruent(x, z, m)
  {
    hide Congruent;
    Symmetric(x, y, m);
    if Congruent(x, z, m) {
      CongruentAll(y, x, z, m);
    }
  }

  lemma {:induction false} ValueSplit(d: seq<int>, n: nat)
    requires n <= |d|
    ensures Value(d) == Value(d[..n]) + Power3(n) * Value(d[n..])
    decreases n
  {
    if n == 0 {
      assert d[0..] == d;
    } else {
      ValueSplit(d[1..], n - 1);
      assert d[..n][1..] == d[1..][..n - 1];
      assert d[n..] == d[1..][n - 1..];
      Scale(Power3(n - 1), Value(d[n..]));
    }
  }

  lemma Scale(p: int, v: int)
    ensures 3 * (p * v) == (3 * p) * v
  {
  }

  /** A residue modulo 3^n has one representation in `n` balanced digits. */
  lemma {:induction false} TritsUnique(a: seq<int>, b: seq<int>, k: int)
    requires Trits(a) && Trits(b) && |a| == |b| && Value(a) == Value(b) + k * Power3(|a|)
    ensures a == b
  {
    if a != [] {
      var p := Power3(|a| - 1);
      assert Power3(|a|) == 3 * p;
      Scale3(k, p);
      TritsUnique(a[1..], b[1..], k);
      assert a == [a[0]] + a[1..];
      assert b == [b[0]] + b[1..];
    }
  }

  lemma Scale3(k: int, p: int)
    ensures k * (3 * p) == 3 * (k * p)
  {
  }

  lemma CongruentTrits(a: seq<int>, b: seq<int>)
    requires Trits(a) && Trits(b) && |a| == |b| && Congruent(Value(a), Value(b), Power3(|a|))
    ensures a == b
  {
    var k := Quotient(Value(a), Value(b), Power3(|a|));
    TritsUnique(a, b, k);
  }

  /** The low `n` digits are the number modulo 3^n. */
  lemma LowDigits(d: seq<int>, n: nat)
    requires n <= |d|
    ensures Congruent(Value(d[..n]), Value(d), Power3(n))
  {
    hide Congruent, Power3, Value;
    ValueSplit(d, n);
    var v := Value(d[n..]);
    assert -v * Power3(n) == -(Power3(n) * v);
    CongruentBy(Value(d[..n]), Value(d), -v, Power3(n));
  }

  function Zeros(n: nat): (d: seq<int>)
    ensures |d| == n && Trits(d)
  {
    seq(n, _ => 0)
  }

  lemma {:induction false} ZerosValue(n: nat)
    ensures Value(Zeros(n)) == 0
  {
    if n > 0 {
      assert Zeros(n)[1..] == Zeros(n - 1);
      ZerosValue(n - 1);
    }
  }

  lemma {:induction false} UpdateValue(d: seq<int>, i: nat, v: int)
    requires i < |d|
    ensures Value(d[i := v]) == Value(d) + (v - d[i]) * Power3(i)
    decreases |d|
  {
    if i == 0 {
      assert d[0 := v][1..] == d[1..];
    } else {
      assert d[i := v][1..] == d[1..][i - 1 := v];
      UpdateValue(d[1..], i - 1, v);
      Scale3(v - d[i], Power3(i - 1));
    }
  }
}
