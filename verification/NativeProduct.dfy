/** Schoolbook multiplication of 128-trit integers: 256 accumulators of one signed byte,
    then one pass that carries. */
module NativeProduct {
  import opened Multiples
  import opened Ternary
  import opened Native

  type Accumulators = a: seq<int> | |a| == 256 witness seq(256, _ => 0)

  /** Row `i` of the schoolbook scheme: the products of digit `i`, in their columns. */
  function AddRow(acc: Accumulators, x: int, r: seq<int>, i: nat): Accumulators
    requires i + |r| <= 256
  {
    seq(256, k requires 0 <= k < 256 => acc[k] + if i <= k < i + |r| then x * r[k - i] else 0)
  }

  /** The columns after the first `n` rows, in unbounded accumulators. */
  function Columns(l: Digits, r: Digits, n: nat): Accumulators
    requires n <= 128
  {
    if n == 0 then Zeros(256) else AddRow(Columns(l, r, n - 1), l[n - 1], r, n - 1)
  }

  /** `static_cast<int8_t>`. */
  function Wrap8(v: int): Int8 {
    (v + 128) % 256 - 128
  }

  function Wrapped(acc: Accumulators): (w: Accumulators)
    ensures forall k :: 0 <= k < 256 ==> w[k] == Wrap8(acc[k])
  {
    seq(256, k requires 0 <= k < 256 => Wrap8(acc[k]))
  }

  /** The carry of a column: C++ division, which truncates, of the value moved away from
      zero. */
  function NextCarry(v: int): int {
    if v >= 0 then (v + 1) / 3 else -((1 - v) / 3)
  }

  /** The columns, each reduced to a digit. */
  function CarryPass(acc: seq<int>, carry: int): (d: seq<int>)
    ensures |d| == |acc|
    ensures Trits(d)
  {
    if acc == [] then []
    else
      var v := acc[0] + carry;
      [v - 3 * NextCarry(v)] + CarryPass(acc[1..], NextCarry(v))
  }

  function MultiplyDigits(l: Digits, r: Digits): (d: Digits)
    ensures Trits(d)
  {
    CarryPass(Wrapped(Columns(l, r, 128)), 0)[..128]
  }

  function Multiply(v: Native, w: Native): Native {
    PackDigits(MultiplyDigits(UnpackDigits(v), UnpackDigits(w)))
  }

  // ---------- the columns denote the product

  lemma {:induction false} AddRowValue(acc: seq<int>, sum: seq<int>, x: int, r: seq<int>, i: nat)
    requires |acc| == |sum| && i + |r| <= |acc|
    requires forall k :: 0 <= k < |acc| ==> sum[k] == acc[k] + if i <= k < i + |r| then x * r[k - i] else 0
    ensures Value(sum) == Value(acc) + Power3(i) * (x * Value(r))
    decreases |acc|
  {
    if acc != [] {
      if i > 0 {
        AddRowValue(acc[1..], sum[1..], x, r, i - 1);
        Scale(Power3(i - 1), x * Value(r));
      } else if r != [] {
        AddRowValue(acc[1..], sum[1..], x, r[1..], 0);
        Column(x, r[0], Value(r[1..]));
      } else {
        AddRowValue(acc[1..], sum[1..], x, [], 0);
      }
    }
  }

  lemma Column(x: int, d: int, rest: int)
    ensures x * (d + 3 * rest) == x * d + 3 * (x * rest)
  {
  }

  lemma {:induction false} ColumnsValue(l: Digits, r: Digits, n: nat)
    requires n <= 128
    ensures Value(Columns(l, r, n)) == Value(l[..n]) * Value(r)
    decreases n
  {
    if n == 0 {
      ZerosValue(256);
    } else {
      ColumnsValue(l, r, n - 1);
      AddRowValue(Columns(l, r, n - 1), Columns(l, r, n), l[n - 1], r, n - 1);
      ValueSplit(l[..n], n - 1);
      assert l[..n][..n - 1] == l[..n - 1] && l[..n][n - 1..] == [l[n - 1]];
      SingleDigit(l[n - 1]);
      Gather(Value(l[..n - 1]), Power3(n - 1), l[n - 1], Value(r));
    }
  }

  lemma SingleDigit(x: int)
    ensures Value([x]) == x
  {
    assert [x][1..] == [];
  }

  lemma Gather(low: int, p: int, x: int, r: int)
    ensures low * r + p * (x * r) == (low + p * x) * r
  {
    assert p * (x * r) == (p * x) * r;
  }

  /** The carry pass keeps the number, but for the carry that is lost at the end. */
  lemma {:induction false} CarryPassValue(acc: seq<int>, carry: int) returns (lost: int)
    ensures Value(CarryPass(acc, carry)) + lost * Power3(|acc|) == Value(acc) + carry
    decreases |acc|
  {
    if acc == [] {
      lost := carry;
    } else {
      var v := acc[0] + carry;
      lost := CarryPassValue(acc[1..], NextCarry(v));
      assert CarryPass(acc, carry)[1..] == CarryPass(acc[1..], NextCarry(v));
      Scale3(lost, Power3(|acc| - 1));
    }
  }

  // ---------- how large a column gets

  /** How many of the first `n` rows reach column `k`. */
  function Terms(k: int, n: nat): int
    requires 0 <= k < 256 && n <= 128
  {
    var last := if k < n then k + 1 else n;
    var first := if k >= 128 then k - 127 else 0;
    if first < last then last - first else 0
  }

  /** A column holds at most one for every row that reaches it, and as many as that only
      when every one of those products is one. */
  lemma {:induction false} ColumnBound(l: Digits, r: Digits, n: nat, k: nat)
    requires Trits(l) && Trits(r) && n <= 128 && k < 256
    ensures -Terms(k, n) <= Columns(l, r, n)[k] <= Terms(k, n)
    ensures Columns(l, r, n)[k] == Terms(k, n) <==> forall i :: 0 <= i < n && 0 <= k - i < 128 ==> l[i] * r[k - i] == 1
    decreases n
  {
    if n > 0 {
      ColumnBound(l, r, n - 1, k);
      if 0 <= k - (n - 1) < 128 {
        TritProduct(l[n - 1], r[k - (n - 1)]);
      }
    }
  }

  lemma TritProduct(x: Trit, y: Trit)
    ensures -1 <= x * y <= 1
  {
  }

  /** All 128 products of the widest column are one. */
  predicate Overflows(l: seq<int>, r: seq<int>)
    requires |l| == |r| == 128
  {
    forall i :: 0 <= i < 128 ==> l[i] * r[127 - i] == 1
  }

  /** An accumulator holds its column unless it is the widest and overflows, by one. */
  lemma WrapsOnlyIfOverflow(l: Digits, r: Digits, k: nat)
    requires Trits(l) && Trits(r) && k < 256
    ensures var c := Columns(l, r, 128)[k];
            Wrap8(c) == if k == 127 && Overflows(l, r) then c - 256 else c
  {
    ColumnBound(l, r, 128, k);
    if k == 127 {
      assert Terms(127, 128) == 128;
    } else {
      assert Terms(k, 128) < 128;
    }
  }

  lemma WrappedColumns(l: Digits, r: Digits)
    requires Trits(l) && Trits(r)
    ensures var acc := Columns(l, r, 128);
            Wrapped(acc) == if Overflows(l, r) then acc[127 := acc[127] - 256] else acc
  {
    hide Columns, Wrap8, Overflows;
    var acc := Columns(l, r, 128);
    forall k | 0 <= k < 256
      ensures Wrapped(acc)[k] == if k == 127 && Overflows(l, r) then acc[k] - 256 else acc[k]
    {
      WrapsOnlyIfOverflow(l, r, k);
    }
  }

  // ---------- the product

  /** What the digits of a product denote, modulo 3^128. */
  lemma ProductValue(l: Digits, r: Digits)
    requires Trits(l) && Trits(r)
    ensures Congruent(Value(MultiplyDigits(l, r)),
                      Value(l) * Value(r) - (if Overflows(l, r) then 256 * Power3(127) else 0), Modulus())
  {
    hide Columns, Wrapped, Overflows, CarryPass, Congruent, Power3, Value;
    var acc := Columns(l, r, 128);
    ColumnsValue(l, r, 128);
    assert l[..128] == l;
    WrappedColumns(l, r);
    UpdateValue(acc, 127, acc[127] - 256);
    CarriedLow(Wrapped(acc));
  }

  /** The low half of the digits is the number, modulo 3^128. */
  lemma CarriedLow(acc: Accumulators)
    ensures Congruent(Value(CarryPass(acc, 0)[..128]), Value(acc), Modulus())
  {
    hide CarryPass, Congruent, Power3, Value;
    var d := CarryPass(acc, 0);
    var lost := CarryPassValue(acc, 0);
    var half := Power3(128);
    LowDigits(d, 128);
    PowerSplits(128, 128);
    Associate(lost, half, half);
    Opposite(lost * half, half);
    CongruentBy(Value(d), Value(acc), -(lost * half), half);
    CongruentAll(Value(d[..128]), Value(d), Value(acc), half);
  }

  lemma OverflowIsWrong(product: int)
    ensures !Congruent(product - 256 * Power3(127), product, Modulus())
  {
    var p := Power3(127);
    assert Modulus() == 3 * p by { PowerStep(127); }
    hide Power3, Modulus, Congruent;
    if Congruent(product - 256 * p, product, 3 * p) {
      var k := Quotient(product - 256 * p, product, 3 * p);
      Scale3(k, p);
      assert (3 * k + 256) * p == 0;
      NoSmallMultiple(3 * k + 256, p);
    }
  }

  lemma PowerStep(n: nat)
    ensures Power3(n + 1) == 3 * Power3(n)
  {
  }

  /** Multiplication is exact modulo 3^128 exactly when the widest column does not hold
      128 products that are all one: then its accumulator of one byte overflows, and the
      result is off by 256 * 3^127. */
  lemma MultiplyExactIff(v: Native, w: Native)
    ensures Canonical(Multiply(v, w))
    ensures Congruent(Number(Multiply(v, w)), Number(v) * Number(w), Modulus())
            <==> !Overflows(UnpackDigits(v), UnpackDigits(w))
  {
    hide MultiplyDigits, PackDigits, Canonical, Congruent, Overflows, Power3, Modulus, Value;
    var l, r := UnpackDigits(v), UnpackDigits(w);
    var d := MultiplyDigits(l, r);
    UnpackPack(d);
    PackIsCanonical(d);
    ProductValue(l, r);
    NumberIs(Multiply(v, w), d);
    NumberIs(v, l);
    NumberIs(w, r);
    if Overflows(l, r) {
      var product := Value(l) * Value(r);
      OverflowIsWrong(product);
      Differ(Value(d), product - 256 * Power3(127), product, Modulus());
    }
  }

  lemma NumberIs(w: Native, d: Digits)
    requires UnpackDigits(w) == d
    ensures Number(w) == Value(d)
  {
  }

  /** Two words that overflow: every digit is one. */
  lemma OnesOverflow()
    ensures var ones: Native := seq(32, _ => 170);
            Canonical(ones) && 2 * Number(ones) == Modulus() - 1
            && Overflows(UnpackDigits(ones), UnpackDigits(ones))
  {
    hide Power3;
    var ones: Native := seq(32, _ => 170);
    var d := UnpackDigits(ones);
    assert forall i :: 0 <= i < 128 ==> d[i] == 1;
    AllUp(d);
  }

  lemma {:induction false} AllUp(d: seq<int>)
    requires forall i :: 0 <= i < |d| ==> d[i] == 1
    ensures 2 * Value(d) == Power3(|d|) - 1
  {
    if d != [] {
      AllUp(d[1..]);
    }
  }

  lemma OverflowSymmetric(l: Digits, r: Digits)
    requires Overflows(l, r)
    ensures Overflows(r, l)
  {
    forall i | 0 <= i < 128 ensures (var x: int, y: int := r[i], l[127 - i]; x * y == 1) {
      var j := 127 - i;
      assert 0 <= j < 128;
    }
  }

  /** The factors commute, overflow or not. */
  lemma MultiplyCommutes(v: Native, w: Native)
    ensures Multiply(v, w) == Multiply(w, v)
  {
    hide MultiplyDigits, Congruent, Overflows, Power3, Modulus, Value;
    var l, r := UnpackDigits(v), UnpackDigits(w);
    ProductValue(l, r);
    ProductValue(r, l);
    if Overflows(l, r) {
      OverflowSymmetric(l, r);
    }
    if Overflows(r, l) {
      OverflowSymmetric(r, l);
    }
    var d, e := MultiplyDigits(l, r), MultiplyDigits(r, l);
    var total := Value(l) * Value(r) - (if Overflows(l, r) then 256 * Power3(127) else 0);
    Symmetric(Value(e), total, Modulus());
    CongruentAll(Value(d), total, Value(e), Modulus());
    SameTrits(d, e);
  }

  lemma SameTrits(d: Digits, e: Digits)
    requires Trits(d) && Trits(e) && Congruent(Value(d), Value(e), Modulus())
    ensures d == e
  {
    CongruentTrits(d, e);
  }

  /** Where no product overflows, multiplication distributes over addition. */
  lemma MultiplyDistributes(u: Native, v: Native, w: Native)
    requires !Overflows(UnpackDigits(u), UnpackDigits(v)) && !Overflows(UnpackDigits(u), UnpackDigits(w))
    requires !Overflows(UnpackDigits(u), UnpackDigits(Add(v, w)))
    ensures Multiply(u, Add(v, w)) == Add(Multiply(u, v), Multiply(u, w))
  {
    hide Add, Multiply, Canonical, Number, Modulus, Congruent, Overflows, UnpackDigits;
    var m := Modulus();
    var a, b, c := Number(u), Number(v), Number(w);
    var uv, uw, sum := Multiply(u, v), Multiply(u, w), Add(v, w);
    MultiplyExactIff(u, v);
    MultiplyExactIff(u, w);
    MultiplyExactIff(u, sum);
    AddIsExact(v, w);
    AddIsExact(uv, uw);
    TimesCongruent(a, Number(sum), b + c, m);
    CongruentAll(Number(Multiply(u, sum)), a * Number(sum), a * (b + c), m);
    PlusCongruent(Number(uv), a * b, Number(uw), a * c, m);
    assert a * (b + c) == a * b + a * c;
    CongruentAll(Number(Add(uv, uw)), Number(uv) + Number(uw), a * (b + c), m);
    SameSum(Multiply(u, sum), Add(uv, uw), a * (b + c));
  }
}
