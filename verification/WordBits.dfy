/** What the casts and operators on words compute, said bit by bit. */
module WordBits {
  import opened Word

  /** The casts are the words congruent to their argument, and there is one such word only. */
  lemma CastsCongruent(x: int, w: Word)
    ensures (Wrap(x) - x) % TWO_64 == 0
    ensures (w - x) % TWO_64 == 0 ==> w == Wrap(x)
    ensures (Narrow(w) - w) % TWO_32 == 0
    ensures Wrap(Unsigned(w)) == w && (0 <= x < TWO_64 ==> Unsigned(Wrap(x)) == x)
  {
  }

  /** Bit `i` of a natural number. */
  function NatBit(x: nat, i: nat): (b: nat)
    ensures b < 2
  {
    x / Power2(i) % 2
  }

  /** Bit `i` of a word, counted from the least significant one. */
  function BitAt(x: Word, i: nat): (b: nat)
    ensures b < 2
  {
    NatBit(Unsigned(x), i)
  }

  lemma HalveBoth(x: nat, p: nat)
    requires p > 0
    ensures x / (2 * p) == x / 2 / p
  {
    var q, r := x / 2 / p, x / 2 % p;
    assert x / 2 == q * p + r;
    var s := 2 * r + x % 2;
    assert x == q * (2 * p) + s by {
      assert q * (2 * p) == 2 * (q * p);
    }
    DivideUnique(x, 2 * p, q, s);
  }

  lemma DivideUnique(x: int, d: nat, q: int, r: nat)
    requires d > 0 && r < d && x == q * d + r
    ensures x / d == q && x % d == r
  {
    var k := x / d - q;
    assert x == x / d * d + x % d;
    assert k * d == r - x % d by {
      assert k * d == x / d * d - q * d;
    }
    MultipleSize(k, d);
  }

  lemma MultipleSize(k: int, d: nat)
    ensures k >= 0 ==> k * d >= 0
    ensures k >= 1 ==> k * d >= d
    ensures k <= -1 ==> k * d + d <= 0
  {
    if k >= 1 {
      assert (k - 1) * d >= 0;
    } else if k <= -1 {
      assert (-k - 1) * d >= 0;
    }
  }

  /** The bits of a number are its parity and the bits of its half. */
  lemma BitOfHalf(x: nat, i: nat)
    ensures NatBit(x, 0) == x % 2
    ensures NatBit(x, i + 1) == NatBit(x / 2, i)
  {
    HalveBoth(x, Power2(i));
  }

  /** Bit by bit the operators are "both", "either" and "not the same". */
  lemma {:induction false} BitsOf(op: BitOp, x: nat, y: nat, n: nat, i: nat)
    ensures Bits(op, x, y, n) < Power2(n)
    ensures i < n ==> (NatBit(Bits(op, x, y, n), i) == 1 <==>
              match op
              case And => NatBit(x, i) == 1 && NatBit(y, i) == 1
              case Or => NatBit(x, i) == 1 || NatBit(y, i) == 1
              case Xor => NatBit(x, i) != NatBit(y, i))
    decreases n
  {
    hide NatBit;
    if n > 0 {
      var half := Bits(op, x / 2, y / 2, n - 1);
      var r := Bits(op, x, y, n);
      assert r / 2 == half && r % 2 == Bit(op, x % 2, y % 2);
      if i > 0 {
        BitOfHalf(r, i - 1);
        BitOfHalf(x, i - 1);
        BitOfHalf(y, i - 1);
        BitsOf(op, x / 2, y / 2, n - 1, i - 1);
      } else {
        BitOfHalf(r, 0);
        BitOfHalf(x, 0);
        BitOfHalf(y, 0);
        BitsOf(op, x / 2, y / 2, n - 1, 0);
      }
    }
  }

  /** `&`, `|` and `^`, bit by bit. */
  lemma BitwiseBits(x: Word, y: Word, i: nat)
    requires i < 64
    ensures BitAt(Bitwise(And, x, y), i) == 1 <==> BitAt(x, i) == 1 && BitAt(y, i) == 1
    ensures BitAt(Bitwise(Or, x, y), i) == 1 <==> BitAt(x, i) == 1 || BitAt(y, i) == 1
    ensures BitAt(Bitwise(Xor, x, y), i) == 1 <==> BitAt(x, i) != BitAt(y, i)
  {
    hide Bits, NatBit, Power2;
    Power64();
    BitsOf(And, Unsigned(x), Unsigned(y), 64, i);
    BitsOf(Or, Unsigned(x), Unsigned(y), 64, i);
    BitsOf(Xor, Unsigned(x), Unsigned(y), 64, i);
  }

  lemma Power64()
    ensures Power2(64) == TWO_64 && Power2(63) == TWO_63
  {
    hide Power2;
    PowerStep(0);
    PowerStep(63);
    PowerSum(1, 1);
    PowerSum(2, 2);
    PowerSum(4, 4);
    PowerSum(8, 8);
    PowerSum(16, 16);
    PowerSum(32, 32);
  }

  lemma PowerStep(n: nat)
    ensures Power2(0) == 1 && Power2(n + 1) == 2 * Power2(n)
  {
  }

  lemma {:induction false} PowerSum(m: nat, n: nat)
    ensures Power2(m + n) == Power2(m) * Power2(n)
    decreases m
  {
    if m > 0 {
      PowerSum(m - 1, n);
      Regroup(2, Power2(m - 1), Power2(n));
    }
  }

  lemma Regroup(a: int, b: int, c: int)
    ensures a * (b * c) == (a * b) * c
  {
  }

  lemma {:induction false} ComplementOf(x: nat, n: nat, i: nat)
    requires x < Power2(n) && i < n
    ensures NatBit(Power2(n) - 1 - x, i) == 1 - NatBit(x, i)
    decreases n
  {
    hide NatBit;
    var c := Power2(n) - 1 - x;
    assert c / 2 == Power2(n - 1) - 1 - x / 2 && c % 2 == 1 - x % 2;
    if i > 0 {
      BitOfHalf(c, i - 1);
      BitOfHalf(x, i - 1);
      ComplementOf(x / 2, n - 1, i - 1);
    } else {
      BitOfHalf(c, 0);
      BitOfHalf(x, 0);
    }
  }

  /** `~`, bit by bit. */
  lemma ComplementBits(x: Word, i: nat)
    requires i < 64
    ensures BitAt(Complement(x), i) == 1 - BitAt(x, i)
  {
    hide NatBit, Power2;
    Power64();
    ComplementOf(Unsigned(x), 64, i);
  }

  /** A number put together of a low part and a high one. */
  lemma {:induction false} BitOfSum(low: nat, high: nat, n: nat, i: nat)
    requires low < Power2(n)
    ensures Power2(n) * high >= 0
    ensures NatBit(low + Power2(n) * high, i) == if i < n then NatBit(low, i) else NatBit(high, i - n)
    decreases n
  {
    hide NatBit;
    if n > 0 {
      var whole := low + Power2(n) * high;
      var p := Power2(n - 1) * high;
      assert Power2(n) * high == 2 * p;
      BitOfSum(low / 2, high, n - 1, if i > 0 then i - 1 else 0);
      assert whole / 2 == low / 2 + p && whole % 2 == low % 2;
      if i > 0 {
        BitOfHalf(whole, i - 1);
        BitOfHalf(low, i - 1);
      } else {
        BitOfHalf(whole, 0);
        BitOfHalf(low, 0);
      }
    }
  }

  lemma {:induction false} AllOnes(n: nat, i: nat)
    requires i < n
    ensures NatBit(Power2(n) - 1, i) == 1
    decreases n
  {
    var x, y := Power2(n) - 1, Power2(n - 1);
    assert Power2(n) == 2 * y;
    hide NatBit, Power2;
    assert x % 2 == 1 && x / 2 == y - 1;
    if i > 0 {
      BitOfHalf(x, i - 1);
      AllOnes(n - 1, i - 1);
    } else {
      BitOfHalf(x, 0);
    }
  }

  /** Division by a power of two drops the low bits. */
  lemma DropBits(x: nat, k: nat, i: nat, q: nat)
    requires q == x / Power2(k)
    ensures NatBit(q, i) == NatBit(x, i + k)
  {
    hide NatBit, Power2;
    var p := Power2(k);
    var low := x % p;
    assert x == low + p * q by {
      assert x == x / p * p + x % p;
    }
    BitOfSum(low, q, k, i + k);
  }

  lemma HighBits(x: nat, n: nat, i: nat)
    requires x < Power2(n) <= Power2(i)
    ensures NatBit(x, i) == 0
  {
    assert x / Power2(i) == 0 by {
      DivideUnique(x, Power2(i), 0, x);
    }
  }

  lemma PowersGrow(m: nat, n: nat)
    requires m <= n
    ensures Power2(m) <= Power2(n)
  {
    PowerSum(m, n - m);
    assert Power2(m) * (Power2(n - m) - 1) >= 0;
  }

  lemma LeftBits(x: Word, k: nat, i: nat)
    requires k < 64 && i < 64
    ensures BitAt(Shift(Left, x, k), i) == if i < k then 0 else BitAt(x, i - k)
  {
    hide NatBit, Power2, Wrap;
    Power64();
    var u, p := Unsigned(x), Power2(k);
    BitOfSum(0, u, k, i);
    ZeroBit(i);
    LeftShiftUnsigned(x, p);
    LowBits(p * u, i);
  }

  /** The low 64 bits are those of the remainder. */
  lemma LowBits(x: nat, i: nat)
    requires i < 64
    ensures NatBit(x % TWO_64, i) == NatBit(x, i)
  {
    hide NatBit, Power2;
    Power64();
    BitOfSum(x % TWO_64, x / TWO_64, 64, i);
  }

  lemma ZeroBit(i: nat)
    ensures NatBit(0, i) == 0
  {
    DivideUnique(0, Power2(i), 0, 0);
  }

  lemma LeftShiftUnsigned(x: Word, p: nat)
    ensures Unsigned(Wrap(x * p)) == (p * Unsigned(x)) % TWO_64
  {
    var whole := p * Unsigned(x);
    var q := if x < 0 then p else 0;
    assert whole == x * p + q * TWO_64;
    var w := Unsigned(Wrap(x * p));
    assert (w - x * p) % TWO_64 == 0;
    var m := (w - x * p) / TWO_64;
    assert w == x * p + m * TWO_64;
    assert whole == (q - m) * TWO_64 + w;
    DivideUnique(whole, TWO_64, q - m, w);
  }

  lemma LogicalBits(x: Word, k: nat, i: nat)
    requires k < 64 && i < 64
    ensures BitAt(Shift(Logical, x, k), i) == if i + k < 64 then BitAt(x, i + k) else 0
  {
    hide NatBit, Power2;
    Power64();
    DropBits(Unsigned(x), k, i, Unsigned(x) / Power2(k));
    QuotientSmall(Unsigned(x), Power2(k));
    CastsCongruent(Unsigned(x) / Power2(k), 0);
    if i + k >= 64 {
      PowersGrow(64, i + k);
      HighBits(Unsigned(x), 64, i + k);
    }
  }

  lemma QuotientSmall(x: nat, p: nat)
    requires p > 0
    ensures 0 <= x / p <= x
  {
    var q := x / p;
    assert x == q * p + x % p;
    MultipleSize(q, p);
    if q >= 0 {
      MultipleSize(p - 1, q);
      assert (p - 1) * q == q * p - q;
    }
  }

  lemma ArithmeticBits(x: Word, k: nat, i: nat)
    requires k < 64 && i < 64
    ensures BitAt(Shift(Arithmetic, x, k), i) == BitAt(x, if i + k < 64 then i + k else 63)
  {
    hide NatBit, Power2, Shift;
    SignBit(x);
    if x >= 0 {
      PositiveShift(x, k);
      LogicalBits(x, k, i);
    } else {
      NegativeBits(x, k, i);
    }
  }

  lemma PositiveShift(x: Word, k: nat)
    requires x >= 0 && k < 64
    ensures Shift(Arithmetic, x, k) == Shift(Logical, x, k)
  {
    hide Power2, Wrap;
  }

  lemma NegativeBits(x: Word, k: nat, i: nat)
    requires x < 0 && k < 64 && i < 64
    ensures BitAt(Shift(Arithmetic, x, k), i) == if i + k < 64 then BitAt(x, i + k) else 1
  {
    hide NatBit, Power2, Wrap, Unsigned;
    Power64();
    var u, p, rest := Unsigned(x), Power2(k), Power2(64 - k);
    PowerSum(64 - k, k);
    DropBits(u, k, i, u / p);
    ArithmeticUnsigned(x, p, rest);
    BitOfSum(u / p, p - 1, 64 - k, i);
    if i + k >= 64 {
      AllOnes(k, i + k - 64);
    }
    NegativeShift(x, k);
  }

  lemma NegativeShift(x: Word, k: nat)
    requires k < 64
    ensures Shift(Arithmetic, x, k) == Wrap(x / Power2(k))
  {
    hide Power2, Wrap;
  }

  /** Of a negative word the shift fills in ones from above. */
  lemma ArithmeticUnsigned(x: Word, p: nat, rest: nat)
    requires x < 0 && p > 0 && rest * p == TWO_64
    ensures var u := Unsigned(x);
            u / p < rest && Unsigned(Wrap(x / p)) == u / p + rest * (p - 1)
  {
    var u := Unsigned(x);
    var q, r := u / p, u % p;
    assert u == q * p + r;
    assert x == (q - rest) * p + r by {
      assert (q - rest) * p == q * p - rest * p;
    }
    DivideUnique(x, p, q - rest, r);
    assert rest * (p - 1) == TWO_64 - rest;
    MultipleSize(q - rest, p);
    MultipleSize(rest - q - TWO_63, p);
  }

  lemma SignBit(x: Word)
    ensures BitAt(x, 63) == if x < 0 then 1 else 0
  {
    hide Power2;
    Power64();
    DivideUnique(Unsigned(x), TWO_63, if x < 0 then 1 else 0, if x < 0 then x + TWO_63 else x);
  }

  lemma AmountCounts(x: Word, amount: Word)
    ensures forall op :: Shift(op, x, amount) == Shift(op, x, amount % 64)
  {
    hide Power2, Wrap;
    assert Unsigned(amount) % 64 == amount % 64;
  }

  /** The shifts, bit by bit: zeros come in, but copies of the sign in an arithmetic one.  The
      amount counts modulo 64. */
  lemma ShiftBits(x: Word, amount: Word, i: nat)
    requires i < 64
    ensures var k := amount % 64;
            && BitAt(Shift(Left, x, amount), i) == (if i < k then 0 else BitAt(x, i - k))
            && BitAt(Shift(Logical, x, amount), i) == (if i + k < 64 then BitAt(x, i + k) else 0)
            && BitAt(Shift(Arithmetic, x, amount), i) == BitAt(x, if i + k < 64 then i + k else 63)
  {
    hide BitAt, Shift;
    var k := amount % 64;
    AmountCounts(x, amount);
    LeftBits(x, k, i);
    LogicalBits(x, k, i);
    ArithmeticBits(x, k, i);
  }

  lemma {:induction false} NumberByBits(x: nat, y: nat, n: nat)
    requires x < Power2(n) && y < Power2(n)
    requires forall i :: 0 <= i < n ==> NatBit(x, i) == NatBit(y, i)
    ensures x == y
    decreases n
  {
    hide NatBit;
    if n > 0 {
      BitOfHalf(x, 0);
      BitOfHalf(y, 0);
      forall i | 0 <= i < n - 1 ensures NatBit(x / 2, i) == NatBit(y / 2, i) {
        BitOfHalf(x, i);
        BitOfHalf(y, i);
        assert NatBit(x, i + 1) == NatBit(y, i + 1);
      }
      NumberByBits(x / 2, y / 2, n - 1);
    }
  }

  /** A word is its 64 bits. */
  lemma WordByBits(x: Word, y: Word)
    requires forall i :: 0 <= i < 64 ==> BitAt(x, i) == BitAt(y, i)
    ensures x == y
  {
    hide NatBit, Power2;
    Power64();
    forall i | 0 <= i < 64 ensures NatBit(Unsigned(x), i) == NatBit(Unsigned(y), i) {
      assert BitAt(x, i) == BitAt(y, i);
    }
    NumberByBits(Unsigned(x), Unsigned(y), 64);
  }
}
