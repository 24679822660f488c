/** The 128-trit integer `T81`: two bits a trit, four trits a byte, and arithmetic on the
    unpacked digits, modulo 3^128. */
module Native {
  import opened Bytes
  import opened Multiples
  import opened Ternary

  const WIDTH := 128

  type Int8 = x: int | -128 <= x < 128
  type Digits = d: seq<Int8> | |d| == 128 witness seq(128, _ => 0)
  type Native = b: seq<Byte> | |b| == 32 witness seq(32, _ => 0)

  function Modulus(): (m: nat)
    ensures m > 0
  {
    Power3(WIDTH)
  }

  // ---------- packing

  function EncodeTrit(v: Int8): (bits: nat)
    ensures bits < 3
  {
    if v <= -1 then 0 else if v == 0 then 1 else 2
  }

  function DecodeTrit(bits: nat): Trit {
    if bits == 0 then -1 else if bits == 1 then 0 else 1
  }

  /** The bit pair `t` of a byte. */
  function Pair(b: Byte, t: nat): (p: nat)
    requires t < 4
    ensures p < 4
  {
    if t == 0 then b % 4 else if t == 1 then b / 4 % 4 else if t == 2 then b / 16 % 4 else b / 64
  }

  function UnpackDigits(src: Native): (d: Digits)
    ensures Trits(d)
  {
    seq(128, i requires 0 <= i < 128 => DecodeTrit(Pair(src[i / 4], i % 4)))
  }

  /** The pairs of a byte do not overlap, so that `|` is `+`. */
  function PackByte(a: Int8, b: Int8, c: Int8, d: Int8): Byte {
    EncodeTrit(a) + 4 * EncodeTrit(b) + 16 * EncodeTrit(c) + 64 * EncodeTrit(d)
  }

  function PackDigits(d: Digits): Native {
    seq(32, i requires 0 <= i < 32 => PackByte(d[4 * i], d[4 * i + 1], d[4 * i + 2], d[4 * i + 3]))
  }

  lemma PairsOfByte(a: Int8, b: Int8, c: Int8, d: Int8)
    ensures var p := PackByte(a, b, c, d);
            Pair(p, 0) == EncodeTrit(a) && Pair(p, 1) == EncodeTrit(b) && Pair(p, 2) == EncodeTrit(c) &&
            Pair(p, 3) == EncodeTrit(d)
  {
  }

  /** Digits come back from a packed word. */
  lemma UnpackPack(d: Digits)
    requires Trits(d)
    ensures UnpackDigits(PackDigits(d)) == d
  {
    forall i | 0 <= i < 128 ensures UnpackDigits(PackDigits(d))[i] == d[i] {
      DigitComesBack(d, i);
    }
  }

  lemma DigitComesBack(d: Digits, i: nat)
    requires Trits(d) && i < 128
    ensures UnpackDigits(PackDigits(d))[i] == d[i]
  {
    hide Pair, PackByte;
    var q := i / 4;
    DigitsOfByte(PackDigits(d), q);
    PairsOfByte(d[4 * q], d[4 * q + 1], d[4 * q + 2], d[4 * q + 3]);
    assert i == 4 * q || i == 4 * q + 1 || i == 4 * q + 2 || i == 4 * q + 3;
  }

  /** A word written by `PackDigits` has no bit pair 3. */
  predicate Canonical(w: Native) {
    forall i, t :: 0 <= i < 32 && 0 <= t < 4 ==> Pair(w[i], t) < 3
  }

  lemma PackIsCanonical(d: Digits)
    ensures Canonical(PackDigits(d))
  {
    forall i, t | 0 <= i < 32 && 0 <= t < 4 ensures Pair(PackDigits(d)[i], t) < 3 {
      PairsOfByte(d[4 * i], d[4 * i + 1], d[4 * i + 2], d[4 * i + 3]);
    }
  }

  lemma ByteOfPairs(b: Byte)
    ensures b == Pair(b, 0) + 4 * Pair(b, 1) + 16 * Pair(b, 2) + 64 * Pair(b, 3)
  {
  }

  /** Words come back from their digits exactly when they are canonical. */
  lemma PackUnpackIff(w: Native)
    ensures PackDigits(UnpackDigits(w)) == w <==> Canonical(w)
  {
    hide PackByte, Pair, PackDigits, UnpackDigits;
    var d := UnpackDigits(w);
    var p := PackDigits(d);
    if p == w {
      PackIsCanonical(d);
    }
    if Canonical(w) {
      forall i | 0 <= i < 32 ensures p[i] == w[i] {
        ByteComesBack(w, i);
      }
    }
  }

  lemma ByteComesBack(w: Native, i: nat)
    requires Canonical(w) && i < 32
    ensures PackDigits(UnpackDigits(w))[i] == w[i]
  {
    hide PackByte, Pair, UnpackDigits;
    var d, p := UnpackDigits(w), PackDigits(UnpackDigits(w));
    DigitsOfByte(w, i);
    ByteOfPairs(w[i]);
    ByteOfPairs(p[i]);
    PairsOfByte(d[4 * i], d[4 * i + 1], d[4 * i + 2], d[4 * i + 3]);
    CodesComeBack(w, i);
  }

  lemma CodesComeBack(w: Native, i: nat)
    requires Canonical(w) && i < 32
    ensures forall t :: 0 <= t < 4 ==> EncodeTrit(DecodeTrit(Pair(w[i], t))) == Pair(w[i], t)
  {
    hide Pair;
  }

  lemma DigitsOfByte(w: Native, i: nat)
    requires i < 32
    ensures var d := UnpackDigits(w);
            && d[4 * i] == DecodeTrit(Pair(w[i], 0)) && d[4 * i + 1] == DecodeTrit(Pair(w[i], 1))
            && d[4 * i + 2] == DecodeTrit(Pair(w[i], 2)) && d[4 * i + 3] == DecodeTrit(Pair(w[i], 3))
  {
    assert (4 * i) / 4 == i && (4 * i + 1) / 4 == i && (4 * i + 2) / 4 == i && (4 * i + 3) / 4 == i;
    assert (4 * i) % 4 == 0 && (4 * i + 1) % 4 == 1 && (4 * i + 2) % 4 == 2 && (4 * i + 3) % 4 == 3;
  }

  /** The number a word denotes. */
  function Number(w: Native): int {
    Value(UnpackDigits(w))
  }

  /** Canonical words that denote congruent numbers are the same word. */
  lemma NumberDetermines(v: Native, w: Native)
    requires Canonical(v) && Canonical(w) && Congruent(Number(v), Number(w), Modulus())
    ensures v == w
  {
    CongruentTrits(UnpackDigits(v), UnpackDigits(w));
    PackUnpackIff(v);
    PackUnpackIff(w);
  }

  // ---------- addition, negation, subtraction

  function Normalize(v: int): int {
    if v > 1 then v - 3 else if v < -1 then v + 3 else v
  }

  function CarryOut(v: int): int {
    if v > 1 then 1 else if v < -1 then -1 else 0
  }

  /** An entry of the addition table recomposes its operands. */
  lemma AddEntry(a: Trit, b: Trit, carry: Trit)
    ensures -1 <= Normalize(a + b + carry) <= 1 && -1 <= CarryOut(a + b + carry) <= 1
    ensures Normalize(a + b + carry) + 3 * CarryOut(a + b + carry) == a + b + carry
  {
  }

  /** Digit by digit, with a carry; the last carry is lost. */
  function AddDigits(a: seq<int>, b: seq<int>, carry: int): (r: seq<int>)
    requires |a| == |b|
    ensures |r| == |a|
  {
    if a == [] then []
    else [Normalize(a[0] + b[0] + carry)] + AddDigits(a[1..], b[1..], CarryOut(a[0] + b[0] + carry))
  }

  lemma {:induction false} AddDigitsExact(a: seq<int>, b: seq<int>, carry: Trit) returns (lost: Trit)
    requires |a| == |b| && Trits(a) && Trits(b)
    ensures Trits(AddDigits(a, b, carry))
    ensures Value(AddDigits(a, b, carry)) + lost * Power3(|a|) == Value(a) + Value(b) + carry
    decreases |a|
  {
    if a == [] {
      lost := carry;
    } else {
      var next := CarryOut(a[0] + b[0] + carry);
      AddEntry(a[0], b[0], carry);
      lost := AddDigitsExact(a[1..], b[1..], next);
      var r := AddDigits(a, b, carry);
      assert r[1..] == AddDigits(a[1..], b[1..], next);
      Scale3(lost, Power3(|a| - 1));
    }
  }

  function Add(v: Native, w: Native): Native {
    AddExact(v, w);
    PackDigits(AddDigits(UnpackDigits(v), UnpackDigits(w), 0))
  }

  lemma AddExact(v: Native, w: Native)
    ensures var r := AddDigits(UnpackDigits(v), UnpackDigits(w), 0);
            Trits(r) && Congruent(Value(r), Number(v) + Number(w), Modulus())
  {
    hide Power3, Congruent, Value, UnpackDigits, AddDigits;
    var a, b := UnpackDigits(v), UnpackDigits(w);
    var lost := AddDigitsExact(a, b, 0);
    var r := AddDigits(a, b, 0);
    Opposite(lost, Modulus());
    CongruentBy(Value(r), Number(v) + Number(w), -lost, Modulus());
  }

  lemma Opposite(x: int, m: int)
    ensures -x * m == -(x * m)
  {
  }

  function NegateDigits(d: Digits): (r: Digits)
    requires Trits(d)
    ensures Trits(r)
  {
    seq(128, i requires 0 <= i < 128 => -d[i])
  }

  function Negate(w: Native): Native {
    PackDigits(NegateDigits(UnpackDigits(w)))
  }

  lemma {:induction false} NegateValue(d: seq<int>, e: seq<int>)
    requires |d| == |e| && forall i :: 0 <= i < |d| ==> e[i] == -d[i]
    ensures Value(e) == -Value(d)
  {
    if d != [] {
      NegateValue(d[1..], e[1..]);
    }
  }

  function Subtract(v: Native, w: Native): Native {
    Add(v, Negate(w))
  }

  /** Addition is exact modulo 3^128. */
  lemma AddIsExact(v: Native, w: Native)
    ensures Canonical(Add(v, w)) && Congruent(Number(Add(v, w)), Number(v) + Number(w), Modulus())
  {
    AddExact(v, w);
    var r := AddDigits(UnpackDigits(v), UnpackDigits(w), 0);
    UnpackPack(r);
    PackIsCanonical(r);
  }

  /** Negation is exact: the digits are symmetric. */
  lemma NegateIsExact(w: Native)
    ensures Canonical(Negate(w)) && Number(Negate(w)) == -Number(w)
  {
    var d := UnpackDigits(w);
    UnpackPack(NegateDigits(d));
    PackIsCanonical(NegateDigits(d));
    NegateValue(d, NegateDigits(d));
  }

  lemma SubtractIsExact(v: Native, w: Native)
    ensures Canonical(Subtract(v, w)) && Congruent(Number(Subtract(v, w)), Number(v) - Number(w), Modulus())
  {
    hide Add, Negate, Number, Congruent, Canonical;
    NegateIsExact(w);
    AddIsExact(v, Negate(w));
  }

  /** Words form a group under addition, as bytes and not only as residues. */
  lemma AdditionGroup(u: Native, v: Native, w: Native)
    ensures Add(u, v) == Add(v, u)
    ensures Add(Add(u, v), w) == Add(u, Add(v, w))
    ensures Canonical(u) ==> Subtract(Add(u, v), v) == u
  {
    hide Add, Negate, Canonical, Number, Modulus, Subtract, Congruent;
    var m := Modulus();
    AddIsExact(u, v);
    AddIsExact(v, u);
    SameSum(Add(u, v), Add(v, u), Number(u) + Number(v));
    AddIsExact(Add(u, v), w);
    AddIsExact(v, w);
    AddIsExact(u, Add(v, w));
    var total := Number(u) + Number(v) + Number(w);
    Shifted(Number(Add(u, v)), Number(u) + Number(v), Number(w));
    Shifted(Number(Add(v, w)), Number(v) + Number(w), Number(u));
    CongruentAll(Number(Add(Add(u, v), w)), Number(Add(u, v)) + Number(w), total, m);
    CongruentAll(Number(Add(u, Add(v, w))), Number(Add(v, w)) + Number(u), total, m);
    SameSum(Add(Add(u, v), w), Add(u, Add(v, w)), total);
    if Canonical(u) {
      SubtractIsExact(Add(u, v), v);
      Shifted(Number(Add(u, v)), Number(u) + Number(v), -Number(v));
      CongruentAll(Number(Subtract(Add(u, v), v)), Number(Add(u, v)) - Number(v), Number(u), m);
      NumberDetermines(Subtract(Add(u, v), v), u);
    }
  }

  lemma Shifted(x: int, y: int, z: int)
    requires Congruent(x, y, Modulus())
    ensures Congruent(x + z, y + z, Modulus())
  {
    hide Modulus;
  }

  lemma SameSum(v: Native, w: Native, total: int)
    requires Canonical(v) && Canonical(w)
    requires Congruent(Number(v), total, Modulus()) && Congruent(Number(w), total, Modulus())
    ensures v == w
  {
    hide Canonical, Number, Modulus, Congruent;
    Symmetric(Number(w), total, Modulus());
    CongruentAll(Number(v), total, Number(w), Modulus());
    NumberDetermines(v, w);
  }

  // ---------- shifting

  /** A word of zero bytes: every digit is -1. */
  function Blank(): Native {
    seq(32, _ => 0)
  }

  function ShiftDigits(d: Digits, shift: nat): (r: Digits)
    requires shift < 128
    ensures Trits(d) ==> Trits(r)
  {
    seq(128, i requires 0 <= i < 128 => if i < shift then 0 else d[i - shift])
  }

  function ShiftLeftTrits(w: Native, shift: nat): Native {
    if shift >= 128 then Blank() else PackDigits(ShiftDigits(UnpackDigits(w), shift))
  }

  lemma {:induction false} Prepend(n: nat, d: seq<int>)
    ensures Value(Zeros(n) + d) == Power3(n) * Value(d)
  {
    ValueSplit(Zeros(n) + d, n);
    assert (Zeros(n) + d)[..n] == Zeros(n) && (Zeros(n) + d)[n..] == d;
    ZerosValue(n);
  }

  lemma ShiftInRange(w: Native, shift: nat)
    requires shift < 128
    ensures Canonical(ShiftLeftTrits(w, shift))
    ensures Congruent(Number(ShiftLeftTrits(w, shift)), Number(w) * Power3(shift), Modulus())
  {
    hide PackDigits, UnpackDigits, Congruent, Power3, Canonical, Value;
    var d := UnpackDigits(w);
    var r := ShiftDigits(d, shift);
    UnpackPack(r);
    PackIsCanonical(r);
    var long := Zeros(shift) + d;
    assert r == long[..128];
    LowDigits(long, 128);
    Prepend(shift, d);
    assert Number(w) * Power3(shift) == Power3(shift) * Value(d);
  }

  lemma {:induction false} AllDown(d: seq<int>)
    requires forall i :: 0 <= i < |d| ==> d[i] == -1
    ensures 2 * Value(d) == 1 - Power3(|d|)
  {
    if d != [] {
      AllDown(d[1..]);
    }
  }

  lemma {:induction false} PowerSplits(m: nat, n: nat)
    ensures Power3(m + n) == Power3(m) * Power3(n)
    decreases m
  {
    if m > 0 {
      PowerSplits(m - 1, n);
      Scale(Power3(m - 1), Power3(n));
    }
  }

  /** Shifting is exact modulo 3^128 exactly for shifts below 128: beyond, the result is the
      blank word, which denotes -(3^128 - 1) / 2 and not zero. */
  lemma ShiftExactIff(w: Native, shift: nat)
    ensures Congruent(Number(ShiftLeftTrits(w, shift)), Number(w) * Power3(shift), Modulus()) <==> shift < 128
  {
    if shift < 128 {
      ShiftInRange(w, shift);
    } else {
      BlankIsWrong(w, shift);
    }
  }

  lemma BlankNumber()
    ensures 2 * Number(Blank()) == 1 - Modulus()
  {
    hide Power3;
    var d := UnpackDigits(Blank());
    assert forall i :: 0 <= i < 128 ==> d[i] == -1;
    AllDown(d);
  }

  lemma BlankIsWrong(w: Native, shift: nat)
    requires shift >= 128
    ensures !Congruent(Number(Blank()), Number(w) * Power3(shift), Modulus())
  {
    hide Number, Blank, Congruent;
    var m := Modulus();
    BlankNumber();
    hide Power3, Modulus;
    PowerSplits(shift - 128, 128);
    var k := Number(w) * Power3(shift - 128);
    Associate(Number(w), Power3(shift - 128), m);
    WideModulus();
    if Congruent(Number(Blank()), k * m, m) {
      var q := Quotient(Number(Blank()), k * m, m);
      Distribute(k, q, m);
      NoHalf(k + q, m);
    }
  }

  lemma WideModulus()
    ensures Power3(128) == Modulus() > 1
  {
  }

  lemma Distribute(j: int, k: int, m: int)
    ensures j * m + k * m == (j + k) * m
  {
  }

  lemma Associate(a: int, b: int, c: int)
    ensures a * (b * c) == (a * b) * c
  {
  }

  lemma NoHalf(k: int, m: nat)
    requires m > 1
    ensures 2 * (k * m) != 1 - m
  {
    NoSmallMultiple(2 * k + 1, m);
    Unfold(k, m);
  }

  lemma Unfold(k: int, m: int)
    ensures (2 * k + 1) * m == 2 * (k * m) + m
  {
  }
}
