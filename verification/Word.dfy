/** Host integers of the virtual machine: two's-complement 64-bit register words,
    the narrowing casts the sources apply to them, and C++ division, which
    truncates toward zero.  Signed overflow wraps. */
module Word {

  const TWO_31 := 0x8000_0000
  const TWO_32 := 0x1_0000_0000
  const TWO_63 := 0x8000_0000_0000_0000
  const TWO_64 := 0x1_0000_0000_0000_0000

  type Word = x: int | -0x8000_0000_0000_0000 <= x < 0x8000_0000_0000_0000
  type Int32 = x: int | -0x8000_0000 <= x < 0x8000_0000

  /** The 64-bit signed word congruent to `x`. */
  function Wrap(x: int): (w: Word) {
    (x + TWO_63) % TWO_64 - TWO_63
  }

  /** `static_cast<int>` of a 64-bit word. */
  function Narrow(x: Word): (n: Int32) {
    (x + TWO_31) % TWO_32 - TWO_31
  }

  /** `static_cast<std::uint64_t>` and `static_cast<std::size_t>` of a signed word. */
  function Unsigned(x: Word): (n: nat) {
    if x < 0 then x + TWO_64 else x
  }

  /** C++ `/` on integers. */
  function TruncDiv(a: int, b: int): (q: int)
    requires b != 0
  {
    var q := Abs(a) / Abs(b);
    if (a < 0) == (b < 0) then q else -q
  }

  /** C++ `%` on integers. */
  function TruncMod(a: int, b: int): (r: int)
    requires b != 0
  {
    var r := Abs(a) % Abs(b);
    if a < 0 then -r else r
  }

  function Abs(x: int): nat {
    if x < 0 then -x else x
  }

  /** Division and remainder satisfy the C++ contract: they recompose the dividend,
      the remainder is smaller than the divisor and takes the dividend's sign. */
  lemma TruncDivision(a: int, b: int)
    requires b != 0
    ensures a == TruncDiv(a, b) * b + TruncMod(a, b)
    ensures Abs(TruncMod(a, b)) < Abs(b)
    ensures TruncMod(a, b) == 0 || (TruncMod(a, b) < 0) == (a < 0)
  {
    var p, q := Abs(a), Abs(b);
    assert p == (p / q) * q + p % q;
  }

  datatype BitOp = And | Or | Xor

  /** The operator on two bits. */
  function Bit(op: BitOp, x: nat, y: nat): nat {
    match op
    case And => if x == 1 && y == 1 then 1 else 0
    case Or => if x == 1 || y == 1 then 1 else 0
    case Xor => if x != y then 1 else 0
  }

  /** The operator applied to the low `n` bits of two unsigned words. */
  function Bits(op: BitOp, x: nat, y: nat, n: nat): (r: nat)
    decreases n, x, y
  {
    if n == 0 then 0 else Bit(op, x % 2, y % 2) + 2 * Bits(op, x / 2, y / 2, n - 1)
  }

  function Bitwise(op: BitOp, x: Word, y: Word): Word {
    Wrap(Bits(op, Unsigned(x), Unsigned(y), 64))
  }

  function Complement(x: Word): Word {
    -1 - x
  }

  function Power2(n: nat): (p: nat)
    ensures p > 0
    decreases n, 0
  {
    if n == 0 then 1 else 2 * Power2(n - 1)
  }

  datatype ShiftOp = Left | Arithmetic | Logical

  /** `<<`, `>>` and the unsigned `>>`; the amount is taken modulo 64. */
  function Shift(op: ShiftOp, x: Word, amount: Word): Word {
    var p := Power2(Unsigned(amount) % 64);
    match op
    case Left => Wrap(x * p)
    case Arithmetic => Wrap(x / p)
    case Logical => Wrap(Unsigned(x) / p)
  }
}
