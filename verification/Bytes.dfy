/** Bytes, the little-endian integers made of them, and the byte strings of the host. */
module Bytes {

  type Byte = b: int | 0 <= b < 256

  /** A `std::string`: characters of one byte. */
  type ByteChar = c: char | c as int < 256
  type Text = seq<ByteChar>

  const U32_LIMIT := 0x1_0000_0000
  const U64_LIMIT := 0x1_0000_0000_0000_0000

  type Int32 = x: int | -0x8000_0000 <= x < 0x8000_0000
  type Int64 = x: int | -0x8000_0000_0000_0000 <= x < 0x8000_0000_0000_0000
  type U32 = x: int | 0 <= x < 0x1_0000_0000
  type U64 = x: int | 0 <= x < 0x1_0000_0000_0000_0000

  /** `static_cast<uint32_t>` and `static_cast<uint64_t>`. */
  function ToU32(x: int): U32 {
    x % U32_LIMIT
  }

  function ToU64(x: int): U64 {
    x % U64_LIMIT
  }

  /** `static_cast<int>` of an unsigned word, and `static_cast<int64_t>`. */
  function ToInt32(x: U32): Int32 {
    if x < 0x8000_0000 then x else x - U32_LIMIT
  }

  function ToInt64(x: U64): Int64 {
    if x < 0x8000_0000_0000_0000 then x else x - U64_LIMIT
  }

  lemma CastsInvert(x: Int32, y: Int64)
    ensures ToInt32(ToU32(x)) == x
    ensures ToInt64(ToU64(y)) == y
  {
  }

  /** `n` bytes, least significant first. */
  function Little(v: nat, n: nat): (b: seq<Byte>)
    ensures |b| == n
    decreases n, v
  {
    if n == 0 then [] else [v % 256] + Little(v / 256, n - 1)
  }

  function Unlittle(b: seq<Byte>): nat {
    if b == [] then 0 else b[0] + 256 * Unlittle(b[1..])
  }

  function Power256(n: nat): (p: nat)
    ensures p > 0
    decreases n, 0
  {
    if n == 0 then 1 else 256 * Power256(n - 1)
  }

  lemma {:induction false} LittleInverts(v: nat, n: nat)
    requires v < Power256(n)
    ensures Unlittle(Little(v, n)) == v
    decreases n
  {
    if n > 0 {
      assert v / 256 < Power256(n - 1);
      LittleInverts(v / 256, n - 1);
      assert Little(v, n)[1..] == Little(v / 256, n - 1);
    }
  }

  lemma {:induction false} UnlittleBound(b: seq<Byte>)
    ensures Unlittle(b) < Power256(|b|)
  {
    if b != [] {
      UnlittleBound(b[1..]);
    }
  }

  lemma Powers()
    ensures Power256(4) == U32_LIMIT
    ensures Power256(8) == U64_LIMIT
  {
    assert Power256(1) == 256 * Power256(0);
    assert Power256(2) == 256 * Power256(1);
    assert Power256(3) == 256 * Power256(2);
    assert Power256(4) == 256 * Power256(3);
    assert Power256(5) == 256 * Power256(4);
    assert Power256(6) == 256 * Power256(5);
    assert Power256(7) == 256 * Power256(6);
    assert Power256(8) == 256 * Power256(7);
  }

  function U32Bytes(v: U32): (b: seq<Byte>)
    ensures |b| == 4
  {
    Little(v, 4)
  }

  function U64Bytes(v: U64): (b: seq<Byte>)
    ensures |b| == 8
  {
    Little(v, 8)
  }

  function ReadU32(b: seq<Byte>): U32
    requires |b| >= 4
  {
    UnlittleBound(b[..4]);
    Powers();
    Unlittle(b[..4])
  }

  function ReadU64(b: seq<Byte>): U64
    requires |b| >= 8
  {
    UnlittleBound(b[..8]);
    Powers();
    Unlittle(b[..8])
  }

  lemma ReadU32Inverts(v: U32, rest: seq<Byte>)
    ensures ReadU32(U32Bytes(v) + rest) == v
    ensures (U32Bytes(v) + rest)[4..] == rest
  {
    Powers();
    LittleInverts(v, 4);
    assert (U32Bytes(v) + rest)[..4] == Little(v, 4);
  }

  lemma ReadU64Inverts(v: U64, rest: seq<Byte>)
    ensures ReadU64(U64Bytes(v) + rest) == v
    ensures (U64Bytes(v) + rest)[8..] == rest
  {
    Powers();
    LittleInverts(v, 8);
    assert (U64Bytes(v) + rest)[..8] == Little(v, 8);
  }

  /** The characters of a string as bytes, and back. */
  function Raw(t: Text): (b: seq<Byte>)
    ensures |b| == |t|
  {
    seq(|t|, i requires 0 <= i < |t| => t[i] as int)
  }

  function Cooked(b: seq<Byte>): (t: Text)
    ensures |t| == |b|
  {
    seq(|b|, i requires 0 <= i < |b| => b[i] as char)
  }

  lemma CookedInvertsRaw(t: Text)
    ensures Cooked(Raw(t)) == t
  {
  }

  /** `find(needle) != npos`. */
  predicate Contains(hay: Text, needle: Text) {
    exists i :: 0 <= i <= |hay| && OccursAt(hay, needle, i)
  }

  predicate OccursAt(hay: Text, needle: Text, i: nat) {
    i + |needle| <= |hay| && hay[i..i + |needle|] == needle
  }

  /** A text contains exactly what it can be cut out of. */
  lemma ContainsPart(a: Text, t: Text, b: Text)
    ensures Contains(a + t + b, t)
  {
    assert (a + t + b)[|a|..|a| + |t|] == t;
    assert OccursAt(a + t + b, t, |a|);
  }

  lemma ContainedIsPart(hay: Text, needle: Text) returns (a: Text, b: Text)
    requires Contains(hay, needle)
    ensures hay == a + needle + b
  {
    var i :| 0 <= i <= |hay| && OccursAt(hay, needle, i);
    a, b := hay[..i], hay[i + |needle|..];
  }

  lemma ContainsItself(t: Text)
    ensures Contains(t, t)
  {
    assert OccursAt(t, t, 0);
  }

  lemma MutualContainment(s: Text, t: Text)
    requires Contains(s, t) && Contains(t, s)
    ensures s == t
  {
  }

  lemma ContainsThrough(s: Text, t: Text, u: Text)
    requires Contains(s, t) && Contains(t, u)
    ensures Contains(s, u)
  {
    var i, j :| 0 <= i <= |s| && OccursAt(s, t, i) && 0 <= j <= |t| && OccursAt(t, u, j);
    forall k | 0 <= k < |u| ensures s[i + j + k] == u[k] {
      assert s[i..i + |t|][j + k] == t[j..j + |u|][k];
    }
    assert OccursAt(s, u, i + j);
  }

  /** Decimal digits of a natural number. */
  function Digits(n: nat): (t: Text)
    ensures t != [] && forall i :: 0 <= i < |t| ==> '0' <= t[i] <= '9'
  {
    var digit := ('0' as int + n % 10) as char;
    if n < 10 then [digit] else Digits(n / 10) + [digit]
  }

  /** `operator<<` and `std::to_string` on integers. */
  function Decimal(x: int): (t: Text)
    ensures t != [] && ((t[0] == '-') <==> x < 0)
    ensures forall i :: 0 <= i < |t| ==> t[i] == '-' || '0' <= t[i] <= '9'
  {
    if x < 0 then "-" + Digits(-x) else Digits(x)
  }

  /** A decimal number read from its most significant digit on. */
  function NumberOf(digits: Text, read: nat): nat
    requires forall i :: 0 <= i < |digits| ==> '0' <= digits[i] <= '9'
  {
    if digits == [] then read else NumberOf(digits[1..], 10 * read + (digits[0] as int - '0' as int))
  }

  lemma {:induction false} NumberOfAppended(s: Text, last: ByteChar, read: nat)
    requires '0' <= last <= '9' && forall i :: 0 <= i < |s| ==> '0' <= s[i] <= '9'
    ensures NumberOf(s + [last], read) == 10 * NumberOf(s, read) + (last as int - '0' as int)
    decreases |s|
  {
    if s == [] {
      assert ([] + [last])[1..] == [];
    } else {
      assert (s + [last])[1..] == s[1..] + [last];
      NumberOfAppended(s[1..], last, 10 * read + (s[0] as int - '0' as int));
    }
  }

  /** The digits printed are those of the number. */
  lemma {:induction false} DigitsReadBack(n: nat)
    ensures NumberOf(Digits(n), 0) == n
  {
    var digit: ByteChar := ('0' as int + n % 10) as char;
    if n < 10 {
      assert [digit][1..] == [];
    } else {
      DigitsReadBack(n / 10);
      NumberOfAppended(Digits(n / 10), digit, 0);
    }
  }

  lemma {:induction false} DigitsInjective(m: nat, n: nat)
    requires Digits(m) == Digits(n)
    ensures m == n
  {
    var s, t := Digits(m), Digits(n);
    assert s[|s| - 1] == t[|t| - 1];
    if m >= 10 && n >= 10 {
      assert s[..|s| - 1] == Digits(m / 10) && t[..|t| - 1] == Digits(n / 10);
      DigitsInjective(m / 10, n / 10);
    }
  }

  lemma DecimalInjective(x: int, y: int)
    requires Decimal(x) == Decimal(y)
    ensures x == y
  {
    if x < 0 {
      assert Decimal(x)[1..] == Digits(-x) && Decimal(y)[1..] == Digits(-y);
      DigitsInjective(-x, -y);
    } else {
      DigitsInjective(x, y);
    }
  }
}
