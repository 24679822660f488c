/** The operators of `T81` as they run: digits unpacked into arrays of signed bytes, loops
    with a carry, and the result packed again. */
module NativeArithmetic {
  import opened Bytes
  import opened Ternary
  import opened Native
  import opened NativeProduct

  method Unpack(src: Native) returns (digits: array<Int8>)
    ensures fresh(digits) && digits.Length == 128 && digits[..] == UnpackDigits(src)
  {
    digits := new Int8[128];
    for i := 0 to 32
      invariant forall k :: 0 <= k < 4 * i ==> digits[k] == UnpackDigits(src)[k]
    {
      for t := 0 to 4
        invariant forall k :: 0 <= k < 4 * i + t ==> digits[k] == UnpackDigits(src)[k]
      {
        digits[4 * i + t] := DecodeTrit(Pair(src[i], t));
        assert (4 * i + t) / 4 == i && (4 * i + t) % 4 == t;
      }
    }
  }

  method Pack(digits: array<Int8>) returns (dest: Native)
    requires digits.Length == 128
    ensures dest == PackDigits(digits[..])
  {
    var bytes: seq<Byte> := [];
    for i := 0 to 32
      invariant |bytes| == i && forall k :: 0 <= k < i ==> bytes[k] == PackDigits(digits[..])[k]
    {
      bytes := bytes + [PackByte(digits[4 * i], digits[4 * i + 1], digits[4 * i + 2], digits[4 * i + 3])];
    }
    dest := bytes;
  }

  /** `operator-()`. */
  method NegateWord(w: Native) returns (r: Native)
    ensures r == Negate(w)
  {
    hide UnpackDigits, PackDigits;
    var digits := Unpack(w);
    for i := 0 to 128
      invariant forall k :: 0 <= k < i ==> var d: int := UnpackDigits(w)[k]; digits[k] == -d
      invariant forall k :: i <= k < 128 ==> digits[k] == UnpackDigits(w)[k]
    {
      var d: int := digits[i];
      digits[i] := -d;
    }
    assert digits[..] == NegateDigits(UnpackDigits(w));
    r := Pack(digits);
  }

  /** `operator+`, digit by digit. */
  method AddWords(v: Native, w: Native) returns (r: Native)
    ensures r == Add(v, w)
    ensures Congruent(Number(r), Number(v) + Number(w), Modulus())
  {
    hide UnpackDigits, PackDigits, Congruent, Normalize, CarryOut, AddDigits, Number;
    var a := Unpack(v);
    var b := Unpack(w);
    var sum := new Int8[128];
    ghost var l, m := UnpackDigits(v), UnpackDigits(w);
    var carry: Trit := 0;
    ghost var total := AddDigits(l, m, 0);
    StartDigits(l, m);
    for i := 0 to 128
      invariant a[..] == l && b[..] == m
      invariant sum[..i] == total[..i] && total[i..] == AddDigits(l[i..], m[i..], carry)
    {
      var x: int, y: int := a[..][i], b[..][i];
      AddEntry(x, y, carry);
      NextDigit(l, m, i, carry);
      ghost var rest := AddDigits(l[i + 1..], m[i + 1..], CarryOut(x + y + carry));
      Behead(total, i, Normalize(x + y + carry), rest);
      sum[i] := Normalize(x + y + carry);
      carry := CarryOut(x + y + carry);
    }
    assert sum[..] == total;
    AddExact(v, w);
    AddIsExact(v, w);
    r := Pack(sum);
  }

  lemma StartDigits(l: seq<int>, m: seq<int>)
    requires |l| == |m|
    ensures AddDigits(l, m, 0)[0..] == AddDigits(l[0..], m[0..], 0)
  {
    assert l[0..] == l && m[0..] == m;
  }

  /** The rest after one more element. */
  lemma Behead(s: seq<int>, i: nat, x: int, rest: seq<int>)
    requires i < |s| && s[i..] == [x] + rest
    ensures s[i] == x && s[i + 1..] == rest
  {
    assert s[i..][0] == s[i];
    assert s[i..][1..] == s[i + 1..];
  }

  lemma NextDigit(l: seq<int>, m: seq<int>, i: nat, carry: int)
    requires i < |l| == |m|
    ensures AddDigits(l[i..], m[i..], carry)
            == [Normalize(l[i] + m[i] + carry)] + AddDigits(l[i + 1..], m[i + 1..], CarryOut(l[i] + m[i] + carry))
  {
    assert l[i..][1..] == l[i + 1..] && m[i..][1..] == m[i + 1..];
  }

  /** `operator-(other)`. */
  method SubtractWords(v: Native, w: Native) returns (r: Native)
    ensures r == Subtract(v, w)
    ensures Congruent(Number(r), Number(v) - Number(w), Modulus())
  {
    hide Congruent, Number, Add, Negate;
    var opposite := NegateWord(w);
    r := AddWords(v, opposite);
    SubtractIsExact(v, w);
  }

  /** `ShiftLeftTrits`, for shifts that are not negative. */
  method ShiftWord(w: Native, shift: nat) returns (r: Native)
    ensures r == ShiftLeftTrits(w, shift)
  {
    hide UnpackDigits, PackDigits;
    if shift >= 128 {
      return seq(32, _ => 0);
    }
    var digits := Unpack(w);
    var shifted := new Int8[128](_ => 0);
    var i := 0;
    while i + shift < 128
      invariant 0 <= i <= 128 - shift
      invariant digits[..] == UnpackDigits(w)
      invariant forall k :: 0 <= k < 128 ==> shifted[k] == if shift <= k < i + shift then digits[k - shift] else 0
    {
      shifted[i + shift] := digits[i];
      i := i + 1;
    }
    assert shifted[..] == ShiftDigits(UnpackDigits(w), shift);
    r := Pack(shifted);
  }

  /** The array holds the columns, each as a signed byte. */
  ghost predicate HoldsColumns(acc: array<Int8>, columns: Accumulators)
    requires acc.Length == 256
    reads acc
  {
    forall k :: 0 <= k < 256 ==> acc[k] == Wrap8(columns[k])
  }

  /** The columns part way through a row. */
  ghost function PartRow(acc: Accumulators, x: int, r: Digits, i: nat, j: nat): Accumulators
    requires i < 128 && j <= 128
  {
    AddRow(acc, x, r[..j], i)
  }

  lemma WrapAdds(v: int, w: int)
    ensures Wrap8(Wrap8(v) + w) == Wrap8(v + w)
  {
  }

  /** `result_digits[i + j] += lhs_digits[i] * rhs_digits[j]`, in one byte. */
  method Accumulate(lhs: array<Int8>, rhs: array<Int8>) returns (acc: array<Int8>)
    requires lhs.Length == rhs.Length == 128 && Trits(lhs[..]) && Trits(rhs[..])
    ensures fresh(acc) && acc.Length == 256
    ensures HoldsColumns(acc, Columns(lhs[..], rhs[..], 128))
  {
    acc := new Int8[256](_ => 0);
    ghost var l: Digits, r: Digits := lhs[..], rhs[..];
    for i := 0 to 128
      invariant lhs[..] == l && rhs[..] == r
      invariant HoldsColumns(acc, Columns(l, r, i))
    {
      ghost var before := Columns(l, r, i);
      hide Columns, Wrap8, HoldsColumns;
      StartRow(acc, before, l[i], r, i);
      for j := 0 to 128
        invariant lhs[..] == l && rhs[..] == r
        invariant HoldsColumns(acc, PartRow(before, l[i], r, i, j))
      {
        ghost var was := acc[..];
        var x: int, y: int, s: int := lhs[i], rhs[j], acc[i + j];
        acc[i + j] := Wrap8(s + x * y);
        NextProduct(was, acc, before, l[i], r, i, j);
      }
      EndRow(l, r, i);
    }
  }

  lemma StartRow(acc: array<Int8>, before: Accumulators, x: int, r: Digits, i: nat)
    requires acc.Length == 256 && i < 128 && HoldsColumns(acc, before)
    ensures HoldsColumns(acc, PartRow(before, x, r, i, 0))
  {
    assert PartRow(before, x, r, i, 0) == before;
  }

  lemma EndRow(l: Digits, r: Digits, i: nat)
    requires i < 128
    ensures PartRow(Columns(l, r, i), l[i], r, i, 128) == Columns(l, r, i + 1)
  {
    assert r[..128] == r;
  }

  lemma NextProduct(was: seq<Int8>, acc: array<Int8>, before: Accumulators, x: int, r: Digits, i: nat, j: nat)
    requires acc.Length == |was| == 256 && i < 128 && j < 128
    requires forall k :: 0 <= k < 256 ==> was[k] == Wrap8(PartRow(before, x, r, i, j)[k])
    requires var y: int, s: int := r[j], was[i + j]; acc[..] == was[i + j := Wrap8(s + x * y)]
    ensures HoldsColumns(acc, PartRow(before, x, r, i, j + 1))
  {
    hide Wrap8;
    var p, q := PartRow(before, x, r, i, j), PartRow(before, x, r, i, j + 1);
    WrapAdds(p[i + j], x * r[j]);
    forall k | 0 <= k < 256 ensures acc[k] == Wrap8(q[k]) {
      assert acc[k] == acc[..][k];
    }
  }

  /** The carry pass in place.  The carry stays small, so that 64 bits hold it. */
  method Carry(acc: array<Int8>)
    requires acc.Length == 256
    modifies acc
    ensures acc[..] == CarryPass(old(acc[..]), 0)
  {
    hide CarryPass, NextCarry;
    var carry: Int64 := 0;
    ghost var columns: seq<int> := acc[..];
    ghost var digits := CarryPass(columns, 0);
    assert columns[0..] == columns && digits[0..] == digits;
    for i := 0 to 256
      invariant -65 <= carry <= 65
      invariant acc[i..] == columns[i..]
      invariant acc[..i] == digits[..i] && digits[i..] == CarryPass(columns[i..], carry)
    {
      assert acc[i] == acc[i..][0] == columns[i];
      var c: int := acc[i];
      var value := c + carry;
      CarrySmall(c, carry);
      NextColumn(columns, i, carry);
      Behead(digits, i, value - 3 * NextCarry(value), CarryPass(columns[i + 1..], NextCarry(value)));
      ghost var before := acc[i + 1..];
      assert before == acc[i..][1..];
      acc[i] := value - 3 * NextCarry(value);
      assert acc[i + 1..] == before;
      carry := NextCarry(value);
    }
    assert acc[..] == digits;
  }

  lemma CarrySmall(c: Int8, carry: int)
    requires -65 <= carry <= 65
    ensures -65 <= NextCarry(c + carry) <= 65 && -1 <= c + carry - 3 * NextCarry(c + carry) <= 1
  {
  }

  lemma NextColumn(acc: seq<int>, i: nat, carry: int)
    requires i < |acc|
    ensures var v := acc[i] + carry;
            CarryPass(acc[i..], carry) == [v - 3 * NextCarry(v)] + CarryPass(acc[i + 1..], NextCarry(v))
  {
    assert acc[i..][1..] == acc[i + 1..];
  }

  /** `operator*`. */
  method MultiplyWords(v: Native, w: Native) returns (r: Native)
    ensures r == Multiply(v, w)
    ensures Congruent(Number(r), Number(v) * Number(w), Modulus())
            <==> !Overflows(UnpackDigits(v), UnpackDigits(w))
  {
    hide UnpackDigits, PackDigits, Congruent, Overflows, Columns, CarryPass, Wrap8;
    var lhs := Unpack(v);
    var rhs := Unpack(w);
    var acc := Accumulate(lhs, rhs);
    assert acc[..] == Wrapped(Columns(UnpackDigits(v), UnpackDigits(w), 128));
    Carry(acc);
    var digits := new Int8[128];
    for i := 0 to 128
      invariant acc[..] == CarryPass(Wrapped(Columns(UnpackDigits(v), UnpackDigits(w), 128)), 0)
      invariant forall k :: 0 <= k < i ==> digits[k] == acc[k]
    {
      digits[i] := acc[i];
    }
    assert digits[..] == MultiplyDigits(UnpackDigits(v), UnpackDigits(w));
    r := Pack(digits);
    MultiplyExactIff(v, w);
  }
}
