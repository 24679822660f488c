/** Row-major tensors: broadcasting to a larger shape, and transposition.  The element type
    is any type. */
module Broadcast {
  import opened Multiples
  import opened Wrappers

  const SIZE_LIMIT := 0x1_0000_0000_0000_0000

  datatype Tensor<T> = Tensor(shape: seq<nat>, data: seq<T>)

  /** The number of elements of a shape, and the stride of the dimension before it. */
  function Product(shape: seq<nat>): nat {
    if shape == [] then 1 else shape[0] * Product(shape[1..])
  }

  predicate Positive(shape: seq<nat>) {
    forall i :: 0 <= i < |shape| ==> shape[i] > 0
  }

  /** What the constructors of a tensor with dimensions establish. */
  predicate Valid<T>(t: Tensor<T>) {
    t.shape != [] && Positive(t.shape) && |t.data| == Product(t.shape)
  }

  lemma {:induction false} ProductPositive(shape: seq<nat>)
    requires Positive(shape)
    ensures Product(shape) > 0
  {
    if shape != [] {
      ProductPositive(shape[1..]);
      NoSmallMultiple(shape[0], Product(shape[1..]));
    }
  }

  // ---------- positions and indices

  predicate InRange(idx: seq<nat>, shape: seq<nat>) {
    |idx| == |shape| && forall i :: 0 <= i < |shape| ==> idx[i] < shape[i]
  }

  /** The position of a multi-index. */
  function Flat(idx: seq<nat>, shape: seq<nat>): nat
    requires |idx| == |shape|
  {
    if shape == [] then 0 else idx[0] * Product(shape[1..]) + Flat(idx[1..], shape[1..])
  }

  /** The multi-index of a position: quotient and remainder, stride by stride. */
  function Decode(flat: nat, shape: seq<nat>): (idx: seq<nat>)
    requires Positive(shape)
    ensures |idx| == |shape|
  {
    if shape == [] then []
    else
      ProductPositive(shape[1..]);
      [flat / Product(shape[1..])] + Decode(flat % Product(shape[1..]), shape[1..])
  }

  lemma QuotientRemainder(q: nat, r: nat, m: nat)
    requires r < m
    ensures (q * m + r) / m == q && (q * m + r) % m == r
  {
    var x := q * m + r;
    var q', r' := x / m, x % m;
    assert x == m * q' + r';
    assert (q - q') * m == r' - r;
    SmallMultiple(q - q', m);
  }

  lemma {:induction false} FlatInRange(idx: seq<nat>, shape: seq<nat>)
    requires InRange(idx, shape)
    ensures Flat(idx, shape) < Product(shape)
  {
    if shape != [] {
      FlatInRange(idx[1..], shape[1..]);
      RowsFit(idx[0], shape[0], Product(shape[1..]));
    }
  }

  lemma RowsFit(i: nat, n: nat, m: nat)
    requires i < n
    ensures i * m + m <= n * m
  {
    var k: nat := n - i - 1;
    assert n * m == i * m + m + k * m;
  }

  /** Multi-indices and positions correspond, one to one. */
  lemma {:induction false} DecodeFlat(idx: seq<nat>, shape: seq<nat>)
    requires Positive(shape) && InRange(idx, shape)
    ensures Decode(Flat(idx, shape), shape) == idx
  {
    if shape != [] {
      DecodeFlat(idx[1..], shape[1..]);
      FlatInRange(idx[1..], shape[1..]);
      QuotientRemainder(idx[0], Flat(idx[1..], shape[1..]), Product(shape[1..]));
      assert idx == [idx[0]] + idx[1..];
    }
  }

  lemma {:induction false} FlatDecode(flat: nat, shape: seq<nat>)
    requires Positive(shape) && flat < Product(shape)
    ensures InRange(Decode(flat, shape), shape) && Flat(Decode(flat, shape), shape) == flat
  {
    if shape != [] {
      var m := Product(shape[1..]);
      ProductPositive(shape[1..]);
      var q, r := flat / m, flat % m;
      DivMod(flat, m);
      FlatDecode(r, shape[1..]);
      QuotientFits(flat, shape[0], m);
      FlatDecodeStep(q, r, shape, Decode(r, shape[1..]));
      assert Decode(flat, shape) == [q] + Decode(r, shape[1..]);
    }
  }

  lemma DivMod(x: nat, m: nat)
    requires m > 0
    ensures x == (x / m) * m + x % m && x % m < m
  {
  }

  lemma FlatDecodeStep(q: nat, r: nat, shape: seq<nat>, rest: seq<nat>)
    requires shape != [] && |rest| == |shape| - 1 && InRange(rest, shape[1..]) && q < shape[0]
    requires Flat(rest, shape[1..]) == r
    ensures InRange([q] + rest, shape) && Flat([q] + rest, shape) == q * Product(shape[1..]) + r
  {
    var idx := [q] + rest;
    assert idx[1..] == rest;
    forall i | 0 <= i < |shape| ensures idx[i] < shape[i] {
      if i > 0 {
        assert idx[i] == rest[i - 1] && shape[i] == shape[1..][i - 1];
      }
    }
  }

  lemma QuotientFits(flat: nat, n: nat, m: nat)
    requires m > 0 && flat < n * m
    ensures flat / m < n
  {
    var q := flat / m;
    assert flat == m * q + flat % m;
    if q >= n {
      RowsFit(n, q + 1, m);
      assert false;
    }
  }

  // ---------- broadcasting

  /** The shape, aligned to the right, with ones in front. */
  function Pad(shape: seq<nat>, rank: nat): (r: seq<nat>)
    requires |shape| <= rank
    ensures |r| == rank
    ensures forall i :: 0 <= i < rank ==> r[i] == if i < rank - |shape| then 1 else shape[i - (rank - |shape|)]
  {
    seq(rank, i requires 0 <= i < rank => if i < rank - |shape| then 1 else shape[i - (rank - |shape|)])
  }

  predicate Compatible(from: seq<nat>, to: seq<nat>) {
    && |from| <= |to|
    && forall i :: 0 <= i < |to| ==> Pad(from, |to|)[i] == to[i] || Pad(from, |to|)[i] == 1
  }

  /** Dimensions of size one are read at zero. */
  function Clamp(idx: seq<nat>, shape: seq<nat>): (r: seq<nat>)
    requires |idx| == |shape|
    ensures |r| == |idx|
    ensures forall i :: 0 <= i < |r| ==> r[i] == if shape[i] == 1 then 0 else idx[i]
  {
    seq(|idx|, i requires 0 <= i < |idx| => if shape[i] == 1 then 0 else idx[i])
  }

  /** Where position `flat` of the result is read. */
  function Source(from: seq<nat>, to: seq<nat>, flat: nat): nat
    requires |from| <= |to| && Positive(to)
  {
    var cur := Pad(from, |to|);
    Flat(Clamp(Decode(flat, to), cur), cur)
  }

  /** A dimension that is not positive, a mismatch, or more elements than `size_t` counts. */
  predicate Refused(from: seq<nat>, to: seq<int>)
    requires to == [] || |from| <= |to|
  {
    || to == []
    || (exists i :: 0 <= i < |to| && to[i] <= 0)
    || (exists i :: 0 <= i < |to| && !(Pad(from, |to|)[i] == to[i] || Pad(from, |to|)[i] == 1))
    || (var dims := Naturals(to); Product(dims) >= SIZE_LIMIT)
  }

  function Naturals(s: seq<int>): (r: seq<nat>)
    ensures |r| == |s| && forall i :: 0 <= i < |s| && s[i] >= 0 ==> r[i] == s[i]
  {
    seq(|s|, i requires 0 <= i < |s| => if s[i] < 0 then 0 else s[i])
  }

  lemma SourceInRange(from: seq<nat>, to: seq<nat>, flat: nat)
    requires Positive(from) && Positive(to) && Compatible(from, to) && flat < Product(to)
    ensures Source(from, to, flat) < Product(from)
  {
    var cur := Pad(from, |to|);
    FlatDecode(flat, to);
    FlatInRange(Clamp(Decode(flat, to), cur), cur);
    PadProduct(from, |to|);
  }

  lemma {:induction false} PadProduct(shape: seq<nat>, rank: nat)
    requires |shape| <= rank
    ensures Product(Pad(shape, rank)) == Product(shape)
    decreases rank
  {
    if rank == |shape| {
      assert Pad(shape, rank) == shape;
    } else {
      assert Pad(shape, rank)[1..] == Pad(shape, rank - 1);
      PadProduct(shape, rank - 1);
    }
  }

  /** `broadcast`; `None` stands for its exceptions. */
  function Expand<T>(t: Tensor<T>, to: seq<int>): (r: Option<Tensor<T>>)
    requires Valid(t) && (to == [] || |t.shape| <= |to|)
    ensures r.Some? <==> !Refused(t.shape, to)
    ensures r.Some? ==> Valid(r.value) && r.value.shape == Naturals(to)
  {
    if Refused(t.shape, to) then None
    else
      var dims := Naturals(to);
      AcceptedFits(t.shape, to);
      Some(Tensor(dims, seq(Product(dims), flat requires 0 <= flat < Product(dims) =>
                              SourceInRange(t.shape, dims, flat); t.data[Source(t.shape, dims, flat)])))
  }

  /** A tensor is refused a shape exactly when that is empty or has a dimension that is not
      positive, when one of the tensor's own dimensions is neither one nor that of the shape,
      counted from the last, or when there would be 2^64 elements or more. */
  lemma RefusedIff<T>(t: Tensor<T>, to: seq<int>)
    requires Valid(t) && (to == [] || |t.shape| <= |to|)
    ensures Expand(t, to).None? <==>
              || to == []
              || (exists i :: 0 <= i < |to| && to[i] <= 0)
              || (exists i :: 0 <= i < |t.shape| && t.shape[i] != 1 && t.shape[i] != to[|to| - |t.shape| + i])
              || Product(Naturals(to)) >= 0x1_0000_0000_0000_0000
  {
    if to != [] {
      MismatchIff(t.shape, to);
    }
    hide Pad, Product, Naturals, Source, Valid;
  }

  lemma MismatchIff(from: seq<nat>, to: seq<int>)
    requires |from| <= |to|
    ensures (exists i :: 0 <= i < |to| && !(Pad(from, |to|)[i] == to[i] || Pad(from, |to|)[i] == 1)) <==>
            (exists i :: 0 <= i < |from| && from[i] != 1 && from[i] != to[|to| - |from| + i])
  {
    var k := |to| - |from|;
    var cur := Pad(from, |to|);
    hide Pad;
    assert forall i :: 0 <= i < |from| ==> cur[k + i] == from[i];
    if i :| 0 <= i < |to| && !(cur[i] == to[i] || cur[i] == 1) {
      assert from[i - k] != 1 && from[i - k] != to[k + (i - k)];
    }
  }

  lemma AcceptedFits(from: seq<nat>, to: seq<int>)
    requires |from| <= |to| && !Refused(from, to)
    ensures Positive(Naturals(to)) && Compatible(from, Naturals(to))
  {
  }

  /** At every multi-index the result has the element of the input at the same index, with
      the dimensions of size one read at zero. */
  lemma ExpandAt<T>(t: Tensor<T>, to: seq<int>, idx: seq<nat>)
    requires Valid(t) && |t.shape| <= |to| && Expand(t, to).Some? && InRange(idx, Naturals(to))
    ensures var cur := Pad(t.shape, |to|);
            var r := Expand(t, to).value;
            && Flat(idx, r.shape) < |r.data|
            && Flat(Clamp(idx, cur), cur) < |t.data|
            && r.data[Flat(idx, r.shape)] == t.data[Flat(Clamp(idx, cur), cur)]
  {
    var dims := Naturals(to);
    AcceptedFits(t.shape, to);
    FlatInRange(idx, dims);
    DecodeFlat(idx, dims);
    SourceInRange(t.shape, dims, Flat(idx, dims));
  }

  /** Said of the input alone: its dimensions are the last ones of the result, and its element
      is found at the last places of the multi-index. */
  lemma ExpandTrailing<T>(t: Tensor<T>, to: seq<int>, idx: seq<nat>, own: seq<nat>)
    requires Valid(t) && |t.shape| <= |to| && Expand(t, to).Some? && InRange(idx, Naturals(to))
    requires |own| == |t.shape|
    requires forall i :: 0 <= i < |own| ==> own[i] == if t.shape[i] == 1 then 0 else idx[|to| - |t.shape| + i]
    ensures var r := Expand(t, to).value;
            && Flat(idx, r.shape) < |r.data|
            && Flat(own, t.shape) < |t.data|
            && r.data[Flat(idx, r.shape)] == t.data[Flat(own, t.shape)]
  {
    ExpandAt(t, to, idx);
    var cur := Pad(t.shape, |to|);
    FlatPadded(Clamp(idx, cur), t.shape, |to|);
    assert Clamp(idx, cur)[|to| - |t.shape|..] == own;
  }

  // ---------- two stages

  /** Leading ones do not move a position. */
  lemma {:induction false} FlatPadded(idx: seq<nat>, shape: seq<nat>, rank: nat)
    requires |shape| <= rank == |idx| && forall i :: 0 <= i < rank - |shape| ==> idx[i] == 0
    ensures Flat(idx, Pad(shape, rank)) == Flat(idx[rank - |shape|..], shape)
    decreases rank
  {
    if rank == |shape| {
      assert Pad(shape, rank) == shape && idx[0..] == idx;
    } else {
      assert Pad(shape, rank)[1..] == Pad(shape, rank - 1);
      FlatPadded(idx[1..], shape, rank - 1);
      assert idx[1..][rank - 1 - |shape|..] == idx[rank - |shape|..];
    }
  }

  /** Reading through an intermediate shape reads the same element. */
  lemma SourceThrough(from: seq<nat>, mid: seq<nat>, to: seq<nat>, flat: nat)
    requires Positive(from) && Positive(mid) && Positive(to)
    requires Compatible(from, mid) && Compatible(mid, to) && flat < Product(to)
    ensures Compatible(from, to)
    ensures Source(mid, to, flat) < Product(mid)
    ensures Source(from, mid, Source(mid, to, flat)) == Source(from, to, flat)
  {
    hide Decode, Flat, Product;
    CompatibleThrough(from, mid, to);
    SourceInRange(mid, to, flat);
    var k := |to| - |mid|;
    var idx := Decode(flat, to);
    FlatDecode(flat, to);
    var curTo, curMid, cur := Pad(mid, |to|), Pad(from, |mid|), Pad(from, |to|);
    var inner := Clamp(idx, curTo)[k..];
    FlatPadded(Clamp(idx, curTo), mid, |to|);
    assert InRange(inner, mid);
    DecodeFlat(inner, mid);
    var direct := Clamp(idx, cur);
    assert cur == Pad(curMid, |to|);
    FlatPadded(direct, curMid, |to|);
    assert direct[k..] == Clamp(inner, curMid);
  }

  lemma CompatibleThrough(from: seq<nat>, mid: seq<nat>, to: seq<nat>)
    requires Compatible(from, mid) && Compatible(mid, to)
    ensures Compatible(from, to)
  {
    var k := |to| - |mid|;
    forall i | 0 <= i < |to| ensures Pad(from, |to|)[i] == to[i] || Pad(from, |to|)[i] == 1 {
      if i >= k {
        assert Pad(from, |to|)[i] == Pad(from, |mid|)[i - k];
        assert Pad(mid, |to|)[i] == mid[i - k];
      }
    }
  }

  /** Broadcasting in two compatible stages is broadcasting in one. */
  lemma ExpandTwice<T>(t: Tensor<T>, mid: seq<int>, to: seq<int>)
    requires Valid(t) && |t.shape| <= |mid| <= |to|
    requires Expand(t, mid).Some? && Expand(Expand(t, mid).value, to).Some?
    ensures Expand(t, to) == Expand(Expand(t, mid).value, to)
  {
    hide Source, Positive, Compatible;
    var m, n := Naturals(mid), Naturals(to);
    AcceptedFits(t.shape, mid);
    AcceptedFits(m, to);
    ValidPositive(t);
    StillAccepted(t.shape, mid, to);
    var once, twice := Expand(t, to).value, Expand(Expand(t, mid).value, to).value;
    forall flat | 0 <= flat < Product(n) ensures once.data[flat] == twice.data[flat] {
      SourceThrough(t.shape, m, n, flat);
    }
    assert once.data == twice.data;
    assert once == twice;
  }

  lemma ValidPositive<T>(t: Tensor<T>)
    requires Valid(t)
    ensures Positive(t.shape)
  {
  }

  lemma StillAccepted(from: seq<nat>, mid: seq<int>, to: seq<int>)
    requires |from| <= |mid| <= |to| && !Refused(from, mid) && !Refused(Naturals(mid), to)
    ensures !Refused(from, to)
  {
    AcceptedFits(from, mid);
    AcceptedFits(Naturals(mid), to);
    CompatibleThrough(from, Naturals(mid), Naturals(to));
  }

  // ---------- transposition

  predicate Matrix<T>(t: Tensor<T>) {
    Valid(t) && |t.shape| == 2
  }

  lemma MatrixFlat(i: nat, j: nat, rows: nat, columns: nat)
    ensures Flat([i, j], [rows, columns]) == i * columns + j && Product([rows, columns]) == rows * columns
  {
    assert [rows, columns][1..] == [columns] && [columns][1..] == [];
    assert [i, j][1..] == [j] && [j][1..] == [];
    assert Flat([j], [columns]) == j;
  }

  lemma CellInRange(i: nat, j: nat, rows: nat, columns: nat)
    requires i < rows && j < columns
    ensures i * columns + j < rows * columns
  {
    RowsFit(i, rows, columns);
  }

  /** `transpose2d`: the cell in row c, column r is the cell in row r, column c. */
  function Transpose<T>(t: Tensor<T>): (r: Tensor<T>)
    requires Matrix(t)
    ensures Matrix(r) && r.shape == [t.shape[1], t.shape[0]]
  {
    var R, C := t.shape[0], t.shape[1];
    assert t.shape == [R, C];
    MatrixFlat(0, 0, R, C);
    MatrixFlat(0, 0, C, R);
    Tensor([C, R], seq(C * R, k requires 0 <= k < C * R =>
                         QuotientFits(k, C, R); CellInRange(k % R, k / R, R, C); t.data[(k % R) * C + k / R]))
  }

  lemma TransposeAt<T>(t: Tensor<T>, r: nat, c: nat)
    requires Matrix(t) && r < t.shape[0] && c < t.shape[1]
    ensures r * t.shape[1] + c < |t.data| && c * t.shape[0] + r < |Transpose(t).data|
    ensures Transpose(t).data[c * t.shape[0] + r] == t.data[r * t.shape[1] + c]
  {
    var R, C := t.shape[0], t.shape[1];
    assert t.shape == [R, C];
    MatrixFlat(0, 0, R, C);
    MatrixFlat(0, 0, C, R);
    CellInRange(r, c, R, C);
    CellInRange(c, r, C, R);
    QuotientRemainder(c, r, R);
  }

  /** Transposing twice changes nothing. */
  lemma TransposeTwice<T>(t: Tensor<T>)
    requires Matrix(t)
    ensures Transpose(Transpose(t)) == t
  {
    var R, C := t.shape[0], t.shape[1];
    assert t.shape == [R, C];
    MatrixFlat(0, 0, R, C);
    var u := Transpose(Transpose(t));
    forall k | 0 <= k < R * C ensures u.data[k] == t.data[k] {
      var r, c := k / C, k % C;
      assert k == C * r + c;
      QuotientFits(k, R, C);
      TransposeAt(t, r, c);
      TransposeAt(Transpose(t), c, r);
    }
  }

  // ---------- the loops as they run

  /** Strides from the last dimension to the first. */
  method Strides(shape: seq<nat>) returns (st: array<nat>)
    requires shape != []
    ensures fresh(st) && st.Length == |shape|
    ensures forall i :: 0 <= i < |shape| ==> st[i] == Product(shape[i + 1..])
  {
    st := new nat[|shape|](_ => 1);
    var i := |shape| - 1;
    assert shape[|shape|..] == [];
    while i > 0
      invariant 0 <= i < |shape|
      invariant forall k :: i <= k < |shape| ==> st[k] == Product(shape[k + 1..])
    {
      i := i - 1;
      assert shape[i + 1..][1..] == shape[i + 2..];
      st[i] := st[i + 1] * shape[i + 1];
    }
  }

  /** The index of one position. */
  method Index(to: seq<nat>, strides: array<nat>, flat: nat) returns (idx: seq<nat>)
    requires Positive(to) && strides.Length == |to|
    requires forall i :: 0 <= i < |to| ==> strides[i] == Product(to[i + 1..])
    ensures idx == Decode(flat, to)
  {
    hide Decode, Product;
    idx := [];
    var rem := flat;
    assert to[0..] == to;
    for d := 0 to |to|
      invariant |idx| == d
      invariant idx + Decode(rem, to[d..]) == Decode(flat, to)
    {
      assert to[d..][1..] == to[d + 1..];
      Unfold(idx, rem, to[d..]);
      idx := idx + [rem / strides[d]];
      rem := rem % strides[d];
    }
    Unfolded(rem, to[|to|..]);
  }

  lemma Unfolded(rem: nat, shape: seq<nat>)
    requires shape == []
    ensures Decode(rem, shape) == []
  {
  }

  /** Where an index is read in the input. */
  method Offset(idx: seq<nat>, cur: seq<nat>, strides: array<nat>) returns (position: nat)
    requires |idx| == |cur| == strides.Length
    requires forall i :: 0 <= i < |cur| ==> strides[i] == Product(cur[i + 1..])
    ensures position == Flat(Clamp(idx, cur), cur)
  {
    hide Product;
    ghost var clamped := Clamp(idx, cur);
    position := 0;
    assert clamped[0..] == clamped && cur[0..] == cur;
    for d := 0 to |cur|
      invariant position + Flat(clamped[d..], cur[d..]) == Flat(clamped, cur)
    {
      assert cur[d..][1..] == cur[d + 1..] && clamped[d..][1..] == clamped[d + 1..];
      var i := if cur[d] == 1 then 0 else idx[d];
      position := position + i * strides[d];
    }
  }

  lemma Unfold(idx: seq<nat>, rem: nat, shape: seq<nat>)
    requires Positive(shape) && shape != []
    ensures Product(shape[1..]) > 0
    ensures idx + Decode(rem, shape) ==
            (idx + [rem / Product(shape[1..])]) + Decode(rem % Product(shape[1..]), shape[1..])
  {
    ProductPositive(shape[1..]);
  }

  method BroadcastTo<T>(t: Tensor<T>, to: seq<int>) returns (r: Option<Tensor<T>>)
    requires Valid(t) && (to == [] || |t.shape| <= |to|)
    ensures r == Expand(t, to)
  {
    if Refused(t.shape, to) {
      return None;
    }
    var dims := Naturals(to);
    AcceptedFits(t.shape, to);
    var cur := Pad(t.shape, |to|);
    var inStrides := Strides(cur);
    var outStrides := Strides(dims);
    var size := Product(dims);
    var out: seq<T> := [];
    for flat := 0 to size
      invariant |out| == flat
      invariant forall k :: 0 <= k < flat ==> out[k] == Expand(t, to).value.data[k]
      invariant forall i :: 0 <= i < |to| ==>
                inStrides[i] == Product(cur[i + 1..]) && outStrides[i] == Product(dims[i + 1..])
    {
      var idx := Index(dims, outStrides, flat);
      var position := Offset(idx, cur, inStrides);
      SourceInRange(t.shape, dims, flat);
      out := out + [t.data[position]];
    }
    r := Some(Tensor(dims, out));
    assert out == Expand(t, to).value.data;
  }
}
