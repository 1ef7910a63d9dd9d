/** Index vectors in mixed radix: the arithmetic behind multi-dimensional spans. */
module MixedRadix {
  import opened Bits

  type Index = seq<int>

  predicate Positive(b: Index) {
    forall k :: 0 <= k < |b| ==> b[k] >= 1
  }

  predicate NonNegative(b: Index) {
    forall k :: 0 <= k < |b| ==> b[k] >= 0
  }

  predicate InRange(i: Index, b: Index) {
    |i| == |b| && forall k :: 0 <= k < |i| ==> 0 <= i[k] < b[k]
  }

  /** The number of elements: the product of the extents. */
  function Size(b: Index): int {
    if b == [] then 1 else b[0] * Size(b[1..])
  }

  /** The linear index, by Horner's rule. */
  function Linear(i: Index, b: Index): int
    requires |i| == |b|
  {
    if i == [] then 0 else i[0] * Size(b[1..]) + Linear(i[1..], b[1..])
  }

  /** The digits of a linear index. */
  function Unlinear(n: int, b: Index): Index
    requires Positive(b) && 0 <= n
  {
    if b == [] then []
    else
      SizePositive(b[1..]);
      [n / Size(b[1..])] + Unlinear(n % Size(b[1..]), b[1..])
  }

  /** The stride of a dimension is the product of the extents after it. */
  function Strides(b: Index): Index {
    seq(|b|, k requires 0 <= k < |b| => Size(b[k + 1..]))
  }

  function Dot(i: Index, s: Index): int
    requires |i| == |s|
  {
    if i == [] then 0 else i[0] * s[0] + Dot(i[1..], s[1..])
  }

  function Zeros(n: nat): Index {
    seq(n, k => 0)
  }

  function Add(i: Index, j: Index): Index
    requires |i| == |j|
  {
    seq(|i|, k requires 0 <= k < |i| => i[k] + j[k])
  }

  /** Every component less one: of the extents, the last index vector. */
  function Last(b: Index): Index {
    seq(|b|, k requires 0 <= k < |b| => b[k] - 1)
  }

  lemma {:induction false} SizePositive(b: Index)
    requires Positive(b)
    ensures Size(b) >= 1
  {
    if b != [] {
      SizePositive(b[1..]);
      MulMonotone(1, b[0], Size(b[1..]));
    }
  }

  /** The product from a dimension on, as the stride tables extend it. */
  lemma {:induction false} SizeStep(b: Index, k: nat)
    requires k < |b|
    ensures Size(b[k..]) == Size(b[k + 1..]) * b[k]
  {
    assert b[k..][1..] == b[k + 1..];
  }

  lemma {:induction false} SizeEmpty(b: Index)
    ensures Size(b[|b|..]) == 1
  {
  }

  lemma {:induction false} SizeNonNegative(b: Index)
    requires NonNegative(b)
    ensures Size(b) >= 0
  {
    if b != [] {
      SizeNonNegative(b[1..]);
      MulMonotone(0, b[0], Size(b[1..]));
    }
  }

  lemma {:induction false} LinearBound(i: Index, b: Index)
    requires InRange(i, b)
    ensures 0 <= Linear(i, b) < Size(b)
  {
    if i != [] {
      var s := Size(b[1..]);
      LinearBound(i[1..], b[1..]);
      MulMonotone(i[0] + 1, b[0], s);
      MulMonotone(0, i[0], s);
      MulDistributes(i[0], 1, s);
    }
  }

  /** Row by row: the last component counts elements, the one before it rows. */
  lemma {:induction false} RowMajor(i: int, j: int, m: int, n: int)
    ensures Linear([i, j], [m, n]) == i * n + j && Size([m, n]) == m * n
  {
    assert [m, n][1..] == [n] && [i, j][1..] == [j] && [n][1..] == [] && [j][1..] == [];
    assert Size([n]) == n * Size([]) && Linear([j], [n]) == j * Size([]) + Linear([], []);
  }

  /** One digit off the front. */
  lemma {:induction false} DivMod(i: int, s: int, r: int)
    requires 0 <= r < s
    ensures (i * s + r) / s == i && (i * s + r) % s == r
  {
    ModUnique(i * s + r, s, i, r);
  }

  lemma {:induction false} UnlinearOfLinear(i: Index, b: Index)
    requires InRange(i, b) && Positive(b)
    ensures 0 <= Linear(i, b) && Unlinear(Linear(i, b), b) == i
  {
    LinearBound(i, b);
    if i != [] {
      LinearBound(i[1..], b[1..]);
      UnlinearOfLinear(i[1..], b[1..]);
      DivMod(i[0], Size(b[1..]), Linear(i[1..], b[1..]));
    }
  }

  lemma {:induction false} LinearOfUnlinear(n: int, b: Index)
    requires Positive(b) && 0 <= n < Size(b)
    ensures InRange(Unlinear(n, b), b) && Linear(Unlinear(n, b), b) == n
  {
    if b != [] {
      var s := Size(b[1..]);
      SizePositive(b[1..]);
      var q, r := QuotientRemainder(n, b[0], s);
      LinearOfUnlinear(r, b[1..]);
      assert Unlinear(n, b) == [q] + Unlinear(r, b[1..]);
      assert Unlinear(n, b)[1..] == Unlinear(r, b[1..]);
    }
  }

  /** Quotient and remainder of a number below c * s. */
  lemma {:induction false} QuotientRemainder(n: int, c: int, s: int) returns (q: int, r: int)
    requires s >= 1 && 0 <= n < c * s
    ensures q == n / s && r == n % s && n == q * s + r && 0 <= q < c && 0 <= r < s
  {
    q, r := n / s, n % s;
    DigitBound(n, c, s);
  }

  lemma {:induction false} DigitBound(n: int, c: int, s: int)
    requires s >= 1 && 0 <= n
    ensures 0 <= n / s && (n < c * s <==> n / s < c)
  {
    var q := n / s;
    assert n == q * s + n % s;
    if q < c {
      MulMonotone(q + 1, c, s);
      MulDistributes(q, 1, s);
    } else {
      MulMonotone(c, q, s);
    }
    if q < 0 {
      MulMonotone(q, -1, s);
    }
  }

  /** In range, linear indices identify index vectors. */
  lemma {:induction false} LinearInjective(i: Index, j: Index, b: Index)
    requires InRange(i, b) && InRange(j, b) && Linear(i, b) == Linear(j, b)
    ensures i == j
  {
    assert Positive(b);
    UnlinearOfLinear(i, b);
    UnlinearOfLinear(j, b);
  }

  /** The suffix products make Horner's rule a plain dot product. */
  lemma {:induction false} LinearIsDot(i: Index, b: Index)
    requires |i| == |b|
    ensures Linear(i, b) == Dot(i, Strides(b))
  {
    if i != [] {
      LinearIsDot(i[1..], b[1..]);
      StridesTail(b);
    }
  }

  lemma {:induction false} StridesTail(b: Index)
    requires b != []
    ensures Strides(b)[0] == Size(b[1..]) && Strides(b)[1..] == Strides(b[1..])
  {
    forall k | 0 <= k < |b| - 1
      ensures Strides(b)[1..][k] == Strides(b[1..])[k]
    {
      assert b[k + 2..] == b[1..][k + 1..];
    }
  }

  lemma {:induction false} DotAdd(i: Index, j: Index, s: Index)
    requires |i| == |j| == |s|
    ensures Dot(Add(i, j), s) == Dot(i, s) + Dot(j, s)
  {
    if i != [] {
      assert Add(i, j)[1..] == Add(i[1..], j[1..]);
      DotAdd(i[1..], j[1..], s[1..]);
      MulDistributes(i[0], j[0], s[0]);
    }
  }

  lemma {:induction false} DotMonotone(i: Index, j: Index, s: Index)
    requires |i| == |j| == |s|
    requires forall k :: 0 <= k < |i| ==> i[k] <= j[k] && 0 <= s[k]
    ensures Dot(i, s) <= Dot(j, s)
  {
    if i != [] {
      DotMonotone(i[1..], j[1..], s[1..]);
      MulMonotone(i[0], j[0], s[0]);
    }
  }

  lemma {:induction false} StridesNonNegative(b: Index)
    requires NonNegative(b)
    ensures NonNegative(Strides(b))
  {
    forall k | 0 <= k < |b|
      ensures Strides(b)[k] >= 0
    {
      SizeNonNegative(b[k + 1..]);
    }
  }

  lemma {:induction false} LinearOfLast(b: Index)
    ensures Linear(Last(b), b) == Size(b) - 1
  {
    if b != [] {
      assert Last(b)[1..] == Last(b[1..]);
      LinearOfLast(b[1..]);
      MulDistributes(b[0] - 1, 1, Size(b[1..]));
    }
  }

  lemma {:induction false} LinearOfZeros(b: Index)
    ensures Linear(Zeros(|b|), b) == 0
  {
    if b != [] {
      assert Zeros(|b|)[1..] == Zeros(|b| - 1);
      LinearOfZeros(b[1..]);
    }
  }
}
