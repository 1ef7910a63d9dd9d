/** The odometer over the index vectors of a multi-dimensional range. */
module BoundsIterators {
  import opened Bits
  import opened MixedRadix

  // ---------------------------------------------------------------- the odometer, dimension by dimension

  /** One step forward: `carry` says that every dimension has wrapped. */
  function Bump(i: Index, b: Index): (r: (bool, Index))
    requires |i| == |b|
    ensures |r.1| == |i|
  {
    if i == [] then (true, [])
    else
      var (carry, rest) := Bump(i[1..], b[1..]);
      if !carry then (false, [i[0]] + rest)
      else if i[0] < b[0] - 1 then (false, [i[0] + 1] + rest)
      else (true, [0] + rest)
  }

  /** One step back: `borrow` says that every dimension has wrapped. */
  function Drop(i: Index, b: Index): (r: (bool, Index))
    requires |i| == |b|
    ensures |r.1| == |i|
  {
    if i == [] then (true, [])
    else
      var (borrow, rest) := Drop(i[1..], b[1..]);
      if !borrow then (false, [i[0]] + rest)
      else if i[0] >= 1 then (false, [i[0] - 1] + rest)
      else (true, [b[0] - 1] + rest)
  }

  /** `some component is smaller`: not an order. */
  predicate Less(i: Index, j: Index)
    requires |i| == |j|
  {
    exists k :: 0 <= k < |i| && i[k] < j[k]
  }

  /** ++: after the last index comes the boundary itself. */
  function Next(i: Index, b: Index): Index
    requires |i| == |b|
  {
    var (carry, j) := Bump(i, b);
    if carry then b else j
  }

  /** --: no result where the precondition of the source is violated. */
  function Prev(i: Index, b: Index): (bool, Index)
    requires |i| == |b|
  {
    if !Less(i, b) then (true, Last(b))
    else
      var (borrow, j) := Drop(i, b);
      (!borrow, j)
  }

  /** The iterator's own linear index: one past the last for the boundary. */
  function LinearizePosition(i: Index, b: Index): int
    requires |i| == |b|
  {
    if Less(i, b) then Linear(i, b) else 1 + Linear(Last(i), b)
  }

  /** C++ division and remainder, which truncate towards zero. */
  function TruncDiv(n: int, d: int): int
    requires d > 0
  {
    if n >= 0 then n / d else -(-n / d)
  }

  function TruncMod(n: int, d: int): int
    requires d > 0
  {
    n - TruncDiv(n, d) * d
  }

  /** They divide, and the remainder has the sign of the number. */
  lemma {:induction false} TruncatesTowardsZero(n: int, d: int)
    requires d > 0
    ensures n == TruncDiv(n, d) * d + TruncMod(n, d)
    ensures if n >= 0 then 0 <= TruncMod(n, d) < d else -d < TruncMod(n, d) <= 0
  {
  }

  lemma {:induction false} TruncNonNegative(n: int, d: int)
    requires n >= 0 && d > 0
    ensures TruncDiv(n, d) == n / d && TruncMod(n, d) == n % d && 0 <= n % d < d
  {
  }

  /** No stride is zero: += divides by the product of the extents after each dimension. */
  predicate Divisible(b: Index) {
    b == [] || Positive(b[1..])
  }

  /** The components += computes from a linear index by the stride table. */
  function Digits(n: int, b: Index): (i: Index)
    requires Divisible(b)
    ensures |i| == |b|
    decreases b
  {
    if b == [] then []
    else
      SizePositive(b[1..]);
      var s := Size(b[1..]);
      [TruncDiv(n, s)] + Digits(TruncMod(n, s), b[1..])
  }

  lemma {:induction false} DigitsStep(n: int, b: Index, k: nat)
    requires Divisible(b) && k < |b|
    ensures Divisible(b[k..]) && Divisible(b[k + 1..])
    ensures var s := Strides(b)[k];
            s > 0 && Digits(n, b[k..]) == [TruncDiv(n, s)] + Digits(TruncMod(n, s), b[k + 1..])
  {
    assert b[k..][1..] == b[k + 1..];
    assert forall j :: k + 1 <= j < |b| ==> b[j] == b[1..][j - 1];
    SizePositive(b[k + 1..]);
  }

  lemma {:induction false} DigitsEnd(n: int, b: Index)
    ensures Digits(n, b[|b|..]) == []
  {
  }

  // ---------------------------------------------------------------- the class

  class BoundsIterator {
    const boundary: Index
    const curr: array<int>

    ghost predicate Valid() {
      |boundary| >= 1 && NonNegative(boundary) && curr.Length == |boundary|
    }

    constructor (b: Index, start: Index)
      requires |b| == |start| >= 1 && NonNegative(b)
      ensures Valid() && boundary == b && curr[..] == start && fresh(curr)
    {
      boundary := b;
      curr := new int[|start|](k requires 0 <= k < |start| => start[k]);
    }

    method IsLess(one: Index, other: Index) returns (r: bool)
      requires |one| == |other|
      ensures r == Less(one, other)
    {
      for i := 0 to |one|
        invariant forall k :: 0 <= k < i ==> one[k] >= other[k]
      {
        if one[i] < other[i] {
          return true;
        }
      }
      return false;
    }

    method Assign(to: Index)
      requires |to| == curr.Length
      modifies curr
      ensures curr[..] == to
    {
      forall k | 0 <= k < curr.Length {
        curr[k] := to[k];
      }
    }

    method Increment()
      requires Valid()
      modifies curr
      ensures curr[..] == Next(old(curr[..]), boundary)
    {
      hide Bump;
      ghost var was := curr[..];
      BumpNothing(was, boundary);
      var i := curr.Length;
      while i > 0
        invariant 0 <= i <= curr.Length && curr[..i] == was[..i]
        invariant Bump(was[i..], boundary[i..]) == (true, curr[i..])
      {
        i := i - 1;
        BumpStep(was, boundary, i);
        ghost var rest := curr[i + 1..];
        if curr[i] < boundary[i] - 1 {
          BumpSettled(was, boundary, i);
          curr[i] := curr[i] + 1;
          assert curr[i + 1..] == rest && curr[..i] == was[..i];
          assert curr[..] == was[..i] + ([was[i] + 1] + rest);
          return;
        }
        curr[i] := 0;
        assert curr[i + 1..] == rest && curr[i..] == [0] + rest;
      }
      assert was[0..] == was && boundary[0..] == boundary;
      Assign(boundary);
    }

    method Decrement() returns (ok: bool)
      requires Valid()
      modifies curr
      ensures (ok, curr[..]) == Prev(old(curr[..]), boundary)
    {
      hide Drop;
      ghost var was := curr[..];
      var inside := IsLess(curr[..], boundary);
      if !inside {
        Assign(Last(boundary));
        return true;
      }
      DropNothing(was, boundary);
      var i := curr.Length;
      while i > 0
        invariant 0 <= i <= curr.Length && curr[..i] == was[..i]
        invariant Drop(was[i..], boundary[i..]) == (true, curr[i..])
      {
        i := i - 1;
        DropStep(was, boundary, i);
        ghost var rest := curr[i + 1..];
        if curr[i] >= 1 {
          DropSettled(was, boundary, i);
          curr[i] := curr[i] - 1;
          assert curr[i + 1..] == rest && curr[..i] == was[..i];
          assert curr[..] == was[..i] + ([was[i] - 1] + rest);
          return true;
        }
        curr[i] := boundary[i] - 1;
        assert curr[i + 1..] == rest && curr[i..] == [boundary[i] - 1] + rest;
      }
      assert was[0..] == was && boundary[0..] == boundary && curr[0..] == curr[..];
      return false;
    }

    method LinearizeIndex(idx: Index) returns (r: int)
      requires Valid() && |idx| == |boundary|
      ensures r == LinearizePosition(idx, boundary)
    {
      var multiplier := 1;
      var inside := IsLess(idx, boundary);
      var terms := if inside then idx else Last(idx);
      var res := 0;
      var i := |idx|;
      while i > 0
        invariant 0 <= i <= |idx|
        invariant res == Linear(terms[i..], boundary[i..]) && multiplier == Size(boundary[i..])
      {
        i := i - 1;
        assert terms[i..][1..] == terms[i + 1..] && boundary[i..][1..] == boundary[i + 1..];
        res := res + terms[i] * multiplier;
        multiplier := multiplier * boundary[i];
      }
      assert terms[0..] == terms && boundary[0..] == boundary;
      r := if inside then res else 1 + res;
    }

    /** operator+=: a stride table, then truncating division and remainder. Returns whether the final Expects holds. */
    method AddAssign(n: int) returns (ok: bool)
      requires Valid() && Divisible(boundary)
      modifies curr
      ensures curr[..] == Digits(LinearizePosition(old(curr[..]), boundary) + n, boundary)
      ensures ok <==> !Less(curr[..], Zeros(|boundary|)) && !Less(boundary, curr[..])
    {
      hide Digits, TruncDiv, TruncMod, Size;
      var linearIdx := LinearizeIndex(curr[..]);
      linearIdx := linearIdx + n;
      ghost var target := linearIdx;
      var stride := StrideTable();
      var i := 0;
      while i < curr.Length
        invariant 0 <= i <= curr.Length
        invariant Divisible(boundary[i..])
        invariant Digits(target, boundary) == curr[..i] + Digits(linearIdx, boundary[i..])
      {
        DigitsStep(linearIdx, boundary, i);
        ghost var before := curr[..i];
        curr[i] := TruncDiv(linearIdx, stride[i]);
        linearIdx := TruncMod(linearIdx, stride[i]);
        i := i + 1;
        assert curr[..i] == before + [curr[i - 1]];
      }
      DigitsEnd(linearIdx, boundary);
      assert curr[..i] == curr[..];
      var low := IsLess(curr[..], Zeros(|boundary|));
      var high := IsLess(boundary, curr[..]);
      ok := !low && !high;
    }

    method StrideTable() returns (stride: Index)
      requires Valid()
      ensures stride == Strides(boundary)
    {
      hide Size;
      SizeEmpty(boundary);
      var n := |boundary|;
      var table := new int[n](_ => 0);
      table[n - 1] := 1;
      var i := n - 1;
      while i > 0
        invariant 0 <= i < n
        invariant forall k :: i <= k < n ==> table[k] == Size(boundary[k + 1..])
      {
        i := i - 1;
        SizeStep(boundary, i + 1);
        table[i] := table[i + 1] * boundary[i + 1];
      }
      stride := table[..];
    }
  }

  lemma {:induction false} BumpNothing(i: Index, b: Index)
    requires |i| == |b|
    ensures Bump(i[|i|..], b[|i|..]) == (true, [])
  {
  }

  lemma {:induction false} DropNothing(i: Index, b: Index)
    requires |i| == |b|
    ensures Drop(i[|i|..], b[|i|..]) == (true, [])
  {
  }

  lemma {:induction false} BumpStep(i: Index, b: Index, k: nat)
    requires k < |i| == |b|
    ensures var (carry, rest) := Bump(i[k + 1..], b[k + 1..]);
            Bump(i[k..], b[k..]) == if !carry then (false, [i[k]] + rest)
                                    else if i[k] < b[k] - 1 then (false, [i[k] + 1] + rest)
                                    else (true, [0] + rest)
  {
    assert i[k..][1..] == i[k + 1..] && b[k..][1..] == b[k + 1..];
  }

  /** Once a dimension absorbs the carry, those before it stay. */
  lemma {:induction false} BumpSettled(i: Index, b: Index, k: nat)
    requires k <= |i| == |b| && !Bump(i[k..], b[k..]).0
    ensures Bump(i, b) == (false, i[..k] + Bump(i[k..], b[k..]).1)
    decreases k
  {
    if k == 0 {
      assert i[0..] == i && b[0..] == b && i[..0] + Bump(i, b).1 == Bump(i, b).1;
    } else {
      BumpStep(i, b, k - 1);
      BumpSettled(i, b, k - 1);
      var r := Bump(i[k..], b[k..]).1;
      assert i[..k - 1] + ([i[k - 1]] + r) == i[..k] + r;
    }
  }

  lemma {:induction false} DropStep(i: Index, b: Index, k: nat)
    requires k < |i| == |b|
    ensures var (borrow, rest) := Drop(i[k + 1..], b[k + 1..]);
            Drop(i[k..], b[k..]) == if !borrow then (false, [i[k]] + rest)
                                    else if i[k] >= 1 then (false, [i[k] - 1] + rest)
                                    else (true, [b[k] - 1] + rest)
  {
    assert i[k..][1..] == i[k + 1..] && b[k..][1..] == b[k + 1..];
  }

  lemma {:induction false} DropSettled(i: Index, b: Index, k: nat)
    requires k <= |i| == |b| && !Drop(i[k..], b[k..]).0
    ensures Drop(i, b) == (false, i[..k] + Drop(i[k..], b[k..]).1)
    decreases k
  {
    if k == 0 {
      assert i[0..] == i && b[0..] == b && i[..0] + Drop(i, b).1 == Drop(i, b).1;
    } else {
      DropStep(i, b, k - 1);
      DropSettled(i, b, k - 1);
      var r := Drop(i[k..], b[k..]).1;
      assert i[..k - 1] + ([i[k - 1]] + r) == i[..k] + r;
    }
  }

  // ---------------------------------------------------------------- what the odometer does to the linear index

  lemma {:induction false} BumpAddsOne(i: Index, b: Index)
    requires InRange(i, b)
    ensures var (carry, j) := Bump(i, b);
            InRange(j, b) && Linear(j, b) == if carry then 0 else Linear(i, b) + 1
    ensures Bump(i, b).0 <==> Linear(i, b) == Size(b) - 1
  {
    if i != [] {
      var s := Size(b[1..]);
      BumpAddsOne(i[1..], b[1..]);
      LinearBound(i[1..], b[1..]);
      MulDistributes(i[0], 1, s);
      MulMonotone(i[0] + 1, b[0], s);
      var (carry, rest) := Bump(i[1..], b[1..]);
      assert Bump(i, b).1[1..] == rest;
      if i[0] < b[0] - 1 {
        MulMonotone(i[0] + 2, b[0], s);
        MulDistributes(i[0], 2, s);
      }
    }
  }

  lemma {:induction false} DropTakesOne(i: Index, b: Index)
    requires InRange(i, b)
    ensures var (borrow, j) := Drop(i, b);
            InRange(j, b) && Linear(j, b) == if borrow then Size(b) - 1 else Linear(i, b) - 1
    ensures Drop(i, b).0 <==> Linear(i, b) == 0
  {
    if i != [] {
      var s := Size(b[1..]);
      DropTakesOne(i[1..], b[1..]);
      LinearBound(i[1..], b[1..]);
      MulMonotone(0, i[0], s);
      MulDistributes(i[0], -1, s);
      MulDistributes(b[0], -1, s);
      var (borrow, rest) := Drop(i[1..], b[1..]);
      assert Drop(i, b).1[1..] == rest;
      if i[0] >= 1 {
        MulMonotone(1, i[0], s);
      }
    }
  }

  /** A position is an in-range index or the boundary, past the last. */
  ghost predicate Position(i: Index, b: Index) {
    InRange(i, b) || i == b
  }

  /** Positions are numbered 0 to Size(b) by the iterator's own linearize, the boundary last. */
  lemma {:induction false} PositionNumber(i: Index, b: Index)
    requires Position(i, b) && Positive(b) && b != []
    ensures Less(i, b) <==> InRange(i, b)
    ensures LinearizePosition(i, b) == if i == b then Size(b) else Linear(i, b)
    ensures 0 <= LinearizePosition(i, b) <= Size(b)
    ensures LinearizePosition(i, b) == Size(b) <==> i == b
  {
    SizePositive(b);
    if i == b {
      LinearOfLast(b);
    } else {
      assert i[0] < b[0];
      LinearBound(i, b);
    }
  }

  /** ++ raises the position number by exactly one. */
  lemma {:induction false} IncrementAddsOne(i: Index, b: Index)
    requires InRange(i, b) && b != []
    ensures Positive(b) && Position(Next(i, b), b)
    ensures LinearizePosition(Next(i, b), b) == LinearizePosition(i, b) + 1
  {
    assert Positive(b);
    BumpAddsOne(i, b);
    PositionNumber(i, b);
    PositionNumber(Next(i, b), b);
    var j := Next(i, b);
    if !Bump(i, b).0 {
      LinearBound(j, b);
      assert j[0] < b[0];
    }
  }

  /** -- fails at the first position only, and lowers every other number by exactly one. */
  lemma {:induction false} DecrementTakesOne(i: Index, b: Index)
    requires Position(i, b) && Positive(b) && b != []
    ensures Prev(i, b).0 <==> LinearizePosition(i, b) > 0
    ensures Prev(i, b).0 ==> InRange(Prev(i, b).1, b)
                             && LinearizePosition(Prev(i, b).1, b) == LinearizePosition(i, b) - 1
  {
    PositionNumber(i, b);
    SizePositive(b);
    if i == b {
      LinearOfLast(b);
      assert InRange(Last(b), b);
      PositionNumber(Last(b), b);
      LinearBound(Last(b), b);
    } else {
      DropTakesOne(i, b);
      PositionNumber(Drop(i, b).1, b);
      assert Drop(i, b).1 != b by {
        assert Drop(i, b).1[0] < b[0];
      }
    }
  }

  /** Equal numbers, equal positions. */
  lemma {:induction false} PositionInjective(i: Index, j: Index, b: Index)
    requires Position(i, b) && Position(j, b) && Positive(b) && b != []
    requires LinearizePosition(i, b) == LinearizePosition(j, b)
    ensures i == j
  {
    PositionNumber(i, b);
    PositionNumber(j, b);
    if i != b && j != b {
      LinearInjective(i, j, b);
    }
  }

  /** -- undoes ++ at every in-range index. */
  lemma {:induction false} DecrementUndoesIncrement(i: Index, b: Index)
    requires InRange(i, b) && b != []
    ensures Prev(Next(i, b), b) == (true, i)
  {
    IncrementAddsOne(i, b);
    PositionNumber(i, b);
    DecrementTakesOne(Next(i, b), b);
    PositionInjective(Prev(Next(i, b), b).1, i, b);
  }

  /** ++ undoes -- at every position but the first. */
  lemma {:induction false} IncrementUndoesDecrement(i: Index, b: Index)
    requires Position(i, b) && Positive(b) && b != [] && LinearizePosition(i, b) > 0
    ensures Prev(i, b).0 && Next(Prev(i, b).1, b) == i
  {
    DecrementTakesOne(i, b);
    IncrementAddsOne(Prev(i, b).1, b);
    PositionInjective(Next(Prev(i, b).1, b), i, b);
  }

  // ---------------------------------------------------------------- enumeration

  /** Where `k` increments lead from the all-zero index. */
  function After(k: nat, b: Index): (i: Index)
    ensures |i| == |b|
  {
    if k == 0 then Zeros(|b|) else Next(After(k - 1, b), b)
  }

  lemma {:induction false} AfterIsPosition(k: nat, b: Index)
    requires Positive(b) && b != [] && k <= Size(b)
    ensures Position(After(k, b), b) && LinearizePosition(After(k, b), b) == k
  {
    SizePositive(b);
    if k == 0 {
      assert InRange(Zeros(|b|), b);
      LinearOfZeros(b);
      PositionNumber(Zeros(|b|), b);
      assert Zeros(|b|)[0] != b[0];
    } else {
      AfterIsPosition(k - 1, b);
      PositionNumber(After(k - 1, b), b);
      IncrementAddsOne(After(k - 1, b), b);
    }
  }

  /** The walk from begin reaches end after `n` steps, and passes every in-range index exactly once on its way, and
      nothing else. */
  ghost predicate Enumerates(b: Index, n: nat) {
    && After(n, b) == b
    && (forall k :: 0 <= k < n ==> After(k, b) != b && InRange(After(k, b), b) && Linear(After(k, b), b) == k)
    && (forall i :: InRange(i, b) ==> 0 <= Linear(i, b) < n && After(Linear(i, b), b) == i)
  }

  /** The walk enumerates the in-range indices if and only if all extents are positive, in as many steps as there are
      elements, or all are zero, in no step. */
  lemma {:induction false} IncrementEnumerates(b: Index)
    requires NonNegative(b) && b != []
    ensures Positive(b) ==> Size(b) >= 1 && Enumerates(b, Size(b))
    ensures (exists n: nat :: Enumerates(b, n)) <==> Positive(b) || b == Zeros(|b|)
  {
    if Positive(b) {
      PositiveEnumerates(b);
    } else {
      forall i
        ensures !InRange(i, b)
      {
        OnlyPositiveHasIndices(i, b);
      }
      assert After(0, b) == Zeros(|b|);
      if b == Zeros(|b|) {
        assert Enumerates(b, 0);
      } else {
        forall n: nat
          ensures !Enumerates(b, n)
        {
          assert Enumerates(b, n) ==> n != 0;
        }
      }
    }
  }

  lemma {:induction false} OnlyPositiveHasIndices(i: Index, b: Index)
    ensures InRange(i, b) ==> Positive(b)
  {
    if InRange(i, b) {
      assert forall k :: 0 <= k < |b| ==> 0 <= i[k] < b[k];
    }
  }

  lemma {:induction false} PositiveEnumerates(b: Index)
    requires Positive(b) && b != []
    ensures Size(b) >= 1 && Enumerates(b, Size(b))
  {
    SizePositive(b);
    forall k | 0 <= k <= Size(b)
      ensures if k == Size(b) then After(k, b) == b
              else After(k, b) != b && InRange(After(k, b), b) && Linear(After(k, b), b) == k
    {
      AfterIsPosition(k, b);
      PositionNumber(After(k, b), b);
    }
    forall i | InRange(i, b)
      ensures 0 <= Linear(i, b) < Size(b) && After(Linear(i, b), b) == i
    {
      LinearBound(i, b);
      LinearInjective(After(Linear(i, b), b), i, b);
    }
  }

  /** Two dimensions, the first of them empty: the walk passes three vectors, although there is no element. */
  lemma {:induction false} EmptyRowsAreWalked()
    ensures var b := [0, 3];
            Size(b) == 0 && After(0, b) == [0, 0] && After(1, b) == [0, 1] && After(2, b) == [0, 2] && After(3, b) == b
  {
  }

  // ---------------------------------------------------------------- +=

  /** One digit off the front, for a number that is not negative. */
  lemma {:induction false} FirstDigit(n: int, b: Index)
    requires Divisible(b) && b != [] && n >= 0
    ensures var s := Size(b[1..]);
            s >= 1 && 0 <= n % s < s && Digits(n, b) == [n / s] + Digits(n % s, b[1..])
  {
    SizePositive(b[1..]);
    TruncNonNegative(n, Size(b[1..]));
  }

  lemma {:induction false} DigitsOfNonNegative(n: int, b: Index)
    requires Positive(b) && 0 <= n
    ensures Digits(n, b) == Unlinear(n, b)
    decreases b
  {
    if b != [] {
      FirstDigit(n, b);
      DigitsOfNonNegative(n % Size(b[1..]), b[1..]);
    }
  }

  /** The digits always recompose to the number, whatever its sign. */
  lemma {:induction false} DigitsRecompose(n: int, b: Index)
    requires Divisible(b) && b != []
    ensures Linear(Digits(n, b), b) == n
    decreases b
  {
    var s := Size(b[1..]);
    SizePositive(b[1..]);
    var d := Digits(n, b);
    assert d[1..] == Digits(TruncMod(n, s), b[1..]);
    if |b| == 1 {
      assert s == 1 && b[1..] == [];
      assert d == [n];
    } else {
      DigitsRecompose(TruncMod(n, s), b[1..]);
    }
  }

  /** += to a target within range lands on the unique in-range index with that number. */
  lemma {:induction false} AddAssignIsExact(n: int, b: Index)
    requires Positive(b) && b != [] && 0 <= n < Size(b)
    ensures InRange(Digits(n, b), b) && LinearizePosition(Digits(n, b), b) == n
    ensures forall i :: InRange(i, b) && LinearizePosition(i, b) == n ==> i == Digits(n, b)
  {
    DigitsOfNonNegative(n, b);
    LinearOfUnlinear(n, b);
    PositionNumber(Digits(n, b), b);
    LinearBound(Digits(n, b), b);
    forall i | InRange(i, b) && LinearizePosition(i, b) == n
      ensures i == Digits(n, b)
    {
      PositionInjective(i, Digits(n, b), b);
    }
  }

  /** (it + n) - it == n, from every position, the end included, to every target that += lets through. */
  lemma {:induction false} DifferenceUndoesAdd(i: Index, n: int, b: Index)
    requires Position(i, b) && Positive(b) && b != []
    requires 0 <= LinearizePosition(i, b) + n < Size(b) + Size(b[1..])
    ensures LinearizePosition(Digits(LinearizePosition(i, b) + n, b), b) - LinearizePosition(i, b) == n
  {
    var target := LinearizePosition(i, b) + n;
    var d := Digits(target, b);
    DigitsRecompose(target, b);
    FirstDigit(target, b);
    if |b| == 1 {
      assert b[1..] == [] && d == [target] && Last(d) == [target - 1];
      assert Linear(Last(d), b) == (target - 1) * Size([]) + Linear(Last(d)[1..], []);
    } else {
      DigitsOfNonNegative(target % Size(b[1..]), b[1..]);
      LinearOfUnlinear(target % Size(b[1..]), b[1..]);
      assert d[1] < b[1..][0] == b[1];
    }
  }

  /** The check at the end of +=, exactly: it also lets through a target up to one stride of the first dimension
      beyond the end. */
  lemma {:induction false} AddAssignCheckExactly(n: int, b: Index)
    requires NonNegative(b) && Divisible(b) && b != []
    ensures !Less(Digits(n, b), Zeros(|b|)) && !Less(b, Digits(n, b)) <==> 0 <= n < Size(b) + Size(b[1..])
  {
    var s := Size(b[1..]);
    var d := Digits(n, b);
    SizePositive(b[1..]);
    MulDistributes(b[0], 1, s);
    if n < 0 {
      DigitsRecompose(n, b);
      if !Less(d, Zeros(|b|)) {
        LinearNonNegative(d, b);
      }
    } else {
      DigitBound(n, b[0] + 1, s);
      FirstDigit(n, b);
      DigitsOfNonNegative(n % s, b[1..]);
      LinearOfUnlinear(n % s, b[1..]);
      var rest := Digits(n % s, b[1..]);
      assert d[0] == n / s;
      assert forall k :: 1 <= k < |b| ==> d[k] == rest[k - 1] && b[k] == b[1..][k - 1];
    }
  }

  /** In two by two, += to 5 passes the check and is at no position. */
  lemma {:induction false} AddMayPassTheEnd()
    ensures var b := [2, 2];
            Digits(5, b) == [2, 1] && !Less([2, 1], Zeros(2)) && !Less(b, [2, 1]) && !Position([2, 1], b)
  {
    var b := [2, 2];
    assert b[1..] == [2] && [2][1..] == [];
    assert Size([2]) == 2 * Size([]) == 2;
    assert Digits(1, [2]) == [TruncDiv(1, 1)] + Digits(TruncMod(1, 1), []);
    assert Digits(5, b) == [TruncDiv(5, 2)] + Digits(TruncMod(5, 2), [2]);
    assert TruncDiv(5, 2) == 2 && TruncMod(5, 2) == 1;
    assert [2, 1][0] == b[0] && [2, 1][1] != b[1];
  }

  lemma {:induction false} LinearNonNegative(i: Index, b: Index)
    requires |i| == |b| && NonNegative(b) && forall k :: 0 <= k < |i| ==> i[k] >= 0
    ensures Linear(i, b) >= 0
  {
    if i != [] {
      SizeNonNegative(b[1..]);
      LinearNonNegative(i[1..], b[1..]);
      MulMonotone(0, i[0], Size(b[1..]));
    }
  }

  /** begin + size is the boundary at rank one only; at any higher rank it is another vector. */
  lemma {:induction false} BeginPlusSizeIsEnd(b: Index)
    requires Positive(b) && b != []
    ensures Digits(Size(b), b) == b <==> |b| == 1
  {
    var s := Size(b[1..]);
    SizePositive(b[1..]);
    SizePositive(b);
    FirstDigit(Size(b), b);
    DivMod(b[0], s, 0);
    var rest := Digits(0, b[1..]);
    if |b| > 1 {
      DigitsOfNonNegative(0, b[1..]);
      LinearOfUnlinear(0, b[1..]);
      assert rest[0] < b[1..][0];
    } else {
      assert b == [b[0]];
    }
  }
}
