/** Multi-dimensional bounds and sections of a span. `None` stands for a failed Expects. */
module MultiSpan {
  import opened Wrappers
  import opened Bits
  import opened MixedRadix

  // ---------------------------------------------------------------- BoundsRanges

  /** One dimension of a contiguous span: its extent is part of the type, or known only when it is built. */
  datatype Extent = Fixed(n: int) | Dynamic(n: int)

  /** A dynamic dimension stores the product of its own extent and all later ones. */
  datatype BoundsRanges =
    | End
    | FixedRange(extent: int, base: BoundsRanges)
    | DynamicRange(bound: int, base: BoundsRanges)
  {
    function TotalSize(): int {
      match this
      case End => 1
      case FixedRange(extent, base) => extent * base.TotalSize()
      case DynamicRange(bound, _) => bound
    }

    /** A fixed dimension checks both ends; a dynamic one checks only that the scaled index is below its bound. */
    function Linearize(idx: Index): Option<int> {
      if this.End? || idx == [] then Some(0)
      else
        var index := base.TotalSize() * idx[0];
        if (FixedRange? && !(0 <= idx[0] < extent)) || (DynamicRange? && index >= bound) then None
        else
          match base.Linearize(idx[1..])
          case None => None
          case Some(rest) => Some(index + rest)
    }

    /** The extents, a dynamic one recovered by division. */
    function Serialize(): Index
      requires Divisible()
    {
      match this
      case End => []
      case FixedRange(extent, base) => [extent] + base.Serialize()
      case DynamicRange(bound, base) => [bound / base.TotalSize()] + base.Serialize()
    }

    predicate Divisible() {
      match this
      case End => true
      case FixedRange(_, base) => base.Divisible()
      case DynamicRange(_, base) => base.TotalSize() != 0 && base.Divisible()
    }
  }

  function Extents(es: seq<Extent>): Index {
    seq(|es|, k requires 0 <= k < |es| => es[k].n)
  }

  function OfExtents(es: seq<Extent>): BoundsRanges {
    if es == [] then End
    else
      var base := OfExtents(es[1..]);
      if es[0].Fixed? then FixedRange(es[0].n, base) else DynamicRange(es[0].n * base.TotalSize(), base)
  }

  lemma {:induction false} TotalSizeIsProduct(es: seq<Extent>)
    ensures OfExtents(es).TotalSize() == Size(Extents(es))
  {
    if es != [] {
      assert Extents(es)[1..] == Extents(es[1..]);
      TotalSizeIsProduct(es[1..]);
    }
  }

  /** No dynamic dimension is followed by an empty product, which it would divide by. */
  ghost predicate RestsNotEmpty(es: seq<Extent>) {
    forall k :: 0 <= k < |es| && es[k].Dynamic? ==> Size(Extents(es)[k + 1..]) > 0
  }

  /** The stored products give the extents back whenever they can be divided at all. */
  lemma {:induction false} SerializeRecoversExtents(es: seq<Extent>)
    requires NonNegative(Extents(es))
    ensures OfExtents(es).Divisible() <==> RestsNotEmpty(es)
    ensures RestsNotEmpty(es) ==> OfExtents(es).Serialize() == Extents(es)
  {
    if es != [] {
      var b, tail := Extents(es), Extents(es[1..]);
      TailOfExtents(es);
      SerializeRecoversExtents(es[1..]);
      TotalSizeIsProduct(es[1..]);
      SizeNonNegative(tail);
      RestsNotEmptyStep(es);
      if Size(tail) > 0 {
        DivMod(es[0].n, Size(tail), 0);
      }
      assert b == [es[0].n] + tail;
    }
  }

  lemma {:induction false} TailOfExtents(es: seq<Extent>)
    requires es != []
    ensures Extents(es)[1..] == Extents(es[1..])
    ensures NonNegative(Extents(es)) ==> NonNegative(Extents(es[1..]))
  {
    assert forall k :: 0 <= k < |es| - 1 ==> Extents(es[1..])[k] == Extents(es)[k + 1];
  }

  lemma {:induction false} RestsNotEmptyStep(es: seq<Extent>)
    requires es != []
    ensures RestsNotEmpty(es) <==> (es[0].Dynamic? ==> Size(Extents(es[1..])) > 0) && RestsNotEmpty(es[1..])
  {
    TailOfExtents(es);
    forall k | 1 <= k < |es|
      ensures es[k] == es[1..][k - 1] && Extents(es)[k + 1..] == Extents(es[1..])[k..]
    {
    }
  }

  /** What linearize accepts: below every extent, not negative in a fixed dimension, and nothing at all in a
      dynamic dimension with an empty rest. */
  ghost predicate Accepted(es: seq<Extent>, idx: Index) {
    |idx| == |es| && RestsNotEmpty(es)
    && forall k :: 0 <= k < |es| ==> idx[k] < es[k].n && (es[k].Fixed? ==> 0 <= idx[k])
  }

  /** linearize succeeds exactly on the accepted indices, and there it is the linear index. A negative index in a
      dynamic dimension is accepted. */
  lemma {:induction false} LinearizeExactly(es: seq<Extent>, idx: Index)
    requires NonNegative(Extents(es)) && |idx| == |es|
    ensures OfExtents(es).Linearize(idx) == if Accepted(es, idx) then Some(Linear(idx, Extents(es))) else None
    ensures OfExtents(es).Linearize(idx) == None <==>
            exists k :: 0 <= k < |es| && (|| idx[k] >= es[k].n
                                          || (es[k].Fixed? && idx[k] < 0)
                                          || (es[k].Dynamic? && Size(Extents(es)[k + 1..]) == 0))
  {
    if es != [] {
      var s := Size(Extents(es[1..]));
      TailOfExtents(es);
      LinearizeExactly(es[1..], idx[1..]);
      TotalSizeIsProduct(es[1..]);
      SizeNonNegative(Extents(es[1..]));
      if s > 0 {
        ScaledBelow(idx[0], es[0].n, s);
      }
      assert s * idx[0] == idx[0] * s;
      AcceptedStep(es, idx);
    }
    forall k | 0 <= k < |es| && es[k].Dynamic?
      ensures Size(Extents(es)[k + 1..]) >= 0
    {
      SizeNonNegative(Extents(es)[k + 1..]);
    }
  }

  lemma {:induction false} ScaledBelow(i: int, n: int, s: int)
    requires s >= 1
    ensures i < n <==> i * s < n * s
  {
    if i < n {
      MulMonotone(i + 1, n, s);
      MulDistributes(i, 1, s);
    } else {
      MulMonotone(n, i, s);
    }
  }

  lemma {:induction false} AcceptedStep(es: seq<Extent>, idx: Index)
    requires es != [] && |idx| == |es|
    ensures Accepted(es, idx) <==>
            && idx[0] < es[0].n && (if es[0].Fixed? then 0 <= idx[0] else Size(Extents(es[1..])) > 0)
            && Accepted(es[1..], idx[1..])
  {
    RestsNotEmptyStep(es);
    assert forall k :: 1 <= k < |es| ==> es[k] == es[1..][k - 1] && idx[k] == idx[1..][k - 1];
  }

  /** On in-range indices it never fails. */
  lemma {:induction false} LinearizeInRange(es: seq<Extent>, idx: Index)
    requires InRange(idx, Extents(es))
    ensures OfExtents(es).Linearize(idx) == Some(Linear(idx, Extents(es)))
  {
    InRangeIsAccepted(es, idx);
    LinearizeExactly(es, idx);
  }

  lemma {:induction false} InRangeIsAccepted(es: seq<Extent>, idx: Index)
    requires InRange(idx, Extents(es))
    ensures Positive(Extents(es)) && Accepted(es, idx)
  {
    var b := Extents(es);
    assert forall k :: 0 <= k < |es| ==> 0 <= idx[k] < b[k] && b[k] == es[k].n;
    forall k | 0 <= k < |es| && es[k].Dynamic?
      ensures Size(b[k + 1..]) > 0
    {
      SizePositive(b[k + 1..]);
    }
  }

  // ---------------------------------------------------------------- strided bounds

  /** One past the largest offset reached: the last index vector, with each stride taken once. */
  method StridedTotalSize(extents: Index, strides: Index) returns (r: int)
    requires |extents| == |strides|
    ensures r == Dot(Last(extents), strides) + 1
  {
    var ret, n := 0, |extents|;
    for i := 0 to n
      invariant ret + Dot(Last(extents)[i..], strides[i..]) == Dot(Last(extents), strides)
    {
      DotStep(Last(extents), strides, i);
      ret := ret + (extents[i] - 1) * strides[i];
    }
    r := ret + 1;
  }

  lemma {:induction false} DotStep(i: Index, s: Index, k: nat)
    requires k < |i| == |s|
    ensures Dot(i[k..], s[k..]) == i[k] * s[k] + Dot(i[k + 1..], s[k + 1..])
  {
    assert i[k..][1..] == i[k + 1..] && s[k..][1..] == s[k + 1..];
  }

  method StridedLinearize(extents: Index, strides: Index, idx: Index) returns (r: Option<int>)
    requires |extents| == |strides| == |idx|
    ensures r == if forall k :: 0 <= k < |idx| ==> idx[k] < extents[k] then Some(Dot(idx, strides)) else None
  {
    var ret := 0;
    for i := 0 to |extents|
      invariant ret + Dot(idx[i..], strides[i..]) == Dot(idx, strides)
      invariant forall k :: 0 <= k < i ==> idx[k] < extents[k]
    {
      if idx[i] >= extents[i] {
        return None;
      }
      DotStep(idx, strides, i);
      ret := ret + idx[i] * strides[i];
    }
    return Some(ret);
  }

  method StridedContains(extents: Index, idx: Index) returns (r: bool)
    requires |idx| == |extents|
    ensures r <==> InRange(idx, extents)
  {
    for i := 0 to |extents|
      invariant forall k :: 0 <= k < i ==> 0 <= idx[k] < extents[k]
    {
      if idx[i] < 0 || idx[i] >= extents[i] {
        return false;
      }
    }
    return true;
  }

  method StridedSize(extents: Index) returns (r: int)
    ensures r == Size(extents)
  {
    r := 1;
    for i := 0 to |extents|
      invariant r * Size(extents[i..]) == Size(extents)
    {
      assert extents[i..][1..] == extents[i + 1..];
      MulAssociative(r, extents[i], Size(extents[i + 1..]));
      r := r * extents[i];
    }
  }

  /** The stride table of contiguous bounds, filled from the last dimension back. */
  method MakeStride(extents: Index) returns (stride: Index)
    requires extents != []
    ensures stride == Strides(extents)
  {
    hide Size;
    SizeEmpty(extents);
    var n := |extents|;
    var table := new int[n](_ => 0);
    table[n - 1] := 1;
    for i := 1 to n
      invariant forall k :: n - i <= k < n ==> table[k] == Size(extents[k + 1..])
    {
      SizeStep(extents, n - i);
      table[n - i - 1] := table[n - i] * extents[n - i];
    }
    stride := table[..];
  }

  // ---------------------------------------------------------------- section

  /** A strided view: where it starts in the data, how many elements lie from there to the end, and its shape. */
  datatype StridedSpan = StridedSpan(start: int, room: int, extents: Index, strides: Index)

  /** The strided_span constructor accepts a shape when its last element is within the room it is given. */
  predicate SectionFits(b: Index, origin: Index, extents: Index)
    requires |origin| == |extents| == |b|
  {
    Dot(Last(extents), Strides(b)) + 1 <= Size(b) - Linear(origin, b)
  }

  /** All the checks that section and the constructor it calls make. */
  ghost predicate SectionAccepted(es: seq<Extent>, origin: Index, extents: Index)
    requires |origin| == |extents| == |es|
  {
    Accepted(es, origin) && Size(extents) >= 0 && SectionFits(Extents(es), origin, extents)
  }

  /** multi_span::section on a span whose extents are partly fixed by its type. */
  method Section(es: seq<Extent>, origin: Index, extents: Index) returns (r: Option<StridedSpan>)
    requires es != [] && NonNegative(Extents(es)) && |origin| == |extents| == |es|
    ensures var b := Extents(es);
            r == if SectionAccepted(es, origin, extents)
                 then Some(StridedSpan(Linear(origin, b), Size(b) - Linear(origin, b), extents, Strides(b)))
                 else None
    ensures Size(extents) < 0 ==> r == None
  {
    LinearizeExactly(es, origin);
    TotalSizeIsProduct(es);
    SerializeRecoversExtents(es);
    var ranges := OfExtents(es);
    var start := ranges.Linearize(origin);
    if start == None {
      return None;
    }
    var room := ranges.TotalSize() - start.value;
    var strides := MakeStride(ranges.Serialize());
    var size := StridedSize(extents);
    var total := StridedTotalSize(extents, strides);
    if size < 0 || total > room {
      return None;
    }
    return Some(StridedSpan(start.value, room, extents, strides));
  }

  /** Element `idx` of the section is element origin + idx of the span. */
  lemma {:induction false} SectionIsFaithful(b: Index, origin: Index, idx: Index)
    requires |origin| == |idx| == |b|
    ensures Linear(origin, b) + Dot(idx, Strides(b)) == Linear(Add(origin, idx), b)
  {
    LinearIsDot(origin, b);
    LinearIsDot(Add(origin, idx), b);
    DotAdd(origin, idx, Strides(b));
  }

  /** The section lies within the bounds, dimension by dimension. */
  ghost predicate Within(b: Index, origin: Index, extents: Index)
    requires |origin| == |extents| == |b|
  {
    forall k :: 0 <= k < |b| ==> 0 <= origin[k] && origin[k] + extents[k] <= b[k]
  }

  /** Every element of the section lies inside the data. */
  ghost predicate Safe(b: Index, origin: Index, extents: Index)
    requires |origin| == |extents| == |b|
  {
    forall idx :: InRange(idx, extents) ==> 0 <= Linear(origin, b) + Dot(idx, Strides(b)) < Size(b)
  }

  /** A section that lies within the bounds is always accepted, and all its elements are elements of the span. */
  lemma {:induction false} SectionWithinBoundsIsSafe(es: seq<Extent>, origin: Index, extents: Index)
    requires |origin| == |extents| == |es| && Positive(extents) && Within(Extents(es), origin, extents)
    ensures SectionAccepted(es, origin, extents) && Safe(Extents(es), origin, extents)
    ensures forall idx :: InRange(idx, extents) ==> InRange(Add(origin, idx), Extents(es))
  {
    var b := Extents(es);
    assert InRange(origin, b);
    InRangeIsAccepted(es, origin);
    SizePositive(extents);
    SectionIsFaithful(b, origin, Last(extents));
    LinearBound(Add(origin, Last(extents)), b);
    forall idx | InRange(idx, extents)
      ensures InRange(Add(origin, idx), b) && 0 <= Linear(origin, b) + Dot(idx, Strides(b)) < Size(b)
    {
      SectionIsFaithful(b, origin, idx);
      LinearBound(Add(origin, idx), b);
    }
  }

  /** What the constructor's check lacks for memory safety: a section that has elements keeps them inside the data
      if and only if the check passes and its start is not before the data. */
  lemma {:induction false} SectionCheckExactly(b: Index, origin: Index, extents: Index)
    requires NonNegative(b) && |origin| == |extents| == |b|
    ensures Safe(b, origin, extents) <==>
            (Positive(extents) ==> SectionFits(b, origin, extents) && 0 <= Linear(origin, b))
  {
    var first, last, s := Zeros(|b|), Last(extents), Strides(b);
    StridesNonNegative(b);
    LinearIsDot(first, b);
    LinearOfZeros(b);
    assert Positive(extents) ==> InRange(first, extents) && InRange(last, extents);
    forall idx | InRange(idx, extents)
      ensures Positive(extents) && 0 <= Dot(idx, s) <= Dot(last, s)
    {
      assert forall k :: 0 <= k < |extents| ==> 0 <= idx[k] < extents[k];
      DotMonotone(idx, last, s);
      DotMonotone(first, idx, s);
    }
  }

  /** Sections that are accepted and start before the data: their origin is negative in a dynamic dimension. */
  lemma {:induction false} SectionMayStartBefore()
    ensures var es, one := [Dynamic(3), Dynamic(3)], [1, 1];
            && SectionAccepted(es, [0, -1], one) && Linear([0, -1], Extents(es)) == -1
            && SectionAccepted(es, [-1, 0], one) && Linear([-1, 0], Extents(es)) == -3
  {
  }

  /** The check does not keep a section within each dimension either: this one runs on into the next row. */
  lemma {:induction false} SectionMaySpill()
    ensures var es, origin, extents := [Dynamic(3), Dynamic(3)], [0, 2], [1, 2];
            SectionAccepted(es, origin, extents) && !InRange(Add(origin, Last(extents)), Extents(es))
  {
  }

  /** The check compares the far corner, read as a linear index, with the size. */
  lemma {:induction false} SectionFitsExactly(b: Index, origin: Index, extents: Index)
    requires |origin| == |extents| == |b|
    ensures SectionFits(b, origin, extents) <==> Linear(Add(origin, Last(extents)), b) < Size(b)
  {
    SectionIsFaithful(b, origin, Last(extents));
  }

  /** What the caller must guard. An accepted section lies within the bounds if and only if its origin is not
      negative in any dynamic dimension, no dimension after the first is overrun, and, where a dimension after the
      first is empty, the first is not overrun either: then the check says nothing of it. */
  lemma {:induction false} AcceptedSectionIsWithinExactly(es: seq<Extent>, origin: Index, extents: Index)
    requires es != [] && |origin| == |extents| == |es| && SectionAccepted(es, origin, extents)
    ensures Within(Extents(es), origin, extents) <==>
            && (forall k :: 0 <= k < |es| && es[k].Dynamic? ==> 0 <= origin[k])
            && (forall k :: 1 <= k < |es| ==> origin[k] + extents[k] <= es[k].n)
            && (Positive(extents[1..]) || origin[0] + extents[0] <= es[0].n)
  {
    var b := Extents(es);
    if (forall k :: 0 <= k < |es| && es[k].Dynamic? ==> 0 <= origin[k])
       && (forall k :: 1 <= k < |es| ==> origin[k] + extents[k] <= es[k].n) && Positive(extents[1..]) {
      var corner := Add(origin, Last(extents));
      var s := Size(b[1..]);
      SectionFitsExactly(b, origin, extents);
      assert forall k :: 1 <= k < |b| ==> extents[k] == extents[1..][k - 1] >= 1;
      assert forall k :: 1 <= k < |b| ==> 0 <= origin[k] <= corner[k] < b[k];
      assert InRange(corner[1..], b[1..]);
      LinearBound(corner[1..], b[1..]);
      SizePositive(b[1..]);
      ScaledBelow(corner[0], b[0], s);
    }
  }

  /** A section without elements that is accepted and overruns the first dimension. */
  lemma {:induction false} EmptySectionMayOverrun()
    ensures var es, origin, extents := [Dynamic(3), Dynamic(3)], [0, 0], [4, 0];
            SectionAccepted(es, origin, extents) && !Within(Extents(es), origin, extents)
  {
  }
}
