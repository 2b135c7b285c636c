/** Integer ranges with saturating bounds (ranges.go).

    A `Range` is a pair of Go `int`s.  The two 32-bit extremes act as
    sentinels: a start of `MinInt32` means "unbounded below" and an end of
    `MaxInt32` means "unbounded above".  Go's `int` is 64 bits wide; the
    model uses unbounded integers and assumes no bound ever comes near 2^63,
    which the source does not guard against either. */
module Ranges {
  import Decimal

  const MinInt32: int := -0x8000_0000
  const MaxInt32: int := 0x7fff_ffff

  datatype Range = Range(start: int, end: int)

  /** Any possible integer. */
  const UNDEF: Range := Range(MinInt32, MaxInt32)

  /** Nothing in the Go type enforces `Start <= End`; the properties that
      need it say so. */
  predicate WellFormed(r: Range) {
    r.start <= r.end
  }

  /** `p` is one of the integers between the bounds, read literally. */
  predicate Contains(r: Range, p: int) {
    r.start <= p <= r.end
  }

  /** `p` is one of the integers the range stands for, reading the
      sentinel bounds as infinite. */
  predicate Denotes(r: Range, p: int) {
    (r.start == MinInt32 || r.start <= p) && (r.end == MaxInt32 || p <= r.end)
  }

  /** `inner` lies between the bounds of `outer`. */
  predicate SubRange(inner: Range, outer: Range) {
    outer.start <= inner.start && inner.end <= outer.end
  }

  /** The ranges share no point. */
  predicate Disjoint(a: Range, b: Range) {
    a.end < b.start || b.end < a.start
  }

  function Min(x: int, y: int): int {
    if x <= y then x else y
  }

  function Max(x: int, y: int): int {
    if x >= y then x else y
  }

  // ---------------------------------------------------------------------
  // inverse

  /** The range of `-x` for `x` in `r`; a sentinel bound turns into the
      opposite sentinel. */
  function Inverse(r: Range): (o: Range)
    ensures r.start != MinInt32 ==> o.end == -r.start
    ensures r.end != MaxInt32 ==> o.start == -r.end
  {
    var a := if r.end == MaxInt32 then MinInt32 else -r.end;
    var b := if r.start == MinInt32 then MaxInt32 else -r.start;
    Range(a, b)
  }

  /** Negation swaps the sentinels: a range unbounded below becomes one
      unbounded above and vice versa, so `UNDEF` is its own inverse. */
  lemma InverseSentinels(r: Range)
    ensures Inverse(r).end == MaxInt32 <==> (r.start == MinInt32 || r.start == -MaxInt32)
    ensures r.end == MaxInt32 ==> Inverse(r).start == MinInt32
    ensures Inverse(UNDEF) == UNDEF
  {
  }

  /** The cases of the unit test for `inverse`. */
  lemma InverseTable()
    ensures Inverse(Range(1, 2)) == Range(-2, -1)
    ensures Inverse(Range(1, MaxInt32)) == Range(MinInt32, -1)
    ensures Inverse(Range(MinInt32, MaxInt32)) == Range(MinInt32, MaxInt32)
    ensures Inverse(Range(MinInt32, 3)) == Range(-3, MaxInt32)
  {
  }

  /** `inverse` undoes itself exactly when no finite bound collides with a
      sentinel on the way: a start of `-MaxInt32` becomes the end sentinel,
      and an end of `-MinInt32` becomes the start sentinel. */
  lemma InverseInvolution(r: Range)
    ensures Inverse(Inverse(r)) == r <==> r.start != -MaxInt32 && r.end != -MinInt32
  {
    if r.start == -MaxInt32 {
      assert Inverse(Inverse(r)).start == MinInt32;
    }
  }

  /** The collision in practice: `[-MaxInt32, 0]` inverts to
      `[0, MaxInt32]`, whose end reads as unbounded, so inverting again
      yields `[MinInt32, 0]`. */
  lemma InverseNotInvolution()
    ensures Inverse(Range(-MaxInt32, 0)) == Range(0, MaxInt32)
    ensures Inverse(Inverse(Range(-MaxInt32, 0))) == Range(MinInt32, 0)
  {
  }

  /** Reading sentinels as infinities, `inverse` over-approximates
      negation: the negation of every point of `r` is a point of the
      result. */
  lemma InverseSound(r: Range, p: int)
    requires Denotes(r, p)
    ensures Denotes(Inverse(r), -p)
  {
  }

  // ---------------------------------------------------------------------
  // union

  /** The hull of two ranges. */
  function Union(a: Range, b: Range): (o: Range)
    ensures SubRange(a, o) && SubRange(b, o)
    ensures o.start == a.start || o.start == b.start
    ensures o.end == a.end || o.end == b.end
  {
    var s := if a.start < b.start then a.start else b.start;
    var e := if a.end > b.end then a.end else b.end;
    Range(s, e)
  }

  /** The hull is the least range containing both arguments. */
  lemma UnionLeast(a: Range, b: Range, c: Range)
    requires SubRange(a, c) && SubRange(b, c)
    ensures SubRange(Union(a, b), c)
  {
  }

  lemma UnionIsMinMax(a: Range, b: Range)
    ensures Union(a, b) == Range(Min(a.start, b.start), Max(a.end, b.end))
  {
  }

  lemma UnionCommutativeIdempotent(a: Range, b: Range)
    ensures Union(a, b) == Union(b, a)
    ensures Union(a, a) == a
  {
  }

  /** The cases of the unit test for `union`. */
  lemma UnionTable()
    ensures Union(Range(1, 3), Range(-1, 2)) == Range(-1, 3)
    ensures Union(Range(1, MaxInt32), Range(-1, 2)) == Range(-1, MaxInt32)
    ensures Union(Range(MinInt32, 3), Range(-1, 2)) == Range(MinInt32, 3)
    ensures Union(Range(MinInt32, 3), Range(-1, MaxInt32)) == Range(MinInt32, MaxInt32)
  {
  }

  // ---------------------------------------------------------------------
  // conv

  /** Minkowski sum: the range of `x + y` for `x` in `a` and `y` in `b`,
      with each bound saturating to its sentinel when either addend's bound
      is that sentinel. */
  function Conv(a: Range, b: Range): (o: Range)
    ensures a.start != MinInt32 && b.start != MinInt32 ==> o.start == a.start + b.start
    ensures a.end != MaxInt32 && b.end != MaxInt32 ==> o.end == a.end + b.end
  {
    var st := if a.start == MinInt32 || b.start == MinInt32 then MinInt32 else a.start + b.start;
    var ed := if a.end == MaxInt32 || b.end == MaxInt32 then MaxInt32 else a.end + b.end;
    Range(st, ed)
  }

  /** A sentinel in either addend saturates the sum's bound. */
  lemma ConvSaturates(a: Range, b: Range)
    ensures a.start == MinInt32 || b.start == MinInt32 ==> Conv(a, b).start == MinInt32
    ensures a.end == MaxInt32 || b.end == MaxInt32 ==> Conv(a, b).end == MaxInt32
  {
  }

  lemma ConvCommutative(a: Range, b: Range)
    ensures Conv(a, b) == Conv(b, a)
  {
  }

  lemma ConvIdentity(r: Range)
    ensures Conv(r, Range(0, 0)) == r
    ensures Conv(Range(0, 0), r) == r
  {
  }

  /** The cases of the unit test for `conv`. */
  lemma ConvTable()
    ensures Conv(Range(1, 2), Range(1, 1)) == Range(2, 3)
    ensures Conv(Range(1, 2), Range(1, 2)) == Range(2, 4)
    ensures Conv(Range(MinInt32, 1), Range(1, 2)) == Range(MinInt32, 3)
    ensures Conv(Range(MinInt32, 1), Range(1, MaxInt32)) == Range(MinInt32, MaxInt32)
    ensures Conv(Range(-1, 1), Range(1, MaxInt32)) == Range(0, MaxInt32)
  {
  }

  /** Reading sentinels as infinities, `conv` over-approximates addition. */
  lemma ConvSound(a: Range, b: Range, x: int, y: int)
    requires Denotes(a, x) && Denotes(b, y)
    ensures Denotes(Conv(a, b), x + y)
  {
  }

  // ---------------------------------------------------------------------
  // IsConst

  function IsConst(r: Range): bool {
    r.start == r.end
  }

  /** A well-formed range is constant exactly when it holds a single
      point. */
  lemma IsConstSingleton(r: Range)
    requires WellFormed(r)
    ensures IsConst(r) <==> forall p :: Contains(r, p) ==> p == r.start
  {
    if !IsConst(r) {
      assert Contains(r, r.start + 1);
    }
  }

  // ---------------------------------------------------------------------
  // intersect

  /** Exact intersection: no range when the two are disjoint, otherwise
      the single range of their common points. */
  function Intersect(a: Range, b: Range): (rs: seq<Range>)
    ensures |rs| <= 1
    ensures |rs| == 0 <==> Disjoint(a, b)
    ensures |rs| == 1 ==> rs[0] == Range(Max(a.start, b.start), Min(a.end, b.end))
    ensures |rs| == 1 ==> SubRange(rs[0], a) && SubRange(rs[0], b)
    ensures |rs| == 1 ==> forall p :: Contains(rs[0], p) <==> Contains(a, p) && Contains(b, p)
  {
    if a.end < b.start || b.end < a.start then
      []
    else
      var s := if b.start > a.start then b.start else a.start;
      var e := if b.end < a.end then b.end else a.end;
      [Range(s, e)]
  }

  /** For well-formed ranges the intersection is empty exactly when no
      point lies in both, and a non-empty result is well-formed. */
  lemma IntersectExact(a: Range, b: Range)
    requires WellFormed(a) && WellFormed(b)
    ensures |Intersect(a, b)| == 0 <==> forall p :: !(Contains(a, p) && Contains(b, p))
    ensures |Intersect(a, b)| == 1 ==> WellFormed(Intersect(a, b)[0])
  {
    if !Disjoint(a, b) {
      assert Contains(a, Max(a.start, b.start)) && Contains(b, Max(a.start, b.start));
    }
  }

  // ---------------------------------------------------------------------
  // subtract

  /** Exact set difference `a \ b` as zero, one or two ranges.  The Go code
      panics if the one-sided trim would produce `Start > End`; that branch
      is unreachable for every input, which the `assert false` below is
      proved to show. */
  function Subtract(a: Range, b: Range): (rs: seq<Range>)
    ensures |rs| <= 2
    ensures |rs| == 2 <==> a.start < b.start && b.end < a.end
    ensures WellFormed(a) && WellFormed(b) ==> (rs == [a] <==> Disjoint(a, b))
  {
    if a.start < b.start && b.end < a.end then
      [Range(a.start, b.start - 1), Range(b.end + 1, a.end)]
    else if b.start <= a.start && a.end <= b.end then
      []
    else if a.end < b.start || b.end < a.start then
      [a]
    else
      var trimmed := if a.start < b.start then a.(end := b.start - 1) else a.(start := b.end + 1);
      if trimmed.start > trimmed.end then
        assert false; []
      else
        [trimmed]
  }

  /** Every piece is well-formed, the pieces share no point, and together
      they hold exactly the points of `a` that are not in `b`. */
  lemma SubtractExact(a: Range, b: Range)
    requires WellFormed(a) && WellFormed(b)
    ensures forall i :: 0 <= i < |Subtract(a, b)| ==> WellFormed(Subtract(a, b)[i])
    ensures |Subtract(a, b)| == 2 ==> Disjoint(Subtract(a, b)[0], Subtract(a, b)[1])
    ensures forall p :: (exists i :: 0 <= i < |Subtract(a, b)| && Contains(Subtract(a, b)[i], p))
                        <==> Contains(a, p) && !Contains(b, p)
  {
  }

  /** The pieces of `a \ b` together with `a ∩ b` rebuild `a` exactly, and
      the intersection shares no point with any piece. */
  lemma SubtractIntersectPartition(a: Range, b: Range, p: int)
    requires WellFormed(a) && WellFormed(b)
    ensures Contains(a, p) <==>
              (exists i :: 0 <= i < |Subtract(a, b)| && Contains(Subtract(a, b)[i], p))
              || (|Intersect(a, b)| == 1 && Contains(Intersect(a, b)[0], p))
    ensures |Intersect(a, b)| == 1 && Contains(Intersect(a, b)[0], p) ==>
              forall i :: 0 <= i < |Subtract(a, b)| ==> !Contains(Subtract(a, b)[i], p)
  {
    SubtractExact(a, b);
  }

  // ---------------------------------------------------------------------
  // String

  /** `Range.String`: "any" for `UNDEF`, the decimal for a constant, and
      otherwise "[s, e]" with "(-∞" or "∞)" at a sentinel end. */
  function RangeString(r: Range): (s: string)
    ensures 1 <= |s|
  {
    if r.start == MinInt32 && r.end == MaxInt32 then
      "any"
    else if r.start == r.end then
      Decimal.Show(r.start)
    else
      var st := if r.start > MinInt32 then "[" + Decimal.Show(r.start) else "(-∞";
      var ed := if r.end < MaxInt32 then Decimal.Show(r.end) + "]" else "∞)";
      st + ", " + ed
  }

  /** The printed form opens with a bracket exactly when the range is
      neither `UNDEF` nor a constant; this is what `Type.String` tests. */
  lemma RangeStringBracketed(r: Range)
    ensures RangeString(r)[0] == '[' || RangeString(r)[0] == '(' <==> r != UNDEF && !IsConst(r)
  {
  }

  /** Only `UNDEF` prints as "any", and a constant prints as its decimal
      value, which reads back as the constant. */
  lemma RangeStringAny(r: Range)
    ensures RangeString(r) == "any" <==> r == UNDEF
    ensures r != UNDEF && IsConst(r) ==> Decimal.Parse(RangeString(r)) == r.start
  {
    Decimal.ShowRoundTrip(r.start);
  }

  /** A range with two distinct finite bounds prints as "[s, e]": each
      bound in decimal, so each reads back as that bound. */
  lemma RangeStringProper(r: Range)
    requires MinInt32 < r.start && r.end < MaxInt32 && !IsConst(r)
    ensures RangeString(r) == "[" + Decimal.Show(r.start) + ", " + Decimal.Show(r.end) + "]"
    ensures Decimal.Parse(RangeString(r)[1..1 + |Decimal.Show(r.start)|]) == r.start
    ensures Decimal.Parse(RangeString(r)[|RangeString(r)| - 1 - |Decimal.Show(r.end)|..|RangeString(r)| - 1]) == r.end
  {
    var s, e := Decimal.Show(r.start), Decimal.Show(r.end);
    var rs := RangeString(r);
    assert rs == "[" + s + ", " + e + "]";
    assert rs[1..1 + |s|] == s;
    assert rs[|rs| - 1 - |e|..|rs| - 1] == e;
    Decimal.ShowRoundTrip(r.start);
    Decimal.ShowRoundTrip(r.end);
  }

  lemma RangeStringExamples()
    ensures RangeString(UNDEF) == "any"
    ensures RangeString(Range(7, 7)) == "7"
    ensures RangeString(Range(1, 8)) == "[1, 8]"
    ensures RangeString(Range(MinInt32, 3)) == "(-∞, 3]"
    ensures RangeString(Range(-1, MaxInt32)) == "[-1, ∞)"
  {
  }
}
