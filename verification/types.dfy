/** The type lattice (types.go).

    A Go `Type` is a `Range` plus an `Elem *Type` pointer: a nil `Elem`
    makes it a scalar whose range bounds its values, a non-nil one a list
    whose range bounds its length and whose `Elem` types its elements.
    Slices of types share `Elem` pointers, but nothing ever writes through
    one, so value semantics is faithful. */
module Types {
  import opened Ranges
  import opened Outcomes
  import Decimal

  datatype Type =
    | Scalar(range: Range)
    | List(range: Range, elem: Type)

  /** A scalar holding just `v`. */
  function Constant(v: int): (t: Type)
    ensures t.Scalar? && IsConst(t.range) && Contains(t.range, v)
  {
    Scalar(Range(v, v))
  }

  /** A scalar holding the integers from `min` to `max`. */
  function InRange(min: int, max: int): (t: Type)
    ensures t.Scalar?
    ensures forall p :: Contains(t.range, p) <==> min <= p <= max
    ensures t.range.start == min && t.range.end == max
  {
    Scalar(Range(min, max))
  }

  /** x <= 0 */
  const NON_POSITIVE: Type := InRange(MinInt32, 0)
  /** x > 0 */
  const POSITIVE: Type := InRange(1, MaxInt32)
  /** x = 0 */
  const NIL: Type := Constant(0)

  lemma NamedTypes()
    ensures NON_POSITIVE == Scalar(Range(MinInt32, 0))
    ensures POSITIVE == Scalar(Range(1, MaxInt32))
    ensures NIL == Scalar(Range(0, 0))
    ensures Disjoint(NON_POSITIVE.range, POSITIVE.range)
    ensures forall p :: Denotes(NON_POSITIVE.range, p) || Denotes(POSITIVE.range, p)
  {
  }

  // ---------------------------------------------------------------------
  // SubsetOf

  /** `Type.SubsetOf` as written: false when the ranges are disjoint, and
      otherwise true when `t` sticks out of `o` at either end, or both are
      lists whose elements are in this relation. */
  predicate SubsetOf(t: Type, o: Type)
    decreases t
  {
    if !(t.range.start <= o.range.end && o.range.start <= t.range.end) then
      false
    else
      t.range.start < o.range.start || o.range.end < t.range.end
      || (t.List? && o.List? && SubsetOf(t.elem, o.elem))
  }

  /** On overlapping scalars `SubsetOf` is the negation of containment: it
      holds exactly when `t` does NOT lie inside `o`. */
  lemma SubsetOfScalars(t: Type, o: Type)
    requires t.Scalar? && o.Scalar? && !Disjoint(t.range, o.range)
    ensures SubsetOf(t, o) <==> !SubRange(t.range, o.range)
  {
  }

  /** No type is `SubsetOf` itself. */
  lemma {:induction false} SubsetOfIrreflexive(t: Type)
    ensures !SubsetOf(t, t)
  {
    if t.List? {
      SubsetOfIrreflexive(t.elem);
    }
  }

  /** Types whose ranges are disjoint are never in the relation, whatever
      their elements. */
  lemma SubsetOfDisjoint(t: Type, o: Type)
    requires Disjoint(t.range, o.range)
    ensures !SubsetOf(t, o)
  {
  }

  lemma SubsetOfExamples()
    ensures !SubsetOf(InRange(2, 3), InRange(1, 5))
    ensures SubsetOf(InRange(1, 5), InRange(2, 3))
    ensures !SubsetOf(InRange(1, 2), InRange(5, 6))
  {
  }

  // ---------------------------------------------------------------------
  // TypesUnion

  /** `TypesUnion` as written.  The range is always the hull.  Only a list
      `a` gives a list: its element comes from `b` when `a` is surely empty
      (so a scalar `b` makes the result a scalar), from `a` when `b` is
      surely empty, and otherwise from the union of the two elements, which
      dereferences a nil `Elem` when `b` is a scalar.  The Go function's
      error result is always nil. */
  function TypesUnion(a: Type, b: Type): (r: Outcome<Type>)
    ensures r.Ok? || r.Crash?
    ensures r.Ok? ==> r.value.range == Union(a.range, b.range)
    ensures a.Scalar? ==> r == Ok(Scalar(Union(a.range, b.range)))
    ensures a.List? && a.range.end == 0 ==>
              r.Ok? && (r.value.List? <==> b.List?) && (b.List? ==> r.value.elem == b.elem)
    ensures a.List? && a.range.end != 0 && b.range.end == 0 ==> r.Ok? && r.value.List? && r.value.elem == a.elem
    ensures a.List? && a.range.end != 0 && b.range.end != 0 && b.Scalar? ==> r.Crash?
    ensures a.List? && b.List? && a.range.end != 0 && b.range.end != 0 ==>
              (TypesUnion(a.elem, b.elem).Ok? ==>
                 r == Ok(List(Union(a.range, b.range), TypesUnion(a.elem, b.elem).value)))
              && (TypesUnion(a.elem, b.elem).Crash? ==> r.Crash?)
    decreases a
  {
    var rng := Union(a.range, b.range);
    if a.Scalar? then
      Ok(Scalar(rng))
    else if a.range.end == 0 then
      Ok(if b.List? then List(rng, b.elem) else Scalar(rng))
    else if b.range.end == 0 then
      Ok(List(rng, a.elem))
    else if b.Scalar? then
      Crash
    else
      match TypesUnion(a.elem, b.elem)
      case Ok(u) => Ok(List(rng, u))
      case _ => Crash
  }

  /** Two types have the same nesting: both scalars, or both lists whose
      elements have the same nesting. */
  predicate SameShape(a: Type, b: Type)
    decreases a
  {
    match a
    case Scalar(_) => b.Scalar?
    case List(_, e) => b.List? && SameShape(e, b.elem)
  }

  /** Joining two types of the same nesting never crashes and keeps the
      nesting. */
  lemma {:induction false} TypesUnionSameShape(a: Type, b: Type)
    requires SameShape(a, b)
    ensures TypesUnion(a, b).Ok?
    ensures SameShape(TypesUnion(a, b).value, a)
    decreases a
  {
    if a.List? && a.range.end != 0 && b.range.end != 0 {
      TypesUnionSameShape(a.elem, b.elem);
    } else if a.List? && a.range.end == 0 {
      SameShapeReflexive(b.elem);
      SameShapeSymmetric(a.elem, b.elem);
    } else if a.List? {
      SameShapeReflexive(a.elem);
    }
  }

  lemma {:induction false} SameShapeReflexive(a: Type)
    ensures SameShape(a, a)
    decreases a
  {
    if a.List? {
      SameShapeReflexive(a.elem);
    }
  }

  lemma {:induction false} SameShapeSymmetric(a: Type, b: Type)
    requires SameShape(a, b)
    ensures SameShape(b, a)
    decreases a
  {
    if a.List? {
      SameShapeSymmetric(a.elem, b.elem);
    }
  }

  /** Joining a type with itself gives it back. */
  lemma {:induction false} TypesUnionIdempotent(t: Type)
    ensures TypesUnion(t, t) == Ok(t)
    decreases t
  {
    UnionCommutativeIdempotent(t.range, t.range);
    if t.List? && t.range.end != 0 {
      TypesUnionIdempotent(t.elem);
    }
  }

  /** The join is not symmetric: a scalar first swallows a list, while the
      list first dereferences the scalar's nil element. */
  lemma TypesUnionAsymmetric()
    ensures TypesUnion(InRange(1, 1), List(Range(1, 1), NIL)) == Ok(InRange(1, 1))
    ensures TypesUnion(List(Range(1, 1), NIL), InRange(1, 1)) == Crash
  {
  }

  // ---------------------------------------------------------------------
  // String

  /** `Type.String`: a list prints its length range (bracketed when the
      range prints bare) followed by its element; a scalar whose range
      prints with a bracket gets an "int" prefix. */
  function TypeString(t: Type): (s: string)
    ensures 1 <= |s|
    decreases t
  {
    match t
    case List(r, e) =>
      var rs := RangeString(r);
      (if rs[0] != '[' && rs[0] != '(' then "[" + rs + "]" else rs) + TypeString(e)
    case Scalar(r) =>
      var rs := RangeString(r);
      if rs[0] == '[' || rs[0] == '(' then "int" + rs else rs
  }

  /** A list type prints with an opening bracket and a scalar never does,
      so the printed form tells the two apart; a list's string ends with
      its element's string. */
  lemma TypeStringShape(t: Type)
    ensures TypeString(t)[0] == '[' || TypeString(t)[0] == '(' <==> t.List?
    ensures t.List? ==> |TypeString(t.elem)| < |TypeString(t)|
    ensures t.List? ==> TypeString(t)[|TypeString(t)| - |TypeString(t.elem)|..] == TypeString(t.elem)
  {
    RangeStringBracketed(t.range);
    var rs := RangeString(t.range);
    if t.Scalar? && rs[0] != '[' && rs[0] != '(' {
      if t.range == UNDEF {
        assert rs == "any";
      } else {
        assert rs == Decimal.Show(t.range.start);
      }
    }
  }

  /** A list type's printed form opens with its length range's printed form,
      wrapped in brackets when that form is bare ("any" or a constant), and
      ends with its element's printed form. */
  lemma TypeStringListPrefix(r: Range, e: Type)
    ensures var s := TypeString(List(r, e));
            var rs := RangeString(r);
            var k := if r != UNDEF && !IsConst(r) then 0 else 1;
            && k + |rs| + k <= |s|
            && s[k..k + |rs|] == rs
            && (k == 1 ==> s[0] == '[' && s[k + |rs|] == ']')
            && s[|s| - |TypeString(e)|..] == TypeString(e)
  {
    RangeStringBracketed(r);
  }

  /** A scalar prints as "int" followed by its range exactly when the range
      is neither `UNDEF` nor constant; otherwise it prints the bare range
      ("any" or the constant's decimal). */
  lemma TypeStringScalar(r: Range)
    ensures r != UNDEF && !IsConst(r) ==> TypeString(Scalar(r)) == "int" + RangeString(r)
    ensures r == UNDEF ==> TypeString(Scalar(r)) == "any"
    ensures r != UNDEF && IsConst(r) ==> TypeString(Scalar(r)) == Decimal.Show(r.start)
  {
    RangeStringBracketed(r);
  }

  /** A scalar with a proper range prints as "int" and the range. */
  lemma TypeStringScalarExample()
    ensures TypeString(InRange(1, 8)) == "int[1, 8]"
  {
    assert Decimal.Show(1) == "1" && Decimal.Show(8) == "8";
    assert RangeString(Range(1, 8)) == "[1, 8]";
  }

  lemma RangeStringOneFive()
    ensures RangeString(Range(1, 5)) == "[1, 5]"
  {
    assert Decimal.Show(1) == "1" && Decimal.Show(5) == "5";
  }

  lemma RangeStringThreeFive()
    ensures RangeString(Range(3, 5)) == "[3, 5]"
  {
    assert Decimal.Show(3) == "3" && Decimal.Show(5) == "5";
  }

  /** A list prints its length range, then its element. */
  lemma TypeStringListExample()
    ensures TypeString(List(Range(3, 5), InRange(1, 5))) == "[3, 5]int[1, 5]"
  {
    RangeStringOneFive();
    RangeStringThreeFive();
  }

  /** The empty list's type: a constant length is bracketed, and an
      unconstrained element prints as "any". */
  lemma TypeStringEmptyListExample()
    ensures TypeString(List(Range(0, 0), Scalar(UNDEF))) == "[0]any"
  {
    assert Decimal.Show(0) == "0";
    assert RangeString(Range(0, 0)) == "0";
    assert RangeString(UNDEF) == "any";
  }

  lemma TypeStringExamples()
    ensures TypeString(InRange(1, 8)) == "int[1, 8]"
    ensures TypeString(List(Range(3, 5), InRange(1, 5))) == "[3, 5]int[1, 5]"
    ensures TypeString(List(Range(0, 0), Scalar(UNDEF))) == "[0]any"
  {
    TypeStringScalarExample();
    TypeStringListExample();
    TypeStringEmptyListExample();
  }
}
