/** Properties of the evaluator: what each variant computes, `head` and
    `tail` undoing a prepend, 64-bit wrap-around, and fuel. */
module InterpreterProperties {
  import opened Outcomes
  import opened Tree
  import opened Interpreter

  const MinInt64: Int64 := -0x8000_0000_0000_0000

  /** The wrap-around changes its argument by a multiple of 2^64 and
      leaves exactly the representable values alone. */
  lemma Wrap64Congruent(x: int)
    requires -TwoTo64 <= x < TwoTo64
    ensures (Wrap64(x) - x) % TwoTo64 == 0
    ensures Wrap64(x) == x <==> MinInt64 <= x < TwoTo63
  {
  }

  /** No other 64-bit value is congruent to `x`: the wrap-around is Go's
      two's-complement result. */
  lemma Wrap64Unique(x: int, y: Int64)
    requires -TwoTo64 <= x < TwoTo64
    requires (y - x) % TwoTo64 == 0
    ensures y == Wrap64(x)
  {
    var d := Wrap64(x) - y;
    Wrap64Congruent(x);
    assert d % TwoTo64 == 0;
    assert -TwoTo64 < d < TwoTo64;
  }

  /** Negating twice gives the number back, even for the one value whose
      negation overflows to itself. */
  lemma Wrap64NegateInvolution(v: Int64)
    ensures Wrap64(-(Wrap64(-(v as int)) as int)) == v
    ensures Wrap64(-(v as int)) == v <==> v == 0 || v == MinInt64
  {
  }

  /** Leaves: a constant is a number, the empty list is a present list
      with no element, a variable is its argument (a missing one panics),
      and a match failure panics. */
  lemma EvalLeaves(rt: Runtime, args: seq<Obj>, fuel: nat, c: Int64, i: nat, msg: string)
    ensures Eval(rt, Const(c), args, fuel) == Ok(Num(c))
    ensures Eval(rt, EmptyList, args, fuel) == Ok(ListOf([]))
    ensures i < |args| ==> Eval(rt, Var(i), args, fuel) == Ok(args[i])
    ensures i >= |args| ==> Eval(rt, Var(i), args, fuel) == Crash
    ensures Eval(rt, Undef(msg), args, fuel) == Crash
  {
  }

  /** A sum adds the `Int` parts, wrapping at 64 bits. */
  lemma EvalPlus(rt: Runtime, a: Node, b: Node, args: seq<Obj>, fuel: nat)
    requires Eval(rt, a, args, fuel).Ok? && Eval(rt, b, args, fuel).Ok?
    ensures Eval(rt, Plus(a, b), args, fuel)
              == Ok(Num(Wrap64(Eval(rt, a, args, fuel).value.num + Eval(rt, b, args, fuel).value.num)))
  {
  }

  /** A negation negates the `Int` part, wrapping at 64 bits. */
  lemma EvalNegate(rt: Runtime, a: Node, args: seq<Obj>, fuel: nat)
    requires Eval(rt, a, args, fuel).Ok?
    ensures Eval(rt, Negate(a), args, fuel) == Ok(Num(Wrap64(-(Eval(rt, a, args, fuel).value.num as int))))
  {
  }

  /** A list's `Int` is 0, so adding the empty list adds nothing. */
  lemma EvalPlusOfList(rt: Runtime, args: seq<Obj>, fuel: nat)
    ensures Eval(rt, Plus(EmptyList, Const(1)), args, fuel) == Ok(Num(1))
  {
  }

  /** Adding and then subtracting a constant, the way the parser writes
      `x - k`, gives `x` back whenever the sum does not overflow. */
  lemma EvalSubtract(rt: Runtime, a: Node, k: Int64, args: seq<Obj>, fuel: nat)
    requires Eval(rt, a, args, fuel).Ok?
    requires MinInt64 <= Eval(rt, a, args, fuel).value.num as int - k as int < TwoTo63
    ensures Eval(rt, Plus(a, Negate(Const(k))), args, fuel)
              == Ok(Num((Eval(rt, a, args, fuel).value.num as int - k as int) as Int64))
  {
    var x := Eval(rt, a, args, fuel).value.num;
    var nk := Negate(Const(k));
    EvalLeaves(rt, args, fuel, k, 0, "");
    EvalNegate(rt, Const(k), args, fuel);
    var m := Wrap64(-(k as int));
    if k == MinInt64 {
      // -k does not fit: the negation wraps to `MinInt64` itself, and the
      // sum wraps back.
      assert m == MinInt64;
    } else {
      assert m == -(k as int);
    }
    assert Eval(rt, nk, args, fuel) == Ok(Num(m));
    EvalPlus(rt, a, nk, args, fuel);
    assert Wrap64(x + m) == x - k;
  }

  /** A conditional evaluates its condition and then exactly one branch:
      the first when the condition's `Int` is at most 0. */
  lemma EvalIf(rt: Runtime, c: Node, np: Node, p: Node, args: seq<Obj>, fuel: nat)
    ensures !Eval(rt, c, args, fuel).Ok? ==> Eval(rt, If(c, np, p), args, fuel) == Eval(rt, c, args, fuel)
    ensures Eval(rt, c, args, fuel).Ok? && Eval(rt, c, args, fuel).value.num <= 0 ==>
              Eval(rt, If(c, np, p), args, fuel) == Eval(rt, np, args, fuel)
    ensures Eval(rt, c, args, fuel).Ok? && Eval(rt, c, args, fuel).value.num > 0 ==>
              Eval(rt, If(c, np, p), args, fuel) == Eval(rt, p, args, fuel)
  {
  }

  /** A prepend is a present list one longer than the tail's elements,
      headed by the head's value; a number as tail counts as no element. */
  lemma EvalPrepend(rt: Runtime, h: Node, t: Node, args: seq<Obj>, fuel: nat)
    requires Eval(rt, h, args, fuel).Ok? && Eval(rt, t, args, fuel).Ok?
    ensures Eval(rt, Prepend(h, t), args, fuel).Ok?
    ensures Eval(rt, Prepend(h, t), args, fuel).value.vals.Slice?
    ensures |Elems(Eval(rt, Prepend(h, t), args, fuel).value)| == |Elems(Eval(rt, t, args, fuel).value)| + 1
    ensures Elems(Eval(rt, Prepend(h, t), args, fuel).value)[0] == Eval(rt, h, args, fuel).value
    ensures Elems(Eval(rt, Prepend(h, t), args, fuel).value)[1..] == Elems(Eval(rt, t, args, fuel).value)
  {
  }

  /** `head` and `tail` panic exactly on a value with no element (a number
      or an empty list); otherwise `head` is the first element and `tail`
      a present list of the rest. */
  lemma EvalHeadTail(rt: Runtime, l: Node, args: seq<Obj>, fuel: nat)
    requires Eval(rt, l, args, fuel).Ok?
    ensures Eval(rt, Head(l), args, fuel).Crash? <==> |Elems(Eval(rt, l, args, fuel).value)| == 0
    ensures Eval(rt, Tail(l), args, fuel).Crash? <==> |Elems(Eval(rt, l, args, fuel).value)| == 0
    ensures Eval(rt, Head(l), args, fuel).Ok? ==>
              Eval(rt, Head(l), args, fuel).value == Elems(Eval(rt, l, args, fuel).value)[0]
    ensures Eval(rt, Tail(l), args, fuel).Ok? ==>
              Eval(rt, Tail(l), args, fuel).value == ListOf(Elems(Eval(rt, l, args, fuel).value)[1..])
  {
  }

  /** `head` and `tail` undo a prepend: the head comes back as it was, and
      the tail comes back as a present list of the same elements. */
  lemma HeadTailUndoPrepend(rt: Runtime, h: Node, t: Node, args: seq<Obj>, fuel: nat)
    requires Eval(rt, h, args, fuel).Ok? && Eval(rt, t, args, fuel).Ok?
    ensures Eval(rt, Head(Prepend(h, t)), args, fuel) == Eval(rt, h, args, fuel)
    ensures Eval(rt, Tail(Prepend(h, t)), args, fuel) == Ok(ListOf(Elems(Eval(rt, t, args, fuel).value)))
    ensures Eval(rt, t, args, fuel).value.vals.Slice? && Eval(rt, t, args, fuel).value.num == 0 ==>
              Eval(rt, Tail(Prepend(h, t)), args, fuel) == Eval(rt, t, args, fuel)
  {
    var vt := Eval(rt, t, args, fuel).value;
    assert ([Eval(rt, h, args, fuel).value] + Elems(vt))[1..] == Elems(vt);
  }

  /** A call evaluates the argument first; an undefined name then panics,
      and otherwise the callee's body runs with that value as its only
      argument. */
  lemma EvalApply(rt: Runtime, name: string, arg: Node, args: seq<Obj>, fuel: nat)
    ensures !Eval(rt, arg, args, fuel).Ok? ==> Eval(rt, Apply(name, arg), args, fuel) == Eval(rt, arg, args, fuel)
    ensures Eval(rt, arg, args, fuel).Ok? && name !in rt ==> Eval(rt, Apply(name, arg), args, fuel) == Crash
    ensures Eval(rt, arg, args, fuel).Ok? && name in rt && fuel > 0 ==>
              Eval(rt, Apply(name, arg), args, fuel) == Eval(rt, rt[name], [Eval(rt, arg, args, fuel).value], fuel - 1)
  {
  }

  /** Fuel only matters by running out: an evaluation that finishes with
      some fuel finishes with the same value (or panic) given more. */
  lemma {:induction false} EvalFuelMonotone(rt: Runtime, n: Node, args: seq<Obj>, fuel: nat, more: nat)
    requires fuel <= more
    ensures !Eval(rt, n, args, fuel).OutOfFuel? ==> Eval(rt, n, args, more) == Eval(rt, n, args, fuel)
    decreases fuel, n, 1
  {
    match n
    case Const(_) =>
    case EmptyList =>
    case Plus(a, b) =>
      EvalFuelMonotone(rt, a, args, fuel, more);
      EvalFuelMonotone(rt, b, args, fuel, more);
    case Negate(e) =>
      EvalFuelMonotone(rt, e, args, fuel, more);
    case Var(_) =>
    case Undef(_) =>
    case Apply(name, arg) =>
      ApplyFuelMonotone(rt, name, arg, args, fuel, more);
    case _ =>
      CompoundFuelMonotone(rt, n, args, fuel, more);
  }

  /** The call's part of `EvalFuelMonotone`. */
  lemma {:induction false} ApplyFuelMonotone(rt: Runtime, name: string, arg: Node, args: seq<Obj>, fuel: nat, more: nat)
    requires fuel <= more
    ensures !Eval(rt, Apply(name, arg), args, fuel).OutOfFuel? ==>
              Eval(rt, Apply(name, arg), args, more) == Eval(rt, Apply(name, arg), args, fuel)
    decreases fuel, Apply(name, arg), 0
  {
    EvalFuelMonotone(rt, arg, args, fuel, more);
    var va := Eval(rt, arg, args, fuel);
    if va.Ok? && name in rt && fuel > 0 {
      EvalFuelMonotone(rt, rt[name], [va.value], fuel - 1, more - 1);
    }
  }

  /** The conditional's and the list operations' part of
      `EvalFuelMonotone`. */
  lemma {:induction false} CompoundFuelMonotone(rt: Runtime, n: Node, args: seq<Obj>, fuel: nat, more: nat)
    requires fuel <= more
    requires n.If? || n.Prepend? || n.Head? || n.Tail?
    ensures !Eval(rt, n, args, fuel).OutOfFuel? ==> Eval(rt, n, args, more) == Eval(rt, n, args, fuel)
    decreases fuel, n, 0
  {
    match n
    case If(c, np, p) =>
      EvalFuelMonotone(rt, c, args, fuel, more);
      EvalFuelMonotone(rt, np, args, fuel, more);
      EvalFuelMonotone(rt, p, args, fuel, more);
    case Prepend(h, t) =>
      EvalFuelMonotone(rt, h, args, fuel, more);
      EvalFuelMonotone(rt, t, args, fuel, more);
    case Head(l) =>
      EvalFuelMonotone(rt, l, args, fuel, more);
    case Tail(l) =>
      EvalFuelMonotone(rt, l, args, fuel, more);
  }
}
