/** Properties of forward inference and backward refinement, variant by
    variant, and of the fuel that bounds calls through the runtime. */
module InferenceProperties {
  import opened Ranges
  import opened Types
  import opened Outcomes
  import opened Tree
  import opened Inference

  // ---------------------------------------------------------------------
  // Forward inference

  /** Leaves: a constant is the one-point scalar, the empty list has length
      0 and an unconstrained element, a variable is its slot verbatim (a
      missing slot is an index panic), and the match-failure node always
      errors. */
  lemma InferLeaves(rt: Runtime, env: Env, fuel: nat, c: Int64, i: nat, msg: string)
    ensures Infer(rt, Const(c), env, fuel) == Ok(Constant(c))
    ensures Infer(rt, EmptyList, env, fuel) == Ok(List(Range(0, 0), Scalar(UNDEF)))
    ensures i < |env| ==> Infer(rt, Var(i), env, fuel) == Ok(env[i])
    ensures i >= |env| ==> Infer(rt, Var(i), env, fuel) == Crash
    ensures Infer(rt, Undef(msg), env, fuel) == Err(Undefined)
  {
  }

  /** A call reports the argument's failure first, then an undefined name,
      and otherwise infers the callee's body with the argument's type as
      its only slot. */
  lemma InferApply(rt: Runtime, name: string, arg: Node, env: Env, fuel: nat)
    ensures !Infer(rt, arg, env, fuel).Ok? ==> Infer(rt, Apply(name, arg), env, fuel) == Infer(rt, arg, env, fuel)
    ensures Infer(rt, arg, env, fuel).Ok? && name !in rt ==> Infer(rt, Apply(name, arg), env, fuel) == Err(UndefinedFunction)
    ensures Infer(rt, arg, env, fuel).Ok? && name in rt && fuel > 0 ==>
              Infer(rt, Apply(name, arg), env, fuel) == Infer(rt, rt[name], [Infer(rt, arg, env, fuel).value], fuel - 1)
  {
  }

  /** A sum of two typed operands is always the scalar `conv` of their
      ranges, even when an operand is a list; a negation rejects a list and
      otherwise inverts. */
  lemma InferArithmetic(rt: Runtime, a: Node, b: Node, env: Env, fuel: nat)
    ensures Infer(rt, a, env, fuel).Ok? && Infer(rt, b, env, fuel).Ok? ==>
              Infer(rt, Plus(a, b), env, fuel)
                == Ok(Scalar(Conv(Infer(rt, a, env, fuel).value.range, Infer(rt, b, env, fuel).value.range)))
    ensures Infer(rt, a, env, fuel).Ok? && Infer(rt, a, env, fuel).value.List? ==>
              Infer(rt, Negate(a), env, fuel) == Err(NegateList)
    ensures Infer(rt, a, env, fuel).Ok? && Infer(rt, a, env, fuel).value.Scalar? ==>
              Infer(rt, Negate(a), env, fuel) == Ok(Scalar(Inverse(Infer(rt, a, env, fuel).value.range)))
  {
  }

  /** Adding a list is not an error: the empty list counts as length 0. */
  lemma InferPlusOfList(rt: Runtime, env: Env, fuel: nat)
    ensures Infer(rt, Plus(EmptyList, Const(1)), env, fuel) == Ok(Constant(1))
  {
  }

  /** `head` succeeds exactly on a list that surely has an element, and
      then gives the element type. */
  lemma InferHead(rt: Runtime, l: Node, env: Env, fuel: nat)
    ensures Infer(rt, Head(l), env, fuel).Ok? <==>
              Infer(rt, l, env, fuel).Ok? && Infer(rt, l, env, fuel).value.List?
              && Infer(rt, l, env, fuel).value.range.start >= 1
    ensures Infer(rt, Head(l), env, fuel).Ok? ==>
              Infer(rt, Head(l), env, fuel).value == Infer(rt, l, env, fuel).value.elem
    ensures (Infer(rt, l, env, fuel).Ok? && Infer(rt, l, env, fuel).value.List?
             && Infer(rt, l, env, fuel).value.range.start < 1) ==> Infer(rt, Head(l), env, fuel) == Err(EmptyHead)
  {
  }

  /** `tail` never yields a type: a list operand is rejected as "not a
      list", and a scalar one is rejected as empty or crashes on its nil
      element. */
  lemma InferTailNeverOk(rt: Runtime, l: Node, env: Env, fuel: nat)
    ensures !Infer(rt, Tail(l), env, fuel).Ok?
    ensures Infer(rt, l, env, fuel).Ok? ==>
              (Infer(rt, Tail(l), env, fuel).Crash? <==>
                 Infer(rt, l, env, fuel).value.Scalar? && Infer(rt, l, env, fuel).value.range.start >= 1)
  {
  }

  /** A cons needs a list tail; its length is one more than the tail's and
      its element is the head's type when the tail is surely empty, and the
      join of the head's type with the tail's element otherwise. */
  lemma InferPrepend(rt: Runtime, h: Node, t: Node, env: Env, fuel: nat)
    requires Infer(rt, h, env, fuel).Ok? && Infer(rt, t, env, fuel).Ok?
    ensures Infer(rt, t, env, fuel).value.Scalar? ==> Infer(rt, Prepend(h, t), env, fuel) == Err(NotAList)
    ensures Infer(rt, t, env, fuel).value.List? && Infer(rt, t, env, fuel).value.range.end <= 0 ==>
              Infer(rt, Prepend(h, t), env, fuel)
                == Ok(List(Conv(Range(1, 1), Infer(rt, t, env, fuel).value.range), Infer(rt, h, env, fuel).value))
    ensures Infer(rt, t, env, fuel).value.List? && Infer(rt, t, env, fuel).value.range.end > 0
            && TypesUnion(Infer(rt, h, env, fuel).value, Infer(rt, t, env, fuel).value.elem).Ok? ==>
              Infer(rt, Prepend(h, t), env, fuel)
                == Ok(List(Conv(Range(1, 1), Infer(rt, t, env, fuel).value.range),
                           TypesUnion(Infer(rt, h, env, fuel).value, Infer(rt, t, env, fuel).value.elem).value))
  {
  }

  /** The type of a conditional.  Each guard restriction runs on its own
      copy of the slots; a branch whose guard fails is unreachable and
      contributes nothing; a branch that is reachable but fails to infer
      makes the conditional fail; with both branches the result is their
      join, with one it is that branch's type, and with none it is the
      positive guard's error. */
  lemma InferIf(rt: Runtime, c: Node, np: Node, p: Node, env: Env, fuel: nat)
    requires !Restrict(rt, c, env, NON_POSITIVE, fuel).0.Aborts()
    requires !Restrict(rt, c, env, POSITIVE, fuel).0.Aborts()
    ensures
      var (lr, lenv) := Restrict(rt, c, env, NON_POSITIVE, fuel);
      var (gr, genv) := Restrict(rt, c, env, POSITIVE, fuel);
      var r := Infer(rt, If(c, np, p), env, fuel);
      && (lr.Ok? && !Infer(rt, np, lenv, fuel).Ok? ==> r == Infer(rt, np, lenv, fuel))
      && (lr.Ok? && Infer(rt, np, lenv, fuel).Ok? && gr.Ok? && !Infer(rt, p, genv, fuel).Ok? ==>
            r == Infer(rt, p, genv, fuel))
      && (lr.Ok? && Infer(rt, np, lenv, fuel).Ok? && gr.Ok? && Infer(rt, p, genv, fuel).Ok? ==>
            r == TypesUnion(Infer(rt, np, lenv, fuel).value, Infer(rt, p, genv, fuel).value))
      && (lr.Ok? && Infer(rt, np, lenv, fuel).Ok? && gr.Err? ==> r == Infer(rt, np, lenv, fuel))
      && (lr.Err? && gr.Ok? ==> r == Infer(rt, p, genv, fuel))
      && (lr.Err? && gr.Err? ==> r == Err(gr.kind))
  {
  }

  // ---------------------------------------------------------------------
  // Backward refinement

  /** A constant can be restricted to a scalar target holding it, and to
      nothing else; the slots are untouched either way. */
  lemma RestrictConst(rt: Runtime, c: Int64, env: Env, t: Type, fuel: nat)
    ensures Restrict(rt, Const(c), env, t, fuel).0.Ok? <==> t.Scalar? && Contains(t.range, c)
    ensures !Restrict(rt, Const(c), env, t, fuel).0.Ok? ==> Restrict(rt, Const(c), env, t, fuel).0 == Err(Impossible)
    ensures Restrict(rt, Const(c), env, t, fuel).1 == env
  {
  }

  /** The empty list accepts exactly the list targets whose ELEMENT range
      is `[0, 0]`, whatever their length range; the slots are untouched. */
  lemma RestrictEmptyList(rt: Runtime, env: Env, t: Type, fuel: nat)
    ensures Restrict(rt, EmptyList, env, t, fuel).0.Ok? <==> t.List? && t.elem.range == Range(0, 0)
    ensures !Restrict(rt, EmptyList, env, t, fuel).0.Ok? ==> Restrict(rt, EmptyList, env, t, fuel).0 == Err(Impossible)
    ensures Restrict(rt, EmptyList, env, t, fuel).1 == env
  {
  }

  /** Hence the empty list cannot be restricted to its own inferred type,
      yet accepts a list of length 5 with zero elements. */
  lemma EmptyListNotOwnType(rt: Runtime, env: Env, fuel: nat)
    ensures Infer(rt, EmptyList, env, fuel).Ok?
    ensures Restrict(rt, EmptyList, env, Infer(rt, EmptyList, env, fuel).value, fuel).0 == Err(Impossible)
    ensures Restrict(rt, EmptyList, env, List(Range(5, 5), NIL), fuel).0.Ok?
  {
  }

  /** A cons is never restricted successfully: a list target is rejected
      and a scalar target crashes. */
  lemma RestrictPrependNeverOk(rt: Runtime, h: Node, tl: Node, env: Env, t: Type, fuel: nat)
    ensures t.List? ==> Restrict(rt, Prepend(h, tl), env, t, fuel).0 == Err(Impossible)
    ensures t.Scalar? ==> Restrict(rt, Prepend(h, tl), env, t, fuel).0 == Crash
  {
  }

  /** A slot past the end panics.  Otherwise a variable fails exactly when
      its slot's range misses the target's range, leaving the slots alone;
      and when it succeeds only that slot's range changes, to the
      intersection, keeping its shape and element. */
  lemma RestrictVar(rt: Runtime, i: nat, env: Env, t: Type, fuel: nat)
    ensures i >= |env| ==> Restrict(rt, Var(i), env, t, fuel) == (Crash, env)
    ensures i < |env| ==> (Restrict(rt, Var(i), env, t, fuel).0.Ok? <==> |Intersect(env[i].range, t.range)| == 1)
    ensures i < |env| && Restrict(rt, Var(i), env, t, fuel).0.Ok? ==>
              var env2 := Restrict(rt, Var(i), env, t, fuel).1;
              && env2[i] == env[i].(range := Range(Max(env[i].range.start, t.range.start),
                                                   Min(env[i].range.end, t.range.end)))
              && forall j :: 0 <= j < |env| && j != i ==> env2[j] == env[j]
    ensures i < |env| && !Restrict(rt, Var(i), env, t, fuel).0.Ok? ==>
              Restrict(rt, Var(i), env, t, fuel) == (Err(Impossible), env)
  {
  }

  /** A sum narrows A towards `target - B`, then B towards `target - A`
      using A's already narrowed type, both in the same slots; it succeeds
      when A's restriction does and otherwise reports B's outcome. */
  lemma RestrictPlus(rt: Runtime, a: Node, b: Node, env: Env, t: Type, fuel: nat)
    requires Infer(rt, b, env, fuel).Ok?
    ensures
      var tb := Infer(rt, b, env, fuel).value;
      var (ra, env1) := Restrict(rt, a, env, Scalar(Conv(t.range, Inverse(tb.range))), fuel);
      var ta := Infer(rt, a, env1, fuel);
      var r := Restrict(rt, Plus(a, b), env, t, fuel);
      && (ra.Aborts() ==> r == (ra, env1))
      && (!ra.Aborts() && !ta.Ok? ==> r == (Fail(ta), env1))
      && (!ra.Aborts() && ta.Ok? ==>
            var (rb, env2) := Restrict(rt, b, env1, Scalar(Conv(t.range, Inverse(ta.value.range))), fuel);
            && r.1 == env2
            && (!rb.Aborts() ==> (r.0.Ok? <==> ra.Ok? || rb.Ok?))
            && (!rb.Aborts() && !ra.Ok? ==> r.0 == rb))
  {
    var tb := Infer(rt, b, env, fuel).value;
    var ra := Restrict(rt, a, env, Scalar(Conv(t.range, Inverse(tb.range))), fuel);
    assert Restrict(rt, Plus(a, b), env, t, fuel) == RestrictSum(rt, a, b, env, t, fuel);
    if !ra.0.Aborts() {
      assert RestrictSum(rt, a, b, env, t, fuel) == RestrictSecondAddend(rt, a, b, ra.0, ra.1, t, fuel);
    }
  }

  /** A conditional never reports a refinement failure: an infeasible
      branch is dropped, and only a panic or exhausted fuel can stop it. */
  lemma RestrictIfNeverFails(rt: Runtime, c: Node, np: Node, p: Node, env: Env, t: Type, fuel: nat)
    ensures !Restrict(rt, If(c, np, p), env, t, fuel).0.Err?
  {
  }

  /** What a conditional commits.  A branch is feasible when its guard and
      then the branch itself can be restricted on a copy of the slots; for
      each feasible branch only the guard's narrowing is committed, the
      positive guard being tried on the slots as the non-positive commit
      left them.  When neither branch is feasible the slots are unchanged. */
  lemma RestrictIfCommits(rt: Runtime, c: Node, np: Node, p: Node, env: Env, t: Type, fuel: nat)
    ensures
      var l := Restrict(rt, c, env, NON_POSITIVE, fuel);
      var env1 := if l.0.Ok? && Restrict(rt, np, l.1, t, fuel).0.Ok? then l.1 else env;
      var g := Restrict(rt, c, env1, POSITIVE, fuel);
      var env2 := if g.0.Ok? && Restrict(rt, p, g.1, t, fuel).0.Ok? then g.1 else env1;
      Restrict(rt, If(c, np, p), env, t, fuel).0.Ok? ==> Restrict(rt, If(c, np, p), env, t, fuel).1 == env2
  {
  }

  /** A negation rejects a list target and otherwise restricts its
      operand to the mirrored range. */
  lemma RestrictNegate(rt: Runtime, e: Node, env: Env, t: Type, fuel: nat)
    ensures t.List? ==> Restrict(rt, Negate(e), env, t, fuel) == (Err(NegateList), env)
    ensures t.Scalar? ==> Restrict(rt, Negate(e), env, t, fuel) == Restrict(rt, e, env, Scalar(Inverse(t.range)), fuel)
  {
  }

  /** A `head` restricts its operand to a list of at least one element of
      the target type. */
  lemma RestrictHead(rt: Runtime, e: Node, env: Env, t: Type, fuel: nat)
    ensures Restrict(rt, Head(e), env, t, fuel) == Restrict(rt, e, env, List(Range(1, MaxInt32), t), fuel)
  {
  }

  /** A `tail` rejects a list target (the test is inverted) and restricts
      its operand to the scalar target with its start lowered by one. */
  lemma RestrictTail(rt: Runtime, e: Node, env: Env, t: Type, fuel: nat)
    ensures t.List? ==> Restrict(rt, Tail(e), env, t, fuel) == (Err(NotAList), env)
    ensures t.Scalar? ==>
              Restrict(rt, Tail(e), env, t, fuel) == Restrict(rt, e, env, Scalar(Range(t.range.start - 1, t.range.end)), fuel)
  {
  }

  /** A call restricts the callee's body under a one-slot copy holding the
      argument's type; on failure the caller's slots are untouched, and on
      success the argument is restricted to the narrowed slot. */
  lemma RestrictApply(rt: Runtime, name: string, arg: Node, env: Env, t: Type, fuel: nat)
    requires Infer(rt, arg, env, fuel).Ok? && name in rt && fuel > 0
    ensures
      var body := Restrict(rt, rt[name], [Infer(rt, arg, env, fuel).value], t, fuel - 1);
      && |body.1| == 1
      && (!body.0.Ok? ==> Restrict(rt, Apply(name, arg), env, t, fuel) == (body.0, env))
      && (body.0.Ok? ==> Restrict(rt, Apply(name, arg), env, t, fuel) == Restrict(rt, arg, env, body.1[0], fuel))
  {
  }

  // ---------------------------------------------------------------------
  // Fuel

  /** Fuel only matters by running out: an inference that finishes with
      some fuel finishes with the same result given more. */
  lemma {:induction false} InferFuelMonotone(rt: Runtime, n: Node, env: Env, fuel: nat, more: nat)
    requires fuel <= more
    ensures !Infer(rt, n, env, fuel).OutOfFuel? ==> Infer(rt, n, env, more) == Infer(rt, n, env, fuel)
    decreases fuel, n, 2
  {
    match n
    case Const(_) =>
    case EmptyList =>
    case Plus(a, b) =>
      InferFuelMonotone(rt, a, env, fuel, more);
      InferFuelMonotone(rt, b, env, fuel, more);
    case Negate(e) =>
      InferFuelMonotone(rt, e, env, fuel, more);
    case Var(_) =>
    case If(c, np, p) =>
      InferCondFuelMonotone(rt, c, np, p, env, fuel, more);
    case Undef(_) =>
    case Apply(name, arg) =>
      InferApplyFuelMonotone(rt, name, arg, env, fuel, more);
    case _ =>
      InferListFuelMonotone(rt, n, env, fuel, more);
  }

  /** The list operations' part of `InferFuelMonotone`. */
  lemma {:induction false} InferListFuelMonotone(rt: Runtime, n: Node, env: Env, fuel: nat, more: nat)
    requires fuel <= more
    requires n.Prepend? || n.Head? || n.Tail?
    ensures !Infer(rt, n, env, fuel).OutOfFuel? ==> Infer(rt, n, env, more) == Infer(rt, n, env, fuel)
    decreases fuel, n, 0
  {
    match n
    case Prepend(h, t) =>
      InferFuelMonotone(rt, h, env, fuel, more);
      InferFuelMonotone(rt, t, env, fuel, more);
    case Head(l) =>
      InferFuelMonotone(rt, l, env, fuel, more);
    case Tail(l) =>
      InferFuelMonotone(rt, l, env, fuel, more);
  }

  /** The call's part of `InferFuelMonotone`. */
  lemma {:induction false} InferApplyFuelMonotone(rt: Runtime, name: string, arg: Node, env: Env, fuel: nat, more: nat)
    requires fuel <= more
    ensures !Infer(rt, Apply(name, arg), env, fuel).OutOfFuel? ==>
              Infer(rt, Apply(name, arg), env, more) == Infer(rt, Apply(name, arg), env, fuel)
    decreases fuel, Apply(name, arg), 0
  {
    InferFuelMonotone(rt, arg, env, fuel, more);
    var ta := Infer(rt, arg, env, fuel);
    if ta.Ok? && name in rt && fuel > 0 {
      InferFuelMonotone(rt, rt[name], [ta.value], fuel - 1, more - 1);
    }
  }

  /** The conditional's part of `InferFuelMonotone`. */
  lemma {:induction false} InferCondFuelMonotone(rt: Runtime, c: Node, np: Node, p: Node, env: Env,
                                                 fuel: nat, more: nat)
    requires fuel <= more
    ensures !InferCond(rt, c, np, p, env, fuel).OutOfFuel? ==>
              InferCond(rt, c, np, p, env, more) == InferCond(rt, c, np, p, env, fuel)
    decreases fuel, If(c, np, p), 0
  {
    var l := Restrict(rt, c, env, NON_POSITIVE, fuel);
    RestrictFuelMonotone(rt, c, env, NON_POSITIVE, fuel, more);
    if !l.0.OutOfFuel? {
      InferFuelMonotone(rt, np, l.1, fuel, more);
      var g := Restrict(rt, c, env, POSITIVE, fuel);
      RestrictFuelMonotone(rt, c, env, POSITIVE, fuel, more);
      InferFuelMonotone(rt, p, g.1, fuel, more);
    }
  }

  /** The same for refinement, slots included. */
  lemma {:induction false} RestrictFuelMonotone(rt: Runtime, n: Node, env: Env, t: Type, fuel: nat, more: nat)
    requires fuel <= more
    ensures !Restrict(rt, n, env, t, fuel).0.OutOfFuel? ==> Restrict(rt, n, env, t, more) == Restrict(rt, n, env, t, fuel)
    decreases fuel, n, 2
  {
    match n
    case Const(_) =>
    case EmptyList =>
    case Plus(a, b) =>
      RestrictSumFuelMonotone(rt, a, b, env, t, fuel, more);
    case Negate(e) =>
      RestrictFuelMonotone(rt, e, env, Scalar(Inverse(t.range)), fuel, more);
    case Var(_) =>
    case If(_, _, _) =>
      RestrictBranchFuelMonotone(rt, n, env, t, false, fuel, more);
      RestrictBranchFuelMonotone(rt, n, RestrictBranch(rt, n, env, t, false, fuel).1, t, true, fuel, more);
    case Prepend(_, _) =>
    case Head(l) =>
      RestrictFuelMonotone(rt, l, env, List(POSITIVE.range, t), fuel, more);
    case Tail(l) =>
      RestrictFuelMonotone(rt, l, env, Scalar(Range(t.range.start - 1, t.range.end)), fuel, more);
    case Undef(_) =>
    case Apply(name, arg) =>
      RestrictApplyFuelMonotone(rt, name, arg, env, t, fuel, more);
  }

  /** The sum's part of `RestrictFuelMonotone`. */
  lemma {:induction false} RestrictSumFuelMonotone(rt: Runtime, a: Node, b: Node, env: Env, t: Type,
                                                   fuel: nat, more: nat)
    requires fuel <= more
    ensures !RestrictSum(rt, a, b, env, t, fuel).0.OutOfFuel? ==>
              RestrictSum(rt, a, b, env, t, more) == RestrictSum(rt, a, b, env, t, fuel)
    decreases fuel, Plus(a, b), 1
  {
    InferFuelMonotone(rt, b, env, fuel, more);
    var tb := Infer(rt, b, env, fuel);
    if tb.Ok? {
      var ta' := Scalar(Conv(t.range, Inverse(tb.value.range)));
      RestrictFuelMonotone(rt, a, env, ta', fuel, more);
      var ra := Restrict(rt, a, env, ta', fuel);
      if !ra.0.OutOfFuel? {
        if !ra.0.Aborts() {
          RestrictSecondAddendFuelMonotone(rt, a, b, ra.0, ra.1, t, fuel, more);
          assert RestrictSum(rt, a, b, env, t, fuel) == RestrictSecondAddend(rt, a, b, ra.0, ra.1, t, fuel);
          assert RestrictSum(rt, a, b, env, t, more) == RestrictSecondAddend(rt, a, b, ra.0, ra.1, t, more);
        }
      }
    }
  }

  /** The second addend's part of `RestrictFuelMonotone`. */
  lemma {:induction false} RestrictSecondAddendFuelMonotone(rt: Runtime, a: Node, b: Node, first: Outcome<()>,
                                                            env: Env, t: Type, fuel: nat, more: nat)
    requires fuel <= more
    ensures !RestrictSecondAddend(rt, a, b, first, env, t, fuel).0.OutOfFuel? ==>
              RestrictSecondAddend(rt, a, b, first, env, t, more) == RestrictSecondAddend(rt, a, b, first, env, t, fuel)
    decreases fuel, Plus(a, b), 0
  {
    InferFuelMonotone(rt, a, env, fuel, more);
    var ta := Infer(rt, a, env, fuel);
    if ta.Ok? {
      assert Infer(rt, a, env, more) == ta;
      var tb := Scalar(Conv(t.range, Inverse(ta.value.range)));
      RestrictFuelMonotone(rt, b, env, tb, fuel, more);
      var rb := Restrict(rt, b, env, tb, fuel);
      assert RestrictSecondAddend(rt, a, b, first, env, t, fuel)
          == if rb.0.Aborts() || first.Err? then rb else (Ok(()), rb.1);
      assert RestrictSecondAddend(rt, a, b, first, env, t, more)
          == var rb' := Restrict(rt, b, env, tb, more); if rb'.0.Aborts() || first.Err? then rb' else (Ok(()), rb'.1);
    }
  }

  /** The call's part of `RestrictFuelMonotone`. */
  lemma {:induction false} RestrictApplyFuelMonotone(rt: Runtime, name: string, arg: Node, env: Env, t: Type,
                                                     fuel: nat, more: nat)
    requires fuel <= more
    ensures !Restrict(rt, Apply(name, arg), env, t, fuel).0.OutOfFuel? ==>
              Restrict(rt, Apply(name, arg), env, t, more) == Restrict(rt, Apply(name, arg), env, t, fuel)
    decreases fuel, Apply(name, arg), 0
  {
    InferFuelMonotone(rt, arg, env, fuel, more);
    var ta := Infer(rt, arg, env, fuel);
    if ta.Ok? && name in rt && fuel > 0 {
      assert Infer(rt, arg, env, more) == ta;
      RestrictFuelMonotone(rt, rt[name], [ta.value], t, fuel - 1, more - 1);
      var body := Restrict(rt, rt[name], [ta.value], t, fuel - 1);
      if body.0.Ok? {
        assert Restrict(rt, rt[name], [ta.value], t, more - 1) == body;
        RestrictFuelMonotone(rt, arg, env, body.1[0], fuel, more);
        assert Restrict(rt, Apply(name, arg), env, t, fuel) == Restrict(rt, arg, env, body.1[0], fuel);
        assert Restrict(rt, Apply(name, arg), env, t, more) == Restrict(rt, arg, env, body.1[0], more);
      }
    }
  }

  /** One attempt of a conditional, for `RestrictFuelMonotone`. */
  lemma {:induction false} RestrictBranchFuelMonotone(rt: Runtime, n: Node, env: Env, t: Type, positive: bool,
                                                      fuel: nat, more: nat)
    requires n.If? && fuel <= more
    ensures !RestrictBranch(rt, n, env, t, positive, fuel).0.OutOfFuel? ==>
              RestrictBranch(rt, n, env, t, positive, more) == RestrictBranch(rt, n, env, t, positive, fuel)
    decreases fuel, n, 0
  {
    var guard := if positive then POSITIVE else NON_POSITIVE;
    var branch := if positive then n.positive else n.nonPositive;
    RestrictFuelMonotone(rt, n.cond, env, guard, fuel, more);
    var copy := Restrict(rt, n.cond, env, guard, fuel).1;
    RestrictFuelMonotone(rt, branch, copy, t, fuel, more);
  }
}
