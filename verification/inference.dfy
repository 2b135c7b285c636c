/** Forward type inference and backward refinement (inference.go).

    Each Go node has a `Type` method, which computes the node's type from
    the types of the variable slots, and a `RestrictTo` method, which
    narrows the slots in place so that the node could produce a value of a
    target type, or reports that it cannot.  Here they are the mutually
    recursive functions `Infer` and `Restrict`.  `Restrict` returns the
    slots as they stand when it returns, which is what the caller's slice
    holds after the Go call: the Go code writes into the caller's slice and
    does not undo anything on failure.

    Recursion through the runtime (a function calling itself) is unbounded
    in general, so both functions take fuel, spent only when an `Apply`
    enters a callee's body. */
module Inference {
  import opened Ranges
  import opened Types
  import opened Outcomes
  import opened Tree

  /** The types of the variable slots in scope ("locals"). */
  type Env = seq<Type>

  /** `t2` is `t` with its range narrowed: same shape, same element, and a
      range within the old one. */
  predicate Narrowed(t: Type, t2: Type) {
    t2 == t.(range := t2.range) && SubRange(t2.range, t.range)
  }

  /** Every slot of `env2` is the same slot of `env` narrowed. */
  predicate Narrows(env: Env, env2: Env) {
    |env2| == |env| && forall i :: 0 <= i < |env| ==> Narrowed(env[i], env2[i])
  }

  lemma NarrowsTransitive(e1: Env, e2: Env, e3: Env)
    requires Narrows(e1, e2) && Narrows(e2, e3)
    ensures Narrows(e1, e3)
  {
    forall i | 0 <= i < |e1|
      ensures Narrowed(e1[i], e3[i])
    {
      assert Narrowed(e1[i], e2[i]) && Narrowed(e2[i], e3[i]);
    }
  }

  lemma NarrowsReflexive(env: Env)
    ensures Narrows(env, env)
  {
  }

  /** `Node.Type` for every variant. */
  function Infer(rt: Runtime, n: Node, env: Env, fuel: nat): (r: Outcome<Type>)
    decreases fuel, n, 1
  {
    match n
    case Const(c) =>
      Ok(Scalar(Range(c, c)))

    case EmptyList =>
      Ok(List(Range(0, 0), Scalar(UNDEF)))

    case Plus(a, b) =>
      // A list operand only makes the Go code print a message.
      var ta := Infer(rt, a, env, fuel);
      if !ta.Ok? then ta
      else
        var tb := Infer(rt, b, env, fuel);
        if !tb.Ok? then tb
        else Ok(Scalar(Conv(ta.value.range, tb.value.range)))

    case Negate(e) =>
      var te := Infer(rt, e, env, fuel);
      if !te.Ok? then te
      else if te.value.List? then Err(NegateList)
      else Ok(Scalar(Inverse(te.value.range)))

    case Var(i) =>
      if i < |env| then Ok(env[i]) else Crash

    case If(c, np, p) =>
      InferCond(rt, c, np, p, env, fuel)

    case Prepend(h, t) =>
      var th := Infer(rt, h, env, fuel);
      if !th.Ok? then th
      else
        var tt := Infer(rt, t, env, fuel);
        if !tt.Ok? then tt
        else if tt.value.Scalar? then Err(NotAList)
        else
          var m := if tt.value.range.end > 0 then TypesUnion(th.value, tt.value.elem) else Ok(th.value);
          if !m.Ok? then m
          else Ok(List(Conv(Range(1, 1), tt.value.range), m.value))

    case Head(l) =>
      var tl := Infer(rt, l, env, fuel);
      if !tl.Ok? then tl
      else if tl.value.Scalar? then Err(NotAList)
      else if tl.value.range.start < 1 then Err(EmptyHead)
      else Ok(tl.value.elem)

    case Tail(l) =>
      // The list test is inverted: a list is rejected, and a scalar that
      // passes the emptiness test has its nil `Elem` dereferenced.
      var tl := Infer(rt, l, env, fuel);
      if !tl.Ok? then tl
      else if tl.value.List? then Err(NotAList)
      else if tl.value.range.start < 1 then Err(EmptyTail)
      else Crash

    case Undef(_) =>
      Err(Undefined)

    case Apply(name, arg) =>
      var ta := Infer(rt, arg, env, fuel);
      if !ta.Ok? then ta
      else if name !in rt then Err(UndefinedFunction)
      else if fuel == 0 then OutOfFuel
      else Infer(rt, rt[name], [ta.value], fuel - 1)
  }

  /** `If.Type`: each branch is typed under its own copy of the slots,
      narrowed by the branch's guard; a branch whose guard cannot hold is
      dropped, and the types of the feasible branches are joined. */
  function InferCond(rt: Runtime, c: Node, np: Node, p: Node, env: Env, fuel: nat): (r: Outcome<Type>)
    decreases fuel, If(c, np, p), 0
  {
    // The non-positive branch, under a copy narrowed by `c <= 0`.
    var (lr, lenv) := Restrict(rt, c, env, NON_POSITIVE, fuel);
    if lr.Aborts() then Abort(lr)
    else
      var lt := if lr.Ok? then Infer(rt, np, lenv, fuel) else Fail(lr);
      if lr.Ok? && !lt.Ok? then lt
      else
        // The positive branch, under a fresh copy narrowed by `c > 0`.
        var (gr, genv) := Restrict(rt, c, env, POSITIVE, fuel);
        if gr.Aborts() then Abort(gr)
        else
          var gt := if gr.Ok? then Infer(rt, p, genv, fuel) else Fail(gr);
          if gr.Ok? && !gt.Ok? then gt
          else if lt.Ok? && gt.Ok? then TypesUnion(lt.value, gt.value)
          else if lt.Ok? then lt
          else gt
  }

  /** `Node.RestrictTo` for every variant.  The result pairs the Go error
      (or panic) with the slots as the caller sees them afterwards.  Whatever
      happens, no slot is added or removed; `RestrictNarrows` shows that no
      slot changes shape or element and no range grows. */
  function Restrict(rt: Runtime, n: Node, env: Env, t: Type, fuel: nat): (r: (Outcome<()>, Env))
    ensures |r.1| == |env|
    decreases fuel, n, 2
  {
    match n
    case Const(c) =>
      if t.List? || t.range.start > c || t.range.end < c then (Err(Impossible), env)
      else (Ok(()), env)

    case EmptyList =>
      // Tests the target's element range, not its length.
      if t.Scalar? || t.elem.range.start != 0 || t.elem.range.end != 0 then (Err(Impossible), env)
      else (Ok(()), env)

    case Plus(a, b) =>
      RestrictSum(rt, a, b, env, t, fuel)

    case Negate(e) =>
      if t.List? then (Err(NegateList), env)
      else Restrict(rt, e, env, Scalar(Inverse(t.range)), fuel)

    case Var(i) =>
      if i >= |env| then (Crash, env)
      else
        var rs := Intersect(env[i].range, t.range);
        if |rs| == 0 then (Err(Impossible), env)
        else (Ok(()), env[i := env[i].(range := rs[0])])

    case If(_, _, _) =>
      // Go tries the non-positive branch, then the positive one on the
      // slots as the first attempt left them.  Failures of the attempts
      // are dropped.
      var (o1, env1) := RestrictBranch(rt, n, env, t, false, fuel);
      if !o1.Ok? then (o1, env1)
      else
        var (o2, env2) := RestrictBranch(rt, n, env1, t, true, fuel);
        if !o2.Ok? then (o2, env2)
        else (Ok(()), env2)

    case Prepend(_, _) =>
      // `t.Elem != nil || t.Elem.Start < 1`: a list target is rejected and
      // a scalar one dereferences its nil `Elem`.
      if t.List? then (Err(Impossible), env) else (Crash, env)

    case Head(l) =>
      Restrict(rt, l, env, List(POSITIVE.range, t), fuel)

    case Tail(l) =>
      if t.List? then (Err(NotAList), env)
      else Restrict(rt, l, env, Scalar(Range(t.range.start - 1, t.range.end)), fuel)

    case Undef(_) =>
      (Err(Undefined), env)

    case Apply(name, arg) =>
      // The callee body is narrowed under a one-slot copy holding the
      // argument's type, and the narrowed slot is then imposed on `arg`.
      var ta := Infer(rt, arg, env, fuel);
      if !ta.Ok? then (Fail(ta), env)
      else if name !in rt then (Err(UndefinedFunction), env)
      else if fuel == 0 then (OutOfFuel, env)
      else
        var (rb, lcls) := Restrict(rt, rt[name], [ta.value], t, fuel - 1);
        if !rb.Ok? then (rb, env)
        else Restrict(rt, arg, env, lcls[0], fuel)
  }

  /** One of the two attempts of `If.RestrictTo`: on a copy of the slots,
      restrict the condition to the branch's guard and then the branch to
      the target; when both succeed, restrict the condition to the guard
      again, this time in the real slots.  Only a panic, exhausted fuel, or
      a failure of that last restriction is reported. */
  function RestrictBranch(rt: Runtime, n: Node, env: Env, t: Type, positive: bool, fuel: nat)
    : (r: (Outcome<()>, Env))
    requires n.If?
    ensures |r.1| == |env|
    decreases fuel, n, 0
  {
    var guard := if positive then POSITIVE else NON_POSITIVE;
    var branch := if positive then n.positive else n.nonPositive;
    var (g, copy) := Restrict(rt, n.cond, env, guard, fuel);
    if g.Aborts() then (g, env)
    else if g.Err? then (Ok(()), env)
    else
      var b := Restrict(rt, branch, copy, t, fuel).0;
      if b.Aborts() then (b, env)
      else if b.Err? then (Ok(()), env)
      else Restrict(rt, n.cond, env, guard, fuel)
  }

  /** Refinement only ever narrows: every slot keeps its shape and element
      and its range does not grow, whether refinement succeeds, fails or
      aborts. */
  lemma {:induction false} RestrictNarrows(rt: Runtime, n: Node, env: Env, t: Type, fuel: nat)
    ensures Narrows(env, Restrict(rt, n, env, t, fuel).1)
    decreases fuel, n, 2
  {
    NarrowsReflexive(env);
    match n
    case Plus(a, b) =>
      RestrictSumNarrows(rt, a, b, env, t, fuel);
    case Negate(e) =>
      RestrictNarrows(rt, e, env, Scalar(Inverse(t.range)), fuel);
    case Var(i) =>
    case If(_, _, _) =>
      RestrictBranchNarrows(rt, n, env, t, false, fuel);
      var env1 := RestrictBranch(rt, n, env, t, false, fuel).1;
      RestrictBranchNarrows(rt, n, env1, t, true, fuel);
      NarrowsTransitive(env, env1, RestrictBranch(rt, n, env1, t, true, fuel).1);
    case Head(l) =>
      RestrictNarrows(rt, l, env, List(POSITIVE.range, t), fuel);
    case Tail(l) =>
      RestrictNarrows(rt, l, env, Scalar(Range(t.range.start - 1, t.range.end)), fuel);
    case Apply(name, arg) =>
      var ta := Infer(rt, arg, env, fuel);
      if ta.Ok? && name in rt && fuel > 0 {
        var body := Restrict(rt, rt[name], [ta.value], t, fuel - 1);
        if body.0.Ok? {
          RestrictNarrows(rt, arg, env, body.1[0], fuel);
        }
      }
    case _ =>
  }

  /** The same for one attempt of a conditional. */
  lemma {:induction false} RestrictBranchNarrows(rt: Runtime, n: Node, env: Env, t: Type, positive: bool, fuel: nat)
    requires n.If?
    ensures Narrows(env, RestrictBranch(rt, n, env, t, positive, fuel).1)
    decreases fuel, n, 0
  {
    NarrowsReflexive(env);
    RestrictNarrows(rt, n.cond, env, if positive then POSITIVE else NON_POSITIVE, fuel);
  }

  /** The sum's part of `RestrictNarrows`. */
  lemma {:induction false} RestrictSumNarrows(rt: Runtime, a: Node, b: Node, env: Env, t: Type, fuel: nat)
    ensures Narrows(env, RestrictSum(rt, a, b, env, t, fuel).1)
    decreases fuel, Plus(a, b), 1
  {
    var r := RestrictSum(rt, a, b, env, t, fuel);
    var tb := Infer(rt, b, env, fuel);
    if !tb.Ok? {
      assert r.1 == env;
      NarrowsReflexive(env);
    } else {
      var ta' := Scalar(Conv(t.range, Inverse(tb.value.range)));
      RestrictNarrows(rt, a, env, ta', fuel);
      var ra := Restrict(rt, a, env, ta', fuel);
      if ra.0.Aborts() {
        assert r == ra;
      } else {
        var rb := RestrictSecondAddend(rt, a, b, ra.0, ra.1, t, fuel);
        assert r == rb;
        RestrictSecondAddendNarrows(rt, a, b, ra.0, ra.1, t, fuel);
        NarrowsTransitive(env, ra.1, rb.1);
      }
    }
  }

  /** The second addend's part of `RestrictNarrows`. */
  lemma {:induction false} RestrictSecondAddendNarrows(rt: Runtime, a: Node, b: Node, first: Outcome<()>, env: Env,
                                                       t: Type, fuel: nat)
    ensures Narrows(env, RestrictSecondAddend(rt, a, b, first, env, t, fuel).1)
    decreases fuel, Plus(a, b), 0
  {
    NarrowsReflexive(env);
    var ta := Infer(rt, a, env, fuel);
    if ta.Ok? {
      RestrictNarrows(rt, b, env, Scalar(Conv(t.range, Inverse(ta.value.range))), fuel);
    }
  }

  /** `Plus.RestrictTo`: A is narrowed first, in the caller's slots, to the
      target less B's type. */
  function RestrictSum(rt: Runtime, a: Node, b: Node, env: Env, t: Type, fuel: nat): (r: (Outcome<()>, Env))
    ensures |r.1| == |env|
    decreases fuel, Plus(a, b), 1
  {
    var tb := Infer(rt, b, env, fuel);
    if !tb.Ok? then (Fail(tb), env)
    else
      var ra := Restrict(rt, a, env, Scalar(Conv(t.range, Inverse(tb.value.range))), fuel);
      if ra.0.Aborts() then ra
      else RestrictSecondAddend(rt, a, b, ra.0, ra.1, t, fuel)
  }

  /** The rest of `Plus.RestrictTo`, given the outcome `first` of narrowing
      A: B is narrowed to the target less A's new type.  Success of A alone
      suffices; when A failed, B's outcome is reported. */
  function RestrictSecondAddend(rt: Runtime, a: Node, b: Node, first: Outcome<()>, env: Env, t: Type, fuel: nat)
    : (r: (Outcome<()>, Env))
    ensures |r.1| == |env|
    decreases fuel, Plus(a, b), 0
  {
    var ta := Infer(rt, a, env, fuel);
    if !ta.Ok? then (Fail(ta), env)
    else
      var rb := Restrict(rt, b, env, Scalar(Conv(t.range, Inverse(ta.value.range))), fuel);
      if rb.0.Aborts() || first.Err? then rb
      else (Ok(()), rb.1)
  }
}
