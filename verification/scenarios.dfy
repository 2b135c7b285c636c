/** The example programs of the repository's tests, as the parser builds
    them, and what inference and evaluation make of them.

    The parser reads a file bottom-up and folds each clause `f k = e` with
    a constant argument into a conditional on `x - k <= 0` whose
    non-positive branch is `e` and whose positive branch is what the later
    clauses built (parser.go:139-143, 151); `a - b` is `Plus(a, Negate(b))`
    (parser.go:52-58).  So

        fib 0 = 1
        fib 1 = 1
        fib n = fib(n - 1) + fib(n - 2)

    becomes `If(x - 0, 1, If(x - 1, 1, fib(x - 1) + fib(x - 2)))`. */
module Scenarios {
  import opened Ranges
  import opened Types
  import opened Outcomes
  import opened Tree
  import opened Inference
  import opened Interpreter
  import opened InterpreterProperties

  /** `x - k`, with `x` the first argument. */
  function XMinus(k: Int64): Node {
    Plus(Var(0), Negate(Const(k)))
  }

  const FibBody: Node :=
    If(XMinus(0), Const(1),
      If(XMinus(1), Const(1),
        Plus(Apply("fib", XMinus(1)), Apply("fib", XMinus(2)))))

  const RepeatBody: Node :=
    If(XMinus(0), EmptyList, Prepend(Var(0), Apply("repeat", XMinus(1))))

  const SafeBody: Node := Head(Apply("repeat", Const(10)))

  const UnsafeBody: Node := Head(Apply("repeat", Const(0)))

  const Programs: Runtime :=
    map["fib" := FibBody, "repeat" := RepeatBody, "safe" := SafeBody, "unsafe" := UnsafeBody]

  // ---------------------------------------------------------------------
  // The clause guard `x - k`, for a slot holding a non-negative range

  /** The type of `x - k` shifts the slot's range down by `k`. */
  lemma InferXMinus(rt: Runtime, k: Int64, lo: int, hi: int, fuel: nat)
    requires 0 <= lo <= hi < MaxInt32 && 0 <= k < MaxInt32
    ensures Infer(rt, XMinus(k), [InRange(lo, hi)], fuel) == Ok(InRange(lo - k, hi - k))
  {
    assert Infer(rt, Negate(Const(k)), [InRange(lo, hi)], fuel) == Ok(Scalar(Range(-k, -k)));
  }

  /** Narrowing to `x - k <= 0` succeeds exactly when the slot can be at
      most `k`, and then caps the slot at `k`; otherwise it fails and
      leaves the slot alone. */
  lemma RestrictXMinusNonPositive(rt: Runtime, k: Int64, lo: int, hi: int, fuel: nat)
    requires 0 <= lo <= hi < MaxInt32 && 0 <= k < MaxInt32
    ensures Restrict(rt, XMinus(k), [InRange(lo, hi)], NON_POSITIVE, fuel)
              == if lo <= k then (Ok(()), [InRange(lo, Min(hi, k))]) else (Err(Impossible), [InRange(lo, hi)])
  {
    var env := [InRange(lo, hi)];
    var nk := Negate(Const(k));
    assert Restrict(rt, XMinus(k), env, NON_POSITIVE, fuel) == RestrictSum(rt, Var(0), nk, env, NON_POSITIVE, fuel);
    assert Infer(rt, nk, env, fuel) == Ok(Scalar(Range(-k, -k)));
    var ta := Scalar(Conv(NON_POSITIVE.range, Inverse(Range(-k, -k))));
    assert ta == Scalar(Range(MinInt32, k));
    var r1 := Restrict(rt, Var(0), env, ta, fuel);
    var env1 := r1.1;
    if lo <= k {
      assert env1 == [InRange(lo, Min(hi, k))];
    } else {
      assert env1 == env;
    }
    assert RestrictSum(rt, Var(0), nk, env, NON_POSITIVE, fuel) == RestrictSecondAddend(rt, Var(0), nk, r1.0, r1.1, NON_POSITIVE, fuel);
    var a := env1[0].range;
    var tb := Scalar(Conv(NON_POSITIVE.range, Inverse(a)));
    assert tb == Scalar(Range(MinInt32, -lo));
    assert Restrict(rt, nk, env1, tb, fuel) == Restrict(rt, Const(k), env1, Scalar(Range(lo, MaxInt32)), fuel);
    assert Infer(rt, Var(0), env1, fuel) == Ok(env1[0]);
  }

  /** Narrowing to `x - k > 0` succeeds exactly when the slot can exceed
      `k`, and then raises the slot's lower end above `k`; otherwise it
      fails and leaves the slot alone. */
  lemma RestrictXMinusPositive(rt: Runtime, k: Int64, lo: int, hi: int, fuel: nat)
    requires 0 <= lo <= hi < MaxInt32 && 0 <= k < MaxInt32
    ensures Restrict(rt, XMinus(k), [InRange(lo, hi)], POSITIVE, fuel)
              == if k < hi then (Ok(()), [InRange(Max(lo, k + 1), hi)]) else (Err(Impossible), [InRange(lo, hi)])
  {
    var env := [InRange(lo, hi)];
    var nk := Negate(Const(k));
    assert Restrict(rt, XMinus(k), env, POSITIVE, fuel) == RestrictSum(rt, Var(0), nk, env, POSITIVE, fuel);
    assert Infer(rt, nk, env, fuel) == Ok(Scalar(Range(-k, -k)));
    var ta := Scalar(Conv(POSITIVE.range, Inverse(Range(-k, -k))));
    assert ta == Scalar(Range(k + 1, MaxInt32));
    var r1 := Restrict(rt, Var(0), env, ta, fuel);
    var env1 := r1.1;
    if k < hi {
      assert env1 == [InRange(Max(lo, k + 1), hi)];
    } else {
      assert env1 == env;
    }
    assert RestrictSum(rt, Var(0), nk, env, POSITIVE, fuel) == RestrictSecondAddend(rt, Var(0), nk, r1.0, r1.1, POSITIVE, fuel);
    var a := env1[0].range;
    var tb := Scalar(Conv(POSITIVE.range, Inverse(a)));
    assert tb == Scalar(Range(1 - hi, MaxInt32));
    assert Restrict(rt, nk, env1, tb, fuel) == Restrict(rt, Const(k), env1, Scalar(Range(MinInt32, hi - 1)), fuel);
    assert Infer(rt, Var(0), env1, fuel) == Ok(env1[0]);
  }

  /** A clause conditional on `x - k` infers the branch whose guard the
      slot can meet, under the slot narrowed by that guard, and the union
      of both when it can meet either.  A branch that does not type (an
      undefined fall-through, a failing `head`) gives its outcome, the
      non-positive branch's first. */
  lemma InferIfXMinus(rt: Runtime, k: Int64, np: Node, p: Node, lo: int, hi: int, fuel: nat)
    requires 0 <= lo <= hi < MaxInt32 && 0 <= k < MaxInt32
    ensures var l := Infer(rt, np, [InRange(lo, Min(hi, k))], fuel);
            var g := Infer(rt, p, [InRange(Max(lo, k + 1), hi)], fuel);
            Infer(rt, If(XMinus(k), np, p), [InRange(lo, hi)], fuel)
              == if lo <= k && k < hi then
                   (if !l.Ok? then l else if !g.Ok? then g else TypesUnion(l.value, g.value))
                 else if lo <= k then l
                 else g
  {
    RestrictXMinusNonPositive(rt, k, lo, hi, fuel);
    RestrictXMinusPositive(rt, k, lo, hi, fuel);
  }

  // ---------------------------------------------------------------------
  // Inference of `fib`

  /** The Fibonacci numbers as `fib` defines them: 1, 1, 2, 3, 5, 8, ... */
  function Fib(n: nat): nat {
    if n < 2 then 1 else Fib(n - 1) + Fib(n - 2)
  }

  lemma {:induction false} FibMonotone(m: nat, n: nat)
    requires m <= n
    ensures 1 <= Fib(m) <= Fib(n)
    ensures m <= Fib(n)
    decreases n
  {
    if m < n {
      FibMonotone(m, n - 1);
      if n >= 2 {
        FibMonotone(0, n - 2);
      }
    } else if n >= 2 {
      FibMonotone(n - 1, n - 1);
      FibMonotone(0, n - 2);
    }
  }

  /** For a slot in `[lo, hi]`, `fib` is inferred to lie in
      `[fib lo, fib hi]`, given fuel for `hi` nested calls. */
  lemma {:induction false} InferFib(lo: nat, hi: nat, fuel: nat)
    requires lo <= hi <= fuel && Fib(hi) < MaxInt32
    ensures Infer(Programs, FibBody, [InRange(lo, hi)], fuel) == Ok(InRange(Fib(lo), Fib(hi)))
    decreases hi, 3
  {
    FibMonotone(lo, hi);
    FibMonotone(hi, hi);
    var inner := If(XMinus(1), Const(1), Plus(Apply("fib", XMinus(1)), Apply("fib", XMinus(2))));
    if hi >= 1 {
      InferFibInner(Max(lo, 1), hi, fuel);
    }
    InferIfXMinus(Programs, 0, Const(1), inner, lo, hi, fuel);
  }

  lemma {:induction false} InferFibInner(lo: nat, hi: nat, fuel: nat)
    requires 1 <= lo <= hi <= fuel && Fib(hi) < MaxInt32
    ensures Infer(Programs, If(XMinus(1), Const(1), Plus(Apply("fib", XMinus(1)), Apply("fib", XMinus(2)))),
                  [InRange(lo, hi)], fuel)
              == Ok(InRange(Fib(lo), Fib(hi)))
    decreases hi, 2
  {
    FibMonotone(lo, hi);
    FibMonotone(hi, hi);
    if hi >= 2 {
      InferFibSum(Max(lo, 2), hi, fuel);
    }
    InferIfXMinus(Programs, 1, Const(1), Plus(Apply("fib", XMinus(1)), Apply("fib", XMinus(2))), lo, hi, fuel);
  }

  lemma {:induction false} InferFibSum(lo: nat, hi: nat, fuel: nat)
    requires 2 <= lo <= hi <= fuel && Fib(hi) < MaxInt32
    ensures Infer(Programs, Plus(Apply("fib", XMinus(1)), Apply("fib", XMinus(2))), [InRange(lo, hi)], fuel)
              == Ok(InRange(Fib(lo), Fib(hi)))
    decreases hi, 1
  {
    FibMonotone(hi - 1, hi);
    FibMonotone(hi - 2, hi);
    InferFibCall(1, lo, hi, fuel);
    InferFibCall(2, lo, hi, fuel);
  }

  /** One recursive call `fib(x - k)` from a slot in `[lo, hi]`. */
  lemma {:induction false} InferFibCall(k: nat, lo: nat, hi: nat, fuel: nat)
    requires 1 <= k <= 2 && k <= lo <= hi <= fuel && Fib(hi) < MaxInt32
    ensures Infer(Programs, Apply("fib", XMinus(k)), [InRange(lo, hi)], fuel)
              == Ok(InRange(Fib(lo - k), Fib(hi - k)))
    decreases hi, 0
  {
    FibMonotone(hi - k, hi);
    FibMonotone(hi, hi);
    InferXMinus(Programs, k, lo, hi, fuel);
    assert Programs["fib"] == FibBody;
    InferFib(lo - k, hi - k, fuel - 1);
  }

  // ---------------------------------------------------------------------
  // Inference of `repeat`, `safe` and `unsafe`

  /** The type inferred for `repeat` from a slot in `[lo, hi]`: the empty
      list when the slot is surely 0, and otherwise a list of length
      `[lo, hi]` whose elements lie in `[1, hi]`. */
  function RepeatType(lo: int, hi: int): Type {
    if hi == 0 then List(Range(0, 0), Scalar(UNDEF)) else List(Range(lo, hi), InRange(1, hi))
  }

  lemma {:induction false} InferRepeat(lo: nat, hi: nat, fuel: nat)
    requires lo <= hi <= fuel && hi < MaxInt32
    ensures Infer(Programs, RepeatBody, [InRange(lo, hi)], fuel) == Ok(RepeatType(lo, hi))
    decreases hi, 1
  {
    var step := Prepend(Var(0), Apply("repeat", XMinus(1)));
    if hi >= 1 {
      InferRepeatStep(Max(lo, 1), hi, fuel);
    }
    InferIfXMinus(Programs, 0, EmptyList, step, lo, hi, fuel);
  }

  /** `x : repeat(x - 1)` from a slot in `[lo, hi]`, `lo >= 1`. */
  lemma {:induction false} InferRepeatStep(lo: nat, hi: nat, fuel: nat)
    requires 1 <= lo <= hi <= fuel && hi < MaxInt32
    ensures Infer(Programs, Prepend(Var(0), Apply("repeat", XMinus(1))), [InRange(lo, hi)], fuel)
              == Ok(List(Range(lo, hi), InRange(1, hi)))
    decreases hi, 0
  {
    InferXMinus(Programs, 1, lo, hi, fuel);
    assert Programs["repeat"] == RepeatBody;
    InferRepeat(lo - 1, hi - 1, fuel - 1);
    assert Infer(Programs, Apply("repeat", XMinus(1)), [InRange(lo, hi)], fuel) == Ok(RepeatType(lo - 1, hi - 1));
  }

  /** `head(repeat 0)` is rejected: the list may be empty.  The error
      message shows the list's type as "[0]any". */
  lemma InferUnsafe(fuel: nat)
    requires 1 <= fuel
    ensures Infer(Programs, UnsafeBody, [], fuel) == Err(EmptyHead)
    ensures TypeString(RepeatType(0, 0)) == "[0]any"
  {
    assert Programs["repeat"] == RepeatBody;
    InferRepeat(0, 0, fuel - 1);
    assert Infer(Programs, Const(0), [], fuel) == Ok(InRange(0, 0));
    assert Infer(Programs, Apply("repeat", Const(0)), [], fuel) == Ok(RepeatType(0, 0));
    TypeStringExamples();
  }

  /** `head(repeat 10)` is accepted, with a value in `[1, 10]`. */
  lemma InferSafe(fuel: nat)
    requires 11 <= fuel
    ensures Infer(Programs, SafeBody, [], fuel) == Ok(InRange(1, 10))
  {
    assert Programs["repeat"] == RepeatBody;
    InferRepeat(10, 10, fuel - 1);
    assert Infer(Programs, Const(10), [], fuel) == Ok(InRange(10, 10));
    assert Infer(Programs, Apply("repeat", Const(10)), [], fuel) == Ok(RepeatType(10, 10));
  }

  /** The lines the inference example prints. */
  lemma InferExamples()
    ensures Infer(Programs, Programs["fib"], [InRange(0, 5)], 5).Ok?
    ensures TypeString(Infer(Programs, Programs["fib"], [InRange(0, 5)], 5).value) == "int[1, 8]"
    ensures Infer(Programs, Programs["repeat"], [InRange(3, 5)], 5).Ok?
    ensures TypeString(Infer(Programs, Programs["repeat"], [InRange(3, 5)], 5).value) == "[3, 5]int[1, 5]"
  {
    assert Programs["fib"] == FibBody && Programs["repeat"] == RepeatBody;
    InferFib(0, 5, 5);
    InferRepeat(3, 5, 5);
    TypeStringExamples();
  }

  // ---------------------------------------------------------------------
  // Evaluation

  /** `x - k` evaluates to the argument less `k`, whenever that fits in 64
      bits. */
  lemma EvalXMinus(rt: Runtime, k: Int64, n: Int64, fuel: nat)
    requires MinInt64 <= n as int - k as int < TwoTo63
    ensures Eval(rt, XMinus(k), [Num(n)], fuel) == Ok(Num((n as int - k as int) as Int64))
  {
    EvalSubtract(rt, Var(0), k, [Num(n)], fuel);
  }

  /** The first clause, `f 0`, catches every non-positive argument: `fib`
      of one is 1 and `repeat` of one is the empty list. */
  lemma EvalNonPositiveArgument(n: Int64, fuel: nat)
    requires n <= 0
    ensures Eval(Programs, FibBody, [Num(n)], fuel) == Ok(Num(1))
    ensures Eval(Programs, RepeatBody, [Num(n)], fuel) == Ok(ListOf([]))
  {
    EvalXMinus(Programs, 0, n, fuel);
  }

  /** `fib n` evaluates to the `n`th Fibonacci number, given fuel for `n`
      nested calls and no 64-bit overflow. */
  lemma {:induction false} EvalFib(n: Int64, fuel: nat)
    requires 0 <= n <= fuel && Fib(n as nat) < TwoTo63
    ensures Eval(Programs, FibBody, [Num(n)], fuel) == Ok(Num(Fib(n as nat) as Int64))
    decreases n
  {
    if n == 0 {
      EvalNonPositiveArgument(n, fuel);
    } else if n == 1 {
      EvalFibOne(fuel);
    } else {
      FibMonotone(n as nat - 1, n as nat);
      FibMonotone(n as nat - 2, n as nat);
      EvalFib(n - 1, fuel - 1);
      EvalFib(n - 2, fuel - 1);
      EvalFibCall(1, n, fuel);
      EvalFibCall(2, n, fuel);
      EvalFibStep(n, fuel);
    }
  }

  /** The second clause: `fib 1` is 1. */
  lemma EvalFibOne(fuel: nat)
    ensures Eval(Programs, FibBody, [Num(1)], fuel) == Ok(Num(1))
  {
    var args := [Num(1)];
    var inner := If(XMinus(1), Const(1), Plus(Apply("fib", XMinus(1)), Apply("fib", XMinus(2))));
    EvalXMinus(Programs, 0, 1, fuel);
    EvalXMinus(Programs, 1, 1, fuel);
    assert Eval(Programs, FibBody, args, fuel) == Eval(Programs, inner, args, fuel);
    assert Eval(Programs, inner, args, fuel) == Eval(Programs, Const(1), args, fuel);
  }

  /** A recursive call `fib(x - k)` evaluates the body on the argument less
      `k`. */
  lemma EvalFibCall(k: Int64, n: Int64, fuel: nat)
    requires 1 <= k <= 2 && k <= n <= fuel
    ensures Eval(Programs, Apply("fib", XMinus(k)), [Num(n)], fuel)
              == Eval(Programs, FibBody, [Num(n - k)], fuel - 1)
  {
    EvalXMinus(Programs, k, n, fuel);
    assert Programs["fib"] == FibBody;
  }

  /** The third clause: from `n >= 2`, the sum of the two recursive calls. */
  lemma EvalFibStep(n: Int64, fuel: nat)
    requires 2 <= n <= fuel && Fib(n as nat) < TwoTo63
    requires Eval(Programs, Apply("fib", XMinus(1)), [Num(n)], fuel) == Ok(Num(Fib(n as nat - 1) as Int64))
    requires Eval(Programs, Apply("fib", XMinus(2)), [Num(n)], fuel) == Ok(Num(Fib(n as nat - 2) as Int64))
    ensures Eval(Programs, FibBody, [Num(n)], fuel) == Ok(Num(Fib(n as nat) as Int64))
  {
    var args := [Num(n)];
    EvalXMinus(Programs, 0, n, fuel);
    EvalXMinus(Programs, 1, n, fuel);
    var inner := If(XMinus(1), Const(1), Plus(Apply("fib", XMinus(1)), Apply("fib", XMinus(2))));
    var sum := Plus(Apply("fib", XMinus(1)), Apply("fib", XMinus(2)));
    assert Fib(n as nat) == Fib(n as nat - 1) + Fib(n as nat - 2);
    assert Eval(Programs, sum, args, fuel) == Ok(Num(Fib(n as nat) as Int64));
    assert Eval(Programs, inner, args, fuel) == Eval(Programs, sum, args, fuel);
    assert Eval(Programs, FibBody, args, fuel) == Eval(Programs, inner, args, fuel);
  }

  /** The list `n : n-1 : ... : 1`. */
  function CountDown(n: Int64): (s: seq<Obj>)
    requires 0 <= n
    ensures |s| == n as int
    ensures forall i :: 0 <= i < |s| ==> s[i] == Num((n as int - i) as Int64)
    decreases n
  {
    if n == 0 then [] else [Num(n)] + CountDown(n - 1)
  }

  /** `repeat n` evaluates to the list `n : n-1 : ... : 1 : []`, given
      fuel for `n` nested calls. */
  lemma {:induction false} EvalRepeat(n: Int64, fuel: nat)
    requires 0 <= n <= fuel
    ensures Eval(Programs, RepeatBody, [Num(n)], fuel) == Ok(ListOf(CountDown(n)))
    decreases n
  {
    var args := [Num(n)];
    EvalXMinus(Programs, 0, n, fuel);
    if n >= 1 {
      EvalXMinus(Programs, 1, n, fuel);
      assert Programs["repeat"] == RepeatBody;
      EvalRepeat(n - 1, fuel - 1);
      assert Eval(Programs, Apply("repeat", XMinus(1)), args, fuel) == Ok(ListOf(CountDown(n - 1)));
    }
  }

  /** `head(repeat 10)` is 10; `head(repeat 0)`, which inference rejects,
      panics. */
  lemma EvalSafeUnsafe(fuel: nat)
    requires 11 <= fuel
    ensures Eval(Programs, SafeBody, [], fuel) == Ok(Num(10))
    ensures Eval(Programs, UnsafeBody, [], fuel) == Crash
  {
    assert Programs["repeat"] == RepeatBody;
    EvalRepeat(10, fuel - 1);
    EvalRepeat(0, fuel - 1);
    assert Eval(Programs, Apply("repeat", Const(10)), [], fuel) == Ok(ListOf(CountDown(10)));
    assert Eval(Programs, Apply("repeat", Const(0)), [], fuel) == Ok(ListOf(CountDown(0)));
  }

  /** The lines the evaluation example prints. */
  lemma EvalExamples()
    ensures Eval(Programs, Programs["fib"], [Num(5)], 5) == Ok(Num(8))
    ensures ObjString(Num(8)) == "8"
    ensures Eval(Programs, Programs["repeat"], [Num(3)], 3).Ok?
    ensures ObjString(Eval(Programs, Programs["repeat"], [Num(3)], 3).value) == "3 : 2 : 1 : []"
  {
    assert Programs["fib"] == FibBody && Programs["repeat"] == RepeatBody;
    assert Fib(5) == 8;
    EvalFib(5, 5);
    EvalRepeat(3, 3);
    assert CountDown(3) == [Num(3), Num(2), Num(1)];
    ObjStringExamples();
  }

  // ---------------------------------------------------------------------
  // Inference agrees with evaluation

  /** For every argument in `[lo, hi]`, `fib`'s value lies in the range
      inferred for `[lo, hi]`. */
  lemma FibInferenceSound(lo: nat, hi: nat, n: Int64, fuel: nat)
    requires lo <= n as int <= hi <= fuel && Fib(hi) < MaxInt32
    ensures Eval(Programs, FibBody, [Num(n)], fuel).Ok?
    ensures Infer(Programs, FibBody, [InRange(lo, hi)], fuel).Ok?
    ensures Contains(Infer(Programs, FibBody, [InRange(lo, hi)], fuel).value.range,
                     Eval(Programs, FibBody, [Num(n)], fuel).value.num)
  {
    FibMonotone(n as nat, hi);
    FibMonotone(lo, n as nat);
    EvalFib(n, fuel);
    InferFib(lo, hi, fuel);
  }

  /** For every argument in `[lo, hi]`, `repeat`'s list has a length in the
      inferred length range, and each element lies in the inferred element
      range. */
  lemma RepeatInferenceSound(lo: nat, hi: nat, n: Int64, fuel: nat)
    requires lo <= n as int <= hi <= fuel && hi < MaxInt32
    ensures Eval(Programs, RepeatBody, [Num(n)], fuel).Ok?
    ensures Infer(Programs, RepeatBody, [InRange(lo, hi)], fuel).Ok?
    ensures Infer(Programs, RepeatBody, [InRange(lo, hi)], fuel).value.List?
    ensures Contains(Infer(Programs, RepeatBody, [InRange(lo, hi)], fuel).value.range,
                     |Elems(Eval(Programs, RepeatBody, [Num(n)], fuel).value)|)
    ensures forall e :: e in Elems(Eval(Programs, RepeatBody, [Num(n)], fuel).value) ==>
              Contains(Infer(Programs, RepeatBody, [InRange(lo, hi)], fuel).value.elem.range, e.num)
  {
    EvalRepeat(n, fuel);
    InferRepeat(lo, hi, fuel);
    var es := CountDown(n);
    forall e | e in es
      ensures 1 <= e.num <= hi
    {
      var i :| 0 <= i < |es| && es[i] == e;
    }
  }
}
