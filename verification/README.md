# madison, modelled in Dafny

madison is a small functional language with a range-based type inference.
A program is a set of named one-argument functions whose bodies are
expression trees. Their nodes are constants, the empty list, sums,
negations, variables, the conditional `ifz`, prepend (`:`), `head`, `tail`,
pattern-match failure and calls.

Every value's type is an integer range:
- a scalar type bounds the value itself;
- a list type bounds the list's length and carries the type of its elements.

`Type` infers a node's type from the types of the local variables.
`RestrictTo` narrows the local variables' ranges so that a node's value
lies in a given type; a conditional uses it to split its argument's range
between its two branches. `Eval` computes a node's value.

The project models this core as pure functions over immutable data:

| module | models |
|---|---|
| `Outcomes` | The result of an operation: a value, an error (`ErrKind`, one per kind of error message), a Go panic (`Crash`), or the model's own `OutOfFuel`. |
| `Decimal` | `fmt`'s `%d` and the fact that it can be read back. |
| `Ranges` | ranges.go: `Range`, `UNDEF`, `inverse`, `union`, `conv`, `IsConst`, `intersect`, `subtract` and `String`. The sentinels `math.MinInt32`/`math.MaxInt32` stand for minus and plus infinity. |
| `Types` | types.go: `Type` as `Scalar(range)` or `List(range, elem)`, plus `Constant`, `InRange`, `NON_POSITIVE`/`POSITIVE`/`NIL`, `SubsetOf`, `TypesUnion` and `String`. |
| `Tree` | tree.go: the eleven `Node` variants as one datatype, `Runtime` as a map from names to bodies, and every `String` method. |
| `Inference` | inference.go: `Type` as `Infer` and `RestrictTo` as `Restrict`, for all eleven variants. `Restrict` returns the outcome together with the narrowed local variables, because the Go code writes them in place. |
| `Interpreter` | interpreter.go: `Obj`, keeping Go's distinction between a nil and an empty `Vals`; `Obj.String`; and `Eval`, whose sums and negations wrap modulo 2^64 as Go's `int64` does. |
| `InferenceProperties`, `InterpreterProperties` | The per-variant behaviour of `Infer`, `Restrict` and `Eval`, and the fact that fuel only bounds the computation. |
| `Scenarios` | The example programs `fib`, `repeat`, `safe` and `unsafe`, as the parser builds them: a clause `f k = e` becomes `ifz(x - k, e, <later clauses>)`, see parser.go:139-143. The module covers what inference and evaluation make of these programs, and the fact that the inferred ranges contain every value computed. |

Recursion through a call is unbounded in Go. Here `Infer`, `Restrict` and
`Eval` take a `fuel` argument that each call consumes; running out of fuel
gives `OutOfFuel`. The `*FuelMonotone` lemmas show that more fuel never
changes an answer that did not run out.

Several behaviours of the code differ from what their names suggest; the model follows the code:
- `EmptyList.RestrictTo` checks the required element range, not the length. It rejects the empty list's own type and accepts a length of 5 (`EmptyListNotOwnType`).
- `Plus.Type` only prints a complaint when the first operand is a list, then adds the ranges (`InferPlusOfList`). Evaluation adds a list's zero `Int` field (`EvalPlusOfList`).
- `Tail.Type` tests the list check the wrong way round. It never succeeds: lists are rejected, and scalars whose start is at least 1 panic on the nil element (`InferTailNeverOk`).
- `Prepend.RestrictTo` also tests its guard the wrong way round. It never succeeds: it rejects every list type and panics on every scalar (`RestrictPrependNeverOk`).
- `SubsetOf` is not containment. On overlapping scalars it is the negation of containment, and no type is `SubsetOf` itself.
- `If.RestrictTo` never returns an error (`RestrictIfNeverFails`).
- `TypesUnion` is not symmetric and can dereference a nil element (`TypesUnionAsymmetric`).
- `inverse` is not an involution at a start of `-MaxInt32` or an end of `-MinInt32` (`InverseInvolution`).
- An empty list value prints as `" : []"`, not `"[]"` (`ObjStringExamples`).
- `subtract`'s panic branch cannot be reached: the model proves the range it checks is never inverted.

## Model

| member | source | states |
|---|---|---|
| `Ranges.Inverse` | ranges.go:35-44 | Away from the infinite sentinels, the negation of a range has the negated bounds swapped. |
| `Ranges.InverseSentinels` | ranges.go:35-44 | An infinite lower bound becomes an infinite upper bound and vice versa; `MinInt32 + 1` also becomes an infinite upper bound; `UNDEF` is its own negation. |
| `Ranges.InverseTable` | ranges_test.go:18-21 | The four `inverse` cases of the range test table. |
| `Ranges.InverseInvolution` | ranges.go:35-44 | Negating twice gives the range back exactly when the start is not `-MaxInt32` and the end is not `-MinInt32`. |
| `Ranges.InverseNotInvolution` | ranges.go:35-44 | A concrete range that negating twice changes: `[-MaxInt32, 0]` comes back as `(-inf, 0]`. |
| `Ranges.InverseSound` | ranges.go:35-44 | If `p` lies in a range (infinite ends read as unbounded), `-p` lies in its negation. |
| `Ranges.Union` | ranges.go:46-55 | The result contains both ranges, and each of its bounds is a bound of one of them. |
| `Ranges.UnionLeast` | ranges.go:46-55 | Any range containing both inputs contains their union, so the union is the least upper bound. |
| `Ranges.UnionIsMinMax` | ranges.go:46-55 | The union is the hull: the smaller start to the larger end. |
| `Ranges.UnionCommutativeIdempotent` | ranges.go:46-55 | The union is commutative and idempotent. |
| `Ranges.UnionTable` | ranges_test.go:30-33 | The four `union` cases of the range test table. |
| `Ranges.Conv` | ranges.go:57-67 | Away from the sentinels, the bounds of a sum range are the sums of the bounds. |
| `Ranges.ConvSaturates` | ranges.go:57-67 | An infinite bound on either side makes the sum's bound infinite. |
| `Ranges.ConvCommutative` | ranges.go:57-67 | The sum of ranges is commutative. |
| `Ranges.ConvIdentity` | ranges.go:57-67 | `[0, 0]` is the identity on both sides. |
| `Ranges.ConvTable` | ranges_test.go:35-39 | The five `conv` cases of the range test table. |
| `Ranges.ConvSound` | ranges.go:57-67 | If `x` lies in `a` and `y` in `b`, then `x + y` lies in the sum of the ranges. |
| `Ranges.IsConst` | ranges.go:69-71 | No contract of its own; `IsConstSingleton` states that it holds exactly for single-point ranges. |
| `Ranges.IsConstSingleton` | ranges.go:69-71 | A non-empty range is constant exactly when its start is its only member. |
| `Ranges.Intersect` | ranges.go:73-84 | The result is empty exactly when the ranges are disjoint. Otherwise it is the single range of points that lie in both. |
| `Ranges.IntersectExact` | ranges.go:73-84 | For non-empty ranges, an empty result means no point lies in both, and a single result is itself a non-empty range. |
| `Ranges.Subtract` | ranges.go:86-105 | There are two pieces exactly when `b` lies strictly inside `a`. For non-empty ranges, the result is `a` unchanged exactly when the ranges are disjoint. The panic is never reached. |
| `Ranges.SubtractExact` | ranges.go:86-105 | For non-empty ranges, every piece is non-empty, two pieces are disjoint, and a point is in some piece exactly when it is in `a` but not in `b`. |
| `Ranges.SubtractIntersectPartition` | ranges.go:73-105 | A point of `a` lies either in `a` minus `b` or in `a` intersected with `b`, never in both. |
| `Ranges.RangeString` | ranges.go:17-33 | The printed form is never empty. Its shape is stated by `RangeStringBracketed` and `RangeStringAny`. |
| `Ranges.RangeStringBracketed` | ranges.go:17-33 | A range prints with an opening bracket exactly when it is neither `UNDEF` nor constant. |
| `Ranges.RangeStringAny` | ranges.go:17-33 | A range prints as "any" exactly when it is `UNDEF`. A constant prints as a number that reads back as its value. |
| `Ranges.RangeStringProper` | ranges.go:24-32 | A range with two distinct finite bounds prints as `[s, e]` with both bounds in decimal, and each bound reads back from its place in the string. |
| `Ranges.RangeStringExamples` | ranges.go:17-33 | The printed forms: "any", a bare constant, `[1, 8]`, and the infinite ends `(-∞` and `∞)`. |
| `Decimal.Show` | ranges.go:22 | The `%d` form is non-empty and starts with a minus sign exactly for negative numbers, otherwise with a digit. |
| `Decimal.ShowRoundTrip` | ranges.go:22 | The decimal form `%d` prints reads back as the number printed. |
| `Types.Constant` | types.go:51-53 | A constant type is a scalar whose range is constant and contains the value. |
| `Types.InRange` | types.go:56-58 | The type is the scalar `[min, max]`: it contains exactly the integers from `min` to `max`. |
| `Types.NamedTypes` | types.go:39-48 | `NON_POSITIVE` and `POSITIVE` are disjoint and together cover every integer. `NIL` is the constant 0. |
| `Types.SubsetOf` | types.go:83-89 | No contract of its own; its meaning is stated by `SubsetOfScalars`, `SubsetOfDisjoint` and `SubsetOfIrreflexive`. |
| `Types.SubsetOfScalars` | types.go:83-89 | On overlapping scalars, `SubsetOf` holds exactly when the first range is NOT inside the second. |
| `Types.SubsetOfIrreflexive` | types.go:83-89 | No type is `SubsetOf` itself. |
| `Types.SubsetOfDisjoint` | types.go:83-89 | Types whose ranges are disjoint are never `SubsetOf` each other, whatever their elements. |
| `Types.SubsetOfExamples` | types.go:83-89 | For example, `[2, 3]` is not `SubsetOf` `[1, 5]`, while `[1, 5]` is `SubsetOf` `[2, 3]`, and `[1, 2]` is not `SubsetOf` `[5, 6]`. |
| `Types.TypesUnion` | types.go:92-105 | The join's range is the union of the ranges. A scalar first operand gives a scalar. A surely-empty list takes its element from the other operand. A list whose length range does not end at 0, joined with a scalar whose range does not end at 0, panics on the scalar's nil element; a scalar whose range ends at 0 leaves the list's element in place. Two lists that are not surely empty join their elements recursively, and a panic there is passed on. |
| `Types.TypesUnionSameShape` | types.go:92-105 | Joining two types of the same nesting never panics and keeps the nesting. |
| `Types.TypesUnionIdempotent` | types.go:92-105 | Joining a type with itself gives it back. |
| `Types.TypesUnionAsymmetric` | types.go:92-105 | Swapping the operands changes the result: one order gives a scalar, the other panics. |
| `Types.TypeString` | types.go:67-80 | The printed form is never empty. Its shape is stated by `TypeStringShape`. |
| `Types.TypeStringListPrefix` | types.go:68-73 | A list type's printed form opens with its length range's printed form, wrapped in brackets when that form is bare, and ends with its element's printed form. |
| `Types.TypeStringScalar` | types.go:75-79 | A scalar prints as "int" followed by its range exactly when the range is neither `UNDEF` nor constant; otherwise as "any" or the constant's decimal. |
| `Types.TypeStringShape` | types.go:67-80 | A type's printed form starts with a bracket exactly when it is a list. A list's printed form ends with its element's. |
| `Types.TypeStringExamples` | types.go:67-80 | The printed forms `int[1, 8]`, `[3, 5]int[1, 5]` and `[0]any`. |
| `Tree.VarName` | tree.go:65-75 | A variable's name is never empty; `VarNameInjective` states that distinct slots get distinct names. |
| `Tree.VarNameInjective` | tree.go:65-75 | Distinct variables print differently. A name is a single letter exactly for the first seven slots. |
| `Tree.NodeString` | tree.go:29-152 | The printed form of a node is never empty; what it forgets is stated by `NodeStringForgets`. |
| `Tree.NodeStringNotInjective` | tree.go:45-133 | For example, `x + -1` prints as the subtraction `(x - 1)`, 5 negated and the constant -5 print alike, and `Undef`s with different messages print alike. |
| `Tree.NodeStringForgets` | tree.go:29-133 | For all operands, a sum whose right operand is a negation prints exactly as a subtraction, and every `Undef` prints alike whatever its message. A constant prints as a decimal that reads back as its value. |
| `Tree.NodeStringLeafExamples` | tree.go:29-75 | The printed forms of the leaves: `[]`, the letters `x`, `y`, `z`, the index form `@7`, a number. |
| `Tree.NodeStringExamples` | tree.go:83-152 | The printed forms of `ifz`, prepend, a sum, `head`, `tail` and a call. |
| `Inference.Infer` | inference.go:9-287 | No contract of its own; the per-variant behaviour is stated by the `Infer*` lemmas. |
| `Inference.InferCond` | inference.go:117-148 | No contract of its own; stated by `InferIf`. |
| `Inference.Restrict` | inference.go:14-292 | Restriction keeps the number of local variables. |
| `Inference.RestrictBranch` | inference.go:151-171 | One side of a conditional's restriction keeps the number of local variables. |
| `Inference.RestrictSum` | inference.go:53-66 | The first stage of a sum's restriction keeps the number of local variables. |
| `Inference.RestrictSecondAddend` | inference.go:63-75 | The second stage of a sum's restriction keeps the number of local variables. |
| `Inference.RestrictNarrows` | inference.go:107-114 | Restriction only ever narrows a local variable's range, never its shape or its element, and keeps the number of locals. |
| `InferenceProperties.InferLeaves` | inference.go:9-287 | A constant's type is that constant and the empty list's is `[0]any`. A variable's type is its slot; an out-of-bounds slot panics. |
| `InferenceProperties.InferApply` | inference.go:174-186 | A call propagates its argument's failure. It fails for an undefined name. Otherwise it is the callee's body typed with the argument's type as its only local. |
| `InferenceProperties.InferArithmetic` | inference.go:37-89 | A sum's type is the range sum of its operands' types. A negation rejects a list and otherwise negates the range. |
| `InferenceProperties.InferPlusOfList` | inference.go:46-49 | Adding to a list is not rejected: `[] + 1` types as the constant 1. |
| `InferenceProperties.InferHead` | inference.go:245-255 | `head` succeeds exactly on a list whose length is surely at least 1, giving its element type. A possibly-empty list is rejected. |
| `InferenceProperties.InferTailNeverOk` | inference.go:263-273 | `tail` never type-checks. When the operand types, it panics exactly on a scalar that is surely positive. |
| `InferenceProperties.InferPrepend` | inference.go:208-230 | Prepending to a scalar is rejected. The length range grows by one. The element type is the head's type when the tail is surely empty, and otherwise its join with the tail's element. |
| `InferenceProperties.InferIf` | inference.go:117-148 | A branch is typed under the locals restricted to its side of 0. When both sides are possible their types are joined. One possible side gives that side's type; no possible side gives the positive side's error. |
| `InferenceProperties.RestrictConst` | inference.go:14-20 | A constant can be restricted exactly to a scalar containing it. Otherwise the result is `Impossible`. The locals are unchanged. |
| `InferenceProperties.RestrictEmptyList` | inference.go:28-34 | The empty list accepts exactly a list type whose ELEMENT range is `[0, 0]`. The locals are unchanged. |
| `InferenceProperties.EmptyListNotOwnType` | inference.go:23-34 | The empty list cannot be restricted to its own inferred type, but can be restricted to a length-5 list. |
| `InferenceProperties.RestrictPrependNeverOk` | inference.go:233-242 | Restricting a prepend never succeeds: a list type is `Impossible` and a scalar type panics. |
| `InferenceProperties.RestrictVar` | inference.go:107-114 | A slot past the end of the locals panics. Otherwise a variable accepts a type exactly when its range meets the type's range. On success only that slot changes, to the intersection; on failure nothing changes. |
| `InferenceProperties.RestrictPlus` | inference.go:53-75 | Restricting a sum restricts each operand to the target minus the other's type, the second under the locals the first left. It succeeds when either succeeds, and otherwise reports the second's outcome. |
| `InferenceProperties.RestrictIfNeverFails` | inference.go:151-171 | Restricting a conditional never returns an error. |
| `InferenceProperties.RestrictIfCommits` | inference.go:151-171 | A side's narrowing of the locals is kept exactly when both its condition and its branch accept the restriction. |
| `InferenceProperties.RestrictNegate` | inference.go:92-99 | A negation rejects a list type and otherwise restricts its operand to the negated range. |
| `InferenceProperties.RestrictHead` | inference.go:258-260 | Restricting `head(l)` to `t` restricts `l` to a non-empty list of `t`. |
| `InferenceProperties.RestrictTail` | inference.go:276-282 | `tail` rejects a list type. A scalar type is passed to the operand with its start lowered by one. |
| `InferenceProperties.RestrictApply` | inference.go:189-205 | A call restricts the callee's body with the argument's type as its local. On success it restricts the argument to what that local became; otherwise it returns the body's outcome with the locals untouched. |
| `InferenceProperties.InferFuelMonotone` | inference.go:174-186 | More fuel never changes an inferred type or error that did not run out of fuel. |
| `InferenceProperties.RestrictFuelMonotone` | inference.go:189-205 | More fuel never changes a restriction's outcome or narrowed locals that did not run out of fuel. |
| `Interpreter.Eval` | interpreter.go:29-87 | Evaluation never reports an error: every failure is a panic. |
| `Interpreter.ObjString` | interpreter.go:12-26 | The printed form of a value is never empty. |
| `Interpreter.JoinFromSeparated` | interpreter.go:16-24 | The loop that builds a list's string joins the elements' strings with " : ". |
| `Interpreter.ObjStringList` | interpreter.go:12-26 | A list prints as its elements' strings joined by " : ", followed by " : []". |
| `Interpreter.ObjStringExamples` | interpreter_test.go:33-34 | `8` prints as "8" and the list 3, 2, 1 as "3 : 2 : 1 : []". The empty list prints as " : []". |
| `Interpreter.Wrap64` | interpreter.go:39-46 | No contract of its own; `Wrap64Congruent` and `Wrap64Unique` state that it is the unique 64-bit value congruent modulo 2^64. |
| `InterpreterProperties.Wrap64Congruent` | interpreter.go:39-41 | The wrapped sum equals the true sum modulo 2^64, and equals it exactly when the sum fits in 64 bits. |
| `InterpreterProperties.Wrap64Unique` | interpreter.go:39-41 | The wrapped value is the only 64-bit integer congruent to the true value modulo 2^64. |
| `InterpreterProperties.Wrap64NegateInvolution` | interpreter.go:44-46 | Negating twice gives the value back. A value is its own negation exactly when it is 0 or `MinInt64`. |
| `InterpreterProperties.EvalLeaves` | interpreter.go:29-87 | A constant evaluates to itself and the empty list to an empty list. A variable evaluates to its argument; an out-of-bounds slot or `Undef` panics. |
| `InterpreterProperties.EvalPlus` | interpreter.go:39-41 | A sum of evaluated operands is their 64-bit wrapped sum. |
| `InterpreterProperties.EvalNegate` | interpreter.go:44-46 | A negation is the 64-bit wrapped negation of its operand. |
| `InterpreterProperties.EvalPlusOfList` | interpreter.go:39-41 | Adding to a list uses its zero number: `[] + 1` is 1. |
| `InterpreterProperties.EvalSubtract` | interpreter.go:39-46 | `a - k` as the parser builds it is the true difference when that fits in 64 bits. |
| `InterpreterProperties.EvalIf` | interpreter.go:54-60 | A conditional propagates its condition's panic. Otherwise it takes the first branch exactly when the condition is at most 0. |
| `InterpreterProperties.EvalPrepend` | interpreter.go:68-72 | Prepending gives a list one longer, whose first element is the head and whose rest is the tail's elements. |
| `InterpreterProperties.EvalHeadTail` | interpreter.go:75-82 | `head` and `tail` panic exactly on a value with no element (a number or an empty list). Otherwise they give the first element and the list of the rest. |
| `InterpreterProperties.HeadTailUndoPrepend` | interpreter.go:68-82 | `head` and `tail` undo a prepend: the head comes back, and so do the tail's elements. |
| `InterpreterProperties.EvalApply` | interpreter.go:63-65 | A call panics for an undefined name. Otherwise it evaluates the callee's body with the argument's value as its only argument. |
| `InterpreterProperties.EvalFuelMonotone` | interpreter.go:63-65 | More fuel never changes a value or panic that did not run out of fuel. |
| `Scenarios.InferXMinus` | inference.go:37-89 | For a non-negative argument range, `x - k` types as the range shifted down by `k`. |
| `Scenarios.RestrictXMinusNonPositive` | inference.go:53-114 | Restricting `x - k` to at most 0 caps the argument at `k`, and is `Impossible` when the argument is surely above `k`. |
| `Scenarios.RestrictXMinusPositive` | inference.go:53-114 | Restricting `x - k` to above 0 raises the argument to at least `k + 1`, and is `Impossible` when the argument is surely at most `k`. |
| `Scenarios.InferIfXMinus` | inference.go:117-148 | The clause `f k = e` splits the argument range at `k`. It types `e` on the part up to `k` and the later clauses on the rest, and joins the two when both parts are possible. A branch that does not type gives its outcome, the part up to `k` first. |
| `Scenarios.InferFib` | inference_test.go:25-26 | `fib` on `[lo, hi]` types as `[fib lo, fib hi]`. |
| `Scenarios.InferRepeat` | inference_test.go:29-30 | `repeat` on `[lo, hi]` types as a list of length `[lo, hi]` with elements in `[1, hi]`, or as the empty list when `hi` is 0. |
| `Scenarios.InferUnsafe` | inference_test.go:32-38 | `head(repeat 0)` is rejected as the head of a possibly-empty list, whose type prints as `[0]any`. |
| `Scenarios.InferSafe` | inference_test.go:18 | `head(repeat 10)` types as `[1, 10]`. |
| `Scenarios.InferExamples` | inference_test.go:25-37 | The types the example prints: `int[1, 8]` for `fib` on `[0, 5]` and `[3, 5]int[1, 5]` for `repeat` on `[3, 5]`. |
| `Scenarios.EvalXMinus` | interpreter.go:39-51 | `x - k` evaluates to the argument less `k`, for any argument and `k` whose difference fits in 64 bits. |
| `Scenarios.EvalNonPositiveArgument` | interpreter.go:54-60 | The first clause `f 0` catches every non-positive argument: `fib` of one is 1 and `repeat` of one is the empty list. |
| `Scenarios.EvalFib` | interpreter_test.go:25-26 | `fib n` evaluates to the n-th Fibonacci number. |
| `Scenarios.EvalRepeat` | interpreter_test.go:29-30 | `repeat n` evaluates to the list `n : n-1 : ... : 1 : []`. |
| `Scenarios.EvalSafeUnsafe` | interpreter.go:75-77 | `head(repeat 10)` is 10, and `head(repeat 0)` panics. |
| `Scenarios.EvalExamples` | interpreter_test.go:24-34 | The values the example prints: "8" for `fib 5` and "3 : 2 : 1 : []" for `repeat 3`. |
| `Scenarios.FibInferenceSound` | inference_test.go:24-26 | For every argument in `[lo, hi]`, the value `fib` computes lies in the range inferred for `[lo, hi]`. |
| `Scenarios.RepeatInferenceSound` | inference_test.go:28-30 | For every argument in `[lo, hi]`, the list `repeat` computes has its length and every element in the inferred ranges. |

## Left out

- The parser (parser.go) is not part of this model. The example programs are written out as the trees it builds.
- Error messages are reduced to their kind (`ErrKind`). The `Impossible` record's fields and the `fmt.Errorf` texts are not modelled, apart from the printed type in `InferUnsafe`.
- `CallSite` carries no data and is never read, so it is dropped from `Type`'s signature.
- `Plus.Type`'s `fmt.Printf` when the first operand is a list is output only and is not modelled.
- Range bounds are unbounded integers. Go `int` overflow in `conv` and `inverse` (which needs bounds near 2^63) is not modelled.
- Fuel is not in the source. `Infer`, `Restrict` and `Eval` stop with `OutOfFuel` after `fuel` nested calls, where Go recurses without bound or overflows its stack. The fuel lemmas show the bound changes no answer that finishes.
- Go's `Apply.Eval` panics on a missing name only after evaluating the argument. The model checks the argument first too, so a panic in the argument is reported rather than the missing name; both are `Crash`.
- `Interpreter.Wrap64` is stated only on sums and negations of 64-bit values, the only inputs evaluation gives it.
- `Inference.Infer` and `Inference.InferCond`: they carry no contract of their own. The per-variant behaviour is in the `Infer*` lemmas and `InferIf`.
- `Types.SubsetOf`, `Ranges.IsConst` and `Interpreter.Wrap64` carry no contract of their own. Their properties are the lemmas named in their rows.
- `Inference.Restrict`: its own contract says only that the number of locals is kept. The narrowing is `Inference.RestrictNarrows`, and the per-variant behaviour is in the `Restrict*` lemmas.
- `Interpreter.Eval`: its own contract says only that evaluation never reports an error. The per-variant behaviour is in the `Eval*` lemmas.
- `InferenceProperties.InferIf` assumes neither restriction of the condition panics or runs out of fuel. Those cases are passed on, but the lemma does not state them.
- `InferenceProperties.InferPrepend` assumes both operands type. It does not state the case where joining the head with the tail's element panics.
- `InferenceProperties.RestrictPlus` assumes the second operand types, and leaves unstated the result when the second restriction panics.
- `InferenceProperties.RestrictIfCommits` states the locals only when the restriction succeeds.
- `InferenceProperties.RestrictApply` covers only a defined callee, a typeable argument and positive fuel. The other cases follow `InferApply`'s.
- `InterpreterProperties.EvalPlus`, `EvalNegate`, `EvalPrepend` and `EvalHeadTail` assume their operands evaluate. A panic in an operand propagates, and they do not state it.
- `InterpreterProperties.EvalSubtract` and `Scenarios.EvalXMinus` assume the difference fits in 64 bits; beyond that the wrapped result is what `EvalPlus` and `EvalNegate` give.
- `Scenarios.InferFib` and `Scenarios.FibInferenceSound` assume `fib hi` is below `MaxInt32`, and `Scenarios.EvalFib` that `fib n` fits in 64 bits. Beyond those bounds the sentinels and the wrap-around take over.
- `Scenarios.InferXMinus`, `Scenarios.RestrictXMinusNonPositive`, `Scenarios.RestrictXMinusPositive` and `Scenarios.InferIfXMinus` assume a non-negative argument range below `MaxInt32`, which is what the examples use.
- `Scenarios.InferRepeat` and `Scenarios.RepeatInferenceSound` assume `hi` is below `MaxInt32`.
