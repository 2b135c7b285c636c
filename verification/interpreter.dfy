/** The concrete evaluator (interpreter.go).

    A Go `Obj` has an `int64` (`num` here) and a slice of `Obj`; a nil slice makes it a
    number, a non-nil one (possibly empty) a list.  Every object the
    evaluator builds sets one of the two and leaves the other at its zero
    value, so reading `Int` of a list gives 0 and the elements of a number
    are none.  Evaluation of a call enters the callee's body with the
    argument's value as the only slot, spending one unit of fuel. */
module Interpreter {
  import opened Outcomes
  import opened Tree
  import Decimal

  const TwoTo63: int := 0x8000_0000_0000_0000
  const TwoTo64: int := 0x1_0000_0000_0000_0000

  /** Two's-complement wrap-around of Go's 64-bit arithmetic, for the
      results a sum or a negation of 64-bit values can have.
      `Wrap64Congruent` shows it is the one 64-bit value congruent to `x`
      modulo 2^64. */
  function Wrap64(x: int): Int64
    requires -TwoTo64 <= x < TwoTo64
  {
    if x < -TwoTo63 then x + TwoTo64
    else if x >= TwoTo63 then x - TwoTo64
    else x
  }

  datatype Obj = Obj(num: Int64, vals: Slice)

  /** A Go `[]Obj`: nil, or present with its elements (possibly none). */
  datatype Slice = Nil | Slice(elems: seq<Obj>)

  /** A number, as the evaluator builds it. */
  function Num(v: Int64): Obj {
    Obj(v, Nil)
  }

  /** A list, as the evaluator builds it. */
  function ListOf(elems: seq<Obj>): Obj {
    Obj(0, Slice(elems))
  }

  /** The elements a Go loop or index sees: none for a nil slice. */
  function Elems(o: Obj): seq<Obj> {
    match o.vals
    case Nil => []
    case Slice(es) => es
  }

  /** `Node.Eval` for every variant.  Evaluation never returns an error:
      it produces a value, panics, or (in the model only) runs out of
      fuel. */
  function Eval(rt: Runtime, n: Node, args: seq<Obj>, fuel: nat): (r: Outcome<Obj>)
    ensures !r.Err?
    decreases fuel, n
  {
    match n
    case Const(c) =>
      Ok(Num(c))

    case EmptyList =>
      Ok(ListOf([]))

    case Plus(a, b) =>
      var va := Eval(rt, a, args, fuel);
      if !va.Ok? then va
      else
        var vb := Eval(rt, b, args, fuel);
        if !vb.Ok? then vb
        else Ok(Num(Wrap64(va.value.num + vb.value.num)))

    case Negate(e) =>
      var ve := Eval(rt, e, args, fuel);
      if !ve.Ok? then ve
      else Ok(Num(Wrap64(-(ve.value.num as int))))

    case Var(i) =>
      if i < |args| then Ok(args[i]) else Crash

    case If(c, np, p) =>
      var vc := Eval(rt, c, args, fuel);
      if !vc.Ok? then vc
      else if vc.value.num <= 0 then Eval(rt, np, args, fuel)
      else Eval(rt, p, args, fuel)

    case Prepend(h, t) =>
      var vh := Eval(rt, h, args, fuel);
      if !vh.Ok? then vh
      else
        var vt := Eval(rt, t, args, fuel);
        if !vt.Ok? then vt
        else Ok(ListOf([vh.value] + Elems(vt.value)))

    case Head(l) =>
      var vl := Eval(rt, l, args, fuel);
      if !vl.Ok? then vl
      else if |Elems(vl.value)| == 0 then Crash
      else Ok(Elems(vl.value)[0])

    case Tail(l) =>
      var vl := Eval(rt, l, args, fuel);
      if !vl.Ok? then vl
      else if |Elems(vl.value)| == 0 then Crash
      else Ok(ListOf(Elems(vl.value)[1..]))

    case Undef(_) =>
      Crash

    case Apply(name, arg) =>
      // Calling `Eval` on the nil `Node` a missing name yields panics.
      var va := Eval(rt, arg, args, fuel);
      if !va.Ok? then va
      else if name !in rt then Crash
      else if fuel == 0 then OutOfFuel
      else Eval(rt, rt[name], [va.value], fuel - 1)
  }

  // ---------------------------------------------------------------------
  // Obj.String

  /** `Obj.String`: the decimal for a number; for a list, the elements'
      strings joined by " : " and followed by " : []". */
  function ObjString(o: Obj): (s: string)
    ensures 1 <= |s|
    decreases o, 1
  {
    match o.vals
    case Nil => Decimal.Show(o.num)
    case Slice(es) => JoinFrom("", es, 0) + " : []"
  }

  /** The loop of `Obj.String` from element `i` on, with `buf` built so
      far. */
  function JoinFrom(buf: string, es: seq<Obj>, i: nat): (s: string)
    requires i <= |es|
    ensures buf != "" ==> s != ""
    decreases es, 0, |es| - i
  {
    if i == |es| then buf
    else
      var e := es[i];
      assert e in es;
      JoinFrom((if buf != "" then buf + " : " else buf) + ObjString(e), es, i + 1)
  }

  /** Strings joined with " : " between them. */
  function Separated(ss: seq<string>): string
    decreases |ss|
  {
    if |ss| == 0 then "" else if |ss| == 1 then ss[0] else ss[0] + " : " + Separated(ss[1..])
  }

  /** The strings of `es`, from element `i` on. */
  function ElemStrings(es: seq<Obj>, i: nat): (ss: seq<string>)
    requires i <= |es|
    ensures |ss| == |es| - i
    ensures forall k :: 0 <= k < |ss| ==> ss[k] == ObjString(es[i + k])
    decreases |es| - i
  {
    if i == |es| then [] else [ObjString(es[i])] + ElemStrings(es, i + 1)
  }

  lemma {:induction false} JoinFromSeparated(buf: string, es: seq<Obj>, i: nat)
    requires i <= |es|
    ensures JoinFrom(buf, es, i) ==
              if buf == "" then Separated(ElemStrings(es, i))
              else if i == |es| then buf
              else buf + " : " + Separated(ElemStrings(es, i))
    decreases |es| - i
  {
    if i < |es| {
      var s := ObjString(es[i]);
      var buf' := (if buf != "" then buf + " : " else buf) + s;
      assert JoinFrom(buf, es, i) == JoinFrom(buf', es, i + 1);
      JoinFromSeparated(buf', es, i + 1);
      var rest := ElemStrings(es, i + 1);
      assert ElemStrings(es, i) == [s] + rest;
      if i + 1 == |es| {
        assert Separated([s] + rest) == s;
      } else {
        assert ([s] + rest)[1..] == rest;
        assert Separated([s] + rest) == s + " : " + Separated(rest);
      }
    }
  }

  /** The loop in `Obj.String` computes the plain " : "-separated join of
      the element strings: a list prints as its elements, each followed by
      " : ", ending in "[]". */
  lemma ObjStringList(es: seq<Obj>)
    ensures ObjString(ListOf(es)) == Separated(ElemStrings(es, 0)) + " : []"
  {
    JoinFromSeparated("", es, 0);
  }

  /** A number prints as its decimal. */
  lemma ObjStringNumbers()
    ensures ObjString(Num(1)) == "1" && ObjString(Num(2)) == "2"
    ensures ObjString(Num(3)) == "3" && ObjString(Num(8)) == "8"
  {
    assert Decimal.Show(1) == "1" && Decimal.Show(2) == "2";
    assert Decimal.Show(3) == "3" && Decimal.Show(8) == "8";
  }

  lemma ObjStringExamples()
    ensures ObjString(Num(8)) == "8"
    ensures ObjString(ListOf([])) == " : []"
    ensures ObjString(ListOf([Num(3), Num(2), Num(1)])) == "3 : 2 : 1 : []"
  {
    ObjStringNumbers();
    var es := [Num(3), Num(2), Num(1)];
    ObjStringList(es);
    assert ElemStrings(es, 0) == ["3", "2", "1"];
    assert Separated(["3", "2", "1"]) == "3" + " : " + Separated(["2", "1"]);
    assert Separated(["2", "1"]) == "2 : 1";
  }
}
