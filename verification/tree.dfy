/** The expression tree (tree.go).

    The Go `Node` interface has exactly eleven implementations; here they
    are the constructors of one datatype.  An `Apply` node names its callee;
    the callee's body is looked up in a `Runtime`, the map the parser fills
    once, which is passed explicitly to every operation that needs it. */
module Tree {
  import Decimal

  /** A Go `int`, 64 bits wide. */
  type Int64 = x: int | -0x8000_0000_0000_0000 <= x < 0x8000_0000_0000_0000

  datatype Node =
    | Const(value: Int64)
    | EmptyList
    | Plus(a: Node, b: Node)
    | Negate(elem: Node)
    | Var(index: nat)
    | If(cond: Node, nonPositive: Node, positive: Node)
    | Prepend(head: Node, tail: Node)
    | Head(list: Node)
    | Tail(list: Node)
    | Undef(message: string)
    | Apply(name: string, arg: Node)

  /** Every named function's body. */
  type Runtime = map<string, Node>

  /** The names `Var.String` gives to the first seven slots. */
  const VarNames: string := "xyzwabc"

  /** `Var.String`: one of "xyzwabc" for the first seven slots, "@" and the
      decimal index after that. */
  function VarName(index: nat): (s: string)
    ensures 1 <= |s|
  {
    if index < |VarNames| then VarNames[index..index + 1] else "@" + Decimal.Show(index)
  }

  /** Distinct slots get distinct names, and a name is a single letter
      exactly for the first seven slots. */
  lemma VarNameInjective(i: nat, j: nat)
    ensures |VarName(i)| == 1 <==> i < 7
    ensures VarName(i) == VarName(j) ==> i == j
  {
    if i >= 7 && j >= 7 && VarName(i) == VarName(j) {
      assert VarName(i)[1..] == Decimal.Show(i);
      assert VarName(j)[1..] == Decimal.Show(j);
      Decimal.ShowInjective(i, j);
    }
    if i < 7 && j >= 7 {
      assert VarName(i)[0] != '@';
    }
    if j < 7 && i >= 7 {
      assert VarName(j)[0] != '@';
    }
    if i < 7 && j < 7 {
      assert VarName(i)[0] == VarNames[i] && VarName(j)[0] == VarNames[j];
    }
  }

  /** The `String` methods of all eleven variants.  A sum whose right
      operand is a negation prints as a difference; an `Undef` prints the
      same whatever its message. */
  function NodeString(n: Node): (s: string)
    ensures 1 <= |s|
    decreases n
  {
    match n
    case Const(c) => Decimal.Show(c)
    case EmptyList => "[]"
    case Plus(a, b) =>
      if b.Negate? then "(" + NodeString(a) + " - " + NodeString(b.elem) + ")"
      else "(" + NodeString(a) + " + " + NodeString(b) + ")"
    case Negate(e) => "-" + NodeString(e)
    case Var(i) => VarName(i)
    case If(c, np, p) => "ifz(" + NodeString(c) + ", " + NodeString(np) + ", " + NodeString(p) + ")"
    case Prepend(h, t) => NodeString(h) + " : " + NodeString(t)
    case Head(l) => "head(" + NodeString(l) + ")"
    case Tail(l) => "tail(" + NodeString(l) + ")"
    case Undef(_) => "undef()"
    case Apply(name, arg) => name + "(" + NodeString(arg) + ")"
  }

  /** Printing forgets structure in general: a sum whose right operand is a
      negation prints exactly like a subtraction, every `Undef` prints the
      same whatever its message, and a constant prints as a decimal that
      reads back as its value. */
  lemma NodeStringForgets(a: Node, x: Node, m1: string, m2: string, c: Int64)
    ensures NodeString(Plus(a, Negate(x))) == "(" + NodeString(a) + " - " + NodeString(x) + ")"
    ensures NodeString(Undef(m1)) == NodeString(Undef(m2))
    ensures Decimal.Parse(NodeString(Const(c))) == c
  {
    Decimal.ShowRoundTrip(c);
  }

  /** Printing loses information: a subtraction and a sum with a negated
      operand print alike, as do a negated constant and a negative one, and
      the message of an `Undef`. */
  lemma NodeStringNotInjective()
    ensures NodeString(Plus(Var(0), Negate(Const(1)))) == "(x - 1)"
    ensures NodeString(Negate(Const(5))) == NodeString(Const(-5)) == "-5"
    ensures NodeString(Undef("a")) == NodeString(Undef("b")) == "undef()"
  {
    assert Decimal.Show(1) == "1";
    assert Decimal.Show(5) == "5";
  }

  /** The leaves: the empty list, and variables by letter or by index. */
  lemma NodeStringLeafExamples()
    ensures NodeString(EmptyList) == "[]"
    ensures NodeString(Var(0)) == "x"
    ensures NodeString(Var(1)) == "y"
    ensures NodeString(Var(2)) == "z"
    ensures NodeString(Var(7)) == "@7"
    ensures NodeString(Const(1)) == "1"
  {
    assert Decimal.Show(1) == "1";
    assert Decimal.Show(7) == "7";
  }

  /** Compound nodes print in the surface syntax, a sum in parentheses. */
  lemma NodeStringExamples()
    ensures NodeString(If(Var(0), Const(1), Var(2))) == "ifz(x, 1, z)"
    ensures NodeString(Prepend(Var(0), EmptyList)) == "x : []"
    ensures NodeString(Plus(Var(0), Var(1))) == "(x + y)"
    ensures NodeString(Head(Var(0))) == "head(x)"
    ensures NodeString(Tail(Var(0))) == "tail(x)"
    ensures NodeString(Apply("fib", Var(0))) == "fib(x)"
  {
    NodeStringLeafExamples();
  }
}
