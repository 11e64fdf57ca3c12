// The third quick-tour demo: an expression over objects of a user class `X`
// is turned into text by a family of `Evaluate` overloads, and `x %= E`
// renames `x` to the text of `E`.  Binary nodes print with a space on each
// side of the operator and without brackets, unary nodes print the symbol
// right before the argument.
module MiniDemo {
  import opened Wrappers
  import opened Ops
  import opened Tags
  import opened Nodes
  import opened Terms

  /** `Evaluate` has no overload for the node (a power, a scalar, the zero
    * or the one of a tag, or a leaf that is not an `X`). */
  datatype MiniError = NotCompiled

  /** A leaf of the demo's class `X`.  The class declares no
    * `Disambiguation`, so the builders use `X` itself as the tag, and it is
    * copied into the tree rather than referenced. */
  const XLeaf: LeafKind := Object("X", None, false)

  predicate IsX(k: LeafKind)
  {
    k.Object? && k.typeName == "X"
  }

  /** `Evaluate(e)`.  `names(id)` is the name of the copy of the `X` with
    * identity `id` that the tree took when it was built. */
  function Evaluate(names: nat -> string, e: Node): Result<string, MiniError>
  {
    match e
    case Leaf(k, id) => if IsX(k) then Ok(names(id)) else Err(NotCompiled)
    case Un(op, a) =>
      var s :- Evaluate(names, a);
      Ok(UnarySymbol(op) + s)
    case Bin(op, l, r) =>
      var x :- Evaluate(names, l);
      var y :- Evaluate(names, r);
      Ok(Joined(x, op, y))
    case _ => Err(NotCompiled)
  }

  /** `Evaluate` of an `Expr` is that of its content; the content of a tag
    * changer is the original node. */
  function EvaluateTerm(names: nat -> string, t: Term): Result<string, MiniError>
  {
    Evaluate(names, if t.Plain? then t.node else t.content)
  }

  /** The trees `Evaluate` accepts: `X` leaves under unary and binary nodes. */
  predicate Printable(e: Node)
  {
    match e
    case Leaf(k, _) => IsX(k)
    case Un(_, a) => Printable(a)
    case Bin(_, l, r) => Printable(l) && Printable(r)
    case _ => false
  }

  /** `Evaluate` compiles exactly for the printable trees. */
  lemma {:induction false} EvaluateDefined(names: nat -> string, e: Node)
    ensures Evaluate(names, e).Ok? <==> Printable(e)
  {
    match e
    case Un(_, a) => EvaluateDefined(names, a);
    case Bin(_, l, r) =>
      EvaluateDefined(names, l);
      EvaluateDefined(names, r);
    case _ =>
  }

  // ---------------------------------------------------------------------
  // What the text shows of the tree.

  /** The number of blanks in a text. */
  function Blanks(s: string): nat
  {
    if s == [] then 0 else (if s[0] == ' ' then 1 else 0) + Blanks(s[1..])
  }

  lemma {:induction false} BlanksConcat(a: string, b: string)
    ensures Blanks(a + b) == Blanks(a) + Blanks(b)
  {
    if a == [] {
      assert a + b == b;
    } else {
      assert (a + b)[1..] == a[1..] + b;
      BlanksConcat(a[1..], b);
    }
  }

  lemma {:induction false} BlankFree(s: string)
    requires forall k :: 0 <= k < |s| ==> s[k] != ' '
    ensures Blanks(s) == 0
  {
    if s != [] {
      BlankFree(s[1..]);
    }
  }

  lemma SymbolBlanks(u: UnaryOp, b: BinaryOp)
    ensures Blanks(UnarySymbol(u)) == 0
    ensures Blanks(" " + BinarySymbol(b) + " ") == 2
  {
    BlankFree(UnarySymbol(u));
    BlankFree(BinarySymbol(b));
    BlanksConcat(" ", BinarySymbol(b));
    BlanksConcat(" " + BinarySymbol(b), " ");
  }

  /** The binary nodes of a tree, at any depth. */
  function BinaryNodes(e: Node): nat
  {
    match e
    case Un(_, a) => BinaryNodes(a)
    case Pow(_, _, a) => BinaryNodes(a)
    case Bin(_, l, r) => 1 + BinaryNodes(l) + BinaryNodes(r)
    case _ => 0
  }

  /** When no name holds a blank, the blanks of the text are exactly the two
    * around each binary operator: a unary symbol is glued to its argument. */
  lemma {:induction false} BlanksCountBinaryNodes(names: nat -> string, e: Node)
    requires forall id :: Blanks(names(id)) == 0
    requires Evaluate(names, e).Ok?
    ensures Blanks(Evaluate(names, e).value) == 2 * BinaryNodes(e)
  {
    match e
    case Leaf(_, id) =>
    case Un(op, a) =>
      BlanksCountBinaryNodes(names, a);
      SymbolBlanks(op, Plus);
      BlanksConcat(UnarySymbol(op), Evaluate(names, a).value);
    case Bin(op, l, r) =>
      var x, y := Evaluate(names, l).value, Evaluate(names, r).value;
      BlanksCountBinaryNodes(names, l);
      BlanksCountBinaryNodes(names, r);
      SymbolBlanks(UPlus, op);
      assert Evaluate(names, e).value == x + (" " + BinarySymbol(op) + " ") + y;
      BlanksConcat(x, " " + BinarySymbol(op) + " ");
      BlanksConcat(x + (" " + BinarySymbol(op) + " "), y);
  }

  predicate BracketFree(s: string)
  {
    forall k :: 0 <= k < |s| ==> s[k] != '(' && s[k] != ')'
  }

  /** The text never holds a bracket that a name does not bring. */
  lemma {:induction false} NoBracketsAdded(names: nat -> string, e: Node)
    requires forall id :: BracketFree(names(id))
    requires Evaluate(names, e).Ok?
    ensures BracketFree(Evaluate(names, e).value)
  {
    match e
    case Leaf(_, id) =>
    case Un(op, a) =>
      NoBracketsAdded(names, a);
      SymbolsBracketFree(op, Plus);
      ConcatBracketFree(UnarySymbol(op), Evaluate(names, a).value);
    case Bin(op, l, r) =>
      NoBracketsAdded(names, l);
      NoBracketsAdded(names, r);
      var x, y := Evaluate(names, l).value, Evaluate(names, r).value;
      SymbolsBracketFree(UPlus, op);
      ConcatBracketFree(x, " " + BinarySymbol(op) + " ");
      ConcatBracketFree(x + (" " + BinarySymbol(op) + " "), y);
      assert Joined(x, op, y) == x + (" " + BinarySymbol(op) + " ") + y;
  }

  lemma ConcatBracketFree(a: string, b: string)
    requires BracketFree(a) && BracketFree(b)
    ensures BracketFree(a + b)
  {
    forall k | 0 <= k < |a + b|
      ensures (a + b)[k] != '(' && (a + b)[k] != ')'
    {
      if k >= |a| {
        assert (a + b)[k] == b[k - |a|];
      }
    }
  }

  lemma SymbolsBracketFree(u: UnaryOp, b: BinaryOp)
    ensures BracketFree(UnarySymbol(u))
    ensures BracketFree(" " + BinarySymbol(b) + " ")
  {
  }

  // ---------------------------------------------------------------------
  // The class `X` and `operator%=`.

  /** The demo's class: an object with a name. */
  class X {
    var name: string

    /** `X(Name)`. */
    constructor(n: string)
      ensures Name() == n
    {
      name := n;
    }

    /** `Name()`, which is also what `Evaluate(x)` and `os << x` give. */
    function Name(): string
      reads this
    {
      name
    }

    /** `ResetName(NewName)`. */
    method ResetName(n: string)
      modifies this
      ensures Name() == n
    {
      name := n;
    }

    /** `x %= E`: only an `Expr` is accepted; on success `x` is renamed to
      * the text of `E` and nothing else changes.  The tree holds copies of
      * its `X` leaves, so `names` is not affected by the renaming. */
    method ModuloAssign(names: nat -> string, t: Term) returns (r: Result<(), MiniError>)
      modifies this
      ensures r.Ok? <==> IsExpr(t) && EvaluateTerm(names, t).Ok?
      ensures r.Ok? ==> Name() == EvaluateTerm(names, t).value
      ensures r.Err? ==> Name() == old(Name())
    {
      if !IsExpr(t) {
        return Err(NotCompiled);
      }
      var s := EvaluateTerm(names, t);
      if s.Err? {
        return Err(NotCompiled);
      }
      ResetName(s.value);
      r := Ok(());
    }
  }

  // ---------------------------------------------------------------------
  // The demo's own expression.

  function DemoNames(id: nat): string
  {
    if id == 1 then "x1" else if id == 2 then "x2" else if id == 3 then "x3" else "x4"
  }

  /** The demo's `-x1`: the unary node's base class needs the argument's
    * `Disambiguation`, which `X` does not declare, so the builder is
    * rejected. */
  lemma DemoNegationRejected()
    ensures UnaryNode(UMinus, Plain(Leaf(XLeaf, 1))) == Err(NoDisambiguation)
  {
  }

  /** The tree the demo writes, `(x1 + x2) / ((-x1) * x3)`, prints as
    * "x1 + x2 / -x1 * x3", which is also the text of the differently grouped
    * `x1 + ((x2 / (-x1)) * x3)`: the printed text loses the grouping. */
  lemma DemoGroupingLost()
    ensures var x1, x2, x3 := Leaf(XLeaf, 1), Leaf(XLeaf, 2), Leaf(XLeaf, 3);
            var written := Bin(Divide, Bin(Plus, x1, x2), Bin(Multiply, Un(UMinus, x1), x3));
            var regrouped := Bin(Plus, x1, Bin(Multiply, Bin(Divide, x2, Un(UMinus, x1)), x3));
            written != regrouped
            && Evaluate(DemoNames, written) == Ok("x1 + x2 / -x1 * x3")
            && Evaluate(DemoNames, regrouped) == Ok("x1 + x2 / -x1 * x3")
  {
    var x1, x2, x3 := Leaf(XLeaf, 1), Leaf(XLeaf, 2), Leaf(XLeaf, 3);
    var neg := Un(UMinus, x1);
    var n1 := "-" + "x1";
    assert Evaluate(DemoNames, neg) == Ok(n1);
    var sum := Joined("x1", Plus, "x2");
    var prod := Joined(n1, Multiply, "x3");
    var quot := Joined("x2", Divide, n1);
    var prod2 := Joined(quot, Multiply, "x3");
    EvaluateBinary(DemoNames, Plus, x1, x2, "x1", "x2");
    EvaluateBinary(DemoNames, Multiply, neg, x3, n1, "x3");
    EvaluateBinary(DemoNames, Divide, Bin(Plus, x1, x2), Bin(Multiply, neg, x3), sum, prod);
    EvaluateBinary(DemoNames, Divide, x2, neg, "x2", n1);
    EvaluateBinary(DemoNames, Multiply, Bin(Divide, x2, neg), x3, quot, "x3");
    EvaluateBinary(DemoNames, Plus, x1, Bin(Multiply, Bin(Divide, x2, neg), x3), "x1", prod2);
    WrittenText();
    RegroupedText();
  }

  /** The text of a binary node from the texts of its operands. */
  function Joined(x: string, op: BinaryOp, y: string): string
  {
    x + " " + BinarySymbol(op) + " " + y
  }

  lemma EvaluateBinary(names: nat -> string, op: BinaryOp, l: Node, r: Node, x: string, y: string)
    requires Evaluate(names, l) == Ok(x) && Evaluate(names, r) == Ok(y)
    ensures Evaluate(names, Bin(op, l, r)) == Ok(Joined(x, op, y))
  {
  }

  lemma WrittenText()
    ensures Joined(Joined("x1", Plus, "x2"), Divide, Joined("-" + "x1", Multiply, "x3")) == "x1 + x2 / -x1 * x3"
  {
    assert Joined("x1", Plus, "x2") == "x1 + x2";
    assert Joined("-" + "x1", Multiply, "x3") == "-x1 * x3";
    assert "x1 + x2" + " " + "/" + " " + "-x1 * x3" == "x1 + x2 / -x1 * x3";
  }

  lemma RegroupedText()
    ensures Joined("x1", Plus, Joined(Joined("x2", Divide, "-" + "x1"), Multiply, "x3")) == "x1 + x2 / -x1 * x3"
  {
    assert Joined("x2", Divide, "-" + "x1") == "x2 / -x1";
    assert Joined("x2 / -x1", Multiply, "x3") == "x2 / -x1 * x3";
    assert "x1" + " " + "+" + " " + "x2 / -x1 * x3" == "x1 + x2 / -x1 * x3";
  }
}
