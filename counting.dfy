// Counting inside expression trees: how often a type occurs (a compile-time
// count over the tree's type), how often an object occurs (a run-time count
// over addresses), and how many leaves the binary skeleton has.
module Counting {
  import opened Wrappers
  import opened Nodes
  import opened Terms
  import opened Ops

  // ---------------------------------------------------------------------
  // Occurrences of a type.

  /** `Check::Is<A, B>::SameType` on terms: two bare nodes, two `Expr`s or
    * two changers, of the same type. */
  predicate TermSameType(a: Term, b: Term)
  {
    match a
    case Plain(n) => b.Plain? && SameType(n, b.node)
    case Wrapped(n) => b.Wrapped? && SameType(n, b.content)
    case Changed(n, t) => b.Changed? && SameType(n, b.content) && t == b.newTag
  }

  /** `StaticOccurrenceCounter<T, S>::Result` for the type of the node `e`:
    * 1 where the node has the searched type, otherwise the count in its
    * operands.  A by-reference leaf (`ConstRef<T>`) is searched like an
    * operand: it counts 1 when `T` is the searched type.  Null, One, Scalar
    * and a leaf held by value have no operands.  A node never holds an
    * `Expr`, so an `Expr` type occurs in no node. */
  function StaticCount(e: Node, s: Term): nat
  {
    if s.Plain? && SameType(e, s.node) then 1
    else
      match e
      case Leaf(k, _) => if k.Object? && k.byRef && s.Plain? && SameType(Referred(e), s.node) then 1 else 0
      case Un(_, a) => StaticCount(a, s)
      case Pow(_, _, a) => StaticCount(a, s)
      case Bin(_, l, r) => StaticCount(l, s) + StaticCount(r, s)
      case _ => 0
  }

  /** The leaf a by-reference leaf refers to: the same object held by value. */
  function Referred(e: Node): (r: Node)
    requires e.Leaf?
    ensures r.Leaf? && r.id == e.id && (r.kind.Object? <==> e.kind.Object?)
    ensures r.kind.Object? ==> !r.kind.byRef && r.kind.typeName == e.kind.typeName && r.kind.disamb == e.kind.disamb
    ensures !e.kind.Object? || !e.kind.byRef ==> r == e
  {
    if e.kind.Object? then Leaf(e.kind.(byRef := false), e.id) else e
  }

  /** `CountTypeOccurrence(t, s)`: an `Expr` of the searched type counts 1,
    * otherwise its content is searched.  An `Expr` around a changer has no
    * specialisation for the changer, so only the `Expr` itself can match. */
  function StaticCountTerm(t: Term, s: Term): nat
  {
    if TermSameType(t, s) then 1
    else
      match t
      case Plain(n) => StaticCount(n, s)
      case Wrapped(n) => StaticCount(n, s)
      case Changed(_, _) => 0
  }

  /** Some node of the tree, or the object a by-reference leaf refers to,
    * has the type of `s`. */
  predicate Occurs(e: Node, s: Node)
  {
    SameType(e, s) ||
    match e
    case Leaf(_, _) => SameType(Referred(e), s)
    case Un(_, a) => Occurs(a, s)
    case Pow(_, _, a) => Occurs(a, s)
    case Bin(_, l, r) => Occurs(l, s) || Occurs(r, s)
    case _ => false
  }

  /** The count is zero exactly when no node has the searched type, is 1
    * for a tree of that type itself, whatever it contains, and is 1 for a
    * leaf whose object has that type, held by value or by reference. */
  lemma {:induction false} StaticCountZero(e: Node, s: Node)
    ensures StaticCount(e, Plain(s)) == 0 <==> !Occurs(e, s)
    ensures SameType(e, s) ==> StaticCount(e, Plain(s)) == 1
    ensures e.Leaf? && SameType(Referred(e), s) ==> StaticCount(e, Plain(s)) == 1
  {
    match e
    case Un(_, a) => StaticCountZero(a, s);
    case Pow(_, _, a) => StaticCountZero(a, s);
    case Bin(_, l, r) =>
      StaticCountZero(l, s);
      StaticCountZero(r, s);
    case _ =>
  }

  /** A node type occurs in a term exactly when it occurs in the node the
    * term holds; an `Expr` around a changer contains none. */
  lemma StaticCountTermZero(t: Term, s: Node)
    ensures StaticCountTerm(t, Plain(s)) == 0 <==> t.Changed? || !Occurs(Unwrap(t).value, s)
  {
    if !t.Changed? { StaticCountZero(Unwrap(t).value, s); }
  }

  /** `CountTypeOccurrence(A + B, A)` where the sum holds two objects of
    * the searched type by reference (as the linear-algebra operands do):
    * each operand counts once for the type it refers to. */
  lemma ByReferenceOperandsCounted(op: BinaryOp, k: LeafKind, i: nat, j: nat)
    requires k.Object? && k.byRef
    ensures StaticCountTerm(Wrapped(Bin(op, Leaf(k, i), Leaf(k, j))), Plain(Leaf(k.(byRef := false), 0))) == 2
  {
    var s := Leaf(k.(byRef := false), 0);
    assert !SameType(Leaf(k, i), s) && SameType(Referred(Leaf(k, i)), s);
    assert !SameType(Leaf(k, j), s) && SameType(Referred(Leaf(k, j)), s);
    assert StaticCount(Leaf(k, i), Plain(s)) == 1 && StaticCount(Leaf(k, j), Plain(s)) == 1;
    assert !SameType(Bin(op, Leaf(k, i), Leaf(k, j)), s);
  }

  /** No node contains an `Expr`, so counting an `Expr` type in a node gives 0. */
  lemma {:induction false} NoExprInNodes(e: Node, s: Term)
    requires !s.Plain?
    ensures StaticCount(e, s) == 0
  {
    match e
    case Un(_, a) => NoExprInNodes(a, s);
    case Pow(_, _, a) => NoExprInNodes(a, s);
    case Bin(_, l, r) =>
      NoExprInNodes(l, s);
      NoExprInNodes(r, s);
    case _ =>
  }

  /** The count is a property of the type: two trees of the same type (which
    * may differ in their Scalar values and leaf identities) give the same
    * count. */
  lemma {:induction false} StaticCountByType(a: Node, b: Node, s: Term)
    requires SameType(a, b)
    ensures StaticCount(a, s) == StaticCount(b, s)
  {
    if s.Plain? && SameType(a, s.node) {
    } else {
      match a
      case Un(_, x) =>
        StaticCountByType(x, b.arg, s);
      case Pow(_, _, x) =>
        StaticCountByType(x, b.arg, s);
      case Bin(_, l, r) =>
        StaticCountByType(l, b.lhs, s);
        StaticCountByType(r, b.rhs, s);
      case _ =>
    }
  }

  // ---------------------------------------------------------------------
  // Occurrences of an object.

  /** Where an object lives: inside the tree at a path of operand positions
    * (0 for the argument or the left operand, 1 for the right), or outside
    * it (the object a by-reference leaf refers to). */
  datatype Address = InTree(path: seq<nat>) | External(id: nat)

  /** The paths that lead to a node of the tree. */
  predicate ValidPath(e: Node, p: seq<nat>)
  {
    if p == [] then true
    else
      match e
      case Un(_, a) => p[0] == 0 && ValidPath(a, p[1..])
      case Pow(_, _, a) => p[0] == 0 && ValidPath(a, p[1..])
      case Bin(_, l, r) =>
        (p[0] == 0 && ValidPath(l, p[1..])) || (p[0] == 1 && ValidPath(r, p[1..]))
      case _ => false
  }

  /** `CountOccurrence(e, s)` for the tree `e` stored at `here`: 1 where the
    * node is the object `s`, without looking inside it, otherwise the count
    * in its operands.  Operands are stored by value, so each lives at its
    * own path; a by-reference leaf (`ConstRef`) is compared first as itself
    * and then as the object it refers to. */
  function DynamicCount(e: Node, here: seq<nat>, s: Address): nat
  {
    if s == InTree(here) then 1
    else
      match e
      case Un(_, a) => DynamicCount(a, here + [0], s)
      case Pow(_, _, a) => DynamicCount(a, here + [0], s)
      case Bin(_, l, r) => DynamicCount(l, here + [0], s) + DynamicCount(r, here + [1], s)
      case Leaf(k, id) => if k.Object? && k.byRef && s == External(id) then 1 else 0
      case _ => 0
  }

  /** The number of by-reference leaves that refer to the object `id`. */
  function RefCount(e: Node, id: nat): nat
  {
    match e
    case Un(_, a) => RefCount(a, id)
    case Pow(_, _, a) => RefCount(a, id)
    case Bin(_, l, r) => RefCount(l, id) + RefCount(r, id)
    case Leaf(k, i) => if k.Object? && k.byRef && i == id then 1 else 0
    case _ => 0
  }

  /** A node of the tree occurs exactly once, however much it contains, and
    * an address that is no node of the tree not at all. */
  lemma {:induction false} DynamicCountInTree(e: Node, here: seq<nat>, p: seq<nat>)
    decreases e, 1
    ensures DynamicCount(e, here, InTree(here + p)) == if ValidPath(e, p) then 1 else 0
  {
    if p == [] {
      assert here + p == here;
    } else {
      assert |here + p| != |here|;
      match e
      case Un(_, a) => Descend(a, here, p, 0);
      case Pow(_, _, a) => Descend(a, here, p, 0);
      case Bin(_, l, r) =>
        Descend(l, here, p, 0);
        Descend(r, here, p, 1);
      case _ =>
    }
  }

  /** One step of `DynamicCountInTree`: the operand stored at `here + [k]`
    * holds the node at `here + p` exactly when `p` leads through `k` to one
    * of its nodes. */
  lemma {:induction false} Descend(a: Node, here: seq<nat>, p: seq<nat>, k: nat)
    requires p != []
    decreases a, 2
    ensures DynamicCount(a, here + [k], InTree(here + p)) ==
            if p[0] == k && ValidPath(a, p[1..]) then 1 else 0
  {
    if p[0] == k {
      assert p == [k] + p[1..];
      assert here + p == (here + [k]) + p[1..];
      DynamicCountInTree(a, here + [k], p[1..]);
    } else {
      NotExtends(here, p, k);
      DynamicCountOutside(a, here + [k], here + p);
    }
  }

  /** A path that leaves `here` by another position than `k` does not pass
    * `here + [k]`. */
  lemma NotExtends(here: seq<nat>, p: seq<nat>, k: nat)
    requires p != [] && p[0] != k
    ensures !Extends(here + p, here + [k])
  {
    if |here + p| >= |here + [k]| {
      assert (here + p)[..|here + [k]|][|here|] == p[0];
      assert (here + [k])[|here|] == k;
    }
  }

  /** `q` is `p` followed by something. */
  predicate Extends(q: seq<nat>, p: seq<nat>)
  {
    |q| >= |p| && q[..|p|] == p
  }

  /** An address that does not extend `here` is no node of a tree stored at
    * `here`. */
  lemma {:induction false} DynamicCountOutside(e: Node, here: seq<nat>, q: seq<nat>)
    requires !Extends(q, here)
    ensures DynamicCount(e, here, InTree(q)) == 0
  {
    assert q != here;
    match e
    case Un(_, a) =>
      ExtendsShorter(q, here, 0);
      DynamicCountOutside(a, here + [0], q);
    case Pow(_, _, a) =>
      ExtendsShorter(q, here, 0);
      DynamicCountOutside(a, here + [0], q);
    case Bin(_, l, r) =>
      ExtendsShorter(q, here, 0);
      ExtendsShorter(q, here, 1);
      DynamicCountOutside(l, here + [0], q);
      DynamicCountOutside(r, here + [1], q);
    case _ =>
  }

  /** Extending `here + [k]` implies extending `here`. */
  lemma ExtendsShorter(q: seq<nat>, here: seq<nat>, k: nat)
    ensures Extends(q, here + [k]) ==> Extends(q, here)
  {
    if Extends(q, here + [k]) {
      assert q[..|here|] == (here + [k])[..|here|];
    }
  }

  /** An object outside the tree occurs once for every by-reference leaf that
    * refers to it. */
  lemma {:induction false} DynamicCountExternal(e: Node, here: seq<nat>, id: nat)
    ensures DynamicCount(e, here, External(id)) == RefCount(e, id)
  {
    match e
    case Un(_, a) => DynamicCountExternal(a, here + [0], id);
    case Pow(_, _, a) => DynamicCountExternal(a, here + [0], id);
    case Bin(_, l, r) =>
      DynamicCountExternal(l, here + [0], id);
      DynamicCountExternal(r, here + [1], id);
    case _ =>
  }

  // ---------------------------------------------------------------------
  // Leaves.

  /** `LeafCounter<T>::Result`: a binary node has the leaves of both
    * operands; anything else, a unary node included, is one leaf. */
  function LeafCount(e: Node): (r: nat)
    ensures r >= 1
  {
    match e
    case Bin(_, l, r) => LeafCount(l) + LeafCount(r)
    case _ => 1
  }

  /** `CountLeaves(t)`: an `Expr` has the leaves of its content; an `Expr`
    * around a changer holds no binary node and is one leaf. */
  function LeafCountTerm(t: Term): (r: nat)
    ensures r >= 1
    ensures !t.Changed? ==> r == LeafCount(Unwrap(t).value)
  {
    match t
    case Plain(n) => LeafCount(n)
    case Wrapped(n) => LeafCount(n)
    case Changed(_, _) => 1
  }

  /** The binary nodes reached from the root without passing a unary node. */
  function BinarySkeleton(e: Node): nat
  {
    match e
    case Bin(_, l, r) => 1 + BinarySkeleton(l) + BinarySkeleton(r)
    case _ => 0
  }

  /** The leaf count is one more than the number of binary nodes above the
    * leaves: every binary node adds exactly one leaf. */
  lemma {:induction false} LeafCountSkeleton(e: Node)
    ensures LeafCount(e) == BinarySkeleton(e) + 1
  {
    match e
    case Bin(_, l, r) =>
      LeafCountSkeleton(l);
      LeafCountSkeleton(r);
    case _ =>
  }
}
