/**
 The expression tree (src/expr.rs): four node records, the closed sum over
 them, the `binary` smart constructor, and visitor dispatch by `accept`.

 A visitor is four functions, one per node kind. Each receives the visitor's
 state and the node and returns the next state and a result. A visitor
 without state is one whose state type has a single value; a `&self`
 visitor that mutates through interior mutability (`Cell`, `RefCell`) is a
 visitor with state; the counting visitor the source's tests intend is one whose
 state is the four counters.
 */
module Exprs {
  import opened Tokens

  datatype BinaryExpr = BinaryExpr(left: Expr, operator: Token, right: Expr)
  datatype LiteralExpr = LiteralExpr(lit: Tokens.Literal)
  datatype GroupingExpr = GroupingExpr(expr: Expr)
  datatype UnaryExpr = UnaryExpr(operator: Token, right: Expr)

  /** A strict tree: every child is owned by exactly one parent. */
  datatype Expr =
    | Binary(binary: BinaryExpr)
    | Literal(literal: LiteralExpr)
    | Grouping(grouping: GroupingExpr)
    | Unary(unary: UnaryExpr)

  /** The four methods of a visitor with state `S` and result `R`. */
  datatype Visitor<!S, !R> = Visitor(
    visitBinary: (S, BinaryExpr) -> (S, R),
    visitLiteral: (S, LiteralExpr) -> (S, R),
    visitGrouping: (S, GroupingExpr) -> (S, R),
    visitUnary: (S, UnaryExpr) -> (S, R))

  /** `Expr::binary`: a Binary node over exactly the given parts. */
  function MakeBinary(left: Expr, operator: Token, right: Expr): (e: Expr)
    ensures e.Binary? && e.binary.left == left && e.binary.operator == operator && e.binary.right == right
    ensures Size(e) == Size(left) + Size(right) + 1
  {
    Binary(BinaryExpr(left, operator, right))
  }

  /** Number of nodes in a tree. */
  function Size(e: Expr): nat
  {
    match e
    case Binary(b) => Size(b.left) + Size(b.right) + 1
    case Literal(_) => 1
    case Grouping(g) => Size(g.expr) + 1
    case Unary(u) => Size(u.right) + 1
  }

  /** The direct children of a node, left to right. */
  function Children(e: Expr): seq<Expr>
  {
    match e
    case Binary(b) => [b.left, b.right]
    case Literal(_) => []
    case Grouping(g) => [g.expr]
    case Unary(u) => [u.right]
  }

  /** One call of the visitor method that matches the node's kind. */
  function Dispatch<S, R>(v: Visitor<S, R>, s: S, e: Expr): (S, R)
  {
    match e
    case Binary(b) => v.visitBinary(s, b)
    case Literal(l) => v.visitLiteral(s, l)
    case Grouping(g) => v.visitGrouping(s, g)
    case Unary(u) => v.visitUnary(s, u)
  }

  /**
   `Expr::accept`: walk the children (left before right), discarding their
   results, then call the parent's own visitor method and return its result.
   It terminates because it recurses only into owned children.
   */
  function Accept<S, R>(e: Expr, v: Visitor<S, R>, s: S): (S, R)
    decreases e
  {
    match e
    case Binary(b) =>
      var afterLeft := Accept(b.left, v, s).0;
      var afterRight := Accept(b.right, v, afterLeft).0;
      v.visitBinary(afterRight, b)
    case Literal(l) => v.visitLiteral(s, l)
    case Grouping(g) =>
      var afterChild := Accept(g.expr, v, s).0;
      v.visitGrouping(afterChild, g)
    case Unary(u) =>
      var afterChild := Accept(u.right, v, s).0;
      v.visitUnary(afterChild, u)
  }

  // ---------------------------------------------------------------------
  // Reference definition of the traversal: post-order node sequence.
  // ---------------------------------------------------------------------

  /** The nodes of a tree in post-order: every subtree, then its root. */
  function PostOrder(e: Expr): (nodes: seq<Expr>)
    ensures |nodes| == Size(e)
    ensures |nodes| > 0 && nodes[|nodes| - 1] == e
  {
    match e
    case Binary(b) => PostOrder(b.left) + PostOrder(b.right) + [e]
    case Literal(_) => [e]
    case Grouping(g) => PostOrder(g.expr) + [e]
    case Unary(u) => PostOrder(u.right) + [e]
  }

  /** Feed the nodes to the visitor one by one, threading its state. */
  function Run<S, R>(v: Visitor<S, R>, s: S, nodes: seq<Expr>): S
    decreases |nodes|
  {
    if |nodes| == 0 then s else Run(v, Dispatch(v, s, nodes[0]).0, nodes[1..])
  }

  lemma {:induction false} RunAppend<S, R>(v: Visitor<S, R>, s: S, a: seq<Expr>, b: seq<Expr>)
    ensures Run(v, s, a + b) == Run(v, Run(v, s, a), b)
    decreases |a|
  {
    if |a| == 0 {
      assert a + b == b;
    } else {
      assert (a + b)[1..] == a[1..] + b;
      RunAppend(v, Dispatch(v, s, a[0]).0, a[1..], b);
    }
  }

  lemma RunSingle<S, R>(v: Visitor<S, R>, s: S, n: Expr)
    ensures Run(v, s, [n]) == Dispatch(v, s, n).0
  {
    assert [n][1..] == [];
  }

  /**
   `accept` is the post-order walk: the visitor's state evolves exactly as if
   every node were dispatched once, in post-order, and the value returned is
   the root's own visit, made after all its descendants were visited.
   */
  lemma {:induction false} AcceptIsPostOrder<S, R>(e: Expr, v: Visitor<S, R>, s: S)
    ensures Accept(e, v, s).0 == Run(v, s, PostOrder(e))
    ensures Accept(e, v, s) == Dispatch(v, Run(v, s, PostOrder(e)[..Size(e) - 1]), e)
    decreases e
  {
    var nodes := PostOrder(e);
    match e
    case Binary(b) =>
      AcceptIsPostOrder(b.left, v, s);
      var s1 := Accept(b.left, v, s).0;
      AcceptIsPostOrder(b.right, v, s1);
      var s2 := Accept(b.right, v, s1).0;
      var kids := PostOrder(b.left) + PostOrder(b.right);
      assert nodes[..Size(e) - 1] == kids;
      RunAppend(v, s, PostOrder(b.left), PostOrder(b.right));
      RunAppend(v, s, kids, [e]);
      RunSingle(v, s2, e);
    case Literal(_) =>
      assert nodes[..Size(e) - 1] == [];
      RunSingle(v, s, e);
    case Grouping(g) =>
      AcceptIsPostOrder(g.expr, v, s);
      var s1 := Accept(g.expr, v, s).0;
      assert nodes[..Size(e) - 1] == PostOrder(g.expr);
      RunAppend(v, s, PostOrder(g.expr), [e]);
      RunSingle(v, s1, e);
    case Unary(u) =>
      AcceptIsPostOrder(u.right, v, s);
      var s1 := Accept(u.right, v, s).0;
      assert nodes[..Size(e) - 1] == PostOrder(u.right);
      RunAppend(v, s, PostOrder(u.right), [e]);
      RunSingle(v, s1, e);
  }

  /** A literal leaf is one call of `visit_literal` and nothing else. */
  lemma AcceptLiteral<S, R>(l: LiteralExpr, v: Visitor<S, R>, s: S)
    ensures PostOrder(Literal(l)) == [Literal(l)]
    ensures Accept(Literal(l), v, s) == v.visitLiteral(s, l)
  {
  }

  /**
   With a stateless visitor the children's visits leave no trace, so the result
   of `accept` is the root's own visit alone: child results are discarded.
   */
  lemma AcceptStateless<R>(e: Expr, v: Visitor<(), R>)
    ensures Accept(e, v, ()).1 == Dispatch(v, (), e).1
  {
    match e
    case Binary(b) =>
      var afterLeft: () := Accept(b.left, v, ()).0;
      var afterRight: () := Accept(b.right, v, afterLeft).0;
      assert afterRight == ();
    case Literal(_) =>
    case Grouping(g) =>
      var afterChild: () := Accept(g.expr, v, ()).0;
      assert afterChild == ();
    case Unary(u) =>
      var afterChild: () := Accept(u.right, v, ()).0;
      assert afterChild == ();
  }

  /**
   Every child of a node in the sequence occurs earlier in the sequence.
   Nodes are compared as values: equal subtrees are not told apart, so this
   does not by itself fix the order; `AcceptIsPostOrder` and `PostOrder` do.
   */
  ghost predicate ChildrenBefore(nodes: seq<Expr>)
  {
    forall i, c :: 0 <= i < |nodes| && c in Children(nodes[i]) ==> c in nodes[..i]
  }

  lemma ChildrenBeforeConcat(a: seq<Expr>, b: seq<Expr>)
    requires ChildrenBefore(a) && ChildrenBefore(b)
    ensures ChildrenBefore(a + b)
  {
    var ab := a + b;
    forall i, c | 0 <= i < |ab| && c in Children(ab[i])
      ensures c in ab[..i]
    {
      if i < |a| {
        assert ab[i] == a[i] && ab[..i] == a[..i];
      } else {
        assert ab[i] == b[i - |a|] && ab[..i] == a + b[..i - |a|];
      }
    }
  }

  lemma ChildrenBeforeSnoc(a: seq<Expr>, e: Expr)
    requires ChildrenBefore(a)
    requires forall c :: c in Children(e) ==> c in a
    ensures ChildrenBefore(a + [e])
  {
    var ae := a + [e];
    forall i, c | 0 <= i < |ae| && c in Children(ae[i])
      ensures c in ae[..i]
    {
      if i < |a| {
        assert ae[i] == a[i] && ae[..i] == a[..i];
      } else {
        assert ae[..i] == a;
      }
    }
  }

  /**
   Post-order: every child of a visited node was visited earlier in the walk.
   */
  lemma {:induction false} ChildrenVisitedFirst(e: Expr)
    ensures ChildrenBefore(PostOrder(e))
    decreases e
  {
    match e
    case Binary(b) =>
      var A, B := PostOrder(b.left), PostOrder(b.right);
      ChildrenVisitedFirst(b.left);
      ChildrenVisitedFirst(b.right);
      ChildrenBeforeConcat(A, B);
      assert A[|A| - 1] == b.left && B[|B| - 1] == b.right;
      assert b.left in A + B && b.right in A + B;
      ChildrenBeforeSnoc(A + B, e);
    case Literal(_) =>
      assert PostOrder(e) == [] + [e];
      ChildrenBeforeSnoc([], e);
    case Grouping(g) =>
      var A := PostOrder(g.expr);
      ChildrenVisitedFirst(g.expr);
      assert A[|A| - 1] == g.expr;
      ChildrenBeforeSnoc(A, e);
    case Unary(u) =>
      var A := PostOrder(u.right);
      ChildrenVisitedFirst(u.right);
      assert A[|A| - 1] == u.right;
      ChildrenBeforeSnoc(A, e);
  }

  // ---------------------------------------------------------------------
  // Visit counts: each node is visited exactly once.
  // ---------------------------------------------------------------------

  datatype Counts = Counts(binary: nat, literal: nat, grouping: nat, unary: nat)
  {
    function Plus(other: Counts): Counts
    {
      Counts(binary + other.binary, literal + other.literal,
             grouping + other.grouping, unary + other.unary)
    }
  }

  const Zero := Counts(0, 0, 0, 0)

  lemma PlusZero(c: Counts)
    ensures c.Plus(Zero) == c
  {
  }

  lemma PlusAssoc(a: Counts, b: Counts, c: Counts)
    ensures a.Plus(b).Plus(c) == a.Plus(b.Plus(c))
  {
  }


  /** The number of nodes of each kind in a tree. */
  function NodeCounts(e: Expr): (c: Counts)
    ensures c.binary + c.literal + c.grouping + c.unary == Size(e)
    ensures c.literal >= 1
  {
    match e
    case Binary(b) => NodeCounts(b.left).Plus(NodeCounts(b.right)).Plus(Counts(1, 0, 0, 0))
    case Literal(_) => Counts(0, 1, 0, 0)
    case Grouping(g) => NodeCounts(g.expr).Plus(Counts(0, 0, 1, 0))
    case Unary(u) => NodeCounts(u.right).Plus(Counts(0, 0, 0, 1))
  }

  /** The counting visitor: each method bumps its own counter and returns it. */
  function CountingVisitor(): Visitor<Counts, nat>
  {
    Visitor(
      (c: Counts, _: BinaryExpr) => (c.(binary := c.binary + 1), c.binary + 1),
      (c: Counts, _: LiteralExpr) => (c.(literal := c.literal + 1), c.literal + 1),
      (c: Counts, _: GroupingExpr) => (c.(grouping := c.grouping + 1), c.grouping + 1),
      (c: Counts, _: UnaryExpr) => (c.(unary := c.unary + 1), c.unary + 1))
  }

  /** The counts of a single node: one, in the counter of its kind. */
  function OwnCount(e: Expr): Counts
  {
    match e
    case Binary(_) => Counts(1, 0, 0, 0)
    case Literal(_) => Counts(0, 1, 0, 0)
    case Grouping(_) => Counts(0, 0, 1, 0)
    case Unary(_) => Counts(0, 0, 0, 1)
  }

  /** One dispatch to the counting visitor adds one to the counter of the node's kind. */
  lemma CountingStep(c: Counts, e: Expr)
    ensures Dispatch(CountingVisitor(), c, e).0 == c.Plus(OwnCount(e))
  {
  }

  /** The per-kind counts of a node sequence. */
  function SumOwn(nodes: seq<Expr>): Counts
    decreases |nodes|
  {
    if |nodes| == 0 then Zero else OwnCount(nodes[0]).Plus(SumOwn(nodes[1..]))
  }

  lemma {:induction false} SumOwnAppend(a: seq<Expr>, b: seq<Expr>)
    ensures SumOwn(a + b) == SumOwn(a).Plus(SumOwn(b))
    decreases |a|
  {
    if |a| == 0 {
      assert a + b == b;
    } else {
      assert (a + b)[0] == a[0];
      assert (a + b)[1..] == a[1..] + b;
      SumOwnAppend(a[1..], b);
      PlusAssoc(OwnCount(a[0]), SumOwn(a[1..]), SumOwn(b));
    }
  }

  lemma SumOwnSingle(e: Expr)
    ensures SumOwn([e]) == OwnCount(e)
  {
    assert [e][1..] == [];
    PlusZero(OwnCount(e));
  }

  /** The reference counts are those of the post-order node sequence. */
  lemma {:induction false} NodeCountsOfPostOrder(e: Expr)
    ensures NodeCounts(e) == SumOwn(PostOrder(e))
    decreases e
  {
    SumOwnSingle(e);
    match e
    case Binary(b) =>
      var A, B := PostOrder(b.left), PostOrder(b.right);
      NodeCountsOfPostOrder(b.left);
      NodeCountsOfPostOrder(b.right);
      SumOwnAppend(A, B);
      SumOwnAppend(A + B, [e]);
      assert SumOwn(PostOrder(e)) == SumOwn(A).Plus(SumOwn(B)).Plus(OwnCount(e));
    case Literal(_) =>
    case Grouping(g) =>
      NodeCountsOfPostOrder(g.expr);
      SumOwnAppend(PostOrder(g.expr), [e]);
      assert SumOwn(PostOrder(e)) == SumOwn(PostOrder(g.expr)).Plus(OwnCount(e));
    case Unary(u) =>
      NodeCountsOfPostOrder(u.right);
      SumOwnAppend(PostOrder(u.right), [e]);
      assert SumOwn(PostOrder(e)) == SumOwn(PostOrder(u.right)).Plus(OwnCount(e));
  }

  /** Each dispatch adds one to the counter of the node's kind. */
  ghost predicate Counting<R>(v: Visitor<Counts, R>)
  {
    forall c, e :: Dispatch(v, c, e).0 == c.Plus(OwnCount(e))
  }

  /** A counting visitor fed a node sequence adds that sequence's counts. */
  lemma {:induction false} RunCounts<R>(v: Visitor<Counts, R>, c: Counts, nodes: seq<Expr>)
    requires Counting(v)
    ensures Run(v, c, nodes) == c.Plus(SumOwn(nodes))
    decreases |nodes|
  {
    if |nodes| > 0 {
      RunCounts(v, c.Plus(OwnCount(nodes[0])), nodes[1..]);
    }
  }

  /** A visitor that counts each dispatch ends with the tree's per-kind node counts. */
  lemma CountsNodes<R>(e: Expr, v: Visitor<Counts, R>, c: Counts)
    requires Counting(v)
    ensures Accept(e, v, c).0 == c.Plus(NodeCounts(e))
  {
    AcceptIsPostOrder(e, v, c);
    RunCounts(v, c, PostOrder(e));
    NodeCountsOfPostOrder(e);
  }

  /** Visit counts per kind equal node counts per kind: each node is visited exactly once. */
  lemma CountingVisitorCountsNodes(e: Expr, c: Counts)
    ensures Accept(e, CountingVisitor(), c).0 == c.Plus(NodeCounts(e))
  {
    forall c', n
      ensures Dispatch(CountingVisitor(), c', n).0 == c'.Plus(OwnCount(n))
    {
      CountingStep(c', n);
    }
    CountsNodes(e, CountingVisitor(), c);
  }

  /** The tracing visitor: its state records the nodes it was shown, in order. */
  function TracingVisitor(): Visitor<seq<Expr>, ()>
  {
    Visitor(
      (t: seq<Expr>, b: BinaryExpr) => (t + [Binary(b)], ()),
      (t: seq<Expr>, l: LiteralExpr) => (t + [Literal(l)], ()),
      (t: seq<Expr>, g: GroupingExpr) => (t + [Grouping(g)], ()),
      (t: seq<Expr>, u: UnaryExpr) => (t + [Unary(u)], ()))
  }

  /** One dispatch to the tracing visitor appends the node to the trace. */
  lemma TracingStep(t: seq<Expr>, e: Expr)
    ensures Dispatch(TracingVisitor(), t, e).0 == t + [e]
  {
  }

  /** Fed a node sequence, the tracing visitor appends exactly that sequence. */
  lemma {:induction false} RunTraces(t: seq<Expr>, nodes: seq<Expr>)
    ensures Run(TracingVisitor(), t, nodes) == t + nodes
    decreases |nodes|
  {
    if |nodes| > 0 {
      TracingStep(t, nodes[0]);
      RunTraces(t + [nodes[0]], nodes[1..]);
      assert t + [nodes[0]] + nodes[1..] == t + nodes;
    }
  }

  /** The trace `accept` leaves is exactly the post-order node sequence. */
  lemma TraceIsPostOrder(e: Expr, t: seq<Expr>)
    ensures Accept(e, TracingVisitor(), t).0 == t + PostOrder(e)
  {
    AcceptIsPostOrder(e, TracingVisitor(), t);
    RunTraces(t, PostOrder(e));
  }

  /** The tree of `1 + 2` visits one Binary and two Literals. */
  lemma OnePlusTwoCounts(one: F64, two: F64)
    ensures
      var plus := NewToken(Plus, "+", Wrappers.None, 1);
      var e := MakeBinary(Literal(LiteralExpr(NumberLit(one))), plus, Literal(LiteralExpr(NumberLit(two))));
      Accept(e, CountingVisitor(), Zero).0 == Counts(1, 2, 0, 0)
  {
  }

  /** The tree of `-2` visits one Unary and one Literal. */
  lemma MinusTwoCounts(two: F64)
    ensures
      var minus := NewToken(Minus, "-", Wrappers.None, 1);
      var e := Unary(UnaryExpr(minus, Literal(LiteralExpr(NumberLit(two)))));
      Accept(e, CountingVisitor(), Zero).0 == Counts(0, 1, 0, 1)
  {
  }
}
