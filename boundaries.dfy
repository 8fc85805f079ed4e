/** Boundary extraction: the set of numeric literals that appear as
    comparators (operands to the right of an operator) of Compare nodes,
    anywhere in a tree.  `Boundaries` is the specification; the class
    `BoundaryExtractor` is the visitor that accumulates it in a field. */
module BoundaryExtraction {
  import opened Wrappers
  import opened Syntax

  /** The values the comparators of one Compare node contribute: exactly the
      numeric literals among them. */
  function ComparatorValues(cs: seq<Node>): (vs: set<int>)
    ensures forall v :: v in vs <==> exists c :: c in cs && NumericLiteral(c) == Some(v)
  {
    set c | c in cs && NumericLiteral(c).Some? :: NumericLiteral(c).value
  }

  /** What a node adds by itself, before its children are visited. */
  function OwnBoundaries(n: Node): (own: set<int>)
  {
    if n.Compare? then ComparatorValues(n.comparators) else {}
  }

  /** The boundary set of a whole tree: the node's own contribution and
      that of every child, in the order a generic visit walks them. */
  function Boundaries(n: Node): (bs: set<int>)
    decreases n, 1, 0
  {
    OwnBoundaries(n) + ChildBoundaries(n, |Children(n)|)
  }

  /** The boundaries of the first `k` children of `parent`. */
  function ChildBoundaries(parent: Node, k: nat): (bs: set<int>)
    requires k <= |Children(parent)|
    decreases parent, 0, k
  {
    if k == 0 then {}
    else ChildBoundaries(parent, k - 1) + Boundaries(Children(parent)[k - 1])
  }

  /** One more child adds its own boundaries. */
  lemma ChildBoundariesStep(parent: Node, i: nat)
    requires i < |Children(parent)|
    ensures ChildBoundaries(parent, i + 1) == ChildBoundaries(parent, i) + Boundaries(Children(parent)[i])
  {
  }

  // ---------------------------------------------------------------------
  // An independent reference definition: every node of the tree, and the
  // literals found among the comparators of the Compare nodes among them.

  /** The tree itself and all of its descendants. */
  ghost function Subtrees(n: Node): (nodes: set<Node>)
    decreases n, 1, 0
  {
    {n} + SubtreesFrom(n, |Children(n)|)
  }

  /** The subtrees of the first `k` children of `parent`. */
  ghost function SubtreesFrom(parent: Node, k: nat): (nodes: set<Node>)
    requires k <= |Children(parent)|
    decreases parent, 0, k
  {
    if k == 0 then {}
    else SubtreesFrom(parent, k - 1) + Subtrees(Children(parent)[k - 1])
  }

  lemma SubtreesFromStep(parent: Node, i: nat)
    requires i < |Children(parent)|
    ensures SubtreesFrom(parent, i + 1) == SubtreesFrom(parent, i) + Subtrees(Children(parent)[i])
  {
  }

  /** The numeric literals among the comparators of the Compare nodes in `nodes`. */
  ghost function ComparisonLiterals(nodes: set<Node>): (vs: set<int>)
  {
    set s, v | s in nodes && v in OwnBoundaries(s) :: v
  }

  lemma ComparisonLiteralsUnion(a: set<Node>, b: set<Node>)
    ensures ComparisonLiterals(a + b) == ComparisonLiterals(a) + ComparisonLiterals(b)
  {
  }

  lemma ComparisonLiteralsSingleton(n: Node)
    ensures ComparisonLiterals({n}) == OwnBoundaries(n)
  {
    assert forall v :: v in OwnBoundaries(n) ==> v in ComparisonLiterals({n});
  }

  /** The extractor's result is exactly the reference set. */
  lemma {:induction false} BoundariesAreComparisonLiterals(n: Node)
    ensures Boundaries(n) == ComparisonLiterals(Subtrees(n))
    decreases n, 1, 0
  {
    ChildBoundariesAreComparisonLiterals(n, |Children(n)|);
    ComparisonLiteralsUnion({n}, SubtreesFrom(n, |Children(n)|));
    ComparisonLiteralsSingleton(n);
  }

  lemma {:induction false} ChildBoundariesAreComparisonLiterals(parent: Node, k: nat)
    requires k <= |Children(parent)|
    ensures ChildBoundaries(parent, k) == ComparisonLiterals(SubtreesFrom(parent, k))
    decreases parent, 0, k
  {
    if k > 0 {
      var j := k - 1;
      var c := Children(parent)[j];
      var before, here := SubtreesFrom(parent, j), Subtrees(c);
      ChildBoundariesStep(parent, j);
      SubtreesFromStep(parent, j);
      BoundariesAreComparisonLiterals(c);
      ChildBoundariesAreComparisonLiterals(parent, j);
      ComparisonLiteralsUnion(before, here);
    } else {
      assert ComparisonLiterals({}) == {};
    }
  }

  /** A value is a boundary of a tree if and only if it is a numeric literal
      standing as a comparator of some Compare node of that tree. */
  lemma BoundaryCharacterization(n: Node, v: int)
    ensures v in Boundaries(n) <==>
      exists s :: s in Subtrees(n) && s.Compare? && v in ComparatorValues(s.comparators)
  {
    BoundariesAreComparisonLiterals(n);
    if v in Boundaries(n) {
      var s :| s in Subtrees(n) && v in OwnBoundaries(s);
      assert s.Compare? && v in ComparatorValues(s.comparators);
    }
    if exists s :: s in Subtrees(n) && s.Compare? && v in ComparatorValues(s.comparators) {
      var s :| s in Subtrees(n) && s.Compare? && v in ComparatorValues(s.comparators);
      assert v in OwnBoundaries(s);
    }
  }

  // ---------------------------------------------------------------------
  // Set semantics: order and repetition of children do not matter.

  /** Every boundary of the first `k` children comes from one of them. */
  lemma {:induction false} ChildBoundariesWitness(parent: Node, k: nat, v: int) returns (i: nat)
    requires k <= |Children(parent)|
    requires v in ChildBoundaries(parent, k)
    ensures i < k && v in Boundaries(Children(parent)[i])
    decreases k
  {
    var j := k - 1;
    if v in Boundaries(Children(parent)[j]) {
      i := j;
    } else {
      i := ChildBoundariesWitness(parent, j, v);
    }
  }

  /** Every boundary of one of the first `k` children is among theirs. */
  lemma {:induction false} ChildBoundariesComplete(parent: Node, k: nat, i: nat, v: int)
    requires i < k <= |Children(parent)|
    requires v in Boundaries(Children(parent)[i])
    ensures v in ChildBoundaries(parent, k)
    decreases k
  {
    var j := k - 1;
    if i < j {
      ChildBoundariesComplete(parent, j, i, v);
    }
  }

  /** The boundaries of the first `k` children are the union of those
      children's boundaries. */
  lemma ChildBoundariesMembers(parent: Node, k: nat, v: int)
    requires k <= |Children(parent)|
    ensures v in ChildBoundaries(parent, k) <==>
      exists j :: 0 <= j < k && v in Boundaries(Children(parent)[j])
  {
    if v in ChildBoundaries(parent, k) {
      var i := ChildBoundariesWitness(parent, k, v);
    }
    if exists j :: 0 <= j < k && v in Boundaries(Children(parent)[j]) {
      var j :| 0 <= j < k && v in Boundaries(Children(parent)[j]);
      ChildBoundariesComplete(parent, k, j, v);
    }
  }

  /** Two statement lists holding the same statements, in any order and with
      any repetition, yield the same boundaries. */
  lemma SameStatementsSameBoundaries(xs: seq<Node>, ys: seq<Node>)
    requires forall x :: x in xs <==> x in ys
    ensures Boundaries(Module(xs)) == Boundaries(Module(ys))
  {
    ModuleBoundaries(xs);
    ModuleBoundaries(ys);
    forall v | v in Boundaries(Module(xs))
      ensures v in Boundaries(Module(ys))
    {
      var j := ChildBoundariesWitness(Module(xs), |xs|, v);
      assert xs[j] in ys;
      var k :| 0 <= k < |ys| && ys[k] == xs[j];
      ChildBoundariesComplete(Module(ys), |ys|, k, v);
    }
    forall v | v in Boundaries(Module(ys))
      ensures v in Boundaries(Module(xs))
    {
      var k := ChildBoundariesWitness(Module(ys), |ys|, v);
      assert ys[k] in xs;
      var j :| 0 <= j < |xs| && xs[j] == ys[k];
      ChildBoundariesComplete(Module(xs), |xs|, j, v);
    }
  }

  lemma ModuleBoundaries(xs: seq<Node>)
    ensures Children(Module(xs)) == xs
    ensures Boundaries(Module(xs)) == ChildBoundaries(Module(xs), |xs|)
  {
  }

  /** The same comparison written twice yields what one copy yields. */
  lemma DuplicateComparisonCollapses(s: Node)
    ensures Boundaries(Module([s, s])) == Boundaries(Module([s]))
  {
    SameStatementsSameBoundaries([s, s], [s]);
  }

  /** Visit order does not matter. */
  lemma OrderIrrelevant(a: seq<Node>, b: seq<Node>)
    ensures Boundaries(Module(a + b)) == Boundaries(Module(b + a))
  {
    SameStatementsSameBoundaries(a + b, b + a);
  }

  // ---------------------------------------------------------------------
  // What contributes nothing by itself.

  /** A node that is not a comparison adds only what its children add. */
  lemma NonComparisonAddsNothing(n: Node, v: int)
    requires !n.Compare?
    ensures v in Boundaries(n) <==>
      exists j :: 0 <= j < |Children(n)| && v in Boundaries(Children(n)[j])
  {
    ChildBoundariesMembers(n, |Children(n)|, v);
  }

  /** Two nodes whose children pairwise have the same boundaries have the
      same child boundaries. */
  lemma ChildBoundariesCongruent(n: Node, n': Node)
    requires |Children(n)| == |Children(n')|
    requires forall j :: 0 <= j < |Children(n)| ==> Boundaries(Children(n)[j]) == Boundaries(Children(n')[j])
    ensures ChildBoundaries(n, |Children(n)|) == ChildBoundaries(n', |Children(n')|)
  {
    var k := |Children(n)|;
    forall v ensures v in ChildBoundaries(n, k) <==> v in ChildBoundaries(n', k) {
      ChildBoundariesMembers(n, k, v);
      ChildBoundariesMembers(n', k, v);
    }
  }

  /** The left operand of a comparison contributes only its own nested
      comparisons: replacing it by one with the same boundaries, a literal
      by a name say, leaves the result unchanged. */
  lemma LeftOperandIgnored(l: Node, l': Node, ops: seq<CmpOp>, cs: seq<Node>)
    requires Boundaries(l) == Boundaries(l')
    ensures Boundaries(Compare(l, ops, cs)) == Boundaries(Compare(l', ops, cs))
  {
    var n, n' := Compare(l, ops, cs), Compare(l', ops, cs);
    CompareChildren(l, ops, cs);
    CompareChildren(l', ops, cs);
    forall j | 0 <= j < |Children(n)|
      ensures Boundaries(Children(n)[j]) == Boundaries(Children(n')[j])
    {
      if j > 0 {
        assert Children(n)[j] == cs[j - 1] == Children(n')[j];
      }
    }
    ChildBoundariesCongruent(n, n');
  }

  /** Leaves carry no boundaries: a constant or a name on its own adds nothing. */
  lemma LeavesHaveNoBoundaries(n: Node)
    requires n.Constant? || n.Name?
    ensures Boundaries(n) == {}
  {
  }

  /** A comparator that is not a numeric literal (a name, an arithmetic
      expression, a string, a negated literal) adds only the boundaries
      nested inside it. */
  lemma NonLiteralComparatorIgnored(l: Node, ops: seq<CmpOp>, cs: seq<Node>, c: Node)
    requires NumericLiteral(c).None?
    ensures Boundaries(Compare(l, ops, cs + [c])) == Boundaries(Compare(l, ops, cs)) + Boundaries(c)
  {
    var n, n' := Compare(l, ops, cs + [c]), Compare(l, ops, cs);
    CompareChildren(l, ops, cs + [c]);
    CompareChildren(l, ops, cs);
    ConcatAssociative([l], cs, [c]);
    BoundariesByChildren(n);
    BoundariesByChildren(n');
    ComparatorValuesAppend(cs, c);
    BlockBoundariesAppend(Children(n'), [c]);
    BlockBoundariesSingleton(c);
    UnionAssociative(OwnBoundaries(n'), BlockBoundaries(Children(n')), Boundaries(c));
  }

  // ---------------------------------------------------------------------
  // Boundaries node kind by node kind, for computing them on given trees.

  /** The boundaries of a list of nodes: the union of theirs. */
  ghost function BlockBoundaries(ns: seq<Node>): (bs: set<int>)
  {
    if ns == [] then {} else Boundaries(ns[0]) + BlockBoundaries(ns[1..])
  }

  lemma {:induction false} ChildBoundariesBlock(n: Node, k: nat)
    requires k <= |Children(n)|
    ensures ChildBoundaries(n, k) == BlockBoundaries(Children(n)[..k])
    decreases k
  {
    if k > 0 {
      var j := k - 1;
      var cs := Children(n);
      ChildBoundariesBlock(n, j);
      ChildBoundariesStep(n, j);
      PrefixStep(cs, j);
      BlockBoundariesAppend(cs[..j], [cs[j]]);
      BlockBoundariesSingleton(cs[j]);
    }
  }

  /** A node's boundaries are its own and those of the list of its children. */
  lemma BoundariesByChildren(n: Node)
    ensures Boundaries(n) == OwnBoundaries(n) + BlockBoundaries(Children(n))
  {
    ChildBoundariesBlock(n, |Children(n)|);
    assert Children(n)[..|Children(n)|] == Children(n);
  }

  lemma {:induction false} BlockBoundariesAppend(a: seq<Node>, b: seq<Node>)
    ensures BlockBoundaries(a + b) == BlockBoundaries(a) + BlockBoundaries(b)
  {
    if a != [] {
      BlockBoundariesAppend(a[1..], b);
      assert (a + b)[1..] == a[1..] + b;
    } else {
      assert a + b == b;
    }
  }

  lemma BlockBoundariesSingleton(x: Node)
    ensures BlockBoundaries([x]) == Boundaries(x)
  {
    assert [x][1..] == [];
  }

  /** One comparison between two nodes without boundaries of their own
      yields the right operand's value if it is a numeric literal, and
      nothing otherwise. */
  lemma SimpleComparison(l: Node, op: CmpOp, c: Node)
    requires Boundaries(l) == {} && Boundaries(c) == {}
    ensures Boundaries(Compare(l, [op], [c])) ==
      if NumericLiteral(c).Some? then {NumericLiteral(c).value} else {}
  {
    var n := Compare(l, [op], [c]);
    CompareChildren(l, [op], [c]);
    ComparatorValuesSingleton(c);
    BoundariesByChildren(n);
    BlockBoundariesAppend([l], [c]);
    BlockBoundariesSingleton(l);
    BlockBoundariesSingleton(c);
  }

  lemma ComparatorValuesSingleton(c: Node)
    ensures ComparatorValues([c]) == if NumericLiteral(c).Some? then {NumericLiteral(c).value} else {}
  {
    ComparatorValuesAppend([], c);
    assert [] + [c] == [c];
  }

  /** A list of nodes none of which holds a boundary holds none. */
  lemma {:induction false} BlockBoundariesEmpty(ns: seq<Node>)
    requires forall i :: 0 <= i < |ns| ==> Boundaries(ns[i]) == {}
    ensures BlockBoundaries(ns) == {}
    decreases |ns|
  {
    if ns != [] {
      var rest := ns[1..];
      assert forall i :: 0 <= i < |rest| ==> rest[i] == ns[i + 1];
      BlockBoundariesEmpty(rest);
    }
  }

  /** A comparison, possibly chained, whose operands hold no comparisons of
      their own yields exactly the numeric literals among its comparators. */
  lemma FlatComparison(l: Node, ops: seq<CmpOp>, cs: seq<Node>)
    requires Boundaries(l) == {}
    requires forall i :: 0 <= i < |cs| ==> Boundaries(cs[i]) == {}
    ensures Boundaries(Compare(l, ops, cs)) == ComparatorValues(cs)
  {
    CompareChildren(l, ops, cs);
    BoundariesByChildren(Compare(l, ops, cs));
    BlockBoundariesAppend([l], cs);
    BlockBoundariesSingleton(l);
    BlockBoundariesEmpty(cs);
  }

  /** A comparator appended to a chain adds its value if it is a numeric
      literal. */
  lemma ComparatorValuesAppend(cs: seq<Node>, c: Node)
    ensures ComparatorValues(cs + [c]) ==
      ComparatorValues(cs) + if NumericLiteral(c).Some? then {NumericLiteral(c).value} else {}
  {
    forall v | v in ComparatorValues(cs)
      ensures v in ComparatorValues(cs + [c])
    {
      var d :| d in cs && NumericLiteral(d) == Some(v);
      assert d in cs + [c];
    }
    assert c in cs + [c];
  }

  lemma IfBoundaries(test: Node, body: seq<Node>, orelse: seq<Node>)
    ensures Boundaries(If(test, body, orelse)) == Boundaries(test) + BlockBoundaries(body) + BlockBoundaries(orelse)
  {
    BoundariesByChildren(If(test, body, orelse));
    BlockBoundariesAppend([test] + body, orelse);
    BlockBoundariesAppend([test], body);
    BlockBoundariesSingleton(test);
  }

  /** Arithmetic contributes only what its operands hold. */
  lemma BinOpBoundaries(l: Node, op: BinOperator, r: Node)
    ensures Boundaries(BinOp(l, op, r)) == Boundaries(l) + Boundaries(r)
  {
    BoundariesByChildren(BinOp(l, op, r));
    BlockBoundariesAppend([l], [r]);
    BlockBoundariesSingleton(l);
    BlockBoundariesSingleton(r);
  }

  lemma UnaryOpBoundaries(u: UnaryOperator, x: Node)
    ensures Boundaries(UnaryOp(u, x)) == Boundaries(x)
  {
    BoundariesByChildren(UnaryOp(u, x));
    BlockBoundariesSingleton(x);
  }

  lemma StatementBoundaries(x: Node)
    ensures Boundaries(Return(Some(x))) == Boundaries(x)
    ensures Boundaries(Expr(x)) == Boundaries(x)
  {
    BoundariesByChildren(Return(Some(x)));
    BoundariesByChildren(Expr(x));
    BlockBoundariesSingleton(x);
  }

  lemma DefinitionBoundaries(name: string, params: seq<string>, body: seq<Node>)
    ensures Boundaries(Module(body)) == BlockBoundaries(body)
    ensures Boundaries(FunctionDef(name, params, body, [])) == BlockBoundaries(body)
  {
    BoundariesByChildren(Module(body));
    BoundariesByChildren(FunctionDef(name, params, body, []));
    assert body + [] == body;
  }

  // ---------------------------------------------------------------------
  // The visitor, which accumulates the set in a field.

  /** A prefix one longer is the shorter one and the next element. */
  lemma PrefixStep(s: seq<Node>, i: nat)
    requires i < |s|
    ensures s[..i + 1] == s[..i] + [s[i]]
  {
  }

  lemma CompareChildren(l: Node, ops: seq<CmpOp>, cs: seq<Node>)
    ensures Children(Compare(l, ops, cs)) == [l] + cs
  {
  }

  lemma ConcatAssociative(a: seq<Node>, b: seq<Node>, c: seq<Node>)
    ensures a + (b + c) == a + b + c
  {
  }

  /** Set union regrouped; stated once so that the visitor's proofs need
      not rediscover it. */
  lemma UnionAssociative(a: set<int>, b: set<int>, c: set<int>)
    ensures a + b + c == a + (b + c)
  {
  }

  class BoundaryExtractor {
    var boundaries: set<int>

    constructor ()
      ensures boundaries == {}
    {
      boundaries := {};
    }

    /** Dispatch by node kind: comparisons get their own visit, every other
        node the generic one. */
    method Visit(node: Node)
      modifies this
      ensures boundaries == old(boundaries) + Boundaries(node)
      decreases node, 2
    {
      if node.Compare? {
        VisitCompare(node);
      } else {
        GenericVisit(node);
      }
    }

    /** Add each numeric-literal comparator, then visit the children. */
    method VisitCompare(node: Node)
      requires node.Compare?
      modifies this
      ensures boundaries == old(boundaries) + Boundaries(node)
      decreases node, 1
    {
      var comparators := node.comparators;
      for i := 0 to |comparators|
        invariant boundaries == old(boundaries) + ComparatorValues(comparators[..i])
      {
        var literal := NumericLiteral(comparators[i]);
        if literal.Some? {
          boundaries := boundaries + {literal.value};
        }
        PrefixStep(comparators, i);
      }
      assert comparators[..|comparators|] == comparators;
      GenericVisit(node);
    }

    /** Visit every child in field order. */
    method GenericVisit(node: Node)
      modifies this
      ensures boundaries == old(boundaries) + ChildBoundaries(node, |Children(node)|)
      decreases node, 0
    {
      var children := Children(node);
      for i := 0 to |children|
        invariant boundaries == old(boundaries) + ChildBoundaries(node, i)
      {
        var child := children[i];
        Visit(child);
        ChildBoundariesStep(node, i);
        UnionAssociative(old(boundaries), ChildBoundaries(node, i), Boundaries(child));
      }
    }
  }
}
