/** The sample function the driver analyses, its parsed form, and the run
    on it worked out end to end. */
module Sample {
  import opened Wrappers
  import opened Syntax
  import opened BoundaryExtraction
  import opened PartitionSynthesis
  import opened Pipeline

  /** The age-pricing threshold chain.  Each price is returned on exactly
      one range of ages. */
  function DeterminePrice(age: int): (price: string)
    ensures price == "Invalid Age" <==> age < 0
    ensures price == "Free (Infant)" <==> 0 <= age < 3
    ensures price == "Child Price" <==> 3 <= age <= 12
    ensures price == "Adult Price" <==> 12 < age < 60
    ensures price == "Senior Price" <==> 60 <= age
  {
    if age < 0 then "Invalid Age"
    else if age < 3 then "Free (Infant)"
    else if age <= 12 then "Child Price"
    else if age < 60 then "Adult Price"
    else "Senior Price"
  }

  const Docstring: string :=
    "\n    Assumptions:\n    - Input is an integer.\n    - Logic handles various age ranges.\n    "

  function Age(): Node { Name("age") }

  function Answer(s: string): Node { Return(Some(Constant(StrConst(s)))) }

  /** One link of the if/elif chain: `if age <op> k: return s`, with the
      statements `rest` as its else branch. */
  function Link(op: CmpOp, k: int, s: string, rest: seq<Node>): seq<Node>
  {
    [If(Compare(Age(), [op], [Constant(IntConst(k))]), [Answer(s)], rest)]
  }

  /** The threshold chain of DeterminePrice as the parser nests it. */
  function PriceChain(): seq<Node>
  {
    Link(Lt, 0, "Invalid Age",
      Link(Lt, 3, "Free (Infant)",
        Link(LtE, 12, "Child Price",
          Link(Lt, 60, "Adult Price", [Answer("Senior Price")]))))
  }

  /** The parsed source of DeterminePrice: a module holding one function
      definition whose body is the docstring and the threshold chain. */
  const DeterminePriceTree: Node :=
    Module([FunctionDef("determine_price", ["age"], [Expr(Constant(StrConst(Docstring)))] + PriceChain(), [])])

  lemma AnswerBoundaries(s: string)
    ensures BlockBoundaries([Answer(s)]) == {}
  {
    LeavesHaveNoBoundaries(Constant(StrConst(s)));
    StatementBoundaries(Constant(StrConst(s)));
    BlockBoundariesSingleton(Answer(s));
  }

  lemma LinkBoundaries(op: CmpOp, k: int, s: string, rest: seq<Node>)
    ensures BlockBoundaries(Link(op, k, s, rest)) == {k} + BlockBoundaries(rest)
  {
    var test := Compare(Age(), [op], [Constant(IntConst(k))]);
    LeavesHaveNoBoundaries(Age());
    LeavesHaveNoBoundaries(Constant(IntConst(k)));
    SimpleComparison(Age(), op, Constant(IntConst(k)));
    AnswerBoundaries(s);
    IfBoundaries(test, [Answer(s)], rest);
    BlockBoundariesSingleton(If(test, [Answer(s)], rest));
  }

  lemma PriceChainBoundaries()
    ensures BlockBoundaries(PriceChain()) == {0, 3, 12, 60}
  {
    var senior := [Answer("Senior Price")];
    AnswerBoundaries("Senior Price");
    var from60 := Link(Lt, 60, "Adult Price", senior);
    LinkBoundaries(Lt, 60, "Adult Price", senior);
    var from12 := Link(LtE, 12, "Child Price", from60);
    LinkBoundaries(LtE, 12, "Child Price", from60);
    var from3 := Link(Lt, 3, "Free (Infant)", from12);
    LinkBoundaries(Lt, 3, "Free (Infant)", from12);
    LinkBoundaries(Lt, 0, "Invalid Age", from3);
  }

  /** The literals of the four comparisons are the boundaries; the
      docstring adds none. */
  lemma DeterminePriceBoundaries()
    ensures Boundaries(DeterminePriceTree) == {0, 3, 12, 60}
  {
    var doc := Expr(Constant(StrConst(Docstring)));
    LeavesHaveNoBoundaries(Constant(StrConst(Docstring)));
    StatementBoundaries(Constant(StrConst(Docstring)));
    BlockBoundariesSingleton(doc);
    PriceChainBoundaries();
    BlockBoundariesAppend([doc], PriceChain());
    var body := [doc] + PriceChain();
    var definition := FunctionDef("determine_price", ["age"], body, []);
    DefinitionBoundaries("determine_price", ["age"], body);
    BlockBoundariesSingleton(definition);
    DefinitionBoundaries("", [], [definition]);
  }

  /** Sorted, they are 0, 3, 12, 60. */
  lemma DeterminePriceSorted()
    ensures SortedBoundaries(Boundaries(DeterminePriceTree)) == [0, 3, 12, 60]
  {
    DeterminePriceBoundaries();
    SortedBoundariesOf(Boundaries(DeterminePriceTree), [0, 3, 12, 60]);
  }

  /** The five partitions: representatives -5, 1, 7, 36 and 65. */
  lemma DeterminePricePartitions()
    ensures Partitions([0, 3, 12, 60]) == [
      Partition(Below(0), -5, InvalidLow),
      Partition(Between(0, 3), 1, ValidMidRange),
      Partition(Between(3, 12), 7, ValidMidRange),
      Partition(Between(12, 60), 36, ValidMidRange),
      Partition(AtOrAbove(60), 65, ValidHigh)]
  {
  }

  /** The full report: five classes, and the price the function returns
      for the representative of each. */
  lemma DeterminePriceReport()
    ensures EquivalenceClasses(Some(DeterminePriceTree), DeterminePrice) == Report([
      Row(Below(0), -5, "Invalid Age"),
      Row(Between(0, 3), 1, "Free (Infant)"),
      Row(Between(3, 12), 7, "Child Price"),
      Row(Between(12, 60), 36, "Adult Price"),
      Row(AtOrAbove(60), 65, "Senior Price")])
  {
    DeterminePriceSorted();
    DeterminePricePartitions();
    DeterminePriceObserved();
  }

  lemma DeterminePriceObserved()
    ensures Observe([
      Partition(Below(0), -5, InvalidLow),
      Partition(Between(0, 3), 1, ValidMidRange),
      Partition(Between(3, 12), 7, ValidMidRange),
      Partition(Between(12, 60), 36, ValidMidRange),
      Partition(AtOrAbove(60), 65, ValidHigh)], DeterminePrice) == [
      Row(Below(0), -5, "Invalid Age"),
      Row(Between(0, 3), 1, "Free (Infant)"),
      Row(Between(3, 12), 7, "Child Price"),
      Row(Between(12, 60), 36, "Adult Price"),
      Row(AtOrAbove(60), 65, "Senior Price")]
  {
    var ps := [
      Partition(Below(0), -5, InvalidLow),
      Partition(Between(0, 3), 1, ValidMidRange),
      Partition(Between(3, 12), 7, ValidMidRange),
      Partition(Between(12, 60), 36, ValidMidRange),
      Partition(AtOrAbove(60), 65, ValidHigh)];
    var rows := Observe(ps, DeterminePrice);
    assert rows[0].observed == DeterminePrice(-5) == "Invalid Age";
    assert rows[1].observed == DeterminePrice(1) == "Free (Infant)";
    assert rows[2].observed == DeterminePrice(7) == "Child Price";
    assert rows[3].observed == DeterminePrice(36) == "Adult Price";
    assert rows[4].observed == DeterminePrice(65) == "Senior Price";
  }

  /** The labels are half-open whatever the operator: the `<=` comparison
      puts 12 into the class `12 <= Value < 60`, whose representative 36
      gets another price than 12 itself. */
  lemma InclusiveComparisonSplitsClass()
    ensures InClass(Between(12, 60), 12) && InClass(Between(12, 60), 36)
    ensures DeterminePrice(12) != DeterminePrice(36)
  {
  }

  /** `def increment(x): return x + 1` compares nothing, so a run stops
      with no boundaries and never calls the function. */
  const IncrementTree: Node :=
    Module([FunctionDef("increment", ["x"], [Return(Some(BinOp(Name("x"), Add, Constant(IntConst(1)))))], [])])

  lemma IncrementHasNoBoundaries(target: int -> string)
    ensures EquivalenceClasses(Some(IncrementTree), target) == NoBoundaries
  {
    var sum := BinOp(Name("x"), Add, Constant(IntConst(1)));
    LeavesHaveNoBoundaries(Name("x"));
    LeavesHaveNoBoundaries(Constant(IntConst(1)));
    BinOpBoundaries(Name("x"), Add, Constant(IntConst(1)));
    StatementBoundaries(sum);
    var body := [Return(Some(sum))];
    BlockBoundariesSingleton(body[0]);
    var definition := FunctionDef("increment", ["x"], body, []);
    DefinitionBoundaries("increment", ["x"], body);
    BlockBoundariesSingleton(definition);
    DefinitionBoundaries("", [], [definition]);
    assert IncrementTree == Module([definition]);
    OutcomeKinds(Some(IncrementTree), target);
  }

  /** Literals on the left, negated literals (parsed as a unary minus
      applied to a constant), names, arithmetic and strings on the right
      all contribute nothing. */
  lemma IgnoredOperands()
    ensures Boundaries(Compare(Constant(IntConst(18)), [Gt], [Age()])) == {}
    ensures Boundaries(Compare(Age(), [Lt], [UnaryOp(USub, Constant(IntConst(1)))])) == {}
    ensures Boundaries(Compare(Age(), [Lt], [BinOp(Name("limit"), Add, Constant(IntConst(1)))])) == {}
    ensures Boundaries(Compare(Name("s"), [Eq], [Constant(StrConst("18"))])) == {}
  {
    var one := Constant(IntConst(1));
    LeavesHaveNoBoundaries(Age());
    LeavesHaveNoBoundaries(Name("s"));
    LeavesHaveNoBoundaries(Name("limit"));
    LeavesHaveNoBoundaries(one);
    LeavesHaveNoBoundaries(Constant(IntConst(18)));
    LeavesHaveNoBoundaries(Constant(StrConst("18")));
    BinOpBoundaries(Name("limit"), Add, one);
    UnaryOpBoundaries(USub, one);
    SimpleComparison(Constant(IntConst(18)), Gt, Age());
    SimpleComparison(Age(), Lt, UnaryOp(USub, one));
    SimpleComparison(Age(), Lt, BinOp(Name("limit"), Add, one));
    SimpleComparison(Name("s"), Eq, Constant(StrConst("18")));
  }

  /** A chained comparison contributes every right-hand literal. */
  lemma ChainedComparison()
    ensures Boundaries(Compare(Constant(IntConst(0)), [LtE, Lt], [Age(), Constant(IntConst(100))])) == {100}
  {
    var zero, hundred := Constant(IntConst(0)), Constant(IntConst(100));
    var cs := [Age(), hundred];
    LeavesHaveNoBoundaries(zero);
    LeavesHaveNoBoundaries(Age());
    LeavesHaveNoBoundaries(hundred);
    FlatComparison(zero, [LtE, Lt], cs);
    ComparatorValuesSingleton(Age());
    ComparatorValuesAppend([Age()], hundred);
    assert [Age()] + [hundred] == cs;
  }

  /** A comparison nested inside a comparator is found too. */
  lemma NestedComparison()
    ensures Boundaries(Compare(Age(), [Eq], [Compare(Name("y"), [Gt], [Constant(IntConst(7))])])) == {7}
  {
    var seven := Constant(IntConst(7));
    var inner := Compare(Name("y"), [Gt], [seven]);
    LeavesHaveNoBoundaries(Age());
    LeavesHaveNoBoundaries(Name("y"));
    LeavesHaveNoBoundaries(seven);
    SimpleComparison(Name("y"), Gt, seven);
    FlatComparison(Age(), [Eq], []);
    NonLiteralComparatorIgnored(Age(), [Eq], [], inner);
    assert [] + [inner] == [inner];
  }

  /** A single boundary 18 yields two classes with representatives 13 and 23. */
  lemma SingleBoundary()
    ensures Partitions([18]) == [
      Partition(Below(18), 13, InvalidLow),
      Partition(AtOrAbove(18), 23, ValidHigh)]
  {
  }
}
