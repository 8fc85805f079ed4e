/** The driver: take the parsed function (or nothing, when its source could
    not be retrieved), extract and sort its boundaries, stop when there are
    none, otherwise build the partitions and run the target function on each
    representative. */
module Pipeline {
  import opened Wrappers
  import opened Syntax
  import opened BoundaryExtraction
  import opened PartitionSynthesis

  /** One line of the report: the class, the input tried, what the target
      function returned for it. */
  datatype Row = Row(classRange: Label, input: int, observed: string)

  /** The three ways a run ends. */
  datatype Outcome =
    | SourceUnavailable
    | NoBoundaries
    | Report(rows: seq<Row>)

  /** Running the target on the representative of every partition, in order. */
  function Observe(ps: seq<Partition>, target: int -> string): (rows: seq<Row>)
  {
    seq(|ps|, i requires 0 <= i < |ps| =>
      Row(ps[i].classRange, ps[i].representative, target(ps[i].representative)))
  }

  /** The result of a whole run, as a function of the parsed source. */
  function EquivalenceClasses(source: Option<Node>, target: int -> string): (outcome: Outcome)
  {
    match source
    case None => SourceUnavailable
    case Some(tree) =>
      var sorted := SortedBoundaries(Boundaries(tree));
      if sorted == [] then NoBoundaries else Report(Observe(Partitions(sorted), target))
  }

  /** The reporting loop: one row per partition, the target applied to its
      representative. */
  method RunPartitions(partitions: seq<Partition>, target: int -> string) returns (rows: seq<Row>)
    ensures |rows| == |partitions|
    ensures forall i :: 0 <= i < |rows| ==>
      rows[i].classRange == partitions[i].classRange &&
      rows[i].input == partitions[i].representative &&
      rows[i].observed == target(partitions[i].representative)
  {
    rows := [];
    for i := 0 to |partitions|
      invariant |rows| == i
      invariant forall k :: 0 <= k < i ==>
        rows[k].classRange == partitions[k].classRange &&
        rows[k].input == partitions[k].representative &&
        rows[k].observed == target(partitions[k].representative)
    {
      var p := partitions[i];
      var actualOutput := target(p.representative);
      rows := rows + [Row(p.classRange, p.representative, actualOutput)];
    }
  }

  /** The whole run. */
  method GenerateEquivalenceClasses(source: Option<Node>, target: int -> string) returns (outcome: Outcome)
    ensures outcome == EquivalenceClasses(source, target)
  {
    if source.None? {
      return SourceUnavailable;
    }
    var tree := source.value;
    var extractor := new BoundaryExtractor();
    extractor.Visit(tree);
    var sortedBoundaries := SortedBoundaries(extractor.boundaries);
    if sortedBoundaries == [] {
      return NoBoundaries;
    }
    var partitions := BuildPartitions(sortedBoundaries);
    var rows := RunPartitions(partitions, target);
    assert rows == Observe(partitions, target);
    outcome := Report(rows);
  }

  // ---------------------------------------------------------------------
  // Properties of a run.

  /** A run stops without partitions exactly when the source is unavailable
      or holds no boundary; only a report invokes the target at all. */
  lemma OutcomeKinds(source: Option<Node>, target: int -> string)
    ensures EquivalenceClasses(source, target).SourceUnavailable? <==> source.None?
    ensures EquivalenceClasses(source, target).NoBoundaries? <==>
      source.Some? && Boundaries(source.value) == {}
  {
    if source.Some? {
      var s := Boundaries(source.value);
      var sorted := SortedBoundaries(s);
      if s != {} {
        HasElement(s);
        var x :| x in s;
        assert x in sorted;
      }
    }
  }

  /** When the tree has boundaries, the run reports one row per partition
      of its sorted boundaries. */
  lemma ReportRows(tree: Node, target: int -> string)
    requires Boundaries(tree) != {}
    ensures EquivalenceClasses(Some(tree), target).Report?
    ensures EquivalenceClasses(Some(tree), target).rows ==
      Observe(Partitions(SortedBoundaries(Boundaries(tree))), target)
  {
    OutcomeKinds(Some(tree), target);
  }

  /** A report has one row per boundary plus one, and each row records what
      the target returned for its input, which lies in the row's own class. */
  lemma ReportRowsInClass(tree: Node, target: int -> string)
    requires Boundaries(tree) != {}
    ensures EquivalenceClasses(Some(tree), target).Report?
    ensures var rows := EquivalenceClasses(Some(tree), target).rows;
      && |rows| == |Boundaries(tree)| + 1
      && forall i :: 0 <= i < |rows| ==>
           InClass(rows[i].classRange, rows[i].input) && rows[i].observed == target(rows[i].input)
  {
    ReportRows(tree, target);
    RepresentativesInClass(SortedBoundaries(Boundaries(tree)));
  }

  /** The inputs of a report strictly increase, the first lies below and the
      last above every boundary. */
  lemma ReportInputsOrdered(tree: Node, target: int -> string)
    requires Boundaries(tree) != {}
    ensures EquivalenceClasses(Some(tree), target).Report?
    ensures var rows := EquivalenceClasses(Some(tree), target).rows;
      && |rows| > 1
      && (forall i, j :: 0 <= i < j < |rows| ==> rows[i].input < rows[j].input)
      && (forall b :: b in Boundaries(tree) ==> rows[0].input < b < rows[|rows| - 1].input)
  {
    ReportRows(tree, target);
    var sorted := SortedBoundaries(Boundaries(tree));
    RepresentativesIncreasing(sorted);
    ExtremeRepresentatives(sorted);
  }

  /** The classes of a report cover the number line without overlap: a
      number lies in the class of exactly one row, the one ClassIndex names. */
  lemma ReportCovers(tree: Node, target: int -> string, x: int)
    requires Boundaries(tree) != {}
    ensures EquivalenceClasses(Some(tree), target).Report?
    ensures var rows := EquivalenceClasses(Some(tree), target).rows;
      forall i :: 0 <= i < |rows| ==>
        (InClass(rows[i].classRange, x) <==> i == ClassIndex(SortedBoundaries(Boundaries(tree)), x))
  {
    ReportRows(tree, target);
    PartitionsCover(SortedBoundaries(Boundaries(tree)), x);
  }
}
