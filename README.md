# Equivalence-class generator: a Dafny model

`EquivalenceClassGen.py` generates black-box test inputs for an integer
function from the function's own source. An AST visitor, `BoundaryExtractor`,
collects every int or float literal (bools included) that stands to the
right of a comparison operator; the model restricts this to ints and bools
(see the floating-point line under "## Left out"). The driver `generate_equivalence_classes` sorts these boundaries and
cuts the number line into equivalence classes:

- one class below the smallest boundary;
- one class between each pair of neighbouring boundaries;
- one class at or above the largest boundary.

Each class gets a representative input: the smallest boundary minus 5, the
floor of the midpoint of two neighbours, or the largest boundary plus 5. The
driver then calls the function on every representative and reports what it
returned. The sample function `determine_price` is a chain of age thresholds.

The model has one module per part of the program:

- `Wrappers` (`wrappers.dfy`): the `Option` type.
- `Syntax` (`syntax.dfy`): the part of Python's `ast` the visitor walks. A
  `Node` datatype, `Children` (the nodes a generic visit enters, in field
  order) and `NumericLiteral` (the `isinstance` test at line 42).
- `BoundaryExtraction` (`boundaries.dfy`): two definitions of the boundary set
  and the visitor itself.
  - `Boundaries` is the specification function.
  - `ComparisonLiterals(Subtrees(n))` is an independent reference definition
    over all subtrees.
  - `BoundaryExtractor` is a class whose `boundaries: set<int>` field the
    visit methods update in place, as the source's object does. `Visit` and
    `VisitCompare` are proved to add exactly `Boundaries` of their node;
    `GenericVisit` adds the union of its children's.
- `PartitionSynthesis` (`partitions.dfy`): `SortedBoundaries` (Python's
  `sorted` on the set), the partitions as a function, and `BuildPartitions`,
  the append loop of lines 74-103, proved equal to that function.
- `Pipeline` (`pipeline.dfy`): the whole run as a function,
  `EquivalenceClasses`. `GenerateEquivalenceClasses` performs the same steps
  imperatively with the extractor object, and `RunPartitions` is the
  reporting loop.
- `Sample` (`sample.dfy`): `determine_price` and its parse tree, with the full
  run on it worked out, plus small trees for the extractor's edge cases.

The comparison `age <= 12` at line 18 makes 12, not 13, a boundary of the
sample function. Its boundaries are therefore {0, 3, 12, 60}, and the class
[3, 12) is represented by (3 + 12) // 2 = 7. The full run reports the
representatives -5, 1, 7, 36 and 65 (`Sample.DeterminePriceReport`).

A class label is half-open whatever operator produced its boundary, as the
comment at line 72 and the label strings at lines 78, 92 and 100 lay out.
`12 <= Value < 60` therefore contains 12, which `determine_price` prices as a
child, while its representative 36 is priced as an adult
(`Sample.InclusiveComparisonSplitsClass`). The lemma records this as a
consequence of that labelling scheme.

## Model

| member | source | states |
|---|---|---|
| Syntax.NumericLiteral | EquivalenceClassGen.py:42 | a node yields a value exactly when it is a Constant holding an int (or a bool, an int subclass); for an int the value is the constant itself, for a bool it is 1 for True and 0 for False |
| Syntax.Children | EquivalenceClassGen.py:46 | the nodes a generic visit enters, in the order of the node's fields; each is strictly smaller than the node, so the visit terminates |
| BoundaryExtraction.OwnBoundaries | EquivalenceClassGen.py:35-43 | what a node adds before its children are visited: its comparator values if it is a comparison, nothing otherwise (definition; its property is carried by NonComparisonAddsNothing and BoundaryCharacterization) |
| BoundaryExtraction.Boundaries | EquivalenceClassGen.py:35-46 | the set the recursive visit collects: the node's own contribution and that of each child (definition; characterized by BoundaryCharacterization and BoundariesAreComparisonLiterals, and computed by BoundaryExtractor.Visit) |
| BoundaryExtraction.ComparatorValues | EquivalenceClassGen.py:41-43 | a value is contributed by a comparator list iff some comparator in it is a numeric literal with that value |
| BoundaryExtraction.BoundaryExtractor.constructor | EquivalenceClassGen.py:32-33 | a new extractor starts with an empty boundary set |
| BoundaryExtraction.BoundaryExtractor.Visit | EquivalenceClassGen.py:35-46 | visiting a node adds exactly the boundaries of its whole subtree to the set, and changes nothing else |
| BoundaryExtraction.BoundaryExtractor.VisitCompare | EquivalenceClassGen.py:35-46 | for a comparison, the loop adds each numeric-literal comparator, then the generic visit adds the children's boundaries; the total is the node's boundaries |
| BoundaryExtraction.BoundaryExtractor.GenericVisit | EquivalenceClassGen.py:46 | visiting the children in field order adds the union of their boundaries |
| BoundaryExtraction.BoundariesAreComparisonLiterals | EquivalenceClassGen.py:35-46 | the recursive visit collects exactly the numeric comparators of all Compare nodes among the tree's subtrees |
| BoundaryExtraction.BoundaryCharacterization | EquivalenceClassGen.py:35-46 | v is a boundary iff some Compare node of the tree has a numeric-literal comparator equal to v (both directions) |
| BoundaryExtraction.ChildBoundariesMembers | EquivalenceClassGen.py:46 | the children contribute v iff one of them has v as a boundary |
| BoundaryExtraction.NonComparisonAddsNothing | EquivalenceClassGen.py:35-46 | a node that is not a comparison has v as a boundary iff one of its children does |
| BoundaryExtraction.SameStatementsSameBoundaries | EquivalenceClassGen.py:33 | two statement lists with the same members, in any order and with any repetition, give the same boundary set |
| BoundaryExtraction.DuplicateComparisonCollapses | EquivalenceClassGen.py:43 | a comparison repeated yields what one copy yields |
| BoundaryExtraction.OrderIrrelevant | EquivalenceClassGen.py:43 | swapping two blocks of statements leaves the boundary set unchanged |
| BoundaryExtraction.LeftOperandIgnored | EquivalenceClassGen.py:41-43 | left operands are never collected: replacing the left operand by one with the same nested boundaries leaves the result unchanged |
| BoundaryExtraction.LeavesHaveNoBoundaries | EquivalenceClassGen.py:41-43 | a constant or a name on its own contributes no boundary |
| BoundaryExtraction.NonLiteralComparatorIgnored | EquivalenceClassGen.py:42 | a comparator that is not a numeric literal adds only the boundaries nested inside it |
| BoundaryExtraction.ComparatorValuesAppend | EquivalenceClassGen.py:41-43 | one more comparator adds its value exactly when it is a numeric literal |
| BoundaryExtraction.SimpleComparison | EquivalenceClassGen.py:41-43 | `x op c` with leaf operands yields {c} if c is a numeric literal and nothing otherwise |
| BoundaryExtraction.FlatComparison | EquivalenceClassGen.py:41-43 | a chained comparison over leaves yields exactly the numeric literals among its comparators |
| BoundaryExtraction.IfBoundaries | EquivalenceClassGen.py:46 | an `if` statement yields the union of its test's, body's and else branch's boundaries |
| BoundaryExtraction.BinOpBoundaries | EquivalenceClassGen.py:46 | arithmetic yields only what its operands hold |
| BoundaryExtraction.DefinitionBoundaries | EquivalenceClassGen.py:57-60 | a module or an undecorated function definition yields the boundaries of its body |
| PartitionSynthesis.SortedBoundaries | EquivalenceClassGen.py:62 | the sorted list is strictly increasing, has exactly the set's elements and has the set's size |
| PartitionSynthesis.SortedUnique | EquivalenceClassGen.py:62 | two strictly increasing lists with the same elements are equal, so sorting is deterministic |
| PartitionSynthesis.SortedBoundariesOf | EquivalenceClassGen.py:62 | any strictly increasing listing of a set is the set's sorted form |
| PartitionSynthesis.Midpoint | EquivalenceClassGen.py:89 | the midpoint is the floor of the average (Python's `//` by 2) |
| PartitionSynthesis.PartitionAt | EquivalenceClassGen.py:76-103 | one partition: below the smallest boundary with min - 5, between neighbours with their floor midpoint, or at or above the largest with max + 5 (definition; its properties are ExtremeRepresentatives, RepresentativesInClass and RepresentativesIncreasing) |
| PartitionSynthesis.Partitions | EquivalenceClassGen.py:74-103 | n sorted boundaries give n + 1 partitions |
| PartitionSynthesis.BuildPartitions | EquivalenceClassGen.py:74-103 | the append loop builds exactly the partition sequence: the below class, one class per neighbouring pair in order, the above class |
| PartitionSynthesis.ExtremeRepresentatives | EquivalenceClassGen.py:76-103 | the first representative is min - 5 and the last is max + 5; every boundary lies strictly between them |
| PartitionSynthesis.RepresentativesInClass | EquivalenceClassGen.py:84-95 | every representative lies in the range its own label names; an interior one lies in [low, high) |
| PartitionSynthesis.AdjacentBoundariesRepresentative | EquivalenceClassGen.py:89 | when high = low + 1 the interior representative is low itself |
| PartitionSynthesis.RepresentativeBetweenBoundaries | EquivalenceClassGen.py:84-95 | each representative lies below the boundary closing its class and at or above the one opening it |
| PartitionSynthesis.RepresentativesIncreasing | EquivalenceClassGen.py:74-103 | representatives strictly increase along the partition sequence |
| PartitionSynthesis.ClassIndex | EquivalenceClassGen.py:70-72 | the class of x is given by the number of boundaries at or below x: all of those are <= x and all others > x |
| PartitionSynthesis.PartitionsCover | EquivalenceClassGen.py:70-103 | every integer lies in exactly one class, the one ClassIndex names; the classes cover the line without overlap |
| Pipeline.Observe | EquivalenceClassGen.py:108-115 | one row per partition with its label, representative and the target's value on it (definition; RunPartitions is proved to compute it, and ReportRowsInClass states its rows' properties) |
| Pipeline.EquivalenceClasses | EquivalenceClassGen.py:48-115 | the outcome of a whole run: source unavailable, no boundaries, or the report over the partitions of the sorted boundaries (definition; characterized by OutcomeKinds and the Report lemmas, and computed by GenerateEquivalenceClasses) |
| Pipeline.RunPartitions | EquivalenceClassGen.py:108-115 | one row per partition, in order, each recording the class, its representative and what the target returned for it |
| Pipeline.GenerateEquivalenceClasses | EquivalenceClassGen.py:48-115 | the imperative run (extractor object, sort, empty check, append loop, reporting loop) yields exactly the outcome `EquivalenceClasses` describes |
| Pipeline.OutcomeKinds | EquivalenceClassGen.py:51-66 | a run stops early with "source unavailable" iff there is no source, and with "no boundaries" iff the tree has no boundary; otherwise it reports |
| Pipeline.ReportRows | EquivalenceClassGen.py:62-115 | with boundaries, the report is the target observed on the partitions of the sorted boundaries |
| Pipeline.ReportRowsInClass | EquivalenceClassGen.py:74-115 | a report has one row per boundary plus one; each input lies in its row's class and each observation is the target's value on that input |
| Pipeline.ReportInputsOrdered | EquivalenceClassGen.py:74-103 | a report has at least two rows; its inputs strictly increase, with the first below and the last above every boundary |
| Pipeline.ReportCovers | EquivalenceClassGen.py:70-103 | every integer lies in the class of exactly one reported row |
| Sample.DeterminePrice | EquivalenceClassGen.py:8-23 | each of the five prices is returned exactly on its age range: < 0, 0-2, 3-12, 13-59, >= 60 |
| Sample.PriceChainBoundaries | EquivalenceClassGen.py:14-23 | the if/elif chain yields the boundaries {0, 3, 12, 60} |
| Sample.DeterminePriceBoundaries | EquivalenceClassGen.py:8-23 | the parsed sample function, docstring included, has the boundaries {0, 3, 12, 60} |
| Sample.DeterminePriceSorted | EquivalenceClassGen.py:62 | sorted, they are [0, 3, 12, 60] |
| Sample.DeterminePricePartitions | EquivalenceClassGen.py:74-103 | the five partitions have representatives -5, 1, 7, 36, 65 |
| Sample.DeterminePriceObserved | EquivalenceClassGen.py:108-115 | the observed prices are Invalid Age, Free (Infant), Child Price, Adult Price, Senior Price |
| Sample.DeterminePriceReport | EquivalenceClassGen.py:117-118 | the whole run on the sample function reports those five classes, inputs and prices |
| Sample.InclusiveComparisonSplitsClass | EquivalenceClassGen.py:18 | 12 and 36 share the class `12 <= Value < 60` but get different prices |
| Sample.IncrementHasNoBoundaries | EquivalenceClassGen.py:64-66 | a function with no comparison stops with "no boundaries" and never calls the target |
| Sample.IgnoredOperands | EquivalenceClassGen.py:36-43 | a literal on the left, a negative literal (a unary minus over a constant), arithmetic, and a string on the right add nothing |
| Sample.ChainedComparison | EquivalenceClassGen.py:41-43 | `0 <= age < 100` yields {100}: every right-hand literal, not the left one |
| Sample.NestedComparison | EquivalenceClassGen.py:46 | a comparison nested inside a comparator is found through the generic visit |
| Sample.SingleBoundary | EquivalenceClassGen.py:72-103 | a single boundary 18 gives two classes with representatives 13 and 23 |

## Left out

- Retrieving and parsing the source (`inspect.getsource`, `ast.parse`, lines 51-57): the run takes the parsed tree as an `Option<Node>`, and `None` stands for the `OSError` case. Only `OSError` is caught (line 53): a `TypeError` from `inspect.getsource` (a built-in target) or an `IndentationError` from `ast.parse` (the indented source of a method) ends the run with an uncaught exception, which the model does not represent.
- Printing (lines 49, 54, 65, 68, 106, 115) and the `class_name` strings: a class is the `Label` datatype and its `type` string is the `Category` datatype; the report is the `Outcome` value the run would print.
- The `try`/`except` around the call of the analysed function (lines 110-113): the target is a total function `int -> string`, so the exception branch is not modelled.
- Floating-point constants (`float` at line 42): the model's constants are integers, booleans (read as 0 and 1), strings and `None`. `Midpoint` on float boundaries is therefore not modelled either.
- Python's AST beyond the node kinds in `Syntax.Node`: argument lists with defaults and annotations, keyword arguments and return annotations are not modelled, so a comparison inside a default value is not seen. A generic visit of a function definition walks its body and decorators only, since its parameters are plain names here.
- The dynamic dispatch of `ast.NodeVisitor.visit` is fixed to the one override the source defines: `Visit` calls `VisitCompare` on comparisons and `GenericVisit` on everything else.
