/** Partition synthesis: from the sorted boundaries to the sequence of
    equivalence classes, each with a representative input. */
module PartitionSynthesis {

  /** The fixed offset by which the below-range and above-range
      representatives step away from the extreme boundaries. */
  const Offset: int := 5

  predicate StrictlyIncreasing(s: seq<int>)
  {
    forall i, j :: 0 <= i < j < |s| ==> s[i] < s[j]
  }

  // ---------------------------------------------------------------------
  // Sorting the boundary set.

  /** A non-empty set has an element. */
  lemma HasElement(s: set<int>)
    requires s != {}
    ensures exists x :: x in s
  {
    if forall x :: x !in s {
      assert false;
    }
  }

  /** Every non-empty finite set of integers has a least element. */
  lemma {:induction false} HasMinimum(s: set<int>)
    requires s != {}
    ensures exists m :: m in s && forall y :: y in s ==> m <= y
    decreases s
  {
    HasElement(s);
    var x :| x in s;
    if s - {x} == {} {
      forall y | y in s ensures x <= y {
        assert y !in s - {x};
      }
    } else {
      HasMinimum(s - {x});
      var m :| m in s - {x} && forall y :: y in s - {x} ==> m <= y;
      var least := if x < m then x else m;
      forall y | y in s ensures least <= y {
        if y != x {
          assert y in s - {x};
        }
      }
      assert least in s;
    }
  }

  /** The boundary set as an ascending list: strictly increasing, holding
      exactly the elements of the set. */
  function SortedBoundaries(s: set<int>): (r: seq<int>)
    ensures StrictlyIncreasing(r)
    ensures forall x :: x in r <==> x in s
    ensures |r| == |s|
    decreases s
  {
    if s == {} then []
    else
      HasMinimum(s);
      var m :| m in s && forall y :: y in s ==> m <= y;
      var rest := SortedBoundaries(s - {m});
      PrependMinimum(s, m, rest);
      [m] + rest
  }

  /** The least element of a set followed by the rest in ascending order is
      the whole set in ascending order. */
  lemma PrependMinimum(s: set<int>, m: int, rest: seq<int>)
    requires m in s && forall y :: y in s ==> m <= y
    requires StrictlyIncreasing(rest)
    requires forall x :: x in rest <==> x in s - {m}
    requires |rest| == |s - {m}|
    ensures StrictlyIncreasing([m] + rest)
    ensures forall x :: x in [m] + rest <==> x in s
    ensures |[m] + rest| == |s|
  {
    var r := [m] + rest;
    forall i | 0 < i < |r| ensures m < r[i] {
      assert r[i] == rest[i - 1] && rest[i - 1] in rest;
    }
    assert s == (s - {m}) + {m};
  }

  /** There is only one strictly increasing list with a given set of
      elements, so sorting is deterministic. */
  lemma {:induction false} SortedUnique(a: seq<int>, b: seq<int>)
    requires StrictlyIncreasing(a) && StrictlyIncreasing(b)
    requires forall x :: x in a <==> x in b
    ensures a == b
    decreases |a|
  {
    assert a == [] <==> b == [] by {
      if a != [] {
        assert a[0] in a;
      }
      if b != [] {
        assert b[0] in b;
      }
    }
    if a != [] {
      assert a[0] in a && b[0] in b;
      assert a[0] == b[0];
      forall x ensures x in a[1..] <==> x in b[1..] {
        if x in a[1..] {
          assert x in a && x != a[0];
        }
        if x in b[1..] {
          assert x in b && x != b[0];
        }
      }
      SortedUnique(a[1..], b[1..]);
      assert a == [a[0]] + a[1..] && b == [b[0]] + b[1..];
    }
  }

  // ---------------------------------------------------------------------
  // Partitions.

  /** The range a partition stands for, as its label describes it:
      `Value < b`, `low <= Value < high` and `Value >= b`. */
  datatype Label = Below(bound: int) | Between(low: int, high: int) | AtOrAbove(bound: int)

  /** The coarse tag of a partition ("Invalid/Low", "Valid/Mid-range",
      "Valid/High"); it is for display and promises nothing. */
  datatype Category = InvalidLow | ValidMidRange | ValidHigh

  datatype Partition = Partition(classRange: Label, representative: int, category: Category)

  /** Whether `x` lies in the range a label names. */
  predicate InClass(r: Label, x: int)
  {
    match r
    case Below(b) => x < b
    case Between(low, high) => low <= x < high
    case AtOrAbove(b) => x >= b
  }

  /** Python's floor division `(low + high) // 2`: the largest integer whose
      double does not exceed `low + high`.  (Dafny's `/` agrees with floor
      division when the divisor is positive.) */
  function Midpoint(low: int, high: int): (m: int)
    ensures 2 * m <= low + high < 2 * m + 2
  {
    (low + high) / 2
  }

  /** Any strictly increasing listing of a set is its sorted form. */
  lemma SortedBoundariesOf(s: set<int>, r: seq<int>)
    requires StrictlyIncreasing(r)
    requires forall x :: x in s <==> x in r
    ensures SortedBoundaries(s) == r
  {
    SortedUnique(SortedBoundaries(s), r);
  }

  /** The `i`-th partition built from the sorted boundaries. */
  function PartitionAt(sorted: seq<int>, i: nat): (p: Partition)
    requires 0 < |sorted| && i <= |sorted|
  {
    if i == 0 then
      Partition(Below(sorted[0]), sorted[0] - Offset, InvalidLow)
    else if i == |sorted| then
      Partition(AtOrAbove(sorted[|sorted| - 1]), sorted[|sorted| - 1] + Offset, ValidHigh)
    else
      Partition(Between(sorted[i - 1], sorted[i]), Midpoint(sorted[i - 1], sorted[i]), ValidMidRange)
  }

  /** One partition below the smallest boundary, one for each consecutive
      pair, one at or above the largest: one more than there are boundaries. */
  function Partitions(sorted: seq<int>): (ps: seq<Partition>)
    requires 0 < |sorted|
    ensures |ps| == |sorted| + 1
  {
    seq(|sorted| + 1, i requires 0 <= i <= |sorted| => PartitionAt(sorted, i))
  }

  /** Builds the partitions by appending, as the source does: the
      below-range one, the interior ones in a loop, the above-range one. */
  method BuildPartitions(sorted: seq<int>) returns (partitions: seq<Partition>)
    requires 0 < |sorted|
    ensures partitions == Partitions(sorted)
  {
    partitions := [];
    var firstB := sorted[0];
    partitions := partitions + [Partition(Below(firstB), firstB - Offset, InvalidLow)];
    for i := 0 to |sorted| - 1
      invariant partitions == Partitions(sorted)[..i + 1]
    {
      var low := sorted[i];
      var high := sorted[i + 1];
      var midPoint := (low + high) / 2;
      partitions := partitions + [Partition(Between(low, high), midPoint, ValidMidRange)];
    }
    var lastB := sorted[|sorted| - 1];
    partitions := partitions + [Partition(AtOrAbove(lastB), lastB + Offset, ValidHigh)];
  }

  // ---------------------------------------------------------------------
  // Properties of the partitions of strictly increasing boundaries.

  /** The first representative is the smallest boundary minus the offset
      and lies strictly below every boundary; the last is the largest
      boundary plus the offset and lies strictly above every boundary. */
  lemma ExtremeRepresentatives(sorted: seq<int>)
    requires 0 < |sorted| && StrictlyIncreasing(sorted)
    ensures Partitions(sorted)[0].representative == sorted[0] - Offset
    ensures Partitions(sorted)[|sorted|].representative == sorted[|sorted| - 1] + Offset
    ensures forall b :: b in sorted ==>
      Partitions(sorted)[0].representative < b < Partitions(sorted)[|sorted|].representative
  {
    forall b | b in sorted
      ensures Partitions(sorted)[0].representative < b < Partitions(sorted)[|sorted|].representative
    {
      var k :| 0 <= k < |sorted| && sorted[k] == b;
      assert sorted[0] <= b <= sorted[|sorted| - 1];
    }
  }

  /** Each representative lies in the range its own label names. */
  lemma RepresentativesInClass(sorted: seq<int>)
    requires 0 < |sorted| && StrictlyIncreasing(sorted)
    ensures forall i :: 0 <= i < |Partitions(sorted)| ==>
      InClass(Partitions(sorted)[i].classRange, Partitions(sorted)[i].representative)
  {
    forall i | 0 <= i < |Partitions(sorted)|
      ensures InClass(Partitions(sorted)[i].classRange, Partitions(sorted)[i].representative)
    {
      if 0 < i < |sorted| {
        assert sorted[i - 1] < sorted[i];
      }
    }
  }

  /** For adjacent integer boundaries the interior representative is the
      lower boundary itself. */
  lemma AdjacentBoundariesRepresentative(sorted: seq<int>, i: nat)
    requires 0 < i < |sorted| && sorted[i] == sorted[i - 1] + 1
    ensures Partitions(sorted)[i].representative == sorted[i - 1]
  {
  }

  /** Every representative but the last lies below the boundary closing its
      range; every one but the first at or above the boundary opening it. */
  lemma RepresentativeBetweenBoundaries(sorted: seq<int>, i: nat)
    requires 0 < |sorted| && StrictlyIncreasing(sorted) && i <= |sorted|
    ensures i < |sorted| ==> Partitions(sorted)[i].representative < sorted[i]
    ensures 0 < i ==> sorted[i - 1] <= Partitions(sorted)[i].representative
  {
    if 0 < i < |sorted| {
      assert sorted[i - 1] < sorted[i];
    }
  }

  /** Representatives strictly increase along the partition sequence. */
  lemma RepresentativesIncreasing(sorted: seq<int>)
    requires 0 < |sorted| && StrictlyIncreasing(sorted)
    ensures forall i, j :: 0 <= i < j < |Partitions(sorted)| ==>
      Partitions(sorted)[i].representative < Partitions(sorted)[j].representative
  {
    var ps := Partitions(sorted);
    forall i, j | 0 <= i < j < |ps| ensures ps[i].representative < ps[j].representative {
      RepresentativeBetweenBoundaries(sorted, i);
      RepresentativeBetweenBoundaries(sorted, j);
      assert sorted[i] <= sorted[j - 1];
    }
  }

  /** The number of boundaries at or below `x`: the index of the partition
      that `x` falls in. */
  function ClassIndex(sorted: seq<int>, x: int): (k: nat)
    requires StrictlyIncreasing(sorted)
    ensures k <= |sorted|
    ensures forall j :: 0 <= j < k ==> sorted[j] <= x
    ensures forall j :: k <= j < |sorted| ==> x < sorted[j]
  {
    if sorted == [] || x < sorted[0] then 0 else 1 + ClassIndex(sorted[1..], x)
  }

  /** The partitions cover the number line without gaps or overlaps: every
      `x` lies in the range of exactly one of them, the one at ClassIndex. */
  lemma PartitionsCover(sorted: seq<int>, x: int)
    requires 0 < |sorted| && StrictlyIncreasing(sorted)
    ensures forall i :: 0 <= i < |Partitions(sorted)| ==>
      (InClass(Partitions(sorted)[i].classRange, x) <==> i == ClassIndex(sorted, x))
  {
    var k := ClassIndex(sorted, x);
    var n := |sorted|;
    forall i | 0 <= i < |Partitions(sorted)|
      ensures InClass(Partitions(sorted)[i].classRange, x) <==> i == k
    {
      if i < k {
        assert sorted[i] <= x;
      } else if i > k {
        assert x < sorted[i - 1];
      }
    }
  }
}
