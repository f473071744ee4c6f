// The behaviours the repository's unit tests check, stated as methods that
// drive a fresh calculator and promise the tests' expected values.

module Scenarios {
  import opened ReadIntervals
  import opened CoverageSpec
  import opened ReadDepth

  /** Appended reads come back unchanged. */
  method AddReadsScenario() returns (got: seq<Read>)
    ensures got == [Read(10, 30), Read(20, 40)]
  {
    var c := new ReadDepthCalculator([], []);
    c.AddReads([Read(10, 30), Read(20, 40)]);
    got := c.GetReads();
  }

  /** Appended loci come back unchanged. */
  method AddLociScenario() returns (got: seq<int>)
    ensures got == [5, 15]
  {
    var c := new ReadDepthCalculator([], []);
    c.AddLoci([5, 15]);
    got := c.GetLoci();
  }

  /** Preprocessing sorts by start, then by length. */
  method PreprocessScenario() returns (got: seq<Read>)
    ensures got == [Read(10, 30), Read(20, 10), Read(20, 40)]
  {
    var c := new ReadDepthCalculator([], []);
    c.AddReads([Read(20, 40), Read(10, 30), Read(20, 10)]);
    c.PreprocessReadData();
    got := c.GetReads();
    var expected := [Read(10, 30), Read(20, 10), Read(20, 40)];
    assert multiset(got) == multiset(expected);
    SortedUnique(got, expected);
  }

  /** Two overlapping reads give depths 0, 1 and 2 at loci 5, 15 and 30. */
  method DepthScenario() returns (atLoci: seq<Option<int>>)
    ensures atLoci == [Some(0), Some(1), Some(2)]
  {
    var rs := [Read(10, 30), Read(20, 40)];
    var c := new ReadDepthCalculator(rs, [5, 15, 30]);
    c.CalculateDepth();
    var loci := c.GetLoci();
    assert rs[..1] == [Read(10, 30)] && rs[..1][..0] == [];
    assert MaxEnd(rs) == 60;
    atLoci := [c.DepthAt(loci[0]), c.DepthAt(loci[1]), c.DepthAt(loci[2])];
  }

  /** With no reads the profile is the single depth 0. */
  method EmptyScenario() returns (got: seq<int>)
    ensures got == [0]
  {
    var c := new ReadDepthCalculator([], []);
    c.CalculateDepth();
    got := c.GetDepths();
  }

  /** Calculating twice on unchanged reads gives the same depths, and both
      are the profile of the reads as they were first given. */
  method RecalculateScenario(c: ReadDepthCalculator) returns (first: seq<int>, second: seq<int>)
    requires AllWellFormed(c.readList)
    modifies c
    ensures first == second == DepthProfile(old(c.readList))
  {
    c.CalculateDepth();
    first := c.GetDepths();
    WellFormedPermutation(old(c.readList), c.readList);
    c.CalculateDepth();
    second := c.GetDepths();
  }
}
