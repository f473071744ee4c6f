// The read-depth calculator object: reads and loci are appended to it, then
// calculateDepth sorts the reads and sweeps a difference array into the
// depth profile.

module ReadDepth {
  import opened ReadIntervals
  import opened CoverageSpec

  datatype Option<T> = None | Some(value: T)

  class ReadDepthCalculator {
    // The source's `self.reads`; `reads` is a keyword in Dafny.
    var readList: seq<Read>
    var loci: seq<int>
    var depths: seq<int>

    /** Whether depths is the profile of the reads as they stand now. After
        reads are appended it is stale until CalculateDepth runs again. */
    ghost predicate Computed()
      reads this
    {
      depths == DepthProfile(readList)
    }

    constructor (reads0: seq<Read>, loci0: seq<int>)
      ensures readList == reads0 && loci == loci0 && depths == []
    {
      readList := reads0;
      loci := loci0;
      depths := [];
    }

    /** Appends reads; no validation happens here. */
    method AddReads(readsList: seq<Read>)
      modifies this
      ensures readList == old(readList) + readsList
      ensures loci == old(loci) && depths == old(depths)
    {
      readList := readList + readsList;
    }

    method AddLoci(lociList: seq<int>)
      modifies this
      ensures loci == old(loci) + lociList
      ensures readList == old(readList) && depths == old(depths)
    {
      loci := loci + lociList;
    }

    method GetReads() returns (r: seq<Read>)
      ensures r == readList
    {
      r := readList;
    }

    method GetLoci() returns (l: seq<int>)
      ensures l == loci
    {
      l := loci;
    }

    /** Before any CalculateDepth this is the empty sequence. */
    method GetDepths() returns (d: seq<int>)
      ensures d == depths
    {
      d := depths;
    }

    /** The lookup `depths[locus]` with Python's list indexing: a negative
        locus counts from the end, and anything else out of range is an
        IndexError, here None. */
    function DepthAt(locus: int): (d: Option<int>)
      reads this
      ensures d.Some? <==> -|depths| <= locus < |depths|
      ensures Computed() && 0 <= locus <= MaxEnd(readList) ==> d == Some(Coverage(readList, locus))
      ensures Computed() && -|depths| <= locus < 0 ==> d == Some(Coverage(readList, MaxEnd(readList) + 1 + locus))
    {
      if 0 <= locus < |depths| then Some(depths[locus])
      else if -|depths| <= locus < 0 then Some(depths[|depths| + locus])
      else None
    }

    /** Sorts the reads in place by (start, length). */
    method PreprocessReadData()
      modifies this
      ensures Sorted(readList) && multiset(readList) == multiset(old(readList))
      ensures loci == old(loci) && depths == old(depths)
    {
      var rs := readList;
      var a := new Read[|rs|](i => if 0 <= i < |rs| then rs[i] else Read(0, 0));
      assert a[..] == rs;
      SortReads(a);
      readList := a[..];
    }

    /** The largest start + length over the reads, or 0 when there are none
        (or none ends past 0). The last two ensures are IsMaxEnd stated over
        indices, the form the array writes in CalculateDepth need. */
    method GetMaxPosition(rs: seq<Read>) returns (maximum: int)
      ensures maximum == MaxEnd(rs)
      ensures forall i :: 0 <= i < |rs| ==> End(rs[i]) <= maximum
      ensures maximum == 0 || exists i :: 0 <= i < |rs| && End(rs[i]) == maximum
    {
      maximum := 0;
      for i := 0 to |rs|
        invariant maximum == MaxEnd(rs[..i])
        invariant maximum >= 0
        invariant forall k :: 0 <= k < i ==> End(rs[k]) <= maximum
        invariant maximum == 0 || exists k :: 0 <= k < i && End(rs[k]) == maximum
      {
        assert rs[..i + 1][..i] == rs[..i];
        if rs[i].start + rs[i].length > maximum {
          maximum := rs[i].start + rs[i].length;
        }
      }
      assert rs[..|rs|] == rs;
    }

    /** Sorts the reads, then computes the depth at every position from 0 to
        the largest read end: +1 at each start and -1 at each end into a zero
        array, then a running prefix sum over it in place. */
    method CalculateDepth()
      requires AllWellFormed(readList)
      modifies this
      ensures Sorted(readList) && multiset(readList) == multiset(old(readList))
      ensures loci == old(loci)
      ensures depths == DepthProfile(old(readList))
      ensures Computed()
    {
      PreprocessReadData();
      var rs := readList;
      WellFormedPermutation(old(readList), rs);

      var maxEnd := GetMaxPosition(rs);
      var tally := new int[maxEnd + 1](_ => 0);
      // `sums` is the same array as `tally`: the prefix sum overwrites the deltas.
      var sums := tally;
      RecordEndpoints(rs, tally);
      RunningSum(rs, sums);
      assert sums[..] == DepthProfile(rs) by {
        forall p | 0 <= p < sums.Length
          ensures sums[..][p] == DepthProfile(rs)[p]
        {
        }
      }
      depths := sums[..];
      DepthProfilePermutation(rs, old(readList));
    }
  }

  /** The first loop of calculateDepth: +1 at every read's start and -1 at
      its end, into an array that starts at zero. */
  method RecordEndpoints(rs: seq<Read>, tally: array<int>)
    requires AllWellFormed(rs)
    requires forall i :: 0 <= i < |rs| ==> End(rs[i]) < tally.Length
    requires forall j :: 0 <= j < tally.Length ==> tally[j] == 0
    modifies tally
    ensures forall j :: 0 <= j < tally.Length ==> tally[j] == Delta(rs, j)
  {
    for i := 0 to |rs|
      invariant forall j :: 0 <= j < tally.Length ==> tally[j] == Delta(rs[..i], j)
    {
      var pair := rs[i];
      assert pair in rs;
      tally[pair.start] := tally[pair.start] + 1;
      tally[pair.start + pair.length] := tally[pair.start + pair.length] - 1;
      forall j | 0 <= j < tally.Length
        ensures tally[j] == Delta(rs[..i + 1], j)
      {
        DeltaExtend(rs, i, j);
      }
    }
    assert rs[..|rs|] == rs;
  }

  /** The second loop of calculateDepth: the running sum of the recorded
      deltas, written over them in place, is the coverage at each position. */
  method RunningSum(rs: seq<Read>, sums: array<int>)
    requires AllWellFormed(rs)
    requires forall j :: 0 <= j < sums.Length ==> sums[j] == Delta(rs, j)
    modifies sums
    ensures forall j :: 0 <= j < sums.Length ==> sums[j] == Coverage(rs, j)
  {
    var prior := 0;
    for i := 0 to sums.Length
      invariant forall j :: 0 <= j < i ==> sums[j] == Coverage(rs, j)
      invariant forall j :: i <= j < sums.Length ==> sums[j] == Delta(rs, j)
      invariant prior == if i == 0 then 0 else Coverage(rs, i - 1)
    {
      CoverageStep(rs, i);
      sums[i] := sums[i] + prior;
      prior := sums[i];
    }
  }
}
