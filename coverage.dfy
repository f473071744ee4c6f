// The quantities the depth computation is specified by: the largest read end,
// the brute-force coverage count at a position, and the difference-array
// entry at a position. All are recursive on the last read of the sequence,
// which is how the source's loops consume a prefix of the reads.

module CoverageSpec {
  import opened ReadIntervals

  /** Whether read r covers position p. */
  predicate Covers(r: Read, p: int) {
    r.start <= p < End(r)
  }

  /** The running maximum of start + length over the reads, starting from 0:
      the value ReadDepthCalculator.__getMaxPosition computes. */
  function MaxEnd(rs: seq<Read>): (m: int)
    ensures m >= 0
  {
    if rs == [] then 0
    else
      var m := MaxEnd(rs[..|rs| - 1]);
      if End(rs[|rs| - 1]) > m then End(rs[|rs| - 1]) else m
  }

  /** m is 0 or the end of some read, and no read ends past m. */
  predicate IsMaxEnd(rs: seq<Read>, m: int) {
    m >= 0
    && (forall r :: r in rs ==> End(r) <= m)
    && (m == 0 || exists r :: r in rs && End(r) == m)
  }

  /** MaxEnd is the largest end of a read, or 0 when no read ends past 0. */
  lemma {:induction false} MaxEndIsMaximum(rs: seq<Read>)
    ensures IsMaxEnd(rs, MaxEnd(rs))
  {
    if rs != [] {
      var init := rs[..|rs| - 1];
      MaxEndIsMaximum(init);
      assert rs == init + [rs[|rs| - 1]];
      forall r | r in rs
        ensures End(r) <= MaxEnd(rs)
      {
        if r != rs[|rs| - 1] {
          assert r in init;
        }
      }
      if MaxEnd(rs) != 0 && MaxEnd(rs) == MaxEnd(init) {
        var r :| r in init && End(r) == MaxEnd(init);
        assert r in rs;
      }
    }
  }

  /** There is only one such m. */
  lemma MaxEndUnique(rs: seq<Read>, m1: int, m2: int)
    requires IsMaxEnd(rs, m1) && IsMaxEnd(rs, m2)
    ensures m1 == m2
  {
    if m1 != 0 {
      var r :| r in rs && End(r) == m1;
    }
    if m2 != 0 {
      var r :| r in rs && End(r) == m2;
    }
  }

  /** MaxEnd does not depend on the order of the reads. */
  lemma MaxEndPermutation(a: seq<Read>, b: seq<Read>)
    requires multiset(a) == multiset(b)
    ensures MaxEnd(a) == MaxEnd(b)
  {
    MaxEndIsMaximum(a);
    MaxEndIsMaximum(b);
    forall r
      ensures r in a <==> r in b
    {
      assert r in a <==> r in multiset(a);
      assert r in b <==> r in multiset(b);
    }
    MaxEndUnique(a, MaxEnd(a), MaxEnd(b));
  }

  /** The brute-force oracle: how many reads cover position p. */
  function Coverage(rs: seq<Read>, p: int): (n: nat)
    ensures n <= |rs|
  {
    if rs == [] then 0
    else Coverage(rs[..|rs| - 1], p) + (if Covers(rs[|rs| - 1], p) then 1 else 0)
  }

  /** The entry at position j of the difference array once every read has
      written its +1 at its start and its -1 at its end. */
  function Delta(rs: seq<Read>, j: int): int
  {
    if rs == [] then 0
    else
      var r := rs[|rs| - 1];
      Delta(rs[..|rs| - 1], j) + (if r.start == j then 1 else 0) - (if End(r) == j then 1 else 0)
  }

  /** Appending read rs[i] to the prefix rs[..i] adds its +1 and -1. */
  lemma DeltaExtend(rs: seq<Read>, i: nat, j: int)
    requires i < |rs|
    ensures Delta(rs[..i + 1], j)
         == Delta(rs[..i], j) + (if rs[i].start == j then 1 else 0) - (if End(rs[i]) == j then 1 else 0)
  {
    assert rs[..i + 1][..i] == rs[..i];
  }

  /** The depth profile: the coverage at every position from 0 to MaxEnd. */
  function DepthProfile(rs: seq<Read>): (d: seq<int>)
    ensures |d| == MaxEnd(rs) + 1
    ensures forall p :: 0 <= p < |d| ==> 0 <= d[p] <= |rs|
    ensures d[MaxEnd(rs)] == 0
  {
    CoverageBeyondMaxEnd(rs, MaxEnd(rs));
    seq(MaxEnd(rs) + 1, p => Coverage(rs, p))
  }

  /** No read covers a position at or past MaxEnd. */
  lemma {:induction false} CoverageBeyondMaxEnd(rs: seq<Read>, p: int)
    requires p >= MaxEnd(rs)
    ensures Coverage(rs, p) == 0
  {
    if rs != [] {
      CoverageBeyondMaxEnd(rs[..|rs| - 1], p);
    }
  }

  /** The step of the prefix sum: for well-formed reads, the coverage at p is
      the coverage at p - 1 (none before position 0) plus the delta at p. */
  lemma {:induction false} CoverageStep(rs: seq<Read>, p: int)
    requires AllWellFormed(rs)
    requires p >= 0
    ensures Coverage(rs, p) == (if p == 0 then 0 else Coverage(rs, p - 1)) + Delta(rs, p)
  {
    if rs != [] {
      var init := rs[..|rs| - 1];
      assert rs == init + [rs[|rs| - 1]];
      assert rs[|rs| - 1] in rs;
      CoverageStep(init, p);
    }
  }

  lemma {:induction false} CoverageAppend(a: seq<Read>, b: seq<Read>, p: int)
    ensures Coverage(a + b, p) == Coverage(a, p) + Coverage(b, p)
  {
    if b == [] {
      assert a + b == a;
    } else {
      CoverageAppend(a, b[..|b| - 1], p);
      assert (a + b)[..|a + b| - 1] == a + b[..|b| - 1];
    }
  }

  /** Coverage does not depend on the order of the reads. */
  lemma {:induction false} CoveragePermutation(a: seq<Read>, b: seq<Read>, p: int)
    requires multiset(a) == multiset(b)
    ensures Coverage(a, p) == Coverage(b, p)
  {
    assert |a| == |multiset(a)| == |multiset(b)| == |b|;
    if a != [] {
      var x := a[|a| - 1];
      var init := a[..|a| - 1];
      assert a == init + [x];
      assert x in multiset(b);
      var k :| 0 <= k < |b| && b[k] == x;
      var rest := b[..k] + b[k + 1..];
      assert b == b[..k] + ([x] + b[k + 1..]);
      assert multiset(init) == multiset(a) - multiset{x};
      assert multiset(rest) == multiset(b) - multiset{x};
      CoveragePermutation(init, rest, p);
      CoverageAppend(b[..k], [x] + b[k + 1..], p);
      CoverageAppend([x], b[k + 1..], p);
      CoverageAppend(b[..k], b[k + 1..], p);
      assert [x][..0] == [];
    }
  }

  /** The depth profile does not depend on the order of the reads. */
  lemma DepthProfilePermutation(a: seq<Read>, b: seq<Read>)
    requires multiset(a) == multiset(b)
    ensures DepthProfile(a) == DepthProfile(b)
  {
    MaxEndPermutation(a, b);
    forall p | 0 <= p < MaxEnd(a) + 1
      ensures DepthProfile(a)[p] == DepthProfile(b)[p]
    {
      CoveragePermutation(a, b, p);
    }
  }

  /** A zero-length read, wherever it sits, covers nothing. */
  lemma ZeroLengthCoversNothing(a: seq<Read>, b: seq<Read>, s: int, p: int)
    ensures Coverage(a + [Read(s, 0)] + b, p) == Coverage(a + b, p)
  {
    CoverageAppend(a + [Read(s, 0)], b, p);
    CoverageAppend(a, [Read(s, 0)], p);
    CoverageAppend(a, b, p);
    assert [Read(s, 0)][..0] == [];
  }

  /** A zero-length read writes +1 and -1 at the same index, so it leaves
      every difference-array entry as it was. */
  lemma ZeroLengthDeltaCancels(rs: seq<Read>, s: int, j: int)
    ensures Delta(rs + [Read(s, 0)], j) == Delta(rs, j)
  {
    assert (rs + [Read(s, 0)])[..|rs|] == rs;
  }
}
