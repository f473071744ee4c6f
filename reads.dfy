// Aligned reads, the (start, length) sort key and the in-place sort that
// ReadDepthCalculator.preprocessReadData performs.

module ReadIntervals {

  /** A read aligned at `start`, covering the half-open span [start, start + length). */
  datatype Read = Read(start: int, length: int)

  /** The position just past the last one the read covers. */
  function End(r: Read): int {
    r.start + r.length
  }

  /** Reads the depth computation can index with: neither start nor length is negative. */
  predicate WellFormed(r: Read) {
    r.start >= 0 && r.length >= 0
  }

  predicate AllWellFormed(rs: seq<Read>) {
    forall r :: r in rs ==> WellFormed(r)
  }

  /** Reordering keeps every read well-formed. */
  lemma WellFormedPermutation(a: seq<Read>, b: seq<Read>)
    requires AllWellFormed(a)
    requires multiset(a) == multiset(b)
    ensures AllWellFormed(b)
  {
    forall r | r in b
      ensures WellFormed(r)
    {
      assert r in multiset(b);
    }
  }

  /** The sort key (start, length), compared lexicographically. */
  predicate KeyLe(a: Read, b: Read) {
    a.start < b.start || (a.start == b.start && a.length <= b.length)
  }

  predicate Sorted(rs: seq<Read>) {
    forall i, j :: 0 <= i < j < |rs| ==> KeyLe(rs[i], rs[j])
  }

  lemma SortedTail(rs: seq<Read>)
    requires |rs| > 0 && Sorted(rs)
    ensures Sorted(rs[1..])
  {
    forall i, j | 0 <= i < j < |rs| - 1
      ensures KeyLe(rs[1..][i], rs[1..][j])
    {
      assert rs[1..][i] == rs[i + 1] && rs[1..][j] == rs[j + 1];
    }
  }

  /** The key order is antisymmetric on reads, so there is exactly one sorted
      arrangement of a collection of reads: whatever algorithm sorts them,
      the result is determined by the multiset of reads alone. */
  lemma {:induction false} SortedUnique(a: seq<Read>, b: seq<Read>)
    requires Sorted(a) && Sorted(b)
    requires multiset(a) == multiset(b)
    ensures a == b
  {
    assert |a| == |multiset(a)| == |multiset(b)| == |b|;
    if |a| > 0 {
      assert a[0] in multiset(b);
      var j :| 0 <= j < |b| && b[j] == a[0];
      assert KeyLe(b[0], a[0]);
      assert b[0] in multiset(a);
      var k :| 0 <= k < |a| && a[k] == b[0];
      assert KeyLe(a[0], b[0]);
      assert a[0] == b[0];
      assert a == [a[0]] + a[1..];
      assert b == [b[0]] + b[1..];
      assert multiset(a) == multiset{a[0]} + multiset(a[1..]);
      assert multiset(b) == multiset{b[0]} + multiset(b[1..]);
      assert multiset(a[1..]) == multiset(a) - multiset{a[0]};
      assert multiset(b[1..]) == multiset(b) - multiset{b[0]};
      SortedTail(a);
      SortedTail(b);
      SortedUnique(a[1..], b[1..]);
    }
  }

  /** Sorts the array in place by the key (start, length). */
  method SortReads(a: array<Read>)
    modifies a
    ensures Sorted(a[..])
    ensures multiset(a[..]) == multiset(old(a[..]))
  {
    if a.Length == 0 {
      return;
    }
    var i := 1;
    while i < a.Length
      invariant 1 <= i <= a.Length
      invariant forall k, l :: 0 <= k < l < i ==> KeyLe(a[k], a[l])
      invariant multiset(a[..]) == multiset(old(a[..]))
    {
      var j := i;
      while j > 0 && !KeyLe(a[j - 1], a[j])
        invariant 0 <= j <= i
        invariant forall k, l :: 0 <= k < l <= i && k != j && l != j ==> KeyLe(a[k], a[l])
        invariant forall l :: j < l <= i ==> KeyLe(a[j], a[l])
        invariant multiset(a[..]) == multiset(old(a[..]))
      {
        a[j - 1], a[j] := a[j], a[j - 1];
        j := j - 1;
      }
      i := i + 1;
    }
  }
}
