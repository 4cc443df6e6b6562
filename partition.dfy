/** How main splits the root ids [0, n) into ranges for findLongPathInRange:
    one range below 1000 vertices, otherwise ten sections of length n / 10. */
module Partition {

  /** Vertex count from which main starts ten workers instead of one pass. */
  const Threshold: nat := 1000

  /** Number of workers main starts for a large graph. */
  const Workers: nat := 10

  /** A half-open range [lo, hi) of root ids. */
  type Range = (int, int)

  /** The ranges main hands out, in the order it hands them out. For a large graph
      range k is [k * s, k * s + s) with s = n / 10: the call passes l and
      l + sectionLength, never the end r that the loop adjusts to n for the last
      section. */
  function Sections(n: nat): seq<Range>
  {
    if n < Threshold then [(0, n)]
    else
      var s := n / Workers;
      seq(Workers, k => (k * s, k * s + s))
  }

  /** The end of the ids that some range covers: all of them below 1000 vertices,
      and otherwise the ids below 10 * (n / 10), leaving out the n mod 10 last ones. */
  function CoveredUpTo(n: nat): nat
  {
    if n < Threshold then n else n - n % Workers
  }

  /** Some range of Sections(n) holds the root v. */
  predicate Covered(n: nat, v: int)
  {
    exists k :: 0 <= k < |Sections(n)| && Sections(n)[k].0 <= v < Sections(n)[k].1
  }

  lemma MulMonotone(a: int, b: int, s: nat)
    requires a <= b
    ensures a * s <= b * s
  {
  }

  /** The loop of main: l and r advance by sectionLength while r <= n, r is moved
      to n when fewer than two sections remain, and each step hands out
      [l, l + sectionLength). It yields exactly Sections(n). The ghost peak is
      the largest value the loop computes in its int variables (r + sectionLength
      and r): n + n / 10 for a large graph, reached by r after its last step. */
  method PartitionRanges(n: nat) returns (ranges: seq<Range>, ghost peak: int)
    ensures ranges == Sections(n)
    ensures peak == if n < Threshold then n else n + n / Workers
  {
    if n < Threshold {
      ranges, peak := [(0, n)], n;
      return;
    }
    var sectionLength := n / Workers;
    ranges := [];
    var i, l, r := 0, 0, sectionLength;
    peak := r;
    while r <= n
      invariant 0 <= i <= Workers
      invariant l == i * sectionLength
      invariant i < Workers ==> r == l + sectionLength <= n && peak <= n
      invariant i == Workers ==> r > n && peak == n + sectionLength
      invariant ranges == Sections(n)[..i]
      decreases Workers - i
    {
      if i + 2 <= Workers {
        MulMonotone(i + 2, Workers, sectionLength);
      }
      peak := if peak < r + sectionLength then r + sectionLength else peak;
      if r + sectionLength > n {
        r := n;
      }
      ranges := ranges + [(l, l + sectionLength)];
      l, r, i := l + sectionLength, r + sectionLength, i + 1;
      peak := if peak < r then r else peak;
    }
  }

  /** The ranges are non-empty once n >= 1000, start at 0, each begins where the
      one before it ends, and the last ends at CoveredUpTo(n), which is at most n. */
  lemma {:induction false} SectionsContiguous(n: nat)
    ensures |Sections(n)| == if n < Threshold then 1 else Workers
    ensures Sections(n)[0].0 == 0
    ensures forall k :: 0 <= k < |Sections(n)| - 1 ==> Sections(n)[k].1 == Sections(n)[k + 1].0
    ensures forall k :: 0 <= k < |Sections(n)| ==> Sections(n)[k].0 <= Sections(n)[k].1
    ensures n >= Threshold ==> forall k :: 0 <= k < |Sections(n)| ==> Sections(n)[k].0 < Sections(n)[k].1
    ensures forall k :: 0 <= k < |Sections(n)| ==> 0 <= Sections(n)[k].0 && Sections(n)[k].1 <= CoveredUpTo(n)
    ensures Sections(n)[|Sections(n)| - 1].1 == CoveredUpTo(n) <= n
  {
    if n >= Threshold {
      var s := n / Workers;
      forall k | 0 <= k < Workers
        ensures 0 <= Sections(n)[k].0 && Sections(n)[k].1 <= CoveredUpTo(n)
      {
        MulMonotone(k + 1, Workers, s);
        assert (k + 1) * s == k * s + s;
      }
      assert Sections(n)[Workers - 1].1 == 9 * s + s == n - n % Workers;
      forall k | 0 <= k < Workers - 1
        ensures Sections(n)[k].1 == Sections(n)[k + 1].0
      {
        assert (k + 1) * s == k * s + s;
      }
    }
  }

  /** A root id lies in some range exactly when it is below CoveredUpTo(n): the
      ranges cover [0, 10 * (n / 10)) and nothing else. */
  lemma CoveredIff(n: nat, v: int)
    ensures Covered(n, v) <==> 0 <= v < CoveredUpTo(n)
  {
    if n >= Threshold {
      if Covered(n, v) {
        CoveredBelow(n, v);
      }
      if 0 <= v < CoveredUpTo(n) {
        BelowCovered(n, v);
      }
    } else {
      assert Sections(n)[0] == (0, n);
    }
  }

  lemma CoveredBelow(n: nat, v: int)
    requires n >= Threshold && Covered(n, v)
    ensures 0 <= v < CoveredUpTo(n)
  {
    var s := n / Workers;
    var k :| 0 <= k < Workers && Sections(n)[k].0 <= v < Sections(n)[k].1;
    assert k * s <= v < k * s + s;
    MulMonotone(0, k, s);
    MulMonotone(k, Workers - 1, s);
  }

  lemma BelowCovered(n: nat, v: int)
    requires n >= Threshold && 0 <= v < CoveredUpTo(n)
    ensures Covered(n, v)
  {
    var s := n / Workers;
    var k := v / s;
    assert k * s <= v < k * s + s;
    if k >= Workers {
      MulMonotone(Workers, k, s);
    }
    assert 0 <= k < Workers;
    assert Sections(n)[k] == (k * s, k * s + s);
  }

  /** No root id lies in two ranges: every covered root is scanned exactly once. */
  lemma SectionsDisjoint(n: nat, v: int, k1: int, k2: int)
    requires 0 <= k1 < |Sections(n)| && 0 <= k2 < |Sections(n)|
    requires Sections(n)[k1].0 <= v < Sections(n)[k1].1
    requires Sections(n)[k2].0 <= v < Sections(n)[k2].1
    ensures k1 == k2
  {
    if n >= Threshold && k1 != k2 {
      var s := n / Workers;
      var lo, hi := if k1 < k2 then k1 else k2, if k1 < k2 then k2 else k1;
      assert (lo + 1) * s == lo * s + s;
      MulMonotone(lo + 1, hi, s);
    }
  }

  /** For a large graph whose size is not a multiple of 10 the last vertex is never
      used as a root. */
  lemma LastVertexSkipped(n: nat)
    requires n >= Threshold && n % Workers != 0
    ensures !Covered(n, n - 1)
  {
    CoveredIff(n, n - 1);
  }
}
