/** Whole-system view of the MPI collectives used by the domain decomposition.
    Node `n`'s contribution is `blocks[n]`; an all-gather delivers to every node the
    concatenation of all contributions in node order, each node's block starting at
    the exclusive prefix sum of the block lengths before it. */
module Collectives {

  /** The sum of the first `n` entries of `c`. */
  function PrefixSum(c: seq<int>, n: nat): (s: int)
    requires n <= |c|
  {
    if n == 0 then 0 else PrefixSum(c, n - 1) + c[n - 1]
  }

  /** The sum of all entries of `c`. */
  function Total(c: seq<int>): (s: int)
  {
    PrefixSum(c, |c|)
  }

  /** The per-node lengths, as `MPI_Allgather` of every node's count delivers them. */
  function Counts<T>(blocks: seq<seq<T>>): (c: seq<int>)
    ensures |c| == |blocks|
    ensures forall n :: 0 <= n < |blocks| ==> c[n] == |blocks[n]|
  {
    seq(|blocks|, n requires 0 <= n < |blocks| => |blocks[n]|)
  }

  /** `p` is the exclusive prefix sum of `c`: entry `i` is the sum of the entries before `i`. */
  predicate IsExclusiveScan(p: seq<int>, c: seq<int>)
  {
    |p| == |c| && forall i :: 0 <= i < |p| ==> p[i] == PrefixSum(c, i)
  }

  /** The closed form of an exclusive scan agrees with the recurrence that computes it
      (`p[0] == 0`, `p[i] == p[i-1] + c[i-1]`), and the last entry plus the last count is the total. */
  lemma {:induction false} ExclusiveScanRecurrence(p: seq<int>, c: seq<int>)
    ensures IsExclusiveScan(p, c) <==>
      (|p| == |c| && (|p| > 0 ==> p[0] == 0) &&
       forall i :: 1 <= i < |p| ==> p[i] == p[i - 1] + c[i - 1])
    ensures IsExclusiveScan(p, c) && |c| > 0 ==> p[|c| - 1] + c[|c| - 1] == Total(c)
  {
    if |p| == |c| && (|p| > 0 ==> p[0] == 0) && (forall i :: 1 <= i < |p| ==> p[i] == p[i - 1] + c[i - 1]) {
      forall i | 0 <= i < |p| ensures p[i] == PrefixSum(c, i) {
        ScanFromRecurrence(p, c, i);
      }
    }
  }

  lemma {:induction false} ScanFromRecurrence(p: seq<int>, c: seq<int>, i: nat)
    requires |p| == |c| && i < |p|
    requires |p| > 0 ==> p[0] == 0
    requires forall k :: 1 <= k < |p| ==> p[k] == p[k - 1] + c[k - 1]
    ensures p[i] == PrefixSum(c, i)
  {
    if i > 0 {
      ScanFromRecurrence(p, c, i - 1);
    }
  }

  /** With non-negative counts the prefix sums never decrease. */
  lemma {:induction false} PrefixSumMonotone(c: seq<int>, i: nat, j: nat)
    requires forall k :: 0 <= k < |c| ==> c[k] >= 0
    requires i <= j <= |c|
    ensures PrefixSum(c, i) <= PrefixSum(c, j)
  {
    if i < j {
      PrefixSumMonotone(c, i, j - 1);
    }
  }

  /** Every position below the total lies in exactly the segment `[PrefixSum(c, n), PrefixSum(c, n + 1))` of some `n`. */
  lemma {:induction false} SegmentOf(c: seq<int>, k: int) returns (n: nat)
    requires forall i :: 0 <= i < |c| ==> c[i] >= 0
    requires 0 <= k < Total(c)
    ensures n < |c| && PrefixSum(c, n) <= k < PrefixSum(c, n) + c[n]
    ensures forall m :: 0 <= m < |c| && PrefixSum(c, m) <= k < PrefixSum(c, m) + c[m] ==> m == n
  {
    n := SegmentOfUpTo(c, |c|, k);
    forall m | 0 <= m < |c| && PrefixSum(c, m) <= k < PrefixSum(c, m) + c[m]
      ensures m == n
    {
      if m < n {
        PrefixSumMonotone(c, m + 1, n);
      } else if n < m {
        PrefixSumMonotone(c, n + 1, m);
      }
    }
  }

  lemma {:induction false} SegmentOfUpTo(c: seq<int>, m: nat, k: int) returns (n: nat)
    requires forall i :: 0 <= i < |c| ==> c[i] >= 0
    requires m <= |c| && 0 <= k < PrefixSum(c, m)
    ensures n < m && PrefixSum(c, n) <= k < PrefixSum(c, n) + c[n]
  {
    if k >= PrefixSum(c, m - 1) {
      n := m - 1;
    } else {
      n := SegmentOfUpTo(c, m - 1, k);
    }
  }

  /** The concatenation of the first `m` blocks. */
  function ConcatPrefix<T>(blocks: seq<seq<T>>, m: nat): (r: seq<T>)
    requires m <= |blocks|
    ensures |r| == PrefixSum(Counts(blocks), m)
  {
    if m == 0 then [] else ConcatPrefix(blocks, m - 1) + blocks[m - 1]
  }

  /** The concatenation of all blocks in node order: what `MPI_Allgatherv` delivers. */
  function Concat<T>(blocks: seq<seq<T>>): (r: seq<T>)
    ensures |r| == Total(Counts(blocks))
  {
    ConcatPrefix(blocks, |blocks|)
  }

  lemma {:induction false} ConcatPrefixAt<T>(blocks: seq<seq<T>>, m: nat, n: nat, j: nat)
    requires n < m <= |blocks| && j < |blocks[n]|
    ensures 0 <= PrefixSum(Counts(blocks), n) == |ConcatPrefix(blocks, n)|
    ensures PrefixSum(Counts(blocks), n) + j < |ConcatPrefix(blocks, m)|
    ensures ConcatPrefix(blocks, m)[PrefixSum(Counts(blocks), n) + j] == blocks[n][j]
  {
    var prefix := ConcatPrefix(blocks, n);
    assert |prefix| == PrefixSum(Counts(blocks), n);
    if n < m - 1 {
      ConcatPrefixAt(blocks, m - 1, n, j);
    }
  }

  /** Entry `j` of node `n`'s block sits at offset `PrefixSum(counts, n) + j` of the concatenation. */
  lemma ConcatAt<T>(blocks: seq<seq<T>>, n: nat, j: nat)
    requires n < |blocks| && j < |blocks[n]|
    ensures 0 <= PrefixSum(Counts(blocks), n) == |ConcatPrefix(blocks, n)|
    ensures PrefixSum(Counts(blocks), n) + j < |Concat(blocks)|
    ensures Concat(blocks)[PrefixSum(Counts(blocks), n) + j] == blocks[n][j]
  {
    ConcatPrefixAt(blocks, |blocks|, n, j);
  }

  /** `MPI_Allgatherv` with receive counts `Counts(blocks)` and displacements their exclusive
      prefix sums: the receive buffer starts with the concatenation, the rest is untouched. */
  method AllGatherV<T>(blocks: seq<seq<T>>, recvbuf: array<T>)
    requires |Concat(blocks)| <= recvbuf.Length
    modifies recvbuf
    ensures recvbuf[..|Concat(blocks)|] == Concat(blocks)
    ensures recvbuf[|Concat(blocks)|..] == old(recvbuf[|Concat(blocks)|..])
  {
    var flat := Concat(blocks);
    forall k | 0 <= k < |flat| {
      recvbuf[k] := flat[k];
    }
  }
}
