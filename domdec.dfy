/** Domain decomposition bookkeeping: the periodic box is split into an `nx` by `ny` by `nz`
    grid of sub-domains, one per node, node ids running with x fastest. */
module Domdec {
  import opened CInt
  import opened Collectives

  // ---------------------------------------------------------------------------
  // The node grid
  // ---------------------------------------------------------------------------

  /** The node id of grid box `(x, y, z)`. */
  function LinearIndex(nx: int, ny: int, x: int, y: int, z: int): (node: int)
  {
    x + y * nx + z * nx * ny
  }

  predicate InGrid(nx: int, ny: int, nz: int, x: int, y: int, z: int)
  {
    0 <= x < nx && 0 <= y < ny && 0 <= z < nz
  }

  /** Boxes inside the grid get node ids inside `[0, nx * ny * nz)`. */
  lemma LinearIndexBounds(nx: int, ny: int, nz: int, x: int, y: int, z: int)
    requires InGrid(nx, ny, nz, x, y, z)
    ensures 0 <= x + y * nx < nx * ny
    ensures 0 <= LinearIndex(nx, ny, x, y, z) < nx * ny * nz
  {
    AffineBelow(x, nx, y, ny);
    GridProducts(nx, ny, nz, z);
    AffineBelow(x + y * nx, nx * ny, z, nz);
  }

  /** One digit of a mixed-radix number: `0 <= a < b` and `0 <= q < k` give `0 <= a + q*b < k*b`. */
  lemma AffineBelow(a: int, b: int, q: int, k: int)
    requires 0 <= a < b && 0 <= q < k
    ensures 0 <= a + q * b < k * b
  {
    MulLeft(q, k - 1, b);
    MulLeft(0, q, b);
    assert (k - 1) * b + b == k * b;
  }

  /** The regroupings of the grid products the node-id arithmetic uses. */
  lemma GridProducts(nx: int, ny: int, nz: int, z: int)
    ensures z * nx * ny == z * (nx * ny)
    ensures ny * nx == nx * ny
    ensures nz * (nx * ny) == nx * ny * nz
  {
  }

  /** The grid coordinates of node `node`, computed as the constructor does with C++ division:
      `homeiz = m / (nx*ny)`, then `homeiy` from the remainder, then `homeix`. */
  function HomeIndex(nx: int, ny: int, node: int): (h: (int, int, int))
    requires nx > 0 && ny > 0
    ensures LinearIndex(nx, ny, h.0, h.1, h.2) == node
  {
    var iz := Div(node, nx * ny);
    var m := node - iz * (nx * ny);
    var iy := Div(m, nx);
    assert iz * nx * ny == iz * (nx * ny);
    (m - iy * nx, iy, iz)
  }

  /** A node id inside `[0, nx * ny * nz)` decomposes into a box inside the grid. */
  lemma HomeIndexInGrid(nx: int, ny: int, nz: int, node: int)
    requires nx > 0 && ny > 0 && nz > 0
    requires 0 <= node < nx * ny * nz
    ensures var h := HomeIndex(nx, ny, node); InGrid(nx, ny, nz, h.0, h.1, h.2)
  {
    var p := nx * ny;
    MulLeft(1, ny, nx);
    DivOfNonNegative(node, p);
    assert nx * ny * nz == nz * p;
    QuotientBelow(node, p, nz);
    var m := node - (node / p) * p;
    assert 0 <= m < p;
    DivOfNonNegative(m, nx);
    assert p == ny * nx;
    QuotientBelow(m, nx, ny);
  }

  /** Decomposing the id of a box inside the grid gives that box back. */
  lemma HomeIndexOfLinear(nx: int, ny: int, nz: int, x: int, y: int, z: int)
    requires InGrid(nx, ny, nz, x, y, z)
    ensures HomeIndex(nx, ny, LinearIndex(nx, ny, x, y, z)) == (x, y, z)
  {
    LinearIndexBounds(nx, ny, nz, x, y, z);
    GridProducts(nx, ny, nz, z);
    var node := LinearIndex(nx, ny, x, y, z);
    var m := x + y * nx;
    assert node == z * (nx * ny) + m;
    EuclidUnique(node, nx * ny, z, m);
    DivOfNonNegative(node, nx * ny);
    EuclidUnique(m, nx, y, x);
    DivOfNonNegative(m, nx);
  }

  // ---------------------------------------------------------------------------
  // Periodic lookup
  // ---------------------------------------------------------------------------

  /** The representative of `i` in `[0, n)`: what the pair of while-loops of the lookup leaves. */
  function Wrap(i: int, n: int): (r: int)
    requires n > 0
    ensures 0 <= r < n
  {
    i % n
  }

  /** Shifting by any number of periods, however negative, does not change the wrapped value. */
  lemma WrapShift(i: int, k: int, n: int)
    requires n > 0
    ensures Wrap(i + k * n, n) == Wrap(i, n)
  {
    assert i == (i / n) * n + i % n;
    assert (i / n + k) * n == (i / n) * n + k * n;
    EuclidUnique(i + k * n, n, i / n + k, i % n);
  }

  /** Coordinates already inside `[0, n)` are not moved. */
  lemma WrapOfInRange(i: int, n: int)
    requires 0 <= i < n
    ensures Wrap(i, n) == i
  {
    EuclidUnique(i, n, 0, i);
  }

  /** The node owning box `(ix, iy, iz)` of the periodically repeated grid. */
  function NodeIndPbc(nx: int, ny: int, nz: int, ix: int, iy: int, iz: int): (node: int)
    requires nx > 0 && ny > 0 && nz > 0
  {
    LinearIndex(nx, ny, Wrap(ix, nx), Wrap(iy, ny), Wrap(iz, nz))
  }

  /** Every box, however far outside the grid, is owned by a valid node. */
  lemma NodeIndPbcInRange(nx: int, ny: int, nz: int, ix: int, iy: int, iz: int)
    requires nx > 0 && ny > 0 && nz > 0
    ensures 0 <= NodeIndPbc(nx, ny, nz, ix, iy, iz) < nx * ny * nz
  {
    LinearIndexBounds(nx, ny, nz, Wrap(ix, nx), Wrap(iy, ny), Wrap(iz, nz));
  }

  /** The lookup is periodic in each axis with the grid extent as period. */
  lemma NodeIndPbcPeriodic(nx: int, ny: int, nz: int, ix: int, iy: int, iz: int, kx: int, ky: int, kz: int)
    requires nx > 0 && ny > 0 && nz > 0
    ensures NodeIndPbc(nx, ny, nz, ix + kx * nx, iy + ky * ny, iz + kz * nz) == NodeIndPbc(nx, ny, nz, ix, iy, iz)
  {
    WrapShift(ix, kx, nx);
    WrapShift(iy, ky, ny);
    WrapShift(iz, kz, nz);
  }

  /** Inside the grid the lookup is the plain linear index. */
  lemma NodeIndPbcOfInGrid(nx: int, ny: int, nz: int, ix: int, iy: int, iz: int)
    requires InGrid(nx, ny, nz, ix, iy, iz)
    ensures NodeIndPbc(nx, ny, nz, ix, iy, iz) == LinearIndex(nx, ny, ix, iy, iz)
  {
    WrapOfInRange(ix, nx);
    WrapOfInRange(iy, ny);
    WrapOfInRange(iz, nz);
  }

  /** Looking up a node's home box gives the node back. */
  lemma NodeIndPbcOfHome(nx: int, ny: int, nz: int, node: int)
    requires nx > 0 && ny > 0 && nz > 0
    requires 0 <= node < nx * ny * nz
    ensures var h := HomeIndex(nx, ny, node); NodeIndPbc(nx, ny, nz, h.0, h.1, h.2) == node
  {
    HomeIndexInGrid(nx, ny, nz, node);
    var h := HomeIndex(nx, ny, node);
    NodeIndPbcOfInGrid(nx, ny, nz, h.0, h.1, h.2);
  }

  // ---------------------------------------------------------------------------
  // Global local-to-global mapping
  // ---------------------------------------------------------------------------

  /** Each node's gathered block displaced by the number of entries of the nodes before it. */
  function Displace(blocks: seq<seq<int>>): (r: seq<seq<int>>)
  {
    seq(|blocks|, n requires 0 <= n < |blocks| =>
      seq(|blocks[n]|, j requires 0 <= j < |blocks[n]| => blocks[n][j] + PrefixSum(Counts(blocks), n)))
  }

  /** The unified global mapping: every node's block, displaced, in node order. */
  function GlobalMap(blocks: seq<seq<int>>): (r: seq<int>)
  {
    Concat(Displace(blocks))
  }

  /** Position `j` of node `n`'s segment of the global mapping holds that node's gathered value
      plus the node's offset. */
  lemma GlobalMapAt(blocks: seq<seq<int>>, n: nat, j: nat)
    requires n < |blocks| && j < |blocks[n]|
    ensures |GlobalMap(blocks)| == |Concat(blocks)| == Total(Counts(blocks))
    ensures 0 <= PrefixSum(Counts(blocks), n) && PrefixSum(Counts(blocks), n) + j < |Concat(blocks)|
    ensures Concat(blocks)[PrefixSum(Counts(blocks), n) + j] == blocks[n][j]
    ensures GlobalMap(blocks)[PrefixSum(Counts(blocks), n) + j] == blocks[n][j] + PrefixSum(Counts(blocks), n)
  {
    DisplaceKeepsCounts(blocks);
    ConcatAt(blocks, n, j);
    ConcatAt(Displace(blocks), n, j);
  }

  /** Displacing changes no block length, so the global mapping is as long as the concatenation. */
  lemma GlobalMapLength(blocks: seq<seq<int>>)
    ensures |GlobalMap(blocks)| == |Concat(blocks)| == Total(Counts(blocks))
  {
    DisplaceKeepsCounts(blocks);
  }

  lemma DisplaceKeepsCounts(blocks: seq<seq<int>>)
    ensures Counts(Displace(blocks)) == Counts(blocks)
  {
  }

  /** Inside node `n`'s segment the global mapping is the concatenation plus the node's offset. */
  lemma SegmentDisplaced(blocks: seq<seq<int>>, n: nat, k: int)
    requires n < |blocks|
    requires 0 <= PrefixSum(Counts(blocks), n) <= k < PrefixSum(Counts(blocks), n) + |blocks[n]|
    ensures k < |Concat(blocks)| == |GlobalMap(blocks)|
    ensures GlobalMap(blocks)[k] == Concat(blocks)[k] + PrefixSum(Counts(blocks), n)
  {
    GlobalMapAt(blocks, n, k - PrefixSum(Counts(blocks), n));
  }

  /** Node 0's segment is not displaced. */
  lemma GlobalMapFirstSegment(blocks: seq<seq<int>>, j: nat)
    requires |blocks| > 0 && j < |blocks[0]|
    ensures j < |GlobalMap(blocks)| && GlobalMap(blocks)[j] == blocks[0][j]
  {
    GlobalMapAt(blocks, 0, j);
  }

  predicate Distinct(s: seq<int>)
  {
    forall i, j :: 0 <= i < j < |s| ==> s[i] != s[j]
  }

  /** `s` holds every value of `[0, n)` exactly once. */
  predicate IsPermutation(s: seq<int>, n: int)
  {
    && |s| == n
    && (forall i :: 0 <= i < |s| ==> 0 <= s[i] < n)
    && Distinct(s)
    && (forall v :: 0 <= v < n ==> v in s)
  }

  /** If every node's block is a permutation of its local range, the global mapping is a
      permutation of `[0, total)`: every global index appears exactly once. */
  lemma GlobalMapIsPermutation(blocks: seq<seq<int>>)
    requires forall n :: 0 <= n < |blocks| ==> IsPermutation(blocks[n], |blocks[n]|)
    ensures IsPermutation(GlobalMap(blocks), Total(Counts(blocks)))
  {
    var c := Counts(blocks);
    var g := GlobalMap(blocks);
    assert Counts(Displace(blocks)) == c;
    forall k | 0 <= k < |g|
      ensures 0 <= g[k] < Total(c)
    {
      GlobalMapValueInRange(blocks, k);
    }
    forall k1, k2 | 0 <= k1 < k2 < |g|
      ensures g[k1] != g[k2]
    {
      GlobalMapValuesDistinct(blocks, k1, k2);
    }
    forall v | 0 <= v < Total(c)
      ensures v in g
    {
      GlobalMapCovers(blocks, v);
    }
  }

  lemma GlobalMapValueInRange(blocks: seq<seq<int>>, k: int)
    requires forall n :: 0 <= n < |blocks| ==> IsPermutation(blocks[n], |blocks[n]|)
    requires 0 <= k < Total(Counts(blocks))
    ensures |GlobalMap(blocks)| == Total(Counts(blocks))
    ensures 0 <= GlobalMap(blocks)[k] < Total(Counts(blocks))
  {
    var n, j := Locate(blocks, k);
    PrefixSumMonotone(Counts(blocks), 0, n);
    PrefixSumMonotone(Counts(blocks), n + 1, |blocks|);
    assert IsPermutation(blocks[n], |blocks[n]|);
    assert 0 <= blocks[n][j] < |blocks[n]|;
  }

  lemma GlobalMapValuesDistinct(blocks: seq<seq<int>>, k1: int, k2: int)
    requires forall n :: 0 <= n < |blocks| ==> IsPermutation(blocks[n], |blocks[n]|)
    requires 0 <= k1 < k2 < Total(Counts(blocks))
    ensures |GlobalMap(blocks)| == Total(Counts(blocks))
    ensures GlobalMap(blocks)[k1] != GlobalMap(blocks)[k2]
  {
    var c := Counts(blocks);
    var n1, j1 := Locate(blocks, k1);
    var n2, j2 := Locate(blocks, k2);
    if n1 < n2 {
      PrefixSumMonotone(c, n1 + 1, n2);
    } else if n2 < n1 {
      PrefixSumMonotone(c, n2 + 1, n1);
    } else {
      assert Distinct(blocks[n1]);
    }
  }

  lemma GlobalMapCovers(blocks: seq<seq<int>>, v: int)
    requires forall n :: 0 <= n < |blocks| ==> IsPermutation(blocks[n], |blocks[n]|)
    requires 0 <= v < Total(Counts(blocks))
    ensures v in GlobalMap(blocks)
  {
    var c := Counts(blocks);
    var n := SegmentOf(c, v);
    var off := PrefixSum(c, n);
    assert IsPermutation(blocks[n], |blocks[n]|);
    assert v - off in blocks[n];
    var i :| 0 <= i < |blocks[n]| && blocks[n][i] == v - off;
    GlobalMapAt(blocks, n, i);
    assert GlobalMap(blocks)[off + i] == v;
  }

  /** The node `n` and local position `j` behind position `k` of the global mapping. */
  lemma Locate(blocks: seq<seq<int>>, k: int) returns (n: nat, j: nat)
    requires 0 <= k < Total(Counts(blocks))
    ensures n < |blocks| && j < |blocks[n]|
    ensures k == PrefixSum(Counts(blocks), n) + j
    ensures |GlobalMap(blocks)| == Total(Counts(blocks))
    ensures PrefixSum(Counts(blocks), n + 1) == PrefixSum(Counts(blocks), n) + |blocks[n]|
    ensures GlobalMap(blocks)[k] == blocks[n][j] + PrefixSum(Counts(blocks), n)
  {
    n := SegmentOf(Counts(blocks), k);
    j := k - PrefixSum(Counts(blocks), n);
    GlobalMapAt(blocks, n, j);
  }

  // ---------------------------------------------------------------------------
  // Scatter through the mapping
  // ---------------------------------------------------------------------------

  /** `dst` after the writes `dst[idx[i]] := vals[i]` for `i = 0, 1, ...` in order. */
  function Scatter<T>(dst: seq<T>, idx: seq<int>, vals: seq<T>): (r: seq<T>)
    requires |idx| == |vals|
    requires forall i :: 0 <= i < |idx| ==> 0 <= idx[i] < |dst|
    ensures |r| == |dst|
    decreases |idx|
  {
    if |idx| == 0 then dst
    else Scatter(dst, idx[..|idx| - 1], vals[..|idx| - 1])[idx[|idx| - 1] := vals[|idx| - 1]]
  }

  /** With distinct indices every value lands in its own slot. */
  lemma {:induction false} ScatterAt<T>(dst: seq<T>, idx: seq<int>, vals: seq<T>, i: nat)
    requires |idx| == |vals|
    requires forall k :: 0 <= k < |idx| ==> 0 <= idx[k] < |dst|
    requires Distinct(idx) && i < |idx|
    ensures Scatter(dst, idx, vals)[idx[i]] == vals[i]
    decreases |idx|
  {
    var last := |idx| - 1;
    if i < last {
      ScatterAt(dst, idx[..last], vals[..last], i);
    }
  }

  /** Slots that no index names keep their old value. */
  lemma {:induction false} ScatterUntouched<T>(dst: seq<T>, idx: seq<int>, vals: seq<T>, j: int)
    requires |idx| == |vals|
    requires forall k :: 0 <= k < |idx| ==> 0 <= idx[k] < |dst|
    requires 0 <= j < |dst| && j !in idx
    ensures Scatter(dst, idx, vals)[j] == dst[j]
    decreases |idx|
  {
    if |idx| > 0 {
      var last := |idx| - 1;
      assert j !in idx[..last];
      ScatterUntouched(dst, idx[..last], vals[..last], j);
    }
  }

  /** Through a permutation every slot is written exactly once, so the result does not depend
      on what the destination held before. */
  lemma ScatterOverwritesAll<T>(dst: seq<T>, dst': seq<T>, idx: seq<int>, vals: seq<T>)
    requires |dst| == |dst'| && |idx| == |vals|
    requires IsPermutation(idx, |dst|)
    ensures Scatter(dst, idx, vals) == Scatter(dst', idx, vals)
  {
    var r, r' := Scatter(dst, idx, vals), Scatter(dst', idx, vals);
    forall j | 0 <= j < |dst|
      ensures r[j] == r'[j]
    {
      assert j in idx;
      var i :| 0 <= i < |idx| && idx[i] == j;
      ScatterAt(dst, idx, vals, i);
      ScatterAt(dst', idx, vals, i);
    }
  }

  /** Round trip of the decomposition: when every particle's value is its global index, gathering
      those values and scattering them through the global mapping yields the identity array. */
  lemma CombineRoundTrip(blocks: seq<seq<int>>, xs: seq<seq<real>>, dst: seq<real>)
    requires forall n :: 0 <= n < |blocks| ==> IsPermutation(blocks[n], |blocks[n]|)
    requires Counts(xs) == Counts(blocks)
    requires forall n, j :: 0 <= n < |xs| && 0 <= j < |xs[n]| ==>
      xs[n][j] == (blocks[n][j] + PrefixSum(Counts(blocks), n)) as real
    requires |dst| == Total(Counts(blocks))
    ensures IsPermutation(GlobalMap(blocks), |dst|) && |Concat(xs)| == |dst|
    ensures forall j :: 0 <= j < |dst| ==> Scatter(dst, GlobalMap(blocks), Concat(xs))[j] == j as real
  {
    GlobalMapIsPermutation(blocks);
    var g := GlobalMap(blocks);
    var flat := Concat(xs);
    forall k | 0 <= k < |dst|
      ensures flat[k] == g[k] as real
    {
      var n, j := Locate(blocks, k);
      ConcatAt(xs, n, j);
    }
    forall v | 0 <= v < |dst|
      ensures Scatter(dst, g, flat)[v] == v as real
    {
      assert v in g;
      var i :| 0 <= i < |g| && g[i] == v;
      ScatterAt(dst, g, flat, i);
    }
  }

  // ---------------------------------------------------------------------------
  // Fraction and boundary tables
  // ---------------------------------------------------------------------------

  /** `n` equal fractions `1/n`: the uniform partition of one axis. */
  function Uniform(n: int): (r: seq<real>)
    requires n > 0
  {
    seq(n, _ => 1.0 / (n as real))
  }

  /** `n` value-initialised entries, as `std::vector<double>::resize` leaves them. */
  function Zeros(n: nat): (r: seq<real>)
  {
    seq(n, _ => 0.0)
  }

  function RealSum(s: seq<real>): (sum: real)
  {
    if |s| == 0 then 0.0 else RealSum(s[..|s| - 1]) + s[|s| - 1]
  }

  /** The uniform fractions of an axis add up to the whole box. */
  lemma UniformSumsToOne(n: int)
    requires n > 0
    ensures RealSum(Uniform(n)) == 1.0
  {
    ConstantSum(n, 1.0 / (n as real));
  }

  lemma {:induction false} ConstantSum(k: nat, v: real)
    ensures RealSum(seq(k, _ => v)) == (k as real) * v
  {
    if k > 0 {
      assert seq(k, _ => v)[..k - 1] == seq(k - 1, _ => v);
      ConstantSum(k - 1, v);
    }
  }

  // ---------------------------------------------------------------------------
  // The in-place phases of buildGlobal_loc2glo
  // ---------------------------------------------------------------------------

  /** `precv[0] = 0; precv[i] = precv[i-1] + nrecv[i-1]`: the exclusive prefix sum of the counts. */
  method ExclusiveScanInto(nrecv: array<int>, precv: array<int>)
    requires nrecv.Length == precv.Length > 0 && nrecv != precv
    modifies precv
    ensures IsExclusiveScan(precv[..], nrecv[..])
  {
    precv[0] := 0;
    var i := 1;
    while i < precv.Length
      invariant 1 <= i <= precv.Length
      invariant forall k :: 0 <= k < i ==> precv[k] == PrefixSum(nrecv[..], k)
    {
      precv[i] := precv[i - 1] + nrecv[i - 1];
      i := i + 1;
    }
  }

  /** The inner loop of the displacement: adds `offset` to every entry of `[lo, hi)`. */
  method ShiftSegment(a: array<int>, lo: int, hi: int, offset: int)
    requires 0 <= lo <= hi <= a.Length
    modifies a
    ensures forall k :: lo <= k < hi ==> a[k] == old(a[k]) + offset
    ensures forall k :: 0 <= k < a.Length && !(lo <= k < hi) ==> a[k] == old(a[k])
  {
    var i := lo;
    while i < hi
      invariant lo <= i <= hi
      invariant forall k :: lo <= k < i ==> a[k] == old(a[k]) + offset
      invariant forall k :: 0 <= k < a.Length && !(lo <= k < i) ==> a[k] == old(a[k])
    {
      a[i] := a[i] + offset;
      i := i + 1;
    }
  }

  /** Adds node `inode`'s offset `precv[inode]` to every entry of its segment, for `inode >= 1`. */
  method DisplaceSegments(ghost blocks: seq<seq<int>>, loc2glo_glo: array<int>, nrecv: array<int>, precv: array<int>)
    requires |blocks| > 0 && nrecv.Length == |blocks| && precv.Length == |blocks|
    requires nrecv[..] == Counts(blocks) && IsExclusiveScan(precv[..], nrecv[..])
    requires loc2glo_glo[..] == Concat(blocks)
    requires loc2glo_glo != nrecv && loc2glo_glo != precv
    modifies loc2glo_glo
    ensures loc2glo_glo[..] == GlobalMap(blocks)
  {
    ghost var c := Counts(blocks);
    ghost var flat := Concat(blocks);
    ghost var g := GlobalMap(blocks);
    ghost var total := |flat|;
    GlobalMapLength(blocks);
    PrefixSumMonotone(c, 1, |blocks|);
    forall k | 0 <= k < |blocks[0]|
      ensures k < |g| && g[k] == flat[k]
    {
      GlobalMapAt(blocks, 0, k);
    }
    var inode := 1;
    while inode < nrecv.Length
      invariant 1 <= inode <= |blocks|
      invariant 0 <= PrefixSum(c, inode) <= total
      invariant forall k :: 0 <= k < PrefixSum(c, inode) ==> loc2glo_glo[k] == g[k]
      invariant forall k :: PrefixSum(c, inode) <= k < total ==> loc2glo_glo[k] == flat[k]
    {
      var istart := precv[inode];
      var iend := precv[inode] + nrecv[inode];
      assert istart == PrefixSum(c, inode) by { assert precv[..][inode] == precv[inode]; }
      assert iend == PrefixSum(c, inode + 1) by { assert nrecv[..][inode] == nrecv[inode]; }
      PrefixSumMonotone(c, inode + 1, |blocks|);
      ShiftSegment(loc2glo_glo, istart, iend, precv[inode]);
      forall k | istart <= k < iend
        ensures loc2glo_glo[k] == g[k]
      {
        SegmentDisplaced(blocks, inode, k);
      }
      inode := inode + 1;
    }
  }

  // ---------------------------------------------------------------------------
  // The decomposition object
  // ---------------------------------------------------------------------------

  class Domdec {
    const ncoord_glo: int
    const boxx: real
    const boxy: real
    const boxz: real
    const rnl: real
    const nx: int
    const ny: int
    const nz: int
    const numnode: int
    const mynode: int
    const homeix: int
    const homeiy: int
    const homeiz: int

    /** Fractional widths: `fx[ix]`, `fy[ix][iy]`, `fz[ix][iy][iz]`. */
    var fx: seq<real>
    var fy: seq<seq<real>>
    var fz: seq<seq<seq<real>>>
    /** Boundaries: one more entry than the fractions along the last axis. */
    var bndx: seq<real>
    var bndy: seq<seq<real>>
    var bndz: seq<seq<seq<real>>>

    predicate Valid()
    {
      nx > 0 && ny > 0 && nz > 0 && numnode == nx * ny * nz
    }

    /** The home coordinates are the decomposition of this node's rank. */
    predicate HomeConsistent()
    {
      Valid() && (homeix, homeiy, homeiz) == HomeIndex(nx, ny, mynode)
    }

    /** The nested shapes of the fraction and boundary tables. */
    predicate TablesShaped()
      reads this
    {
      && |fx| == nx && |bndx| == nx + 1
      && |fy| == nx && |bndy| == nx
      && (forall ix :: 0 <= ix < nx ==> |fy[ix]| == ny && |bndy[ix]| == ny + 1)
      && |fz| == nx && |bndz| == nx
      && (forall ix :: 0 <= ix < nx ==> |fz[ix]| == ny && |bndz[ix]| == ny)
      && (forall ix, iy :: 0 <= ix < nx && 0 <= iy < ny ==> |fz[ix][iy]| == nz && |bndz[ix][iy]| == nz + 1)
    }

    /** Every fraction has its uniform value `1/nx`, `1/ny` or `1/nz`. */
    predicate UniformFractions()
      requires Valid() && TablesShaped()
      reads this
    {
      && fx == Uniform(nx)
      && (forall ix :: 0 <= ix < nx ==> fy[ix] == Uniform(ny))
      && (forall ix, iy :: 0 <= ix < nx && 0 <= iy < ny ==> fz[ix][iy] == Uniform(nz))
    }

    constructor (ncoord_glo: int, boxx: real, boxy: real, boxz: real, rnl: real,
                 nx: int, ny: int, nz: int, mynode: int)
      requires nx > 0 && ny > 0 && nz > 0
      ensures Valid() && TablesShaped() && UniformFractions()
      ensures this.ncoord_glo == ncoord_glo && this.mynode == mynode
      ensures this.boxx == boxx && this.boxy == boxy && this.boxz == boxz && this.rnl == rnl
      ensures this.nx == nx && this.ny == ny && this.nz == nz && numnode == nx * ny * nz
      ensures HomeConsistent()
    {
      this.ncoord_glo, this.boxx, this.boxy, this.boxz, this.rnl := ncoord_glo, boxx, boxy, boxz, rnl;
      this.nx, this.ny, this.nz, this.numnode, this.mynode := nx, ny, nz, nx * ny * nz, mynode;

      var m := mynode;
      var iz := Div(m, nx * ny);
      m := m - iz * (nx * ny);
      var iy := Div(m, nx);
      m := m - iy * nx;
      this.homeiz, this.homeiy, this.homeix := iz, iy, m;

      this.fx := Uniform(nx);
      this.bndx := Zeros(nx + 1);

      var fyRows: seq<seq<real>> := seq(nx, _ => []);
      var byRows: seq<seq<real>> := seq(nx, _ => []);
      var ix := 0;
      while ix < nx
        invariant 0 <= ix <= nx && |fyRows| == nx && |byRows| == nx
        invariant forall k :: 0 <= k < ix ==> fyRows[k] == Uniform(ny) && |byRows[k]| == ny + 1
      {
        fyRows := fyRows[ix := Uniform(ny)];
        byRows := byRows[ix := Zeros(ny + 1)];
        ix := ix + 1;
      }
      this.fy, this.bndy := fyRows, byRows;

      var fzRows: seq<seq<seq<real>>> := seq(nx, _ => []);
      var bzRows: seq<seq<seq<real>>> := seq(nx, _ => []);
      ix := 0;
      while ix < nx
        invariant 0 <= ix <= nx && |fzRows| == nx && |bzRows| == nx
        invariant forall k :: 0 <= k < ix ==> |fzRows[k]| == ny && |bzRows[k]| == ny
        invariant forall k, l :: 0 <= k < ix && 0 <= l < ny ==>
          fzRows[k][l] == Uniform(nz) && |bzRows[k][l]| == nz + 1
      {
        var fzCol: seq<seq<real>> := seq(ny, _ => []);
        var bzCol: seq<seq<real>> := seq(ny, _ => []);
        var jy := 0;
        while jy < ny
          invariant 0 <= jy <= ny && |fzCol| == ny && |bzCol| == ny
          invariant forall l :: 0 <= l < jy ==> fzCol[l] == Uniform(nz) && |bzCol[l]| == nz + 1
        {
          fzCol := fzCol[jy := Uniform(nz)];
          bzCol := bzCol[jy := Zeros(nz + 1)];
          jy := jy + 1;
        }
        fzRows := fzRows[ix := fzCol];
        bzRows := bzRows[ix := bzCol];
        ix := ix + 1;
      }
      this.fz, this.bndz := fzRows, bzRows;
    }

    /** `get_nodeind_pbc`: fold each coordinate into range by repeated addition and subtraction
        of the grid extent, then linearise. */
    method GetNodeIndPbc(ix: int, iy: int, iz: int) returns (r: int)
      requires Valid()
      ensures r == NodeIndPbc(nx, ny, nz, ix, iy, iz)
      ensures 0 <= r < numnode
      ensures HomeConsistent() && 0 <= mynode < numnode && (ix, iy, iz) == (homeix, homeiy, homeiz) ==> r == mynode
    {
      var ixt := ix;
      while ixt < 0
        invariant Wrap(ixt, nx) == Wrap(ix, nx)
        decreases -ixt
      {
        WrapShift(ixt, 1, nx);
        ixt := ixt + nx;
      }
      while ixt >= nx
        invariant ixt >= 0 && Wrap(ixt, nx) == Wrap(ix, nx)
        decreases ixt
      {
        WrapShift(ixt - nx, 1, nx);
        ixt := ixt - nx;
      }
      var iyt := iy;
      while iyt < 0
        invariant Wrap(iyt, ny) == Wrap(iy, ny)
        decreases -iyt
      {
        WrapShift(iyt, 1, ny);
        iyt := iyt + ny;
      }
      while iyt >= ny
        invariant iyt >= 0 && Wrap(iyt, ny) == Wrap(iy, ny)
        decreases iyt
      {
        WrapShift(iyt - ny, 1, ny);
        iyt := iyt - ny;
      }
      var izt := iz;
      while izt < 0
        invariant Wrap(izt, nz) == Wrap(iz, nz)
        decreases -izt
      {
        WrapShift(izt, 1, nz);
        izt := izt + nz;
      }
      while izt >= nz
        invariant izt >= 0 && Wrap(izt, nz) == Wrap(iz, nz)
        decreases izt
      {
        WrapShift(izt - nz, 1, nz);
        izt := izt - nz;
      }
      WrapOfInRange(ixt, nx);
      WrapOfInRange(iyt, ny);
      WrapOfInRange(izt, nz);
      NodeIndPbcInRange(nx, ny, nz, ix, iy, iz);
      r := ixt + iyt * nx + izt * nx * ny;
      if HomeConsistent() && 0 <= mynode < numnode {
        NodeIndPbcOfHome(nx, ny, nz, mynode);
      }
    }

    /** `buildGlobal_loc2glo`, seen from the whole system: `nodeLoc2glo[n]` is node `n`'s local
        `loc2glo` array (this node's is `nodeLoc2glo[mynode]`). Returns false where the count
        assertion aborts the run. */
    method BuildGlobalLoc2glo(nodeLoc2glo: seq<seq<int>>, loc2glo_glo: array<int>,
                              nrecv: array<int>, precv: array<int>) returns (ok: bool)
      requires Valid()
      requires |nodeLoc2glo| == numnode
      requires nrecv.Length == numnode && precv.Length == numnode && loc2glo_glo.Length == ncoord_glo
      requires nrecv != precv && loc2glo_glo != nrecv && loc2glo_glo != precv
      modifies loc2glo_glo, nrecv, precv
      ensures nrecv[..] == Counts(nodeLoc2glo)
      ensures IsExclusiveScan(precv[..], nrecv[..])
      ensures ok <==> Total(Counts(nodeLoc2glo)) == ncoord_glo
      ensures ok ==> loc2glo_glo[..] == GlobalMap(nodeLoc2glo)
      ensures !ok ==> loc2glo_glo[..] == old(loc2glo_glo[..])
      ensures ok && (forall n :: 0 <= n < numnode ==> IsPermutation(nodeLoc2glo[n], |nodeLoc2glo[n]|)) ==>
        IsPermutation(loc2glo_glo[..], ncoord_glo)
    {
      // MPI_Allgather: every node announces its count.
      forall n | 0 <= n < numnode {
        nrecv[n] := |nodeLoc2glo[n]|;
      }
      assert nrecv[..] == Counts(nodeLoc2glo);

      ExclusiveScanInto(nrecv, precv);

      ok := precv[numnode - 1] + nrecv[numnode - 1] == ncoord_glo;
      ExclusiveScanRecurrence(precv[..], nrecv[..]);
      if !ok {
        return;
      }

      // MPI_Allgatherv: the concatenation of all nodes' loc2glo arrays.
      AllGatherV(nodeLoc2glo, loc2glo_glo);
      assert loc2glo_glo[..] == Concat(nodeLoc2glo);

      DisplaceSegments(nodeLoc2glo, loc2glo_glo, nrecv, precv);
      if forall n :: 0 <= n < numnode ==> IsPermutation(nodeLoc2glo[n], |nodeLoc2glo[n]|) {
        GlobalMapIsPermutation(nodeLoc2glo);
      }
    }

    /** `combineData`, seen from the whole system: `nodeX[n]` is node `n`'s send buffer `x`.
        The gathered values land in `xrecvbuf`, then `xglo[loc2glo_glo[i]] := xrecvbuf[i]` in order. */
    method CombineData(loc2glo_glo: array<int>, nrecv: array<int>, precv: array<int>,
                       nodeX: seq<seq<real>>, xrecvbuf: array<real>, xglo: array<real>)
      requires Valid()
      requires |nodeX| == numnode && nrecv.Length == numnode && precv.Length == numnode
      requires nrecv[..] == Counts(nodeX) && IsExclusiveScan(precv[..], nrecv[..])
      requires |Concat(nodeX)| == ncoord_glo
      requires loc2glo_glo.Length >= ncoord_glo && xrecvbuf.Length >= ncoord_glo
      requires forall i :: 0 <= i < ncoord_glo ==> 0 <= loc2glo_glo[i] < xglo.Length
      requires xrecvbuf != xglo
      modifies xrecvbuf, xglo
      ensures xrecvbuf[..ncoord_glo] == Concat(nodeX)
      ensures xrecvbuf[ncoord_glo..] == old(xrecvbuf[ncoord_glo..])
      ensures xglo[..] == Scatter(old(xglo[..]), loc2glo_glo[..ncoord_glo], Concat(nodeX))
      ensures Distinct(loc2glo_glo[..ncoord_glo]) ==>
        forall i :: 0 <= i < ncoord_glo ==> xglo[loc2glo_glo[i]] == xrecvbuf[i]
    {
      AllGatherV(nodeX, xrecvbuf);
      assert xrecvbuf[ncoord_glo..] == old(xrecvbuf[ncoord_glo..]);
      ghost var idx := loc2glo_glo[..ncoord_glo];
      ghost var vals := xrecvbuf[..ncoord_glo];
      var i := 0;
      while i < ncoord_glo
        invariant 0 <= i <= ncoord_glo
        invariant xglo[..] == Scatter(old(xglo[..]), idx[..i], vals[..i])
        invariant xrecvbuf[ncoord_glo..] == old(xrecvbuf[ncoord_glo..])
        modifies xglo
      {
        var j := loc2glo_glo[i];
        xglo[j] := xrecvbuf[i];
        assert idx[..i + 1][..i] == idx[..i];
        assert vals[..i + 1][..i] == vals[..i];
        i := i + 1;
      }
      assert idx[..ncoord_glo] == idx && vals[..ncoord_glo] == vals;
      if Distinct(idx) {
        forall i | 0 <= i < ncoord_glo
          ensures xglo[loc2glo_glo[i]] == xrecvbuf[i]
        {
          ScatterAt(old(xglo[..]), idx, vals, i);
          assert xglo[..][idx[i]] == xglo[loc2glo_glo[i]];
        }
      }
    }
  }
}
