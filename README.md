# Domain-decomposition bookkeeping of a GPU molecular-dynamics engine, in Dafny

This project models the integer bookkeeping at the heart of the engine's spatial partition,
together with three small headers it builds on:

- **Domdec** (`domdec.dfy`). The simulation box is split over an `nx × ny × nz` grid of nodes.
  - The constructor decomposes the node rank `mynode` into home coordinates `(homeix, homeiy, homeiz)`, using C++ division. It then builds the nested fraction tables `fx`, `fy`, `fz` at the uniform values `1/nx`, `1/ny`, `1/nz`, and the boundary tables `bx`, `by`, `bz`, each with one more entry along its last axis. The boundary tables are the fields `bndx`, `bndy`, `bndz`, because `by` is a Dafny keyword.
  - `get_nodeind_pbc` folds any box coordinate into range with while-loops and then linearises it.
  - `buildGlobal_loc2glo` gathers every node's count, takes the exclusive prefix sum `precv`, gathers every node's local-to-global index array, and shifts each node's segment by its offset.
  - `combineData` gathers a per-node field and scatters it into the global array through that map.

  The MPI collectives are modelled from the whole system's point of view (`collectives.dfy`):
  - node `n`'s contribution is `blocks[n]`;
  - `MPI_Allgather` of the counts delivers `Counts(blocks)`;
  - `MPI_Allgatherv` delivers `Concat(blocks)`, with node `n`'s block at offset `PrefixSum(Counts(blocks), n)`.
- **XYZ** (`xyz.dfy`): `class XYZ<T>`, the strided-array base. It is a direct model of the default constructor, of `match` (one predicate covers both overloads) and of `swap`.
- **AtomGroupBase** (`atomgroupbase.dfy`): the table-length state holder.
  - Its invariant is `numTable <= lenTable`.
  - `set_numTable`, `set_type` and the getters are modelled. The C++ field `type` is named `groupType`, because `type` is a Dafny keyword.
- **NeighborList** (`neighborlist.dfy`): `num_excl<tilesize>::val`, the word count of a tile's exclusion mask, and `tile_excl_t`, a mask of that many 32-bit words.

`cint.dfy` gives C++ integer division, which rounds toward zero. Dafny's `/` is Euclidean. The two differ for a negative `mynode` and for `num_excl<0>`.

Three points about the code that the model keeps:
- The count check in `buildGlobal_loc2glo` happens once, after the prefix sum and before the data exchange (Domdec.cpp:85).
- The global map is a permutation of `[0, ncoord_glo)` provided every node's local map is a permutation of `[0, nrecv[n])`. The code does not check this, so the model proves it under that hypothesis (`Domdec.GlobalMapIsPermutation`).
- The constructor calls `update_bxyz`, whose body is not part of this model. The boundary tables therefore keep their shapes and the zero values that `resize` gives them.

## Model

| member | source | states |
|---|---|---|
| CInt.Div | Domdec.cpp:17-19 | C++ `int` division by a positive divisor: the remainder has the dividend's sign and is smaller than the divisor in magnitude. |
| CInt.EuclidUnique | Domdec.cpp:16-21 | A quotient and remainder with `a == q*b + r` and `0 <= r < b` are Dafny's `a / b` and `a % b`. This is what makes the decomposition invertible. |
| Collectives.Counts | Domdec.cpp:80 | `MPI_Allgather` of every node's count: entry `n` is the length of node `n`'s block. |
| Collectives.ExclusiveScanRecurrence | Domdec.cpp:82-85 | The closed-form exclusive prefix sum holds exactly when the recurrence `precv[0] == 0`, `precv[i] == precv[i-1] + nrecv[i-1]` holds (both directions). Then `precv[last] + nrecv[last]` is the total count, which is the quantity the assertion compares with `ncoord_glo`. |
| Collectives.PrefixSumMonotone | Domdec.cpp:91-97 | With non-negative counts the offsets never decrease, so the segments are laid out in node order. |
| Collectives.SegmentOf | Domdec.cpp:91-94 | Every position below the total lies in the segment `[precv[n], precv[n] + nrecv[n])` of exactly one node `n`. |
| Collectives.Concat | Domdec.cpp:87 | The gathered buffer is exactly as long as the sum of the node counts. |
| Collectives.ConcatAt | Domdec.cpp:87 | `MPI_Allgatherv` with displacements `precv`: entry `j` of node `n`'s block is found at `precv[n] + j` of the receive buffer. |
| Collectives.AllGatherV | Domdec.cpp:110 | The receive buffer starts with the concatenation of all nodes' blocks in node order, and every entry past it is left unchanged. |
| Domdec.LinearIndex | Domdec.cpp:68 | Defines the node id of box `(ix, iy, iz)` as `ix + iy*nx + iz*nx*ny`, so x runs fastest. |
| Domdec.LinearIndexBounds | Domdec.cpp:68 | For in-grid coordinates, `ix + iy*nx + iz*nx*ny` is a node id in `[0, nx*ny*nz)`. |
| Domdec.HomeIndex | Domdec.cpp:16-21 | The home coordinates, computed with C++ division, linearise back to `mynode` for every integer `mynode`. |
| Domdec.HomeIndexInGrid | Domdec.cpp:16-21 | For `0 <= mynode < nx*ny*nz`, `homeix`, `homeiy` and `homeiz` lie in `[0,nx)`, `[0,ny)` and `[0,nz)`. |
| Domdec.HomeIndexOfLinear | Domdec.cpp:16-21 | The decomposition inverts linearisation: decomposing `ix + iy*nx + iz*nx*ny` gives back `(ix, iy, iz)` for in-grid coordinates. |
| Domdec.Wrap | Domdec.cpp:58-66 | The folded coordinate lies in `[0, n)`. |
| Domdec.WrapShift | Domdec.cpp:59-66 | Adding any multiple of the extent, including a large negative one, does not change the folded coordinate. This is the invariant kept by each folding loop. |
| Domdec.WrapOfInRange | Domdec.cpp:58-66 | An in-range coordinate is left as it is, so its folding loops run zero times. |
| Domdec.NodeIndPbc | Domdec.cpp:58-68 | Defines the periodic lookup: each coordinate is folded into `[0, n)` of its axis, then the folded box is linearised. |
| Domdec.NodeIndPbcInRange | Domdec.cpp:58-68 | For every integer input, the periodic lookup is a node id in `[0, nx*ny*nz)`. |
| Domdec.NodeIndPbcPeriodic | Domdec.cpp:58-66 | The lookup is periodic in all three axes with periods `nx`, `ny` and `nz`, for all integer shifts. |
| Domdec.NodeIndPbcOfInGrid | Domdec.cpp:58-68 | For in-range coordinates the lookup is plain linearisation `ix + iy*nx + iz*nx*ny`. |
| Domdec.NodeIndPbcOfHome | Domdec.cpp:16-21 | Looking up a node's home coordinates gives that node back: `get_nodeind_pbc(homeix, homeiy, homeiz) == mynode`. |
| Domdec.Displace | Domdec.cpp:89-97 | Defines the displaced blocks: every entry of node `n`'s block plus that node's offset `precv[n]`. |
| Domdec.GlobalMap | Domdec.cpp:89-97 | Defines the unified `loc2glo_glo`: the displaced blocks concatenated in node order. |
| Domdec.GlobalMapLength | Domdec.cpp:87-97 | The global map is as long as the gathered buffer and the sum of the counts. |
| Domdec.GlobalMapAt | Domdec.cpp:91-97 | Position `precv[n] + j` of the global map holds node `n`'s gathered entry `j` plus `precv[n]`. |
| Domdec.SegmentDisplaced | Domdec.cpp:94-96 | Inside node `n`'s segment, every position holds the gathered value plus `precv[n]`. |
| Domdec.GlobalMapFirstSegment | Domdec.cpp:89-91 | Node 0's segment is the gathered data unchanged. |
| Domdec.GlobalMapIsPermutation | Domdec.cpp:87-97 | If each node's block is a permutation of `[0, nrecv[n])`, the global map is a permutation of `[0, ncoord_glo)`: it has the right length and range, its values are distinct, and every index appears. |
| Domdec.GlobalMapValueInRange | Domdec.cpp:91-97 | Under the same hypothesis, every displaced value lies in `[0, ncoord_glo)`. |
| Domdec.GlobalMapValuesDistinct | Domdec.cpp:91-97 | Under the same hypothesis, no two positions of the global map hold the same value. |
| Domdec.GlobalMapCovers | Domdec.cpp:91-97 | Under the same hypothesis, every global index appears in the map. |
| Domdec.Locate | Domdec.cpp:91-97 | Every position of the global map belongs to a node `n` and an offset `j` within that node's block, and holds that block's entry `j` plus `precv[n]`. |
| Domdec.Scatter | Domdec.cpp:112-115 | Scattering values through an index list leaves the target length unchanged. |
| Domdec.ScatterAt | Domdec.cpp:112-114 | With distinct indices, `xglo[loc2glo_glo[i]] == xrecvbuf[i]` for every `i`. |
| Domdec.ScatterUntouched | Domdec.cpp:112-115 | A slot that no index names keeps its old value. |
| Domdec.ScatterOverwritesAll | Domdec.cpp:112-115 | When the index list is a permutation of the slots, every slot is written and the result does not depend on the old contents of `xglo`. |
| Domdec.CombineRoundTrip | Domdec.cpp:110-115 | Gathering a field whose entries are their own global indices and scattering it through the global map gives slot `j` the value `j`. The two collectives together put each value where it belongs. |
| Domdec.Uniform | Domdec.cpp:25 | Defines a uniform fraction row of `n` entries, each `1/n`. The same row is assigned at lines 32 and 43. |
| Domdec.UniformSumsToOne | Domdec.cpp:25 | The uniform fractions of one axis sum to 1, so the default partition tiles the unit box. |
| Domdec.ExclusiveScanInto | Domdec.cpp:82-83 | The loop leaves `precv` holding the exclusive prefix sum of `nrecv`. |
| Domdec.DisplaceSegments | Domdec.cpp:91-97 | The displacement double loop turns the gathered buffer into the global map: each node's segment is shifted by its offset, starting from node 1. |
| Domdec.ShiftSegment | Domdec.cpp:94-96 | The inner loop adds the node's offset to every entry of its segment `[istart, iend)` and leaves every other entry as it was. |
| Domdec.Domdec.HomeConsistent | Domdec.cpp:16-21 | Defines the relation between the home coordinates and the rank: they are the C++ decomposition of `mynode` on a valid grid. |
| Domdec.Domdec.constructor | Domdec.cpp:9-45 | Stores the parameters and sets `numnode = nx*ny*nz`. It sets the home coordinates to the C++ decomposition of `mynode` (`HomeConsistent`). `fx` has `nx` entries, `fy[ix]` has `ny` and `fz[ix][iy]` has `nz`, each equal to `1/nx`, `1/ny` or `1/nz`. The boundary tables have one more entry along the last axis. |
| Domdec.Domdec.GetNodeIndPbc | Domdec.cpp:53-69 | The while-loop fold followed by linearisation equals the periodic lookup `NodeIndPbc`, and the result is in `[0, numnode)`. On a consistent object with `0 <= mynode < numnode`, looking up the home coordinates returns `mynode`. |
| Domdec.Domdec.BuildGlobalLoc2glo | Domdec.cpp:77-98 | `nrecv` holds the node counts and `precv` their exclusive prefix sum. The run goes on exactly when the counts sum to `ncoord_glo`; then `loc2glo_glo` is the global map, and a permutation of `[0, ncoord_glo)` when every node's map is one. Otherwise the run aborts before `loc2glo_glo` is written. |
| Domdec.Domdec.CombineData | Domdec.cpp:106-116 | `xrecvbuf` starts with every node's field in node order, and the rest of it is unchanged. `xglo` is the in-order scatter of `xrecvbuf` through `loc2glo_glo`, so `xglo[loc2glo_glo[i]] == xrecvbuf[i]` when the indices are distinct. |
| StridedArrays.XYZ.constructor | XYZ.h:19-24 | A new array has `n`, `stride` and `size` equal to 0 and no buffer. |
| StridedArrays.XYZ.Swap | XYZ.h:39-51 | Requires the arrays to match. Each then holds the other's former buffer and allocated size, `n` and `stride` of both are unchanged, and they still match. |
| StridedArrays.XYZ.Match | XYZ.h:28-36 | Defines `match`, for both overloads: the element sizes, `n` and `stride` are equal, and `size` and `data` play no part. |
| StridedArrays.MatchReflexive | XYZ.h:28-30 | Every array matches itself. |
| StridedArrays.MatchSymmetric | XYZ.h:34-36 | `match` does not depend on the order of its operands. |
| StridedArrays.MatchTransitive | XYZ.h:28-30 | Two arrays that match a third match each other. |
| StridedArrays.SwapTwiceRestores | XYZ.h:43-50 | Swapping twice restores the buffers, sizes and shapes of both arrays. |
| AtomGroups.AtomGroupBase.GetType | AtomGroupBase.h:47 | Defines `get_type`: the stored group type. |
| AtomGroups.AtomGroupBase.GetTable | AtomGroupBase.h:49 | Defines `get_table`: the table buffer. |
| AtomGroups.AtomGroupBase.GetNumTable | AtomGroupBase.h:50 | Defines `get_numTable`: the used table length. |
| AtomGroups.AtomGroupBase.GetNumGroupList | AtomGroupBase.h:51 | Defines `get_numGroupList`: the constant group list length. |
| AtomGroups.AtomGroupBase.constructor | AtomGroupBase.h:30-36 | Requires `numGroupList > 0`. It stores `size` and `numGroupList`, empties the table (`numTable == lenTable == 0`, no buffer) and establishes `numTable <= lenTable`. |
| AtomGroups.AtomGroupBase.SetNumTable | AtomGroupBase.h:38-41 | Requires the new length to be at most `lenTable`. Afterwards `get_numTable()` returns it, the invariant holds, and only `numTable` changes. |
| AtomGroups.AtomGroupBase.SetType | AtomGroupBase.h:43-47 | Afterwards `get_type()` returns the new type, only the type changes, and the invariant is unaffected. |
| NeighborList.NumExcl | NeighborList.h:8 | Defines `num_excl<t>::val` as `(t*t - 1)/32 + 1`, with C++ division. |
| NeighborList.IsTileExcl | NeighborList.h:11-14 | Defines a well-formed `tile_excl_t<t>` (the datatype `TileExcl`): a mask of exactly `num_excl<t>::val` 32-bit words. |
| NeighborList.NumExclIsCeiling | NeighborList.h:8 | For a tile size of at least 1, `val*32 >= t*t`, so there is one bit per intra-tile pair, and `(val-1)*32 < t*t`, so no word is wasted. |
| NeighborList.NumExclIsLeast | NeighborList.h:8 | Any word count that holds `t*t` bits is at least `val`. |
| NeighborList.NumExclOfEmptyTile | NeighborList.h:8 | A zero tile size still gives one word, because C++ rounds `-1/32` toward zero. |
| NeighborList.NumExclOfTileSize | NeighborList.h:8 | For the instantiated tile size 32 (`NeighborList<32>` in CudaPMEForcefield.h), `val == 32`. |
| NeighborList.PairWordInRange | NeighborList.h:13 | Pair `(i, j)` of a tile, bit `i*t + j`, falls in word `(i*t + j)/32`, which is a valid index into `excl`. |

## Left out

- MPI transport: `MPI_Allgather`, `MPI_Allgatherv`, `MPICheck` and the communicator. Each collective is modelled by its result on the per-node contributions, which are passed in as inputs.
- The count assertion in `buildGlobal_loc2glo` aborts the process. The model returns `false` instead, after `nrecv` and `precv` have been written and before `loc2glo_glo` is touched. The other assertions (`swap`'s match, `set_numTable`'s bound, the `AtomGroupBase` constructor's `numGroupList > 0`) are preconditions.
- `update_bxyz` and the cumulative boundary values: the function's body is not part of this model, so the boundary tables are shaped but hold zeros.
- Doubles: fractions and gathered fields are `real`. `1.0/nx` is exact here and can round in C++, so `Domdec.UniformSumsToOne` is exact only in the model.
- 32-bit overflow: `int` is unbounded throughout. `nx*ny*nz`, `ix + iy*nx + iz*nx*ny`, prefix sums and `tilesize*tilesize` are assumed not to overflow.
- `get_ncoord()` (the local count `nsend`) is not part of this model. A node's count is the length of its block.
- Pointer buffers: raw `int*` and `double*` are Dafny arrays. The preconditions keep `nrecv`, `precv` and `loc2glo_glo` distinct, and `xrecvbuf` distinct from `xglo`. The code relies on this but does not state it.
- `XYZ::resize` and `AtomGroupBase::resizeTable` are pure virtual and have no body, so they are not modelled. `AtomGroupBase` being abstract is not modelled either. The table contents behind `get_table()` are not modelled.
- `XYZ::match` uses `sizeof(T) == sizeof(P)`. The model stands for `sizeof` with the constant `elemSize`, fixed at construction of each array.
- `AtomGroupBase`'s constructor leaves `type` uninitialised. The model leaves `groupType` unspecified until `SetType`.
- The NeighborList methods (`sort`, `build_excl`, `split_dense_sparse`, `remove_empty_tiles`, `load`) have no bodies in the files modelled. The CUDA streams and the friendship with the force evaluator are left out for the same reason.
- The other headers (the reciprocal solver, B-splines, reductions, force fields, the integrator, the direct-force types, the MPI wrapper) hold kernel declarations, floating-point code or interfaces without bodies.
