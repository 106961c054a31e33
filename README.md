# Layout descriptors for 3-D strided copies

A model of the datatype builders in `support/type.cpp` of tempi. Each
builder takes a copy extent `copyExt` and an allocation extent `allocExt`,
both in bytes. `copyExt` is a 3-D region that sits at the origin of a larger
3-D allocation. The builder returns an MPI derived datatype that describes
the region. There are several competing encodings:

- `v1·hv·hv`, `vn·hv·hv`, and `v·hv` over bytes and over floats;
- hindexed and hindexed_block;
- a 3-D subarray, and a 2-D subarray repeated by a vector;
- four encodings of `n` contiguous bytes.

The MPI constructors are modelled by what MPI-3.1 defines them to mean.
Section 4.1.2 covers contiguous, vector, hvector, hindexed and
hindexed_block. Section 4.1.3 covers subarray in C order.

- `Runs` (`runs.dfy`) is the vocabulary:
  - a layout is an ordered sequence of byte runs `Run(off, len)`;
  - `Bytes` cuts a layout into its ordered byte displacements (the type map of a byte type);
  - `Coalesce` merges adjacent runs into the canonical form;
  - `Row` and `Grid` are the reference shapes.
- `MpiTypes` (`mpi_types.dfy`) defines the datatype constructors:
  - `Ty` has one case per constructor;
  - `WellFormed` is the set of arguments MPI accepts;
  - `TypeBounds` and `Extent` give a type's bounds and extent;
  - `Flatten(t, base)` gives the ordered runs `t` covers when placed at `base`.
- `TypeBuilders` (`type_builders.dfy`) holds the twelve builders and the lemmas about them.

The common promise is the row layout `Rows(copyExt, allocExt)`:

- row `(y, z)` starts at byte `z * allocExt.y * allocExt.x + y * allocExt.x`;
- every row is `copyExt.x` bytes long;
- rows come z outer, y inner.

Encodings are compared by their flattened runs. Where an encoding splits a
row into smaller blocks, they are compared after merging adjacent runs,
i.e. by `Bytes` or `Coalesce`.

`make_hi` and `make_hib` fill heap arrays in nested loops. They are methods
over `array`s, with loop invariants. The other builders are straight-line
compositions of constructor calls. They are pure functions returning a
`Ty`, with lemmas over `Flatten`.

Each builder requires that the values it narrows to a C `int` are within
`INT_MAX`. The source does not check this. The bounds differ per builder:

- `VectorFits` (the three byte vector/hvector builders): the counts
  `copyExt.x`, `copyExt.y`, `copyExt.z`, the row stride `allocExt.x` and the
  plane stride `allocExt.x * allocExt.y`;
- `FloatVectorFits` (make_float_v_hv): the same, with `copyExt.x / 4` and
  `allocExt.x / 4` in place of the byte counts;
- `HindexedFits` (make_hi, make_hib): the block length `copyExt.x` and the
  row count `copyExt.z * copyExt.y`, plus a bound that keeps every 64-bit
  displacement exact;
- `SubarrayFits` (make_subarray): all six extents;
- `SubarrayVFits` (make_subarray_v): every extent except `allocExt.z`,
  which that builder never uses;
- the contiguous builders take `n` as an `int`, so `n <= INT_MAX`.

`Within(copyExt, allocExt)` says the region lies inside the allocation. It
is required only by the lemmas that need it.

## Model

| member | source | states |
|---|---|---|
| TypeBuilders.RowsAt | support/type.cpp:123-128 | the reference layout has `copyExt.z * copyExt.y` rows; entry `z * copyExt.y + y` starts at `z * allocExt.y * allocExt.x + y * allocExt.x` and is `copyExt.x` bytes long |
| TypeBuilders.RowsTestScenario | test/type_commit.cpp:38-39 | for copy extent (100,13,47) in allocation (256,512,1024) there are 611 rows, the first is `Run(0, 100)` and the last starts at `46*131072 + 12*256` |
| TypeBuilders.RowsNonOverlapping | support/type.cpp:123-128 | when the region lies inside the allocation, every row ends at or before the start of every later row |
| TypeBuilders.RowsIncreasing | support/type.cpp:123-128 | when the region lies inside the allocation and `allocExt.x > 0`, the row displacements strictly increase in fill order |
| TypeBuilders.RowsWholeAllocation | support/type.cpp:123-128 | when the region is the whole allocation, the rows merge into one run of `allocExt.x * allocExt.y * allocExt.z` bytes at offset 0 |
| TypeBuilders.RowDisplacements | support/type.cpp:122-128 | the nested z/y loop returns a fresh array holding, in fill order, the start of every row of the reference layout |
| TypeBuilders.HindexedRows | support/type.cpp:130-136 | an hindexed byte type with the row displacements and uniform block length `copyExt.x` is well formed and flattens to exactly the reference layout |
| TypeBuilders.MakeHi | support/type.cpp:115-138 | make_hi returns hindexed over bytes: `copyExt.z * copyExt.y` blocks of `copyExt.x` bytes at the row displacements; it is well formed and flattens to the reference layout |
| TypeBuilders.MakeHib | support/type.cpp:140-158 | make_hib returns hindexed_block over bytes: block length `copyExt.x` at the same displacements; it is well formed and flattens to the same layout as make_hi |
| MpiTypes.HindexedBlockIsHindexed | support/type.cpp:155-156 | hindexed_block with block length `bl` has the same runs and bounds as hindexed with every block length `bl` |
| TypeBuilders.MakeByteVnHvHv | support/type.cpp:3-34 | make_byte_vn_hv_hv builds an hvector over z of an hvector over y of a unit-stride byte vector; MPI accepts it for every extent |
| TypeBuilders.ByteVnHvHvLayout | support/type.cpp:13-30 | the vn row unit is `copyExt.x` one-byte runs; the whole type covers the same ordered bytes as make_byte_v1_hv_hv and, after merging, equals the merged reference layout |
| TypeBuilders.MakeByteV1HvHv | support/type.cpp:36-67 | make_byte_v1_hv_hv builds an hvector over z (stride `allocExt.x * allocExt.y`) of an hvector over y (stride `allocExt.x`) of one `copyExt.x`-byte block; MPI accepts it for every extent |
| TypeBuilders.ByteV1HvHvLayout | support/type.cpp:46-63 | make_byte_v1_hv_hv flattens to exactly the reference layout |
| TypeBuilders.MakeByteVHv | support/type.cpp:69-90 | make_byte_v_hv builds an hvector over z of a byte vector with `copyExt.y` blocks of `copyExt.x` bytes, `allocExt.x` apart; MPI accepts it for every extent |
| TypeBuilders.ByteVHvLayout | support/type.cpp:75-86 | make_byte_v_hv flattens to exactly the reference layout |
| TypeBuilders.ByteVHvSinglePlane | support/type.cpp:82-86 | with `copyExt.z == 1` the hvector over z adds nothing: the type flattens like its plane, the 2-D rows `Row(copyExt.y, allocExt.x, copyExt.x, 0)` |
| TypeBuilders.MakeFloatVHv | support/type.cpp:92-113 | make_float_v_hv builds the float vector with `copyExt.x / 4` floats per block at a stride of `allocExt.x / 4` floats, truncating; MPI accepts it for every extent |
| TypeBuilders.FloatVHvLayout | support/type.cpp:98-109 | the float encoding flattens to rows of `4 * (copyExt.x / 4)` bytes, `4 * (allocExt.x / 4)` bytes apart, planes `allocExt.x * allocExt.y` apart |
| TypeBuilders.FloatVHvMatchesByte | support/type.cpp:100-109 | with at least one row and one plane, the float and byte encodings flatten identically if and only if `copyExt.x` is a multiple of 4 and, when there is more than one row, so is `allocExt.x` |
| TypeBuilders.SingleRowPlanes | support/type.cpp:100-102 | with one row per plane and `copyExt.x` a multiple of 4, both encodings are one `copyExt.x`-byte run per plane, whatever `allocExt.x` is |
| TypeBuilders.MakeSubarray | support/type.cpp:160-172 | make_subarray as written: a C-order byte subarray of sizes `{allocExt.x, allocExt.y, allocExt.z}`, subsizes `{copyExt.x, copyExt.y, copyExt.z}`, starts 0; MPI accepts it exactly when `1 <= copyExt <= allocExt` on every axis |
| TypeBuilders.SubarrayLayout | support/type.cpp:162-170 | as written, make_subarray flattens with z fastest: `copyExt.x` slabs of `copyExt.y` runs of `copyExt.z` bytes, `allocExt.z` apart. Its first run is at the origin, it covers `copyExt.x * copyExt.y * copyExt.z` bytes, and its extent is the whole allocation |
| TypeBuilders.SubarrayIsNotRows | support/type.cpp:163-164 | for a non-empty region inside the allocation with `copyExt.z < copyExt.x`, `copyExt.y >= 2` and `copyExt.z < allocExt.z`, byte `copyExt.z` of make_subarray's type map is at `allocExt.z`, while in the reference layout it is at `copyExt.z`; the merged layouts differ |
| TypeBuilders.SubarrayTestScenario | support/type.cpp:163-164 | on the test extents, byte 47 of make_subarray's map is at offset 1024 instead of 47 |
| TypeBuilders.MakeSubarrayRowMajor | support/type.cpp:160-172 | the intended definition of make_subarray: sizes listed slowest first, `{allocExt.z, allocExt.y, allocExt.x}`; MPI accepts it for exactly the same regions as the as-written builder |
| TypeBuilders.SubarrayRowMajorLayout | support/type.cpp:160-172 | with sizes listed `{allocExt.z, allocExt.y, allocExt.x}`, MPI accepts the same regions; the subarray flattens to exactly the reference layout and its extent is the whole allocation |
| MpiTypes.Subarray3DRuns | support/type.cpp:169-170 | a C-order `s0 x s1 x s2` byte subarray at the origin is `m0` slabs `s1 * s2` bytes apart, each of `m1` runs of `m2` bytes `s2` apart |
| TypeBuilders.MakeSubarrayV | support/type.cpp:174-199 | make_subarray_v as written: a C-order byte plane of sizes `{allocExt.x, allocExt.y}`, subsizes `{copyExt.x, copyExt.y}`, repeated by a vector of `copyExt.z` planes at unit stride; MPI accepts it exactly when `1 <= copyExt.x <= allocExt.x` and `1 <= copyExt.y <= allocExt.y`, whatever the z count |
| TypeBuilders.ColumnPlane | support/type.cpp:177-185 | as written, the 2-D plane has y fastest: `copyExt.x` runs of `copyExt.y` bytes, `allocExt.y` apart; its extent is `allocExt.x * allocExt.y` |
| TypeBuilders.SubarrayVLayout | support/type.cpp:174-199 | as written, make_subarray_v repeats the plane every plane extent, `allocExt.x * allocExt.y` bytes. Its first run is at the origin and it covers `copyExt.x * copyExt.y * copyExt.z` bytes |
| TypeBuilders.SubarrayVIsNotRows | support/type.cpp:179-180 | when `1 <= copyExt.y < copyExt.x <= allocExt.x`, `copyExt.y < allocExt.y` and `copyExt.z >= 1`, byte `copyExt.y` of make_subarray_v's map is at `allocExt.y`, while in the reference layout it is at `copyExt.y`; the merged layouts differ |
| TypeBuilders.SubarrayVTestScenario | support/type.cpp:179-180 | on the test extents, byte 13 of make_subarray_v's map is at offset 512 instead of 13 |
| TypeBuilders.MakeSubarrayVRowMajor | support/type.cpp:174-199 | the intended definition of make_subarray_v: the plane listed `{allocExt.y, allocExt.x}`, repeated by the same vector of `copyExt.z` planes; MPI accepts it for exactly the same planes as the as-written builder |
| TypeBuilders.SubarrayVRowMajorLayout | support/type.cpp:174-199 | with the plane listed `{allocExt.y, allocExt.x}`, MPI accepts the same planes and subarray-plus-vector flattens to exactly the reference layout |
| MpiTypes.Subarray2DRuns | support/type.cpp:184-185 | a C-order `s0 x s1` byte subarray at the origin is `m0` runs of `m1` bytes, `s1` apart |
| TypeBuilders.MakeContiguousByteV1 | support/type.cpp:202-209 | make_contiguous_byte_v1 is a vector of `n` one-byte blocks at unit stride; MPI accepts it |
| TypeBuilders.ContiguousByteV1Layout | support/type.cpp:202-209 | it covers exactly bytes `0 .. n-1`, in `n` one-byte runs, and has extent `n` |
| TypeBuilders.MakeContiguousByteVn | support/type.cpp:210-217 | make_contiguous_byte_vn is a vector of one `n`-byte block; MPI accepts it |
| TypeBuilders.ContiguousByteVnLayout | support/type.cpp:210-217 | it is the single run `Run(0, n)`, i.e. bytes `0 .. n-1`, and has extent `n` |
| TypeBuilders.MakeContiguousSubarray | support/type.cpp:218-227 | make_contiguous_subarray is the whole of a 1-D byte array of size `n`; MPI accepts it exactly when `n >= 1` |
| TypeBuilders.ContiguousSubarrayLayout | support/type.cpp:218-227 | MPI accepts the 1-D subarray exactly when `n >= 1`; it is then the single run `Run(0, n)` with extent `n` |
| TypeBuilders.MakeContiguousContiguous | support/type.cpp:228-233 | make_contiguous_contiguous is `n` contiguous bytes; MPI accepts it |
| TypeBuilders.ContiguousContiguousLayout | support/type.cpp:228-233 | it is the single run `Run(0, n)` and has extent `n` |
| TypeBuilders.ContiguousBuildersAgree | support/type.cpp:201-233 | for `n >= 1`, the four contiguous encodings all merge to the single run `Run(0, n)` |
| MpiTypes.StridedPrim | support/type.cpp:18 | a vector or hvector of a predefined type is a row: block `k` is one run of `blocklength` elements, `k * stride` bytes after its start |
| MpiTypes.PrimCopiesBytes | support/type.cpp:13-18 | a block of `n` predefined elements, cut one run per element, covers the same bytes as the single run the model uses for it |

## Left out

- The MPI library is not called. Its constructors are modelled by their meaning in MPI-3.1 sections 4.1.2 and 4.1.3. `MPI_Type_commit` and datatype handles are not modelled.
- Resource release is not modelled, because handle lifetime belongs to the MPI library. The intermediate `rowType`/`planeType` handles are never freed. The `new[]` arrays of make_hi and make_hib are never deleted.
- Overflow of the C `int` casts is a precondition of each builder (`VectorFits`, `FloatVectorFits`, `HindexedFits`, `SubarrayFits`, `SubarrayVFits`), not an error path, because the source never checks it. The width of `Dim3`'s fields is not part of this model; products of extents are taken as exact. The code also never checks that the region lies inside the allocation. The builders accept any extents. Only `RowsNonOverlapping` and `RowsIncreasing` require `Within`.
- For subarrays, arguments MPI rejects (an empty or oversized region) give a type that is not `WellFormed`; the lemmas state exactly when that happens. MPI's error reporting itself is not modelled.
- Negative counts are not modelled: extents and `n` are natural numbers. The source takes C `int`s for the contiguous builders, but a negative count is an MPI error.
- Alignment padding is not modelled: extents are `ub - lb` with no epsilon. The float types used here are packed, and only single copies of derived types are repeated.
- TypeBuilders.MakeHi: like MakeHib and RowDisplacements, requires `HindexedFits`, whose 64-bit bound `copyExt.z * allocExt.y * allocExt.x + copyExt.y * allocExt.x <= INT64_MAX` is a simple sufficient condition, slightly stronger than "the last displacement fits"; it excludes a few inputs just below the 64-bit limit.
- TypeBuilders.RowsIncreasing: requires `allocExt.x > 0`, because when the allocation has zero width every displacement is 0 and the displacements are not strictly increasing.
- TypeBuilders.ByteVnHvHvLayout: states equality after merging adjacent runs (`Bytes`/`Coalesce`), not run for run, because the vn row unit is `copyExt.x` one-byte runs where the other encodings have a single run.
- `make_2d_hv_by_rows`, `make_2d_hv_by_cols` and `make_off_subarray` are not part of this model; their definitions are not among the files modelled.
- `Dim3` is not part of this model: its definition is in none of the files modelled. The model assumes that `Dim3[0]`, `Dim3[1]`, `Dim3[2]` are `.x`, `.y`, `.z`, and that `Dim3(100, 13, 47)` in test/type_commit.cpp:38-39 lists x, y, z in that order. This is what the other builders' use of `.x` as the row length implies. Both findings below depend on this reading; if index 0 were z, make_subarray would describe the rows.
- `src/init.cpp` (startup interposition) and `test/send.cpp` (device allocation and point-to-point transfer) are not part of this model. Both are I/O and foreign calls. `test/type_commit.cpp` is used only for its concrete extents.

## Findings

| source | as written | input that shows it | evidently intended | confidence | as-written member | corrected member |
|---|---|---|---|---|---|---|
| support/type.cpp:163-164 | sizes `{allocExt[0], allocExt[1], allocExt[2]}` and subsizes `{copyExt[0], copyExt[1], copyExt[2]}` are listed x first with `MPI_ORDER_C`, so z, not x, is the fastest dimension | copyExt (100,13,47), allocExt (256,512,1024): the first run is 47 bytes, and byte 47 of the region is read from offset 1024 instead of 47 | list the dimensions slowest first, `{allocExt.z, allocExt.y, allocExt.x}`, or use `MPI_ORDER_FORTRAN`, so that the subarray describes the same rows as the other encodings | high that the layouts differ, provided `Dim3` indices 0/1/2 are x/y/z (see "## Left out"); medium that the authors meant them to agree; not executed | TypeBuilders.SubarrayIsNotRows | TypeBuilders.SubarrayRowMajorLayout |
| support/type.cpp:179-180 | the plane lists `{allocExt[0], allocExt[1]}` with `MPI_ORDER_C`, so within a plane y, not x, is the fastest dimension | copyExt (100,13,47), allocExt (256,512,1024): the first run is 13 bytes, and byte 13 is read from offset 512 instead of 13 | list the plane as `{allocExt.y, allocExt.x}` | high that the layouts differ, provided `Dim3` indices 0/1/2 are x/y/z (see "## Left out"); medium that the authors meant them to agree; not executed | TypeBuilders.SubarrayVIsNotRows | TypeBuilders.SubarrayVRowMajorLayout |
