# MbrIndex: a Dafny model of TileDB's MBR spatial index facade

This project models `MbrIndex` from `core/src/fragment/mbr_index.cc`. It is a small
spatial index over axis-aligned minimum bounding rectangles (MBRs) in two or three
dimensions, and it wraps a packed (bulk-loaded) R-tree from a geometry library.

- **State.** `dimNum` starts at 0. A successful `BuildTree` sets it to 2 or 3.
  There are two tree fields, `rtree2d` and `rtree3d`. A build replaces the tree of
  its own dimensionality and leaves the other one alone.
- **Coordinate blocks.** Every MBR the caller passes is a flat block laid out
  coordinate-major: `[min_0, max_0, min_1, max_1(, min_2, max_2)]`. The decoder turns
  a block into the box with min corner `(b[0], b[2](, b[4]))` and max corner
  `(b[1], b[3](, b[5]))`. It does not reorder or normalise anything. The query
  window is decoded with the same function.
- **The tree.** The library's R-tree cannot be seen, so it is modelled as the sequence
  of `(box, identity)` entries it was bulk-loaded from. Entry `i` carries identity `i`.
  A query returns every entry that satisfies the library's `intersects` predicate
  (`PackedTree.Select`). For two boxes, that predicate is assumed to be closed
  overlap on every axis: `e.min[i] <= w.max[i] && w.min[i] <= e.max[i]`
  (`Geometry.Intersects2d`, `Geometry.Intersects3d`). Under this assumption,
  boxes that only touch at an edge or a corner intersect.
- **Result collector.** `IntersectQuery` takes the caller's result vector and returns
  its new contents. The matching identities are appended in a loop, which models
  `std::transform` writing through a `back_inserter`. Then the vector's storage, an
  array, is sorted in place. `Sorting.SortInPlace` stands in for `std::sort` and is
  held to that function's contract: the output is sorted and is a permutation of
  the input.

The status codes `TILEDB_MI_OK` and `TILEDB_MI_ERR` are defined in `mbr_index.h`,
which is not part of this model. They are modelled as the datatype `Fragment.Status`
(`MiOk | MiErr`), so the model does not depend on their numeric values.

Three behaviours of the code that a reader might not expect, which the model keeps:

- A failed build with an unsupported dimensionality leaves every field unchanged. It does not clear the index.
- Blocks are not normalised. An inverted block gives an inverted box, and such a box
  does not even intersect itself (`Geometry.SelfIntersects2d`, `Fragment.SelfQuery2d`).
- The collector does not deduplicate. If the caller's `result` vector already holds
  identities, the new contents are the old ones plus the matches, sorted, and there
  may be duplicates. Only when `result` starts empty is the output strictly
  ascending: each identity occurs once in the tree.

`Scenarios` has client methods that use only the contracts of `BuildTree` and
`IntersectQuery`. They rebuild the worked examples: two unit squares queried
with a window that touches both at a corner give `[0, 1]`; a far window gives `[]`;
an index built from no blocks returns an empty result with success; a fresh index
refuses a query and leaves the result unchanged; a build with dimensionality 4 is
refused and the previously built 3D index can still be queried.

## Model

| member | source | states |
|---|---|---|
| Fragment.MbrIndex.constructor | core/src/fragment/mbr_index.cc:31-33 | a fresh index has `dimNum == 0`, both trees are empty, and the object invariant holds |
| Fragment.MbrIndex.BuildTree | core/src/fragment/mbr_index.cc:38-60 | dim 2 (resp. 3): returns OK, sets `dimNum` to 2 (resp. 3), replaces that tree with the entries packed from `mbrs`, and leaves the other tree unchanged; any other dim: returns ERR and changes neither `dimNum` nor either tree |
| Fragment.MbrIndex.Build2d | core/src/fragment/mbr_index.cc:90-106 | the 2D tree is replaced by exactly one entry per block of `mbrs`; entry `i` is block `i` decoded, with identity `i`; nothing else changes |
| Fragment.MbrIndex.Build3d | core/src/fragment/mbr_index.cc:111-127 | the same for the 3D tree with 6-value blocks |
| Fragment.MbrIndex.IntersectQuery | core/src/fragment/mbr_index.cc:65-85 | when `dimNum` is 2 or 3: returns OK; the new result is sorted; its multiset is the old result plus the identities of the entries that intersect the decoded window; if the old result was empty, it is exactly those identities, strictly ascending; otherwise returns ERR with the result unchanged; the index is never modified |
| Fragment.MbrIndex.Intersect2d | core/src/fragment/mbr_index.cc:132-147 | the new result is sorted and holds the old result plus the 2D query's identities as a multiset; starting from empty, it is the strictly ascending list of matching identities |
| Fragment.MbrIndex.Intersect3d | core/src/fragment/mbr_index.cc:152-167 | the same for the 3D tree and a 6-value window |
| Fragment.AppendSorted | core/src/fragment/mbr_index.cc:140-146 | appending the identities of the query's values and then sorting gives a sorted vector whose multiset is the old contents plus those identities; starting from empty with distinct ascending identities, the output is exactly them |
| Fragment.QueryExact2d | core/src/fragment/mbr_index.cc:96-105 | over a tree loaded from `mbrs`, identity `i` is reported exactly when `i` is a block index of `mbrs` and block `i`'s box intersects the window (no false negatives, no false positives), and the reported identities are strictly increasing |
| Fragment.QueryExact3d | core/src/fragment/mbr_index.cc:117-126 | the same for 3D blocks |
| Fragment.SelfQuery2d | core/src/fragment/mbr_index.cc:135-138 | a window decoded from block `i` finds entry `i` exactly when that block has `min <= max` on both axes: entries and window share one layout |
| Fragment.SelfQuery3d | core/src/fragment/mbr_index.cc:155-158 | the same on three axes |
| PackedTree.SelectNumberedMembers | core/src/fragment/mbr_index.cc:138 | for the 2D query here and the 3D query at line 158 alike: over entries numbered from `base`, a query's identities are exactly those of the entries its predicate accepts |
| PackedTree.SelectNumberedAscending | core/src/fragment/mbr_index.cc:138 | for the 2D query here and the 3D query at line 158 alike: over entries numbered from `base`, a query's identities come back strictly increasing |
| PackedTree.SelectPositions | core/src/fragment/mbr_index.cc:138-144 | over entries numbered from 0, identity `i` comes back exactly when entry `i` is accepted, and the identities are strictly increasing |
| Sorting.SortInPlace | core/src/fragment/mbr_index.cc:146 | the array ends sorted and is a permutation of its old contents |
| Sorting.SortedPermutationUnique | core/src/fragment/mbr_index.cc:166 | two sorted sequences with the same multiset are equal, so the sorted result is determined by its elements whatever order the tree returns them in |
| Geometry.DecodeEncode2d | core/src/fragment/mbr_index.cc:100 | decoding the coordinate-major block of a box gives that box back |
| Geometry.EncodeDecode2d | core/src/fragment/mbr_index.cc:135 | the decoder reads exactly the first four values, in the layout `[minX, maxX, minY, maxY]` |
| Geometry.DecodeEncode3d | core/src/fragment/mbr_index.cc:121 | decoding the coordinate-major block of a 3D box gives that box back |
| Geometry.EncodeDecode3d | core/src/fragment/mbr_index.cc:155 | the decoder reads exactly the first six values, in the layout `[minX, maxX, minY, maxY, minZ, maxZ]` |
| Geometry.DecodedProper2d | core/src/fragment/mbr_index.cc:100 | no normalisation: the decoded box is proper exactly when `b[0] <= b[1]` and `b[2] <= b[3]` |
| Geometry.DecodedProper3d | core/src/fragment/mbr_index.cc:121 | the same with `b[4] <= b[5]` |
| Geometry.SelfIntersects2d | core/src/fragment/mbr_index.cc:138 | a box intersects itself exactly when it is proper |
| Geometry.SelfIntersects3d | core/src/fragment/mbr_index.cc:158 | the same in 3D |
| Geometry.IntersectsSymmetric2d | core/src/fragment/mbr_index.cc:138 | the intersection predicate is symmetric |
| Geometry.IntersectsSymmetric3d | core/src/fragment/mbr_index.cc:158 | the same in 3D |
| Geometry.DecodeBox2d | core/src/fragment/mbr_index.cc:100 | no contract; definition: min corner `(b[0], b[2])`, max corner `(b[1], b[3])`, used for the entries (line 100) and the window (line 135); properties in `DecodeEncode2d`, `EncodeDecode2d`, `DecodedProper2d` |
| Geometry.DecodeBox3d | core/src/fragment/mbr_index.cc:121 | no contract; definition: min corner `(b[0], b[2], b[4])`, max corner `(b[1], b[3], b[5])`, used for the entries (line 121) and the window (line 155); properties in `DecodeEncode3d`, `EncodeDecode3d`, `DecodedProper3d` |
| Geometry.Intersects2d | core/src/fragment/mbr_index.cc:138 | no contract; definition: closed overlap on both axes, an assumption about the library's `intersects` for two boxes; properties in `SelfIntersects2d`, `IntersectsSymmetric2d` |
| Geometry.Intersects3d | core/src/fragment/mbr_index.cc:158 | no contract; definition: closed overlap on all three axes, the same assumption; properties in `SelfIntersects3d`, `IntersectsSymmetric3d` |
| PackedTree.Select | core/src/fragment/mbr_index.cc:138 | no contract; definition: the entries of the tree that the query predicate accepts, standing for the library's query, whose output order is not modelled; properties in `SelectNumberedMembers`, `SelectNumberedAscending`, `SelectPositions` |
| Fragment.Query2d | core/src/fragment/mbr_index.cc:138 | no contract; definition: `Select` over the 2D tree with the predicate "intersects the window"; properties in `QueryExact2d`, `SelfQuery2d` |
| Fragment.Query3d | core/src/fragment/mbr_index.cc:158 | no contract; definition: the same over the 3D tree; properties in `QueryExact3d`, `SelfQuery3d` |
| Fragment.PackedFrom2d | core/src/fragment/mbr_index.cc:92-105 | no contract; definition: the tree holds exactly one entry per block of `mbrs` and entry `i` is block `i` decoded, with identity `i`; established by `Build2d`, used by `QueryExact2d` |
| Fragment.PackedFrom3d | core/src/fragment/mbr_index.cc:113-126 | no contract; definition: the same for 3D blocks; established by `Build3d`, used by `QueryExact3d` |

## Left out

- Packing and traversal inside the R-tree library (`pack_rtree2d`, `pack_rtree3d`, `bgi::intersects`): a tree is modelled as its entry sequence, and a query as a filter over it. The library's output order is not modelled. After the sort it does not matter, because `Sorting.SortedPermutationUnique` shows that the sorted result depends only on the matched identities.
- The meaning of `intersects` for two boxes (closed overlap on every axis) is an assumption about the foreign library. It is not derived from the library's code.
- `testTree2d` (lines 169-209): it depends on the library's iteration order and prints to standard output. Its unconditional `break` means it compares only the first entry.
- `PRINT_ERROR`, standard error, and the process-wide `tiledb_mi_errmsg` string (lines 15-26, 48-50, 73-75): these are diagnostics output and global state.
- The `catch (...)` paths (lines 54-55, 79-80): allocation or library exceptions are not modelled. If `build2d` or `build3d` throws, the code has already set `dim_num_`.
- IEEE double semantics (NaN, signed zero): coordinates are `real`, because the code only copies and compares them.
- Raw `void*` and `const double*` blocks: a block is a `seq<real>`. The preconditions ask for at least 2*dim values, which is all the code reads.
- Identity width: the identity type of the stored values is declared in `mbr_index.h`, which is not part of this model. At lines 101 and 122 the `unsigned long` loop index is converted to that type. Identities are unbounded here, so if that type is narrower, its wrap-around past its range is not captured.
- `result.reserve(q.size())`: capacity is not modelled. Only the vector's contents are.
