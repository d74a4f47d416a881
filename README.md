# ProximityGrid, modelled in Dafny

This project models the proximity grid of the `nvmath` library (`nv::ProximityGrid`).
The grid is a uniform 3D grid of cells laid over a bounding box, and each cell holds a
list of point indices. The model covers four operations:

- `init` sizes the grid from its cell width, so that every axis gets at least one cell,
  and resets the cell array to `sx * sy * sz` empty cells.
- `gather` collects the indices of every cell in a block of cells. It splices each
  cell's list in at the front of the caller's vector.
- `mortonCount` and `mortonIndex` enumerate the cells in Morton (Z-order) order:
  - grids at most 1024 cells on a side use one power-of-two cube;
  - longer grids use two-dimensional Morton layers stacked along the shortest axis.

Files:

- `numeric.dfy` (module `NumericUtil`): the source's mathematical helpers. These are
  `max3`, `min3`, `nextPowerOfTwo`, `ftoi_ceil` on an exact real, and the 32-bit
  unsigned range. It also holds small facts about products, quotients and remainders.
- `morton.dfy` (module `Morton`): the 2D and 3D Morton decoders the grid calls, written
  as bit de-interleaving on naturals. Their inverses, the bit-interleaving encoders,
  come with round-trip and range lemmas.
- `proximity_grid.dfy` (module `ProximityGrids`): the class `ProximityGrid`.
  - Fields `sx`, `sy`, `sz` and `cells`: the cell array, one `seq<uint32>` per cell.
  - `Init` and `Gather` as methods.
  - The index mapping, `MortonCount`, `Decode` and `MortonIndex` as functions.
  - The lemmas about them.

`Gather` is proved against `GatheredBlock`, which gives the indices a gather places in
front: the visited cells' lists, the last-visited cell first. Two lemmas tie this to
what the source promises:

- `BlockSpliced` shows `GatheredBlock` equals splicing the cells in at the front one at
  a time, in the loops' visiting order.
- `GatherMembers` shows an index is gathered exactly when some cell of the block holds
  it.

The Morton sweep is proved against `SweepCode`, the code at which the sweep visits a
cell:

- `Decode` inverts `SweepCode`, whatever the code.
- `SweepReaches` shows every cell of the grid gets a code below `MortonCount()`, and
  that `MortonIndex` maps the code back to the cell's offset.
- `SweepInjective` shows no two codes reach the same cell.

In degenerate boxes the code can drop the longest axis, not the shortest. When x and y
tie below z, the code drops z even though z is the longest. The model follows the
code: `DroppedAxis` states exactly when the dropped axis is a shortest one. The tie
is harmless only when the volume is exactly zero, since then x = y = 0 and the quad
has zero area either way. But `init` takes the quad branch whenever `equal(volume, 0)`
holds (line 16), and that test allows a tolerance. So a thin rod with x = y small and
z long counts as flat, and its quad is the small square across it, not a side along
its length (`ThinRodQuad`). Its cells are then far finer than the box calls for.

The Morton sweep needs three bounds, weakest first, for the source's 32-bit
arithmetic to stay exact:

- `DecodeFits`: the side is at most 2^15. `mortonIndex` computes the layer size
  `s * s` in 32 bits (line 84), and for a larger power-of-two side that product
  wraps to 0, so the division by it fails (`LayerSizeWraps`).
- `OffsetsFit`: also, the cell array has at most 2^31 cells, so every offset fits the
  `int` that `mortonIndex` returns (line 108).
- `SweepFits`: also, the sweep length fits the 32 bits `mortonCount` returns (line 72).
  A 32768 by 3 by 3 grid fits (`WideGridSweep`). A 32768 by 4 by 4 grid meets
  `OffsetsFit` but not this bound: its four layers of 2^30 codes add up to 2^32,
  which `mortonCount` truncates to 0 (`TruncatedCount`).

## Model

| member | source | states |
|---|---|---|
| NumericUtil.Max3 | nvmath/ProximityGrid.cpp:69 | the result bounds all three values and is one of them |
| NumericUtil.Min3 | nvmath/ProximityGrid.cpp:86 | the result is below all three values and is one of them |
| NumericUtil.NextPowerOfTwo | nvmath/ProximityGrid.cpp:70 | the result is a power of two, at least `n`, and its half is below `n` unless it is 1 |
| NumericUtil.NextPowerOfTwoIsLeast | nvmath/ProximityGrid.cpp:70 | no power of two at least `n` is smaller than the rounded value |
| NumericUtil.NextPowerOfTwoExceeds | nvmath/ProximityGrid.cpp:71 | rounding up to a power of two never carries a value over a power-of-two threshold, in either direction |
| NumericUtil.Ceil | nvmath/ProximityGrid.cpp:37 | `ftoi_ceil` on an exact real: the least integer not below it |
| NumericUtil.CeilQuotient | nvmath/ProximityGrid.cpp:37-39 | the ceiling of `e / w` widths reaches `e`, and one width fewer falls short |
| NumericUtil.LayersWrap | nvmath/ProximityGrid.cpp:72 | `m` layers of 2^30 codes, taken modulo 2^32, leave `m % 4` layers |
| Morton.Decode2OfEncode | nvmath/ProximityGrid.cpp:89-97 | the 2D decoders read back both interleaved coordinates |
| Morton.Encode2OfDecode | nvmath/ProximityGrid.cpp:89-97 | re-interleaving the 2D decoded coordinates gives back the code, so decoding loses nothing |
| Morton.Decode3OfEncode | nvmath/ProximityGrid.cpp:101-103 | the 3D decoders read back all three interleaved coordinates |
| Morton.Encode3OfDecode | nvmath/ProximityGrid.cpp:101-103 | re-interleaving the 3D decoded coordinates gives back the code |
| Morton.Encode2Bound | nvmath/ProximityGrid.cpp:72 | coordinates below a power of two `s` encode below `s * s` |
| Morton.Encode3Bound | nvmath/ProximityGrid.cpp:74 | coordinates below a power of two `s` encode below `s * s * s` |
| Morton.Decode2X | nvmath/ProximityGrid.cpp:89-97 | the first coordinate of a 2D code: its even bits |
| Morton.Decode2Y | nvmath/ProximityGrid.cpp:89-97 | the second coordinate of a 2D code: its odd bits |
| Morton.Decode3X | nvmath/ProximityGrid.cpp:101 | the first coordinate of a 3D code: bits 0, 3, 6, ... |
| Morton.Decode3Y | nvmath/ProximityGrid.cpp:102 | the second coordinate of a 3D code: bits 1, 4, 7, ... |
| Morton.Decode3Z | nvmath/ProximityGrid.cpp:103 | the third coordinate of a 3D code: bits 2, 5, 8, ... |
| ProximityGrids.DroppedAxis | nvmath/ProximityGrid.cpp:19-28 | x is dropped iff strictly shortest, y iff strictly shortest, else z; the dropped side is a shortest one unless x and y tie below z |
| ProximityGrids.SelectQuad | nvmath/ProximityGrid.cpp:18-28 | the quad's two sides and the dropped side are the box's three sides, and the remaining sides keep their axis order |
| ProximityGrids.ThinRodQuad | nvmath/ProximityGrid.cpp:16-28 | a 0.001 by 0.001 by 10 box loses its long z side, and its quad is the 0.001 by 0.001 square |
| ProximityGrids.CellsAlong | nvmath/ProximityGrid.cpp:37-39 | at least one cell; the cells span the extent; with more than one cell, one fewer would not |
| ProximityGrids.ProximityGrid.Index | nvmath/ProximityGrid.cpp:60 | the offset of cell (x, y, z) in the cell array, x fastest, then y, then z; its properties are stated by the three lemmas below |
| ProximityGrids.ProximityGrid.IndexInRange | nvmath/ProximityGrid.cpp:60-61 | every cell of the grid has an offset inside the cell array |
| ProximityGrids.ProximityGrid.IndexInjective | nvmath/ProximityGrid.cpp:60 | distinct cells have distinct offsets |
| ProximityGrids.ProximityGrid.IndexOnto | nvmath/ProximityGrid.cpp:43 | every offset of the cell array is the offset of a cell of the grid |
| ProximityGrids.ProximityGrid.CellAt | nvmath/ProximityGrid.cpp:61 | the index list of a cell of the grid (`cellArray[idx].indexArray`), and nothing for a cell outside it |
| ProximityGrids.ProximityGrid.CellAtOffset | nvmath/ProximityGrid.cpp:60-61 | inside the grid, a cell's list is the cell array's entry at the cell's offset |
| ProximityGrids.ProximityGrid.Init | nvmath/ProximityGrid.cpp:11-43 | each extent is the `CellsAlong` count for its side, all at least 1, and the cell array holds `sx * sy * sz` cells, all empty |
| ProximityGrids.ProximityGrid.Gather | nvmath/ProximityGrid.cpp:57-64 | the result is the gathered cells' indices (`GatheredBlock`) followed by the caller's vector, unchanged; the cell array is not modified |
| ProximityGrids.ProximityGrid.BlockSpliced | nvmath/ProximityGrid.cpp:57-61 | what `Gather` puts in front equals splicing in, at the front, each visited cell's whole list, in loop order (x fastest, then y, then z) |
| ProximityGrids.ProximityGrid.SlabSpliced | nvmath/ProximityGrid.cpp:58-61 | the same, for the rows of one z slice |
| ProximityGrids.ProximityGrid.RowSpliced | nvmath/ProximityGrid.cpp:59-61 | the same, for one row |
| ProximityGrids.ProximityGrid.FrontSplicedAppend | nvmath/ProximityGrid.cpp:57-61 | cells visited later come first: splicing `a` then `b` gives `b`'s lists in front of `a`'s |
| ProximityGrids.ProximityGrid.GatherEmptyRange | nvmath/ProximityGrid.cpp:57-59 | an empty range on any axis gathers nothing, so `Gather` then returns the caller's vector unchanged |
| ProximityGrids.ProximityGrid.GatherMembers | nvmath/ProximityGrid.cpp:57-61 | an index is gathered iff some cell of the block holds it |
| ProximityGrids.ProximityGrid.SlabMembers | nvmath/ProximityGrid.cpp:58-61 | the same, for the rows of one z slice |
| ProximityGrids.ProximityGrid.RowMembers | nvmath/ProximityGrid.cpp:59-61 | the same, for one row |
| ProximityGrids.ProximityGrid.RowsEmpty | nvmath/ProximityGrid.cpp:59 | empty rows gather nothing, however many there are |
| ProximityGrids.ProximityGrid.Layered | nvmath/ProximityGrid.cpp:81 | the sweep uses 2D layers exactly when the longest extent exceeds 1024 |
| ProximityGrids.ProximityGrid.Side | nvmath/ProximityGrid.cpp:69-70 | the sweep side is a power of two that covers every extent, and its half is below the longest extent unless it is 1 |
| ProximityGrids.ProximityGrid.ModeTestsAgree | nvmath/ProximityGrid.cpp:71 | the count's mode test on the rounded side agrees with the index's test on the raw maximum (line 81) |
| ProximityGrids.ProximityGrid.LayerAxis | nvmath/ProximityGrid.cpp:86-99 | the layer axis has the smallest extent; it is x when x is smallest, else y when y is smallest, else z |
| ProximityGrids.ProximityGrid.SideIs | nvmath/ProximityGrid.cpp:70 | a longest extent that is already a power of two is the side itself |
| ProximityGrids.ProximityGrid.DecodeFits | nvmath/ProximityGrid.cpp:83-85 | the side is at most 2^15, so the 32-bit layer size `s * s` does not wrap |
| ProximityGrids.ProximityGrid.OffsetsFit | nvmath/ProximityGrid.cpp:108 | also, the cell array has at most 2^31 cells, so every offset fits an `int` |
| ProximityGrids.ProximityGrid.SweepFits | nvmath/ProximityGrid.cpp:72 | also, the layered sweep length fits in 32 bits |
| ProximityGrids.ProximityGrid.LayerSizeFits | nvmath/ProximityGrid.cpp:84-85 | within `DecodeFits`, the layer size is at most 2^30, so it fits in 32 bits |
| ProximityGrids.ProximityGrid.LayerSizeWraps | nvmath/ProximityGrid.cpp:84 | for a side above 2^15 the layer size is 0 modulo 2^32, so the division at line 84 would be by zero |
| ProximityGrids.ProximityGrid.MortonCount | nvmath/ProximityGrid.cpp:67-75 | 32-bit truncation of the product, which in layered mode never exceeds side squared times the smallest extent; under `SweepFits`, exactly that product in layered mode, else side cubed |
| ProximityGrids.ProximityGrid.MortonCountCoversGrid | nvmath/ProximityGrid.cpp:67-75 | the sweep is at least as long as the grid has cells |
| ProximityGrids.ProximityGrid.Decode | nvmath/ProximityGrid.cpp:79-104 | the decoded cell's sweep code is the code itself; in layered mode its coordinate on the layer axis is the quotient by the layer size |
| ProximityGrids.ProximityGrid.MortonIndex | nvmath/ProximityGrid.cpp:77-109 | -1 exactly when the decoded cell lies outside the grid, otherwise an offset inside the cell array, namely the decoded cell's; always below 2^31, so it fits an `int` |
| ProximityGrids.ProximityGrid.LayerBelowExtent | nvmath/ProximityGrid.cpp:84-86 | in layered mode, every code below the count decodes to a layer below the layer-axis extent, even where the count is truncated |
| ProximityGrids.ProximityGrid.SweepCodeBelowCount | nvmath/ProximityGrid.cpp:67-75 | each cell's sweep code is below `MortonCount()` |
| ProximityGrids.ProximityGrid.DecodeSweepCode | nvmath/ProximityGrid.cpp:79-104 | decoding a cell's sweep code gives the cell back |
| ProximityGrids.ProximityGrid.SweepReaches | nvmath/ProximityGrid.cpp:67-109 | every cell is reached: its code is below the count and `MortonIndex` maps it to the cell's offset |
| ProximityGrids.ProximityGrid.SweepInjective | nvmath/ProximityGrid.cpp:77-109 | codes that `MortonIndex` maps to the same cell are equal |
| ProximityGrids.ProximityGrid.ElongatedGridSweep | nvmath/ProximityGrid.cpp:67-99 | a 2000 by 2 by 2 grid is swept in 2 layers of 2048 by 2048 codes stacked along y, the first of the tied shortest axes |
| ProximityGrids.ProximityGrid.LongGridSide | nvmath/ProximityGrid.cpp:69-71 | a grid 32768 cells long has side 32768 and is swept in layers |
| ProximityGrids.ProximityGrid.LongGridCount | nvmath/ProximityGrid.cpp:71-72 | with side 2^15 and `m` layers the layer size does not wrap, the sweep has 2^30 times `m` codes, and `mortonCount` returns 2^30 times `m % 4` |
| ProximityGrids.ProximityGrid.WideGridSweep | nvmath/ProximityGrid.cpp:67-99 | a 32768 by 3 by 3 grid meets `SweepFits`, stacks its layers along y, and has 3 times 2^30 codes |
| ProximityGrids.ProximityGrid.TruncatedCount | nvmath/ProximityGrid.cpp:67-75 | a 32768 by 4 by 4 grid meets `OffsetsFit` but not `SweepFits`, and `mortonCount` returns 0 for it |

## Left out

- Box geometry and float math are left out. This covers `box.extents()`, `box.volume()`,
  the `equal(volume, 0)` test, the `sqrtf`/`powf` cell-width formulas, and the point
  count they use (lines 13-35). `Init` takes the box's side lengths and the cell width
  as exact reals. The quad choice of the degenerate branch is modelled alone, in
  `DroppedAxis` and `SelectQuad`.
- `nvDebugCheck(cellWidth != 0)` (line 36) becomes the precondition `cellWidth > 0`.
- `invCellSize` (lines 40-42) and `corner` (line 44) are left out. They are only read
  by `index_x/y/z`.
- `index_x`, `index_y` and `index_z` are not part of this model; they map `gather`'s
  position and radius to cell coordinates (lines 51-56). `Gather` takes the
  resulting cell range, and assumes it lies in the grid or is empty (`RangeInGrid`).
- The empty constructor (lines 5-7) is left out, and so is adding points to cells: the
  cell contents are whatever `cells` holds.
- `Gather`'s by-reference vector is modelled as a value: the method takes the caller's
  vector and returns the new one.
- Init: the integer product `sx * sy * sz` in the resize is not modelled as 32-bit and
  cannot overflow in the model.
- Decode: requires `DecodeFits()`. Past it the source divides by a layer size that
  has wrapped to 0 (`LayerSizeWraps`); that division is not modelled.
- MortonIndex: requires `OffsetsFit()`. Past it an offset can exceed the `int` the
  source returns; that overflow is not modelled.
- SweepReaches, SweepCodeBelowCount, DecodeSweepCode and MortonCountCoversGrid:
  require `SweepFits()`. Past it `mortonCount` is truncated (`TruncatedCount`), and
  some cells have no code below it.
- MortonCount: the 64-bit product and the cast to 32 bits are modelled together as
  one reduction modulo 2^32. This is exact, since 2^32 divides 2^64.
- The `morton::decodeMorton2X/2Y/3X/3Y/3Z` functions are called at lines 89-103, but
  their definitions are not part of this model. The model defines them as
  de-interleaving every bit of the code.
- MortonIndex, SweepInjective: both hold for every 32-bit code. Above 2^30 this depends
  on the full-width decoders. A decoder that reads only 10 bits per coordinate would
  map a code `c` and `c + 2^30` of the compact sweep to the same cell. Below 2^30,
  which covers the whole compact sweep, such a decoder agrees with the model.
