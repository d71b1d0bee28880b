# Terrain generator: index layout of the grid mesh

This project models the integer core of `TerrainGenerator.GenerateTerrain`.
It turns a `width × depth` grid of sampled heights into two buffers:

- a **vertex buffer** of `width * depth` slots. The vertex of grid cell (x, z)
  goes into slot `x * depth + z`, so z is the fast axis;
- a **triangle index buffer** of `(width - 1) * (depth - 1) * 6` entries. Every
  interior cell (x < width - 1, z < depth - 1) appends six indices
  `v, v+width, v+width+1, v, v+width+1, v+1`, where `v = x * depth + z`.

Heights are opaque. The model takes `sample(x, z)` as the value the height map
holds for cell (x, z), and the index logic never inspects it.

Files:

- `layout.dfy` (module `Layout`) has the pure layout: slot and cell arithmetic,
  the triangle buffer read off by position (`TriangleTable`), and the lemmas
  about ranges, adjacency and the width/depth mix-up.
- `generator.dfy` (module `Generator`) has the height-map allocation, the
  nested-loop pass `GenerateTerrain` with its per-cell step `VisitCell`, and
  the lemmas about the vertex buffer.

Every operation is paired with a reference definition that does not follow
the loop order. `ExpectedVertices` decodes slot `i` as cell
`(i / depth, i % depth)`. `TriangleTable` decodes entry `k` as corner `k % 6`
of interior cell `k / 6`. `GenerateTerrain` is proved to produce exactly these
buffers.

The model keeps the generator's `+ width` x-neighbour offset, as the code
writes it (`SourceTriangles`). The layout itself steps `depth` slots per x
(`IntendedTriangles`). On grids with interior cells (width, depth >= 2), the
two agree exactly when the grid is square, which includes the default 50 × 50
grid.

The code does no range check on `width` or `depth`. It fails only when an
array allocation gets a negative length:

- the height map `new float[width, depth]` fails when a dimension is negative;
- the triangle buffer fails when `(width - 1) * (depth - 1) * 6` is negative.

So a 0 × 0 grid succeeds with six zero triangle entries, and 1 × n grids
succeed with no triangles. The model reproduces both.

## Model

| member | source | states |
|---|---|---|
| Generator.GenerateTerrain | Assets/TerrainGenerator.cs:22-54 | Fails exactly when an allocation length is negative. Otherwise the vertex buffer has `width*depth` slots and equals the position-decoded reference, with slot i holding cell (i/depth, i%depth) and its sampled height. The triangle buffer has `(width-1)*(depth-1)*6` entries and equals the position-decoded table with x-stride `width`. On grids with interior cells, all indices are in range iff `width <= depth`. |
| Generator.VisitCell | Assets/TerrainGenerator.cs:35-53 | One inner-loop iteration keeps the pass invariant from (x, z) to (x, z+1). The vertex counter stays `x*depth+z` and the triangle counter stays six times the number of finished interior cells. Every slot and entry before the counters holds its final value, and entries past the triangle counter are still zero. |
| Generator.GenerateHeightMap | Assets/TerrainGenerator.cs:63-90 | Allocation fails iff a dimension is negative. Otherwise the result is a `width × depth` map whose entry [x][z] is the height sampled at (x, z). |
| Generator.CellsBeforeStep | Assets/TerrainGenerator.cs:40-50 | The triangle counter advances by one cell (six entries) exactly on interior cells, and at an interior cell it equals that cell's base position `6*(x*(depth-1)+z)`. |
| Generator.CellsBeforeBounded | Assets/TerrainGenerator.cs:26-29 | The triangle counter never exceeds six times the number of interior cells, which the allocated buffer has room for. |
| Generator.CellsBeforeRowEnd | Assets/TerrainGenerator.cs:33-35 | The count at the end of row x equals the count at the start of row x+1. |
| Generator.VertexSlotsMatchCells | Assets/TerrainGenerator.cs:37-38 | Slot `x*depth+z` is inside the buffer and holds the vertex of cell (x, z) with its height. No other grid cell maps to that slot. |
| Generator.EveryVertexSlotIsACell | Assets/TerrainGenerator.cs:25-38 | Every slot of the vertex buffer holds a vertex of an in-grid cell (x, z) and sits at that cell's slot, so slots and cells correspond one to one. |
| Layout.SlotDecodes | Assets/TerrainGenerator.cs:33-38 | For 0 <= x < width and 0 <= z < depth, slot `x*depth+z` lies in `[0, width*depth)` and decodes back to (x, z). |
| Layout.SlotInjective | Assets/TerrainGenerator.cs:52 | Two cells with the same slot are the same cell, so no later iteration overwrites a slot. |
| Layout.CellBaseInBuffer | Assets/TerrainGenerator.cs:40-50 | The six entries of interior cell (x, z) start at `6*(x*(depth-1)+z)` and lie inside a buffer of `(width-1)*(depth-1)*6` entries. |
| Layout.CellEntry | Assets/TerrainGenerator.cs:42-48 | Entry `base(x,z)+j` of the buffer, read off by position, is corner j of cell (x, z)'s six indices. |
| Layout.EntryCell | Assets/TerrainGenerator.cs:26-50 | Every position in the interior part of the buffer is `base(x,z)+j` for some interior cell (x, z) and corner j < 6. |
| Layout.SourceCellEntries | Assets/TerrainGenerator.cs:40-50 | The six entries starting at `6*(x*(depth-1)+z)` are `[v, v+width, v+width+1, v, v+width+1, v+1]`, where `v = x*depth+z`. |
| Layout.CellTrianglesShareDiagonal | Assets/TerrainGenerator.cs:42-48 | Both triangles of a cell start at v and share the diagonal vertex `v+width+1`. |
| Layout.SourceIndicesNonNegative | Assets/TerrainGenerator.cs:40-48 | On every grid the code can allocate, no triangle entry is negative. |
| Layout.TableInRange | Assets/TerrainGenerator.cs:43-47 | With an x-stride between 0 and depth, every entry is a valid slot of the `width*depth` vertex buffer. |
| Layout.SourceOutOfRangeWitness | Assets/TerrainGenerator.cs:43-47 | When `width > depth >= 2`, corner 2 of the last interior cell (width-2, depth-2) is at least `width*depth`, which is out of range. |
| Layout.SourceInRangeIff | Assets/TerrainGenerator.cs:40-47 | For width, depth >= 2, all of the code's indices are in range iff `width <= depth`. |
| Layout.IntendedInRange | Assets/TerrainGenerator.cs:33-35 | With the x-neighbour at `+depth`, every index is in range for every grid with interior cells. |
| Layout.SourceQuadIsGridQuadIff | Assets/TerrainGenerator.cs:43-48 | The code's six indices for cell (x, z) are the slots of (x,z), (x+1,z), (x+1,z+1), (x,z), (x+1,z+1), (x,z+1) iff `width == depth`. |
| Layout.IntendedQuadIsGridQuad | Assets/TerrainGenerator.cs:33-38 | With the x-neighbour at `+depth`, each cell's six entries are the slots of its grid corners in the code's winding. |
| Layout.SourceIsIntendedIff | Assets/TerrainGenerator.cs:43-44 | For width, depth >= 2, the code's buffer equals the corrected buffer iff `width == depth`. |
| Layout.DefaultGridIsSafe | Assets/TerrainGenerator.cs:5-6 | The default 50 × 50 grid gives in-range indices and equals the corrected buffer. |
| Layout.ThreeByThreeLayout | Assets/TerrainGenerator.cs:25-50 | A 3 × 3 grid has 9 slots, with (1,0) at slot 3, and 24 triangle entries. Its first cell is `0,3,4,0,4,1` and its last is `4,7,8,4,8,5`. |
| Layout.ThreeByTwoOutOfRange | Assets/TerrainGenerator.cs:44 | On a 3 × 2 grid, entry 8 is 6, which is one past the last of the 6 vertices. |

## Left out

- Fractal noise in `GenerateHeightMap`: the octave loop, amplitude, frequency, scale, persistence, lacunarity and the noise call are float computations and an engine call. The `sample` parameter stands in for their result. Heights never influence the index layout.
- Generator.GenerateHeightMap: models only the allocation and the shape of the map, not how each height is computed (floating point and an engine noise call).
- Vertex positions: the start-point offset and the height multiplier are float vector arithmetic. A vertex records its grid position and raw sampled height instead.
- Mesh construction, normal and bounds recomputation, mesh-filter assignment and the start-up hook are engine plumbing with no stateable behaviour.
- 32-bit integer wrap-around: the counts `width*depth` and `(width-1)*(depth-1)*6`, and the index sums, are modelled on unbounded integers. Grids large enough to overflow a 32-bit count are not modelled.
- Incremental row-by-row generation with progress and cancellation: the code has no such variant, so none is modelled.

## Findings

| source | as written | input that shows it | evidently intended | confidence | as-written member | corrected member |
|---|---|---|---|---|---|---|
| Assets/TerrainGenerator.cs:43-47 | The x-neighbour of vertex `v` is taken as `v + width` (and the diagonal as `v + width + 1`), but the loops step `depth` slots per x. | width = 3, depth = 2: entry 8 of the triangle buffer is 6, and the vertex buffer has only 6 slots. On grids with interior cells (width, depth >= 2) that are not square, the triangles join the wrong vertices. | Offset the x-neighbour by `depth`. | high; not executed | Layout.SourceOutOfRangeWitness | Layout.IntendedInRange |

`GenerateTerrain` deliberately keeps the offset as written, because it models
the code. The corrected buffer is `IntendedTriangles`. It is proved in range
on every grid with interior cells (`IntendedInRange`) and geometrically
correct (`IntendedQuadIsGridQuad`). On grids with interior cells (width,
depth >= 2), it equals the code's buffer exactly when the grid is square
(`SourceIsIntendedIff`), which is why the default 50 × 50 grid hides
the defect.
