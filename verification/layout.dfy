/**
 The integer index layout of the terrain grid mesh.

 A `width × depth` grid of vertices is stored with z as the fast axis, so the
 vertex of grid cell (x, z) lives in slot `x * depth + z`. Every interior cell
 (x < width - 1, z < depth - 1) contributes two triangles, written as six
 consecutive entries of the triangle index buffer.

 The generator offsets the x-neighbour of a vertex by `width`, although one
 step along x moves `depth` slots. `SourceTriangles` is the buffer the
 generator writes (stride `width`); `IntendedTriangles` is the buffer the
 layout calls for (stride `depth`). On grids with interior cells (width,
 depth >= 2), the two coincide exactly when the grid is square.
 */
module Layout {

  /** Slot of the vertex of grid cell (x, z): rows of `depth` vertices, z fastest. */
  function VertexSlot(depth: int, x: int, z: int): int {
    x * depth + z
  }

  /** Length of the vertex buffer the generator allocates. */
  function VertexCount(width: int, depth: int): int {
    width * depth
  }

  /** Length of the triangle buffer the generator allocates (six entries per interior cell). */
  function TriangleCount(width: int, depth: int): int {
    (width - 1) * (depth - 1) * 6
  }

  /** Number of interior cells that emit triangles. */
  function InteriorCells(width: int, depth: int): int {
    if 2 <= width && 2 <= depth then (width - 1) * (depth - 1) else 0
  }

  /** Position in the triangle buffer of the first entry of interior cell (x, z). */
  function CellBase(depth: int, x: int, z: int): int {
    6 * (x * (depth - 1) + z)
  }

  /**
   The six triangle entries of a cell whose first vertex is `v`, when the
   x-neighbour is taken `stride` slots further on: triangle (v, v+stride,
   v+stride+1) followed by triangle (v, v+stride+1, v+1).
   */
  function CellQuad(stride: int, v: int): seq<int> {
    [v, v + stride, v + stride + 1, v, v + stride + 1, v + 1]
  }

  /**
   Entry `k` of the triangle buffer, read off its position: entry k belongs to
   interior cell k / 6, which is cell (c / (depth-1), c % (depth-1)) in the
   order the loops visit them, and is corner k % 6 of that cell. Positions past
   the interior cells keep the zero the buffer was allocated with.
   */
  function TriangleEntry(width: int, depth: int, stride: int, k: int): int {
    if 2 <= width && 2 <= depth && 0 <= k < 6 * ((width - 1) * (depth - 1)) then
      var cell := k / 6;
      CellQuad(stride, VertexSlot(depth, cell / (depth - 1), cell % (depth - 1)))[k % 6]
    else
      0
  }

  /** The whole triangle buffer for the given x-neighbour stride. */
  function TriangleTable(width: int, depth: int, stride: int): seq<int>
    requires 0 <= TriangleCount(width, depth)
  {
    seq(TriangleCount(width, depth), k => TriangleEntry(width, depth, stride, k))
  }

  /** The buffer as the generator writes it: the x-neighbour is `+ width`. */
  function SourceTriangles(width: int, depth: int): seq<int>
    requires 0 <= TriangleCount(width, depth)
  {
    TriangleTable(width, depth, width)
  }

  /** The buffer the vertex layout calls for: the x-neighbour is `+ depth`. */
  function IntendedTriangles(width: int, depth: int): seq<int>
    requires 0 <= TriangleCount(width, depth)
  {
    TriangleTable(width, depth, depth)
  }

  /**
   The corners of cell (x, z) by grid position, in the winding the generator
   means: (x,z), (x+1,z), (x+1,z+1), then (x,z), (x+1,z+1), (x,z+1).
   */
  function GridQuad(depth: int, x: int, z: int): seq<int> {
    [VertexSlot(depth, x, z), VertexSlot(depth, x + 1, z), VertexSlot(depth, x + 1, z + 1),
     VertexSlot(depth, x, z), VertexSlot(depth, x + 1, z + 1), VertexSlot(depth, x, z + 1)]
  }

  /** Every entry of `t` names a vertex slot of a buffer of length `n`. */
  predicate AllInRange(t: seq<int>, n: int) {
    forall k :: 0 <= k < |t| ==> 0 <= t[k] < n
  }

  // ---------------------------------------------------------------------------
  // Arithmetic facts about the layout
  // ---------------------------------------------------------------------------

  /** A product of a non-negative factor grows with the other factor. */
  lemma MulMonotone(a: int, b: int, n: int)
    requires 0 <= n && a <= b
    ensures a * n <= b * n
  {
    assert b * n - a * n == (b - a) * n;
  }

  /** Rows of the same length add up. */
  lemma MulAddRows(a: int, b: int, n: int)
    ensures a * n + b * n == (a + b) * n
  {
  }

  /** Euclidean division recovers quotient and remainder of `q * n + r`. */
  lemma DivModOfRow(q: int, r: int, n: int)
    requires 0 <= q && 0 <= r < n
    ensures (q * n + r) / n == q
    ensures (q * n + r) % n == r
  {
    var a := q * n + r;
    var q', r' := a / n, a % n;
    assert a == q' * n + r';
    assert (q - q') * n == r' - r;
    if q' < q {
      MulMonotone(1, q - q', n);
    } else if q < q' {
      MulMonotone(1, q' - q, n);
    }
  }

  /**
   The slot of (x, z) decodes back to (x, z) and lies inside a vertex buffer
   of `width * depth` slots, so no two cells share a slot.
   */
  lemma SlotDecodes(width: int, depth: int, x: int, z: int)
    requires 0 <= x < width && 0 <= z < depth
    ensures 0 <= VertexSlot(depth, x, z) < VertexCount(width, depth)
    ensures VertexSlot(depth, x, z) / depth == x
    ensures VertexSlot(depth, x, z) % depth == z
  {
    DivModOfRow(x, z, depth);
    MulMonotone(x + 1, width, depth);
    assert (x + 1) * depth == x * depth + depth;
  }

  /** Two grid cells with the same slot are the same cell. */
  lemma SlotInjective(depth: int, x1: int, z1: int, x2: int, z2: int)
    requires 0 <= x1 && 0 <= z1 < depth && 0 <= x2 && 0 <= z2 < depth
    requires VertexSlot(depth, x1, z1) == VertexSlot(depth, x2, z2)
    ensures x1 == x2 && z1 == z2
  {
    DivModOfRow(x1, z1, depth);
    DivModOfRow(x2, z2, depth);
  }

  /**
   The six entries of interior cell (x, z) lie inside the triangle buffer,
   starting at `CellBase(depth, x, z)`.
   */
  lemma CellBaseInBuffer(width: int, depth: int, x: int, z: int)
    requires 0 <= x < width - 1 && 0 <= z < depth - 1
    ensures 0 <= CellBase(depth, x, z)
    ensures CellBase(depth, x, z) + 6 <= 6 * InteriorCells(width, depth)
    ensures InteriorCells(width, depth) * 6 == TriangleCount(width, depth)
  {
    MulMonotone(0, x, depth - 1);
    MulMonotone(x + 1, width - 1, depth - 1);
    assert (x + 1) * (depth - 1) == x * (depth - 1) + (depth - 1);
  }

  /**
   Entry `j` of interior cell (x, z) is corner `j` of that cell's quad: the
   position-based reading of the buffer agrees with the order the loops
   write it in.
   */
  lemma CellEntry(width: int, depth: int, stride: int, x: int, z: int, j: int)
    requires 0 <= x < width - 1 && 0 <= z < depth - 1 && 0 <= j < 6
    ensures 0 <= CellBase(depth, x, z) + j < TriangleCount(width, depth)
    ensures TriangleEntry(width, depth, stride, CellBase(depth, x, z) + j)
         == CellQuad(stride, VertexSlot(depth, x, z))[j]
  {
    CellBaseInBuffer(width, depth, x, z);
    var cell := x * (depth - 1) + z;
    DivModOfRow(cell, j, 6);
    assert (CellBase(depth, x, z) + j) / 6 == cell;
    assert (CellBase(depth, x, z) + j) % 6 == j;
    DivModOfRow(x, z, depth - 1);
  }

  /**
   Every position of the interior part of the buffer belongs to some interior
   cell (x, z) and corner j.
   */
  lemma EntryCell(width: int, depth: int, k: int) returns (x: int, z: int, j: int)
    requires 2 <= width && 2 <= depth && 0 <= k < 6 * ((width - 1) * (depth - 1))
    ensures 0 <= x < width - 1 && 0 <= z < depth - 1 && 0 <= j < 6
    ensures k == CellBase(depth, x, z) + j
  {
    var cell := k / 6;
    x, z, j := cell / (depth - 1), cell % (depth - 1), k % 6;
    assert cell * 6 + j == k;
    assert x * (depth - 1) + z == cell;
    assert cell < (width - 1) * (depth - 1);
    if width - 1 <= x {
      MulMonotone(width - 1, x, depth - 1);
    }
    if x < 0 {
      MulMonotone(x, -1, depth - 1);
    }
  }

  // ---------------------------------------------------------------------------
  // Properties of the triangle buffer
  // ---------------------------------------------------------------------------

  /**
   The entries at `CellBase(depth, x, z)` onwards are the six indices of cell
   (x, z) with first vertex v = x*depth + z: v, v+width, v+width+1, v,
   v+width+1, v+1.
   */
  lemma SourceCellEntries(width: int, depth: int, x: int, z: int)
    requires 0 <= x < width - 1 && 0 <= z < depth - 1
    ensures 0 <= TriangleCount(width, depth)
    ensures CellBase(depth, x, z) + 6 <= |SourceTriangles(width, depth)|
    ensures SourceTriangles(width, depth)[CellBase(depth, x, z)..CellBase(depth, x, z) + 6]
         == CellQuad(width, VertexSlot(depth, x, z))
  {
    CellBaseInBuffer(width, depth, x, z);
    var t := SourceTriangles(width, depth);
    var b := CellBase(depth, x, z);
    forall j | 0 <= j < 6
      ensures t[b + j] == CellQuad(width, VertexSlot(depth, x, z))[j]
    {
      CellEntry(width, depth, width, x, z, j);
    }
  }

  /**
   The two triangles of a cell share the diagonal from its first vertex v to
   v+width+1, and both are listed starting at v.
   */
  lemma CellTrianglesShareDiagonal(width: int, depth: int, x: int, z: int)
    requires 0 <= x < width - 1 && 0 <= z < depth - 1
    ensures 0 <= TriangleCount(width, depth)
    ensures CellBase(depth, x, z) + 6 <= |SourceTriangles(width, depth)|
    ensures var t, b := SourceTriangles(width, depth), CellBase(depth, x, z);
      && t[b] == t[b + 3] == VertexSlot(depth, x, z)
      && t[b + 2] == t[b + 4] == VertexSlot(depth, x, z) + width + 1
  {
    CellEntry(width, depth, width, x, z, 0);
    CellEntry(width, depth, width, x, z, 2);
    CellEntry(width, depth, width, x, z, 3);
    CellEntry(width, depth, width, x, z, 4);
  }

  /**
   With an x-stride between 0 and `depth`, every entry names a slot of the
   `width * depth` vertex buffer.
   */
  lemma TableInRange(width: int, depth: int, stride: int)
    requires 2 <= width && 2 <= depth && 0 <= stride <= depth
    ensures 0 <= TriangleCount(width, depth)
    ensures AllInRange(TriangleTable(width, depth, stride), VertexCount(width, depth))
  {
    MulMonotone(0, width - 1, depth - 1);
    var t := TriangleTable(width, depth, stride);
    forall k | 0 <= k < |t|
      ensures 0 <= t[k] < VertexCount(width, depth)
    {
      var x, z, j := EntryCell(width, depth, k);
      CellEntry(width, depth, stride, x, z, j);
      var v := VertexSlot(depth, x, z);
      MulMonotone(0, x, depth);
      MulMonotone(x, width - 2, depth);
      MulAddRows(width - 2, 2, depth);
      assert 0 <= v && v + stride + 1 < width * depth;
    }
  }

  /** Whatever the grid's shape, no entry of the generator's buffer is negative. */
  lemma SourceIndicesNonNegative(width: int, depth: int)
    requires 0 <= width && 0 <= TriangleCount(width, depth)
    ensures forall k :: 0 <= k < |SourceTriangles(width, depth)| ==> 0 <= SourceTriangles(width, depth)[k]
  {
    var t := SourceTriangles(width, depth);
    forall k | 0 <= k < |t|
      ensures 0 <= t[k]
    {
      if 2 <= width && 2 <= depth && k < 6 * ((width - 1) * (depth - 1)) {
        var x, z, j := EntryCell(width, depth, k);
        CellEntry(width, depth, width, x, z, j);
        MulMonotone(0, x, depth);
      }
    }
  }

  /**
   When `width > depth`, the last interior cell (width-2, depth-2) names
   vertex v+width+1 at or past the end of the vertex buffer.
   */
  lemma SourceOutOfRangeWitness(width: int, depth: int)
    requires 2 <= depth < width
    ensures 0 <= TriangleCount(width, depth)
    ensures CellBase(depth, width - 2, depth - 2) + 2 < |SourceTriangles(width, depth)|
    ensures SourceTriangles(width, depth)[CellBase(depth, width - 2, depth - 2) + 2]
         >= VertexCount(width, depth)
  {
    CellEntry(width, depth, width, width - 2, depth - 2, 2);
    assert (width - 2) * depth == width * depth - 2 * depth;
  }

  /**
   The generator's indices are all in range exactly when `width <= depth`
   (for grids that have at least one interior cell).
   */
  lemma SourceInRangeIff(width: int, depth: int)
    requires 2 <= width && 2 <= depth
    ensures 0 <= TriangleCount(width, depth)
    ensures AllInRange(SourceTriangles(width, depth), VertexCount(width, depth)) <==> width <= depth
  {
    MulMonotone(0, width - 1, depth - 1);
    if width <= depth {
      TableInRange(width, depth, width);
    } else {
      SourceOutOfRangeWitness(width, depth);
    }
  }

  /** The corrected buffer is in range for every grid with interior cells. */
  lemma IntendedInRange(width: int, depth: int)
    requires 2 <= width && 2 <= depth
    ensures 0 <= TriangleCount(width, depth)
    ensures AllInRange(IntendedTriangles(width, depth), VertexCount(width, depth))
  {
    TableInRange(width, depth, depth);
  }

  /**
   The generator's cell quad is the geometric quad of cell (x, z) (x-neighbour
   at (x+1, z), z-neighbour at (x, z+1)) exactly when the grid is square.
   */
  lemma SourceQuadIsGridQuadIff(width: int, depth: int, x: int, z: int)
    ensures CellQuad(width, VertexSlot(depth, x, z)) == GridQuad(depth, x, z) <==> width == depth
  {
    assert VertexSlot(depth, x + 1, z) == VertexSlot(depth, x, z) + depth;
    assert VertexSlot(depth, x + 1, z + 1) == VertexSlot(depth, x, z) + depth + 1;
    if CellQuad(width, VertexSlot(depth, x, z)) == GridQuad(depth, x, z) {
      assert CellQuad(width, VertexSlot(depth, x, z))[1] == GridQuad(depth, x, z)[1];
    }
  }

  /** With stride `depth` every cell quad is the geometric quad of its cell. */
  lemma IntendedQuadIsGridQuad(width: int, depth: int, x: int, z: int)
    requires 0 <= x < width - 1 && 0 <= z < depth - 1
    ensures 0 <= TriangleCount(width, depth)
    ensures CellBase(depth, x, z) + 6 <= |IntendedTriangles(width, depth)|
    ensures IntendedTriangles(width, depth)[CellBase(depth, x, z)..CellBase(depth, x, z) + 6]
         == GridQuad(depth, x, z)
  {
    CellBaseInBuffer(width, depth, x, z);
    var t := IntendedTriangles(width, depth);
    var b := CellBase(depth, x, z);
    SourceQuadIsGridQuadIff(depth, depth, x, z);
    forall j | 0 <= j < 6
      ensures t[b + j] == GridQuad(depth, x, z)[j]
    {
      CellEntry(width, depth, depth, x, z, j);
    }
  }

  /**
   On grids with interior cells (width, depth >= 2), the generator writes the
   corrected buffer exactly when the grid is square.
   */
  lemma SourceIsIntendedIff(width: int, depth: int)
    requires 2 <= width && 2 <= depth
    ensures 0 <= TriangleCount(width, depth)
    ensures SourceTriangles(width, depth) == IntendedTriangles(width, depth) <==> width == depth
  {
    MulMonotone(0, width - 1, depth - 1);
    if SourceTriangles(width, depth) == IntendedTriangles(width, depth) {
      CellEntry(width, depth, width, 0, 0, 1);
      CellEntry(width, depth, depth, 0, 0, 1);
      assert SourceTriangles(width, depth)[1] == IntendedTriangles(width, depth)[1];
    }
  }

  /** The default grid size of the generator. */
  const DefaultWidth := 50
  const DefaultDepth := 50

  /** The default 50 × 50 grid is square, so its buffer is in range and geometric. */
  lemma DefaultGridIsSafe()
    ensures 0 <= TriangleCount(DefaultWidth, DefaultDepth)
    ensures AllInRange(SourceTriangles(DefaultWidth, DefaultDepth), VertexCount(DefaultWidth, DefaultDepth))
    ensures SourceTriangles(DefaultWidth, DefaultDepth) == IntendedTriangles(DefaultWidth, DefaultDepth)
  {
    SourceInRangeIff(DefaultWidth, DefaultDepth);
    SourceIsIntendedIff(DefaultWidth, DefaultDepth);
  }

  /**
   The 3 × 3 grid: 9 vertex slots, with (1, 0) at slot 3, and 24 triangle
   entries (4 cells of two triangles), the first cell reading 0, 3, 4, 0, 4, 1.
   */
  lemma ThreeByThreeLayout()
    ensures VertexCount(3, 3) == 9 && TriangleCount(3, 3) == 24
    ensures VertexSlot(3, 1, 0) == 3 && VertexSlot(3, 2, 2) == 8
    ensures SourceTriangles(3, 3)[0..6] == [0, 3, 4, 0, 4, 1]
    ensures SourceTriangles(3, 3)[18..24] == [4, 7, 8, 4, 8, 5]
  {
    SourceCellEntries(3, 3, 0, 0);
    assert CellBase(3, 0, 0) == 0 && VertexSlot(3, 0, 0) == 0;
    SourceCellEntries(3, 3, 1, 1);
    assert CellBase(3, 1, 1) == 18 && VertexSlot(3, 1, 1) == 4;
  }

  /** A concrete out-of-range index: on a 3 × 2 grid entry 8 is 6, one past the last of 6 vertices. */
  lemma ThreeByTwoOutOfRange()
    ensures TriangleCount(3, 2) == 12
    ensures SourceTriangles(3, 2)[8] == 6 == VertexCount(3, 2)
  {
    CellEntry(3, 2, 3, 1, 0, 2);
  }
}
