/**
 The terrain generator: it samples a height map for a `width × depth` grid,
 then fills a vertex buffer (one vertex per grid cell, z fastest) and a
 triangle index buffer (six indices per interior cell) in two nested loops.

 Heights are opaque: `sample(x, z)` stands for the height map value of grid
 cell (x, z), whatever noise produced it. A vertex records its grid position
 and that height; the world-space start point and the height multiplier are
 not modelled.
 */
module Generator {
  import opened Layout

  /** Allocating an array with a negative length fails: C# throws OverflowException for a negative array length. */
  datatype Error = NegativeArraySize

  datatype Result<T> = Success(value: T) | Failure(error: Error)

  /** A vertex of the grid: its grid position and the height sampled there. */
  datatype Vertex = Vertex(x: int, z: int, height: real)

  /** The vertex a freshly allocated buffer holds in every slot. */
  const Origin := Vertex(0, 0, 0.0)

  /** The two buffers handed to the mesh. */
  datatype Mesh = Mesh(vertices: seq<Vertex>, triangles: seq<int>)

  /** A height map: `width` rows of `depth` heights, indexed `[x][z]`. */
  type HeightMap = seq<seq<real>>

  /** The generator's buffers can be allocated: both dimensions and the triangle count are non-negative. */
  predicate Allocatable(width: int, depth: int) {
    0 <= width && 0 <= depth && 0 <= TriangleCount(width, depth)
  }

  /**
   The height map of a `width × depth` grid: entry [x][z] is the height
   sampled at (x, z). Allocation fails when either dimension is negative.
   */
  function GenerateHeightMap(width: int, depth: int, sample: (int, int) -> real): (r: Result<HeightMap>)
    ensures r.Failure? <==> width < 0 || depth < 0
    ensures r.Success? ==>
      && |r.value| == width
      && forall x :: 0 <= x < width ==>
           |r.value[x]| == depth && forall z :: 0 <= z < depth ==> r.value[x][z] == sample(x, z)
  {
    if width < 0 || depth < 0 then Failure(NegativeArraySize)
    else Success(seq(width, x => seq(depth, z => sample(x, z))))
  }

  /**
   Vertex slot `i`, read off its position: it belongs to grid cell
   (i / depth, i % depth).
   */
  function ExpectedVertex(depth: int, sample: (int, int) -> real, i: int): Vertex
    requires 0 < depth
  {
    Vertex(i / depth, i % depth, sample(i / depth, i % depth))
  }

  /** The whole vertex buffer: slot i holds the vertex of cell (i / depth, i % depth). */
  function ExpectedVertices(width: int, depth: int, sample: (int, int) -> real): (vs: seq<Vertex>)
    requires 0 <= width && 0 <= depth
    ensures |vs| == VertexCount(width, depth)
  {
    if depth == 0 then []
    else seq(VertexCount(width, depth), i => ExpectedVertex(depth, sample, i))
  }

  /**
   Number of interior cells the loops have finished before visiting (x, z):
   all cells of earlier rows, then those of row x before z. Once the last
   interior row is done the count stays at the total.
   */
  function CellsBefore(width: int, depth: int, x: int, z: int): int {
    if x < width - 1 then x * (depth - 1) + (if z < depth - 1 then z else depth - 1)
    else InteriorCells(width, depth)
  }

  /** Visiting cell (x, z) finishes one more interior cell exactly when (x, z) is interior. */
  lemma CellsBeforeStep(width: int, depth: int, x: int, z: int)
    requires Allocatable(width, depth) && 0 <= x < width && 0 <= z < depth
    ensures CellsBefore(width, depth, x, z + 1)
         == CellsBefore(width, depth, x, z) + (if x < width - 1 && z < depth - 1 then 1 else 0)
    ensures x < width - 1 && z < depth - 1 ==> 6 * CellsBefore(width, depth, x, z) == CellBase(depth, x, z)
  {
  }

  /** The end of row x is the start of row x + 1. */
  lemma CellsBeforeRowEnd(width: int, depth: int, x: int)
    requires Allocatable(width, depth) && 0 <= x < width
    ensures CellsBefore(width, depth, x, depth) == CellsBefore(width, depth, x + 1, 0)
  {
    assert (x + 1) * (depth - 1) == x * (depth - 1) + (depth - 1);
  }

  /** The finished-cell count never exceeds the number of interior cells, which the buffer has room for. */
  lemma CellsBeforeBounded(width: int, depth: int, x: int, z: int)
    requires Allocatable(width, depth) && 0 <= x <= width && 0 <= z <= depth
    ensures 0 <= CellsBefore(width, depth, x, z) <= InteriorCells(width, depth)
    ensures 6 * InteriorCells(width, depth) <= TriangleCount(width, depth)
  {
    if x < width - 1 {
      MulMonotone(0, x, depth - 1);
      MulMonotone(x + 1, width - 1, depth - 1);
      assert (x + 1) * (depth - 1) == x * (depth - 1) + (depth - 1);
    }
  }

  /**
   The loop state of the main pass: the two buffers being filled and the
   next free slot of each.
   */
  datatype Pass = Pass(vertices: seq<Vertex>, triangles: seq<int>, vertexIndex: int, triangleIndex: int)

  /**
   The state of the main pass just before it visits cell (x, z): the buffers
   have their allocated lengths, every vertex slot and triangle entry before
   the two counters already holds its final value, and the triangle entries
   after the counter still hold the zero they were allocated with.
   */
  predicate Visited(width: int, depth: int, sample: (int, int) -> real, p: Pass, x: int, z: int)
    requires Allocatable(width, depth)
  {
    && |p.vertices| == VertexCount(width, depth)
    && |p.triangles| == TriangleCount(width, depth)
    && p.vertexIndex == x * depth + z <= |p.vertices|
    && p.triangleIndex == 6 * CellsBefore(width, depth, x, z)
    && 0 <= p.triangleIndex <= |p.triangles|
    && (0 < depth ==> forall i :: 0 <= i < p.vertexIndex ==> p.vertices[i] == ExpectedVertex(depth, sample, i))
    && (forall k :: 0 <= k < p.triangleIndex ==> p.triangles[k] == TriangleEntry(width, depth, width, k))
    && (forall k :: p.triangleIndex <= k < |p.triangles| ==> p.triangles[k] == 0)
  }

  /**
   One iteration of the inner loop: cell (x, z) writes its vertex into the
   next vertex slot and, when it is interior, appends its six triangle
   indices with the x-neighbour taken `width` slots on.
   */
  method VisitCell(width: int, depth: int, sample: (int, int) -> real, heightMap: HeightMap,
                   x: int, z: int, p: Pass) returns (q: Pass)
    requires Allocatable(width, depth) && 0 <= x < width && 0 <= z < depth
    requires GenerateHeightMap(width, depth, sample) == Success(heightMap)
    requires Visited(width, depth, sample, p, x, z)
    ensures Visited(width, depth, sample, q, x, z + 1)
  {
    var vertices, triangles := p.vertices, p.triangles;
    var vertexIndex, triangleIndex := p.vertexIndex, p.triangleIndex;
    SlotDecodes(width, depth, x, z);
    CellsBeforeStep(width, depth, x, z);
    CellsBeforeBounded(width, depth, x, z + 1);

    var y := heightMap[x][z];
    vertices := vertices[vertexIndex := Vertex(x, z, y)];

    if x < width - 1 && z < depth - 1 {
      CellBaseInBuffer(width, depth, x, z);
      triangles := triangles[triangleIndex := vertexIndex];
      triangles := triangles[triangleIndex + 1 := vertexIndex + width];
      triangles := triangles[triangleIndex + 2 := vertexIndex + width + 1];

      triangles := triangles[triangleIndex + 3 := vertexIndex];
      triangles := triangles[triangleIndex + 4 := vertexIndex + width + 1];
      triangles := triangles[triangleIndex + 5 := vertexIndex + 1];

      assert triangles[triangleIndex..triangleIndex + 6] == CellQuad(width, vertexIndex);
      forall k | triangleIndex <= k < triangleIndex + 6
        ensures triangles[k] == TriangleEntry(width, depth, width, k)
      {
        CellEntry(width, depth, width, x, z, k - triangleIndex);
        assert triangles[k] == triangles[triangleIndex..triangleIndex + 6][k - triangleIndex];
      }
      triangleIndex := triangleIndex + 6;
    }
    vertexIndex := vertexIndex + 1;
    q := Pass(vertices, triangles, vertexIndex, triangleIndex);
  }

  /**
   The generator's main pass. It allocates both buffers, then visits the grid
   x-major, z-minor: every cell writes its vertex into the next vertex slot,
   and every interior cell appends its six triangle indices, taking the
   x-neighbour `width` slots on.
   */
  method GenerateTerrain(width: int, depth: int, sample: (int, int) -> real) returns (r: Result<Mesh>)
    ensures r.Failure? <==> !Allocatable(width, depth)
    ensures r.Success? ==> |r.value.vertices| == VertexCount(width, depth)
    ensures r.Success? ==> |r.value.triangles| == TriangleCount(width, depth)
    ensures r.Success? ==> r.value.vertices == ExpectedVertices(width, depth, sample)
    ensures r.Success? ==> r.value.triangles == SourceTriangles(width, depth)
    ensures r.Success? && 2 <= width && 2 <= depth ==>
              (AllInRange(r.value.triangles, |r.value.vertices|) <==> width <= depth)
  {
    var heights := GenerateHeightMap(width, depth, sample);
    if heights.Failure? {
      return Failure(heights.error);
    }
    var heightMap := heights.value;
    if VertexCount(width, depth) < 0 || TriangleCount(width, depth) < 0 {
      return Failure(NegativeArraySize);
    }
    var p := Pass(seq(width * depth, _ => Origin), seq((width - 1) * (depth - 1) * 6, _ => 0), 0, 0);
    CellsBeforeBounded(width, depth, 0, 0);

    var x := 0;
    while x < width
      invariant 0 <= x <= width
      invariant Visited(width, depth, sample, p, x, 0)
    {
      var z := 0;
      while z < depth
        invariant 0 <= z <= depth
        invariant Visited(width, depth, sample, p, x, z)
      {
        p := VisitCell(width, depth, sample, heightMap, x, z, p);
        z := z + 1;
      }
      assert (x + 1) * depth == x * depth + depth;
      MulMonotone(x + 1, width, depth);
      CellsBeforeRowEnd(width, depth, x);
      x := x + 1;
    }

    assert p.vertexIndex == |p.vertices|;
    assert p.triangleIndex == 6 * InteriorCells(width, depth);
    if 2 <= width && 2 <= depth {
      SourceInRangeIff(width, depth);
    }
    return Success(Mesh(p.vertices, p.triangles));
  }

  /**
   Vertex slot `x * depth + z` holds the vertex of grid cell (x, z), and
   every slot belongs to exactly one grid cell: slots and cells correspond one
   to one, so no slot is written twice.
   */
  lemma VertexSlotsMatchCells(width: int, depth: int, sample: (int, int) -> real, x: int, z: int)
    requires 0 <= x < width && 0 <= z < depth
    ensures VertexSlot(depth, x, z) < |ExpectedVertices(width, depth, sample)|
    ensures ExpectedVertices(width, depth, sample)[VertexSlot(depth, x, z)] == Vertex(x, z, sample(x, z))
    ensures forall x', z' :: 0 <= x' < width && 0 <= z' < depth && VertexSlot(depth, x', z') == VertexSlot(depth, x, z)
              ==> x' == x && z' == z
  {
    SlotDecodes(width, depth, x, z);
    forall x', z' | 0 <= x' < width && 0 <= z' < depth && VertexSlot(depth, x', z') == VertexSlot(depth, x, z)
      ensures x' == x && z' == z
    {
      SlotInjective(depth, x', z', x, z);
    }
  }

  /** Every vertex slot holds the vertex of a grid cell, stored at that cell's slot. */
  lemma EveryVertexSlotIsACell(width: int, depth: int, sample: (int, int) -> real, i: int)
    requires 0 <= width && 0 <= depth
    requires 0 <= i < |ExpectedVertices(width, depth, sample)|
    ensures var v := ExpectedVertices(width, depth, sample)[i];
      && 0 <= v.x < width && 0 <= v.z < depth
      && i == VertexSlot(depth, v.x, v.z)
      && v.height == sample(v.x, v.z)
  {
    var v := ExpectedVertices(width, depth, sample)[i];
    assert i == v.x * depth + v.z;
    if width <= v.x {
      MulMonotone(width, v.x, depth);
    }
  }
}
