/**
 * Building, uploading and drawing the terrain chunk.
 *
 * The index pass and the vertex pass each fill a fixed-size array in place with a
 * doubly nested loop. Uploading a buffer copies the array's contents to the graphics
 * backend, so the model hands over `a[..]`, the contents at the moment of upload.
 */
module Terrain {
  import opened ChunkMesh

  /**
   * The index pass: for every cell (x, z), in x-major order, write its two triangles
   * as six vertex indices at offset (x * ChunkSize + z) * 6.
   */
  method BuildIndices() returns (indices: seq<u32>)
    ensures IsIndexBuffer(indices)
  {
    var a := new u32[ChunkSize * ChunkSize * 6];
    for x := 0 to ChunkSize
      invariant forall x', z, j :: 0 <= x' < x && 0 <= z < ChunkSize && 0 <= j < 6 ==>
        a[CellBase(x', z) + j] as int == CellIndices(x', z)[j]
    {
      for z := 0 to ChunkSize
        invariant forall x', z', j :: 0 <= x' < x && 0 <= z' < ChunkSize && 0 <= j < 6 ==>
          a[CellBase(x', z') + j] as int == CellIndices(x', z')[j]
        invariant forall z', j :: 0 <= z' < z && 0 <= j < 6 ==>
          a[CellBase(x, z') + j] as int == CellIndices(x, z')[j]
      {
        var i := (x * ChunkSize + z) * 6;
        a[i + 0] := ((x + 0) + (z + 0) * ChunkSize1) as u32;
        a[i + 1] := ((x + 1) + (z + 0) * ChunkSize1) as u32;
        a[i + 2] := ((x + 0) + (z + 1) * ChunkSize1) as u32;
        a[i + 3] := ((x + 1) + (z + 1) * ChunkSize1) as u32;
        a[i + 4] := ((x + 0) + (z + 1) * ChunkSize1) as u32;
        a[i + 5] := ((x + 1) + (z + 0) * ChunkSize1) as u32;
      }
    }
    indices := a[..];
  }

  /**
   * The vertex pass: for every lattice point (x, z), in x-major order, store the
   * position (x, 0, -z) in slot x + z * ChunkSize1.
   */
  method BuildVertices() returns (vertices: seq<Vec3>)
    ensures IsVertexBuffer(vertices)
  {
    var a := new Vec3[ChunkSize1 * ChunkSize1];
    for x := 0 to ChunkSize1
      invariant forall x', z :: 0 <= x' < x && 0 <= z < ChunkSize1 ==>
        a[VertexId(x', z)] == VertexPosition(x', z)
    {
      for z := 0 to ChunkSize1
        invariant forall x', z' :: 0 <= x' < x && 0 <= z' < ChunkSize1 ==>
          a[VertexId(x', z')] == VertexPosition(x', z')
        invariant forall z' :: 0 <= z' < z ==> a[VertexId(x, z')] == VertexPosition(x, z')
      {
        a[x + z * ChunkSize1] := Vec3(x, 0, -z);
      }
    }
    vertices := a[..];
  }

  /**
   * One terrain chunk as the graphics backend holds it after initialisation: the
   * contents of its element buffer and of its vertex buffer.
   */
  class Chunk {
    var elements: seq<u32>
    var vertices: seq<Vec3>

    ghost predicate Valid()
      reads this
    {
      IsIndexBuffer(elements) && IsVertexBuffer(vertices)
    }

    /** Builds both arrays and uploads them, once. */
    constructor Init()
      ensures Valid()
    {
      var e := BuildIndices();
      var v := BuildVertices();
      elements := e;
      vertices := v;
    }

    /**
     * The number of elements a triangle-list draw of the chunk reads: exactly the
     * uploaded element buffer, a whole number of triangles, each entry naming an
     * uploaded vertex.
     */
    method DrawCount() returns (count: int)
      requires Valid()
      ensures count == |elements|
      ensures count % 3 == 0
      ensures forall k :: 0 <= k < count ==> elements[k] as int < |vertices|
    {
      count := ChunkSize * ChunkSize * 6;
      IndicesInRange(elements);
    }
  }
}
