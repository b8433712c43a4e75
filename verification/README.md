# Terrain chunk lattice

This project models how the terrain renderer builds the mesh of its single terrain
chunk in `init_terrain` (`src/terrain.c`). A chunk is a square of 16 × 16 grid cells
(`CHUNK_SIZE`). It is spanned by a lattice of 17 × 17 vertices (`CHUNK_SIZE_1`).

- **Index pass.** For every cell `(x, z)`, the pass writes six 32-bit vertex indices at
  offset `(x * 16 + z) * 6` of the index array. Together they form two triangles,
  `(v(x,z), v(x+1,z), v(x,z+1))` and `(v(x+1,z+1), v(x,z+1), v(x+1,z))`, where
  `v(a,b) = a + b * 17`.
- **Vertex pass.** For every lattice point `(x, z)`, the pass stores the position
  `(x, 0, -z)` in slot `x + z * 17` of the vertex array.
- **Upload and draw.** Both arrays are uploaded once. Every frame, the chunk is drawn
  as a triangle list of `16 * 16 * 6` elements.

The model has two modules:

- `ChunkMesh` (`mesh.dfy`) holds the index arithmetic as functions, the two buffers'
  specifications as predicates, and the lemmas about them.
- `Terrain` (`terrain.dfy`) holds the two passes as methods that fill a Dafny `array`
  in place with the same doubly nested loops. Uploading copies the array, so each
  method hands over the array's contents. `Terrain.Chunk` is the chunk as the backend
  holds it after `init_terrain`. Its `DrawCount` is the element count that
  `draw_terrain` passes to the draw call.

`src/terrain.c` builds one flat chunk (height 0), uploads it once and draws it every
frame. It has no noise heights, no window of several chunks, no partial buffer writes
and no recentring on the viewpoint.

## Model

| member | source | states |
|---|---|---|
| `ChunkMesh.VertexId` | src/terrain.c:12-17 | The vertex id `a + b * CHUNK_SIZE_1` of any lattice point is a valid slot of the vertex array, i.e. below `CHUNK_SIZE_1 * CHUNK_SIZE_1`. |
| `ChunkMesh.LatticePoint` | src/terrain.c:22-24 | Every slot of the vertex array is the slot of some lattice point `(k % 17, k / 17)`, so the slot mapping is onto. |
| `ChunkMesh.VertexIdRoundTrip` | src/terrain.c:24 | Decoding a vertex id with `% CHUNK_SIZE_1` and `/ CHUNK_SIZE_1` gives back the lattice point that was encoded. |
| `ChunkMesh.VertexIdInjective` | src/terrain.c:22-24 | Distinct lattice points get distinct slots, so no vertex overwrites another. |
| `ChunkMesh.VertexPosition` | src/terrain.c:24 | A lattice point's position has height 0 and a z coordinate that is at most 0. |
| `ChunkMesh.VertexBufferEntries` | src/terrain.c:20-24 | In a built vertex array, every slot `k` holds `(k % 17, 0, -(k / 17))`: height 0, z at most 0, x inside the chunk. |
| `ChunkMesh.VertexBufferUnique` | src/terrain.c:20-24 | The vertex pass leaves no slot unspecified: any two arrays meeting its specification are equal. |
| `ChunkMesh.CellBase` | src/terrain.c:11 | A cell's offset `(x * CHUNK_SIZE + z) * 6` is a multiple of 6, and its six entries lie inside the index array. |
| `ChunkMesh.CellOf` | src/terrain.c:7-11 | Every entry of the index array lies in the six-entry range of some cell (the cells cover the array). |
| `ChunkMesh.CellOfBase` | src/terrain.c:9-11 | Each entry of a cell's range belongs to that cell only. With `CellOf`, the cell ranges tile `[0, CHUNK_SIZE² · 6)`. |
| `ChunkMesh.CellBaseInjective` | src/terrain.c:9-11 | Two cells (or two positions in one cell) never write the same entry. |
| `ChunkMesh.CellIndices` | src/terrain.c:12-17 | Each of the six indices a cell writes is a valid slot of the vertex array. |
| `ChunkMesh.IndexBufferEntry` | src/terrain.c:7-18 | Every entry of a built index array is the value its own cell writes there. |
| `ChunkMesh.IndexBufferUnique` | src/terrain.c:7-18 | The index pass leaves no entry unspecified: any two arrays meeting its specification are equal. |
| `ChunkMesh.IndicesInRange` | src/terrain.c:12-20 | Every value in the index array is below `CHUNK_SIZE_1 * CHUNK_SIZE_1`, i.e. a valid index into the vertex array. |
| `ChunkMesh.CellIndicesDecode` | src/terrain.c:12-17 | Every index cell `(x, z)` writes decodes to one of its own corners: column `x` or `x+1`, row `z` or `z+1`. |
| `ChunkMesh.Triangles` | src/terrain.c:45 | A `GL_TRIANGLES` draw reads the element buffer three entries at a time, giving one triangle for every three entries. |
| `ChunkMesh.LowerTriangle` | src/terrain.c:12-14 | The first triangle a cell writes, `(v(x,z), v(x+1,z), v(x,z+1))`, names three valid slots of the vertex array. |
| `ChunkMesh.UpperTriangle` | src/terrain.c:15-17 | The second triangle a cell writes, `(v(x+1,z+1), v(x,z+1), v(x+1,z))`, names three valid slots of the vertex array. |
| `ChunkMesh.CellNumbered` | src/terrain.c:9-11 | The `c`-th cell the loops visit has its entries at offset `6 * c`. |
| `ChunkMesh.CellTriangles` | src/terrain.c:12-17 | Read as a triangle list, the index array draws, for the `c`-th cell, its lower and then its upper triangle. |
| `ChunkMesh.CellTrianglesShape` | src/terrain.c:12-17 | Both triangles of a cell have three distinct corners. They share exactly the diagonal `{v(x+1,z), v(x,z+1)}`. |
| `ChunkMesh.CellWinding` | src/terrain.c:12-17 | Both triangles of a cell have the same orientation in lattice coordinates (signed doubled area +1). |
| `ChunkMesh.LowerFacesUp` | src/terrain.c:12-24 | Placed by the vertex array, a cell's first triangle has face normal (0, 1, 0). |
| `ChunkMesh.UpperFacesUp` | src/terrain.c:12-24 | Placed by the vertex array, a cell's second triangle has face normal (0, 1, 0). |
| `ChunkMesh.MeshFacesUp` | src/terrain.c:12-24 | Every triangle drawn from the two arrays names three distinct in-range vertices and faces up (normal (0, 1, 0), counter-clockwise seen from above). So back-face culling keeps the whole chunk when it is seen from above. |
| `Terrain.BuildIndices` | src/terrain.c:7-18 | The index pass's nested loops leave every cell's six entries holding its two triangles. |
| `Terrain.BuildVertices` | src/terrain.c:20-24 | The vertex pass's nested loops leave every lattice point's slot holding `(x, 0, -z)`. |
| `Terrain.Chunk.Init` | src/terrain.c:6-41 | After initialisation, the uploaded element and vertex buffers meet both specifications. |
| `Terrain.Chunk.DrawCount` | src/terrain.c:43-46 | The element count drawn, `CHUNK_SIZE * CHUNK_SIZE * 6`, equals the length of the uploaded index array. It is a whole number of triangles, and each element it reads names an uploaded vertex. |

## Left out

- The graphics backend calls (`src/terrain.c:26-40`, `44-45`, `49-51`) are foreign
  calls. They create the vertex array object and the buffers, set the attribute
  layout, issue the draw and delete the objects. The model keeps only their effect on
  data: an upload hands over the finished array's contents, and a draw reads the
  elements three at a time as triangles.
- `free_terrain` (`src/terrain.c:48-52`) only deletes backend objects. The model keeps
  no backend state for it to change.
- Vertex coordinates are single-precision floats in the source. Every value stored is
  a whole number between -16 and 16, which a float holds exactly, so the model uses
  `int`.
- Indices are `u_int32_t`. They are modelled by the `u32` type, and all values stay
  below 289, so no wrap-around can occur.
- `CHUNK_SIZE` is fixed at 16, as in `src/terrain.c:3`. The lemmas are proved for that
  size only.
- `includes/linmath.h` (floating-point vector and matrix math), `src/main.c` (window,
  input, camera and frame loop) and `src/shader.c` (shader file reading and
  compilation) are not part of this model. They are floating-point numerics, UI
  plumbing and I/O.
- Noise heights, the 3 × 3 chunk window, per-slot buffer updates and viewpoint
  recentring are not modelled, because the code does not implement them.
