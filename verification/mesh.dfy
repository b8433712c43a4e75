/**
 * Index arithmetic of one flat terrain chunk.
 *
 * A chunk is a square of ChunkSize x ChunkSize grid cells spanned by a lattice of
 * ChunkSize1 x ChunkSize1 vertices. Lattice point (a, b) lives in slot
 * VertexId(a, b) = a + b * ChunkSize1 of the vertex buffer and sits at world
 * position (a, 0, -b). Cell (x, z) owns the six element-buffer entries starting at
 * CellBase(x, z) = (x * ChunkSize + z) * 6, which describe two triangles.
 */
module ChunkMesh {

  /** Number of grid cells along each edge of a chunk (CHUNK_SIZE). */
  const ChunkSize: int := 16
  /** Number of lattice vertices along each edge of a chunk (CHUNK_SIZE_1). */
  const ChunkSize1: int := ChunkSize + 1
  /** Number of entries of the vertex buffer. */
  const VertexCount: int := ChunkSize1 * ChunkSize1
  /** Number of entries of the element buffer: six per cell. */
  const IndexCount: int := ChunkSize * ChunkSize * 6

  /** The element type of the element buffer (u_int32_t). */
  newtype u32 = x: int | 0 <= x < 0x1_0000_0000

  /** A vertex position; the coordinates the chunk uses are small whole numbers. */
  datatype Vec3 = Vec3(x: int, y: int, z: int)

  /** One triangle of the mesh, as three indices into the vertex buffer. */
  datatype Triangle = Triangle(p: int, q: int, r: int)

  predicate InLattice(a: int, b: int) {
    0 <= a < ChunkSize1 && 0 <= b < ChunkSize1
  }

  predicate InGrid(x: int, z: int) {
    0 <= x < ChunkSize && 0 <= z < ChunkSize
  }

  // ---------------------------------------------------------------------------
  // Vertex lattice
  // ---------------------------------------------------------------------------

  /** v(a, b): the vertex-buffer slot of lattice point (a, b). */
  function VertexId(a: int, b: int): (k: int)
    requires InLattice(a, b)
    ensures 0 <= k < VertexCount
  {
    a + b * ChunkSize1
  }

  /** The lattice point stored in vertex-buffer slot k: the inverse of VertexId. */
  function LatticePoint(k: int): (p: (int, int))
    requires 0 <= k < VertexCount
    ensures InLattice(p.0, p.1)
    ensures VertexId(p.0, p.1) == k
  {
    (k % ChunkSize1, k / ChunkSize1)
  }

  /** Decoding a slot number gives back the lattice point that was encoded. */
  lemma VertexIdRoundTrip(a: int, b: int)
    requires InLattice(a, b)
    ensures LatticePoint(VertexId(a, b)) == (a, b)
  {
  }

  /** Distinct lattice points occupy distinct slots. */
  lemma VertexIdInjective(a1: int, b1: int, a2: int, b2: int)
    requires InLattice(a1, b1) && InLattice(a2, b2)
    requires VertexId(a1, b1) == VertexId(a2, b2)
    ensures a1 == a2 && b1 == b2
  {
  }

  /** The position the chunk gives lattice point (a, b): height 0, z growing negative. */
  function VertexPosition(a: int, b: int): (v: Vec3)
    ensures v.y == 0
    ensures 0 <= b ==> v.z <= 0
  {
    Vec3(a, 0, -b)
  }

  /** s is the uploaded vertex buffer: every lattice point's slot holds its position. */
  ghost predicate IsVertexBuffer(s: seq<Vec3>) {
    |s| == VertexCount &&
    forall a, b :: InLattice(a, b) ==> s[VertexId(a, b)] == VertexPosition(a, b)
  }

  /**
   * Every slot of a vertex buffer is covered by the lattice: slot k holds the
   * position of the point LatticePoint(k), so its height is 0 and its z is <= 0.
   */
  lemma VertexBufferEntries(s: seq<Vec3>, k: int)
    requires IsVertexBuffer(s)
    requires 0 <= k < |s|
    ensures s[k] == VertexPosition(k % ChunkSize1, k / ChunkSize1)
    ensures s[k].y == 0 && s[k].z <= 0 && 0 <= s[k].x < ChunkSize1
  {
  }

  /** The vertex buffer is fully determined: no slot is left unspecified. */
  lemma VertexBufferUnique(s1: seq<Vec3>, s2: seq<Vec3>)
    requires IsVertexBuffer(s1) && IsVertexBuffer(s2)
    ensures s1 == s2
  {
    forall k | 0 <= k < |s1|
      ensures s1[k] == s2[k]
    {
      VertexBufferEntries(s1, k);
      VertexBufferEntries(s2, k);
    }
  }

  // ---------------------------------------------------------------------------
  // Element buffer
  // ---------------------------------------------------------------------------

  /** The first of the six element-buffer entries cell (x, z) writes. */
  function CellBase(x: int, z: int): (i: int)
    requires InGrid(x, z)
    ensures 0 <= i && i + 6 <= IndexCount
    ensures i % 6 == 0
  {
    (x * ChunkSize + z) * 6
  }

  /** The cell that writes element-buffer entry k. */
  function CellOf(k: int): (c: (int, int))
    requires 0 <= k < IndexCount
    ensures InGrid(c.0, c.1)
    ensures CellBase(c.0, c.1) <= k < CellBase(c.0, c.1) + 6
  {
    (k / 6 / ChunkSize, k / 6 % ChunkSize)
  }

  /**
   * The six entries of each cell belong to that cell only: together with the
   * postcondition of CellOf, the cells' ranges tile [0, IndexCount) without overlap.
   */
  lemma CellOfBase(x: int, z: int, j: int)
    requires InGrid(x, z) && 0 <= j < 6
    ensures CellOf(CellBase(x, z) + j) == (x, z)
  {
  }

  /** Two cells never write the same entry. */
  lemma CellBaseInjective(x1: int, z1: int, x2: int, z2: int, j1: int, j2: int)
    requires InGrid(x1, z1) && InGrid(x2, z2)
    requires 0 <= j1 < 6 && 0 <= j2 < 6
    requires CellBase(x1, z1) + j1 == CellBase(x2, z2) + j2
    ensures x1 == x2 && z1 == z2 && j1 == j2
  {
  }

  /** The six vertex indices cell (x, z) writes, in the order it writes them. */
  function CellIndices(x: int, z: int): (s: seq<int>)
    requires InGrid(x, z)
    ensures |s| == 6
    ensures forall j :: 0 <= j < 6 ==> 0 <= s[j] < VertexCount
  {
    [VertexId(x, z), VertexId(x + 1, z), VertexId(x, z + 1),
     VertexId(x + 1, z + 1), VertexId(x, z + 1), VertexId(x + 1, z)]
  }

  /** s is the uploaded element buffer: every cell's six entries hold its indices. */
  ghost predicate IsIndexBuffer(s: seq<u32>) {
    |s| == IndexCount &&
    forall x, z, j :: InGrid(x, z) && 0 <= j < 6 ==>
      s[CellBase(x, z) + j] as int == CellIndices(x, z)[j]
  }

  /** Entry k of an element buffer is the one its cell writes there. */
  lemma IndexBufferEntry(s: seq<u32>, k: int)
    requires IsIndexBuffer(s)
    requires 0 <= k < |s|
    ensures s[k] as int == CellIndices(CellOf(k).0, CellOf(k).1)[k - CellBase(CellOf(k).0, CellOf(k).1)]
  {
  }

  /** The element buffer is fully determined: every entry is written by some cell. */
  lemma IndexBufferUnique(s1: seq<u32>, s2: seq<u32>)
    requires IsIndexBuffer(s1) && IsIndexBuffer(s2)
    ensures s1 == s2
  {
    forall k | 0 <= k < |s1|
      ensures s1[k] == s2[k]
    {
      IndexBufferEntry(s1, k);
      IndexBufferEntry(s2, k);
    }
  }

  /** Every value in the element buffer is a valid slot of the vertex buffer. */
  lemma IndicesInRange(s: seq<u32>)
    requires IsIndexBuffer(s)
    ensures forall k :: 0 <= k < |s| ==> 0 <= s[k] as int < VertexCount
  {
    forall k | 0 <= k < |s|
      ensures 0 <= s[k] as int < VertexCount
    {
      IndexBufferEntry(s, k);
    }
  }

  /**
   * Each index a cell writes decodes to one of the cell's own four corners:
   * its column is x or x + 1 and its row is z or z + 1.
   */
  lemma CellIndicesDecode(x: int, z: int, j: int)
    requires InGrid(x, z) && 0 <= j < 6
    ensures LatticePoint(CellIndices(x, z)[j]).0 in {x, x + 1}
    ensures LatticePoint(CellIndices(x, z)[j]).1 in {z, z + 1}
  {
  }

  // ---------------------------------------------------------------------------
  // Triangles
  // ---------------------------------------------------------------------------

  /** How an indexed triangle-list draw reads an element buffer: three entries a triangle. */
  function Triangles(s: seq<u32>): (ts: seq<Triangle>)
    ensures |ts| == |s| / 3
  {
    seq(|s| / 3, t requires 0 <= t < |s| / 3 =>
      Triangle(s[3 * t] as int, s[3 * t + 1] as int, s[3 * t + 2] as int))
  }

  /** The lower-left triangle of cell (x, z): v(x,z), v(x+1,z), v(x,z+1). */
  function LowerTriangle(x: int, z: int): (t: Triangle)
    requires InGrid(x, z)
    ensures 0 <= t.p < VertexCount && 0 <= t.q < VertexCount && 0 <= t.r < VertexCount
  {
    Triangle(VertexId(x, z), VertexId(x + 1, z), VertexId(x, z + 1))
  }

  /** The upper-right triangle of cell (x, z): v(x+1,z+1), v(x,z+1), v(x+1,z). */
  function UpperTriangle(x: int, z: int): (t: Triangle)
    requires InGrid(x, z)
    ensures 0 <= t.p < VertexCount && 0 <= t.q < VertexCount && 0 <= t.r < VertexCount
  {
    Triangle(VertexId(x + 1, z + 1), VertexId(x, z + 1), VertexId(x + 1, z))
  }

  /** The cell numbered c in the order the index pass visits cells. */
  function CellNumbered(c: int): (xz: (int, int))
    requires 0 <= c < ChunkSize * ChunkSize
    ensures InGrid(xz.0, xz.1)
    ensures CellBase(xz.0, xz.1) == 6 * c
  {
    (c / ChunkSize, c % ChunkSize)
  }

  /** The element buffer draws, for cell number c, its lower then its upper triangle. */
  lemma CellTriangles(s: seq<u32>, c: int)
    requires IsIndexBuffer(s)
    requires 0 <= c < ChunkSize * ChunkSize
    ensures |Triangles(s)| == 2 * ChunkSize * ChunkSize
    ensures Triangles(s)[2 * c] == LowerTriangle(CellNumbered(c).0, CellNumbered(c).1)
    ensures Triangles(s)[2 * c + 1] == UpperTriangle(CellNumbered(c).0, CellNumbered(c).1)
  {
    var xz := CellNumbered(c);
    var x, z := xz.0, xz.1;
    var b := CellBase(x, z);
    var cell := CellIndices(x, z);
    assert s[b + 0] as int == cell[0] && s[b + 1] as int == cell[1] && s[b + 2] as int == cell[2];
    assert s[b + 3] as int == cell[3] && s[b + 4] as int == cell[4] && s[b + 5] as int == cell[5];
    var ts := Triangles(s);
    assert ts[2 * c] == Triangle(s[b] as int, s[b + 1] as int, s[b + 2] as int);
    assert ts[2 * c + 1] == Triangle(s[b + 3] as int, s[b + 4] as int, s[b + 5] as int);
  }

  function Corners(t: Triangle): set<int> {
    {t.p, t.q, t.r}
  }

  predicate NonDegenerate(t: Triangle) {
    t.p != t.q && t.q != t.r && t.p != t.r
  }

  /**
   * Within a cell both triangles have three distinct corners, and they share exactly
   * the diagonal from v(x+1, z) to v(x, z+1).
   */
  lemma CellTrianglesShape(x: int, z: int)
    requires InGrid(x, z)
    ensures NonDegenerate(LowerTriangle(x, z)) && NonDegenerate(UpperTriangle(x, z))
    ensures Corners(LowerTriangle(x, z)) * Corners(UpperTriangle(x, z))
            == {VertexId(x + 1, z), VertexId(x, z + 1)}
  {
  }

  /**
   * Twice the signed area of a triangle in lattice coordinates: positive when its
   * corners run counter-clockwise in the (a, b) plane.
   */
  function LatticeOrientation(t: Triangle): int
    requires 0 <= t.p < VertexCount && 0 <= t.q < VertexCount && 0 <= t.r < VertexCount
  {
    var p, q, r := LatticePoint(t.p), LatticePoint(t.q), LatticePoint(t.r);
    (q.0 - p.0) * (r.1 - p.1) - (q.1 - p.1) * (r.0 - p.0)
  }

  /** Both triangles of a cell wind the same way, each covering half a unit square. */
  lemma CellWinding(x: int, z: int)
    requires InGrid(x, z)
    ensures LatticeOrientation(LowerTriangle(x, z)) == 1
    ensures LatticeOrientation(UpperTriangle(x, z)) == 1
  {
    VertexIdRoundTrip(x, z);
    VertexIdRoundTrip(x + 1, z);
    VertexIdRoundTrip(x, z + 1);
    VertexIdRoundTrip(x + 1, z + 1);
    var lo, up := LowerTriangle(x, z), UpperTriangle(x, z);
    assert LatticePoint(lo.p) == (x, z) && LatticePoint(lo.q) == (x + 1, z) && LatticePoint(lo.r) == (x, z + 1);
    assert LatticeOrientation(lo) == 1 * 1 - 0 * 0;
    assert LatticePoint(up.p) == (x + 1, z + 1) && LatticePoint(up.q) == (x, z + 1) && LatticePoint(up.r) == (x + 1, z);
    assert LatticeOrientation(up) == (-1) * (-1) - 0 * 0;
  }

  function Sub(u: Vec3, v: Vec3): Vec3 {
    Vec3(u.x - v.x, u.y - v.y, u.z - v.z)
  }

  function Cross(u: Vec3, v: Vec3): Vec3 {
    Vec3(u.y * v.z - u.z * v.y, u.z * v.x - u.x * v.z, u.x * v.y - u.y * v.x)
  }

  /** The (unnormalised) face normal of a triangle whose corners run P, Q, R. */
  function FaceNormal(p: Vec3, q: Vec3, r: Vec3): Vec3 {
    Cross(Sub(q, p), Sub(r, p))
  }

  /**
   * A triangle lying in a horizontal plane has a vertical normal, whose length and
   * sign are the signed area of its shadow on the ground.
   */
  lemma HorizontalNormal(p: Vec3, q: Vec3, r: Vec3)
    requires p.y == q.y == r.y
    ensures FaceNormal(p, q, r) ==
      Vec3(0, Sub(q, p).z * Sub(r, p).x - Sub(q, p).x * Sub(r, p).z, 0)
  {
  }

  /** The lower triangle of cell (x, z), placed by a vertex buffer, has face normal (0, 1, 0). */
  lemma LowerFacesUp(v: seq<Vec3>, x: int, z: int)
    requires IsVertexBuffer(v) && InGrid(x, z)
    ensures var t := LowerTriangle(x, z);
      FaceNormal(v[t.p], v[t.q], v[t.r]) == Vec3(0, 1, 0)
  {
    // Spelled out so that the nonlinear products in FaceNormal stay cheap for the solver.
    var p, q, r := v[VertexId(x, z)], v[VertexId(x + 1, z)], v[VertexId(x, z + 1)];
    assert p == VertexPosition(x, z) && q == VertexPosition(x + 1, z) && r == VertexPosition(x, z + 1);
    assert Sub(q, p).z * Sub(r, p).x - Sub(q, p).x * Sub(r, p).z == 1;
    HorizontalNormal(p, q, r);
  }

  /** The upper triangle of cell (x, z), placed by a vertex buffer, has face normal (0, 1, 0). */
  lemma UpperFacesUp(v: seq<Vec3>, x: int, z: int)
    requires IsVertexBuffer(v) && InGrid(x, z)
    ensures var t := UpperTriangle(x, z);
      FaceNormal(v[t.p], v[t.q], v[t.r]) == Vec3(0, 1, 0)
  {
    // Spelled out so that the nonlinear products in FaceNormal stay cheap for the solver.
    var p, q, r := v[VertexId(x + 1, z + 1)], v[VertexId(x, z + 1)], v[VertexId(x + 1, z)];
    assert p == VertexPosition(x + 1, z + 1) && q == VertexPosition(x, z + 1) && r == VertexPosition(x + 1, z);
    assert Sub(q, p).z * Sub(r, p).x - Sub(q, p).x * Sub(r, p).z == 1;
    HorizontalNormal(p, q, r);
  }

  /**
   * Every triangle drawn from the two buffers refers to three distinct uploaded
   * vertices and has face normal (0, 1, 0): with counter-clockwise front faces, the
   * whole chunk faces up, so back-face culling keeps it when seen from above.
   */
  lemma MeshFacesUp(e: seq<u32>, v: seq<Vec3>, t: int)
    requires IsIndexBuffer(e) && IsVertexBuffer(v)
    requires 0 <= t < |Triangles(e)|
    ensures var tri := Triangles(e)[t];
      0 <= tri.p < |v| && 0 <= tri.q < |v| && 0 <= tri.r < |v| &&
      NonDegenerate(tri) &&
      FaceNormal(v[tri.p], v[tri.q], v[tri.r]) == Vec3(0, 1, 0)
  {
    var c := t / 2;
    CellTriangles(e, c);
    var xz := CellNumbered(c);
    CellTrianglesShape(xz.0, xz.1);
    LowerFacesUp(v, xz.0, xz.1);
    UpperFacesUp(v, xz.0, xz.1);
    assert t == 2 * c || t == 2 * c + 1;
  }
}
